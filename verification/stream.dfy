/**
 * The read loop of `streamResponse` (Chatbot.js) as a function of the
 * chunks a response delivers, and what it does to the transcript.
 */
module Stream {
  import opened Text
  import opened Frames
  import opened Events

  /** How a read loop ends: the transcript, and whether a `done` frame aborted the stream. */
  datatype StreamEnd = StreamEnd(messages: seq<Message>, sawDone: bool)

  /** The complete frames in a text the decoder has read from an empty buffer. */
  function CompleteFrames(text: string): seq<Frame>
  {
    FramesOf(AllButLast(Split(text, FrameSeparator)))
  }

  /** What the decoder keeps in its buffer after reading a text from an empty buffer. */
  function Leftover(text: string): string
  {
    LastPart(Split(text, FrameSeparator))
  }

  /** The leftover never holds a blank line. */
  lemma LeftoverHasNoSeparator(text: string)
    ensures !Includes(Leftover(text), FrameSeparator)
  {
    SplitPartsExcludeSeparator(text, FrameSeparator);
  }

  /** Reading more text adds frames after those already complete, decoded from the leftover onwards. */
  lemma CompleteFramesAppend(text: string, more: string)
    ensures CompleteFrames(text + more) == CompleteFrames(text) + CompleteFrames(Leftover(text) + more)
    ensures Leftover(text + more) == Leftover(Leftover(text) + more)
  {
    var parts := Split(text, FrameSeparator);
    SplitAppend(text, more, FrameSeparator);
    var tail := Split(LastPart(parts) + more, FrameSeparator);
    AppendParts(AllButLast(parts), tail);
    FramesOfAppend(AllButLast(parts), AllButLast(tail));
  }

  /** A text without a blank line holds no complete frame and is all leftover. */
  lemma NoFramesWithoutSeparator(text: string)
    requires !Includes(text, FrameSeparator)
    ensures CompleteFrames(text) == [] && Leftover(text) == text
  {
    SplitWithoutSeparator(text, FrameSeparator);
  }

  /**
   * The read loop over the chunks still to come, with the decoder holding
   * `buffer`. Each chunk's complete frames are all interpreted, even those
   * after a `done` frame in the same chunk; a `done` frame aborts the
   * request, so the next read fails and no later chunk is read.
   */
  function ReadLoop(buffer: string, messages: seq<Message>, chunks: seq<string>, parse: Parser): (r: StreamEnd)
    ensures |r.messages| == |messages|
    ensures r.sawDone == DoneIn(FramesRead(buffer, chunks))
    decreases |chunks|
  {
    if chunks == [] then StreamEnd(messages, false)
    else
      var frames := CompleteFrames(buffer + chunks[0]);
      var next := Transcript(messages, frames, parse);
      if DoneIn(frames) then StreamEnd(next, true)
      else
        DoneInAppend(frames, FramesRead(Leftover(buffer + chunks[0]), chunks[1..]));
        ReadLoop(Leftover(buffer + chunks[0]), next, chunks[1..], parse)
  }

  /**
   * One step of the read loop: the first chunk's complete frames are
   * interpreted, and the loop ends there exactly when they hold `done`.
   */
  lemma ReadLoopStep(buffer: string, messages: seq<Message>, chunks: seq<string>, parse: Parser)
    requires chunks != []
    ensures var frames := CompleteFrames(buffer + chunks[0]);
      DoneIn(frames) ==> ReadLoop(buffer, messages, chunks, parse) == StreamEnd(Transcript(messages, frames, parse), true)
    ensures var frames := CompleteFrames(buffer + chunks[0]);
      !DoneIn(frames) ==>
        ReadLoop(buffer, messages, chunks, parse)
          == ReadLoop(Leftover(buffer + chunks[0]), Transcript(messages, frames, parse), chunks[1..], parse)
  {
  }

  /** How many chunks the read loop consumes before it stops. */
  function ChunksRead(buffer: string, chunks: seq<string>): (n: nat)
    ensures n <= |chunks|
    decreases |chunks|
  {
    if chunks == [] then 0
    else if DoneIn(CompleteFrames(buffer + chunks[0])) then 1
    else 1 + ChunksRead(Leftover(buffer + chunks[0]), chunks[1..])
  }

  /** The frames the read loop interprets, chunk by chunk, in order. */
  function FramesRead(buffer: string, chunks: seq<string>): seq<Frame>
    decreases |chunks|
  {
    if chunks == [] then []
    else
      var frames := CompleteFrames(buffer + chunks[0]);
      if DoneIn(frames) then frames
      else frames + FramesRead(Leftover(buffer + chunks[0]), chunks[1..])
  }

  /**
   * The read loop interprets exactly the frames it reads, in order, and
   * it saw `done` iff one of them is `done`.
   */
  lemma {:induction false} ReadLoopInterpretsFramesRead(buffer: string, messages: seq<Message>, chunks: seq<string>, parse: Parser)
    ensures var frames := FramesRead(buffer, chunks);
      ReadLoop(buffer, messages, chunks, parse) == StreamEnd(Transcript(messages, frames, parse), DoneIn(frames))
    decreases |chunks|
  {
    if chunks != [] {
      var first := buffer + chunks[0];
      var frames := CompleteFrames(first);
      if !DoneIn(frames) {
        var next := Transcript(messages, frames, parse);
        var later := FramesRead(Leftover(first), chunks[1..]);
        ReadLoopInterpretsFramesRead(Leftover(first), next, chunks[1..], parse);
        TranscriptAppend(messages, frames, later, parse);
        DoneInAppend(frames, later);
      }
    }
  }

  /**
   * The frames read do not depend on where the chunks were cut: they are
   * the complete frames of the buffer followed by the text of the chunks
   * read; the unterminated tail of that text is never interpreted.
   */
  lemma {:induction false} FramesReadAreCompleteFrames(buffer: string, chunks: seq<string>)
    requires !Includes(buffer, FrameSeparator)
    ensures FramesRead(buffer, chunks) == CompleteFrames(buffer + Concat(chunks[..ChunksRead(buffer, chunks)]))
    decreases |chunks|
  {
    var n := ChunksRead(buffer, chunks);
    if chunks == [] {
      assert buffer + Concat(chunks[..n]) == buffer;
      NoFramesWithoutSeparator(buffer);
    } else {
      var first := buffer + chunks[0];
      if DoneIn(CompleteFrames(first)) {
        assert chunks[..n] == [chunks[0]];
        assert Concat([chunks[0]]) == chunks[0];
      } else {
        var rest := chunks[1..];
        LeftoverHasNoSeparator(first);
        FramesReadAreCompleteFrames(Leftover(first), rest);
        FramesReadStep(buffer, chunks);
      }
    }
  }

  /** The inductive step of `FramesReadAreCompleteFrames`, for a first chunk without `done`. */
  lemma FramesReadStep(buffer: string, chunks: seq<string>)
    requires chunks != [] && !DoneIn(CompleteFrames(buffer + chunks[0]))
    requires var first := buffer + chunks[0];
      FramesRead(Leftover(first), chunks[1..])
        == CompleteFrames(Leftover(first) + Concat(chunks[1..][..ChunksRead(Leftover(first), chunks[1..])]))
    ensures FramesRead(buffer, chunks) == CompleteFrames(buffer + Concat(chunks[..ChunksRead(buffer, chunks)]))
  {
    var first := buffer + chunks[0];
    var rest := chunks[1..];
    var n' := ChunksRead(Leftover(first), rest);
    var more := Concat(rest[..n']);
    ConcatPrefix(chunks, 1 + n');
    AppendAssociates(buffer, chunks[0], more);
    CompleteFramesAppend(first, more);
  }

  /**
   * Regrouping a concatenation. It models nothing of the component: it is a
   * separate lemma only so that `FramesReadStep` stays within its proof budget.
   */
  lemma AppendAssociates(a: string, b: string, c: string)
    ensures a + (b + c) == (a + b) + c
  {
  }

  /** The text of the first `n` chunks is the first chunk followed by the text of the next `n - 1`. */
  lemma ConcatPrefix(chunks: seq<string>, n: nat)
    requires 1 <= n <= |chunks|
    ensures Concat(chunks[..n]) == chunks[0] + Concat(chunks[1..][..n - 1])
  {
    assert chunks[..n][1..] == chunks[1..][..n - 1];
  }

  /** The loop stops early only because of a `done` frame. */
  lemma {:induction false} ReadLoopStopsOnlyAtDone(buffer: string, chunks: seq<string>)
    requires ChunksRead(buffer, chunks) < |chunks|
    ensures DoneIn(FramesRead(buffer, chunks))
    decreases |chunks|
  {
    var first := buffer + chunks[0];
    var frames := CompleteFrames(first);
    if !DoneIn(frames) {
      ReadLoopStopsOnlyAtDone(Leftover(first), chunks[1..]);
      DoneInAppend(frames, FramesRead(Leftover(first), chunks[1..]));
    }
  }

  /**
   * Chunk-boundary independence of the transcript: when the whole response
   * holds no `done` frame, however it is cut into chunks, the transcript is
   * that of every complete frame of the whole text, and the final,
   * unterminated segment is dropped.
   */
  lemma ReadLoopWithoutDone(messages: seq<Message>, chunks: seq<string>, parse: Parser)
    requires !DoneIn(CompleteFrames(Concat(chunks)))
    ensures ReadLoop("", messages, chunks, parse)
      == StreamEnd(Transcript(messages, CompleteFrames(Concat(chunks)), parse), false)
  {
    assert !Includes("", FrameSeparator);
    assert "" + Concat(chunks) == Concat(chunks);
    AllChunksReadWithoutDone("", chunks);
    assert chunks[..|chunks|] == chunks;
    FramesReadAreCompleteFrames("", chunks);
    ReadLoopInterpretsFramesRead("", messages, chunks, parse);
  }

  /** Without a `done` frame in the whole text, the loop reads every chunk. */
  lemma AllChunksReadWithoutDone(buffer: string, chunks: seq<string>)
    requires !Includes(buffer, FrameSeparator)
    requires !DoneIn(CompleteFrames(buffer + Concat(chunks)))
    ensures ChunksRead(buffer, chunks) == |chunks|
  {
    if ChunksRead(buffer, chunks) < |chunks| {
      EarlyStopSawDone(buffer, chunks);
      assert false;
    }
  }

  /** A loop that stops before the last chunk has a `done` frame in the text it read. */
  lemma EarlyStopSawDone(buffer: string, chunks: seq<string>)
    requires !Includes(buffer, FrameSeparator)
    requires ChunksRead(buffer, chunks) < |chunks|
    ensures DoneIn(CompleteFrames(buffer + Concat(chunks)))
  {
    var n := ChunksRead(buffer, chunks);
    DoneInTextRead(buffer, chunks);
    TextSplit(buffer, chunks, n);
    DoneStaysDone(buffer + Concat(chunks[..n]), Concat(chunks[n..]), buffer + Concat(chunks));
  }

  /** A loop that stops before the last chunk saw `done` in the text it read. */
  lemma DoneInTextRead(buffer: string, chunks: seq<string>)
    requires !Includes(buffer, FrameSeparator)
    requires ChunksRead(buffer, chunks) < |chunks|
    ensures DoneIn(CompleteFrames(buffer + Concat(chunks[..ChunksRead(buffer, chunks)])))
  {
    ReadLoopStopsOnlyAtDone(buffer, chunks);
    FramesReadAreCompleteFrames(buffer, chunks);
  }

  lemma TextSplit(buffer: string, chunks: seq<string>, n: nat)
    requires n <= |chunks|
    ensures buffer + Concat(chunks) == (buffer + Concat(chunks[..n])) + Concat(chunks[n..])
  {
    ConcatSplit(chunks, n);
  }

  /** The text of all chunks is that of the first `n` followed by that of the rest. */
  lemma ConcatSplit(chunks: seq<string>, n: nat)
    requires n <= |chunks|
    ensures Concat(chunks) == Concat(chunks[..n]) + Concat(chunks[n..])
  {
    ConcatAppend(chunks[..n], chunks[n..]);
    assert chunks[..n] + chunks[n..] == chunks;
  }

  /** Once a `done` frame is complete, more text cannot take it back. */
  lemma DoneStaysDone(t: string, u: string, whole: string)
    requires whole == t + u && DoneIn(CompleteFrames(t))
    ensures DoneIn(CompleteFrames(whole))
  {
    CompleteFramesAppend(t, u);
    DoneInAppend(CompleteFrames(t), CompleteFrames(Leftover(t) + u));
  }

  /** The text of the chunks the read loop consumes from an empty buffer. */
  function TextRead(chunks: seq<string>): string
  {
    Concat(chunks[..ChunksRead("", chunks)])
  }

  /**
   * What a whole response does to a transcript that ends with the message
   * being answered: the other messages stay as they were, and the last one
   * keeps its role, gains exactly the deltas of the frames read, in order,
   * and takes the sources of the last `meta` frame read.
   */
  lemma ReadLoopEffect(messages: seq<Message>, chunks: seq<string>, parse: Parser)
    requires messages != []
    ensures var r := ReadLoop("", messages, chunks, parse).messages;
      var frames := CompleteFrames(TextRead(chunks));
      && |r| == |messages|
      && Earlier(r) == Earlier(messages)
      && LastMessage(r).role == LastMessage(messages).role
      && LastMessage(r).content == LastMessage(messages).content + Deltas(frames, parse)
      && LastMessage(r).sources == LastSources(frames, parse, LastMessage(messages).sources)
  {
    assert !Includes("", FrameSeparator);
    ReadLoopInterpretsFramesRead("", messages, chunks, parse);
    FramesReadAreCompleteFrames("", chunks);
    assert "" + TextRead(chunks) == TextRead(chunks);
    TranscriptEffect(messages, CompleteFrames(TextRead(chunks)), parse);
  }
}
