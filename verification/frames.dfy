/**
 * The frame decoder of the chat stream (Chatbot.js, `parseFrames`): a
 * simplified reading of the server-sent-events format. Complete frames
 * end with a blank line ("\n\n"); the partial tail is kept in a buffer
 * until the next chunk arrives.
 */
module Frames {
  import opened Text

  /** One decoded protocol unit. */
  datatype Frame = Frame(event: string, data: string)

  /** The only frame separator the decoder recognises (no CR handling). */
  const FrameSeparator: string := "\n\n"
  const EventPrefix: string := "event:"
  const DataPrefix: string := "data:"
  const DefaultEvent: string := "message"

  predicate IsEventLine(line: string) { StartsWith(line, EventPrefix) }
  predicate IsDataLine(line: string) { StartsWith(line, DataPrefix) }

  /** `lines.filter(Boolean)`: the empty lines are dropped, the others kept in order. */
  function NonEmptyLines(lines: seq<string>): (r: seq<string>)
    ensures |r| <= |lines|
    ensures forall k :: 0 <= k < |r| ==> r[k] != ""
    ensures forall line :: line != "" ==> multiset(r)[line] == multiset(lines)[line]
    ensures |lines| == 1 ==> r == (if lines[0] == "" then [] else lines)
  {
    if lines == [] then []
    else
      var init := lines[..|lines| - 1];
      assert lines == init + [lines[|lines| - 1]];
      if lines[|lines| - 1] == "" then NonEmptyLines(init)
      else NonEmptyLines(init) + [lines[|lines| - 1]]
  }

  /** `filter` keeps the order of the lines: filtering two groups of lines is filtering each. */
  lemma {:induction false} NonEmptyLinesAppend(a: seq<string>, b: seq<string>)
    ensures NonEmptyLines(a + b) == NonEmptyLines(a) + NonEmptyLines(b)
    decreases |b|
  {
    if b == [] {
      assert a + b == a;
    } else {
      var init := b[..|b| - 1];
      assert (a + b)[..|a + b| - 1] == a + init;
      NonEmptyLinesAppend(a, init);
    }
  }

  /** The event name of a frame with these lines: the trimmed remainder of the last `event:` line, "message" if none. */
  function EventOf(lines: seq<string>): (r: string)
    ensures r == DefaultEvent || exists k :: 0 <= k < |lines| && IsEventLine(lines[k]) && r == Trim(lines[k][|EventPrefix|..])
    decreases |lines|
  {
    if lines == [] then DefaultEvent
    else
      var line := lines[|lines| - 1];
      if IsEventLine(line) then Trim(line[|EventPrefix|..])
      else
        var init := lines[..|lines| - 1];
        assert forall k :: 0 <= k < |init| ==> init[k] == lines[k];
        EventOf(init)
  }

  /** The data of a frame with these lines: the trimmed remainders of its `data:` lines, concatenated in order. */
  function DataOf(lines: seq<string>): (r: string)
    ensures lines == [] ==> r == ""
    ensures |lines| == 1 ==> r == DataPiece(lines[0])
  {
    // Both branches compute the same value; the first one only carries the
    // unfolding of `ConcatMap` that the one-line postcondition needs.
    if |lines| == 1 then
      assert lines[..|lines| - 1] == [];
      assert ConcatMap(lines, DataPiece) == "" + DataPiece(lines[0]);
      ConcatMap(lines, DataPiece)
    else ConcatMap(lines, DataPiece)
  }

  /** What one line adds to the data: the trimmed remainder of a `data:` line, nothing otherwise. */
  function DataPiece(line: string): string
  {
    if !IsEventLine(line) && IsDataLine(line) then Trim(line[|DataPrefix|..]) else ""
  }

  /**
   * The frame a complete segment decodes to. The empty lines `filter`
   * drops make no difference: the frame is that of all the segment's lines.
   */
  function FrameOf(segment: string): (f: Frame)
    ensures var lines := Split(segment, "\n");
      f.event == EventOf(lines) && f.data == DataOf(lines)
  {
    var lines := NonEmptyLines(Split(segment, "\n"));
    EmptyLinesAreIgnored(Split(segment, "\n"));
    Frame(EventOf(lines), DataOf(lines))
  }

  /**
   * Parses one complete segment, line by line, as the decoder does:
   * the event name defaults to "message", every `event:` line replaces it,
   * and every `data:` line appends its trimmed remainder.
   */
  method ParseFrame(segment: string) returns (f: Frame)
    ensures f == FrameOf(segment)
  {
    var lines := NonEmptyLines(Split(segment, "\n"));
    var event, data := DefaultEvent, "";
    for i := 0 to |lines|
      invariant event == EventOf(lines[..i])
      invariant data == DataOf(lines[..i])
    {
      var line := lines[i];
      NextLine(lines, i);
      if StartsWith(line, EventPrefix) {
        event := Trim(line[|EventPrefix|..]);
      } else if StartsWith(line, DataPrefix) {
        data := data + Trim(line[|DataPrefix|..]);
      }
    }
    assert lines[..|lines|] == lines;
    f := Frame(event, data);
  }

  /** What one more line does to the event name and the data. */
  lemma NextLine(lines: seq<string>, i: nat)
    requires i < |lines|
    ensures EventOf(lines[..i + 1]) == if IsEventLine(lines[i]) then Trim(lines[i][|EventPrefix|..]) else EventOf(lines[..i])
    ensures DataOf(lines[..i + 1]) == DataOf(lines[..i]) + DataPiece(lines[i])
  {
    assert lines[..i + 1] == lines[..i] + [lines[i]];
    assert lines[..i + 1][..i] == lines[..i];
    DataOfAppend(lines[..i], [lines[i]]);
  }

  /** The last `event:` line decides the event name, whatever came before it. */
  lemma {:induction false} LastEventLineWins(lines: seq<string>, k: nat)
    requires k < |lines| && IsEventLine(lines[k])
    requires forall j :: k < j < |lines| ==> !IsEventLine(lines[j])
    ensures EventOf(lines) == Trim(lines[k][|EventPrefix|..])
    decreases |lines|
  {
    if k < |lines| - 1 {
      var init := lines[..|lines| - 1];
      assert !IsEventLine(lines[|lines| - 1]);
      LastEventLineWins(init, k);
    }
  }

  /** Without any `event:` line the event name is "message". */
  lemma {:induction false} EventDefaultsToMessage(lines: seq<string>)
    requires forall j :: 0 <= j < |lines| ==> !IsEventLine(lines[j])
    ensures EventOf(lines) == DefaultEvent
    decreases |lines|
  {
    if lines != [] {
      EventDefaultsToMessage(lines[..|lines| - 1]);
    }
  }

  /** The data of consecutive groups of lines is the concatenation of their data. */
  lemma DataOfAppend(a: seq<string>, b: seq<string>)
    ensures DataOf(a + b) == DataOf(a) + DataOf(b)
  {
    ConcatMapAppend(a, b, DataPiece);
  }

  /** Dropping empty lines first changes neither the event name nor the data. */
  lemma {:induction false} EmptyLinesAreIgnored(lines: seq<string>)
    ensures EventOf(NonEmptyLines(lines)) == EventOf(lines)
    ensures DataOf(NonEmptyLines(lines)) == DataOf(lines)
    decreases |lines|
  {
    if lines != [] {
      var init := lines[..|lines| - 1];
      var line := lines[|lines| - 1];
      EmptyLinesAreIgnored(init);
      if line != "" {
        var kept := NonEmptyLines(init) + [line];
        assert kept[..|kept| - 1] == NonEmptyLines(init);
      }
    }
  }

  /**
   * The decoder's buffer (Chatbot.js, `buffer` in `streamResponse`).
   * `consumed` is everything fed so far and `emitted` every complete
   * segment handed out; the invariant says the two agree with splitting
   * the whole input at once, which is chunk-boundary independence.
   */
  class Decoder {
    var buffer: string
    ghost var consumed: string
    ghost var emitted: seq<string>

    ghost predicate Valid()
      reads this
    {
      Split(consumed, FrameSeparator) == emitted + [buffer]
    }

    constructor ()
      ensures Valid() && buffer == "" && consumed == "" && emitted == []
    {
      buffer := "";
      consumed := "";
      emitted := [];
    }

    /** A valid buffer never holds a complete frame. */
    lemma BufferHasNoSeparator()
      requires Valid()
      ensures !Includes(buffer, FrameSeparator)
    {
      SplitPartsExcludeSeparator(consumed, FrameSeparator);
      assert Split(consumed, FrameSeparator)[|emitted|] == buffer;
    }

    /**
     * Appends a chunk to the buffer, hands out the complete segments and
     * keeps the rest: old buffer + chunk is the segments and the new buffer
     * joined by blank lines, and the new buffer holds no blank line.
     */
    method Feed(chunk: string) returns (segments: seq<string>)
      requires Valid()
      modifies this
      ensures Valid()
      ensures segments + [buffer] == Split(old(buffer) + chunk, FrameSeparator)
      ensures Join(segments + [buffer], FrameSeparator) == old(buffer) + chunk
      ensures !Includes(buffer, FrameSeparator)
      ensures consumed == old(consumed) + chunk
      ensures emitted == old(emitted) + segments
    {
      var whole := buffer + chunk;
      var frames := Split(whole, FrameSeparator);
      segments := frames[..|frames| - 1];
      buffer := frames[|frames| - 1];
      assert frames == segments + [buffer];
      JoinSplit(whole, FrameSeparator);
      SplitExtends(consumed, emitted, old(buffer), chunk, FrameSeparator);
      consumed := consumed + chunk;
      emitted := emitted + segments;
      assert Split(consumed, FrameSeparator) == emitted + [buffer];
      BufferHasNoSeparator();
    }
  }

  /** Prepending complete parts leaves the last part alone. */
  lemma AppendParts(done: seq<string>, tail: seq<string>)
    requires |tail| > 0
    ensures AllButLast(done + tail) == done + AllButLast(tail)
    ensures LastPart(done + tail) == LastPart(tail)
  {
  }
}
