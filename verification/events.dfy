/**
 * The event interpreter of the chat stream (Chatbot.js, `commitDelta`,
 * `applyMeta` and the event dispatch in `parseFrames`), and its effect on
 * the transcript over a whole sequence of frames.
 */
module Events {
  import opened Wrappers
  import opened Text
  import opened Frames

  datatype Role = User | Assistant

  /** A chat message; a user message has no `sources` field, which is `None` here. */
  datatype Message = Message(role: Role, content: string, sources: Option<seq<string>>)

  /**
   * What `JSON.parse` of a frame's data gives, as far as the interpreter
   * reads it: a falsy value (null, false, 0, "") or a truthy value with its
   * string `delta` and string-array `sources` fields, each possibly absent.
   */
  datatype Payload = Falsy | Value(delta: Option<string>, sources: Option<seq<string>>)

  /** `JSON.parse` on frame data: `None` where it throws. */
  type Parser = string -> Option<Payload>

  const ChunkEvent: string := "chunk"
  const MetaEvent: string := "meta"
  const DoneEvent: string := "done"

  /** The last message, whose content and sources the stream updates. */
  function LastMessage(messages: seq<Message>): Message
    requires |messages| > 0
  {
    messages[|messages| - 1]
  }

  /** Every message but the last. */
  function Earlier(messages: seq<Message>): seq<Message>
    requires |messages| > 0
  {
    messages[..|messages| - 1]
  }

  /**
   * `commitDelta`: the copy of the transcript whose last message has `delta`
   * appended to its content. An empty transcript has no last message and
   * stays as it is.
   */
  function CommitDelta(messages: seq<Message>, delta: string): (r: seq<Message>)
    ensures |r| == |messages|
    ensures messages != [] ==>
      && Earlier(r) == Earlier(messages)
      && LastMessage(r).content == LastMessage(messages).content + delta
      && LastMessage(r).role == LastMessage(messages).role
      && LastMessage(r).sources == LastMessage(messages).sources
  {
    if messages == [] then messages
    else
      var last := LastMessage(messages);
      Earlier(messages) + [last.(content := last.content + delta)]
  }

  /**
   * `applyMeta`: a falsy payload changes nothing; otherwise the last
   * message's sources become the payload's `sources`, or `[]` without one.
   */
  function ApplyMeta(messages: seq<Message>, meta: Payload): (r: seq<Message>)
    ensures |r| == |messages|
    ensures meta.Falsy? ==> r == messages
    ensures messages != [] ==>
      && Earlier(r) == Earlier(messages)
      && LastMessage(r).content == LastMessage(messages).content
      && LastMessage(r).role == LastMessage(messages).role
      && (meta.Value? ==> LastMessage(r).sources == Some(meta.sources.GetOr([])))
  {
    if meta.Falsy? || messages == [] then messages
    else
      var last := LastMessage(messages);
      Earlier(messages) + [last.(sources := Some(meta.sources.GetOr([])))]
  }

  /** The effect of one frame on the transcript, as `parseFrames` dispatches it. */
  function Apply(f: Frame, messages: seq<Message>, parse: Parser): (r: seq<Message>)
    ensures |r| == |messages|
    ensures messages != [] ==>
      && Earlier(r) == Earlier(messages)
      && LastMessage(r).role == LastMessage(messages).role
      && LastMessage(r).content == LastMessage(messages).content + DeltaOf(f, parse)
      && LastMessage(r).sources
        == if SetsSources(f, parse) then Some(parse(f.data).value.sources.GetOr([])) else LastMessage(messages).sources
  {
    if f.event == MetaEvent then
      match parse(f.data)
      case Some(meta) => ApplyMeta(messages, meta)
      case None => messages
    else if f.event == ChunkEvent then
      match parse(f.data)
      case Some(Value(Some(delta), _)) => if delta != "" then CommitDelta(messages, delta) else messages
      case _ => messages
    else messages
  }

  /**
   * The frames that leave the transcript as it is: a `meta` frame whose
   * data does not parse, a `chunk` frame without a non-empty `delta`
   * (unparsable, falsy, absent or empty), and a frame of any other event,
   * `done` included.
   */
  lemma ApplyNoOps(f: Frame, messages: seq<Message>, parse: Parser)
    ensures f.event == MetaEvent && parse(f.data).None? ==> Apply(f, messages, parse) == messages
    ensures f.event == MetaEvent && parse(f.data) == Some(Falsy) ==> Apply(f, messages, parse) == messages
    ensures f.event == ChunkEvent && DeltaOf(f, parse) == "" ==> Apply(f, messages, parse) == messages
    ensures f.event != MetaEvent && f.event != ChunkEvent ==> Apply(f, messages, parse) == messages
  {
  }

  /** The frames that complete segments decode to, in order. */
  function FramesOf(segments: seq<string>): (r: seq<Frame>)
    ensures |r| == |segments|
  {
    Map(segments, FrameOf)
  }

  /** Decoding consecutive groups of segments gives consecutive groups of frames. */
  lemma FramesOfAppend(a: seq<string>, b: seq<string>)
    ensures FramesOf(a + b) == FramesOf(a) + FramesOf(b)
  {
    MapAppend(a, b, FrameOf);
  }

  /** The frame at a position is the frame of the segment at that position. */
  lemma FramesOfIndex(segments: seq<string>, k: nat)
    requires k < |segments|
    ensures FramesOf(segments)[k] == FrameOf(segments[k])
  {
    MapIndex(segments, FrameOf, k);
  }

  /** The transcript after these frames were interpreted in order. */
  function Transcript(messages: seq<Message>, frames: seq<Frame>, parse: Parser): (r: seq<Message>)
    ensures |r| == |messages|
  {
    if frames == [] then messages
    else Apply(frames[|frames| - 1], Transcript(messages, frames[..|frames| - 1], parse), parse)
  }

  /** Whether one of these frames is a `done` frame. */
  predicate DoneIn(frames: seq<Frame>)
  {
    frames != [] && (DoneIn(frames[..|frames| - 1]) || frames[|frames| - 1].event == DoneEvent)
  }

  /** The text a frame adds to the answer: the non-empty `delta` of a parsable `chunk` frame. */
  function DeltaOf(f: Frame, parse: Parser): string
  {
    if f.event == ChunkEvent && parse(f.data).Some? && parse(f.data).value.Value?
       && parse(f.data).value.delta.Some?
    then parse(f.data).value.delta.value
    else ""
  }

  /** All text the frames add to the answer, in arrival order. */
  function Deltas(frames: seq<Frame>, parse: Parser): string
  {
    ConcatMap(frames, (f: Frame) => DeltaOf(f, parse))
  }

  /** Whether a frame replaces the sources: a `meta` frame whose data parses to a truthy value. */
  predicate SetsSources(f: Frame, parse: Parser)
  {
    f.event == MetaEvent && parse(f.data).Some? && parse(f.data).value.Value?
  }

  /** The sources after these frames: those of the last frame that sets them, or `prior`. */
  function LastSources(frames: seq<Frame>, parse: Parser, prior: Option<seq<string>>): Option<seq<string>>
  {
    if frames == [] then prior
    else
      var f := frames[|frames| - 1];
      if SetsSources(f, parse) then Some(parse(f.data).value.sources.GetOr([]))
      else LastSources(frames[..|frames| - 1], parse, prior)
  }

  /**
   * What a stream of frames does to the transcript: the number of messages
   * and every message but the last stay as they were, the last keeps its
   * role, its content grows by exactly the deltas in arrival order, and its
   * sources are those of the last `meta` frame (replaced, never merged).
   */
  lemma {:induction false} TranscriptEffect(messages: seq<Message>, frames: seq<Frame>, parse: Parser)
    ensures |Transcript(messages, frames, parse)| == |messages|
    ensures messages != [] ==>
      var r := Transcript(messages, frames, parse);
      && Earlier(r) == Earlier(messages)
      && LastMessage(r).role == LastMessage(messages).role
      && LastMessage(r).content == LastMessage(messages).content + Deltas(frames, parse)
      && LastMessage(r).sources == LastSources(frames, parse, LastMessage(messages).sources)
    decreases |frames|
  {
    if frames != [] {
      var init := frames[..|frames| - 1];
      var f := frames[|frames| - 1];
      TranscriptEffect(messages, init, parse);
      if messages != [] {
        var before := Transcript(messages, init, parse);
        var d := DeltaOf(f, parse);
        assert LastMessage(Apply(f, before, parse)).content == LastMessage(before).content + d;
        assert Deltas(frames, parse) == Deltas(init, parse) + d;
      }
    }
  }

  /** Interpreting one more frame applies it to the transcript so far, and it is `done` or one before it was. */
  lemma TranscriptSnoc(messages: seq<Message>, frames: seq<Frame>, f: Frame, parse: Parser)
    ensures Transcript(messages, frames + [f], parse) == Apply(f, Transcript(messages, frames, parse), parse)
    ensures DoneIn(frames + [f]) == (DoneIn(frames) || f.event == DoneEvent)
  {
    assert (frames + [f])[..|frames|] == frames;
  }

  /** The loop step over a sequence of frames: frame `k` is applied after the first `k`. */
  lemma TranscriptStep(messages: seq<Message>, frames: seq<Frame>, k: nat, parse: Parser)
    requires k < |frames|
    ensures Transcript(messages, frames[..k + 1], parse) == Apply(frames[k], Transcript(messages, frames[..k], parse), parse)
    ensures DoneIn(frames[..k + 1]) == (DoneIn(frames[..k]) || frames[k].event == DoneEvent)
  {
    assert frames[..k + 1] == frames[..k] + [frames[k]];
    TranscriptSnoc(messages, frames[..k], frames[k], parse);
  }

  /** Interpreting two groups of frames one after the other is interpreting them together. */
  lemma {:induction false} TranscriptAppend(messages: seq<Message>, a: seq<Frame>, b: seq<Frame>, parse: Parser)
    ensures Transcript(messages, a + b, parse) == Transcript(Transcript(messages, a, parse), b, parse)
    decreases |b|
  {
    if b == [] {
      assert a + b == a;
    } else {
      var ab := a + b;
      assert ab[..|ab| - 1] == a + b[..|b| - 1] && ab[|ab| - 1] == b[|b| - 1];
      TranscriptAppend(messages, a, b[..|b| - 1], parse);
    }
  }

  /** A `done` frame occurs in two groups of frames iff it occurs in one of them. */
  lemma {:induction false} DoneInAppend(a: seq<Frame>, b: seq<Frame>)
    ensures DoneIn(a + b) <==> DoneIn(a) || DoneIn(b)
    decreases |b|
  {
    if b == [] {
      assert a + b == a;
    } else {
      var ab := a + b;
      assert ab[..|ab| - 1] == a + b[..|b| - 1] && ab[|ab| - 1] == b[|b| - 1];
      DoneInAppend(a, b[..|b| - 1]);
    }
  }

  /**
   * The last `meta` frame wins: if frame `k` sets the sources and no later
   * frame does, the sources are frame `k`'s.
   */
  lemma {:induction false} LastMetaWins(frames: seq<Frame>, parse: Parser, prior: Option<seq<string>>, k: nat)
    requires k < |frames| && SetsSources(frames[k], parse)
    requires forall j :: k < j < |frames| ==> !SetsSources(frames[j], parse)
    ensures LastSources(frames, parse, prior) == Some(parse(frames[k].data).value.sources.GetOr([]))
    decreases |frames|
  {
    if k < |frames| - 1 {
      LastMetaWins(frames[..|frames| - 1], parse, prior, k);
    }
  }

  /** Without a `meta` frame that sets them, the sources stay as they were. */
  lemma {:induction false} SourcesKeptWithoutMeta(frames: seq<Frame>, parse: Parser, prior: Option<seq<string>>)
    requires forall j :: 0 <= j < |frames| ==> !SetsSources(frames[j], parse)
    ensures LastSources(frames, parse, prior) == prior
    decreases |frames|
  {
    if frames != [] {
      SourcesKeptWithoutMeta(frames[..|frames| - 1], parse, prior);
    }
  }
}
