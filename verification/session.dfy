/**
 * The chat session of the `Chatbot` component (Chatbot.js): the index
 * build, the question/answer transcript, the streamed answer and the
 * "Index not found" rebuild-and-retry. HTTP replies and JSON parsing are
 * inputs, so every operation is a deterministic function of them.
 */
module Session {
  import opened Wrappers
  import opened Text
  import opened Frames
  import opened Events
  import opened Stream
  import opened Endpoints

  /** A request the controller sends: POST `/build`, or POST `/ask-stream` with the question. */
  datatype Request = Build | AskStream(question: string)

  /**
   * How a `fetch` of `/ask-stream` turns out: `Rejected` when it fails
   * (network error, abort); otherwise the status, whether the response has
   * a body, `String(body?.detail || '')` of its JSON body ("" when the body
   * is absent, unparsable or has no detail), the chunks its body delivers,
   * and whether reading ends in an error instead of the end of the stream.
   */
  datatype Reply =
    | Rejected
    | Response(status: int, hasBody: bool, detail: string, chunks: seq<string>, failsAtEnd: bool)

  /** The abort controller of the current request. */
  datatype Controller = NoController | Live | Aborted

  /** The text in a 400 reply's detail that triggers a rebuild and one retry. */
  const IndexNotFound: string := "Index not found"

  /** `Response.ok`: a status in 200-299. */
  predicate IsOk(status: int)
  {
    200 <= status <= 299
  }

  /** A reply whose body the controller streams: ok and with a body. */
  predicate Streamable(r: Reply)
  {
    r.Response? && IsOk(r.status) && r.hasBody
  }

  /** Whether the first reply makes the controller rebuild the index and ask again. */
  predicate Retries(first: Reply)
    ensures Retries(first) ==> first.Response? && !Streamable(first)
  {
    first.Response? && first.status == 400 && Includes(first.detail, IndexNotFound)
  }

  /** The requests a send that passes the guards makes, in order. */
  function Asked(q: string, first: Reply): (r: seq<Request>)
    ensures |r| >= 1 && r[0] == AskStream(q) && r[|r| - 1] == AskStream(q)
    ensures Build in r <==> Retries(first)
  {
    if Retries(first) then [AskStream(q), Build, AskStream(q)] else [AskStream(q)]
  }

  /** How many `/ask-stream` requests a log holds. */
  function AskCount(requests: seq<Request>): nat
  {
    if requests == [] then 0
    else AskCount(requests[..|requests| - 1]) + (if requests[|requests| - 1].AskStream? then 1 else 0)
  }

  /**
   * The retry bound: a send asks once, or, exactly when the first reply is
   * a 400 saying the index is missing, twice with one build between.
   */
  lemma RetryBound(q: string, first: Reply)
    ensures 1 <= AskCount(Asked(q, first)) <= 2
    ensures AskCount(Asked(q, first)) == 2 <==> Retries(first)
    ensures Retries(first) ==> Asked(q, first)[1] == Build
  {
    var once := [AskStream(q)];
    assert once[..0] == [];
    assert AskCount(once) == 1;
    var built := once + [Build];
    assert built[..1] == once;
    var twice := built + [AskStream(q)];
    assert twice[..2] == built;
    assert AskCount(twice) == 2;
    assert Retries(first) ==> Asked(q, first) == twice;
  }

  /** The reply whose body is streamed into the answer, if any. */
  function StreamedReply(first: Reply, retry: Reply): (r: Option<Reply>)
    ensures r.Some? ==> Streamable(r.value)
    ensures r.Some? && Retries(first) ==> r.value == retry
    ensures r.Some? && !Retries(first) ==> r.value == first
    ensures Retries(first) && Streamable(retry) ==> r == Some(retry)
    ensures !Retries(first) && Streamable(first) ==> r == Some(first)
  {
    if Retries(first) then (if Streamable(retry) then Some(retry) else None)
    else if Streamable(first) then Some(first)
    else None
  }

  /** The frames of the streamed reply that the read loop interprets. */
  function StreamedFrames(first: Reply, retry: Reply): seq<Frame>
  {
    match StreamedReply(first, retry)
    case None => []
    case Some(r) => CompleteFrames(TextRead(r.chunks))
  }

  /** The user's question and the empty answer a send appends. */
  function Asking(messages: seq<Message>, q: string): (r: seq<Message>)
    ensures |r| == |messages| + 2 && r[..|messages|] == messages
    ensures r[|messages|].role == User && r[|messages|].content == q
    ensures LastMessage(r).role == Assistant && LastMessage(r).content == "" && LastMessage(r).sources == Some([])
    ensures Paired(messages) ==> Paired(r)
  {
    var question, answer := Message(User, q, None), Message(Assistant, "", Some([]));
    if Paired(messages) then
      AppendPair(messages, question, answer);
      messages + [question, answer]
    else messages + [question, answer]
  }

  /** The transcript after the streamed reply, if any, was read into it. */
  function Streamed(messages: seq<Message>, first: Reply, retry: Reply, parse: Parser): seq<Message>
  {
    match StreamedReply(first, retry)
    case None => messages
    case Some(r) => ReadLoop("", messages, r.chunks, parse).messages
  }

  /** The transcript after a send that passes the guards. */
  function Answer(messages: seq<Message>, q: string, first: Reply, retry: Reply, parse: Parser): seq<Message>
  {
    Streamed(Asking(messages, q), first, retry, parse)
  }

  /** A `done` frame makes the next read fail, as does a body that ends in an error. */
  predicate StreamThrows(r: Reply)
    requires r.Response?
  {
    DoneIn(FramesRead("", r.chunks)) || r.failsAtEnd
  }

  /** Whether a send ends without aborting its request: a reply was streamed and its read loop ended normally. */
  predicate Succeeds(first: Reply, retry: Reply)
  {
    StreamedReply(first, retry).Some? && !StreamThrows(StreamedReply(first, retry).value)
  }

  /**
   * What a send appends: the question and an answer holding exactly the
   * deltas of the streamed frames, in order, with the sources of the last
   * `meta` frame among them (`[]` without one); every earlier message stays.
   */
  lemma AnswerShape(messages: seq<Message>, q: string, first: Reply, retry: Reply, parse: Parser)
    ensures var frames := StreamedFrames(first, retry);
      Answer(messages, q, first, retry, parse)
        == messages + [Message(User, q, None), Message(Assistant, Deltas(frames, parse), LastSources(frames, parse, Some([])))]
  {
    match StreamedReply(first, retry)
    case None =>
      assert Deltas([], parse) == "";
    case Some(reply) =>
      StreamedAnswer(messages, q, reply.chunks, parse);
  }

  /** The transcript after streaming a reply's chunks into the answer to `q`. */
  lemma StreamedAnswer(messages: seq<Message>, q: string, chunks: seq<string>, parse: Parser)
    ensures var frames := CompleteFrames(TextRead(chunks));
      ReadLoop("", Asking(messages, q), chunks, parse).messages
        == messages + [Message(User, q, None), Message(Assistant, Deltas(frames, parse), LastSources(frames, parse, Some([])))]
  {
    var asked := Asking(messages, q);
    var frames := CompleteFrames(TextRead(chunks));
    ReadLoopEffect(asked, chunks, parse);
    assert "" + Deltas(frames, parse) == Deltas(frames, parse);
    AnswerInPlace(messages, q, ReadLoop("", asked, chunks, parse).messages, Deltas(frames, parse), LastSources(frames, parse, Some([])));
  }

  /** A transcript that changes only the answer of `Asking(messages, q)` is the question and that answer after `messages`. */
  lemma AnswerInPlace(messages: seq<Message>, q: string, r: seq<Message>, content: string, sources: Option<seq<string>>)
    requires |r| == |Asking(messages, q)| && Earlier(r) == Earlier(Asking(messages, q))
    requires LastMessage(r).role == Assistant && LastMessage(r).content == content && LastMessage(r).sources == sources
    ensures r == messages + [Message(User, q, None), Message(Assistant, content, sources)]
  {
    assert Earlier(Asking(messages, q)) == messages + [Message(User, q, None)];
    assert r == Earlier(r) + [LastMessage(r)];
  }

  /** The sources stay present once they are. */
  lemma {:induction false} SourcesStayPresent(frames: seq<Frame>, parse: Parser, prior: Option<seq<string>>)
    requires prior.Some?
    ensures LastSources(frames, parse, prior).Some?
    decreases |frames|
  {
    if frames != [] && !SetsSources(frames[|frames| - 1], parse) {
      SourcesStayPresent(frames[..|frames| - 1], parse, prior);
    }
  }

  /** Whether message `i` has the shape of its place: questions at even places, answers with sources at odd ones. */
  predicate InTurn(messages: seq<Message>, i: nat)
    requires i < |messages|
  {
    if i % 2 == 0 then messages[i].role == User && messages[i].sources.None?
    else messages[i].role == Assistant && messages[i].sources.Some?
  }

  /** The transcript is a sequence of question/answer pairs. */
  predicate Paired(messages: seq<Message>)
  {
    |messages| % 2 == 0 && forall i :: 0 <= i < |messages| ==> InTurn(messages, i)
  }

  /** A send keeps the transcript a sequence of question/answer pairs. */
  lemma AnswerKeepsPairs(messages: seq<Message>, q: string, first: Reply, retry: Reply, parse: Parser)
    requires Paired(messages)
    ensures Paired(Answer(messages, q, first, retry, parse))
  {
    var frames := StreamedFrames(first, retry);
    var answer := Message(Assistant, Deltas(frames, parse), LastSources(frames, parse, Some([])));
    AnswerShape(messages, q, first, retry, parse);
    SourcesStayPresent(frames, parse, Some([]));
    AppendPair(messages, Message(User, q, None), answer);
  }

  /** A question followed by an answer with sources extends a sequence of pairs. */
  lemma AppendPair(messages: seq<Message>, question: Message, answer: Message)
    requires Paired(messages)
    requires question.role == User && question.sources.None?
    requires answer.role == Assistant && answer.sources.Some?
    ensures Paired(messages + [question, answer])
  {
    var r := messages + [question, answer];
    forall i | 0 <= i < |r|
      ensures InTurn(r, i)
    {
      if i < |messages| {
        assert InTurn(messages, i);
      }
    }
  }

  /** `controllerRef.current.abort()` guarded by the presence of a controller: aborting an aborted request changes nothing. */
  function AbortedController(c: Controller): (r: Controller)
    ensures r != Live
    ensures c != Live ==> r == c
    ensures c == Live ==> r == Aborted
  {
    if c == Live then Aborted else c
  }

  /** Aborting twice is aborting once. */
  lemma AbortIdempotent(c: Controller)
    ensures AbortedController(AbortedController(c)) == AbortedController(c)
  {
  }

  /** The state of one `Chatbot` component. */
  class Chat {
    /** The request base, fixed by the `apiBase` prop. */
    const base: string
    var building: bool
    var ready: bool
    var streaming: bool
    var messages: seq<Message>
    var input: string
    var controller: Controller
    /** The requests sent so far, in order. */
    var requests: seq<Request>

    ghost predicate Valid()
      reads this
    {
      EndsWith(base, ApiSuffix) && Paired(messages)
    }

    /** A fresh component: not built, not building, not streaming, empty transcript and input. */
    constructor (apiBase: Option<string>)
      ensures Valid()
      ensures base == Base(apiBase)
      ensures !building && !ready && !streaming
      ensures messages == [] && input == "" && controller == NoController && requests == []
    {
      base := Base(apiBase);
      building := false;
      ready := false;
      streaming := false;
      messages := [];
      input := "";
      controller := NoController;
      requests := [];
    }

    /** The start of `handleBuild`: `building` is set and POST `/build` is sent. */
    method BeginBuild()
      modifies this
      ensures building && requests == old(requests) + [Build]
      ensures ready == old(ready) && streaming == old(streaming) && messages == old(messages)
      ensures input == old(input) && controller == old(controller)
    {
      building := true;
      requests := requests + [Build];
    }

    /** The end of `handleBuild`: the index is ready iff the build reply was ok; `building` is released. */
    method FinishBuild(ok: bool)
      modifies this
      ensures !building && ready == ok
      ensures streaming == old(streaming) && messages == old(messages)
      ensures input == old(input) && controller == old(controller) && requests == old(requests)
    {
      ready := ok;
      building := false;
    }

    /**
     * `handleBuild`: one POST `/build`; `ok` is false when the fetch fails
     * or the reply is not ok. `building` ends false whatever happens.
     */
    method HandleBuild(ok: bool)
      modifies this
      ensures !building && ready == ok && requests == old(requests) + [Build]
      ensures streaming == old(streaming) && messages == old(messages)
      ensures input == old(input) && controller == old(controller)
    {
      BeginBuild();
      FinishBuild(ok);
    }

    /** `abortStream`: aborts the current request, if any, and stops streaming. */
    method AbortStream()
      modifies this
      ensures controller == AbortedController(old(controller)) && !streaming
      ensures building == old(building) && ready == old(ready) && messages == old(messages)
      ensures input == old(input) && requests == old(requests)
    {
      if controller != NoController {
        controller := AbortedController(controller);
      }
      streaming := false;
    }

    /** The Clear button, disabled while an answer streams: the transcript is emptied. */
    method Clear()
      requires !streaming
      modifies this
      ensures messages == [] && Paired(messages)
      ensures building == old(building) && ready == old(ready) && streaming == old(streaming)
      ensures input == old(input) && controller == old(controller) && requests == old(requests)
    {
      messages := [];
    }

    /** Typing in the input field. */
    method SetInput(text: string)
      modifies this
      ensures input == text
      ensures building == old(building) && ready == old(ready) && streaming == old(streaming)
      ensures messages == old(messages) && controller == old(controller) && requests == old(requests)
    {
      input := text;
    }

    /** The event dispatch of `parseFrames` for one frame. */
    method Dispatch(f: Frame, parse: Parser)
      modifies this
      ensures messages == Apply(f, old(messages), parse)
      ensures if f.event == DoneEvent then controller == AbortedController(old(controller)) && !streaming
        else controller == old(controller) && streaming == old(streaming)
      ensures building == old(building) && ready == old(ready) && input == old(input) && requests == old(requests)
    {
      if f.event == MetaEvent {
        match parse(f.data)
        case Some(meta) => messages := ApplyMeta(messages, meta);
        case None =>
      } else if f.event == ChunkEvent {
        match parse(f.data)
        case Some(Value(Some(delta), _)) =>
          if delta != "" {
            messages := CommitDelta(messages, delta);
          }
        case _ =>
      } else if f.event == DoneEvent {
        AbortStream();
      }
    }

    /**
     * `parseFrames`: feeds a chunk to the decoder and interprets every
     * complete frame, in order; a `done` frame aborts the request but the
     * frames after it in the same chunk are still interpreted.
     */
    method ParseFrames(dec: Decoder, chunk: string, parse: Parser)
      requires dec.Valid()
      modifies this, dec
      ensures dec.Valid()
      ensures dec.buffer == Leftover(old(dec.buffer) + chunk)
      ensures var frames := CompleteFrames(old(dec.buffer) + chunk);
        && messages == Transcript(old(messages), frames, parse)
        && (if DoneIn(frames) then controller == AbortedController(old(controller)) && !streaming
            else controller == old(controller) && streaming == old(streaming))
      ensures building == old(building) && ready == old(ready) && input == old(input) && requests == old(requests)
    {
      var segments := dec.Feed(chunk);
      ghost var parts := Split(old(dec.buffer) + chunk, FrameSeparator);
      assert AllButLast(parts) == segments && LastPart(parts) == dec.buffer;
      DispatchAll(segments, parse);
    }

    /** The loop of `parseFrames` over the complete segments of a chunk: each is parsed and dispatched in order. */
    method DispatchAll(segments: seq<string>, parse: Parser)
      modifies this
      ensures var frames := FramesOf(segments);
        && messages == Transcript(old(messages), frames, parse)
        && (if DoneIn(frames) then controller == AbortedController(old(controller)) && !streaming
            else controller == old(controller) && streaming == old(streaming))
      ensures building == old(building) && ready == old(ready) && input == old(input) && requests == old(requests)
    {
      ghost var frames := FramesOf(segments);
      for k := 0 to |segments|
        invariant messages == Transcript(old(messages), frames[..k], parse)
        invariant DoneIn(frames[..k]) ==> controller == AbortedController(old(controller)) && !streaming
        invariant !DoneIn(frames[..k]) ==> controller == old(controller) && streaming == old(streaming)
        invariant building == old(building) && ready == old(ready) && input == old(input) && requests == old(requests)
      {
        var f := ParseFrame(segments[k]);
        FramesOfIndex(segments, k);
        Dispatch(f, parse);
        TranscriptStep(old(messages), frames, k, parse);
      }
      assert frames[..|segments|] == frames;
    }

    /**
     * `streamResponse` on a reply body that delivers `chunks` and then
     * either ends or fails: the read loop feeds one decoder chunk by chunk
     * until the body ends or an abort makes the next read fail. It reports
     * whether it threw: after a `done` frame, or when the body fails.
     */
    method StreamResponse(chunks: seq<string>, failsAtEnd: bool, parse: Parser) returns (threw: bool)
      requires controller == Live
      modifies this
      ensures messages == ReadLoop("", old(messages), chunks, parse).messages
      ensures threw == (DoneIn(FramesRead("", chunks)) || failsAtEnd)
      ensures if DoneIn(FramesRead("", chunks)) then controller == Aborted && !streaming
        else controller == Live && streaming == old(streaming)
      ensures building == old(building) && ready == old(ready) && input == old(input) && requests == old(requests)
    {
      var dec := new Decoder();
      ghost var goal := ReadLoop("", messages, chunks, parse);
      ReadAll(dec, chunks, parse, goal);
      ReadLoopInterpretsFramesRead("", old(messages), chunks, parse);
      threw := controller != Live || failsAtEnd;
    }

    /**
     * The read loop of `streamResponse`: `parseFrames` on each chunk while
     * the request is live. It ends with the transcript of `goal`, the
     * read loop's outcome, and aborted exactly when that saw `done`.
     */
    method ReadAll(dec: Decoder, chunks: seq<string>, parse: Parser, ghost goal: StreamEnd)
      requires controller == Live && dec.Valid()
      requires ReadLoop(dec.buffer, messages, chunks, parse) == goal
      modifies this, dec
      ensures messages == goal.messages
      ensures if goal.sawDone then controller == Aborted && !streaming else controller == Live && streaming == old(streaming)
      ensures building == old(building) && ready == old(ready) && input == old(input) && requests == old(requests)
    {
      var i := 0;
      while i < |chunks| && controller == Live
        invariant 0 <= i <= |chunks| && dec.Valid()
        invariant controller == Live ==> ReadLoop(dec.buffer, messages, chunks[i..], parse) == goal && streaming == old(streaming)
        invariant controller != Live ==> controller == Aborted && messages == goal.messages && goal.sawDone && !streaming
        invariant building == old(building) && ready == old(ready) && input == old(input) && requests == old(requests)
        decreases |chunks| - i
      {
        assert chunks[i..][1..] == chunks[i + 1..];
        ReadChunk(dec, chunks[i..], parse, goal);
        i := i + 1;
      }
      if controller == Live {
        assert chunks[i..] == [];
      }
    }

    /**
     * One pass of the read loop: `parseFrames` on the next chunk. The rest
     * of the loop's result stays `goal`, or the loop has ended with it
     * because the chunk held `done`.
     */
    method ReadChunk(dec: Decoder, chunks: seq<string>, parse: Parser, ghost goal: StreamEnd)
      requires chunks != [] && controller == Live && dec.Valid()
      requires ReadLoop(dec.buffer, messages, chunks, parse) == goal
      modifies this, dec
      ensures dec.Valid()
      ensures controller == Live ==> ReadLoop(dec.buffer, messages, chunks[1..], parse) == goal && streaming == old(streaming)
      ensures controller != Live ==> controller == Aborted && messages == goal.messages && goal.sawDone && !streaming
      ensures building == old(building) && ready == old(ready) && input == old(input) && requests == old(requests)
    {
      ReadLoopStep(dec.buffer, messages, chunks, parse);
      ParseFrames(dec, chunks[0], parse);
    }

    /**
     * The state a send leaves, relative to the state it started from, with
     * question `q`, build outcome `buildOk`, first `/ask-stream` reply
     * `first` and, if asked again, reply `retry`:
     *  - an empty question, or one sent while an answer streams, changes nothing;
     *  - when the index is neither ready nor being built, the send only
     *    builds it (the readiness it tests afterwards is the one it started with);
     *  - otherwise the question and the answer are appended, the input is
     *    cleared, one or (after an "Index not found" 400 and a rebuild) two
     *    questions are sent, and streaming has stopped.
     */
    twostate predicate Sent(q: string, buildOk: bool, first: Reply, retry: Reply, parse: Parser)
      reads this
    {
      if q == "" || old(streaming) then
        && building == old(building) && ready == old(ready) && streaming == old(streaming)
        && messages == old(messages) && input == old(input) && controller == old(controller)
        && requests == old(requests)
      else if !old(ready) && !old(building) then
        && !building && ready == buildOk && requests == old(requests) + [Build]
        && streaming == old(streaming) && messages == old(messages) && input == old(input)
        && controller == old(controller)
      else
        && messages == Answer(old(messages), q, first, retry, parse)
        && input == "" && !streaming
        && requests == old(requests) + Asked(q, first)
        && (if Retries(first) then !building && ready == buildOk
            else building == old(building) && ready == old(ready))
        && controller == (if Succeeds(first, retry) then Live else Aborted)
    }

    /** `sendMessage(q)`, with the outcome of the build it may run and the replies it may get as inputs. */
    method SendMessage(q: string, buildOk: bool, first: Reply, retry: Reply, parse: Parser)
      requires Valid()
      modifies this
      ensures Valid()
      ensures Sent(q, buildOk, first, retry, parse)
    {
      if q == "" || streaming {
        return;
      }
      if !ready && !building {
        var readyBefore := ready;
        HandleBuild(buildOk);
        if !readyBefore {
          return;
        }
      }
      AnswerKeepsPairs(messages, q, first, retry, parse);
      Ask(q, buildOk, first, retry, parse);
    }

    /**
     * The part of `sendMessage` after the guards: the question and an
     * empty answer are appended, the input cleared, and the reply streamed
     * into the answer; whatever fails aborts the request, and streaming
     * ends in every case.
     */
    method Ask(q: string, buildOk: bool, first: Reply, retry: Reply, parse: Parser)
      modifies this
      ensures messages == Answer(old(messages), q, first, retry, parse)
      ensures input == "" && !streaming
      ensures requests == old(requests) + Asked(q, first)
      ensures if Retries(first) then !building && ready == buildOk
        else building == old(building) && ready == old(ready)
      ensures controller == (if Succeeds(first, retry) then Live else Aborted)
    {
      messages := Asking(messages, q);
      input := "";
      streaming := true;
      controller := Live;
      var threw := Exchange(q, buildOk, first, retry, parse);
      if threw {
        AbortStream();
      }
      streaming := false;
    }

    /**
     * The `try` block of `sendMessage`: POST `/ask-stream`; on a 400 whose
     * detail says the index is missing, rebuild and ask once more, streaming
     * that reply if it is ok and has a body; otherwise stream the first
     * reply if it is ok and has a body. Reports whether an error reached
     * the outer `catch`: every failure of the retry path falls through to
     * the check of the first reply, which then fails.
     */
    method Exchange(q: string, buildOk: bool, first: Reply, retry: Reply, parse: Parser) returns (threw: bool)
      requires controller == Live
      modifies this
      ensures messages == Streamed(old(messages), first, retry, parse)
      ensures threw == !Succeeds(first, retry)
      ensures !threw ==> controller == Live
      ensures controller == Live || controller == Aborted
      ensures input == old(input)
      ensures requests == old(requests) + Asked(q, first)
      ensures if Retries(first) then !building && ready == buildOk
        else building == old(building) && ready == old(ready)
    {
      requests := requests + [AskStream(q)];
      threw := true;
      if first.Response? {
        if first.status == 400 && Includes(first.detail, IndexNotFound) {
          HandleBuild(buildOk);
          requests := requests + [AskStream(q)];
          if retry.Response? && IsOk(retry.status) && retry.hasBody {
            var failed := StreamResponse(retry.chunks, retry.failsAtEnd, parse);
            if !failed {
              threw := false;
              return;
            }
          }
        }
        if IsOk(first.status) && first.hasBody {
          threw := StreamResponse(first.chunks, first.failsAtEnd, parse);
        }
      }
    }

    /** The send button and the Enter key: sends the trimmed input. */
    method OnSend(buildOk: bool, first: Reply, retry: Reply, parse: Parser)
      requires Valid()
      modifies this
      ensures Valid()
      ensures Sent(Trim(old(input)), buildOk, first, retry, parse)
    {
      SendMessage(Trim(input), buildOk, first, retry, parse);
    }
  }
}
