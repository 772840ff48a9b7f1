# NOMAD Compass chat controller, modelled in Dafny

This project models the chat session controller of the NOMAD Compass chatbot,
together with the floating widget that hosts it.

The `Chatbot` component keeps one conversation with a retrieval-augmented
backend. Its state is:

- whether the search index is being built or is ready;
- the transcript of questions and answers;
- whether an answer is streaming;
- the text in the input box.

A question is POSTed to `/ask-stream`. The answer comes back as a
server-sent-events-like stream of frames:

- `chunk` frames carry text deltas for the answer;
- `meta` frames carry the answer's sources;
- a `done` frame aborts the request.

When the first reply is a 400 whose detail says "Index not found", the
controller rebuilds the index once and asks again. The widget strips `/api`
from the configured API base to form the chat base. It also cycles through
three panel sizes and toggles between a launcher and an open panel.

Modules:

- `Wrappers`: `Option`.
- `Text`: the JavaScript string operations the controller relies on:
  - `trim`, `split`, `includes` and `endsWith`;
  - joining parts with a separator;
  - `map` and concatenation.
- `Frames`: the frame decoder.
  - Pure: how a complete segment becomes a `Frame`.
  - Imperative: `ParseFrame`, the per-line loop.
  - The `Decoder` class: the string buffer that `parseFrames` mutates.
- `Events`: the message updaters `commitDelta` and `applyMeta`, and the event
  dispatch. `Transcript` is the effect of a sequence of frames on the
  transcript.
- `Stream`: the read loop of `streamResponse` as a function of the chunks a
  reply delivers, and its meaning in terms of the frames of the whole text.
- `Session`: the class `Chat`, holding the component's state.
  - Operations: `handleBuild`, `abortStream`, clear, `parseFrames`,
    `streamResponse`, `sendMessage` and `onSend`.
  - Specification functions for the outcome of a send.
- `Endpoints`: the normalisation of the `apiBase` prop into the request base.
- `Widget`: the widget's pure helpers and its open/size state.

The model has inputs in place of things it does not execute:

- HTTP replies are the `Reply` datatype. A reply is `Rejected`, or a response
  with:
  - its status;
  - whether it has a body;
  - its coerced `detail` text;
  - the chunks its body delivers;
  - whether reading ends in an error.
- The outcome of a build is a boolean.
- `JSON.parse` of a frame's data is a `Parser` function. It returns `None`
  where parsing throws.

Given these inputs every operation is deterministic. Requests are recorded
in the `requests` log of `Chat`. The model's main results:

- **Chunk boundaries do not matter.**
  - `FramesReadAreCompleteFrames`: however the stream is cut into chunks, the
    frames read are the complete frames of the text read.
  - `ReadLoopWithoutDone`: when the text holds no `done` frame, the transcript
    is that of the complete frames of the whole text. The unterminated tail
    is never read.
- **What the answer holds.** `ReadLoopEffect` and `AnswerShape`:
  - the answer holds exactly the deltas of the frames read, in order;
  - its sources are those of the last `meta` frame read;
  - no other message changes.
- **Sends.** `Chat.SendMessage` states the whole outcome of a send through
  the `Sent` predicate.
  - `RetryBound` adds that a send asks at most two questions, and asks a
    second only after an "Index not found" 400, with one build between.
  - `Chat.Ask`, whose outcome `Sent` includes, ends with streaming false.
- **Transcript shape.** The transcript stays a sequence of question/answer
  pairs: the invariant `Chat.Valid`, with `AnswerKeepsPairs`.

## Behaviour that differs from a natural reading of the component

The model follows the code in each of these cases.

- **A send on an unbuilt index only builds.** When the index is neither ready
  nor being built, `sendMessage` runs `handleBuild`. It then tests the `ready`
  value it captured before the build, which is still false, so it returns
  without sending even when the build succeeded (Chatbot.js:155-158). A
  description that says "build, then send if ready" disagrees with the code.
- **Sends can run before the index is ready.** A send while a build is running
  and the index is not ready goes ahead (Chatbot.js:155), and starter chips
  are never disabled (Chatbot.js:261). So "streaming implies ready" is not an
  invariant of the code.
- **Frames after `done` still apply.** The frames that follow a `done` frame
  in the same chunk are still interpreted. The abort only makes the next read
  fail (Chatbot.js:122-148).
- **Frame parsing is simpler than server-sent events.**
  - The last `event:` line of a frame wins.
  - `data:` pieces are concatenated without newlines.
  - Only "\n\n" separates frames, and CR is not handled.
  - A final frame without a terminating blank line is dropped
    (Chatbot.js:118-148).
- **Blank questions are sent.** `sendMessage` rejects only the empty string.
  Trimming happens in `onSend` (Chatbot.js:152, 208), so a blank starter
  question would be sent.
- **Any exception in the retry path aborts the send.** It is swallowed, then
  the check of the first (400) reply fails and the request is aborted
  (Chatbot.js:180-202). The retry runs whatever the build's outcome.
- **`abortStream` does not check `streaming`.** It aborts whenever a
  controller exists (Chatbot.js:86-89).

## Model

| member | source | states |
|---|---|---|
| Text.TrimStart | gui_chatbot_components/Chatbot.js:127-128 | `trim`'s leading half: it removes exactly the leading JavaScript white space, and the result is a suffix not starting with white space |
| Text.TrimEnd | gui_chatbot_components/Chatbot.js:127-128 | `trim`'s trailing half: it removes exactly the trailing white space, and the result is a prefix not ending with white space |
| Text.Trim | gui_chatbot_components/Chatbot.js:127-128 | the trimmed text neither starts nor ends with white space |
| Text.Split | gui_chatbot_components/Chatbot.js:120 | `split` returns at least one part, and the first part is a prefix of the text |
| Text.JoinSplit | gui_chatbot_components/Chatbot.js:120 | joining the parts of a split with the separator gives back the text |
| Text.SplitPartsExcludeSeparator | gui_chatbot_components/Chatbot.js:120-121 | no part of a split contains the separator |
| Text.SplitWithoutSeparator | gui_chatbot_components/Chatbot.js:120-121 | a text without the separator splits into itself alone |
| Text.SplitAppend | gui_chatbot_components/Chatbot.js:119-121 | splitting is incremental: appending text keeps the complete parts and re-splits only the last part followed by the new text |
| Text.IncludesAt | gui_chatbot_components/Chatbot.js:183 | a copy of the needle at any position makes `includes` true |
| Text.IncludesFound | gui_chatbot_components/Chatbot.js:183 | where `includes` holds, some position starts a copy of the needle |
| Text.IncludesIff | gui_chatbot_components/Chatbot.js:183 | `includes` (the predicate `Includes`) holds exactly when some position starts a copy of the needle |
| Text.StartsWithIff | gui_chatbot_components/Chatbot.js:124-127 | `startsWith` (the predicate `StartsWith`) holds exactly when the text is the prefix followed by some text |
| Text.EndsWithIff | gui_chatbot_components/Chatbot.js:47 | `endsWith` (the predicate `EndsWith`) holds exactly when the text is some text followed by the suffix |
| Frames.NonEmptyLines | gui_chatbot_components/Chatbot.js:123 | `filter(Boolean)` drops exactly the empty lines: no empty line remains, every other line keeps its number of occurrences, and a single line is kept iff it is non-empty |
| Frames.NonEmptyLinesAppend | gui_chatbot_components/Chatbot.js:123 | `filter` keeps the lines in order: filtering two groups of lines is filtering each, one after the other |
| Frames.EventOf | gui_chatbot_components/Chatbot.js:124-127 | the event name is "message" or the trimmed remainder of one of the `event:` lines |
| Frames.DataOf | gui_chatbot_components/Chatbot.js:125-128 | no lines give no data, and one line gives its trimmed `data:` remainder (nothing for other lines); with `DataOfAppend` this determines the data |
| Frames.FrameOf | gui_chatbot_components/Chatbot.js:120-129 | a segment's frame is the event and data of all its lines; the empty lines that `filter` drops make no difference |
| Frames.ParseFrame | gui_chatbot_components/Chatbot.js:123-129 | the per-line loop computes the frame `FrameOf` describes: the last `event:` remainder, and the concatenated `data:` remainders |
| Frames.LastEventLineWins | gui_chatbot_components/Chatbot.js:124-127 | the last `event:` line decides the event name, whatever came before it |
| Frames.EventDefaultsToMessage | gui_chatbot_components/Chatbot.js:124-127 | without an `event:` line the event is "message" |
| Frames.DataOfAppend | gui_chatbot_components/Chatbot.js:125-128 | data accumulates in line order: the data of two groups of lines is the concatenation of their data |
| Frames.EmptyLinesAreIgnored | gui_chatbot_components/Chatbot.js:123 | dropping empty lines changes neither the event nor the data |
| Frames.Decoder.constructor | gui_chatbot_components/Chatbot.js:94 | the buffer starts empty |
| Frames.Decoder.BufferHasNoSeparator | gui_chatbot_components/Chatbot.js:119-121 | a valid buffer never holds a blank line |
| Frames.Decoder.Feed | gui_chatbot_components/Chatbot.js:119-121 | the segments and the new buffer are the split of old buffer plus chunk; joined by blank lines they give back old buffer plus chunk; the new buffer holds no blank line |
| Events.CommitDelta | gui_chatbot_components/Chatbot.js:96-106 | the delta is appended to the last message's content; role, sources, length and earlier messages are unchanged |
| Events.ApplyMeta | gui_chatbot_components/Chatbot.js:108-116 | a falsy payload changes nothing; otherwise the last message's sources become the payload's, or `[]`; everything else is unchanged |
| Events.ApplyNoOps | gui_chatbot_components/Chatbot.js:130-140 | an unparsable `meta`, a `chunk` without a non-empty delta, and any other event (including `done`) leave the transcript unchanged |
| Events.Apply | gui_chatbot_components/Chatbot.js:130-140 | one frame keeps the length, the earlier messages and the last message's role; the last message gains the frame's delta, and takes the frame's sources when it is a truthy `meta` frame |
| Events.FramesOfAppend | gui_chatbot_components/Chatbot.js:122 | segments decode to frames group by group, in order |
| Events.TranscriptEffect | gui_chatbot_components/Chatbot.js:96-116 | over any frames: the length and every earlier message stay; the last keeps its role, gains exactly the deltas in order, and takes the sources of the last `meta` frame |
| Events.TranscriptAppend | gui_chatbot_components/Chatbot.js:122-140 | interpreting two groups of frames in turn is interpreting them together |
| Events.DoneInAppend | gui_chatbot_components/Chatbot.js:137-138 | a `done` frame is in two groups of frames iff it is in one of them |
| Events.LastMetaWins | gui_chatbot_components/Chatbot.js:108-116 | two `meta` frames leave the sources of the later one (replaced, never merged) |
| Events.SourcesKeptWithoutMeta | gui_chatbot_components/Chatbot.js:130-131 | without a `meta` frame that sets them, the sources stay as they were |
| Events.Transcript | gui_chatbot_components/Chatbot.js:122-140 | interpreting frames never adds or removes messages |
| Stream.ReadLoop | gui_chatbot_components/Chatbot.js:143-148 | the read loop keeps the number of messages, and reports `done` exactly when a frame it read is `done` |
| Stream.ReadLoopStep | gui_chatbot_components/Chatbot.js:143-148 | one pass of the loop reads the next chunk, interprets its complete frames, and stops there exactly when they hold `done` |
| Stream.CompleteFramesAppend | gui_chatbot_components/Chatbot.js:119-121 | reading more text only adds frames after those already complete; the new frames are decoded from the leftover onwards |
| Stream.LeftoverHasNoSeparator | gui_chatbot_components/Chatbot.js:121 | the text kept in the buffer never holds a blank line |
| Stream.NoFramesWithoutSeparator | gui_chatbot_components/Chatbot.js:119-121 | a text without a blank line holds no complete frame and is all leftover |
| Stream.ReadLoopInterpretsFramesRead | gui_chatbot_components/Chatbot.js:143-148 | the read loop's transcript is that of the frames it reads, in order, and it saw `done` iff one of them is `done` |
| Stream.FramesReadAreCompleteFrames | gui_chatbot_components/Chatbot.js:118-121 | the frames read are the complete frames of the text of the chunks read, wherever the chunks were cut |
| Stream.ReadLoopStopsOnlyAtDone | gui_chatbot_components/Chatbot.js:137-148 | the loop stops before the last chunk only because of a `done` frame |
| Stream.AllChunksReadWithoutDone | gui_chatbot_components/Chatbot.js:143-148 | without a `done` frame in the whole text, every chunk is read |
| Stream.DoneStaysDone | gui_chatbot_components/Chatbot.js:137-138 | once a `done` frame is complete, more text cannot take it back |
| Stream.ReadLoopWithoutDone | gui_chatbot_components/Chatbot.js:143-148 | without `done`, the transcript is that of every complete frame of the whole text, however it was cut into chunks |
| Stream.ReadLoopEffect | gui_chatbot_components/Chatbot.js:91-148 | a whole reply leaves the earlier messages, gains the deltas of the frames read in order, and takes the last `meta` sources |
| Session.Retries | gui_chatbot_components/Chatbot.js:180-183 | a reply that triggers the rebuild is a response that is never itself streamed |
| Session.Asked | gui_chatbot_components/Chatbot.js:171-191 | a send's requests begin and end with the question, and include a build exactly when the first reply triggers the rebuild |
| Session.Asking | gui_chatbot_components/Chatbot.js:160-162 | a send first appends the question and an empty answer with sources `[]`, keeping earlier messages and the question/answer pairing |
| Session.RetryBound | gui_chatbot_components/Chatbot.js:180-195 | a send asks once, or twice exactly when the first reply is a 400 whose detail includes "Index not found", with one build in between |
| Session.StreamedReply | gui_chatbot_components/Chatbot.js:180-200 | the reply streamed is ok and has a body; after an "Index not found" 400 it is the retry's reply whenever that is ok with a body, and otherwise it is the first reply whenever that is ok with a body |
| Session.AnswerShape | gui_chatbot_components/Chatbot.js:160-200 | a send appends the question and an answer holding exactly the streamed deltas, with the last `meta` sources or `[]`; earlier messages stay |
| Session.StreamedAnswer | gui_chatbot_components/Chatbot.js:160-162 | streaming a reply into a fresh question/answer pair gives the question, then the answer with the reply's deltas and sources |
| Session.SourcesStayPresent | gui_chatbot_components/Chatbot.js:113 | once a message has sources, no frame removes them |
| Session.AppendPair | gui_chatbot_components/Chatbot.js:160-162 | appending a question and an answer with sources keeps the transcript a sequence of pairs |
| Session.AnswerKeepsPairs | gui_chatbot_components/Chatbot.js:160-162 | a send keeps the transcript a sequence of question/answer pairs |
| Session.AbortedController | gui_chatbot_components/Chatbot.js:86-87 | a live controller becomes aborted, and an absent or aborted controller stays as it was |
| Session.AbortIdempotent | gui_chatbot_components/Chatbot.js:86-89 | aborting twice is aborting once |
| Session.Chat.constructor | gui_chatbot_components/Chatbot.js:45-58 | the base is the normalised prop; the component starts not built, not building, not streaming, with empty transcript and input |
| Session.Chat.BeginBuild | gui_chatbot_components/Chatbot.js:74-76 | `building` is set and one `/build` request is sent; nothing else changes |
| Session.Chat.FinishBuild | gui_chatbot_components/Chatbot.js:77-83 | `ready` becomes the build's outcome and `building` is released |
| Session.Chat.HandleBuild | gui_chatbot_components/Chatbot.js:73-84 | exactly one build request; `ready` iff the reply was ok; `building` ends false |
| Session.Chat.AbortStream | gui_chatbot_components/Chatbot.js:86-89 | the controller is aborted if live, and streaming stops; nothing else changes |
| Session.Chat.Clear | gui_chatbot_components/Chatbot.js:233-238 | the Clear button empties the transcript; it is disabled while streaming |
| Session.Chat.SetInput | gui_chatbot_components/Chatbot.js:318-319 | the input becomes the typed text |
| Session.Chat.Dispatch | gui_chatbot_components/Chatbot.js:130-140 | one frame's effect is `Apply`; a `done` frame aborts and stops streaming, and other frames leave the controller alone |
| Session.Chat.DispatchAll | gui_chatbot_components/Chatbot.js:122-140 | the frames of the segments are interpreted in order, and the request is aborted iff one of them is `done` |
| Session.Chat.ParseFrames | gui_chatbot_components/Chatbot.js:118-141 | one chunk: the transcript interprets the complete frames of buffer plus chunk, even those after `done`; the buffer keeps the leftover |
| Session.Chat.StreamResponse | gui_chatbot_components/Chatbot.js:91-149 | the transcript is the read loop's; it throws iff a `done` frame was read or the body failed; the request is aborted iff `done` was read |
| Session.Chat.ReadAll | gui_chatbot_components/Chatbot.js:143-148 | reading the remaining chunks leaves the transcript the read loop's; the request is aborted and streaming cleared iff a `done` frame was read, and nothing else changes |
| Session.Chat.ReadChunk | gui_chatbot_components/Chatbot.js:118-148 | reading one chunk either keeps the request live, with the rest of the read loop still ahead, or aborts it after a `done` frame, with the loop's final transcript |
| Session.Chat.Exchange | gui_chatbot_components/Chatbot.js:171-200 | the request log grows by the asked requests; the streamed reply is read in; it throws unless that reply streamed without error; a rebuild only on retry |
| Session.Chat.Ask | gui_chatbot_components/Chatbot.js:160-205 | the transcript is `Answer`; the input is cleared; streaming ends false; the request is aborted unless the send succeeded |
| Session.Chat.SendMessage | gui_chatbot_components/Chatbot.js:151-206 | guards, build-only path (stale `ready`), and send path with bounded retry (`Sent`); the transcript stays a sequence of pairs |
| Session.Chat.OnSend | gui_chatbot_components/Chatbot.js:208-216 | the send button and Enter send the trimmed input |
| Endpoints.DropTrailingSlash | gui_chatbot_components/Chatbot.js:46 | exactly one trailing slash is removed, if there is one |
| Endpoints.Base | gui_chatbot_components/Chatbot.js:45-48 | the base ends with `/chatbot-api` and starts with the trimmed prop; the suffix is appended iff the trimmed prop lacks it |
| Endpoints.BaseIdempotent | gui_chatbot_components/Chatbot.js:45-48 | normalising a base again returns it unchanged |
| Endpoints.SuffixAppended | gui_chatbot_components/Chatbot.js:47 | a prop without trailing slash or suffix gets `/chatbot-api` appended |
| Endpoints.DefaultBase | gui_chatbot_components/Chatbot.js:340-341 | the default prop gives `/nomad-oasis/chatbot-api` |
| Endpoints.TrailingSlashIgnored | gui_chatbot_components/Chatbot.js:46 | one trailing slash on the prop makes no difference |
| Widget.BasePrefix | gui_chatbot_components/ChatbotWidget.jsx:58-63 | one trailing `/` is removed if present, then one trailing `/api` is removed if present, and nothing else; a missing config gives "" |
| Widget.BasePrefixStrips | gui_chatbot_components/ChatbotWidget.jsx:58-63 | the configured base is the prefix followed by nothing, `/`, `/api` or `/api/` |
| Widget.EffectiveBase | gui_chatbot_components/ChatbotWidget.jsx:108 | the panel's request base always ends with `/chatbot-api` |
| Widget.ApiReplacedByChatbotApi | gui_chatbot_components/ChatbotWidget.jsx:58-63 | the widget turns a configured `p/api` or `p/api/` into the request base `p/chatbot-api` |
| Widget.PrefixOfApiBase | gui_chatbot_components/ChatbotWidget.jsx:58-63 | the prefix of `p/api` and of `p/api/` is `p` |
| Widget.StrippedPrefix | gui_chatbot_components/ChatbotWidget.jsx:58-63 | a base whose slash-stripped form is `p/api` has prefix `p` |
| Widget.SlashedApiPath | gui_chatbot_components/ChatbotWidget.jsx:60 | only the one trailing `/` of `p/api/` is removed |
| Widget.ApiPath | gui_chatbot_components/ChatbotWidget.jsx:60-61 | `p/api` has no trailing `/`, ends in `/api`, and cutting that suffix gives back `p` |
| Widget.UnconfiguredBase | gui_chatbot_components/ChatbotWidget.jsx:58-63 | without a configured base, requests go to `/chatbot-api` |
| Widget.CycleSize | gui_chatbot_components/ChatbotWidget.jsx:77 | the resize updater always yields a size, and a different one |
| Widget.CycleSizePeriod | gui_chatbot_components/ChatbotWidget.jsx:77 | three clicks return every size to itself; two never do |
| Widget.CycleSizeReachesAll | gui_chatbot_components/ChatbotWidget.jsx:77 | every size reaches every size within two clicks |
| Widget.PanelDims | gui_chatbot_components/ChatbotWidget.jsx:65-69 | `sm` and `lg` get their own records, and every other value gets the medium one |
| Widget.CycleGrowsPanel | gui_chatbot_components/ChatbotWidget.jsx:65-77 | resizing grows the panel's minimum size, except from large back to small |
| Widget.SizeIcon | gui_chatbot_components/ChatbotWidget.jsx:71-75 | ZoomOutMap for `sm`, CropSquare for `md`, FullscreenExit otherwise |
| Widget.IconAnnouncesShrink | gui_chatbot_components/ChatbotWidget.jsx:65-77 | the exit icon shows exactly when the next click shrinks the panel |
| Widget.Step | gui_chatbot_components/ChatbotWidget.jsx:81-104 | the launcher opens the panel, close closes it, resize cycles the size; a control that is not shown does nothing |
| Widget.RunKeepsSize | gui_chatbot_components/ChatbotWidget.jsx:55-56 | whatever the user does, the size stays one of the three |
| Widget.ClosedUntilLaunched | gui_chatbot_components/ChatbotWidget.jsx:81-88 | while closed only the launcher is shown, so the widget stays exactly as it is until the launcher is clicked |
| Widget.InitialState | gui_chatbot_components/ChatbotWidget.jsx:55-56 | the widget starts closed, showing the launcher, at the medium size |

## Left out

- Rendering: JSX, styles, Material-UI components, scrolling, the clipboard,
  and the texts of labels and placeholders. These are presentation only.
- The health and starters fetches on mount (Chatbot.js:64-67) are left out as
  best-effort I/O. A starter chip is a `SendMessage` with the chip's text.
- `fetch`, `Response.json()`, the body reader and `AbortController` are I/O.
  Each is replaced by a `Reply` input. An abort is modelled as "the next read
  fails", with the `Controller` state as a value.
- `TextDecoder`: chunks are already-decoded strings.
- `JSON.parse` is the `Parser` input, and `JSON.stringify` of the payload is
  not modelled.
  - Payload fields are strings, or arrays of strings, or absent.
  - A truthy non-string `delta` and non-array `sources` are not modelled.
- React scheduling.
  - Each `Chat` method runs to completion, so the model does not capture
    another event arriving while a send awaits. Examples are a second send
    after a `done` frame has reset `streaming`, or the Build button pressed
    during a stream.
  - `BeginBuild` and `FinishBuild` expose the state while a build runs.
    Through them the model reaches the send-while-building path.
- The props `defaultK`, `embedModel`, `chatModel` and `temperature` are never
  read (Chatbot.js:37-43, 340-346), so they are left out.
- The contents of `../config` are not part of this model. The configured API
  base is an `Option<string>` input, and non-string values passed to
  `String()` are not modelled.
- Events.CommitDelta: on an empty transcript JavaScript reads `content` of
  `undefined` and the state updater throws a TypeError. The model leaves the
  transcript unchanged. This case cannot arise, because a send appends two
  messages before streaming and Clear is disabled while streaming.
- Events.ApplyMeta: on an empty transcript JavaScript writes a property `-1`
  on the copied array, which is never rendered. The model leaves the
  transcript unchanged. The case cannot arise, for the same reason.
- Session.Chat.Clear: requires `!streaming` because the button is disabled
  while streaming. The model says nothing about a clear during a stream.
