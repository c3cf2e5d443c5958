# Avatar lip-sync chat: streaming, relaying and lip-sync core

This project models the sequential logic of a chat application whose avatar
speaks the assistant's reply and moves its mouth in time with it. It covers
five pieces, and proves properties about each.

- **Viseme timelines** (`lipSync.ts`). Every character of an utterance maps
  to a mouth shape (a viseme) and gets one slot of `80 / rate` milliseconds.
  Runs of equal visemes are then merged.
- **The lip-sync controller** (`createLipSyncController`). It is a state
  machine driven by animation frames. The clock readings and frame ids are
  parameters.
- **The browser's event-stream decoder** (`sendMessage` in `api.ts`). It
  buffers the reads, cuts them into frames on `"\n\n"`, strips `data: ` and
  routes each frame's `type` to `onChunk`, `onDone` or `onError`. The frames
  are a simplified form of server-sent events (section 9.2 of the WHATWG HTML
  Living Standard).
- **The server's NDJSON reader** (`streamChat` in `ollamaService.ts`). It
  reads the model server's reply one line at a time, using the same buffering
  pattern on `"\n"`.
- **The relay** (`handleChat`). It validates the request and stores the
  user's turn. It re-frames each upstream event as `data: <json>\n\n`, and
  stores the assistant's reply only when the upstream reply is done.
- **The in-memory session store** (`chatService.ts`). It covers creation,
  lookup, listing newest first, appending a message (with the retitling
  rule), and assembling the prompt.

Each stream reader has two forms. A reference function (`ReadAll`) is stated
on the whole concatenated text of the stream. A method (`ReadStream`,
`ReadReply`) runs the buffered loop over the individual reads, and is proved
equal to the reference. This gives the readers' independence from where the
stream was cut into reads. Both readers use one generic loop,
`Framing.ReadPieces`, with a per-piece step function. `Framing.Split` models
JavaScript's `String.prototype.split`.

The relay's frames use a concrete `JSON.stringify` of strings (ECMA-262
QuoteJSONString). It escapes every control character, as section 7 of RFC
8259 requires. So no payload contains a newline, and
`ChatController.RoundTrip` shows that the browser's decoder recovers exactly
the upstream exchange, however the relayed stream is cut into reads.
`JSON.parse` is a parameter on both sides. The round trip assumes only that
the browser's parser reads back what the relay serialized
(`ChatController.ReadsBack`).

Durations are exact `real`s and require `rate > 0`. Strings are `seq<char>`.
Clock readings, fresh ids, the upstream server and the configured system
prompt are all parameters; `ChatService.SystemPrompt` holds the configured
value.

Behaviour worth knowing:
- A frame whose JSON does not parse makes `sendMessage` throw. No callback
  is made for it (`Threw`).
- A frame with an unrecognised `type` makes no callback, and reading goes on.
- A rejected read on the browser side also throws, with no callback.
- A partial frame left at the end of the stream is dropped silently.
- An upstream line's content is passed on only when it is a non-empty string.
- Lip-sync `stop` reports silence on every call.

## Model

| member | source | states |
|---|---|---|
| Events.UpToTerminalShape | client/src/services/api.ts:63-69 | cut at the first `done` or `error`, a run of chunks stays whole, and anything else becomes chunks then exactly one terminal event |
| Events.UpToTerminalSnoc | client/src/services/api.ts:63-69 | an event after the first terminal one leaves the cut unchanged; before it, the event joins the cut |
| LipSync.GetViseme | client/src/utils/lipSync.ts:9-20 | silence exactly for space, `,` `.` `!` `?` `;` `:`, newline and tab; `ee` exactly for e/i in either case; `oh` exactly for o/O; `oo` exactly for u/w; `pp` exactly for b/p/m/f/v; `aa` exactly for every other character (other letters, digits, other symbols) |
| LipSync.FrameDuration | client/src/utils/lipSync.ts:23 | the per-character slot is positive and slot × rate = 80 |
| LipSync.RawFrom | client/src/utils/lipSync.ts:24-31 | the raw pass emits one event per character; event i has that character's viseme, start (slot+i)·base and duration base |
| LipSync.RawShape | client/src/utils/lipSync.ts:25-31 | the raw events are contiguous with positive durations, and end after the last character's slot |
| LipSync.AbsorbStep | client/src/utils/lipSync.ts:35-41 | one merge step keeps the earlier events as they are and ends on the new event's viseme; it adds no event exactly when the last one already shows that viseme, and then the last event's duration grows by the new one's; otherwise it appends a copy of the new event |
| LipSync.MergeNoRepeats | client/src/utils/lipSync.ts:34-42 | after merging, no two neighbours share a viseme; the merge is never longer than its input and is empty exactly when the input is; the last viseme is kept |
| LipSync.MergeDuration | client/src/utils/lipSync.ts:36-41 | merging preserves the sum of durations |
| LipSync.MergeShape | client/src/utils/lipSync.ts:34-42 | merging a contiguous timeline keeps it contiguous, with the same first start and the same end |
| LipSync.MergePreservesVisemeAt | client/src/utils/lipSync.ts:34-42 | at every instant, the merged timeline shows the same viseme as the raw one |
| LipSync.GenerateVisemeTimeline | client/src/utils/lipSync.ts:22-45 | the timeline is contiguous, has positive durations and no repeated neighbours; it has at most one event per character and is empty exactly for empty text; it starts at 0 and ends, and sums, to \|text\| slots |
| LipSync.VisemeAtShowsCovering | client/src/utils/lipSync.ts:65-72 | the tick's scan shows silence when no event covers the instant, and otherwise the viseme of an event that covers it |
| LipSync.VisemeAtCovering | client/src/utils/lipSync.ts:65-72 | on a contiguous timeline, the tick's scan returns the viseme of the event covering the elapsed time |
| LipSync.VisemeAtCharacter | client/src/utils/lipSync.ts:22-45 | inside character k's slot, the generated timeline shows GetViseme(text[k]) |
| LipSync.VisemeAtInstant | client/src/utils/lipSync.ts:22-45 | for every offset t in [0, total), the timeline shows the viseme of character floor(t·rate/80), which is a valid position |
| LipSyncController.Create | client/src/utils/lipSync.ts:52-58 | a new controller holds the timeline, is not running and holds no frame |
| LipSyncController.Start | client/src/utils/lipSync.ts:86-90 | start sets running, records the start time and holds the requested frame; the timeline is unchanged |
| LipSyncController.Tick | client/src/utils/lipSync.ts:60-83 | a tick when not running does nothing; otherwise it always reports; it never changes the timeline, running or start time; a requested frame is the given one and is held; with no request the state is unchanged |
| LipSyncController.Stop | client/src/utils/lipSync.ts:91-98 | stop clears running and the held frame, cancels the frame it held, and reports silence |
| LipSyncController.TickInsideEvent | client/src/utils/lipSync.ts:64-82 | inside an event, a tick reports that event's viseme and requests another frame |
| LipSyncController.TickPastEnd | client/src/utils/lipSync.ts:75-79 | strictly past the last event's end, a tick reports silence and requests nothing |
| LipSyncController.TickAtEnd | client/src/utils/lipSync.ts:65-82 | exactly at the end, a tick reports silence and keeps ticking |
| LipSyncController.EmptyTimelineNeverEnds | client/src/utils/lipSync.ts:65-82 | with an empty timeline, every tick reports silence and requests another frame |
| LipSyncController.StopThenAnything | client/src/utils/lipSync.ts:60-98 | stop is idempotent and reports silence every time; a tick after stop reports nothing and requests nothing |
| LipSyncController.TickBeforeEnd | client/src/utils/lipSync.ts:60-83 | up to the end of a non-empty timeline, a tick after start reports the scan's result and requests a frame |
| LipSyncController.PlaysTextInSync | client/src/utils/lipSync.ts:22-90 | played from start, every tick inside the utterance reports the viseme of the character being spoken and requests a frame |
| Framing.SplitLeftmost | client/src/services/api.ts:53 | `split` cuts at the leftmost occurrence: a text without the delimiter is one piece, the text itself; otherwise the first piece ends where the first occurrence starts, no occurrence starts earlier, and the other pieces are the split of the text after that occurrence |
| Framing.SplitJoin | client/src/services/api.ts:53 | joining the pieces of a split with the delimiter gives back the text |
| Framing.SplitPiecesAvoidDelimiter | client/src/services/api.ts:53-54 | no piece of a split contains the delimiter |
| Framing.CompletePiecesAvoid | client/src/services/api.ts:53-54 | no complete piece handed on contains the delimiter, and there are some exactly when the delimiter occurs in the buffer |
| Framing.RemainderIsTail | client/src/services/api.ts:52-54 | the pending buffer holds no delimiter, and the text is the complete pieces, each followed by the delimiter, then the buffer |
| Framing.FeedRead | client/src/services/api.ts:52-54 | appending a read keeps the complete pieces already cut, adds those of buffer + read, and leaves the buffer as the remainder of buffer + read |
| Framing.SplitAppend | server/src/services/ollamaService.ts:47-49 | the split of s + c is the complete pieces of s, then the split of s's remainder + c |
| Framing.ReadPieces | server/src/services/ollamaService.ts:43-62 | the buffered read loop, which leaves as soon as a piece closes the state, gives the fold over the complete pieces of the concatenated reads |
| EventStreamClient.FrameDataShape | client/src/services/api.ts:57 | the payload is at most as long as the frame and has no outer whitespace; it is the trimmed text after a leading `data: `, or the trimmed frame when that prefix is absent |
| EventStreamClient.Step | client/src/services/api.ts:56-70 | a run that has ended is unchanged; a frame adds at most one call, which is its recognised event, and the run returns exactly when that event is terminal; the run throws only on a frame that does not parse, with no call; a frame that parses adds exactly its recognised event, if any |
| EventStreamClient.EmptyFrameSkipped | client/src/services/api.ts:57-58 | a frame with nothing but whitespace after its `data: ` prefix makes no call and reading goes on |
| EventStreamClient.UnrecognizedFrameSkipped | client/src/services/api.ts:60-69 | a frame whose JSON has another `type` makes no call and reading goes on |
| EventStreamClient.MalformedFrameThrows | client/src/services/api.ts:60 | a frame that is not JSON makes the read throw, with no call for it |
| EventStreamClient.StepRecognized | client/src/services/api.ts:61-69 | a recognised frame makes its one call; the run returns exactly when the event is `done` or `error` |
| EventStreamClient.StepSummary | client/src/services/api.ts:56-70 | a frame that parses moves the calls made so far, cut at the first terminal event, to those of the events with the frame's own event added |
| EventStreamClient.ScanFrames | client/src/services/api.ts:56-70 | frames that all parse make the calls of their recognised events in order, up to and including the first `done` or `error`, and return exactly when there is one; empty and unrecognised frames in between change nothing |
| EventStreamClient.FirstThrow | client/src/services/api.ts:56-70 | the first frame that does not parse makes the read throw after the calls of the frames before it, when none of those ended the run; nothing after it is looked at |
| EventStreamClient.ReadFrames | client/src/services/api.ts:48-73 | on a stream whose frames all parse, `sendMessage` makes the recognised events' calls up to the first terminal one; without one, it throws if a read was rejected, and otherwise ends with `onDone` |
| EventStreamClient.Scan | client/src/services/api.ts:56-70 | the calls for the complete frames are chunks, ending in one terminal call exactly when a frame returned |
| EventStreamClient.ReadAll | client/src/services/api.ts:48-73 | reading always finishes; it makes chunk calls then at most one terminal call, and exactly one unless it threw |
| EventStreamClient.SendMessageSpec | client/src/services/api.ts:21-74 | as ReadAll, and a non-ok response yields exactly the one call `onError("Failed to send message")` |
| EventStreamClient.SendMessage | client/src/services/api.ts:21-74 | the response checks and then the read loop make the reference's calls |
| EventStreamClient.ReadStream | client/src/services/api.ts:45-73 | the loop over the reads makes the calls the reference makes on the concatenated text, whatever the cuts between reads |
| EventStreamClient.AfterTerminalFrame | client/src/services/api.ts:63-69 | after a `done` or `error` frame, or a throw, no later text is looked at, even text in the same read |
| EventStreamClient.UnterminatedFrameIgnored | client/src/services/api.ts:48-54 | text after the last blank line has no effect until its blank line arrives |
| EventStreamClient.FrameDataOfObject | client/src/services/api.ts:57 | stripping `data: ` and trimming hands a JSON object payload to the parser unchanged |
| EventStreamClient.ScanRecognized | client/src/services/api.ts:56-62 | chunk frames are passed to `onChunk` one each, in order, and reading goes on |
| EventStreamClient.ReadRecognized | client/src/services/api.ts:48-70 | frames recognised as an exchange make exactly that exchange's calls |
| OllamaStream.StatusErrorReadsBack | server/src/services/ollamaService.ts:34 | the error for a failed status is "Ollama API error: ", the status in decimal digits that read back as the status, one space, then the status text |
| OllamaStream.Emitted | server/src/services/ollamaService.ts:54-56 | a line passes on one chunk, its content, exactly when the content is a non-empty string, and nothing otherwise |
| OllamaStream.StepShape | server/src/services/ollamaService.ts:51-60 | after closing, and on a blank line, nothing changes; otherwise callbacks are only added; the loop closes only on a line that fails to parse, after its one error, or on a `done` line; a line that keeps the loop open passes on exactly its content |
| OllamaStream.StepConsistent | server/src/services/ollamaService.ts:51-60 | each line keeps the calls well formed: only non-empty chunks while open; after closing, chunks then exactly one terminal call |
| OllamaStream.Scan | server/src/services/ollamaService.ts:51-61 | the calls for the complete lines are consistent in that sense |
| OllamaStream.ReadAll | server/src/services/ollamaService.ts:43-64 | the reply read in full is non-empty chunks followed by exactly one `onDone` or `onError` |
| OllamaStream.StreamChatSpec | server/src/services/ollamaService.ts:13-68 | a failed fetch yields its one error; a non-ok status yields one `onError("Ollama API error: <status> <statusText>")` and no chunks; every outcome is one exchange |
| OllamaStream.StreamChat | server/src/services/ollamaService.ts:13-68 | the request checks and then the read loop make the reference's calls |
| OllamaStream.ReadReply | server/src/services/ollamaService.ts:40-64 | the loop over the reads makes the calls the reference makes on the concatenated text, whatever the cuts between reads |
| OllamaStream.AfterClosingLine | server/src/services/ollamaService.ts:57-60 | after a `done` line or a line that fails to parse, no later text is looked at |
| OllamaStream.PartialLineIgnored | server/src/services/ollamaService.ts:44-49 | a trailing line without its newline is never handled |
| OllamaStream.BlankLineSkipped | server/src/services/ollamaService.ts:52 | a whitespace-only line changes nothing |
| OllamaStream.Contents | server/src/services/ollamaService.ts:54-56 | what parsed lines pass on is chunks only, each non-empty |
| OllamaStream.NonBlankShape | server/src/services/ollamaService.ts:52 | the non-blank lines are no more than the lines, and none of them is blank |
| OllamaStream.NonBlankMembers | server/src/services/ollamaService.ts:52 | every non-blank line is kept, and only lines of the input are |
| OllamaStream.NonBlankUnchanged | server/src/services/ollamaService.ts:52 | lines with no blank one are all kept, in order |
| OllamaStream.SkipBlankLines | server/src/services/ollamaService.ts:51-61 | from any state, handling all the lines gives the same callbacks as handling only the non-blank ones |
| OllamaStream.ScanContents | server/src/services/ollamaService.ts:51-61 | lines that are blank or parse, none `done`, pass their non-empty contents to `onChunk` in line order, and reading goes on |
| OllamaStream.OpenReply | server/src/services/ollamaService.ts:36-66 | a reply whose complete lines are blank or parse, none `done`, gives the contents in order, then `onDone` at the end of the stream, or `onError` when a read was rejected; a trailing partial line is never handled |
| OllamaStream.ClosedBy | server/src/services/ollamaService.ts:57-60 | once some first lines close the reply, no later line is looked at |
| OllamaStream.DoneLines | server/src/services/ollamaService.ts:51-60 | lines that are blank or parse, the last parsed one marked `done`, close the loop with their contents in line order and then one `onDone` |
| OllamaStream.DoneReply | server/src/services/ollamaService.ts:51-60 | a `done` line passes on its own content first, then exactly one `onDone`; the lines before it, blank ones skipped, give their contents in order; later lines are ignored |
| OllamaStream.FailedReply | server/src/services/ollamaService.ts:51-66 | a line that fails to parse, after lines that are blank or parsed, gives their contents in order, then exactly one `onError` with the failure's message and no `onDone` |
| Text.Trim | client/src/services/api.ts:57 | `trim` is empty exactly for all-whitespace text; otherwise it starts and ends with a non-whitespace character; text already without outer whitespace is returned unchanged |
| Text.TrimRemovesOuterWhitespace | client/src/services/api.ts:57 | `trim` removes exactly the outer whitespace: its result is the slice of the text that starts right after the leading whitespace run, and only whitespace follows that slice |
| Text.TrimIdempotent | client/src/services/api.ts:57 | trimming twice trims no more than once |
| Text.StripPrefix | client/src/services/api.ts:57 | `replace(/^data: /, "")` drops the pattern when the text starts with it, leaving what follows; otherwise the text is unchanged |
| Text.NatToStringRoundTrip | server/src/services/ollamaService.ts:34 | the decimal rendering of the status code reads back as the code |
| JsonText.EscapeChar | server/src/controllers/chatController.ts:56 | each escaped character is free of control characters, and is the character itself exactly when it needs no escape |
| JsonText.Escape | server/src/controllers/chatController.ts:56 | the escaped body of a string literal holds no control character, and is the string itself when nothing needs escaping |
| JsonText.Quote | server/src/controllers/chatController.ts:56 | `JSON.stringify` of a string is enclosed in quotation marks and holds no control character, so no newline |
| ChatController.Payload | server/src/controllers/chatController.ts:56-64 | each frame's payload is a JSON object with no control character |
| ChatController.FrameLine | server/src/controllers/chatController.ts:56-64 | the text of a frame holds no control character, so no newline |
| ChatController.FrameLineReadsBack | server/src/controllers/chatController.ts:56-64 | the client's decoder reads back from a frame line exactly the payload serialized into it |
| ChatController.FrameReadAlone | server/src/controllers/chatController.ts:56-64 | the client reads one written frame as exactly one complete frame, with nothing left in its buffer |
| ChatController.Encode | server/src/controllers/chatController.ts:54-66 | exactly one frame per upstream event, in order |
| ChatController.Persist | server/src/controllers/chatController.ts:58-59 | the assistant's message, the in-order concatenation of the chunks, is appended exactly when the reply ends in `done`; no session is added, removed or reordered, and no other session changes |
| ChatController.HandleChat | server/src/controllers/chatController.ts:29-68 | a falsy `sessionId` or `message` yields 400 with the store unchanged; an unknown session yields 404 with the store unchanged; the turn is streamed exactly otherwise, as Relayed states; a turn keeps the store invariant |
| ChatController.Relay | server/src/controllers/chatController.ts:43-67 | the upstream request is the system prompt, the history, then the new user message last; the frames encode the upstream events; other sessions are unchanged; the store invariant is kept |
| ChatController.Request | server/src/controllers/chatController.ts:43-44 | the prompt is built after the user's message is stored, so that message is last, after the system prompt and the earlier history |
| ChatController.StoredTurn | server/src/controllers/chatController.ts:43-66 | after a relayed turn, the session holds its history, the user's message and, exactly when upstream was done, the assistant's concatenated reply |
| ChatController.Lines | server/src/controllers/chatController.ts:56-64 | the frame texts are `data: ` + payload, one per event |
| ChatController.RelayedLines | server/src/controllers/chatController.ts:54-66 | splitting the relayed stream on blank lines gives back exactly the frame texts |
| ChatController.RelayedRecognized | server/src/controllers/chatController.ts:56-64 | a parser that reads payloads back recognises every relayed frame |
| ChatController.RoundTrip | server/src/controllers/chatController.ts:54-66 | however the relayed stream is cut into reads, the browser's decoder calls `onChunk` with every upstream chunk in order, then makes the one terminal call |
| ChatController.Received | server/src/controllers/chatController.ts:32-66 | a rejected request reaches the browser as the one error "Failed to send message"; a streamed one as exactly its upstream exchange |
| ChatController.EndToEnd | server/src/controllers/chatController.ts:29-68 | from request to browser callbacks: a rejected request gives the one send error; an accepted one gives exactly the upstream exchange |
| ChatService.EmptyStoreValid | server/src/services/chatService.ts:18 | the empty `Map` satisfies the store invariant |
| ChatService.GetSession | server/src/services/chatService.ts:31-33 | a lookup finds a session exactly when its id is stored, and returns the stored one |
| ChatService.CreateSession | server/src/services/chatService.ts:20-29 | the new session has the given id, title "New Chat", no messages and the given time; it is found under its id; other ids are unaffected; a new key goes last in the order; the invariant is kept |
| ChatService.Take | server/src/services/chatService.ts:45 | `slice(0, n)` is the prefix of length min(n, \|s\|) |
| ChatService.Retitle | server/src/services/chatService.ts:45 | the new title is at most 53 characters: the content itself when it is at most 50, otherwise its first 50 characters then "..." |
| ChatService.Append | server/src/services/chatService.ts:42-46 | exactly one message with the given role, content and time is appended; the title changes only for a user message while it is "New Chat"; nothing else changes |
| ChatService.AddMessage | server/src/services/chatService.ts:39-47 | an unknown id fails with "Session <id> not found" and changes nothing; otherwise it appends and keeps the invariant |
| ChatService.TitleSettles | server/src/services/chatService.ts:44 | assistant messages never retitle, and a title other than "New Chat" never changes again |
| ChatService.SortNewest | server/src/services/chatService.ts:36 | the sort is a permutation of its input |
| ChatService.SortNewestOrdered | server/src/services/chatService.ts:36 | the sort puts `createdAt` in non-increasing order |
| ChatService.SortNewestStable | server/src/services/chatService.ts:36 | sessions created at the same instant keep their original order |
| ChatService.InsertKeepsOrder | server/src/services/chatService.ts:36 | inserting into a sorted list keeps the order of the sessions with each `createdAt` |
| ChatService.Listed | server/src/services/chatService.ts:36 | `sessions.values()` lists the stored sessions in key-insertion order |
| ChatService.GetAllSessions | server/src/services/chatService.ts:35-37 | every stored session exactly once, and nothing else, newest first, with sessions created at the same instant in insertion order |
| ChatService.ToOllama | server/src/services/chatService.ts:53-55 | each stored message becomes its role and content, in order |
| ChatService.BuildOllamaMessages | server/src/services/chatService.ts:49-57 | 1 + \|messages\| entries: the given system prompt first, then each message's role and content in order |

## Left out

- Floating point: durations are exact reals, so the rounding of `80 / rate` and of the accumulated `time` is not modelled.
- `LipSync.GenerateVisemeTimeline` requires `rate > 0`; a zero or negative rate (an infinite or negative slot in JavaScript) is not modelled.
- `LipSync.VisemeIgnoresCase`, `LipSync.AbsorbStep`, `OllamaStream.BlankLineSkipped`, `OllamaStream.StepShape`, `EventStreamClient.FrameDataShape`, `EventStreamClient.UnrecognizedFrameSkipped`, `EventStreamClient.MalformedFrameThrows` and `EventStreamClient.StepRecognized` follow directly from the definitions; they are stated for the reader.
- `Text.ToLower` lowers only A–Z. This is exact for the viseme table: no other character lower-cases to a table key.
- `ChatService.Take` counts code points, but JavaScript's `slice` and `length` count UTF-16 code units, so a title cut through a surrogate pair is not modelled.
- `ChatService.GetAllSessions` requires the store invariant `Valid`; every store built from the empty one by `CreateSession`, `AddMessage` and chat turns (`ChatController.HandleChat`) satisfies it.
- The `requestAnimationFrame` queue, `performance.now`, `Date.now` and `uuidv4` are left out: frame ids, clock readings and fresh ids are parameters.
- A listener or callback that throws is not modelled: callbacks are recorded as events.
- Interleaving of concurrent requests is not modelled; each turn is sequential.
- `JSON.parse` is a parameter. Non-string `content` values, and the truthiness of non-string fields, are not modelled.
- `TextDecoder` is not modelled: the reads are already-decoded strings.
- `fetch`, HTTP headers, `res.status`, `res.write` and `res.end` are not modelled: the written frames form a sequence and the status a value.
- The other handlers (`handleNewSession`, `handleGetSessions`, `handleGetHistory`) and the other `api.ts` fetch helpers are not modelled.
- The UI components, browser speech recognition and the D-ID integration are not modelled.
- `server/src/config/index.ts` is not part of this model beyond its system prompt, `ChatService.SystemPrompt`. The program passes it as the `prompt` parameter of `ChatController.HandleChat` and `ChatService.BuildOllamaMessages`, and every property is proved for any prompt.
