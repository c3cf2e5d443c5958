/**
 * The relay (`handleChat`): it validates a chat request, stores the user's
 * turn, forwards the conversation upstream, re-frames every upstream event
 * as one event-stream frame, and stores the assistant's reply once the
 * upstream reply is done.
 */
module ChatController {

  import opened Wrappers
  import opened Text
  import opened Framing
  import opened Events
  import opened JsonText
  import opened ChatService
  import OllamaStream
  import EventStreamClient

  const RequiredError: string := "sessionId and message are required"
  const NotFound: string := "Session not found"

  /** What the request gets back: an error status with its JSON body, or the upstream request made and the frames written. */
  datatype Reply =
    | Rejected(status: nat, error: string)
    | Streamed(request: seq<OllamaMessage>, frames: seq<string>)

  datatype Outcome = Outcome(store: Store, reply: Reply)

  /** A request field that is missing, `null` or the empty string. */
  predicate Falsy(v: Option<string>) {
    v.None? || v.value == ""
  }

  const ChunkHead: string := "{\"type\":\"chunk\",\"content\":"
  const ErrorHead: string := "{\"type\":\"error\",\"content\":"
  const DoneObject: string := "{\"type\":\"done\"}"

  lemma ChunkHeadPrintable()
    ensures |ChunkHead| >= 1 && ChunkHead[0] == '{' && Printable(ChunkHead)
  {
  }

  lemma ErrorHeadPrintable()
    ensures |ErrorHead| >= 1 && ErrorHead[0] == '{' && Printable(ErrorHead)
  {
  }

  lemma DoneObjectPrintable()
    ensures |DoneObject| >= 2 && DoneObject[0] == '{' && DoneObject[|DoneObject| - 1] == '}' && Printable(DoneObject)
  {
  }

  lemma DataPrefixPrintable()
    ensures Printable(EventStreamClient.DataPrefix)
  {
  }

  /** `JSON.stringify` of the frame object for one event: `type` first, then `content`. */
  function Payload(e: Event): (p: string)
    ensures |p| >= 2 && p[0] == '{' && p[|p| - 1] == '}'
    ensures Printable(p)
  {
    match e
    case Chunk(c) => ChunkHeadPrintable(); Field(ChunkHead, Quote(c))
    case Done => DoneObjectPrintable(); DoneObject
    case Error(m) => ErrorHeadPrintable(); Field(ErrorHead, Quote(m))
  }

  /** An object whose last member is the quoted `value`, after the members in `head`. */
  function Field(head: string, value: string): (p: string)
    requires |head| >= 1 && head[0] == '{' && Printable(head) && Printable(value)
    ensures |p| >= 2 && p[0] == '{' && p[|p| - 1] == '}'
    ensures Printable(p)
  {
    PrintableJoin(head, value);
    PrintableJoin(head + value, "}");
    head + value + "}"
  }

  /** The text of one frame, before its blank line. */
  function FrameLine(e: Event): (x: string)
    ensures Printable(x)
  {
    DataPrefixPrintable();
    PrintableJoin(EventStreamClient.DataPrefix, Payload(e));
    EventStreamClient.DataPrefix + Payload(e)
  }

  /** The client's decoder reads back from a frame line exactly the payload serialized into it. */
  lemma {:induction false} FrameLineReadsBack(e: Event)
    ensures EventStreamClient.FrameData(FrameLine(e)) == Payload(e)
  {
    EventStreamClient.FrameDataOfObject(Payload(e));
  }

  /** `res.write` of one frame. */
  function Frame(e: Event): string {
    FrameLine(e) + EventStreamClient.FrameDelimiter
  }

  /** The client reads one written frame as exactly one complete frame, and buffers nothing after it. */
  lemma {:induction false} FrameReadAlone(e: Event)
    ensures CompletePieces(Frame(e), EventStreamClient.FrameDelimiter) == [FrameLine(e)]
    ensures Remainder(Frame(e), EventStreamClient.FrameDelimiter) == ""
  {
    var x := FrameLine(e);
    var d := EventStreamClient.FrameDelimiter;
    assert d[0] !in x by {
      assert forall k :: 0 <= k < |x| ==> x[k] as int >= 0x20;
    }
    SplitAfterPiece(x, d, "");
    assert x + d + "" == x + d;
    var ps := Split(x + d, d);
    assert Split("", d) == [""];
    assert ps == [x, ""];
    assert CompletePieces(x + d, d) == ps[..1];
  }

  /** One frame per event, in order. */
  function Encode(events: seq<Event>): (frames: seq<string>)
    ensures |frames| == |events|
    ensures forall i :: 0 <= i < |events| ==> frames[i] == Frame(events[i])
  {
    if |events| == 0 then [] else [Frame(events[0])] + Encode(events[1..])
  }

  /** The store after the upstream reply: the assistant's turn is the chunks in order, stored only when the reply is done. */
  function Persist(st: Store, id: string, events: seq<Event>, doneAt: int): (r: Store)
    requires id in st.sessions
    ensures r.order == st.order && r.sessions.Keys == st.sessions.Keys
    ensures forall other :: other in st.sessions && other != id ==> r.sessions[other] == st.sessions[other]
    ensures r.sessions[id].messages == st.sessions[id].messages
      + (if |events| > 0 && events[|events| - 1] == Done then [ChatMessage(Assistant, Transcript(events), doneAt)] else [])
    ensures Valid(st) ==> Valid(r)
  {
    if |events| > 0 && events[|events| - 1] == Done then Append(st, id, Assistant, Transcript(events), doneAt)
    else st
  }

  /**
   * `handleChat`, with the clock readings for the two stored messages, the
   * system prompt (the program passes `ChatService.SystemPrompt`), the
   * upstream server and `JSON.parse` as parameters. A turn keeps the store's
   * invariant.
   */
  function HandleChat(st: Store, sessionId: Option<string>, message: Option<string>, now: int, doneAt: int, prompt: string,
                      upstream: seq<OllamaMessage> -> OllamaStream.Response, parse: OllamaStream.LineParser): (r: Outcome)
    ensures Falsy(sessionId) || Falsy(message) ==> r == Outcome(st, Rejected(400, RequiredError))
    ensures !Falsy(sessionId) && !Falsy(message) && sessionId.value !in st.sessions
      ==> r == Outcome(st, Rejected(404, NotFound))
    ensures r.reply.Streamed? <==> !Falsy(sessionId) && !Falsy(message) && sessionId.value in st.sessions
    ensures r.reply.Streamed? ==> Relayed(st, sessionId.value, message.value, prompt, upstream, parse, r)
    ensures Valid(st) ==> Valid(r.store)
  {
    if Falsy(sessionId) || Falsy(message) then Outcome(st, Rejected(400, RequiredError))
    else
      var id := sessionId.value;
      match GetSession(st, id)
      case None => Outcome(st, Rejected(404, NotFound))
      case Some(_) => Relay(st, id, message.value, now, doneAt, prompt, upstream, parse)
  }

  /** The upstream request for a turn: the system prompt, the session's history, then the new message. */
  predicate Asked(history: seq<ChatMessage>, message: string, prompt: string, request: seq<OllamaMessage>) {
    |request| == |history| + 2
    && request[0] == OllamaMessage(System, prompt)
    && request[|request| - 1] == OllamaMessage(User, message)
    && (forall i :: 0 <= i < |history| ==> request[i + 1] == OllamaMessage(history[i].role, history[i].content))
  }

  /**
   * What a relayed turn promises: the upstream request is as `Asked` says;
   * the frames are the upstream events, one each, in order; no session is
   * added, removed or reordered, and no other session changes.
   */
  predicate Relayed(st: Store, id: string, message: string, prompt: string,
                    upstream: seq<OllamaMessage> -> OllamaStream.Response, parse: OllamaStream.LineParser, r: Outcome)
    requires id in st.sessions
  {
    r.reply.Streamed?
    && Asked(st.sessions[id].messages, message, prompt, r.reply.request)
    && r.reply.frames == Encode(OllamaStream.StreamChatSpec(upstream(r.reply.request), parse))
    && r.store.order == st.order && r.store.sessions.Keys == st.sessions.Keys
    && (forall other :: other in st.sessions && other != id ==> r.store.sessions[other] == st.sessions[other])
  }

  /** The accepted request: the user's turn stored, the conversation sent upstream, its events framed, the reply stored on `done`. */
  function Relay(st: Store, id: string, message: string, now: int, doneAt: int, prompt: string,
                 upstream: seq<OllamaMessage> -> OllamaStream.Response, parse: OllamaStream.LineParser): (r: Outcome)
    requires id in st.sessions
    ensures Relayed(st, id, message, prompt, upstream, parse, r)
    ensures Valid(st) ==> Valid(r.store)
  {
    var withUser := Append(st, id, User, message, now);
    AppendValid(st, id, User, message, now);
    var request := Request(st.sessions[id].messages, withUser.sessions[id], message, now, prompt);
    var events := OllamaStream.StreamChatSpec(upstream(request), parse);
    Outcome(Persist(withUser, id, events, doneAt), Streamed(request, Encode(events)))
  }

  /** `buildOllamaMessages` of the session once the user's message is stored. */
  function Request(history: seq<ChatMessage>, session: ChatSession, message: string, now: int, prompt: string): (request: seq<OllamaMessage>)
    requires session.messages == history + [ChatMessage(User, message, now)]
    ensures Asked(history, message, prompt, request)
  {
    var request := BuildOllamaMessages(session, prompt);
    assert forall i :: 0 <= i < |history| ==> request[i + 1] == OllamaMessage(history[i].role, history[i].content) by {
      forall i | 0 <= i < |history| ensures request[i + 1] == OllamaMessage(history[i].role, history[i].content) {
        assert session.messages[i] == history[i];
      }
    }
    assert request[|request| - 1] == OllamaMessage(User, message) by {
      assert session.messages[|history|] == ChatMessage(User, message, now);
    }
    request
  }

  /**
   * The session's messages after a relayed turn: the user's message, then the
   * concatenated chunks as the assistant's message exactly when the upstream
   * reply ended in `done`; an error stores no assistant message.
   */
  lemma {:induction false} StoredTurn(st: Store, id: string, message: string, now: int, doneAt: int, prompt: string,
                   upstream: seq<OllamaMessage> -> OllamaStream.Response, parse: OllamaStream.LineParser)
    requires id != "" && message != "" && id in st.sessions
    ensures var r := HandleChat(st, Some(id), Some(message), now, doneAt, prompt, upstream, parse);
      var events := OllamaStream.StreamChatSpec(upstream(r.reply.request), parse);
      var user := ChatMessage(User, message, now);
      var assistant := ChatMessage(Assistant, Transcript(events), doneAt);
      r.store.sessions[id].messages
        == st.sessions[id].messages + [user] + (if events[|events| - 1] == Done then [assistant] else [])
  {
  }

  // The round trip through the browser's decoder.

  /** The frame texts the client's decoder cuts out of the relayed stream. */
  function Lines(events: seq<Event>): (r: seq<string>)
    ensures |r| == |events|
    ensures forall i :: 0 <= i < |events| ==> r[i] == FrameLine(events[i])
  {
    if |events| == 0 then [] else [FrameLine(events[0])] + Lines(events[1..])
  }

  /** The relayed stream is the frame texts, each closed by a blank line, and none contains a newline. */
  lemma {:induction false} RelayedLines(events: seq<Event>)
    ensures CompletePieces(Concat(Encode(events)), EventStreamClient.FrameDelimiter) == Lines(events)
  {
    var d := EventStreamClient.FrameDelimiter;
    var xs := Lines(events);
    assert Encode(events) == Terminated(xs, d);
    forall i | 0 <= i < |xs| ensures d[0] !in xs[i] {
      assert Printable(xs[i]);
    }
    CompleteTerminated(xs, d);
  }

  /** A parser that reads back what the relay serialized. */
  predicate ReadsBack(parse: EventStreamClient.PayloadParser, events: seq<Event>) {
    forall i :: 0 <= i < |events| ==> parse(Payload(events[i])) == Some(EventStreamClient.Recognized(events[i]))
  }

  /**
   * The round trip: however the relayed stream is cut into reads, the
   * browser's decoder calls `onChunk` with every upstream chunk in order and
   * then the one terminal callback, and looks at nothing after it.
   */
  lemma {:induction false} RoundTrip(events: seq<Event>, chunks: seq<string>, failure: Option<string>, parse: EventStreamClient.PayloadParser)
    requires IsExchange(events) && ReadsBack(parse, events)
    requires Concat(chunks) == Concat(Encode(events))
    ensures EventStreamClient.ReadAll(Body(chunks, failure), parse)
         == EventStreamClient.Run(events, EventStreamClient.Returned)
  {
    RelayedLines(events);
    RelayedRecognized(events, parse);
    EventStreamClient.ReadRecognized(parse, Lines(events), events, Body(chunks, failure));
  }

  /** The decoder sees each relayed frame's payload intact, so a parser that reads payloads back recognises every frame. */
  lemma {:induction false} RelayedRecognized(events: seq<Event>, parse: EventStreamClient.PayloadParser)
    requires ReadsBack(parse, events)
    ensures EventStreamClient.Recognizes(parse, Lines(events), events)
  {
    var lines := Lines(events);
    forall i | 0 <= i < |lines|
      ensures EventStreamClient.FrameData(lines[i]) == Payload(events[i])
    {
      FrameLineReadsBack(events[i]);
    }
  }

  /**
   * From request to callbacks: a rejected request reaches the browser as the
   * one error "Failed to send message"; a relayed one as exactly the upstream
   * exchange.
   */
  lemma {:induction false} EndToEnd(st: Store, sessionId: Option<string>, message: Option<string>, now: int, doneAt: int, prompt: string,
                 upstream: seq<OllamaMessage> -> OllamaStream.Response, serverParse: OllamaStream.LineParser,
                 clientParse: EventStreamClient.PayloadParser, chunks: seq<string>, failure: Option<string>)
    requires var r := HandleChat(st, sessionId, message, now, doneAt, prompt, upstream, serverParse);
      r.reply.Streamed? ==>
        (Concat(chunks) == Concat(r.reply.frames)
         && ReadsBack(clientParse, OllamaStream.StreamChatSpec(upstream(r.reply.request), serverParse)))
    ensures var r := HandleChat(st, sessionId, message, now, doneAt, prompt, upstream, serverParse);
      var received := EventStreamClient.SendMessageSpec(
        EventStreamClient.Response(r.reply.Streamed?, Some(Body(chunks, failure))), clientParse);
      if r.reply.Rejected? then received == EventStreamClient.Run([Error(EventStreamClient.SendFailed)], EventStreamClient.Returned)
      else received == EventStreamClient.Run(OllamaStream.StreamChatSpec(upstream(r.reply.request), serverParse), EventStreamClient.Returned)
  {
    var r := HandleChat(st, sessionId, message, now, doneAt, prompt, upstream, serverParse);
    var events := if r.reply.Streamed? then OllamaStream.StreamChatSpec(upstream(r.reply.request), serverParse) else [];
    Received(r.reply, events, chunks, failure, clientParse);
  }

  /** What the browser's decoder makes of either reply: the one send error, or exactly the relayed exchange. */
  lemma {:induction false} Received(reply: Reply, events: seq<Event>, chunks: seq<string>, failure: Option<string>,
                                    parse: EventStreamClient.PayloadParser)
    requires reply.Streamed? ==>
      reply.frames == Encode(events) && IsExchange(events) && ReadsBack(parse, events) && Concat(chunks) == Concat(reply.frames)
    ensures var received := EventStreamClient.SendMessageSpec(
        EventStreamClient.Response(reply.Streamed?, Some(Body(chunks, failure))), parse);
      if reply.Rejected? then received == EventStreamClient.Run([Error(EventStreamClient.SendFailed)], EventStreamClient.Returned)
      else received == EventStreamClient.Run(events, EventStreamClient.Returned)
  {
    if reply.Streamed? {
      RoundTrip(events, chunks, failure, parse);
    }
  }
}
