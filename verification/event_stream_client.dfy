/**
 * The browser side of a chat turn (`sendMessage`): it reads the relay's
 * event stream, a simplified form of server-sent events (section 9.2 of the
 * WHATWG HTML Living Standard), splits it into frames on blank lines, and
 * routes each frame's JSON payload to `onChunk`, `onDone` or `onError`.
 */
module EventStreamClient {

  import opened Wrappers
  import opened Text
  import opened Framing
  import opened Events

  const FrameDelimiter: string := "\n\n"
  const DataPrefix: string := "data: "
  const SendFailed: string := "Failed to send message"
  const NoStream: string := "No response stream"

  /** A parsed payload as far as the decoder looks at it: one of the three frame types, or any other value. */
  datatype Payload = Recognized(event: Event) | Unrecognized

  /**
   * `JSON.parse` of a frame followed by reading its `type`; `None` when that
   * throws (malformed JSON, or a `null` payload).
   */
  type PayloadParser = string -> Option<Payload>

  /** `onChunk`, `onDone` and `onError` are recorded as `Chunk`, `Done` and `Error` events, in call order. */
  datatype Phase = Reading | Returned | Threw
  datatype Run = Run(calls: seq<Event>, phase: Phase)

  /** The `fetch` outcome: a rejected request, or a response with its status flag and body stream. */
  datatype Response = FetchRejected | Response(ok: bool, body: Option<Body>)

  /** `line.replace(/^data: /, "").trim()`. */
  function FrameData(piece: string): string {
    Trim(StripPrefix(piece, DataPrefix))
  }

  /** The payload is the frame with one leading `data: ` dropped and its outer whitespace trimmed. */
  lemma {:induction false} FrameDataShape(piece: string)
    ensures var r := FrameData(piece);
      |r| <= |piece| && (r != "" ==> !IsJsWhitespace(r[0]) && !IsJsWhitespace(r[|r| - 1]))
      && (DataPrefix <= piece ==> r == Trim(piece[|DataPrefix|..]))
      && (!(DataPrefix <= piece) ==> r == Trim(piece))
  {
  }

  /**
   * The handling of one complete frame while still reading. A run that has
   * ended stays as it is; otherwise the frame adds at most one call, which is
   * its recognised event, and returns exactly when that event is terminal; the
   * run throws only on a frame that does not parse, and then makes no call.
   */
  function Step(parse: PayloadParser, r: Run, piece: string): (next: Run)
    ensures r.phase != Reading ==> next == r
    ensures r.calls <= next.calls && |next.calls| <= |r.calls| + 1
    ensures |next.calls| > |r.calls| ==>
      parse(FrameData(piece)) == Some(Recognized(next.calls[|r.calls|]))
      && (next.phase == Returned <==> next.calls[|r.calls|].IsTerminal())
    ensures r.phase == Reading && next.phase == Threw ==> Throws(parse, piece) && next.calls == r.calls
    ensures r.phase == Reading && !Throws(parse, piece) ==> next.calls == r.calls + FrameEvents(parse, piece)
  {
    if r.phase != Reading then r
    else
      var data := FrameData(piece);
      if data == "" then r
      else match parse(data)
        case None => Run(r.calls, Threw)
        case Some(Unrecognized) => r
        case Some(Recognized(e)) => Run(r.calls + [e], if e.IsTerminal() then Returned else Reading)
  }

  function Stepper(parse: PayloadParser): (Run, string) -> Run {
    (r: Run, piece: string) => Step(parse, r, piece)
  }

  /** The callbacks are chunks only, ending in one terminal event exactly when the run has returned from a frame. */
  predicate Consistent(r: Run) {
    (r.phase == Returned ==> IsExchange(r.calls)) && (r.phase != Returned ==> AllChunks(r.calls))
  }

  const Start: Run := Run([], Reading)

  /** All complete frames of `text`, handled in order. */
  function Scan(text: string, parse: PayloadParser): (r: Run)
    ensures Consistent(r)
  {
    var step := Stepper(parse);
    assert forall r: Run, p: string :: Consistent(r) ==> Consistent(step(r, p)) by {
      forall r: Run, p: string | Consistent(r) ensures Consistent(step(r, p)) {
        assert step(r, p) == Step(parse, r, p);
        if r.phase == Reading && step(r, p).phase == Returned {
          var c := step(r, p).calls;
          assert c[..|c| - 1] == r.calls;
        }
      }
    }
    FoldInvariant(step, Consistent, Start, CompletePieces(text, FrameDelimiter));
    Fold(step, Start, CompletePieces(text, FrameDelimiter))
  }

  /**
   * The reading part of `sendMessage`, stated on the whole text of the
   * stream: the frames in order until the first terminal one; then `onDone`
   * if the stream ends without one, or a throw if a read was rejected first.
   */
  function ReadAll(body: Body, parse: PayloadParser): (r: Run)
    ensures r.phase != Reading
    ensures Consistent(r)
  {
    var r := Scan(Concat(body.chunks), parse);
    if r.phase != Reading then r
    else if body.failure.Some? then Run(r.calls, Threw)
    else
      Close(r.calls, Done);
      Run(r.calls + [Done], Returned)
  }

  /** The reference behaviour of `sendMessage`: one error for a failed response, otherwise the stream read in full. */
  function SendMessageSpec(resp: Response, parse: PayloadParser): (r: Run)
    ensures r.phase != Reading
    ensures Consistent(r)
    ensures resp.Response? && !resp.ok ==> r == Run([Error(SendFailed)], Returned)
  {
    match resp
    case FetchRejected => Run([], Threw)
    case Response(ok, body) =>
      if !ok then Run([Error(SendFailed)], Returned)
      else if body.None? then Run([Error(NoStream)], Returned)
      else ReadAll(body.value, parse)
  }

  /** `sendMessage`: the response checks, then the read loop. */
  method SendMessage(resp: Response, parse: PayloadParser) returns (run: Run)
    ensures run == SendMessageSpec(resp, parse)
  {
    if resp.FetchRejected? {
      return Run([], Threw);
    }
    if !resp.ok {
      return Run([Error(SendFailed)], Returned);
    }
    if resp.body.None? {
      return Run([Error(NoStream)], Returned);
    }
    run := ReadStream(resp.body.value, parse);
  }

  /**
   * The read loop of `sendMessage`: the frames of each read are handled as
   * they complete (the shared buffered loop, `ReadPieces`), then the end of
   * the stream. Its callbacks are those of the reference on the concatenated
   * text, so they do not depend on where the text was cut into reads.
   */
  method ReadStream(body: Body, parse: PayloadParser) returns (run: Run)
    ensures run == ReadAll(body, parse)
  {
    var r := ReadPieces(body.chunks, FrameDelimiter, Stepper(parse), Start, (x: Run) => x.phase == Reading);
    if r.phase != Reading {
      return r;
    }
    if body.failure.Some? {
      return Run(r.calls, Threw);
    }
    return Run(r.calls + [Done], Returned);
  }

  /** Whatever arrives after a frame that ended the run is never looked at. */
  lemma {:induction false} AfterTerminalFrame(text: string, more: string, parse: PayloadParser)
    requires Scan(text, parse).phase != Reading
    ensures Scan(text + more, parse) == Scan(text, parse)
  {
    var step := Stepper(parse);
    var r := Scan(text, parse);
    FeedRead(text, more, FrameDelimiter);
    FoldAppend(step, Start, CompletePieces(text, FrameDelimiter),
               CompletePieces(Remainder(text, FrameDelimiter) + more, FrameDelimiter));
    FoldAbsorbing(step, r, CompletePieces(Remainder(text, FrameDelimiter) + more, FrameDelimiter));
  }

  /** Text after the last blank line is never handled: a frame counts only once its blank line has arrived. */
  lemma {:induction false} UnterminatedFrameIgnored(text: string, tail: string, parse: PayloadParser)
    requires !Occurs(Remainder(text, FrameDelimiter) + tail, FrameDelimiter)
    ensures Scan(text + tail, parse) == Scan(text, parse)
  {
    FeedRead(text, tail, FrameDelimiter);
    SplitWithoutDelimiter(Remainder(text, FrameDelimiter) + tail, FrameDelimiter);
    assert CompletePieces(text + tail, FrameDelimiter) == CompletePieces(text, FrameDelimiter);
  }

  /** A frame whose payload is a JSON object reaches the parser unchanged. */
  lemma {:induction false} FrameDataOfObject(p: string)
    requires |p| >= 2 && p[0] == '{' && p[|p| - 1] == '}'
    ensures FrameData(DataPrefix + p) == p
  {
    StripDataPrefix(p);
    TrimObject(p);
  }

  lemma {:induction false} StripDataPrefix(p: string)
    ensures StripPrefix(DataPrefix + p, DataPrefix) == p
  {
    var x := DataPrefix + p;
    assert x[..|DataPrefix|] == DataPrefix;
    assert x[|DataPrefix|..] == p;
  }

  lemma {:induction false} TrimObject(p: string)
    requires |p| >= 2 && p[0] == '{' && p[|p| - 1] == '}'
    ensures Trim(p) == p
  {
    assert !IsJsWhitespace(p[0]) && !IsJsWhitespace(p[|p| - 1]);
  }

  /** Frames that parse to recognised events. */
  predicate Recognizes(parse: PayloadParser, lines: seq<string>, events: seq<Event>) {
    |lines| == |events|
    && forall i :: 0 <= i < |lines| ==> FrameData(lines[i]) != "" && parse(FrameData(lines[i])) == Some(Recognized(events[i]))
  }

  /** A frame with nothing after its `data: ` prefix but whitespace is skipped. */
  lemma {:induction false} EmptyFrameSkipped(parse: PayloadParser, r: Run, piece: string)
    requires r.phase == Reading && AllWhitespace(StripPrefix(piece, DataPrefix))
    ensures Step(parse, r, piece) == r
  {
    TrimIdempotent(StripPrefix(piece, DataPrefix));
    assert FrameData(piece) == "";
  }

  /** A frame whose JSON has some other `type` makes no call, and reading goes on. */
  lemma {:induction false} UnrecognizedFrameSkipped(parse: PayloadParser, r: Run, piece: string)
    requires r.phase == Reading && parse(FrameData(piece)) == Some(Unrecognized)
    ensures Step(parse, r, piece) == r
  {
  }

  /** A frame that is not JSON makes `sendMessage` throw, with no call for it. */
  lemma {:induction false} MalformedFrameThrows(parse: PayloadParser, r: Run, piece: string)
    requires r.phase == Reading && Throws(parse, piece)
    ensures Step(parse, r, piece) == Run(r.calls, Threw)
  {
  }

  /** A frame with a payload that `JSON.parse` rejects. */
  predicate Throws(parse: PayloadParser, piece: string) {
    FrameData(piece) != "" && parse(FrameData(piece)).None?
  }

  /** Frames none of which makes `JSON.parse` throw. */
  predicate AllParse(parse: PayloadParser, pieces: seq<string>) {
    forall i :: 0 <= i < |pieces| ==> !Throws(parse, pieces[i])
  }

  /** The event a frame stands for: one for a recognised frame, none for any other. */
  function FrameEvents(parse: PayloadParser, piece: string): (r: seq<Event>)
    ensures |r| <= 1
  {
    var data := FrameData(piece);
    if data != "" && parse(data).Some? && parse(data).value.Recognized? then [parse(data).value.event] else []
  }

  /** The events the recognised frames among `pieces` stand for, in order. */
  function RecognizedEvents(parse: PayloadParser, pieces: seq<string>): seq<Event>
    decreases |pieces|
  {
    if |pieces| == 0 then []
    else RecognizedEvents(parse, pieces[..|pieces| - 1]) + FrameEvents(parse, pieces[|pieces| - 1])
  }

  /** The run that makes the calls of `es` up to the first terminal event, and has returned exactly when there is one. */
  function Summary(es: seq<Event>): Run {
    Run(UpToTerminal(es), if AllChunks(es) then Reading else Returned)
  }

  /** One frame that parses moves the summary of the events so far to that of the events with the frame's. */
  lemma {:induction false} StepSummary(parse: PayloadParser, es: seq<Event>, piece: string)
    requires !Throws(parse, piece)
    ensures Step(parse, Summary(es), piece) == Summary(es + FrameEvents(parse, piece))
  {
    var fe := FrameEvents(parse, piece);
    if fe == [] {
      assert es + fe == es;
    } else {
      SummarySnoc(es, fe[0]);
      assert fe == [fe[0]];
      if AllChunks(es) {
        UpToTerminalChunks(es);
        StepRecognized(parse, Run(es, Reading), piece, fe[0]);
      }
    }
  }

  /** One more event: before the first terminal one it is called, and after it nothing changes. */
  lemma {:induction false} SummarySnoc(es: seq<Event>, e: Event)
    ensures Summary(es + [e]) ==
      if AllChunks(es) then Run(es + [e], if e.IsTerminal() then Returned else Reading) else Summary(es)
  {
    UpToTerminalSnoc(es, e);
    if AllChunks(es) {
      assert AllChunks(es + [e]) <==> e.Chunk? by {
        assert (es + [e])[|es|] == e;
        assert forall i :: 0 <= i < |es| ==> (es + [e])[i] == es[i];
      }
    } else {
      assert !AllChunks(es + [e]) by {
        var j :| 0 <= j < |es| && !es[j].Chunk?;
        assert (es + [e])[j] == es[j];
      }
    }
  }

  /**
   * Frames that all parse make the calls of their recognised events in order,
   * up to and including the first terminal one, and return exactly when there
   * is one; empty and unrecognised frames in between change nothing.
   */
  lemma {:induction false} ScanFrames(parse: PayloadParser, pieces: seq<string>)
    requires AllParse(parse, pieces)
    ensures Fold(Stepper(parse), Start, pieces) == Summary(RecognizedEvents(parse, pieces))
    decreases |pieces|
  {
    var n := |pieces|;
    if n == 0 {
      UpToTerminalShape([]);
    } else {
      var p := pieces[..n - 1];
      assert AllParse(parse, p) by {
        assert forall i :: 0 <= i < |p| ==> p[i] == pieces[i];
      }
      ScanFrames(parse, p);
      FoldLast(Stepper(parse), Start, pieces);
      StepSummary(parse, RecognizedEvents(parse, p), pieces[n - 1]);
    }
  }

  /**
   * The first frame that does not parse makes the read throw, after the calls
   * of the frames before it, provided none of those ended the run.
   */
  lemma {:induction false} FirstThrow(parse: PayloadParser, before: seq<string>, bad: string, after: seq<string>)
    requires AllParse(parse, before)
    requires AllChunks(RecognizedEvents(parse, before)) && Throws(parse, bad)
    ensures Fold(Stepper(parse), Start, before + [bad] + after) == Run(RecognizedEvents(parse, before), Threw)
  {
    var step := Stepper(parse);
    var es := RecognizedEvents(parse, before);
    ScanFrames(parse, before);
    UpToTerminalShape(es);
    assert Fold(step, Start, before) == Run(es, Reading);
    FoldAppend(step, Start, before, [bad]);
    assert Fold(step, Start, before + [bad]) == Run(es, Threw);
    FoldAppend(step, Start, before + [bad], after);
    FoldAbsorbing(step, Run(es, Threw), after);
  }

  /**
   * `sendMessage` on a stream whose frames all parse: the recognised events
   * up to the first terminal one; without one, a throw if a read was
   * rejected, otherwise the chunks and then `onDone`.
   */
  lemma {:induction false} ReadFrames(body: Body, parse: PayloadParser)
    requires AllParse(parse, CompletePieces(Concat(body.chunks), FrameDelimiter))
    ensures var es := RecognizedEvents(parse, CompletePieces(Concat(body.chunks), FrameDelimiter));
      ReadAll(body, parse) ==
        if !AllChunks(es) then Run(UpToTerminal(es), Returned)
        else if body.failure.Some? then Run(es, Threw)
        else Run(es + [Done], Returned)
  {
    var ps := CompletePieces(Concat(body.chunks), FrameDelimiter);
    ScanFrames(parse, ps);
    UpToTerminalShape(RecognizedEvents(parse, ps));
  }

  /** A recognised frame read while reading makes its one call. */
  lemma {:induction false} StepRecognized(parse: PayloadParser, r: Run, line: string, e: Event)
    requires r.phase == Reading
    requires FrameData(line) != "" && parse(FrameData(line)) == Some(Recognized(e))
    ensures Stepper(parse)(r, line) == Run(r.calls + [e], if e.IsTerminal() then Returned else Reading)
  {
  }

  lemma {:induction false} RecognizesPrefix(parse: PayloadParser, lines: seq<string>, events: seq<Event>, k: nat)
    requires Recognizes(parse, lines, events) && k <= |lines|
    ensures Recognizes(parse, lines[..k], events[..k])
  {
  }

  /** Recognised chunk frames are passed to `onChunk` one by one, in order. */
  lemma {:induction false} ScanRecognized(parse: PayloadParser, lines: seq<string>, events: seq<Event>)
    requires Recognizes(parse, lines, events) && AllChunks(events)
    ensures Fold(Stepper(parse), Start, lines) == Run(events, Reading)
    decreases |lines|
  {
    var n := |lines|;
    if n > 0 {
      Snoc(events);
      RecognizesPrefix(parse, lines, events, n - 1);
      ScanRecognized(parse, lines[..n - 1], events[..n - 1]);
      FoldLast(Stepper(parse), Start, lines);
      StepRecognized(parse, Run(events[..n - 1], Reading), lines[n - 1], events[n - 1]);
    }
  }

  /** Frames recognised as an exchange make exactly that exchange's calls and return. */
  lemma {:induction false} FoldRecognized(parse: PayloadParser, lines: seq<string>, events: seq<Event>)
    requires Recognizes(parse, lines, events) && IsExchange(events)
    ensures Fold(Stepper(parse), Start, lines) == Run(events, Returned)
  {
    var n := |events|;
    ExchangeParts(events);
    RecognizesPrefix(parse, lines, events, n - 1);
    ScanRecognized(parse, lines[..n - 1], events[..n - 1]);
    FoldLast(Stepper(parse), Start, lines);
    StepRecognized(parse, Run(events[..n - 1], Reading), lines[n - 1], events[n - 1]);
  }

  /** A stream whose frames are recognised as an exchange makes exactly that exchange's calls and returns. */
  lemma {:induction false} ReadRecognized(parse: PayloadParser, lines: seq<string>, events: seq<Event>, body: Body)
    requires Recognizes(parse, lines, events) && IsExchange(events)
    requires CompletePieces(Concat(body.chunks), FrameDelimiter) == lines
    ensures ReadAll(body, parse) == Run(events, Returned)
  {
    FoldRecognized(parse, lines, events);
    assert Scan(Concat(body.chunks), parse) == Run(events, Returned);
  }
}
