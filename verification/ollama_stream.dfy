/**
 * The server side of a chat turn's upstream leg (`streamChat`): it reads
 * the model server's newline-delimited JSON reply, one object per line, and
 * turns it into `onChunk`, `onDone` and `onError` callbacks.
 */
module OllamaStream {

  import opened Wrappers
  import opened Text
  import opened Framing
  import opened Events

  const LineDelimiter: string := "\n"
  const NoBody: string := "No response body"

  /** One reply line: the optional `message.content` and the `done` flag. */
  datatype OllamaChunk = OllamaChunk(content: Option<string>, done: bool)

  /** `JSON.parse` of a line followed by reading its fields; `Failure` carries the thrown error's message. */
  type LineParser = string -> Result<OllamaChunk>

  /** The `fetch` outcome: a rejection with its message, or a response with status and body stream. */
  datatype Response =
    | FetchFailed(message: string)
    | Response(ok: bool, status: nat, statusText: string, body: Option<Body>)

  /** The callbacks made so far, and whether the loop still reads. */
  datatype Progress = Progress(events: seq<Event>, open: bool)

  const Start: Progress := Progress([], true)

  const ApiError: string := "Ollama API error: "

  /** `"Ollama API error: " + status + " " + statusText`. */
  function StatusError(status: nat, statusText: string): string {
    ApiError + NatToString(status) + " " + statusText
  }

  /**
   * The message for a failed status is the fixed text, the status in decimal
   * digits that read back to it, one space, and the status text.
   */
  lemma {:induction false} StatusErrorReadsBack(status: nat, statusText: string)
    ensures var r := StatusError(status, statusText); var n := |r| - |statusText| - 1;
      |ApiError| < n && r[..|ApiError|] == ApiError && r[n] == ' ' && r[n + 1..] == statusText
      && (forall k :: |ApiError| <= k < n ==> '0' <= r[k] <= '9')
      && DecimalValue(r[|ApiError|..n]) == status
  {
    var digits := NatToString(status);
    var r := StatusError(status, statusText);
    var n := |r| - |statusText| - 1;
    assert r[|ApiError|..n] == digits;
    NatToStringRoundTrip(status);
  }

  /** The content of a line is passed on, as one chunk, exactly when it is a non-empty string. */
  function Emitted(chunk: OllamaChunk): (r: seq<Event>)
    ensures |r| <= 1
    ensures |r| == 1 <==> chunk.content.Some? && chunk.content.value != ""
    ensures |r| == 1 ==> r[0] == Chunk(chunk.content.value)
  {
    if chunk.content.Some? && chunk.content.value != "" then [Chunk(chunk.content.value)] else []
  }

  /** The handling of one complete line while still reading. */
  function Step(parse: LineParser, p: Progress, line: string): Progress {
    if !p.open || Trim(line) == "" then p
    else match parse(line)
      case Failure(m) => Progress(p.events + [Error(m)], false)
      case Success(chunk) =>
        var events := p.events + Emitted(chunk);
        if chunk.done then Progress(events + [Done], false) else Progress(events, true)
  }

  /**
   * A closed loop and a blank line change nothing; otherwise callbacks are
   * only added, and the loop closes only on a line that fails to parse (after
   * its one error) or one marked `done`; a line that keeps it open passes on
   * its content.
   */
  lemma {:induction false} StepShape(parse: LineParser, p: Progress, line: string)
    ensures var next := Step(parse, p, line);
      (!p.open || AllWhitespace(line) ==> next == p)
      && p.events <= next.events
      && (p.open && !AllWhitespace(line) && parse(line).Failure? ==>
            next == Progress(p.events + [Error(parse(line).error)], false))
      && (p.open && !next.open ==> !AllWhitespace(line) && (parse(line).Failure? || parse(line).value.done))
      && (next.open && !AllWhitespace(line) ==>
            parse(line).Success? && next.events == p.events + Emitted(parse(line).value))
  {
  }

  function Stepper(parse: LineParser): (Progress, string) -> Progress {
    (p: Progress, line: string) => Step(parse, p, line)
  }

  /** Every chunk passed on is non-empty. */
  predicate NonEmptyChunks(events: seq<Event>) {
    forall i :: 0 <= i < |events| && events[i].Chunk? ==> events[i].text != ""
  }

  /** Open: only non-empty chunks so far. Closed: an exchange ending in its one terminal event. */
  predicate Consistent(p: Progress) {
    NonEmptyChunks(p.events) && (if p.open then AllChunks(p.events) else IsExchange(p.events))
  }

  lemma {:induction false} StepConsistent(parse: LineParser, p: Progress, line: string)
    requires Consistent(p)
    ensures Consistent(Step(parse, p, line))
  {
    var q := Step(parse, p, line);
    if p.open && Trim(line) != "" && !q.open {
      assert q.events[..|q.events| - 1] == p.events || q.events[..|q.events| - 1] == p.events + Emitted(parse(line).value);
    }
  }

  /** All complete lines of `text`, handled in order. */
  function Scan(text: string, parse: LineParser): (p: Progress)
    ensures Consistent(p)
  {
    var step := Stepper(parse);
    forall p: Progress, line: string | Consistent(p) ensures Consistent(step(p, line)) {
      StepConsistent(parse, p, line);
    }
    FoldInvariant(step, Consistent, Start, CompletePieces(text, LineDelimiter));
    Fold(step, Start, CompletePieces(text, LineDelimiter))
  }

  /**
   * The reading part of `streamChat`, stated on the whole text of the reply:
   * the lines in order until the first `done` or failed line, then `onDone`,
   * or `onError` if a read was rejected first.
   */
  function ReadAll(body: Body, parse: LineParser): (events: seq<Event>)
    ensures IsExchange(events)
    ensures NonEmptyChunks(events)
  {
    var p := Scan(Concat(body.chunks), parse);
    if !p.open then p.events
    else
      var last: Event := if body.failure.Some? then Error(body.failure.value) else Done;
      Close(p.events, last);
      assert NonEmptyChunks(p.events + [last]);
      p.events + [last]
  }

  /** The reference behaviour of `streamChat`: one error for a failed request, otherwise the reply read in full. */
  function StreamChatSpec(resp: Response, parse: LineParser): (events: seq<Event>)
    ensures IsExchange(events)
    ensures NonEmptyChunks(events)
    ensures resp.FetchFailed? ==> events == [Error(resp.message)]
    ensures resp.Response? && !resp.ok ==> events == [Error(StatusError(resp.status, resp.statusText))]
  {
    match resp
    case FetchFailed(m) => [Error(m)]
    case Response(ok, status, statusText, body) =>
      if !ok then [Error(StatusError(status, statusText))]
      else if body.None? then [Error(NoBody)]
      else ReadAll(body.value, parse)
  }

  /** `streamChat`: the request checks, then the read loop. */
  method StreamChat(resp: Response, parse: LineParser) returns (events: seq<Event>)
    ensures events == StreamChatSpec(resp, parse)
  {
    if resp.FetchFailed? {
      return [Error(resp.message)];
    }
    if !resp.ok {
      return [Error(StatusError(resp.status, resp.statusText))];
    }
    if resp.body.None? {
      return [Error(NoBody)];
    }
    events := ReadReply(resp.body.value, parse);
  }

  /**
   * The read loop of `streamChat`: the lines of each read are handled as
   * they complete (the shared buffered loop, `ReadPieces`), then the end of
   * the reply. Its callbacks are those of the reference on the concatenated
   * text, so they do not depend on where the text was cut into reads.
   */
  method ReadReply(body: Body, parse: LineParser) returns (events: seq<Event>)
    ensures events == ReadAll(body, parse)
  {
    var p := ReadPieces(body.chunks, LineDelimiter, Stepper(parse), Start, (x: Progress) => x.open);
    if !p.open {
      return p.events;
    }
    if body.failure.Some? {
      return p.events + [Error(body.failure.value)];
    }
    return p.events + [Done];
  }

  /** Whatever arrives after a `done` line or a failed line is never looked at. */
  lemma {:induction false} AfterClosingLine(text: string, more: string, parse: LineParser)
    requires !Scan(text, parse).open
    ensures Scan(text + more, parse) == Scan(text, parse)
  {
    var step := Stepper(parse);
    var p := Scan(text, parse);
    FeedRead(text, more, LineDelimiter);
    FoldAppend(step, Start, CompletePieces(text, LineDelimiter),
               CompletePieces(Remainder(text, LineDelimiter) + more, LineDelimiter));
    FoldAbsorbing(step, p, CompletePieces(Remainder(text, LineDelimiter) + more, LineDelimiter));
  }

  /** A trailing line without its newline is never handled. */
  lemma {:induction false} PartialLineIgnored(text: string, tail: string, parse: LineParser)
    requires !Occurs(Remainder(text, LineDelimiter) + tail, LineDelimiter)
    ensures Scan(text + tail, parse) == Scan(text, parse)
  {
    FeedRead(text, tail, LineDelimiter);
    SplitWithoutDelimiter(Remainder(text, LineDelimiter) + tail, LineDelimiter);
    assert CompletePieces(text + tail, LineDelimiter) == CompletePieces(text, LineDelimiter);
  }

  /** Lines that are blank after trimming change nothing. */
  lemma {:induction false} BlankLineSkipped(parse: LineParser, p: Progress, line: string)
    requires AllWhitespace(line)
    ensures Step(parse, p, line) == p
  {
  }

  /** What the parsed lines' contents make: each non-empty content, in line order. */
  function Contents(cs: seq<OllamaChunk>): (r: seq<Event>)
    ensures AllChunks(r) && NonEmptyChunks(r)
    decreases |cs|
  {
    if |cs| == 0 then [] else Contents(cs[..|cs| - 1]) + Emitted(cs[|cs| - 1])
  }

  /** The lines that are not blank after trimming, in their order. */
  function NonBlank(lines: seq<string>): seq<string>
    decreases |lines|
  {
    if |lines| == 0 then []
    else
      var last := lines[|lines| - 1];
      NonBlank(lines[..|lines| - 1]) + (if AllWhitespace(last) then [] else [last])
  }

  /** `NonBlank` is no longer than its input and holds no blank line. */
  lemma {:induction false} NonBlankShape(lines: seq<string>)
    ensures |NonBlank(lines)| <= |lines|
    ensures forall i :: 0 <= i < |NonBlank(lines)| ==> !AllWhitespace(NonBlank(lines)[i])
    decreases |lines|
  {
    if |lines| > 0 {
      NonBlankShape(lines[..|lines| - 1]);
    }
  }

  /** Every non-blank line is kept, and every kept line is one of the input's. */
  lemma {:induction false} NonBlankMembers(lines: seq<string>)
    ensures forall i :: 0 <= i < |lines| && !AllWhitespace(lines[i]) ==> lines[i] in NonBlank(lines)
    ensures forall x :: x in NonBlank(lines) ==> x in lines
    decreases |lines|
  {
    if |lines| > 0 {
      var n := |lines|;
      var prev := lines[..n - 1];
      NonBlankMembers(prev);
      assert forall i :: 0 <= i < n - 1 ==> prev[i] == lines[i];
      assert forall x :: x in prev ==> x in lines;
    }
  }

  /** Lines with no blank one are left alone. */
  lemma {:induction false} NonBlankUnchanged(lines: seq<string>)
    requires forall i :: 0 <= i < |lines| ==> !AllWhitespace(lines[i])
    ensures NonBlank(lines) == lines
    decreases |lines|
  {
    if |lines| > 0 {
      var n := |lines|;
      assert forall i :: 0 <= i < n - 1 ==> lines[..n - 1][i] == lines[i];
      NonBlankUnchanged(lines[..n - 1]);
      assert lines == lines[..n - 1] + [lines[n - 1]];
    }
  }

  /** The loop's `continue` on blank lines: handling all lines is handling the non-blank ones. */
  lemma {:induction false} SkipBlankLines(parse: LineParser, p: Progress, lines: seq<string>)
    ensures Fold(Stepper(parse), p, lines) == Fold(Stepper(parse), p, NonBlank(lines))
    decreases |lines|
  {
    var n := |lines|;
    if n > 0 {
      var step := Stepper(parse);
      var prev := NonBlank(lines[..n - 1]);
      SkipBlankLines(parse, p, lines[..n - 1]);
      FoldLast(step, p, lines);
      if AllWhitespace(lines[n - 1]) {
        BlankLineSkipped(parse, Fold(step, p, lines[..n - 1]), lines[n - 1]);
        assert NonBlank(lines) == prev;
      } else {
        assert NonBlank(lines) == prev + [lines[n - 1]];
        FoldLast(step, p, prev + [lines[n - 1]]);
        assert (prev + [lines[n - 1]])[..|prev|] == prev;
      }
    }
  }

  /** Lines, none of them blank, that parse to `chunks`. */
  predicate Parses(parse: LineParser, lines: seq<string>, chunks: seq<OllamaChunk>) {
    |lines| == |chunks|
    && forall i :: 0 <= i < |lines| ==> !AllWhitespace(lines[i]) && parse(lines[i]) == Success(chunks[i])
  }

  /**
   * Lines that are blank or parse to chunks that are not `done` pass the
   * non-empty contents on, in line order, and reading goes on.
   */
  lemma {:induction false} ScanContents(parse: LineParser, lines: seq<string>, chunks: seq<OllamaChunk>)
    requires Parses(parse, NonBlank(lines), chunks)
    requires forall i :: 0 <= i < |chunks| ==> !chunks[i].done
    ensures Fold(Stepper(parse), Start, lines) == Progress(Contents(chunks), true)
  {
    SkipBlankLines(parse, Start, lines);
    ParsedContents(parse, NonBlank(lines), chunks);
  }

  lemma {:induction false} ParsedContents(parse: LineParser, lines: seq<string>, chunks: seq<OllamaChunk>)
    requires Parses(parse, lines, chunks)
    requires forall i :: 0 <= i < |chunks| ==> !chunks[i].done
    ensures Fold(Stepper(parse), Start, lines) == Progress(Contents(chunks), true)
    decreases |lines|
  {
    var n := |lines|;
    if n > 0 {
      assert Parses(parse, lines[..n - 1], chunks[..n - 1]);
      ParsedContents(parse, lines[..n - 1], chunks[..n - 1]);
      FoldLast(Stepper(parse), Start, lines);
    }
  }

  /**
   * A reply whose complete lines are blank or parse to chunks that are not
   * `done`: the contents in line order, then `onDone` at the end of the
   * stream, or `onError` if a read was rejected. A trailing partial line is
   * never handled.
   */
  lemma {:induction false} OpenReply(parse: LineParser, chunks: seq<OllamaChunk>, body: Body)
    requires Parses(parse, NonBlank(CompletePieces(Concat(body.chunks), LineDelimiter)), chunks)
    requires forall i :: 0 <= i < |chunks| ==> !chunks[i].done
    ensures ReadAll(body, parse)
         == Contents(chunks) + [if body.failure.Some? then Error(body.failure.value) else Done]
  {
    ScanContents(parse, CompletePieces(Concat(body.chunks), LineDelimiter), chunks);
  }

  /** After the lines that close the reply, the remaining lines are never looked at. */
  lemma {:induction false} ClosedBy(parse: LineParser, lines: seq<string>, body: Body)
    requires lines <= CompletePieces(Concat(body.chunks), LineDelimiter)
    requires !Fold(Stepper(parse), Start, lines).open
    ensures Scan(Concat(body.chunks), parse) == Fold(Stepper(parse), Start, lines)
  {
    var all := CompletePieces(Concat(body.chunks), LineDelimiter);
    var rest := all[|lines|..];
    assert all == lines + rest;
    FoldAppend(Stepper(parse), Start, lines, rest);
    FoldAbsorbing(Stepper(parse), Fold(Stepper(parse), Start, lines), rest);
  }

  /**
   * A reply whose first lines are blank or parse to chunks that are not
   * `done`, up to a `done` line: the contents in line order, the `done` line's own content
   * included, then exactly one `onDone`; no later line is looked at.
   */
  lemma {:induction false} DoneReply(parse: LineParser, lines: seq<string>, chunks: seq<OllamaChunk>, body: Body)
    requires Parses(parse, NonBlank(lines), chunks) && |chunks| > 0
    requires forall i :: 0 <= i < |chunks| - 1 ==> !chunks[i].done
    requires chunks[|chunks| - 1].done
    requires lines <= CompletePieces(Concat(body.chunks), LineDelimiter)
    ensures ReadAll(body, parse) == Contents(chunks) + [Done]
  {
    DoneLines(parse, lines, chunks);
    ClosedBy(parse, lines, body);
  }

  /** Blank lines and lines that parse, up to a `done` line: its content is passed on, then `onDone`, and the loop closes. */
  lemma {:induction false} DoneLines(parse: LineParser, lines: seq<string>, chunks: seq<OllamaChunk>)
    requires Parses(parse, NonBlank(lines), chunks) && |chunks| > 0
    requires forall i :: 0 <= i < |chunks| - 1 ==> !chunks[i].done
    requires chunks[|chunks| - 1].done
    ensures Fold(Stepper(parse), Start, lines) == Progress(Contents(chunks) + [Done], false)
  {
    SkipBlankLines(parse, Start, lines);
    ParsedDone(parse, NonBlank(lines), chunks);
  }

  lemma {:induction false} ParsedDone(parse: LineParser, lines: seq<string>, chunks: seq<OllamaChunk>)
    requires Parses(parse, lines, chunks) && |chunks| > 0
    requires forall i :: 0 <= i < |chunks| - 1 ==> !chunks[i].done
    requires chunks[|chunks| - 1].done
    ensures Fold(Stepper(parse), Start, lines) == Progress(Contents(chunks) + [Done], false)
  {
    var n := |lines|;
    var prev := chunks[..n - 1];
    assert Parses(parse, lines[..n - 1], prev) by {
      assert forall i :: 0 <= i < n - 1 ==> lines[..n - 1][i] == lines[i] && prev[i] == chunks[i];
    }
    assert forall i :: 0 <= i < |prev| ==> !prev[i].done;
    ParsedContents(parse, lines[..n - 1], prev);
    FoldLast(Stepper(parse), Start, lines);
    var before := Fold(Stepper(parse), Start, lines[..n - 1]);
    assert Stepper(parse)(before, lines[n - 1]) == Step(parse, before, lines[n - 1]);
    DoneStep(parse, Contents(prev), lines[n - 1], chunks[n - 1]);
    assert Contents(chunks) == Contents(prev) + Emitted(chunks[n - 1]);
  }

  lemma {:induction false} DoneStep(parse: LineParser, pre: seq<Event>, line: string, c: OllamaChunk)
    requires !AllWhitespace(line) && parse(line) == Success(c) && c.done
    ensures Step(parse, Progress(pre, true), line) == Progress(pre + Emitted(c) + [Done], false)
  {
  }

  /**
   * A reply whose first lines are blank or parse to chunks that are not
   * `done`, followed by a line that fails to parse: the contents in line order, then exactly one
   * `onError` with the failure's message, and no `onDone`.
   */
  lemma {:induction false} FailedReply(parse: LineParser, lines: seq<string>, chunks: seq<OllamaChunk>, bad: string,
                                       message: string, body: Body)
    requires Parses(parse, NonBlank(lines), chunks)
    requires forall i :: 0 <= i < |chunks| ==> !chunks[i].done
    requires !AllWhitespace(bad) && parse(bad) == Failure(message)
    requires lines + [bad] <= CompletePieces(Concat(body.chunks), LineDelimiter)
    ensures ReadAll(body, parse) == Contents(chunks) + [Error(message)]
  {
    ScanContents(parse, lines, chunks);
    FoldLast(Stepper(parse), Start, lines + [bad]);
    assert (lines + [bad])[..|lines|] == lines;
    ClosedBy(parse, lines + [bad], body);
  }
}
