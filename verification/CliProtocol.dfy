/**
 The event automaton parseStreamUpdates of internal/antigravity/protocol.go: one CLI process, one
 line-delimited JSON stream, one result.
 */
module CliProtocol {
  import opened Text
  import opened GeminiUsage

  const MAX_OUTPUT_BYTES: nat := 4 * 1024 * 1024
  const MAX_PROTOCOL_BYTES: nat := 16 * 1024 * 1024
  const MAX_LINE_BYTES: nat := 4 * 1024 * 1024 + 64 * 1024
  const MAX_ENCODED_BYTES: nat := 2 * 1024 * 1024

  /** A decoded line. UnusableLine is blank, not unique-key JSON, or mixes event bodies. */
  datatype CliEvent =
    | UnusableLine
    | Init(model: string, permissionMode: string)
    | StepUpdate(kind: string, state: string, text: string, usesTools: bool)
    | CliResult(status: string, response: string, error: string, turns: int, usage: Option<CliUsage>, encodedBytes: nat)

  /** A line with its length, which the scanner's buffer bounds, and whether the consumer takes the update it causes, if any. */
  datatype Line = Line(bytes: nat, event: CliEvent, taken: bool)

  datatype Result = Result(response: string, usage: CliUsage)

  datatype Failure = ProtocolFailure | RequestCanceled | ProviderFailure(error: string)

  datatype Progress = Reading | Finished(result: Result) | Failed(failure: Failure)

  datatype Parser = Parser(initialized: bool, total: nat, text: string, updates: seq<string>, progress: Progress)

  const START := Parser(false, 0, "", [], Reading)

  function Fail(p: Parser, f: Failure): Parser {
    p.(progress := Failed(f))
  }

  function EmitUpdate(p: Parser, update: string, taken: bool): Parser {
    var q := p.(updates := p.updates + [update]);
    if taken then q else Fail(q, RequestCanceled)
  }

  predicate KnownStep(kind: string) {
    kind == "user_input" || kind == "checkpoint" || kind == "agent_response"
  }

  predicate KnownFailure(status: string) {
    status == "ERROR" || status == "CANCELED" || status == "INTERRUPTED" || status == "INVALID" || status == "WAITING" || status == "RUNNING"
  }

  function ReadResult(p: Parser, e: CliEvent): Parser
    requires e.CliResult?
  {
    if e.status != "SUCCESS" then Fail(p, if KnownFailure(e.status) then ProviderFailure(e.error) else ProtocolFailure)
    else if !p.initialized || e.error != "" || e.turns != 1 || e.usage.None? || ByteLength(e.response) > MAX_OUTPUT_BYTES then Fail(p, ProtocolFailure)
    else if !HasPrefix(e.response, p.text) then Fail(p, ProtocolFailure)
    else
      var usage := Normalize(e.usage.value);
      if usage.None? || e.encodedBytes > MAX_ENCODED_BYTES then Fail(p, ProtocolFailure)
      else p.(progress := Finished(Result(e.response, usage.value)))
  }

  function ReadStep(p: Parser, e: CliEvent, taken: bool): Parser
    requires e.StepUpdate?
  {
    if !p.initialized || e.usesTools || (e.state != "ACTIVE" && e.state != "DONE") || !KnownStep(e.kind) then Fail(p, ProtocolFailure)
    else if e.kind == "agent_response" && e.text != "" then
      if ByteLength(e.text) > MAX_OUTPUT_BYTES - ByteLength(p.text) then Fail(p, ProtocolFailure)
      else EmitUpdate(p.(text := p.text + e.text), e.text, taken)
    else p
  }

  function ParseLine(model: string, p: Parser, line: Line): Parser {
    if p.progress.Failed? then p
    else
      var q := p.(total := p.total + line.bytes + 1);
      if line.bytes >= MAX_LINE_BYTES || q.total > MAX_PROTOCOL_BYTES || line.event.UnusableLine? || p.progress.Finished? then Fail(q, ProtocolFailure)
      else match line.event
        case Init(m, mode) =>
          if q.initialized || m != model || mode != "strict" then Fail(q, ProtocolFailure)
          else EmitUpdate(q.(initialized := true), "", line.taken)
        case StepUpdate(_, _, _, _) => ReadStep(q, line.event, line.taken)
        case CliResult(_, _, _, _, _, _) => ReadResult(q, line.event)
  }

  function Parse(model: string, lines: seq<Line>): Parser {
    if lines == [] then START else ParseLine(model, Parse(model, lines[..|lines| - 1]), lines[|lines| - 1])
  }

  /** The checks on a result line, in order. */
  method AcceptResult(initialized: bool, text: string, e: CliEvent, ghost p: Parser) returns (result: Option<Result>, failure: Option<Failure>)
    requires e.CliResult? && p.initialized == initialized && p.text == text
    ensures result.None? ==> failure.Some?
    ensures ReadResult(p, e) == p.(progress := if result.Some? then Finished(result.value) else Failed(failure.value))
  {
    hide ByteLength, Normalize, KnownFailure, HasPrefix;
    result := None;
    if e.status != "SUCCESS" {
      return None, Some(if KnownFailure(e.status) then ProviderFailure(e.error) else ProtocolFailure);
    }
    if !initialized || e.error != "" || e.turns != 1 || e.usage.None? || ByteLength(e.response) > MAX_OUTPUT_BYTES {
      return None, Some(ProtocolFailure);
    }
    if !HasPrefix(e.response, text) {
      return None, Some(ProtocolFailure);
    }
    var normalized := Normalize(e.usage.value);
    if normalized.None? || e.encodedBytes > MAX_ENCODED_BYTES {
      return None, Some(ProtocolFailure);
    }
    return Some(Result(e.response, normalized.value)), None;
  }

  /** The scanning loop. updates are the texts handed to the consumer, "" standing for initialization. */
  method ParseStreamUpdates(model: string, lines: seq<Line>) returns (updates: seq<string>, result: Option<Result>, failure: Option<Failure>)
    ensures updates == Parse(model, lines).updates
    ensures result.Some? <==> Parse(model, lines).progress.Finished?
    ensures result.Some? ==> result.value == Parse(model, lines).progress.result && failure.None?
    ensures result.None? ==> failure == Some(if Parse(model, lines).progress.Failed? then Parse(model, lines).progress.failure else ProtocolFailure)
  {
    hide ByteLength, ReadResult, KnownStep;
    var initialized, text := false, "";
    var total: nat := 0;
    updates, result := [], None;
    for index := 0 to |lines|
      invariant Parse(model, lines[..index])
                == Parser(initialized, total, text, updates, if result.Some? then Finished(result.value) else Reading)
    {
      var line := lines[index];
      assert lines[..index + 1][..index] == lines[..index];
      FailedForGood(model, lines, index + 1);
      total := total + line.bytes + 1;
      if line.bytes >= MAX_LINE_BYTES || total > MAX_PROTOCOL_BYTES || line.event.UnusableLine? || result.Some? {
        return updates, None, Some(ProtocolFailure);
      }
      match line.event {
        case Init(m, mode) =>
          if initialized || m != model || mode != "strict" {
            return updates, None, Some(ProtocolFailure);
          }
          initialized := true;
          updates := updates + [""];
          if !line.taken {
            return updates, None, Some(RequestCanceled);
          }
        case StepUpdate(kind, state, delta, usesTools) =>
          if !initialized || usesTools || (state != "ACTIVE" && state != "DONE") || !KnownStep(kind) {
            return updates, None, Some(ProtocolFailure);
          }
          if kind == "agent_response" && delta != "" {
            if ByteLength(delta) > MAX_OUTPUT_BYTES - ByteLength(text) {
              return updates, None, Some(ProtocolFailure);
            }
            text := text + delta;
            updates := updates + [delta];
            if !line.taken {
              return updates, None, Some(RequestCanceled);
            }
          }
        case CliResult(_, _, _, _, _, _) =>
          result, failure := AcceptResult(initialized, text, line.event, Parser(initialized, total, text, updates, Reading));
          if result.None? {
            return updates, None, failure;
          }
      }
    }
    assert lines[..|lines|] == lines;
    failure := if result.Some? then None else Some(ProtocolFailure);
  }

  lemma {:induction false} FailedForGood(model: string, lines: seq<Line>, n: nat)
    requires n <= |lines|
    ensures Parse(model, lines[..n]).progress.Failed? ==> Parse(model, lines) == Parse(model, lines[..n])
    decreases |lines| - n
  {
    if n < |lines| {
      assert lines[..n + 1][..n] == lines[..n];
      FailedForGood(model, lines, n + 1);
    } else {
      assert lines[..n] == lines;
    }
  }

  /** The concatenation of texts. */
  function Concat(texts: seq<string>): string {
    if texts == [] then "" else Concat(texts[..|texts| - 1]) + texts[|texts| - 1]
  }

  /** The usage of a line as the CLI reports it is a 64-bit quantity. */
  ghost predicate RepresentableLines(lines: seq<Line>) {
    forall l :: l in lines && l.event.CliResult? && l.event.usage.Some? ==> Representable(l.event.usage.value)
  }

  /** What was streamed spells the text so far, within the output limit, and a result extends it. */
  ghost predicate Spells(p: Parser) {
    && Concat(p.updates) == p.text && ByteLength(p.text) <= MAX_OUTPUT_BYTES
    && (p.progress.Finished? ==> HasPrefix(p.progress.result.response, p.text) && p.initialized)
  }

  lemma ConcatSnoc(texts: seq<string>, text: string)
    ensures Concat(texts + [text]) == Concat(texts) + text
  {
    assert (texts + [text])[..|texts|] == texts;
  }

  lemma SpellsStep(model: string, p: Parser, line: Line)
    requires Spells(p)
    ensures Spells(ParseLine(model, p, line))
  {
    hide ByteLength, Normalize, Concat, KnownStep, KnownFailure;
    ConcatSnoc(p.updates, "");
    assert Concat(p.updates) + "" == Concat(p.updates);
    if line.event.StepUpdate? {
      ConcatSnoc(p.updates, line.event.text);
      ByteLengthConcat(p.text, line.event.text);
    }
  }

  lemma {:induction false} UpdatesSpellText(model: string, lines: seq<Line>)
    ensures Spells(Parse(model, lines))
  {
    if lines == [] {
      assert ByteLength("") == 0;
    } else {
      hide ParseLine, Spells;
      UpdatesSpellText(model, lines[..|lines| - 1]);
      SpellsStep(model, Parse(model, lines[..|lines| - 1]), lines[|lines| - 1]);
    }
  }

  /** Success means: the last line is the only result, and its usage is a normalized report. */
  lemma SuccessEndsWithResult(model: string, lines: seq<Line>)
    requires Parse(model, lines).progress.Finished?
    ensures lines != [] && lines[|lines| - 1].event.CliResult?
    ensures forall i :: 0 <= i < |lines| - 1 ==> !lines[i].event.CliResult?
    ensures var e, r := lines[|lines| - 1].event, Parse(model, lines).progress.result;
            e.usage.Some? && r.response == e.response && Normalize(e.usage.value) == Some(r.usage)
  {
    hide ByteLength, Normalize;
    NoResultWhileReading(model, lines[..|lines| - 1]);
    forall i | 0 <= i < |lines| - 1 ensures !lines[i].event.CliResult? { assert lines[..|lines| - 1][i] == lines[i]; }
  }

  lemma {:induction false} NoResultWhileReading(model: string, lines: seq<Line>)
    ensures Parse(model, lines).progress.Reading? ==> forall i :: 0 <= i < |lines| ==> !lines[i].event.CliResult?
  {
    hide ByteLength, Normalize;
    if lines != [] { NoResultWhileReading(model, lines[..|lines| - 1]); }
  }

  // ---------------------------------------------------------------- the outcome, read off the lines

  predicate Speaks(e: CliEvent) {
    e.StepUpdate? && e.kind == "agent_response" && e.text != ""
  }

  /** The text of the agent's lines. */
  function Said(lines: seq<Line>): string {
    if lines == [] then ""
    else
      var e := lines[|lines| - 1].event;
      Said(lines[..|lines| - 1]) + if Speaks(e) then e.text else ""
  }

  /** The updates of the lines: one empty update for the initialization, and each text. */
  function Told(lines: seq<Line>): seq<string> {
    if lines == [] then []
    else
      var e := lines[|lines| - 1].event;
      Told(lines[..|lines| - 1]) + if e.Init? then [""] else if Speaks(e) then [e.text] else []
  }

  function BytesOf(lines: seq<Line>): nat {
    if lines == [] then 0 else BytesOf(lines[..|lines| - 1]) + lines[|lines| - 1].bytes + 1
  }

  predicate Opened(lines: seq<Line>) {
    exists i :: 0 <= i < |lines| && lines[i].event.Init?
  }

  predicate Concluded(lines: seq<Line>) {
    exists i :: 0 <= i < |lines| && lines[i].event.CliResult?
  }

  /** A usable line, within the limits, and not after a result. */
  predicate Readable(before: seq<Line>, line: Line) {
    line.bytes < MAX_LINE_BYTES && BytesOf(before) + line.bytes + 1 <= MAX_PROTOCOL_BYTES && !line.event.UnusableLine? && !Concluded(before)
  }

  /** Whether the line is one the protocol allows after these. */
  predicate Proper(model: string, before: seq<Line>, line: Line) {
    Readable(before, line) && match line.event
      case UnusableLine => false
      case Init(m, mode) => !Opened(before) && m == model && mode == "strict"
      case StepUpdate(kind, state, text, usesTools) =>
        && Opened(before) && !usesTools && state in {"ACTIVE", "DONE"} && kind in {"user_input", "checkpoint", "agent_response"}
        && (Speaks(line.event) ==> ByteLength(Said(before) + text) <= MAX_OUTPUT_BYTES)
      case CliResult(status, response, error, turns, usage, encodedBytes) =>
        && Opened(before) && status == "SUCCESS" && error == "" && turns == 1 && ByteLength(response) <= MAX_OUTPUT_BYTES
        && HasPrefix(response, Said(before)) && usage.Some? && Normalize(usage.value).Some? && encodedBytes <= MAX_ENCODED_BYTES
  }

  /** The consumer does not take the update of the line. */
  predicate Untaken(line: Line) {
    !line.taken && (line.event.Init? || Speaks(line.event))
  }

  /** The first n lines are those that were read to the end. */
  ghost predicate ReadUpTo(model: string, lines: seq<Line>, n: nat) {
    && n <= |lines|
    && (forall i :: 0 <= i < n ==> Proper(model, lines[..i], lines[i]) && !Untaken(lines[i]))
    && (n < |lines| ==> !Proper(model, lines[..n], lines[n]) || Untaken(lines[n]))
  }

  /** Where that leaves the parser. */
  function Outcome(model: string, lines: seq<Line>, n: nat): Progress
    requires n <= |lines|
  {
    if n < |lines| then
      var line := lines[n];
      if Proper(model, lines[..n], line) then Failed(RequestCanceled)
      else if Readable(lines[..n], line) && line.event.CliResult?
              && line.event.status in {"ERROR", "CANCELED", "INTERRUPTED", "INVALID", "WAITING", "RUNNING"} then Failed(ProviderFailure(line.event.error))
      else Failed(ProtocolFailure)
    else if n > 0 && lines[n - 1].event.CliResult? && lines[n - 1].event.usage.Some? && Normalize(lines[n - 1].event.usage.value).Some? then
      Finished(Result(lines[n - 1].event.response, Normalize(lines[n - 1].event.usage.value).value))
    else Reading
  }

  /** The updates handed over: those of the lines read, and that of the line at which the consumer was gone. */
  function HandedOver(model: string, lines: seq<Line>, n: nat): seq<string>
    requires n <= |lines|
  {
    Told(lines[..n]) + if n < |lines| && Proper(model, lines[..n], lines[n]) then [if lines[n].event.StepUpdate? then lines[n].event.text else ""] else []
  }

  ghost predicate Reads(p: Parser, lines: seq<Line>) {
    && (p.initialized <==> Opened(lines)) && (p.progress.Finished? <==> Concluded(lines))
    && p.total == BytesOf(lines) && p.text == Said(lines) && p.updates == Told(lines)
  }

  /**
   Every stream of lines is read exactly up to the first line that the protocol does not allow there, or
   whose update is not taken; that line decides the failure, and without one a result line at the end is
   the result.
   */
  lemma {:induction false} ParsedExactly(model: string, lines: seq<Line>) returns (n: nat)
    ensures ReadUpTo(model, lines, n)
    ensures Parse(model, lines).progress == Outcome(model, lines, n) && Parse(model, lines).updates == HandedOver(model, lines, n)
    ensures n == |lines| ==> Reads(Parse(model, lines), lines)
  {
    hide Proper, Untaken, Reads, ParseLine, Said, Told, BytesOf, Opened, Concluded, Readable, Normalize;
    if lines == [] {
      n := 0;
      NothingRead();
    } else {
      var rest, last := lines[..|lines| - 1], lines[|lines| - 1];
      var before := ParsedExactly(model, rest);
      forall i | 0 <= i <= |rest| ensures lines[..i] == rest[..i] {}
      assert lines == rest + [last];
      assert lines[..|lines|] == lines && rest[..|rest|] == rest;
      if before == |rest| {
        NextLine(model, rest, last, Parse(model, rest));
        n := if Proper(model, rest, last) && !Untaken(last) then |lines| else |rest|;
      } else {
        FailedStays(model, Parse(model, rest), last);
        n := before;
      }
    }
  }

  lemma NothingRead()
    ensures Reads(START, []) && Told([]) == []
  {
  }

  lemma FailedStays(model: string, p: Parser, line: Line)
    requires p.progress.Failed?
    ensures ParseLine(model, p, line) == p
  {
  }

  /** One line, from a parser that holds what the lines before it say. */
  lemma NextLine(model: string, before: seq<Line>, line: Line, p: Parser)
    requires Reads(p, before) && !p.progress.Failed?
    ensures var next, all := ParseLine(model, p, line), before + [line];
            var n := if Proper(model, before, line) && !Untaken(line) then |all| else |before|;
            && next.progress == Outcome(model, all, n) && next.updates == HandedOver(model, all, n)
            && (n == |all| ==> Reads(next, all) && !next.progress.Failed?)
  {
    hide ByteLength, Normalize, HasPrefix, Said, Told, BytesOf, Opened, Concluded;
    var all := before + [line];
    assert all[..|before|] == before && all[|before|] == line && all[..|all|] == all;
    LinesSnoc(before, line);
    ByteLengthConcat(p.text, if line.event.StepUpdate? then line.event.text else "");
  }

  lemma LinesSnoc(before: seq<Line>, line: Line)
    ensures var all := before + [line];
            && Said(all) == Said(before) + (if Speaks(line.event) then line.event.text else "")
            && Told(all) == Told(before) + (if line.event.Init? then [""] else if Speaks(line.event) then [line.event.text] else [])
            && BytesOf(all) == BytesOf(before) + line.bytes + 1
            && (Opened(all) <==> Opened(before) || line.event.Init?) && (Concluded(all) <==> Concluded(before) || line.event.CliResult?)
  {
    var all := before + [line];
    assert all[..|before|] == before && all[|before|] == line;
    assert forall i :: 0 <= i < |before| ==> all[i] == before[i];
  }
}
