/**
 One answer on its way through the three automata: the CLI parser, the bridge and the gateway. What the
 client ends up with is what the CLI said, exactly once, however the text was cut on the way.
 */
module EndToEnd {
  import opened Text
  import opened ClientCall
  import opened GeminiUsage
  import GeminiContents
  import opened CliProtocol
  import opened Bridge
  import opened Gateway
  import Sse

  /** The calls the bridge's decoder lets through: a declared name and an acceptable call id. */
  ghost predicate ChecksCalls(json: string -> Envelope, tools: set<string>) {
    forall t :: json(t).ToolCall? ==>
      json(t).name in tools && GeminiContents.ValidToolName(json(t).name) && GeminiContents.ValidCallId(json(t).id)
  }

  predicate AllWritten(inputs: seq<Input>) {
    forall i :: 0 <= i < |inputs| ==> inputs[i].written
  }

  /** Every event of the wire arrives and is taken by the client. */
  function Arrivals(wire: seq<WireEvent>): (arrivals: seq<Arrival>)
    ensures |arrivals| == |wire| && forall i :: 0 <= i < |wire| ==> arrivals[i] == Arrival(wire[i], true)
  {
    seq(|wire|, i requires 0 <= i < |wire| => Arrival(wire[i], true))
  }

  /** The C1 control characters: the bridge lets them through in a call id, the gateway does not. */
  predicate ClearOfC1(id: string) {
    forall i :: 0 <= i < |id| ==> !('\U{80}' <= id[i] <= '\U{9F}')
  }

  /** What decides whether an answer the bridge completes is one the gateway accepts. */
  predicate Deliverable(call: Envelope, response: string) {
    match call
    case NotACall => response != ""
    case MalformedCall => false
    case ToolCall(_, _, id) => ClearOfC1(id)
  }

  // ---------------------------------------------------------------- the bridge

  lemma {:induction false} StaysOpen(json: string -> Envelope, id: string, run: seq<Input>)
    requires Running(run) && AllWritten(run) && ByteLength(Concat(Updates(run))) <= MAX_OUTPUT_BYTES
    ensures Serve(json, id, run).open
  {
    if run != [] {
      hide ByteLength, Receive, Concat;
      var rest, last := run[..|run| - 1], run[|run| - 1];
      assert last.written;
      if last.Update? {
        ConcatSnoc(Updates(rest), last.text);
        ByteLengthConcat(Concat(Updates(rest)), last.text);
        StaysOpen(json, id, rest);
        LimitNeverCuts(json, id, rest, last.text);
      } else {
        assert Updates(rest) + [] == Updates(rest);
        StaysOpen(json, id, rest);
      }
    }
  }

  /** The bridge ends every such run with one terminal event, unless the answer is a malformed call. */
  lemma BridgeCompletes(json: string -> Envelope, id: string, run: seq<Input>, result: Result)
    requires OnlyObjects(json) && Running(run) && AllWritten(run)
    requires HasPrefix(result.response, Concat(Updates(run))) && ByteLength(Concat(Updates(run))) <= MAX_OUTPUT_BYTES
    ensures var s := Serve(json, id, run);
            var t := Serve(json, id, run + [Done(Succeeded(result), true)]);
            var call := DecodeClientFunctionCall(json, result.response);
            && Faithful(s, id, Concat(Updates(run)))
            && (call != NotACall ==> Streamed(s.wire) == "")
            && t.succeeded == !call.MalformedCall?
            && t.wire == s.wire + if call.MalformedCall? then (if s.started then [WireError] else []) else [TerminalFor(id, result, call)]
  {
    hide ByteLength, DecodeClientFunctionCall, Concat, PotentialClientCall, Streamed, Serve, Complete;
    StaysOpen(json, id, run);
    RunIsFaithful(json, id, run);
    if DecodeClientFunctionCall(json, result.response) != NotACall {
      CallIsNeverStreamed(json, id, run, result.response);
    }
    CompleteLast(json, id, run, Succeeded(result));
    CompleteSucceeds(json, Serve(json, id, run), id, result);
  }

  lemma CompleteLast(json: string -> Envelope, id: string, run: seq<Input>, c: Completion)
    requires Serve(json, id, run).open
    ensures Serve(json, id, run + [Done(c, true)]) == Complete(json, Serve(json, id, run), id, c, true)
  {
    hide Complete, Receive;
    var all := run + [Done(c, true)];
    assert all[..|all| - 1] == run && all[|all| - 1] == Done(c, true);
  }

  lemma CompleteSucceeds(json: string -> Envelope, s: Server, id: string, result: Result)
    requires s.open && !s.succeeded
    requires DecodeClientFunctionCall(json, result.response) != NotACall ==> !s.plainText
    ensures var t := Complete(json, s, id, Succeeded(result), true);
            var call := DecodeClientFunctionCall(json, result.response);
            && t.succeeded == !call.MalformedCall?
            && t.wire == s.wire + if call.MalformedCall? then (if s.started then [WireError] else []) else [TerminalFor(id, result, call)]
  {
    hide DecodeClientFunctionCall, TerminalFor;
    assert s.wire + [] == s.wire;
  }

  /** A call is sent as the call it spells, whether it is written bare or in a fence, and none of it as prose. */
  lemma CallIsSent(json: string -> Envelope, id: string, run: seq<Input>, result: Result, body: string, a: string, b: string)
    requires OnlyObjects(json) && Running(run) && AllWritten(run)
    requires HasPrefix(result.response, Concat(Updates(run))) && ByteLength(Concat(Updates(run))) <= MAX_OUTPUT_BYTES
    requires WrittenAs(result.response, body, a, b) && TrimSpace(body) == body && body != "" && json(body).ToolCall?
    ensures var s := Serve(json, id, run);
            var t := Serve(json, id, run + [Done(Succeeded(result), true)]);
            && t.succeeded && t.wire == s.wire + [Terminal(id, [CallPart(json(body))], Encode(result.usage))]
            && Streamed(t.wire) == ""
  {
    hide ByteLength, DecodeClientFunctionCall, Concat, Streamed, Serve, WrittenAs, TrimSpace, Encode, Faithful;
    BridgeCompletes(json, id, run, result);
    WrittenIsDecoded(json, result.response, body, a, b);
    StreamedSnoc(Serve(json, id, run).wire, TerminalFor(id, result, json(body)));
  }

  // ---------------------------------------------------------------- the gateway

  lemma ArrivalsSnoc(wire: seq<WireEvent>, e: WireEvent)
    ensures Arrivals(wire + [e]) == Arrivals(wire) + [Arrival(e, true)]
  {
  }

  lemma {:induction false} ProgressIsForwarded(tools: set<string>, id: string, wire: seq<WireEvent>)
    requires id != "" && forall i :: 0 <= i < |wire| ==> wire[i].TextProgress? && wire[i].id == id
    requires ByteLength(Streamed(wire)) <= Sse.MAX_RESPONSE_BYTES
    ensures var f := Forward(tools, Arrivals(wire));
            f.open && f.terminal.None? && f.text == Streamed(wire) && (f.responseId == "" || f.responseId == id)
  {
    if wire != [] {
      hide ByteLength;
      var rest, last := wire[..|wire| - 1], wire[|wire| - 1];
      assert wire == rest + [last];
      ByteLengthConcat(Streamed(rest), last.text);
      ProgressIsForwarded(tools, id, rest);
      ArrivalsSnoc(rest, last);
      assert Arrivals(wire)[..|wire| - 1] == Arrivals(rest);
    }
  }

  /** Of a call id the bridge accepts, the gateway objects to C1 control characters and nothing else. */
  lemma IdsAgreeExceptC1(id: string)
    requires GeminiContents.ValidCallId(id)
    ensures GoodCallId(id) <==> ClearOfC1(id)
  {
    assert ByteLength("") == 0;
    hide TrimSpace, ByteLength;
    forall i | 0 <= i < |id| ensures IsControl(id[i]) <==> '\U{80}' <= id[i] <= '\U{9F}' {
    }
  }

  /** The two sides do differ: this id passes the bridge and is refused by the gateway. */
  lemma C1IdIsRefused()
    ensures GeminiContents.ValidCallId("a\U{80}b") && !GoodCallId("a\U{80}b")
  {
    var id := "a\U{80}b";
    assert id[0] == 'a' && id[1] == '\U{80}' && id[2] == 'b';
    assert TrimSpace(id) == id;
    assert id[..2] == "a\U{80}" && id[..2][..1] == "a" && id[..2][..1][..0] == "";
    assert ByteLength(id[..2][..1]) == 1;
    assert ByteLength(id[..2]) == 3;
    assert ByteLength(id) == 4;
    assert IsControl(id[1]);
  }

  lemma OneGoodPart(tools: set<string>, part: Part)
    ensures GoodParts(tools, [part]) <==> GoodPart(tools, part)
  {
    hide GoodPart;
    assert [part][0] == part;
  }

  lemma GoodTerminal(json: string -> Envelope, tools: set<string>, text: string)
    requires ChecksCalls(json, tools)
    ensures var call := DecodeClientFunctionCall(json, text);
            !call.MalformedCall? ==>
              (GoodParts(tools, [if call.ToolCall? then CallPart(call) else TextPart(text)]) <==> Deliverable(call, text))
  {
    hide CallBody, GoodParts, GoodCallId, ClearOfC1, GeminiContents.ValidCallId;
    var call := DecodeClientFunctionCall(json, text);
    OneGoodPart(tools, if call.ToolCall? then CallPart(call) else TextPart(text));
    if call.ToolCall? {
      assert call == json(CallBody(text));
      IdsAgreeExceptC1(call.id);
      assert call.name != "";
    }
  }

  predicate Settles(tools: set<string>, outcome: (Forwarder, bool), part: Part, usage: Metadata) {
    var (f, ok) := outcome;
    && (ok <==> GoodParts(tools, [part]))
    && (ok ==> Validate(usage).Some? && f.terminal == Some(([part], Validate(usage).value))
               && f.sent != [] && f.sent[|f.sent| - 1].ClientTerminal?
               && (part.CallPart? ==> f.sent[|f.sent| - 1].parts == [part]))
  }

  /** A stream of progress closed by a terminal event: when the gateway accepts it, and what it then sends. */
  lemma GatewayAccepts(tools: set<string>, id: string, wire: seq<WireEvent>, part: Part, usage: Metadata)
    requires id != "" && forall i :: 0 <= i < |wire| ==> wire[i].TextProgress? && wire[i].id == id
    requires ByteLength(Streamed(wire)) <= Sse.MAX_RESPONSE_BYTES && Validate(usage).Some?
    requires Streamed(wire) == "" || (part.TextPart? && HasPrefix(part.text, Streamed(wire)))
    ensures Settles(tools, Delivered(tools, Arrivals(wire + [Terminal(id, [part], usage)]), true, true), part, usage)
  {
    hide ByteLength, GoodParts, Validate, Streamed, Forward, Conclude, HoldTerminal, Delivered, HasPrefix, Settles;
    var f, e := Forward(tools, Arrivals(wire)), Terminal(id, [part], usage);
    ProgressIsForwarded(tools, id, wire);
    TerminalIsHeld(tools, wire, e);
    HeldIsSent(tools, f, e, part);
    assert Delivered(tools, Arrivals(wire + [e]), true, true) == Conclude(HoldTerminal(tools, f, e), true, true) by {
      DeliveredIs(tools, Arrivals(wire + [e]));
    }
  }

  lemma DeliveredIs(tools: set<string>, arrivals: seq<Arrival>)
    ensures Delivered(tools, arrivals, true, true) == Conclude(Forward(tools, arrivals), true, true)
  {
    hide Conclude, Forward;
  }

  lemma HeldIsSent(tools: set<string>, f: Forwarder, e: WireEvent, part: Part)
    requires e.Terminal? && e.parts == [part] && Validate(e.usage).Some?
    requires f.open && f.terminal.None? && (f.responseId == "" || f.responseId == e.id)
    requires f.text == "" || (part.TextPart? && HasPrefix(part.text, f.text))
    ensures Settles(tools, Conclude(HoldTerminal(tools, f, e), true, true), part, e.usage)
  {
    hide GoodParts, Validate, TrimPrefix;
  }

  lemma TerminalIsHeld(tools: set<string>, wire: seq<WireEvent>, e: WireEvent)
    requires e.Terminal? && Forward(tools, Arrivals(wire)).open && Forward(tools, Arrivals(wire)).terminal.None?
    ensures Forward(tools, Arrivals(wire + [e])) == HoldTerminal(tools, Forward(tools, Arrivals(wire)), e)
  {
    hide HoldTerminal;
    ArrivalsSnoc(wire, e);
    var all := Arrivals(wire) + [Arrival(e, true)];
    assert all[..|all| - 1] == Arrivals(wire);
  }

  // ---------------------------------------------------------------- the whole way

  /**
   The run of one request with no write failing: the bridge is handed the parser's updates in order, with
   ticks anywhere between them, and then the parser's result.
   */
  ghost predicate Relays(run: seq<Input>, p: Parser) {
    Running(run) && AllWritten(run) && Updates(run) == p.updates && p.progress.Finished?
  }

  /** All the client receives for such a run. */
  function Received(json: string -> Envelope, tools: set<string>, id: string, run: seq<Input>, result: Result): (Forwarder, bool) {
    Delivered(tools, Arrivals(Serve(json, id, run + [Done(Succeeded(result), true)]).wire), true, true)
  }

  /**
   The client has the whole answer: the terminal object once and last, the CLI's text and nothing else, a
   call whole and without prose, and the usage the CLI reported, cache reads included.
   */
  ghost predicate HasAnswer(f: Forwarder, call: Envelope, response: string, lines: seq<Line>) {
    && f.sent != [] && f.sent[|f.sent| - 1].ClientTerminal? && ProgressOnly(f.sent[..|f.sent| - 1])
    && ClientText(f.sent) == (if call.ToolCall? then "" else response)
    && (call.ToolCall? ==> f.sent[|f.sent| - 1].parts == [CallPart(call)])
    && lines != [] && lines[|lines| - 1].event.CliResult? && lines[|lines| - 1].event.usage.Some?
    && f.terminal.Some? && f.terminal.value.1 == Charged(lines[|lines| - 1].event.usage.value)
  }

  /** Event by event, an answer is forwarded exactly when it is deliverable, and then completely. */
  lemma AnswerForwarded(model: string, lines: seq<Line>, json: string -> Envelope, tools: set<string>, id: string, run: seq<Input>)
    requires OnlyObjects(json) && ChecksCalls(json, tools) && id != ""
    requires RepresentableLines(lines) && Relays(run, Parse(model, lines))
    ensures var result := Parse(model, lines).progress.result;
            var call := DecodeClientFunctionCall(json, result.response);
            var (f, ok) := Received(json, tools, id, run, result);
            && (ok <==> Deliverable(call, result.response))
            && (if ok then HasAnswer(f, call, result.response, lines) else NoTerminal(f.sent))
  {
    hide ByteLength, DecodeClientFunctionCall, Concat, Normalize, Validate, Encode, Parse, Serve, Streamed, Delivered, GoodParts, ClearOfC1,
         ClientText, PartText, Running, AllWritten;
    var result := Parse(model, lines).progress.result;
    var call := DecodeClientFunctionCall(json, result.response);
    UpdatesSpellText(model, lines);
    SuccessEndsWithResult(model, lines);
    var reported := lines[|lines| - 1].event.usage.value;
    assert lines[|lines| - 1] in lines;
    UsageRoundTrip(reported);
    BridgeCompletes(json, id, run, result);
    GoodTerminal(json, tools, result.response);
    var wire := Serve(json, id, run).wire;
    var all := Serve(json, id, run + [Done(Succeeded(result), true)]).wire;
    TerminalExactlyOnSuccess(tools, Arrivals(all), true, true);
    if call.MalformedCall? {
      MalformedFails(tools, wire, all);
    } else {
      var part := if call.ToolCall? then CallPart(call) else TextPart(result.response);
      StreamedIsPrefix(json, id, run);
      GatewayAccepts(tools, id, wire, part, Encode(result.usage));
      if Delivered(tools, Arrivals(all), true, true).1 {
        SuccessSpellsTerminal(tools, Arrivals(all), true, true);
        OnePart(part);
      }
    }
  }

  /** What the gateway books for a reported usage. */
  function Charged(u: CliUsage): GatewayUsage {
    GatewayUsage(u.input + u.cacheRead, u.cacheRead, u.output, u.thinking)
  }

  /** The prose on the wire is all updates or nothing. */
  lemma StreamedIsPrefix(json: string -> Envelope, id: string, run: seq<Input>)
    requires Faithful(Serve(json, id, run), id, Concat(Updates(run)))
    requires ByteLength(Concat(Updates(run))) <= MAX_OUTPUT_BYTES
    ensures HasPrefix(Concat(Updates(run)), Streamed(Serve(json, id, run).wire))
    ensures ByteLength(Streamed(Serve(json, id, run).wire)) <= Sse.MAX_RESPONSE_BYTES
    ensures forall i :: 0 <= i < |Serve(json, id, run).wire| ==> Serve(json, id, run).wire[i].TextProgress? && Serve(json, id, run).wire[i].id == id
  {
    assert ByteLength("") == 0;
  }

  lemma MalformedFails(tools: set<string>, wire: seq<WireEvent>, all: seq<WireEvent>)
    requires forall i :: 0 <= i < |wire| ==> wire[i].TextProgress?
    requires all == wire || all == wire + [WireError]
    ensures !Delivered(tools, Arrivals(all), true, true).1
  {
    hide Delivered;
    TerminalExactlyOnSuccess(tools, Arrivals(all), true, true);
    assert all != [] ==> !all[|all| - 1].Terminal?;
  }

  // ---------------------------------------------------------------- on the wire

  function Payloads(encode: WireEvent -> string, wire: seq<WireEvent>): (ps: seq<string>)
    ensures |ps| == |wire| && forall i :: 0 <= i < |ps| ==> ps[i] == encode(wire[i])
  {
    seq(|wire|, i requires 0 <= i < |wire| => encode(wire[i]))
  }

  function Decoded(decode: string -> WireEvent, ps: seq<string>): (wire: seq<WireEvent>)
    ensures |wire| == |ps| && forall i :: 0 <= i < |ps| ==> wire[i] == decode(ps[i])
  {
    seq(|ps|, i requires 0 <= i < |ps| => decode(ps[i]))
  }

  /** JSON encoding, abstracted: it round-trips, and an encoded event holds no line break. */
  ghost predicate Codec(encode: WireEvent -> string, decode: string -> WireEvent) {
    forall e :: decode(encode(e)) == e && Sse.OneLine(encode(e))
  }

  /** What the client receives when the events travel as server-sent events and are scanned again. */
  function ReceivedAsText(encode: WireEvent -> string, decode: string -> WireEvent, tools: set<string>, wire: seq<WireEvent>): (Forwarder, bool) {
    var (payloads, clean) := Sse.ReadEvents(Sse.FrameAll(Payloads(encode, wire)));
    Delivered(tools, Arrivals(Decoded(decode, payloads)), clean, true)
  }

  /** Framing changes nothing up to the size limit, and past it the client never sees a terminal object. */
  lemma FramingIsTransparent(encode: WireEvent -> string, decode: string -> WireEvent, tools: set<string>, wire: seq<WireEvent>)
    requires Codec(encode, decode)
    ensures if ByteLength(Sse.FrameAll(Payloads(encode, wire))) <= Sse.MAX_RESPONSE_BYTES
            then ReceivedAsText(encode, decode, tools, wire) == Delivered(tools, Arrivals(wire), true, true)
            else !ReceivedAsText(encode, decode, tools, wire).1 && NoTerminal(ReceivedAsText(encode, decode, tools, wire).0.sent)
  {
    hide ByteLength, Sse.FrameAll, Delivered, Sse.ScanLines, Sse.ReadLines;
    var payloads := Payloads(encode, wire);
    if ByteLength(Sse.FrameAll(payloads)) <= Sse.MAX_RESPONSE_BYTES {
      forall p | p in payloads ensures Sse.OneLine(p) {
        var i :| 0 <= i < |payloads| && payloads[i] == p;
        assert p == encode(wire[i]);
      }
      Sse.FramesRoundTrip(payloads);
      assert Decoded(decode, payloads) == wire;
    } else {
      var events := Sse.ReadEvents(Sse.FrameAll(payloads)).0;
      TerminalExactlyOnSuccess(tools, Arrivals(Decoded(decode, events)), false, true);
    }
  }

  /** The bytes between bridge and gateway for such a run. */
  function WireBytes(encode: WireEvent -> string, json: string -> Envelope, id: string, run: seq<Input>, result: Result): nat {
    ByteLength(Sse.FrameAll(Payloads(encode, Serve(json, id, run + [Done(Succeeded(result), true)]).wire)))
  }

  /**
   Exactness, on the wire as it is. For every answer of the CLI, every way it is cut, and any ticks: the
   client gets a terminal object if and only if the answer is deliverable and its frames fit the gateway's
   size limit; and then it gets the whole answer.
   */
  lemma AnswerArrives(model: string, lines: seq<Line>, json: string -> Envelope, tools: set<string>, id: string, run: seq<Input>,
                      encode: WireEvent -> string, decode: string -> WireEvent)
    requires OnlyObjects(json) && ChecksCalls(json, tools) && id != "" && Codec(encode, decode)
    requires RepresentableLines(lines) && Relays(run, Parse(model, lines))
    ensures var result := Parse(model, lines).progress.result;
            var call := DecodeClientFunctionCall(json, result.response);
            var wire := Serve(json, id, run + [Done(Succeeded(result), true)]).wire;
            var (f, ok) := ReceivedAsText(encode, decode, tools, wire);
            && (ok <==> Deliverable(call, result.response) && WireBytes(encode, json, id, run, result) <= Sse.MAX_RESPONSE_BYTES)
            && (if ok then HasAnswer(f, call, result.response, lines) else NoTerminal(f.sent))
  {
    hide DecodeClientFunctionCall, Parse, Serve, Delivered, ReceivedAsText, Deliverable, HasAnswer, NoTerminal, ByteLength, Sse.FrameAll;
    var result := Parse(model, lines).progress.result;
    AnswerForwarded(model, lines, json, tools, id, run);
    FramingIsTransparent(encode, decode, tools, Serve(json, id, run + [Done(Succeeded(result), true)]).wire);
  }
}
