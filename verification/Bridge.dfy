/**
 The bridge side of the incremental stream, serveGeminiStreamInterval of
 internal/antigravity/gemini_stream.go: prose is streamed as it comes, anything that might become a
 tool call is withheld until the result decides.
 */
module Bridge {
  import opened Text
  import opened ClientCall
  import opened GeminiUsage
  import opened CliProtocol

  datatype Part = TextPart(text: string) | CallPart(call: Envelope)

  /** An event on the private wire. ForeignEvent is anything the bridge never sends. */
  datatype WireEvent =
    | TextProgress(id: string, text: string)
    | Terminal(id: string, parts: seq<Part>, usage: Metadata)
    | WireError
    | ForeignEvent

  datatype Completion = Succeeded(result: Result) | Broken

  /** What the loop selects on, with whether a write it causes goes through. */
  datatype Input = Update(text: string, written: bool) | Tick(written: bool) | Done(completion: Completion, written: bool)

  datatype Server = Server(open: bool, succeeded: bool, started: bool, plainText: bool, pending: string, wire: seq<WireEvent>)

  const IDLE := Server(true, false, false, false, "", [])

  function Close(s: Server): Server {
    s.(open := false)
  }

  function Emit(s: Server, e: WireEvent, written: bool): Server {
    if written then s.(started := true, wire := s.wire + [e]) else Close(s)
  }

  function Receive(s: Server, id: string, text: string, written: bool): Server {
    if text == "" || s.plainText then Emit(s, TextProgress(id, text), written)
    else if ByteLength(text) > MAX_OUTPUT_BYTES - ByteLength(s.pending) then Close(s)
    else
      var pending := s.pending + text;
      if PotentialClientCall(pending) then s.(pending := pending)
      else Emit(s.(plainText := true, pending := ""), TextProgress(id, pending), written)
  }

  /** The terminal event carries the whole result, as one text part or one call. */
  function TerminalFor(id: string, result: Result, call: Envelope): WireEvent {
    Terminal(id, [if call.ToolCall? then CallPart(call) else TextPart(result.response)], Encode(result.usage))
  }

  function Complete(json: string -> Envelope, s: Server, id: string, c: Completion, written: bool): Server {
    var call := if c.Succeeded? then DecodeClientFunctionCall(json, c.result.response) else NotACall;
    if c.Broken? || call.MalformedCall? || (s.plainText && call.ToolCall?) then
      (if s.started then Close(Emit(s, WireError, written)) else Close(s))
    else Close(Emit(s, TerminalFor(id, c.result, call), written)).(succeeded := written)
  }

  function ServeOne(json: string -> Envelope, id: string, s: Server, input: Input): Server {
    if !s.open then s
    else match input
      case Update(text, written) => Receive(s, id, text, written)
      case Tick(written) => if s.started then Emit(s, TextProgress(id, ""), written) else s
      case Done(completion, written) => Complete(json, s, id, completion, written)
  }

  function Serve(json: string -> Envelope, id: string, inputs: seq<Input>): Server {
    if inputs == [] then IDLE else ServeOne(json, id, Serve(json, id, inputs[..|inputs| - 1]), inputs[|inputs| - 1])
  }

  method ServeGeminiStream(json: string -> Envelope, id: string, inputs: seq<Input>) returns (wire: seq<WireEvent>, succeeded: bool)
    ensures wire == Serve(json, id, inputs).wire
    ensures succeeded == Serve(json, id, inputs).succeeded
  {
    hide ByteLength, PotentialClientCall, DecodeClientFunctionCall, Encode;
    var started, plainText, pending := false, false, "";
    wire, succeeded := [], false;
    for index := 0 to |inputs|
      invariant Serve(json, id, inputs[..index]) == Server(true, false, started, plainText, pending, wire)
      invariant !succeeded
    {
      assert inputs[..index + 1][..index] == inputs[..index];
      ClosedForGood(json, id, inputs, index + 1);
      match inputs[index] {
        case Update(update, written) =>
          var text := update;
          var withheld := false;
          if text != "" && !plainText {
            if ByteLength(text) > MAX_OUTPUT_BYTES - ByteLength(pending) {
              return;
            }
            pending := pending + text;
            if !PotentialClientCall(pending) {
              plainText, text, pending := true, pending, "";
            } else {
              withheld := true;
            }
          }
          if !withheld {
            if !written {
              return;
            }
            started := true;
            wire := wire + [TextProgress(id, text)];
          }
        case Tick(written) =>
          if started {
            if !written {
              return;
            }
            wire := wire + [TextProgress(id, "")];
          }
        case Done(completion, written) =>
          var call := NotACall;
          var failed := completion.Broken?;
          if !failed {
            call := DecodeClientFunctionCall(json, completion.result.response);
            failed := call.MalformedCall? || (plainText && call.ToolCall?);
          }
          if failed {
            if started && written {
              wire := wire + [WireError];
            }
            return;
          }
          succeeded := written;
          if written {
            wire := wire + [TerminalFor(id, completion.result, call)];
          }
          return;
      }
    }
    assert inputs[..|inputs|] == inputs;
  }

  lemma {:induction false} ClosedForGood(json: string -> Envelope, id: string, inputs: seq<Input>, n: nat)
    requires n <= |inputs|
    ensures !Serve(json, id, inputs[..n]).open ==> Serve(json, id, inputs) == Serve(json, id, inputs[..n])
    decreases |inputs| - n
  {
    if n < |inputs| {
      assert inputs[..n + 1][..n] == inputs[..n];
      ClosedForGood(json, id, inputs, n + 1);
    } else {
      assert inputs[..n] == inputs;
    }
  }

  // ---------------------------------------------------------------- what is on the wire

  /** The update texts among the inputs, in order. */
  function Updates(inputs: seq<Input>): seq<string> {
    if inputs == [] then []
    else
      var last := inputs[|inputs| - 1];
      Updates(inputs[..|inputs| - 1]) + if last.Update? then [last.text] else []
  }

  /** The prose streamed by progress events. */
  function Streamed(wire: seq<WireEvent>): string {
    if wire == [] then ""
    else
      var last := wire[|wire| - 1];
      Streamed(wire[..|wire| - 1]) + if last.TextProgress? then last.text else ""
  }

  predicate Running(inputs: seq<Input>) {
    forall i :: 0 <= i < |inputs| ==> !inputs[i].Done?
  }

  lemma StreamedSnoc(wire: seq<WireEvent>, e: WireEvent)
    ensures Streamed(wire + [e]) == Streamed(wire) + if e.TextProgress? then e.text else ""
  {
    assert (wire + [e])[..|wire|] == wire;
  }

  /**
   While the run lasts: the wire holds progress events only; once prose has been recognised it spells
   all updates so far, and until then it spells nothing and the updates are pending.
   */
  ghost predicate Faithful(s: Server, id: string, all: string) {
    && (forall i :: 0 <= i < |s.wire| ==> s.wire[i].TextProgress? && s.wire[i].id == id)
    && (if s.plainText
        then Streamed(s.wire) == all && s.pending == "" && exists n :: 0 <= n <= |all| && !PotentialClientCall(all[..n])
        else Streamed(s.wire) == "" && s.pending == all)
    && !s.succeeded
  }

  lemma ReceiveFaithful(s: Server, id: string, all: string, text: string, written: bool)
    requires s.open && Faithful(s, id, all)
    ensures Receive(s, id, text, written).open ==> Faithful(Receive(s, id, text, written), id, all + text)
  {
    hide ByteLength, PotentialClientCall, Streamed;
    assert all + "" == all;
    assert "" + (all + text) == all + text;
    StreamedSnoc(s.wire, TextProgress(id, text));
    StreamedSnoc(s.wire, TextProgress(id, all + text));
    if s.plainText {
      var n :| 0 <= n <= |all| && !PotentialClientCall(all[..n]);
      assert (all + text)[..n] == all[..n];
    } else {
      assert (all + text)[..|all + text|] == all + text;
    }
  }

  lemma {:induction false} RunIsFaithful(json: string -> Envelope, id: string, inputs: seq<Input>)
    requires Running(inputs) && Serve(json, id, inputs).open
    ensures Faithful(Serve(json, id, inputs), id, Concat(Updates(inputs)))
  {
    if inputs != [] {
      hide ByteLength, PotentialClientCall, Receive, Faithful;
      var rest, last := inputs[..|inputs| - 1], inputs[|inputs| - 1];
      var s := Serve(json, id, rest);
      RunIsFaithful(json, id, rest);
      if last.Update? {
        ReceiveFaithful(s, id, Concat(Updates(rest)), last.text, last.written);
        ConcatSnoc(Updates(rest), last.text);
      } else {
        assert Updates(rest) + [] == Updates(rest);
        if s.started { TickFaithful(s, id, Concat(Updates(rest)), last.written); }
      }
    }
  }

  lemma TickFaithful(s: Server, id: string, all: string, written: bool)
    requires Faithful(s, id, all) && Emit(s, TextProgress(id, ""), written).open
    ensures Faithful(Emit(s, TextProgress(id, ""), written), id, all)
  {
    hide PotentialClientCall, Streamed;
    StreamedSnoc(s.wire, TextProgress(id, ""));
    assert Streamed(s.wire) + "" == Streamed(s.wire);
  }

  /**
   Text that decodes as a tool call is never streamed, however it was cut; so the failure "prose turned
   into a call" cannot happen once the result extends what was streamed.
   */
  lemma CallIsNeverStreamed(json: string -> Envelope, id: string, inputs: seq<Input>, response: string)
    requires OnlyObjects(json) && Running(inputs) && Serve(json, id, inputs).open
    requires HasPrefix(response, Concat(Updates(inputs))) && DecodeClientFunctionCall(json, response) != NotACall
    ensures Streamed(Serve(json, id, inputs).wire) == "" && !Serve(json, id, inputs).plainText
  {
    hide PotentialClientCall, DecodeClientFunctionCall;
    RunIsFaithful(json, id, inputs);
    var all := Concat(Updates(inputs));
    forall n | 0 <= n <= |all| ensures PotentialClientCall(all[..n]) {
      WithheldWhilePossible(json, response, n);
      assert response[..n] == all[..n];
    }
  }

  /** The parser's output limit keeps the bridge's own limit from ever cutting a stream. */
  lemma LimitNeverCuts(json: string -> Envelope, id: string, inputs: seq<Input>, text: string)
    requires Running(inputs) && Serve(json, id, inputs).open
    requires ByteLength(Concat(Updates(inputs)) + text) <= MAX_OUTPUT_BYTES
    ensures Receive(Serve(json, id, inputs), id, text, true).open
  {
    hide PotentialClientCall, ByteLength;
    RunIsFaithful(json, id, inputs);
    var s := Serve(json, id, inputs);
    if !s.plainText { ByteLengthConcat(s.pending, text); }
  }

  // ---------------------------------------------------------------- what is sent, and when

  /** Some number of the updates, joined, is text that cannot become a call. */
  predicate Prose(updates: seq<string>) {
    exists k :: 0 <= k <= |updates| && !PotentialClientCall(Concat(updates[..k]))
  }

  /** The events an input calls for, after the inputs before it and the events sent for them. */
  function Due(json: string -> Envelope, id: string, before: seq<Input>, wire: seq<WireEvent>, input: Input): seq<WireEvent> {
    var updates := Updates(before);
    match input
    case Tick(_) => if wire == [] then [] else [TextProgress(id, "")]
    case Update(text, _) =>
      if text == "" || Prose(updates) then [TextProgress(id, text)]
      else if Prose(updates + [text]) then [TextProgress(id, Concat(updates) + text)] else []
    case Done(Broken, _) => if wire == [] then [] else [WireError]
    case Done(Succeeded(result), _) =>
      var call := DecodeClientFunctionCall(json, result.response);
      if call.MalformedCall? || (call.ToolCall? && Prose(updates)) then if wire == [] then [] else [WireError]
      else [Terminal(id, [if call.ToolCall? then CallPart(call) else TextPart(result.response)], Encode(result.usage))]
  }

  /** An update that would make the text still withheld too long. */
  predicate TooLong(before: seq<Input>, input: Input) {
    input.Update? && input.text != "" && !Prose(Updates(before)) && ByteLength(Concat(Updates(before)) + input.text) > MAX_OUTPUT_BYTES
  }

  ghost predicate OnCourse(s: Server, updates: seq<string>) {
    (s.started <==> s.wire != []) && (s.plainText <==> Prose(updates)) && (!s.plainText ==> s.pending == Concat(updates))
  }

  lemma ProseSnoc(updates: seq<string>, text: string)
    ensures Prose(updates + [text]) <==> Prose(updates) || !PotentialClientCall(Concat(updates) + text)
    ensures text == "" ==> (Prose(updates + [text]) <==> Prose(updates))
  {
    hide PotentialClientCall, Concat;
    var all := updates + [text];
    ConcatSnoc(updates, text);
    assert all[..|all|] == all && updates[..|updates|] == updates;
    assert Concat(updates) + "" == Concat(updates);
    forall k | 0 <= k <= |updates| ensures all[..k] == updates[..k] {}
  }

  lemma ReceiveOnCourse(s: Server, updates: seq<string>, id: string, text: string, written: bool)
    requires OnCourse(s, updates) && Receive(s, id, text, written).open
    ensures OnCourse(Receive(s, id, text, written), updates + [text])
  {
    hide ByteLength, PotentialClientCall, Prose, Concat;
    ProseSnoc(updates, text);
    ConcatSnoc(updates, text);
    assert Concat(updates) + "" == Concat(updates);
  }

  lemma IdleOnCourse()
    ensures OnCourse(IDLE, [])
  {
    assert PotentialClientCall("");
  }

  lemma {:induction false} StaysOnCourse(json: string -> Envelope, id: string, inputs: seq<Input>)
    requires Running(inputs) && Serve(json, id, inputs).open
    ensures OnCourse(Serve(json, id, inputs), Updates(inputs))
  {
    if inputs == [] {
      IdleOnCourse();
    } else {
      hide Receive, Prose, Concat;
      var rest, last := inputs[..|inputs| - 1], inputs[|inputs| - 1];
      StaysOnCourse(json, id, rest);
      if last.Update? {
        hide OnCourse;
        ReceiveOnCourse(Serve(json, id, rest), Updates(rest), id, last.text, last.written);
      } else {
        assert Updates(rest) + [] == Updates(rest);
      }
    }
  }

  /**
   Each input is answered at once, with the events due for it and no others: prose as soon as it is known to
   be prose, a heartbeat once anything was sent, and one terminal event or error; and the loop goes on until
   a write fails, the withheld text is too long, or the result is in.
   */
  lemma SendsWhatIsDue(json: string -> Envelope, id: string, before: seq<Input>, input: Input)
    requires Running(before) && Serve(json, id, before).open
    ensures var s, t := Serve(json, id, before), Serve(json, id, before + [input]);
            var due := if TooLong(before, input) then [] else Due(json, id, before, s.wire, input);
            && t.wire == s.wire + (if input.written then due else [])
            && (t.open <==> !input.Done? && !TooLong(before, input) && (input.written || due == []))
            && (t.succeeded <==> input.Done? && input.written && |due| == 1 && due[0].Terminal?)
  {
    hide ByteLength, PotentialClientCall, Prose, Concat, DecodeClientFunctionCall, Encode, Serve, Streamed;
    var s := Serve(json, id, before);
    StaysOnCourse(json, id, before);
    RunIsFaithful(json, id, before);
    ServesNext(json, id, before, input);
    assert s.wire + [] == s.wire;
    if input.Update? {
      ProseSnoc(Updates(before), input.text);
      ByteLengthConcat(Concat(Updates(before)), input.text);
    }
  }

  lemma ServesNext(json: string -> Envelope, id: string, before: seq<Input>, input: Input)
    ensures Serve(json, id, before + [input]) == ServeOne(json, id, Serve(json, id, before), input)
  {
    hide ServeOne;
    assert (before + [input])[..|before|] == before;
  }
}
