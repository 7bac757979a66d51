/**
 The gateway side of the incremental stream, forwardGeminiStream of internal/proxy/gemini_stream.go:
 progress is forwarded, the terminal object is held back until end of file, stripped of what was
 already streamed, and sent once.
 */
module Gateway {
  import opened Text
  import opened ClientCall
  import opened GeminiUsage
  import opened Bridge
  import opened Sse

  /** What the API client receives. */
  datatype ClientEvent = ClientProgress(text: string) | ClientTerminal(parts: seq<Part>) | ClientError

  /** Where the forwarding loop stands; terminal holds the parts and the usage of the terminal object. */
  datatype Forwarder = Forwarder(
    open: bool, text: string, responseId: string, terminal: Option<(seq<Part>, GatewayUsage)>, sent: seq<ClientEvent>)

  const LISTENING := Forwarder(true, "", "", None, [])

  /** A wire event, and whether forwarding it to the client goes through. */
  datatype Arrival = Arrival(event: WireEvent, written: bool)

  predicate IsControl(c: char) {
    c < ' ' || '\U{7F}' <= c <= '\U{9F}'
  }

  predicate GoodCallId(id: string) {
    id == "" || ((forall i :: 0 <= i < |id| ==> !IsControl(id[i])) && TrimSpace(id) == id)
  }

  predicate GoodPart(tools: set<string>, p: Part) {
    match p
    case TextPart(text) => text != ""
    case CallPart(call) => call.ToolCall? && call.name != "" && call.name in tools && GoodCallId(call.id)
  }

  predicate DistinctCallIds(parts: seq<Part>) {
    forall i, j :: 0 <= i < j < |parts| && parts[i].CallPart? && parts[j].CallPart?
                   && parts[i].call.ToolCall? && parts[j].call.ToolCall? && parts[i].call.id != ""
                   ==> parts[i].call.id != parts[j].call.id
  }

  predicate GoodParts(tools: set<string>, parts: seq<Part>) {
    parts != [] && (forall i :: 0 <= i < |parts| ==> GoodPart(tools, parts[i])) && DistinctCallIds(parts)
  }

  /** Stops with an error event, unless nothing was sent yet or the client is gone. */
  function Abort(f: Forwarder, gone: bool): Forwarder {
    f.(open := false, sent := f.sent + if f.sent == [] || gone then [] else [ClientError])
  }

  function ForwardProgress(f: Forwarder, id: string, text: string, written: bool): Forwarder {
    if id == "" || (f.responseId != "" && f.responseId != id) then Abort(f, false)
    else if text != "" && ByteLength(text) > MAX_RESPONSE_BYTES - ByteLength(f.text) then Abort(f, false)
    else
      var g := f.(text := f.text + text, responseId := id);
      if written then g.(sent := g.sent + [ClientProgress(text)]) else Abort(g, true)
  }

  function HoldTerminal(tools: set<string>, f: Forwarder, e: WireEvent): Forwarder
    requires e.Terminal?
  {
    var usage := Validate(e.usage);
    if !GoodParts(tools, e.parts) || usage.None? || (f.responseId != "" && e.id != f.responseId) then Abort(f, false)
    else f.(terminal := Some((e.parts, usage.value)))
  }

  function ForwardOne(tools: set<string>, f: Forwarder, a: Arrival): Forwarder {
    if !f.open then f
    else if f.terminal.Some? then Abort(f, false)
    else match a.event
      case TextProgress(id, text) => ForwardProgress(f, id, text, a.written)
      case Terminal(_, _, _) => HoldTerminal(tools, f, a.event)
      case WireError => Abort(f, false)
      case ForeignEvent => Abort(f, false)
  }

  function Forward(tools: set<string>, arrivals: seq<Arrival>): Forwarder {
    if arrivals == [] then LISTENING else ForwardOne(tools, Forward(tools, arrivals[..|arrivals| - 1]), arrivals[|arrivals| - 1])
  }

  /** The terminal parts with the streamed text stripped, or None if they do not extend it. */
  function Remainder(text: string, parts: seq<Part>): Option<seq<Part>> {
    if text == "" then Some(parts)
    else if |parts| != 1 || parts[0].CallPart? || !HasPrefix(parts[0].text, text) then None
    else Some([TextPart(TrimPrefix(parts[0].text, text))])
  }

  /** End of file: clean tells whether the reader ended cleanly, written whether the terminal goes out. */
  function Conclude(f: Forwarder, clean: bool, written: bool): (Forwarder, bool) {
    if !f.open then (f, false)
    else if !clean || f.terminal.None? then (Abort(f, false), false)
    else
      var rest := Remainder(f.text, f.terminal.value.0);
      if rest.None? then (Abort(f, false), false)
      else if !written then (Abort(f, true), false)
      else (f.(open := false, sent := f.sent + [ClientTerminal(rest.value)]), true)
  }

  function Delivered(tools: set<string>, arrivals: seq<Arrival>, clean: bool, written: bool): (Forwarder, bool) {
    Conclude(Forward(tools, arrivals), clean, written)
  }

  method ForwardGeminiStream(tools: set<string>, arrivals: seq<Arrival>, clean: bool, written: bool)
    returns (sent: seq<ClientEvent>, usage: Option<GatewayUsage>)
    ensures sent == Delivered(tools, arrivals, clean, written).0.sent
    ensures usage.Some? == Delivered(tools, arrivals, clean, written).1
    ensures usage.Some? ==> Delivered(tools, arrivals, clean, written).0.terminal.Some?
                            && usage.value == Delivered(tools, arrivals, clean, written).0.terminal.value.1
  {
    hide ByteLength, GoodParts, Validate, HasPrefix;
    var text, responseId := "", "";
    var terminal: Option<(seq<Part>, GatewayUsage)> := None;
    sent, usage := [], None;
    for index := 0 to |arrivals|
      invariant Forward(tools, arrivals[..index]) == Forwarder(true, text, responseId, terminal, sent)
      invariant usage.None?
    {
      assert arrivals[..index + 1][..index] == arrivals[..index];
      AbortedForGood(tools, arrivals, index + 1);
      var event := arrivals[index].event;
      var bad := terminal.Some?;
      if !bad {
        match event {
          case TextProgress(id, delta) =>
            bad := id == "" || (responseId != "" && responseId != id)
                   || (delta != "" && ByteLength(delta) > MAX_RESPONSE_BYTES - ByteLength(text));
            if !bad {
              text := text + delta;
              responseId := id;
              if !arrivals[index].written {
                return;
              }
              sent := sent + [ClientProgress(delta)];
            }
          case Terminal(id, parts, metadata) =>
            var decoded := Validate(metadata);
            bad := !GoodParts(tools, parts) || decoded.None? || (responseId != "" && id != responseId);
            if !bad {
              terminal := Some((parts, decoded.value));
            }
          case WireError => bad := true;
          case ForeignEvent => bad := true;
        }
      }
      if bad {
        if sent != [] {
          sent := sent + [ClientError];
        }
        return;
      }
    }
    assert arrivals[..|arrivals|] == arrivals;
    if clean && terminal.Some? {
      var parts := terminal.value.0;
      if text == "" || (|parts| == 1 && parts[0].TextPart? && HasPrefix(parts[0].text, text)) {
        if text != "" {
          parts := [TextPart(TrimPrefix(parts[0].text, text))];
        }
        if written {
          sent, usage := sent + [ClientTerminal(parts)], Some(terminal.value.1);
        }
        return;
      }
    }
    if sent != [] {
      sent := sent + [ClientError];
    }
  }

  lemma {:induction false} AbortedForGood(tools: set<string>, arrivals: seq<Arrival>, n: nat)
    requires n <= |arrivals|
    ensures !Forward(tools, arrivals[..n]).open ==> Forward(tools, arrivals) == Forward(tools, arrivals[..n])
    decreases |arrivals| - n
  {
    if n < |arrivals| {
      assert arrivals[..n + 1][..n] == arrivals[..n];
      AbortedForGood(tools, arrivals, n + 1);
    } else {
      assert arrivals[..n] == arrivals;
    }
  }

  // ---------------------------------------------------------------- what the client is told

  function PartText(parts: seq<Part>): string {
    if parts == [] then "" else PartText(parts[..|parts| - 1]) + if parts[|parts| - 1].TextPart? then parts[|parts| - 1].text else ""
  }

  /** All text the client receives, in order. */
  function ClientText(sent: seq<ClientEvent>): string {
    if sent == [] then ""
    else
      ClientText(sent[..|sent| - 1])
      + match sent[|sent| - 1]
        case ClientProgress(text) => text
        case ClientTerminal(parts) => PartText(parts)
        case ClientError => ""
  }

  lemma ClientTextSnoc(sent: seq<ClientEvent>, e: ClientEvent)
    ensures ClientText(sent + [e]) == ClientText(sent) + (match e case ClientProgress(text) => text case ClientTerminal(parts) => PartText(parts) case ClientError => "")
  {
    assert (sent + [e])[..|sent|] == sent;
  }

  predicate ProgressOnly(sent: seq<ClientEvent>) {
    forall i :: 0 <= i < |sent| ==> sent[i].ClientProgress?
  }

  predicate NoTerminal(sent: seq<ClientEvent>) {
    forall i :: 0 <= i < |sent| ==> !sent[i].ClientTerminal?
  }

  /** While forwarding: only progress was sent, and it spells the text so far. */
  predicate Forwarding(f: Forwarder) {
    NoTerminal(f.sent) && (f.open ==> ProgressOnly(f.sent) && ClientText(f.sent) == f.text)
  }

  lemma ForwardOneKeeps(tools: set<string>, f: Forwarder, a: Arrival)
    requires Forwarding(f)
    ensures Forwarding(ForwardOne(tools, f, a))
  {
    hide ByteLength, GoodParts, Validate, ClientText;
    if a.event.TextProgress? { ClientTextSnoc(f.sent, ClientProgress(a.event.text)); }
  }

  lemma {:induction false} ForwardedText(tools: set<string>, arrivals: seq<Arrival>)
    ensures Forwarding(Forward(tools, arrivals))
  {
    if arrivals != [] {
      hide Forwarding, ForwardOne;
      var rest := arrivals[..|arrivals| - 1];
      ForwardedText(tools, rest);
      ForwardOneKeeps(tools, Forward(tools, rest), arrivals[|arrivals| - 1]);
    }
  }

  /** The terminal object kept is the last event read. */
  lemma TerminalIsLast(tools: set<string>, arrivals: seq<Arrival>)
    requires Forward(tools, arrivals).open && Forward(tools, arrivals).terminal.Some?
    ensures arrivals != [] && arrivals[|arrivals| - 1].event.Terminal?
    ensures var e := arrivals[|arrivals| - 1].event;
            Validate(e.usage).Some? && Forward(tools, arrivals).terminal.value == (e.parts, Validate(e.usage).value)
  {
    hide ByteLength, GoodParts, Validate;
  }

  /**
   For every event sequence: the client sees a terminal object exactly when the run succeeds; it is then
   the last thing sent, the only terminal, and stands for the last event of a cleanly ended stream.
   */
  lemma TerminalExactlyOnSuccess(tools: set<string>, arrivals: seq<Arrival>, clean: bool, written: bool)
    ensures var (f, ok) := Delivered(tools, arrivals, clean, written);
            && (ok <==> !NoTerminal(f.sent))
            && (ok ==> clean && arrivals != [] && arrivals[|arrivals| - 1].event.Terminal?
                       && f.sent != [] && f.sent[|f.sent| - 1].ClientTerminal? && ProgressOnly(f.sent[..|f.sent| - 1]))
  {
    hide Remainder, Forward, ClientText;
    ForwardedText(tools, arrivals);
    var f := Forward(tools, arrivals);
    if f.open && f.terminal.Some? {
      TerminalIsLast(tools, arrivals);
      var (g, ok) := Conclude(f, clean, written);
      if ok { assert g.sent[|f.sent|].ClientTerminal? && g.sent[..|g.sent| - 1] == f.sent; }
    }
  }

  /** What was streamed followed by the remainder spells the terminal object's own text. */
  lemma RemainderSpells(text: string, parts: seq<Part>)
    requires Remainder(text, parts).Some?
    ensures text + PartText(Remainder(text, parts).value) == PartText(parts)
  {
    if text == "" {
      assert "" + PartText(parts) == PartText(parts);
    } else {
      OnePart(parts[0]);
      OnePart(Remainder(text, parts).value[0]);
      assert parts == [parts[0]];
    }
  }

  /** On success the client's text is what the terminal object says, whatever was streamed before. */
  lemma SuccessSpellsTerminal(tools: set<string>, arrivals: seq<Arrival>, clean: bool, written: bool)
    requires Delivered(tools, arrivals, clean, written).1
    ensures arrivals != [] && arrivals[|arrivals| - 1].event.Terminal?
    ensures ClientText(Delivered(tools, arrivals, clean, written).0.sent) == PartText(arrivals[|arrivals| - 1].event.parts)
  {
    hide Forward, ClientText, Remainder, PartText;
    ForwardedText(tools, arrivals);
    TerminalIsLast(tools, arrivals);
    var f := Forward(tools, arrivals);
    var rest := Remainder(f.text, f.terminal.value.0);
    RemainderSpells(f.text, f.terminal.value.0);
    ClientTextSnoc(f.sent, ClientTerminal(rest.value));
  }

  /**
   What the client can have seen at any point, and after any end: progress, and then at most one terminal
   object or error; and while no write fails, a stream that is broken off after its first event ends in an error.
   */
  predicate Announced(f: Forwarder, reliable: bool) {
    && (f.open ==> ProgressOnly(f.sent))
    && (f.sent != [] ==> ProgressOnly(f.sent[..|f.sent| - 1]) && !f.sent[|f.sent| - 1].ClientTerminal?)
    && (!f.open && reliable && f.sent != [] ==> f.sent[|f.sent| - 1].ClientError?)
  }

  lemma AbortAnnounces(f: Forwarder, gone: bool)
    requires f.open && ProgressOnly(f.sent)
    ensures Announced(Abort(f, gone), !gone)
  {
    var g := Abort(f, gone);
    if f.sent != [] && !gone { assert g.sent[..|g.sent| - 1] == f.sent; }
  }

  lemma ForwardOneAnnounces(tools: set<string>, f: Forwarder, a: Arrival, reliable: bool)
    requires Announced(f, reliable)
    ensures Announced(ForwardOne(tools, f, a), reliable && a.written)
  {
    hide ByteLength, GoodParts, Validate;
    if f.open {
      AbortAnnounces(f, false);
      if a.event.TextProgress? {
        var g := f.(text := f.text + a.event.text, responseId := a.event.id);
        AbortAnnounces(g, true);
        assert (g.sent + [ClientProgress(a.event.text)])[..|g.sent|] == g.sent;
      }
    }
  }

  predicate Reliable(arrivals: seq<Arrival>) {
    forall i :: 0 <= i < |arrivals| ==> arrivals[i].written
  }

  lemma {:induction false} AlwaysAnnounced(tools: set<string>, arrivals: seq<Arrival>)
    ensures Announced(Forward(tools, arrivals), Reliable(arrivals))
  {
    hide Announced, ForwardOne;
    if arrivals == [] {
      ListeningIsAnnounced();
    } else {
      var rest, last := arrivals[..|arrivals| - 1], arrivals[|arrivals| - 1];
      AlwaysAnnounced(tools, rest);
      ForwardOneAnnounces(tools, Forward(tools, rest), last, Reliable(rest));
      assert Reliable(arrivals) <==> Reliable(rest) && last.written;
    }
  }

  lemma ListeningIsAnnounced()
    ensures Announced(LISTENING, true)
  {
  }

  /** A failure is never silent: a client that stays on and has seen anything is told, last of all. */
  lemma FailureIsAnnounced(tools: set<string>, arrivals: seq<Arrival>, clean: bool, written: bool)
    requires !Delivered(tools, arrivals, clean, written).1
    ensures Announced(Delivered(tools, arrivals, clean, written).0, Reliable(arrivals) && written)
    ensures !Delivered(tools, arrivals, clean, written).0.open
  {
    hide Forward, Remainder;
    AlwaysAnnounced(tools, arrivals);
    var f := Forward(tools, arrivals);
    if f.open {
      AbortAnnounces(f, false);
      AbortAnnounces(f, true);
    }
  }

  lemma OnePart(p: Part)
    ensures PartText([p]) == if p.TextPart? then p.text else ""
  {
    assert [p][..0] == [];
    assert PartText([p]) == PartText([p][..0]) + if p.TextPart? then p.text else "";
  }

  // ---------------------------------------------------------------- success, read off the events

  /** The text of the progress events. */
  function Heard(arrivals: seq<Arrival>): string {
    if arrivals == [] then ""
    else
      var e := arrivals[|arrivals| - 1].event;
      Heard(arrivals[..|arrivals| - 1]) + if e.TextProgress? then e.text else ""
  }

  /** Every progress event passed on. */
  function Echo(arrivals: seq<Arrival>): seq<ClientEvent> {
    if arrivals == [] then []
    else
      var e := arrivals[|arrivals| - 1].event;
      Echo(arrivals[..|arrivals| - 1]) + if e.TextProgress? then [ClientProgress(e.text)] else []
  }

  /** Progress events only, all of one response, all passed on, and not too much text. */
  ghost predicate Steady(arrivals: seq<Arrival>, id: string) {
    && (forall i :: 0 <= i < |arrivals| ==> arrivals[i].written && arrivals[i].event.TextProgress? && arrivals[i].event.id == id && id != "")
    && ByteLength(Heard(arrivals)) <= MAX_RESPONSE_BYTES
  }

  /** The id of the response, as far as it is known. */
  function ResponseId(arrivals: seq<Arrival>): string {
    if arrivals != [] && arrivals[0].event.TextProgress? then arrivals[0].event.id else ""
  }

  lemma HeardSnoc(before: seq<Arrival>, a: Arrival)
    ensures Heard(before + [a]) == Heard(before) + if a.event.TextProgress? then a.event.text else ""
    ensures Echo(before + [a]) == Echo(before) + if a.event.TextProgress? then [ClientProgress(a.event.text)] else []
  {
    assert (before + [a])[..|before|] == before;
  }

  lemma SteadySnoc(before: seq<Arrival>, a: Arrival, id: string)
    ensures Steady(before + [a], id) <==>
            Steady(before, id) && a.written && a.event.TextProgress? && a.event.id == id && id != "" && ByteLength(Heard(before) + a.event.text) <= MAX_RESPONSE_BYTES
  {
    hide ByteLength, Heard;
    var all := before + [a];
    HeardSnoc(before, a);
    assert all[|before|] == a && forall i :: 0 <= i < |before| ==> all[i] == before[i];
    if a.event.TextProgress? { ByteLengthConcat(Heard(before), a.event.text); }
  }

  /** The gateway is still listening exactly while the stream is steady, and has then passed on all of it. */
  lemma {:induction false} ListensExactly(tools: set<string>, arrivals: seq<Arrival>)
    ensures var f := Forward(tools, arrivals);
            && (f.open && f.terminal.None? <==> Steady(arrivals, ResponseId(arrivals)))
            && (f.open && f.terminal.None? ==> f == Forwarder(true, Heard(arrivals), ResponseId(arrivals), None, Echo(arrivals)))
  {
    if arrivals == [] {
      assert ByteLength("") == 0;
    } else {
      hide ByteLength, Heard, Echo, Steady, ForwardOne, ResponseId;
      var rest, last := arrivals[..|arrivals| - 1], arrivals[|arrivals| - 1];
      assert arrivals == rest + [last];
      ListensExactly(tools, rest);
      NextListens(tools, rest, last, Forward(tools, rest));
    }
  }

  lemma NextListens(tools: set<string>, before: seq<Arrival>, a: Arrival, f: Forwarder)
    requires f.open && f.terminal.None? <==> Steady(before, ResponseId(before))
    requires f.open && f.terminal.None? ==> f == Forwarder(true, Heard(before), ResponseId(before), None, Echo(before))
    ensures var next, all := ForwardOne(tools, f, a), before + [a];
            && (next.open && next.terminal.None? <==> Steady(all, ResponseId(all)))
            && (next.open && next.terminal.None? ==> next == Forwarder(true, Heard(all), ResponseId(all), None, Echo(all)))
  {
    hide ByteLength, Heard, Echo, GoodParts, Validate;
    var all := before + [a];
    HeardSnoc(before, a);
    SteadySnoc(before, a, ResponseId(all));
    if before == [] {
      assert all[0] == a;
      NothingHeard();
    } else {
      assert all[0] == before[0];
    }
    if a.event.TextProgress? {
      ByteLengthConcat(Heard(before), a.event.text);
      assert Heard(before) + "" == Heard(before);
    }
  }

  lemma NothingHeard()
    ensures Heard([]) == "" && ByteLength("") == 0
  {
  }

  /**
   A stream is delivered if and only if it ends cleanly, is a steady stream of progress and then one terminal
   event of the same response with acceptable parts and usage that extend what was streamed, and the client
   takes all of it; and then the client has every progress text and the rest, and nothing else.
   */
  lemma DeliveredExactly(tools: set<string>, arrivals: seq<Arrival>, clean: bool, written: bool)
    ensures Delivered(tools, arrivals, clean, written).1 <==> Delivers(tools, arrivals, clean, written)
    ensures Delivers(tools, arrivals, clean, written) ==>
              var before, parts := arrivals[..|arrivals| - 1], arrivals[|arrivals| - 1].event.parts;
              Delivered(tools, arrivals, clean, written).0.sent
              == Echo(before) + [ClientTerminal(if Heard(before) == "" then parts else [TextPart(parts[0].text[|Heard(before)|..])])]
  {
    hide ByteLength, Heard, Echo, Steady, GoodParts, Validate, HasPrefix;
    ListensExactly(tools, arrivals);
    if arrivals != [] {
      var before := arrivals[..|arrivals| - 1];
      assert arrivals == before + [arrivals[|arrivals| - 1]];
      ListensExactly(tools, before);
      SteadyId(before, arrivals[|arrivals| - 1].event);
    }
  }

  ghost predicate Delivers(tools: set<string>, arrivals: seq<Arrival>, clean: bool, written: bool) {
    && clean && written && arrivals != [] && arrivals[|arrivals| - 1].event.Terminal?
    && var before, last := arrivals[..|arrivals| - 1], arrivals[|arrivals| - 1].event;
    && Steady(before, if before == [] then "" else last.id) && GoodParts(tools, last.parts) && Validate(last.usage).Some?
    && (Heard(before) == "" || (|last.parts| == 1 && last.parts[0].TextPart? && HasPrefix(last.parts[0].text, Heard(before))))
  }

  lemma SteadyId(before: seq<Arrival>, e: WireEvent)
    ensures e.Terminal? ==>
              (Steady(before, if before == [] then "" else e.id) <==> Steady(before, ResponseId(before)) && (ResponseId(before) == "" || e.id == ResponseId(before)))
  {
    hide ByteLength, Heard;
  }
}
