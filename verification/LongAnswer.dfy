/**
 An answer the gateway loses although it is well within the parser's limits: told letter by letter, its
 progress frames alone pass the gateway's size limit.
 */
module LongAnswer {
  import opened Text
  import opened ClientCall
  import opened GeminiUsage
  import opened CliProtocol
  import opened Bridge
  import opened Gateway
  import opened EndToEnd
  import Sse

  /** The encoding of geminiProgress, with its keys in order, for text that needs no escapes. */
  function ProgressJson(model: string, id: string, text: string): string {
    "{\"candidates\":[{\"content\":{\"parts\":[" + (if text == "" then "" else "{\"text\":\"" + text + "\"}")
    + "],\"role\":\"model\"},\"index\":0}],\"modelVersion\":\"" + model + "\",\"responseId\":\"" + id + "\"}"
  }

  function Letters(n: nat): string {
    if n == 0 then "" else Letters(n - 1) + "a"
  }

  lemma {:induction false} LettersBytes(n: nat)
    ensures |Letters(n)| == n && ByteLength(Letters(n)) == n
  {
    if n > 0 {
      LettersBytes(n - 1);
      assert Letters(n)[..n - 1] == Letters(n - 1) && Letters(n)[n - 1] == 'a';
    }
  }

  // ---------------------------------------------------------------- what the CLI says

  const LINE_BYTES: nat := 101

  function Spoken(model: string, n: nat): seq<Line> {
    if n == 0 then [Line(LINE_BYTES, Init(model, "strict"), true)]
    else Spoken(model, n - 1) + [Line(LINE_BYTES, StepUpdate("agent_response", "ACTIVE", "a", false), true)]
  }

  const NO_TOKENS := CliUsage(0, 0, 0, 0, 0)

  function Answer(model: string, n: nat): seq<Line> {
    Spoken(model, n) + [Line(n + 300, CliResult("SUCCESS", Letters(n), "", 1, Some(NO_TOKENS), n + 300), true)]
  }

  function Deltas(n: nat): seq<string> {
    if n == 0 then [""] else Deltas(n - 1) + ["a"]
  }

  lemma {:induction false} SpokenParses(model: string, n: nat)
    requires 102 * (n + 1) <= MAX_PROTOCOL_BYTES && n <= MAX_OUTPUT_BYTES
    ensures Parse(model, Spoken(model, n)) == Parser(true, 102 * (n + 1), Letters(n), Deltas(n), Reading)
  {
    hide ParseLine, ByteLength;
    if n == 0 {
      ParseSnoc(model, [], Line(LINE_BYTES, Init(model, "strict"), true));
      assert [] + Spoken(model, 0) == Spoken(model, 0);
      InitParses(model);
    } else {
      SpokenParses(model, n - 1);
      LettersBytes(n - 1);
      ParseSnoc(model, Spoken(model, n - 1), Line(LINE_BYTES, StepUpdate("agent_response", "ACTIVE", "a", false), true));
      LetterParses(model, 102 * n, Letters(n - 1), Deltas(n - 1));
    }
  }

  lemma ParseSnoc(model: string, lines: seq<Line>, line: Line)
    ensures Parse(model, lines + [line]) == ParseLine(model, Parse(model, lines), line)
  {
    hide ParseLine;
    assert (lines + [line])[..|lines|] == lines;
  }

  lemma InitParses(model: string)
    ensures ParseLine(model, START, Line(LINE_BYTES, Init(model, "strict"), true)) == Parser(true, 102, "", [""], Reading)
  {
  }

  lemma LetterParses(model: string, total: nat, text: string, updates: seq<string>)
    requires total + 102 <= MAX_PROTOCOL_BYTES && ByteLength(text) < MAX_OUTPUT_BYTES
    ensures ParseLine(model, Parser(true, total, text, updates, Reading), Line(LINE_BYTES, StepUpdate("agent_response", "ACTIVE", "a", false), true))
            == Parser(true, total + 102, text + "a", updates + ["a"], Reading)
  {
    hide ByteLength;
    OneByte();
  }

  lemma OneByte()
    ensures ByteLength("") == 0 && ByteLength("a") == 1
  {
    assert "a"[..0] == "";
    assert ByteLength("a"[..0]) == 0;
  }

  lemma AnswerParses(model: string, n: nat)
    requires 103 * n + 500 <= MAX_PROTOCOL_BYTES && n + 300 <= MAX_ENCODED_BYTES
    ensures Parse(model, Answer(model, n)).progress == Finished(Result(Letters(n), NO_TOKENS))
    ensures Parse(model, Answer(model, n)).updates == Deltas(n) && RepresentableLines(Answer(model, n))
  {
    hide ByteLength, Letters, Parse, Spoken, Deltas, Normalize;
    var result := Line(n + 300, CliResult("SUCCESS", Letters(n), "", 1, Some(NO_TOKENS), n + 300), true);
    SpokenParses(model, n);
    LettersBytes(n);
    ParseSnoc(model, Spoken(model, n), result);
    NoTokens();
    SpokenHasNoResult(model, n);
  }

  lemma NoTokens()
    ensures Normalize(NO_TOKENS) == Some(NO_TOKENS) && Representable(NO_TOKENS)
  {
  }

  lemma {:induction false} SpokenHasNoResult(model: string, n: nat)
    ensures forall l :: l in Spoken(model, n) ==> !l.event.CliResult?
  {
    if n > 0 { SpokenHasNoResult(model, n - 1); }
  }

  // ---------------------------------------------------------------- what the bridge sends

  function Told(n: nat): seq<Input> {
    if n == 0 then [Update("", true)] else Told(n - 1) + [Update("a", true)]
  }

  function Progress(id: string, n: nat): seq<WireEvent> {
    if n == 0 then [TextProgress(id, "")] else Progress(id, n - 1) + [TextProgress(id, "a")]
  }

  lemma LetterIsProse()
    ensures !PotentialClientCall("a")
  {
    assert TrimLeft("a") == "a";
    assert forall f :: 0 <= f < 4 ==> FENCES[f][0] == '`';
    assert !PotentialAfter("a", 3) && !PotentialAfter("a", 2) && !PotentialAfter("a", 1);
  }

  lemma {:induction false} ToldStreams(json: string -> Envelope, id: string, n: nat)
    ensures Serve(json, id, Told(n)) == Server(true, false, true, n > 0, "", Progress(id, n))
    ensures Running(Told(n)) && AllWritten(Told(n)) && Updates(Told(n)) == Deltas(n)
  {
    hide ByteLength, PotentialClientCall;
    OneByte();
    LetterIsProse();
    assert "" + "a" == "a";
    if n == 0 {
      ServeSnoc(json, id, [], Update("", true));
      assert [] + Told(0) == Told(0);
    } else {
      ToldStreams(json, id, n - 1);
      ServeSnoc(json, id, Told(n - 1), Update("a", true));
    }
  }

  lemma ServeSnoc(json: string -> Envelope, id: string, run: seq<Input>, input: Input)
    ensures Serve(json, id, run + [input]) == ServeOne(json, id, Serve(json, id, run), input)
    ensures Updates(run + [input]) == Updates(run) + if input.Update? then [input.text] else []
  {
    hide ServeOne;
    assert (run + [input])[..|run|] == run;
  }

  // ---------------------------------------------------------------- how long that is

  const FRAME_BYTES: nat := 145

  lemma {:induction false} FramesAtLeast(payloads: seq<string>, n: nat)
    requires n <= |payloads| && forall i :: 0 <= i < n ==> |payloads[i]| + 8 >= FRAME_BYTES
    ensures |Sse.FrameAll(payloads)| >= FRAME_BYTES * n
    decreases n
  {
    if n > 0 {
      FramesAtLeast(payloads[1..], n - 1);
    }
  }

  lemma {:induction false} ProgressEvents(id: string, n: nat)
    ensures |Progress(id, n)| == n + 1 && forall e :: e in Progress(id, n) ==> e == TextProgress(id, "") || e == TextProgress(id, "a")
  {
    if n > 0 { ProgressEvents(id, n - 1); }
  }

  /** The frame of a progress event is never short, whatever the model's name. */
  lemma ProgressIsLong(model: string, id: string, text: string)
    requires |id| == 37
    ensures |ProgressJson(model, id, text)| + 8 >= FRAME_BYTES
  {
  }

  /**
   Every answer of between 115705 and 162000 letters told one by one: the CLI's stream is accepted, the
   answer is deliverable, every event would be forwarded, and the client still gets no terminal object.
   */
  lemma ToldTooFinely(model: string, json: string -> Envelope, tools: set<string>, id: string, n: nat,
                      encode: WireEvent -> string, decode: string -> WireEvent)
    requires OnlyObjects(json) && ChecksCalls(json, tools) && |id| == 37 && Codec(encode, decode)
    requires encode(TextProgress(id, "")) == ProgressJson(model, id, "") && encode(TextProgress(id, "a")) == ProgressJson(model, id, "a")
    requires 115705 <= n <= 162000
    ensures var lines, result := Answer(model, n), Result(Letters(n), NO_TOKENS);
            var wire := Serve(json, id, Told(n) + [Done(Succeeded(result), true)]).wire;
            && Parse(model, lines).progress == Finished(result) && Relays(Told(n), Parse(model, lines))
            && Deliverable(DecodeClientFunctionCall(json, result.response), result.response)
            && Received(json, tools, id, Told(n), result).1
            && WireBytes(encode, json, id, Told(n), result) > Sse.MAX_RESPONSE_BYTES
            && !ReceivedAsText(encode, decode, tools, wire).1
            && NoTerminal(ReceivedAsText(encode, decode, tools, wire).0.sent)
  {
    hide ByteLength, Letters, Spoken, Told, Progress, Parse, Serve, DecodeClientFunctionCall, Delivered, ReceivedAsText, ProgressJson, Deltas, Received;
    var result := Result(Letters(n), NO_TOKENS);
    AnswerParses(model, n);
    ToldStreams(json, id, n);
    LettersAreProse(json, n);
    AnswerForwarded(model, Answer(model, n), json, tools, id, Told(n));
    TooLong(model, json, id, n, encode);
    AnswerArrives(model, Answer(model, n), json, tools, id, Told(n), encode, decode);
  }

  lemma LettersAreProse(json: string -> Envelope, n: nat)
    requires OnlyObjects(json) && n > 0
    ensures DecodeClientFunctionCall(json, Letters(n)) == NotACall && Letters(n) != ""
  {
    hide DecodeClientFunctionCall, PotentialClientCall;
    LettersBytes(n);
    StartsWithA(n);
    LetterIsProse();
    if DecodeClientFunctionCall(json, Letters(n)) != NotACall { WithheldWhilePossible(json, Letters(n), 1); }
  }

  lemma {:induction false} StartsWithA(n: nat)
    requires n > 0
    ensures |Letters(n)| == n && Letters(n)[..1] == "a"
  {
    LettersBytes(n);
    if n > 1 {
      StartsWithA(n - 1);
      assert Letters(n)[..1] == Letters(n - 1)[..1];
    }
  }

  lemma TooLong(model: string, json: string -> Envelope, id: string, n: nat, encode: WireEvent -> string)
    requires OnlyObjects(json) && |id| == 37 && n >= 115705
    requires encode(TextProgress(id, "")) == ProgressJson(model, id, "") && encode(TextProgress(id, "a")) == ProgressJson(model, id, "a")
    ensures WireBytes(encode, json, id, Told(n), Result(Letters(n), NO_TOKENS)) > Sse.MAX_RESPONSE_BYTES
  {
    hide ByteLength, Letters, Told, Progress, DecodeClientFunctionCall, ProgressJson, Sse.FrameAll, Serve, Complete;
    var result := Result(Letters(n), NO_TOKENS);
    ToldStreams(json, id, n);
    LettersAreProse(json, n);
    CompleteLast(json, id, Told(n), Succeeded(result));
    CompleteSucceeds(json, Serve(json, id, Told(n)), id, result);
    var wire := Serve(json, id, Told(n) + [Done(Succeeded(result), true)]).wire;
    assert Progress(id, n) <= wire;
    ProgressEvents(id, n);
    ProgressIsLong(model, id, "");
    ProgressIsLong(model, id, "a");
    var payloads := Payloads(encode, wire);
    forall i | 0 <= i < n + 1 ensures |payloads[i]| + 8 >= FRAME_BYTES {
      assert wire[i] == Progress(id, n)[i] && wire[i] in Progress(id, n);
    }
    FramesAtLeast(payloads, n + 1);
  }
}
