/**
 Server-sent events between bridge and gateway: the framing of internal/antigravity/gemini_stream.go
 and the reader readGeminiEvents of internal/proxy/gemini_stream.go, over the text on the wire.
 */
module Sse {
  import opened Text
  import opened ClientCall

  const MAX_RESPONSE_BYTES: nat := 16 * 1024 * 1024

  function DropCarriageReturn(line: string): string {
    if line != "" && line[|line| - 1] == '\r' then line[..|line| - 1] else line
  }

  /** bufio.ScanLines: terminated lines, then whatever is left unless it is empty. */
  function ScanLines(wire: string): seq<string>
    decreases |wire|
  {
    var i := IndexOf(wire, '\n');
    if wire == "" then []
    else if i == |wire| then [DropCarriageReturn(wire)]
    else [DropCarriageReturn(wire[..i])] + ScanLines(wire[i + 1..])
  }

  /** events are the payloads dispatched so far; data is the event being assembled. */
  datatype Reader = Reader(data: string, pending: bool, events: seq<string>, failed: bool)

  const START := Reader("", false, [], false)

  function StripField(line: string): string
    requires HasPrefix(line, "data:")
  {
    var value := line[5..];
    if HasPrefix(value, " ") then value[1..] else value
  }

  function ReadLine(r: Reader, line: string): Reader {
    if r.failed then r
    else if line == "" then (if r.pending then Reader("", false, r.events + [r.data], false) else r)
    else if HasPrefix(line, ":") then r
    else if !HasPrefix(line, "data:") then r.(failed := true)
    else r.(data := (if r.pending then r.data + "\n" else r.data) + StripField(line), pending := true)
  }

  function ReadLines(r: Reader, lines: seq<string>): Reader
    decreases |lines|
  {
    if lines == [] then r else ReadLines(ReadLine(r, lines[0]), lines[1..])
  }

  /** The payloads dispatched, and whether the stream ended cleanly within the size limit. */
  function ReadEvents(wire: string): (seq<string>, bool) {
    var r := ReadLines(START, ScanLines(wire));
    (r.events, !r.failed && !r.pending && ByteLength(wire) <= MAX_RESPONSE_BYTES)
  }

  method ReadGeminiEvents(wire: string) returns (events: seq<string>, ok: bool)
    ensures (events, ok) == ReadEvents(wire)
  {
    hide ScanLines, ByteLength, StripField;
    var lines := ScanLines(wire);
    var data, pending := "", false;
    events := [];
    for index := 0 to |lines|
      invariant ReadLines(START, lines) == ReadLines(Reader(data, pending, events, false), lines[index..])
    {
      var line := lines[index];
      assert lines[index..][0] == line && lines[index..][1..] == lines[index + 1..];
      if line == "" {
        if pending {
          events := events + [data];
          data, pending := "", false;
        }
      } else if HasPrefix(line, ":") {
      } else if !HasPrefix(line, "data:") {
        FailedStays(Reader(data, pending, events, true), lines[index + 1..]);
        return events, false;
      } else {
        if pending {
          data := data + "\n";
        }
        data := data + StripField(line);
        pending := true;
      }
    }
    ok := !pending && ByteLength(wire) <= MAX_RESPONSE_BYTES;
  }

  lemma {:induction false} FailedStays(r: Reader, lines: seq<string>)
    requires r.failed
    ensures ReadLines(r, lines) == r
  {
    if lines != [] { FailedStays(r, lines[1..]); }
  }

  // ---------------------------------------------------------------- framing

  function Frame(payload: string): string {
    "data: " + payload + "\n\n"
  }

  function FrameAll(payloads: seq<string>): string {
    if payloads == [] then "" else Frame(payloads[0]) + FrameAll(payloads[1..])
  }

  /** Encoded JSON holds no line break. */
  predicate OneLine(payload: string) {
    '\n' !in payload && '\r' !in payload
  }

  lemma ScanTerminated(line: string, rest: string)
    requires OneLine(line)
    ensures ScanLines(line + "\n" + rest) == [line] + ScanLines(rest)
  {
    hide IndexOf;
    var s := line + "\n" + rest;
    IndexOfSplit(line, '\n', "\n" + rest);
    assert s == line + ("\n" + rest);
    assert s[..|line|] == line && s[|line| + 1..] == rest;
    if line != "" { assert line[|line| - 1] in line; }
  }

  lemma ScanFrame(payload: string, rest: string)
    requires OneLine(payload)
    ensures ScanLines(Frame(payload) + rest) == ["data: " + payload, ""] + ScanLines(rest)
  {
    hide ScanLines;
    var line := "data: " + payload;
    assert OneLine(line);
    assert Frame(payload) + rest == line + "\n" + ("" + "\n" + rest);
    ScanTerminated(line, "" + "\n" + rest);
    ScanTerminated("", rest);
    assert [line] + ([""] + ScanLines(rest)) == [line, ""] + ScanLines(rest);
  }

  lemma DataLine(r: Reader, payload: string)
    requires !r.failed && !r.pending && r.data == ""
    ensures ReadLine(r, "data: " + payload) == Reader(payload, true, r.events, false)
  {
    var line := "data: " + payload;
    assert line[..5] == "data:" && line[0] == 'd' && line[5..] == " " + payload;
    assert (" " + payload)[..1] == " " && (" " + payload)[1..] == payload;
    assert "" + payload == payload;
  }

  lemma ReadFrame(r: Reader, payload: string, lines: seq<string>)
    requires !r.failed && !r.pending && r.data == ""
    ensures ReadLines(r, ["data: " + payload, ""] + lines) == ReadLines(r.(events := r.events + [payload]), lines)
  {
    DataLine(r, payload);
    var all := ["data: " + payload, ""] + lines;
    var mid := Reader(payload, true, r.events, false);
    assert all[1..][1..] == lines && all[1..][0] == "";
    assert ReadLines(r, all) == ReadLines(mid, all[1..]);
    assert ReadLines(mid, all[1..]) == ReadLines(ReadLine(mid, ""), lines);
  }

  lemma {:induction false} ReadFrames(r: Reader, payloads: seq<string>)
    requires !r.failed && !r.pending && r.data == ""
    requires forall p :: p in payloads ==> OneLine(p)
    ensures ReadLines(r, ScanLines(FrameAll(payloads))) == r.(events := r.events + payloads)
    decreases |payloads|
  {
    hide ScanLines;
    if payloads == [] {
      ScanNothing();
      assert r.events + payloads == r.events;
    } else {
      var p, rest := payloads[0], payloads[1..];
      ScanFrame(p, FrameAll(rest));
      ReadFrame(r, p, ScanLines(FrameAll(rest)));
      ReadFrames(r.(events := r.events + [p]), rest);
      assert (r.events + [p]) + rest == r.events + payloads;
    }
  }

  lemma ScanNothing()
    ensures ScanLines("") == []
  {
  }

  /** What the bridge frames, the gateway reads back: the same payloads, cleanly ended. */
  lemma FramesRoundTrip(payloads: seq<string>)
    requires forall p :: p in payloads ==> OneLine(p)
    requires ByteLength(FrameAll(payloads)) <= MAX_RESPONSE_BYTES
    ensures ReadEvents(FrameAll(payloads)) == (payloads, true)
  {
    hide ScanLines, ByteLength, FrameAll;
    ReadFrames(START, payloads);
    assert START.events + payloads == payloads;
  }

  /** A stream cut before the blank line of its last frame does not end cleanly. */
  lemma TruncatedFrameFails(payloads: seq<string>, payload: string)
    requires OneLine(payload) && forall p :: p in payloads ==> OneLine(p)
    ensures !ReadEvents(FrameAll(payloads) + "data: " + payload).1
    ensures ReadEvents(FrameAll(payloads) + "data: " + payload).0 == payloads
  {
    hide ByteLength, ScanLines, FrameAll;
    assert FrameAll(payloads) + "data: " + payload == FrameAll(payloads) + ("data: " + payload);
    ReadFramesThen(START, payloads, payload);
    assert START.events + payloads == payloads;
  }

  lemma {:induction false} ReadFramesThen(r: Reader, payloads: seq<string>, payload: string)
    requires !r.failed && !r.pending && r.data == ""
    requires OneLine(payload) && forall p :: p in payloads ==> OneLine(p)
    ensures ReadLines(r, ScanLines(FrameAll(payloads) + ("data: " + payload))) == Reader(payload, true, r.events + payloads, false)
    decreases |payloads|
  {
    hide ScanLines;
    var line := "data: " + payload;
    if payloads == [] {
      assert FrameAll(payloads) + line == line;
      ScanUnterminated(line);
      DataLine(r, payload);
      assert ReadLines(r, [line]) == ReadLines(ReadLine(r, line), [line][1..]);
      assert r.events + payloads == r.events;
    } else {
      hide ReadLine;
      var p, rest := payloads[0], payloads[1..];
      assert FrameAll(payloads) + line == Frame(p) + (FrameAll(rest) + line);
      hide Frame;
      ScanFrame(p, FrameAll(rest) + line);
      ReadFrame(r, p, ScanLines(FrameAll(rest) + line));
      ReadFramesThen(r.(events := r.events + [p]), rest, payload);
      assert (r.events + [p]) + rest == r.events + payloads;
    }
  }

  lemma ScanUnterminated(line: string)
    requires OneLine(line) && line != ""
    ensures ScanLines(line) == [line]
  {
    assert IndexOf(line, '\n') == |line| by { assert forall i :: 0 <= i < |line| ==> line[i] in line; }
    assert line[|line| - 1] in line;
  }

  // ---------------------------------------------------------------- what else the reader takes

  function DataLines(lines: seq<string>): (ls: seq<string>)
    ensures |ls| == |lines| && forall i :: 0 <= i < |lines| ==> ls[i] == "data: " + lines[i]
  {
    seq(|lines|, i requires 0 <= i < |lines| => "data: " + lines[i])
  }

  lemma {:induction false} ReadLinesConcat(r: Reader, a: seq<string>, b: seq<string>)
    ensures ReadLines(r, a + b) == ReadLines(ReadLines(r, a), b)
    decreases |a|
  {
    hide ReadLine;
    if a == [] {
      assert a + b == b;
    } else {
      assert (a + b)[0] == a[0] && (a + b)[1..] == a[1..] + b;
      ReadLinesConcat(ReadLine(r, a[0]), a[1..], b);
    }
  }

  /** Several data lines make one event of as many lines, whatever events came before. */
  lemma {:induction false} BlockIsJoined(events: seq<string>, lines: seq<string>)
    requires lines != []
    ensures ReadLines(Reader("", false, events, false), DataLines(lines) + [""]) == Reader("", false, events + [Unlines(lines)], false)
  {
    hide ReadLines, Unlines;
    DataAssembled(events, lines);
    ReadLinesConcat(Reader("", false, events, false), DataLines(lines), [""]);
    OneLineRead(Reader(Unlines(lines), true, events, false), "");
  }

  lemma FurtherLine(r: Reader, text: string)
    requires !r.failed && r.pending
    ensures ReadLine(r, "data: " + text) == Reader(r.data + "\n" + text, true, r.events, false)
  {
    var line := "data: " + text;
    assert line[..5] == "data:" && line[0] == 'd' && line[5..] == " " + text;
    assert (" " + text)[..1] == " " && (" " + text)[1..] == text;
  }

  lemma OneLineRead(r: Reader, line: string)
    ensures ReadLines(r, [line]) == ReadLine(r, line)
  {
    assert [line][1..] == [];
  }

  lemma {:induction false} DataAssembled(events: seq<string>, lines: seq<string>)
    requires lines != []
    ensures ReadLines(Reader("", false, events, false), DataLines(lines)) == Reader(Unlines(lines), true, events, false)
  {
    hide ReadLines, ReadLine;
    var start, last := Reader("", false, events, false), lines[|lines| - 1];
    if |lines| == 1 {
      DataLine(start, last);
      OneLineRead(start, "data: " + last);
      assert DataLines(lines) == ["data: " + last];
      assert "" + last == last;
    } else {
      hide Unlines;
      var rest := lines[..|lines| - 1];
      DataAssembled(events, rest);
      ReadLinesConcat(start, DataLines(rest), ["data: " + last]);
      assert DataLines(lines) == DataLines(rest) + ["data: " + last];
      OneLineRead(Reader(Unlines(rest), true, events, false), "data: " + last);
      FurtherLine(Reader(Unlines(rest), true, events, false), last);
      UnlinesSnoc(rest, last);
      assert lines == rest + [last];
    }
  }

  /** Comments are passed over, and a line may end in a carriage return and a line feed. */
  lemma CommentIsSkipped(r: Reader, comment: string)
    ensures ReadLine(r, ":" + comment) == r
  {
    assert (":" + comment)[0] == ':';
  }

  lemma ReturnIsDropped(line: string, rest: string)
    requires OneLine(line)
    ensures ScanLines(line + "\r\n" + rest) == ScanLines(line + "\n" + rest)
  {
    hide IndexOf;
    ScanTerminated(line, rest);
    var s := line + "\r\n" + rest;
    assert s == (line + "\r") + ("\n" + rest);
    IndexOfSplit(line + "\r", '\n', "\n" + rest);
    assert s[..|line| + 1] == line + "\r" && s[|line| + 2..] == rest;
    assert (line + "\r")[..|line|] == line;
  }

  /** Any other field spoils the stream, whatever comes before and after it. */
  lemma ForeignFieldFails(r: Reader, before: seq<string>, line: string, after: seq<string>)
    requires line != "" && !HasPrefix(line, ":") && !HasPrefix(line, "data:")
    ensures ReadLines(r, before + [line] + after).failed
  {
    hide ReadLines;
    ReadLinesConcat(r, before + [line], after);
    ReadLinesConcat(r, before, [line]);
    OneLineRead(ReadLines(r, before), line);
    FailedStays(ReadLine(ReadLines(r, before), line), after);
  }
}
