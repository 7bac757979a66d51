/**
 Recognising a client tool call in model text: decodeClientFunctionCall of
 internal/antigravity/server.go, and potentialClientCall of internal/antigravity/gemini_stream.go,
 which withholds text that might still become one.
 */
module ClientCall {
  import opened Text

  /** What JSON decoding makes of a candidate body. */
  datatype Envelope = NotACall | MalformedCall | ToolCall(name: string, arguments: string, id: string)

  /**
   The JSON decoder, abstracted to its verdict on each text. All that is needed of it: only text that
   opens an object can be a call, well formed or not.
   */
  ghost predicate OnlyObjects(json: string -> Envelope) {
    forall t :: json(t) != NotACall ==> t != "" && t[0] == '{'
  }

  /** strings.Split(s, "\n") */
  function Lines(s: string): (ls: seq<string>)
    ensures |ls| >= 1
    decreases |s|
  {
    var i := IndexOf(s, '\n');
    if i == |s| then [s] else [s[..i]] + Lines(s[i + 1..])
  }

  /** strings.Join(ls, "\n") */
  function Unlines(ls: seq<string>): string {
    if ls == [] then "" else if |ls| == 1 then ls[0] else ls[0] + "\n" + Unlines(ls[1..])
  }

  /** The text handed to the JSON decoder: trimmed, and taken out of a code fence if it is in one. */
  function CallBody(text: string): string {
    var trimmed := TrimSpace(text);
    var lines := Lines(trimmed);
    if HasPrefix(trimmed, "```") && |lines| >= 3 && (lines[0] == "```json" || lines[0] == "```")
       && TrimSpace(lines[|lines| - 1]) == "```"
    then TrimSpace(Unlines(lines[1..|lines| - 1]))
    else trimmed
  }

  function DecodeClientFunctionCall(json: string -> Envelope, text: string): Envelope {
    json(CallBody(text))
  }

  const FENCES := ["```json\n", "```json\r\n", "```\n", "```\r\n"]

  function PotentialAfter(text: string, fence: nat): bool
    requires fence <= 4
    decreases 4 - fence
  {
    if fence == 4 then false
    else if HasPrefix(FENCES[fence], text) then true
    else if HasPrefix(text, FENCES[fence]) then
      var body := TrimSpace(text[|FENCES[fence]|..]);
      body == "" || HasPrefix(body, "{")
    else PotentialAfter(text, fence + 1)
  }

  predicate PotentialClientCall(text: string) {
    var rest := TrimLeft(text);
    rest == "" || HasPrefix(rest, "{") || PotentialAfter(rest, 0)
  }

  // ---------------------------------------------------------------- trimming prefixes

  lemma {:induction false} LeadingSpace(s: string, n: nat)
    requires n <= |s| && forall i :: 0 <= i < n ==> IsSpace(s[i])
    requires n < |s| ==> !IsSpace(s[n])
    ensures TrimLeft(s) == s[n..]
  {
    if n > 0 {
      forall i | 0 <= i < n - 1 ensures IsSpace(s[1..][i]) { assert s[1..][i] == s[i + 1]; }
      LeadingSpace(s[1..], n - 1);
      assert s[1..][n - 1..] == s[n..];
    }
  }

  lemma TrimKeepsHead(s: string, n: nat)
    requires n < |s| && (forall i :: 0 <= i < n ==> IsSpace(s[i])) && !IsSpace(s[n])
    ensures TrimSpace(s) != "" && TrimSpace(s) <= s[n..] && TrimSpace(s)[0] == s[n]
  {
    LeadingSpace(s, n);
    var m := TrimRightSplits(s[n..]);
    assert s[n..][0] == s[n];
  }

  /** Trimming text that opens with a brace, or any prefix of it, leaves nothing or the brace in front. */
  lemma TrimmedPrefix(s: string, c: char, r: string)
    requires TrimSpace(s) != "" && TrimSpace(s)[0] == c && !IsSpace(c) && (r <= s || s <= r)
    ensures TrimSpace(r) == "" || TrimSpace(r)[0] == c
  {
    var n := TrimLeftSplits(s);
    if n < |s| {
      TrimKeepsHead(s, n);
      if |r| <= n {
        forall i | 0 <= i < |r| ensures IsSpace(r[i]) { assert r[i] == s[i]; }
        LeadingSpace(r, |r|);
      } else {
        assert r[n] == s[n];
        forall i | 0 <= i < n ensures IsSpace(r[i]) { assert r[i] == s[i]; }
        TrimKeepsHead(r, n);
      }
    }
  }

  lemma {:induction false} UnlinesOfLines(s: string)
    ensures Unlines(Lines(s)) == s
    decreases |s|
  {
    hide IndexOf;
    var i := IndexOf(s, '\n');
    if i < |s| {
      hide Unlines;
      var rest := Lines(s[i + 1..]);
      UnlinesOfLines(s[i + 1..]);
      UnlinesCons(s[..i], rest);
      SplitLine(s, i);
    }
  }

  lemma SplitLine(s: string, i: nat)
    requires i < |s| && s[i] == '\n'
    ensures s == s[..i] + "\n" + s[i + 1..]
  {
  }

  lemma UnlinesCons(line: string, rest: seq<string>)
    requires rest != []
    ensures Unlines([line] + rest) == line + "\n" + Unlines(rest)
  {
    assert ([line] + rest)[1..] == rest;
  }

  lemma {:induction false} UnlinesInit(ls: seq<string>)
    requires |ls| >= 2
    ensures Unlines(ls[..|ls| - 1]) <= Unlines(ls)
    decreases |ls|
  {
    if |ls| > 2 {
      UnlinesInit(ls[1..]);
      assert ls[..|ls| - 1][1..] == ls[1..][..|ls| - 2];
    }
  }

  lemma TrimSpaceInside(s: string) returns (k: nat)
    ensures k <= |s| && TrimSpace(s) <= s[k..] && (forall i :: 0 <= i < k ==> IsSpace(s[i]))
    ensures TrimSpace(s) != "" ==> k < |s| && !IsSpace(s[k])
  {
    k := TrimLeftSplits(s);
    var m := TrimRightSplits(TrimLeft(s));
  }

  // ---------------------------------------------------------------- which text is decoded

  predicate Blank(s: string) {
    forall i :: 0 <= i < |s| ==> IsSpace(s[i])
  }

  /** Text in a code fence: the opening line, any lines, and a last line that holds the closing mark. */
  predicate Fenced(text: string, open: string, inner: string, close: string) {
    (open == "```json" || open == "```") && text == open + "\n" + inner + "\n" + close && '\n' !in close && TrimSpace(close) == "```"
  }

  lemma LinesCons(line: string, rest: string)
    requires '\n' !in line
    ensures Lines(line + "\n" + rest) == [line] + Lines(rest)
  {
    var s := line + "\n" + rest;
    assert s == line + ("\n" + rest);
    IndexOfSplit(line, '\n', "\n" + rest);
    assert s[..|line|] == line && s[|line| + 1..] == rest;
  }

  lemma {:induction false} LinesSnoc(s: string, last: string)
    requires '\n' !in last
    ensures Lines(s + "\n" + last) == Lines(s) + [last]
    decreases |s|
  {
    hide Lines, IndexOf;
    var i := IndexOf(s, '\n');
    if i == |s| {
      LinesCons(s, last);
      OneLineText(s);
      OneLineText(last);
    } else {
      SplitLine(s, i);
      var line, rest := s[..i], s[i + 1..];
      LinesSnoc(rest, last);
      LinesCons(line, rest);
      LinesCons(line, rest + "\n" + last);
      BreaksJoin(line, rest, last);
      assert [line] + (Lines(rest) + [last]) == [line] + Lines(rest) + [last];
    }
  }

  lemma BreaksJoin(a: string, b: string, c: string)
    ensures a + "\n" + b + "\n" + c == a + "\n" + (b + "\n" + c)
  {
  }

  lemma OneLineText(s: string)
    requires '\n' !in s
    ensures Lines(s) == [s]
  {
    assert s + "" == s;
    IndexOfSplit(s, '\n', "");
  }

  /** Text in a fence is decoded without it. */
  lemma FencedBody(text: string, open: string, inner: string, close: string)
    requires Fenced(TrimSpace(text), open, inner, close)
    ensures CallBody(text) == TrimSpace(inner)
  {
    hide TrimSpace, Lines, Unlines;
    var trimmed := TrimSpace(text);
    assert trimmed == open + "\n" + (inner + "\n" + close);
    assert HasPrefix(trimmed, "```") by { assert trimmed[..3] == open[..3] == "```"; }
    LinesCons(open, inner + "\n" + close);
    LinesSnoc(inner, close);
    var lines := Lines(trimmed);
    assert lines == [open] + (Lines(inner) + [close]);
    assert lines[1..|lines| - 1] == Lines(inner);
    UnlinesOfLines(inner);
  }

  /** Any other text is decoded as it is, but for the space around it. */
  lemma BodyExactly(text: string) returns (open: string, inner: string, close: string)
    ensures CallBody(text) == TrimSpace(text) || (Fenced(TrimSpace(text), open, inner, close) && CallBody(text) == TrimSpace(inner))
  {
    hide TrimSpace, Lines, Unlines;
    var trimmed := TrimSpace(text);
    var lines := Lines(trimmed);
    open, inner, close := "", "", "";
    if CallBody(text) != trimmed {
      open, close := lines[0], lines[|lines| - 1];
      inner := Unlines(lines[1..|lines| - 1]);
      UnlinesOfLines(trimmed);
      LineHasNoBreak(trimmed, |lines| - 1);
      UnlinesSnoc(lines[1..|lines| - 1], close);
      assert lines[1..] == lines[1..|lines| - 1] + [close];
      UnlinesCons(open, lines[1..]);
      assert lines == [open] + lines[1..];
      BreaksJoin(open, inner, close);
    }
  }

  lemma {:induction false} UnlinesSnoc(ls: seq<string>, last: string)
    requires ls != []
    ensures Unlines(ls + [last]) == Unlines(ls) + "\n" + last
  {
    assert ls == [ls[0]] + ls[1..];
    if |ls| == 1 {
      UnlinesCons(ls[0], [last]);
      assert ls + [last] == [ls[0]] + [last];
    } else {
      hide Unlines;
      UnlinesSnoc(ls[1..], last);
      UnlinesCons(ls[0], ls[1..]);
      UnlinesCons(ls[0], ls[1..] + [last]);
      assert ls + [last] == [ls[0]] + (ls[1..] + [last]);
    }
  }

  lemma {:induction false} LineHasNoBreak(s: string, n: nat)
    requires n < |Lines(s)|
    ensures '\n' !in Lines(s)[n]
    decreases |s|
  {
    var i := IndexOf(s, '\n');
    if i < |s| && n > 0 {
      LineHasNoBreak(s[i + 1..], n - 1);
    }
  }

  // ---------------------------------------------------------------- space around text

  lemma {:induction false} BlankBefore(a: string, s: string)
    requires Blank(a)
    ensures TrimLeft(a + s) == TrimLeft(s)
  {
    if a == "" {
      assert a + s == s;
    } else {
      assert (a + s)[1..] == a[1..] + s && (a + s)[0] == a[0];
      assert forall i :: 0 <= i < |a[1..]| ==> a[1..][i] == a[i + 1];
      BlankBefore(a[1..], s);
    }
  }

  lemma {:induction false} BlankAfter(s: string, b: string)
    requires Blank(b)
    ensures TrimRight(s + b) == TrimRight(s)
  {
    if b == "" {
      assert s + b == s;
    } else {
      assert (s + b)[..|s + b| - 1] == s + b[..|b| - 1] && (s + b)[|s + b| - 1] == b[|b| - 1];
      BlankAfter(s, b[..|b| - 1]);
    }
  }

  lemma TrimAround(a: string, s: string, b: string)
    requires Blank(a) && Blank(b)
    ensures TrimSpace(a + s + b) == TrimSpace(s)
  {
    hide TrimLeft, TrimRight, IsSpace;
    assert a + s + b == a + (s + b);
    BlankBefore(a, s + b);
    var n := TrimLeftSplits(s);
    if n < |s| {
      assert forall i :: 0 <= i < n ==> (s + b)[i] == s[i];
      assert (s + b)[n] == s[n];
      LeadingSpace(s + b, n);
      assert (s + b)[n..] == s[n..] + b;
      BlankAfter(s[n..], b);
    } else {
      BlankBefore(s, b);
      assert b + "" == b && "" + b == b;
      BlankBefore(b, "");
      assert TrimLeft("") == "" by { LeadingSpace("", 0); }
    }
  }

  lemma TrimTight(s: string)
    requires s != "" && !IsSpace(s[0]) && !IsSpace(s[|s| - 1])
    ensures TrimSpace(s) == s
  {
  }

  /** A text as a model may write it: bare, or fenced with or without a language tag, with space around it. */
  predicate WrittenAs(text: string, body: string, a: string, b: string) {
    && Blank(a) && Blank(b)
    && (|| (text == a + body + b && !HasPrefix(body, "```"))
        || text == a + ("```json\n" + body + "\n```") + b
        || text == a + ("```\n" + body + "\n```") + b)
  }

  /** However it is written, it is the text itself that is decoded. */
  lemma WrittenIsDecoded(json: string -> Envelope, text: string, body: string, a: string, b: string)
    requires WrittenAs(text, body, a, b) && TrimSpace(body) == body && body != ""
    ensures DecodeClientFunctionCall(json, text) == json(body)
  {
    hide TrimSpace, IsSpace, Blank, CallBody;
    if text == a + body + b && !HasPrefix(body, "```") {
      TrimAround(a, body, b);
      BareBody(text);
    } else {
      var open := if text == a + ("```json\n" + body + "\n```") + b then "```json" else "```";
      var fenced := open + "\n" + body + "\n" + "```";
      assert text == a + fenced + b;
      TrimAround(a, fenced, b);
      TickIsNoSpace();
      assert fenced[0] == '`' && fenced[|fenced| - 1] == '`';
      TrimTight(fenced);
      TrimTight("```");
      FencedBody(text, open, body, "```");
    }
  }

  lemma BareBody(text: string)
    requires !HasPrefix(TrimSpace(text), "```")
    ensures CallBody(text) == TrimSpace(text)
  {
  }

  lemma TickIsNoSpace()
    ensures !IsSpace('`')
  {
  }

  // ---------------------------------------------------------------- nothing callable is let through

  lemma FencedPrefix(q: string, fence: nat, middle: string, rest: string)
    requires fence == 0 || fence == 2
    requires q != "" && q <= FENCES[fence] + rest && middle <= rest
    requires TrimSpace(middle) != "" && TrimSpace(middle)[0] == '{'
    ensures PotentialAfter(q, 0)
  {
    var f := FENCES[fence];
    if |q| <= |f| {
      assert q <= f by { assert (f + rest)[..|q|] == f[..|q|]; }
      ShortFence(q, fence);
    } else {
      var r := q[|f|..];
      assert f <= q && r <= rest by {
        assert (f + rest)[..|f|] == f;
        assert (f + rest)[|f|..|q|] == rest[..|r|];
      }
      TrimmedPrefix(middle, '{', r);
      LongFence(q, fence);
    }
  }

  lemma ShortFence(q: string, fence: nat)
    requires (fence == 0 || fence == 2) && q != "" && q <= FENCES[fence]
    ensures PotentialAfter(q, 0)
  {
    if fence == 2 && |q| == 4 {
      assert q == "```\n";
      assert q[3] == '\n';
      assert !HasPrefix(FENCES[0], q) && !HasPrefix(q, FENCES[0]) && !HasPrefix(FENCES[1], q) && !HasPrefix(q, FENCES[1]);
      assert PotentialAfter(q, 2);
      assert PotentialAfter(q, 1) == PotentialAfter(q, 2);
    } else if fence == 2 {
      assert FENCES[0][..3] == FENCES[2][..3];
      assert q == FENCES[0][..|q|];
    }
  }

  lemma LongFence(q: string, fence: nat)
    requires (fence == 0 || fence == 2) && FENCES[fence] <= q && |q| > |FENCES[fence]|
    requires var body := TrimSpace(q[|FENCES[fence]|..]); body == "" || HasPrefix(body, "{")
    ensures PotentialAfter(q, 0)
  {
    if fence == 2 {
      assert q[3] == '\n';
      assert !HasPrefix(FENCES[0], q) && !HasPrefix(q, FENCES[0]) && !HasPrefix(FENCES[1], q) && !HasPrefix(q, FENCES[1]);
      assert PotentialAfter(q, 1) == PotentialAfter(q, 2);
    }
  }

  /** The trimmed text either opens with a brace or is a fence around text that does. */
  lemma CallOpening(text: string) returns (fence: nat, middle: string, rest: string)
    requires CallBody(text) != "" && CallBody(text)[0] == '{'
    ensures TrimSpace(text) != ""
    ensures TrimSpace(text)[0] == '{'
            || ((fence == 0 || fence == 2) && TrimSpace(text) == FENCES[fence] + rest && middle <= rest
                && TrimSpace(middle) != "" && TrimSpace(middle)[0] == '{')
  {
    var trimmed := TrimSpace(text);
    fence, middle, rest := 0, "", "";
    if CallBody(text) != trimmed {
      var lines := Lines(trimmed);
      UnlinesOfLines(trimmed);
      fence := if lines[0] == "```json" then 0 else 2;
      middle, rest := Unlines(lines[1..|lines| - 1]), Unlines(lines[1..]);
      assert lines[1..][..|lines| - 2] == lines[1..|lines| - 1];
      UnlinesInit(lines[1..]);
      assert trimmed == lines[0] + "\n" + rest;
      assert FENCES[fence] == lines[0] + "\n";
    }
  }

  predicate OpensObject(body: string) {
    body != "" && body[0] == '{'
  }

  /** Every prefix of a text whose body opens an object is withheld. */
  lemma WithheldOpening(text: string, n: nat)
    requires OpensObject(CallBody(text)) && n <= |text|
    ensures PotentialClientCall(text[..n])
  {
    hide TrimSpace, CallBody, PotentialAfter, IsSpace, TrimLeft;
    var fence, middle, rest := CallOpening(text);
    var k := TrimSpaceInside(text);
    var p := text[..n];
    if n <= k {
      LeadingSpace(p, n);
    } else {
      LeadingSpace(p, k);
      var q := p[k..];
      var trimmed := TrimSpace(text);
      assert q[0] == text[k] && trimmed[0] == text[k..][0];
      if trimmed[0] != '{' {
        var tail := text[k..][|trimmed|..];
        assert text[k..] == trimmed + tail;
        assert text[k..] == FENCES[fence] + (rest + tail);
        assert q <= text[k..];
        FencedPrefix(q, fence, middle, rest + tail);
      }
    }
  }

  /**
   Every prefix of a text that decodes as a tool call, well formed or not, is withheld; so however the
   text is cut into deltas, none of it is streamed as prose.
   */
  lemma WithheldWhilePossible(json: string -> Envelope, text: string, n: nat)
    requires OnlyObjects(json) && DecodeClientFunctionCall(json, text) != NotACall && n <= |text|
    ensures PotentialClientCall(text[..n])
  {
    hide CallBody, PotentialClientCall;
    WithheldOpening(text, n);
  }

  // ---------------------------------------------------------------- nothing else is held back, but for one spelling

  /** Some continuation makes it text whose body opens an object. */
  ghost predicate MayOpen(text: string) {
    exists more :: OpensObject(CallBody(text + more))
  }

  predicate BodyAfter(rest: string, fence: string) {
    HasPrefix(rest, fence) && var body := TrimSpace(rest[|fence|..]); body == "" || OpensObject(body)
  }

  /** A fence whose opening line ends in a carriage return, and all that is withheld after it. */
  predicate ReturnFence(text: string) {
    var rest := TrimLeft(text);
    rest == "```json\r" || rest == "```\r" || BodyAfter(rest, "```json\r\n") || BodyAfter(rest, "```\r\n")
  }

  /** The two spellings of the fence a call may come in. */
  predicate PlainFence(rest: string) {
    HasPrefix("```json\n", rest) || HasPrefix("```\n", rest) || BodyAfter(rest, "```json\n") || BodyAfter(rest, "```\n")
  }

  lemma FenceStep(rest: string, fence: nat)
    requires fence < 4
    ensures PotentialAfter(rest, fence) <==>
            HasPrefix(FENCES[fence], rest) || BodyAfter(rest, FENCES[fence]) || (!HasPrefix(rest, FENCES[fence]) && PotentialAfter(rest, fence + 1))
  {
    hide TrimSpace;
  }

  /** Text that has one of the fences has none of the others. */
  lemma FencesApart(rest: string, i: nat, j: nat)
    requires i < 4 && j < 4 && i != j && HasPrefix(rest, FENCES[i])
    ensures !HasPrefix(rest, FENCES[j]) && !HasPrefix(FENCES[j], rest)
  {
    assert FENCES[0] == "```json\n" && FENCES[1] == "```json\r\n" && FENCES[2] == "```\n" && FENCES[3] == "```\r\n";
    assert rest[3] == FENCES[i][3];
    assert i < 2 ==> rest[7] == FENCES[i][7];
  }

  /** A beginning of a fence with a carriage return is one of a plain fence, ends in the return, or is the whole fence. */
  lemma FenceBeginning(rest: string)
    ensures HasPrefix(FENCES[1], rest) ==> HasPrefix(FENCES[0], rest) || rest == "```json\r" || rest == FENCES[1]
    ensures HasPrefix(FENCES[3], rest) ==> HasPrefix(FENCES[2], rest) || rest == "```\r" || rest == FENCES[3]
    ensures HasPrefix(FENCES[1], "```json\r") && HasPrefix(FENCES[3], "```\r")
  {
    assert FENCES[0] == "```json\n" && FENCES[1] == "```json\r\n" && FENCES[2] == "```\n" && FENCES[3] == "```\r\n";
    assert FENCES[1][..8] == "```json\r" && FENCES[3][..4] == "```\r" && FENCES[1][..7] == FENCES[0][..7] && FENCES[3][..3] == FENCES[2][..3];
    if HasPrefix(FENCES[1], rest) && |rest| <= 7 { assert rest == FENCES[0][..|rest|]; }
    if HasPrefix(FENCES[3], rest) && |rest| <= 3 { assert rest == FENCES[2][..|rest|]; }
  }

  lemma AfterFences(rest: string)
    ensures PotentialAfter(rest, 0) <==>
            PlainFence(rest) || rest == "```json\r" || rest == "```\r" || BodyAfter(rest, "```json\r\n") || BodyAfter(rest, "```\r\n")
  {
    hide TrimSpace, PotentialAfter, HasPrefix;
    FenceStep(rest, 0);
    FenceStep(rest, 1);
    FenceStep(rest, 2);
    FenceStep(rest, 3);
    assert !PotentialAfter(rest, 4) by { NoFenceLeft(rest); }
    FenceBeginning(rest);
    EmptyBody(rest);
    forall i, j | 0 <= i < 4 && 0 <= j < 4 && i != j && HasPrefix(rest, FENCES[i]) ensures !HasPrefix(rest, FENCES[j]) && !HasPrefix(FENCES[j], rest) {
      FencesApart(rest, i, j);
    }
    assert FENCES[0] == "```json\n" && FENCES[1] == "```json\r\n" && FENCES[2] == "```\n" && FENCES[3] == "```\r\n";
  }

  lemma NoFenceLeft(rest: string)
    ensures !PotentialAfter(rest, 4)
  {
  }

  lemma EmptyBody(rest: string)
    ensures forall i :: 0 <= i < 4 && rest == FENCES[i] ==> BodyAfter(rest, FENCES[i])
  {
    assert TrimSpace("") == "";
    forall i | 0 <= i < 4 && rest == FENCES[i] ensures BodyAfter(rest, FENCES[i]) {
      assert rest[|rest|..] == "";
    }
  }

  /** What a plain fence can become. */
  lemma PlainFenceOpens(text: string)
    requires TrimLeft(text) != "" && PlainFence(TrimLeft(text))
    ensures MayOpen(text)
  {
    hide TrimSpace, TrimLeft, CallBody;
    var rest := TrimLeft(text);
    NothingTrims();
    if HasPrefix("```json\n", rest) {
      CompletesTo(text, "```json\n"[|rest|..], "```json", "");
    } else if HasPrefix("```\n", rest) {
      CompletesTo(text, "```\n"[|rest|..], "```", "");
    } else if BodyAfter(rest, "```json\n") {
      CompletesTo(text, "", "```json", rest[8..]);
    } else {
      CompletesTo(text, "", "```", rest[4..]);
    }
  }

  lemma NothingTrims()
    ensures TrimSpace("") == ""
  {
  }

  lemma CompletesTo(text: string, missing: string, open: string, inner: string)
    requires TrimLeft(text) != "" && TrimLeft(text) + missing == open + "\n" + inner && (open == "```json" || open == "```")
    requires TrimSpace(inner) == "" || OpensObject(TrimSpace(inner))
    ensures MayOpen(text)
  {
    hide TrimSpace, TrimLeft, CallBody, IsSpace;
    var brace := if TrimSpace(inner) == "" then "{" else "";
    var full, more := inner + brace, missing + brace + "\n" + "```";
    assert inner + "" == inner;
    FullOpens(inner);
    var fenced := open + "\n" + full + "\n" + "```";
    var n := TrimLeftSplits(text);
    assert text + more == text[..n] + fenced + "" by {
      assert text == text[..n] + text[n..];
      assert TrimLeft(text) + more == TrimLeft(text) + missing + brace + "\n" + "```";
      assert TrimLeft(text) + more == fenced;
    }
    TrimAround(text[..n], fenced, "");
    TickIsNoSpace();
    assert fenced[0] == '`' && fenced[|fenced| - 1] == '`';
    TrimTight(fenced);
    TrimTight("```");
    FencedBody(text + more, open, full, "```");
  }

  lemma FullOpens(inner: string)
    requires TrimSpace(inner) == "" || OpensObject(TrimSpace(inner))
    ensures OpensObject(TrimSpace(if TrimSpace(inner) == "" then inner + "{" else inner))
  {
    if TrimSpace(inner) == "" {
      var n := TrimLeftSplits(inner);
      if n < |inner| { TrimKeepsHead(inner, n); }
      assert (inner + "{")[|inner|] == '{';
      assert forall i :: 0 <= i < |inner| ==> (inner + "{")[i] == inner[i];
      TrimKeepsHead(inner + "{", |inner|);
    }
  }

  /** Text after a fence with a carriage return is never taken out of it. */
  lemma ReturnNeverOpens(text: string, more: string)
    requires ReturnFence(text)
    ensures !OpensObject(CallBody(text + more))
  {
    hide TrimSpace, CallBody, IsSpace, TrimLeft;
    var rest := TrimLeft(text);
    var n := TrimLeftSplits(text);
    assert rest[0] == '`' && rest[..3] == "```" && (rest[3] == '\r' || (rest[3] == 'j' && |rest| > 7 && rest[7] == '\r'));
    assert forall i :: 0 <= i < n ==> (text + more)[i] == text[i];
    assert (text + more)[n] == text[n];
    TrimKeepsHead(text + more, n);
    var trimmed := TrimSpace(text + more);
    assert forall i :: 0 <= i < |trimmed| && i < |rest| ==> trimmed[i] == rest[i];
    var open, inner, close := BodyExactly(text + more);
    FencedHead(trimmed, open, inner, close);
  }

  lemma FencedHead(text: string, open: string, inner: string, close: string)
    ensures Fenced(text, open, inner, close) ==> |text| > |open| && text[|open|] == '\n' && (|open| == 3 || (|open| == 7 && text[3] == 'j'))
  {
    hide TrimSpace;
    if Fenced(text, open, inner, close) && open == "```json" { assert text[3] == open[3]; }
  }

  /**
   Text is withheld exactly while it may still become a call, with one exception: a fence whose opening line
   ends in a carriage return is held to the end, and can never become one.
   */
  lemma WithheldExactly(text: string)
    ensures PotentialClientCall(text) <==> MayOpen(text) || ReturnFence(text)
    ensures ReturnFence(text) ==> !MayOpen(text)
  {
    hide TrimSpace, CallBody, IsSpace, TrimLeft, PotentialAfter, PlainFence, BodyAfter;
    var rest := TrimLeft(text);
    AfterFences(rest);
    if rest == "" || HasPrefix(rest, "{") {
      BareOpens(text);
    } else if PlainFence(rest) {
      PlainFenceOpens(text);
    }
    if MayOpen(text) {
      var more :| OpensObject(CallBody(text + more));
      WithheldOpening(text + more, |text|);
      assert (text + more)[..|text|] == text;
    }
    if ReturnFence(text) {
      forall more ensures !OpensObject(CallBody(text + more)) { ReturnNeverOpens(text, more); }
    }
  }

  lemma BareOpens(text: string)
    requires TrimLeft(text) == "" || HasPrefix(TrimLeft(text), "{")
    ensures MayOpen(text)
  {
    hide TrimSpace, TrimLeft, CallBody;
    var n := TrimLeftSplits(text);
    var more := if n == |text| then "{" else "";
    var s := text + more;
    assert forall i :: 0 <= i < n ==> s[i] == text[i];
    assert s[n] == '{';
    TrimKeepsHead(s, n);
    BareBody(s);
    assert OpensObject(CallBody(text + more));
  }
}
