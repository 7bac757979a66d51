/**
 The tool-call history check of internal/antigravity/gemini.go. A request's contents are accepted only
 if its function responses pair off with earlier calls; the theorem is that they are accepted exactly
 when such a pairing exists.
 */
module GeminiContents {
  import opened Text

  // ---------------------------------------------------------------- one part

  datatype TextField = NoText | Text | BadText
  datatype IdField = NoId | BadId | Id(value: string)
  datatype SignatureField = NoSignature | Signature | BadSignature

  /** A functionCall or functionResponse value; payload is args or response. */
  datatype RawFunction = RawFunction(isObject: bool, knownKeys: bool, name: Option<string>, payloadIsObject: bool, id: IdField)

  datatype RawPart = RawPart(text: TextField, call: Option<RawFunction>, response: Option<RawFunction>, knownKeys: bool, signature: SignatureField)

  /** parts is empty when the field is missing, malformed or an empty list. */
  datatype RawContent = RawContent(role: Option<string>, knownKeys: bool, parts: seq<RawPart>)

  /** What a part means for the pairing. */
  datatype Event = Prose | Call(name: string, id: Option<string>) | Response(name: string, id: Option<string>)

  predicate NameStart(c: char) {
    'a' <= c <= 'z' || 'A' <= c <= 'Z' || c == '_'
  }

  predicate ValidToolName(name: string) {
    && 0 < ByteLength(name) <= 64
    && forall i :: 0 <= i < |name| ==>
         NameStart(name[i]) || (i > 0 && ('0' <= name[i] <= '9' || name[i] == '.' || name[i] == ':' || name[i] == '-'))
  }

  predicate ValidCallId(id: string) {
    && 0 < ByteLength(id) <= 256 && TrimSpace(id) == id
    && forall i :: 0 <= i < |id| ==> id[i] >= ' ' && id[i] != '\U{7F}'
  }

  function Kinds(p: RawPart): nat {
    (if p.text.NoText? then 0 else 1) + (if p.call.None? then 0 else 1) + (if p.response.None? then 0 else 1)
  }

  function ReadFunction(f: RawFunction): Option<(string, Option<string>)> {
    if !f.isObject || !f.knownKeys || f.name.None? || !ValidToolName(f.name.value) || !f.payloadIsObject then None
    else match f.id
      case NoId => Some((f.name.value, None))
      case BadId => None
      case Id(value) => if ValidCallId(value) then Some((f.name.value, Some(value))) else None
  }

  function ReadPart(role: string, p: RawPart): Option<Event> {
    if Kinds(p) != 1 || !p.knownKeys then None
    else if p.signature.BadSignature? || (p.signature.Signature? && (role != "model" || p.call.None?)) then None
    else if !p.text.NoText? then (if p.text.Text? then Some(Prose) else None)
    else if p.call.Some? then
      var f := ReadFunction(p.call.value);
      if f.None? || role != "model" then None else Some(Call(f.value.0, f.value.1))
    else
      var f := ReadFunction(p.response.value);
      if f.None? then None else Some(Response(f.value.0, f.value.1))
  }

  /** A function value that names this tool and carries this id, or none. */
  predicate Denotes(f: RawFunction, name: string, id: Option<string>) {
    && f.isObject && f.knownKeys && f.payloadIsObject && f.name == Some(name) && ValidToolName(name)
    && (if id.Some? then f.id == Id(id.value) && ValidCallId(id.value) else f.id == NoId)
  }

  /** What makes a part the given event: one kind of content, in a role that may have it, signed only if it is a call. */
  lemma PartMeans(role: string, p: RawPart, e: Event)
    ensures ReadPart(role, p) == Some(e) <==>
            && p.knownKeys
            && match e
               case Prose => p.text == Text && p.call.None? && p.response.None? && p.signature == NoSignature
               case Call(name, id) => p.text == NoText && p.call.Some? && p.response.None? && !p.signature.BadSignature? && role == "model" && Denotes(p.call.value, name, id)
               case Response(name, id) => p.text == NoText && p.call.None? && p.response.Some? && p.signature == NoSignature && Denotes(p.response.value, name, id)
  {
    hide ValidToolName, ValidCallId;
  }

  predicate ValidRole(c: RawContent) {
    c.role.Some? && (c.role.value == "user" || c.role.value == "model") && c.knownKeys && |c.parts| > 0
  }

  // ---------------------------------------------------------------- pairing state

  datatype Pending = Pending(ids: map<string, string>, used: set<string>, names: map<string, nat>)

  const NONE_PENDING := Pending(map[], {}, map[])

  function Waiting(s: Pending, name: string): nat {
    if name in s.names then s.names[name] else 0
  }

  function Step(s: Pending, e: Event): Option<Pending> {
    match e
    case Prose => Some(s)
    case Call(name, Some(id)) =>
      if id in s.used then None else Some(s.(used := s.used + {id}, ids := s.ids[id := name]))
    case Call(name, None) => Some(s.(names := s.names[name := Waiting(s, name) + 1]))
    case Response(name, Some(id)) =>
      if id !in s.ids || s.ids[id] != name then None else Some(s.(ids := s.ids - {id}))
    case Response(name, None) =>
      if Waiting(s, name) == 0 then None else Some(s.(names := s.names[name := Waiting(s, name) - 1]))
  }

  function Run(es: seq<Event>): Option<Pending> {
    if es == [] then Some(NONE_PENDING)
    else
      var s := Run(es[..|es| - 1]);
      if s.None? then None else Step(s.value, es[|es| - 1])
  }

  ghost predicate Settled(s: Pending) {
    s.ids == map[] && forall n :: n in s.names ==> s.names[n] == 0
  }

  ghost predicate Accepted(es: seq<Event>) {
    Run(es).Some? && Settled(Run(es).value)
  }

  // ---------------------------------------------------------------- the reference: a pairing

  predicate IsCall(es: seq<Event>, i: int) {
    0 <= i < |es| && es[i].Call?
  }

  predicate IsResponse(es: seq<Event>, i: int) {
    0 <= i < |es| && es[i].Response?
  }

  predicate Matches(response: Event, call: Event) {
    response.Response? && call.Call? && response.name == call.name && response.id == call.id
  }

  /** Every response answers its own earlier call, with the same name and the same id or none. */
  ghost predicate Answers(es: seq<Event>, f: map<int, int>) {
    && (forall i :: i in f <==> IsResponse(es, i))
    && (forall i :: i in f ==> 0 <= f[i] < i && Matches(es[i], es[f[i]]))
    && (forall i, j :: i in f && j in f && f[i] == f[j] ==> i == j)
  }

  /** And no call is left unanswered. */
  ghost predicate Pairs(es: seq<Event>, f: map<int, int>) {
    Answers(es, f) && forall c :: IsCall(es, c) ==> c in f.Values
  }

  ghost predicate UniqueIds(es: seq<Event>) {
    forall i, j :: IsCall(es, i) && IsCall(es, j) && es[i].id.Some? && es[i].id == es[j].id ==> i == j
  }

  // ---------------------------------------------------------------- accepted histories have a pairing

  ghost predicate HasCallId(es: seq<Event>, id: string) {
    exists c :: IsCall(es, c) && es[c].id == Some(id)
  }

  /** Call c is not answered by f. */
  ghost predicate Open(es: seq<Event>, f: map<int, int>, c: int) {
    IsCall(es, c) && c !in f.Values
  }

  ghost predicate OpenId(es: seq<Event>, f: map<int, int>, id: string, name: string) {
    exists c :: Open(es, f, c) && es[c] == Call(name, Some(id))
  }

  ghost function OpenNamed(es: seq<Event>, f: map<int, int>, name: string): set<int> {
    set c | 0 <= c < |es| && es[c] == Call(name, None) && c !in f.Values
  }

  /** The pending ids are those of the open calls, the pending counts those of the open unnumbered calls. */
  ghost predicate TracksIds(es: seq<Event>, f: map<int, int>, s: Pending) {
    && (forall id :: id in s.used <==> HasCallId(es, id))
    && (forall c :: Open(es, f, c) && es[c].id.Some? ==> es[c].id.value in s.ids && s.ids[es[c].id.value] == es[c].name)
    && (forall id :: id in s.ids ==> OpenId(es, f, id, s.ids[id]))
  }

  ghost predicate TracksNames(es: seq<Event>, f: map<int, int>, s: Pending) {
    forall name :: Waiting(s, name) == |OpenNamed(es, f, name)|
  }

  ghost predicate Tracks(es: seq<Event>, f: map<int, int>, s: Pending) {
    Answers(es, f) && UniqueIds(es) && TracksIds(es, f, s) && TracksNames(es, f, s)
  }

  lemma {:induction false} RunAnswers(es: seq<Event>) returns (f: map<int, int>)
    requires Run(es).Some?
    ensures Tracks(es, f, Run(es).value)
  {
    if es == [] {
      f := map[];
    } else {
      hide Tracks, Step;
      var rest, e := es[..|es| - 1], es[|es| - 1];
      assert es == rest + [e];
      var g := RunAnswers(rest);
      var s := Run(rest).value;
      if e.Response? {
        var c := Candidate(rest, g, s, e);
        f := g[|rest| := c];
        ResponseTracks(rest, g, s, e, c);
      } else {
        f := g;
        CallTracks(rest, g, s, e);
      }
    }
  }

  lemma Candidate(rest: seq<Event>, g: map<int, int>, s: Pending, e: Event) returns (c: int)
    requires Tracks(rest, g, s) && e.Response? && Step(s, e).Some?
    ensures Open(rest, g, c) && Matches(e, rest[c])
  {
    if e.id.Some? {
      assert OpenId(rest, g, e.id.value, s.ids[e.id.value]);
      c :| Open(rest, g, c) && rest[c] == Call(s.ids[e.id.value], e.id);
    } else {
      assert |OpenNamed(rest, g, e.name)| > 0;
      c := Pick(OpenNamed(rest, g, e.name));
    }
  }

  lemma SameEvents(rest: seq<Event>, e: Event)
    ensures forall i :: 0 <= i < |rest| ==> (rest + [e])[i] == rest[i]
    ensures (rest + [e])[|rest|] == e
    ensures forall i :: IsCall(rest + [e], i) <==> IsCall(rest, i) || (i == |rest| && e.Call?)
    ensures forall i :: IsResponse(rest + [e], i) <==> IsResponse(rest, i) || (i == |rest| && e.Response?)
  {
  }

  lemma UsedAfter(rest: seq<Event>, s: Pending, e: Event)
    requires forall id :: id in s.used <==> HasCallId(rest, id)
    requires Step(s, e).Some?
    ensures forall id :: id in Step(s, e).value.used <==> HasCallId(rest + [e], id)
  {
    SameEvents(rest, e);
    forall id ensures id in Step(s, e).value.used <==> HasCallId(rest + [e], id) {
      if id in s.used {
        var c :| IsCall(rest, c) && rest[c].id == Some(id);
        assert IsCall(rest + [e], c) && (rest + [e])[c].id == Some(id);
      }
      if e.Call? && e.id == Some(id) { assert IsCall(rest + [e], |rest|); }
    }
  }

  /** Prose and calls leave the answers as they are. */
  lemma CallTracks(rest: seq<Event>, g: map<int, int>, s: Pending, e: Event)
    requires Tracks(rest, g, s) && !e.Response? && Step(s, e).Some?
    ensures Tracks(rest + [e], g, Step(s, e).value)
  {
    UsedAfter(rest, s, e);
    CallTracksAnswers(rest, g, s, e);
    CallTracksIds(rest, g, s, e);
    CallTracksNames(rest, g, s, e);
  }

  lemma CallTracksAnswers(rest: seq<Event>, g: map<int, int>, s: Pending, e: Event)
    requires Tracks(rest, g, s) && !e.Response? && Step(s, e).Some?
    ensures Answers(rest + [e], g) && UniqueIds(rest + [e])
  {
    hide TracksNames;
    SameEvents(rest, e);
    var es := rest + [e];
    forall i | IsCall(rest, i) && e.Call? && e.id.Some? ensures rest[i].id != e.id {
      assert rest[i].id.Some? ==> HasCallId(rest, rest[i].id.value);
    }
  }

  lemma ValuesBounded(rest: seq<Event>, g: map<int, int>)
    requires Answers(rest, g)
    ensures forall v :: v in g.Values ==> v < |rest|
  {
    forall v | v in g.Values ensures v < |rest| {
      var i := KeyOf(g, v);
      assert IsResponse(rest, i);
    }
  }

  lemma CallTracksIds(rest: seq<Event>, g: map<int, int>, s: Pending, e: Event)
    requires Tracks(rest, g, s) && !e.Response? && Step(s, e).Some?
    requires forall id :: id in Step(s, e).value.used <==> HasCallId(rest + [e], id)
    ensures TracksIds(rest + [e], g, Step(s, e).value)
  {
    hide TracksNames, UniqueIds;
    SameEvents(rest, e);
    var es, t := rest + [e], Step(s, e).value;
    ValuesBounded(rest, g);
    assert forall c :: Open(es, g, c) <==> Open(rest, g, c) || (c == |rest| && e.Call?);
    forall id | id in t.ids ensures OpenId(es, g, id, t.ids[id]) {
      if e.Call? && e.id == Some(id) {
        assert Open(es, g, |rest|);
      } else {
        var c :| Open(rest, g, c) && rest[c] == Call(s.ids[id], Some(id));
        assert Open(es, g, c);
      }
    }
    forall c | Open(es, g, c) && es[c].id.Some? ensures es[c].id.value in t.ids && t.ids[es[c].id.value] == es[c].name {
      if c < |rest| && e.Call? && e.id.Some? {
        assert HasCallId(rest, es[c].id.value);
      }
    }
  }

  lemma WaitingAfter(s: Pending, e: Event, name: string)
    requires Step(s, e).Some?
    ensures Waiting(Step(s, e).value, name)
            == Waiting(s, name) + (if e == Call(name, None) then 1 else if e == Response(name, None) then -1 else 0)
  {
  }

  lemma OpenAfterCall(rest: seq<Event>, g: map<int, int>, e: Event, name: string)
    requires forall v :: v in g.Values ==> v < |rest|
    ensures |OpenNamed(rest + [e], g, name)| == |OpenNamed(rest, g, name)| + if e == Call(name, None) then 1 else 0
  {
    if e == Call(name, None) {
      assert OpenNamed(rest + [e], g, name) == OpenNamed(rest, g, name) + {|rest|};
    } else {
      assert OpenNamed(rest + [e], g, name) == OpenNamed(rest, g, name);
    }
  }

  lemma OpenAfterResponse(rest: seq<Event>, g: map<int, int>, f: map<int, int>, e: Event, k: int, name: string)
    requires f.Values == g.Values + {k} && e.Response? && Open(rest, g, k) && Matches(e, rest[k])
    ensures |OpenNamed(rest + [e], f, name)| == |OpenNamed(rest, g, name)| - if e == Response(name, None) then 1 else 0
  {
    if e == Response(name, None) {
      assert k in OpenNamed(rest, g, name);
      assert OpenNamed(rest + [e], f, name) == OpenNamed(rest, g, name) - {k};
    } else {
      assert OpenNamed(rest + [e], f, name) == OpenNamed(rest, g, name);
    }
  }

  lemma CallTracksNames(rest: seq<Event>, g: map<int, int>, s: Pending, e: Event)
    requires Tracks(rest, g, s) && !e.Response? && Step(s, e).Some?
    ensures TracksNames(rest + [e], g, Step(s, e).value)
  {
    hide TracksIds, UniqueIds, Answers, OpenNamed, Step, Waiting;
    ValuesBounded(rest, g);
    forall name ensures Waiting(Step(s, e).value, name) == |OpenNamed(rest + [e], g, name)| {
      WaitingAfter(s, e, name);
      OpenAfterCall(rest, g, e, name);
    }
  }

  /** A response closes the call it is paired with. */
  lemma ResponseTracks(rest: seq<Event>, g: map<int, int>, s: Pending, e: Event, k: int)
    requires Tracks(rest, g, s) && e.Response? && Step(s, e).Some? && Open(rest, g, k) && Matches(e, rest[k])
    ensures Tracks(rest + [e], g[|rest| := k], Step(s, e).value)
  {
    UsedAfter(rest, s, e);
    ValuesAfter(rest, g, e, k);
    ResponseTracksAnswers(rest, g, s, e, k);
    ResponseTracksIds(rest, g, s, e, k);
    ResponseTracksNames(rest, g, s, e, k);
  }

  lemma ValuesAfter(rest: seq<Event>, g: map<int, int>, e: Event, k: int)
    requires Answers(rest, g)
    ensures |rest| !in g && g[|rest| := k].Values == g.Values + {k}
  {
    var f := g[|rest| := k];
    assert |rest| !in g by { assert !IsResponse(rest, |rest|); }
    forall v | v in g.Values ensures v in f.Values {
      var i := KeyOf(g, v);
      assert i in f && f[i] == v;
    }
    assert |rest| in f && f[|rest|] == k;
  }

  lemma ResponseTracksAnswers(rest: seq<Event>, g: map<int, int>, s: Pending, e: Event, k: int)
    requires Answers(rest, g) && UniqueIds(rest) && e.Response? && Open(rest, g, k) && Matches(e, rest[k])
    ensures Answers(rest + [e], g[|rest| := k]) && UniqueIds(rest + [e])
  {
    SameEvents(rest, e);
    var es, f := rest + [e], g[|rest| := k];
    forall i | i in f ensures 0 <= f[i] < i && Matches(es[i], es[f[i]]) {
    }
    forall i, j | i in f && j in f && f[i] == f[j] ensures i == j {
      if i in g { assert g[i] in g.Values; }
      if j in g { assert g[j] in g.Values; }
    }
  }

  lemma ResponseTracksIds(rest: seq<Event>, g: map<int, int>, s: Pending, e: Event, k: int)
    requires Tracks(rest, g, s) && e.Response? && Step(s, e).Some? && Open(rest, g, k) && Matches(e, rest[k])
    requires g[|rest| := k].Values == g.Values + {k}
    requires forall id :: id in Step(s, e).value.used <==> HasCallId(rest + [e], id)
    ensures TracksIds(rest + [e], g[|rest| := k], Step(s, e).value)
  {
    hide TracksNames, Answers;
    SameEvents(rest, e);
    var es, f, t := rest + [e], g[|rest| := k], Step(s, e).value;
    assert forall c :: Open(es, f, c) <==> Open(rest, g, c) && c != k;
    forall id | id in t.ids ensures OpenId(es, f, id, t.ids[id]) {
      var c :| Open(rest, g, c) && rest[c] == Call(s.ids[id], Some(id));
      assert Open(es, f, c);
    }
    forall c | Open(es, f, c) && es[c].id.Some? ensures es[c].id.value in t.ids && t.ids[es[c].id.value] == es[c].name {
      assert IsCall(rest, c) && IsCall(rest, k);
    }
  }

  lemma ResponseTracksNames(rest: seq<Event>, g: map<int, int>, s: Pending, e: Event, k: int)
    requires Tracks(rest, g, s) && e.Response? && Step(s, e).Some? && Open(rest, g, k) && Matches(e, rest[k])
    requires g[|rest| := k].Values == g.Values + {k}
    ensures TracksNames(rest + [e], g[|rest| := k], Step(s, e).value)
  {
    hide TracksIds, UniqueIds, Answers, OpenNamed, Step, Waiting;
    forall name ensures Waiting(Step(s, e).value, name) == |OpenNamed(rest + [e], g[|rest| := k], name)| {
      WaitingAfter(s, e, name);
      OpenAfterResponse(rest, g, g[|rest| := k], e, k, name);
    }
  }

  lemma AcceptedPairs(es: seq<Event>) returns (f: map<int, int>)
    requires Accepted(es)
    ensures UniqueIds(es) && Pairs(es, f)
  {
    f := RunAnswers(es);
    var s := Run(es).value;
    assert forall name :: Waiting(s, name) == 0 && OpenNamed(es, f, name) == {};
    forall c | IsCall(es, c) ensures c in f.Values {
      assert !(Open(es, f, c) && es[c].id.Some?);
      assert c !in OpenNamed(es, f, es[c].name);
    }
  }

  // ---------------------------------------------------------------- paired histories are accepted

  ghost function Positions(es: seq<Event>, e: Event): set<int> {
    set i | 0 <= i < |es| && es[i] == e
  }

  ghost function CallsNamed(es: seq<Event>, name: string): set<int> {
    Positions(es, Call(name, None))
  }

  ghost function ResponsesNamed(es: seq<Event>, name: string): set<int> {
    Positions(es, Response(name, None))
  }

  ghost predicate Answered(es: seq<Event>, id: string) {
    exists i :: IsResponse(es, i) && es[i].id == Some(id)
  }

  /** The pending state read off the events alone. */
  ghost predicate CountsIds(es: seq<Event>, s: Pending) {
    && (forall id :: id in s.used <==> HasCallId(es, id))
    && (forall id :: Answered(es, id) ==> HasCallId(es, id))
    && (forall id :: id in s.ids <==> HasCallId(es, id) && !Answered(es, id))
    && (forall c :: IsCall(es, c) && es[c].id.Some? && es[c].id.value in s.ids ==> s.ids[es[c].id.value] == es[c].name)
  }

  ghost predicate CountsNames(es: seq<Event>, s: Pending) {
    forall name :: Waiting(s, name) == |CallsNamed(es, name)| - |ResponsesNamed(es, name)|
  }

  lemma {:induction false} ImageNoSmaller(xs: set<int>, ys: set<int>, f: map<int, int>)
    requires forall x :: x in xs ==> x in f && f[x] in ys
    requires forall i, j :: i in f && j in f && f[i] == f[j] ==> i == j
    ensures |xs| <= |ys|
  {
    if xs != {} {
      var x := Pick(xs);
      ImageNoSmaller(xs - {x}, ys - {f[x]}, f);
    }
  }

  lemma {:induction false} PairedRuns(es: seq<Event>, f: map<int, int>, n: nat)
    requires UniqueIds(es) && Answers(es, f) && n <= |es|
    ensures Run(es[..n]).Some? && CountsIds(es[..n], Run(es[..n]).value) && CountsNames(es[..n], Run(es[..n]).value)
  {
    if n > 0 {
      hide CountsIds, CountsNames, Answers, UniqueIds, Step;
      var rest, e := es[..n - 1], es[n - 1];
      PairedRuns(es, f, n - 1);
      assert es[..n][..n - 1] == rest && es[..n] == rest + [e];
      var s := Run(rest).value;
      PairedStepSucceeds(es, f, n - 1, s);
      StepCountsIds(rest, e, s);
      StepCountsNames(rest, e, s);
    } else {
      assert es[..n] == [];
    }
  }

  lemma PairedStepSucceeds(es: seq<Event>, f: map<int, int>, n: nat, s: Pending)
    requires UniqueIds(es) && Answers(es, f) && n < |es| && CountsIds(es[..n], s) && CountsNames(es[..n], s)
    ensures Step(s, es[n]).Some?
  {
    var rest, e := es[..n], es[n];
    match e {
      case Prose =>
      case Call(name, Some(id)) =>
        forall c | IsCall(rest, c) ensures rest[c].id != Some(id) {
          assert IsCall(es, c) && IsCall(es, n);
        }
      case Call(name, None) =>
      case Response(name, Some(id)) => NumberedIsPending(es, f, n, s);
      case Response(name, None) =>
        hide CountsIds, UniqueIds;
        var rs, cs := ResponsesNamed(rest, name) + {n}, CallsNamed(rest, name);
        forall x | x in rs ensures x in f && f[x] in cs {
          assert IsResponse(es, x);
        }
        ImageNoSmaller(rs, cs, f);
    }
  }

  lemma NumberedIsPending(es: seq<Event>, f: map<int, int>, n: nat, s: Pending)
    requires UniqueIds(es) && Answers(es, f) && n < |es| && CountsIds(es[..n], s)
    requires es[n].Response? && es[n].id.Some?
    ensures es[n].id.value in s.ids && s.ids[es[n].id.value] == es[n].name
  {
    var rest, id := es[..n], es[n].id.value;
    assert IsResponse(es, n);
    assert IsCall(rest, f[n]) && rest[f[n]].id == Some(id);
    forall j | IsResponse(rest, j) ensures rest[j].id != Some(id) {
      assert IsResponse(es, j);
      assert IsCall(es, f[j]) && IsCall(es, f[n]);
    }
  }

  lemma PositionsAfter(rest: seq<Event>, e: Event, x: Event)
    ensures |Positions(rest + [e], x)| == |Positions(rest, x)| + if e == x then 1 else 0
  {
    if e == x {
      assert Positions(rest + [e], x) == Positions(rest, x) + {|rest|};
    } else {
      assert Positions(rest + [e], x) == Positions(rest, x);
    }
  }

  lemma StepCountsNames(rest: seq<Event>, e: Event, s: Pending)
    requires CountsNames(rest, s) && Step(s, e).Some?
    ensures CountsNames(rest + [e], Step(s, e).value)
  {
    hide Waiting, Step, Positions;
    var es, t := rest + [e], Step(s, e).value;
    forall name ensures Waiting(t, name) == |CallsNamed(es, name)| - |ResponsesNamed(es, name)| {
      WaitingAfter(s, e, name);
      PositionsAfter(rest, e, Call(name, None));
      PositionsAfter(rest, e, Response(name, None));
    }
  }

  lemma StepCountsIds(rest: seq<Event>, e: Event, s: Pending)
    requires CountsIds(rest, s) && Step(s, e).Some?
    ensures CountsIds(rest + [e], Step(s, e).value)
  {
    SameEvents(rest, e);
    UsedAfter(rest, s, e);
    var es, t := rest + [e], Step(s, e).value;
    forall id ensures Answered(es, id) <==> Answered(rest, id) || (e.Response? && e.id == Some(id)) {
      if Answered(rest, id) {
        var i :| IsResponse(rest, i) && rest[i].id == Some(id);
        assert IsResponse(es, i) && es[i].id == Some(id);
      }
      if e.Response? && e.id == Some(id) { assert IsResponse(es, |rest|); }
    }
    forall c | IsCall(es, c) && es[c].id.Some? && es[c].id.value in t.ids ensures t.ids[es[c].id.value] == es[c].name {
      if c < |rest| { assert HasCallId(rest, es[c].id.value); }
    }
  }

  lemma PairedIsAccepted(es: seq<Event>, f: map<int, int>)
    requires UniqueIds(es) && Pairs(es, f)
    ensures Accepted(es)
  {
    PairedRuns(es, f, |es|);
    assert es[..|es|] == es;
    var s := Run(es).value;
    assert s.ids.Keys == {} by {
      forall id | HasCallId(es, id) ensures Answered(es, id) {
        var c :| IsCall(es, c) && es[c].id == Some(id);
        var i := KeyOf(f, c);
        assert IsResponse(es, i) && es[i].id == Some(id);
      }
    }
    var g := Inverse(es, f);
    forall name | name in s.names ensures s.names[name] == 0 {
      var cs, rs := CallsNamed(es, name), ResponsesNamed(es, name);
      forall c | c in cs ensures c in g && g[c] in rs {
        assert IsCall(es, c);
      }
      ImageNoSmaller(cs, rs, g);
      assert Waiting(s, name) == |cs| - |rs|;
    }
  }

  lemma Inverse(es: seq<Event>, f: map<int, int>) returns (g: map<int, int>)
    requires Pairs(es, f)
    ensures forall c :: IsCall(es, c) ==> c in g && g[c] in f && f[g[c]] == c && Matches(es[g[c]], es[c])
    ensures forall i, j :: i in g && j in g && g[i] == g[j] ==> i == j
  {
    g := map c | c in f.Values :: KeyOf(f, c);
  }

  /** The accepted histories are exactly those with unique call ids and a perfect pairing. */
  lemma AcceptedExactly(es: seq<Event>)
    ensures Accepted(es) <==> UniqueIds(es) && exists f :: Pairs(es, f)
  {
    if Accepted(es) {
      var f := AcceptedPairs(es);
    }
    if UniqueIds(es) && exists f :: Pairs(es, f) {
      var f :| Pairs(es, f);
      PairedIsAccepted(es, f);
    }
  }

  // ---------------------------------------------------------------- decodeGeminiContents

  /** The events of one content, or None if a part is invalid. */
  function ReadParts(role: string, parts: seq<RawPart>): Option<seq<Event>> {
    if parts == [] then Some([])
    else
      var before, e := ReadParts(role, parts[..|parts| - 1]), ReadPart(role, parts[|parts| - 1]);
      if before.None? || e.None? then None else Some(before.value + [e.value])
  }

  function ReadContents(contents: seq<RawContent>): Option<seq<Event>> {
    if contents == [] then Some([])
    else
      var before, c := ReadContents(contents[..|contents| - 1]), contents[|contents| - 1];
      if before.None? || !ValidRole(c) then None
      else
        var es := ReadParts(c.role.value, c.parts);
        if es.None? then None else Some(before.value + es.value)
  }

  lemma {:induction false} RunConcat(a: seq<Event>, b: seq<Event>)
    ensures Run(a).None? ==> Run(a + b).None?
  {
    if b == [] {
      assert a + b == a;
    } else {
      assert (a + b)[..|a + b| - 1] == a + b[..|b| - 1];
      RunConcat(a, b[..|b| - 1]);
    }
  }

  lemma {:induction false} BadPartSpoils(role: string, parts: seq<RawPart>, n: nat)
    requires n <= |parts|
    ensures ReadParts(role, parts[..n]).None? ==> ReadParts(role, parts).None?
    ensures ReadParts(role, parts).Some? && ReadParts(role, parts[..n]).Some? ==>
              ReadParts(role, parts[..n]).value <= ReadParts(role, parts).value
    decreases |parts|
  {
    if n == |parts| {
      assert parts[..n] == parts;
    } else {
      assert parts[..|parts| - 1][..n] == parts[..n];
      BadPartSpoils(role, parts[..|parts| - 1], n);
    }
  }

  lemma {:induction false} BadContentSpoils(contents: seq<RawContent>, n: nat)
    requires n <= |contents|
    ensures ReadContents(contents[..n]).None? ==> ReadContents(contents).None?
    ensures ReadContents(contents).Some? && ReadContents(contents[..n]).Some? ==>
              ReadContents(contents[..n]).value <= ReadContents(contents).value
    decreases |contents|
  {
    if n == |contents| {
      assert contents[..n] == contents;
    } else {
      assert contents[..|contents| - 1][..n] == contents[..n];
      BadContentSpoils(contents[..|contents| - 1], n);
    }
  }

  /** A history whose prefix already fails to pair can never be accepted. */
  lemma FailedPrefix(es: seq<Event>, prefix: seq<Event>)
    requires prefix <= es && Run(prefix).None?
    ensures Run(es).None?
  {
    assert es == prefix + es[|prefix|..];
    RunConcat(prefix, es[|prefix|..]);
  }

  /** What a request's contents must be to be accepted. */
  ghost predicate Acceptable(contents: seq<RawContent>) {
    contents != [] && ReadContents(contents).Some? && Accepted(ReadContents(contents).value)
  }

  lemma ContentPrefix(contents: seq<RawContent>, n: nat, m: nat)
    requires n < |contents| && ReadContents(contents[..n]).Some? && ValidRole(contents[n]) && m <= |contents[n].parts|
    ensures var c := contents[n];
            && (ReadParts(c.role.value, c.parts[..m]).None? ==> ReadContents(contents).None?)
            && (ReadParts(c.role.value, c.parts[..m]).Some? && ReadContents(contents).Some? ==>
                  ReadContents(contents[..n]).value + ReadParts(c.role.value, c.parts[..m]).value <= ReadContents(contents).value)
  {
    hide ReadPart;
    var c := contents[n];
    BadPartSpoils(c.role.value, c.parts, m);
    BadContentSpoils(contents, n + 1);
    assert contents[..n + 1][..n] == contents[..n];
  }

  method DecodeParts(contents: seq<RawContent>, n: nat, before: Pending) returns (r: Option<Pending>)
    requires n < |contents| && ReadContents(contents[..n]).Some? && ValidRole(contents[n])
    requires Run(ReadContents(contents[..n]).value) == Some(before)
    ensures r.Some? ==> ReadContents(contents[..n + 1]).Some? && Run(ReadContents(contents[..n + 1]).value) == r
    ensures r.None? ==> !Acceptable(contents)
  {
    hide ReadPart, Run, Step, ReadContents;
    var role, parts := contents[n].role.value, contents[n].parts;
    var s := before;
    ghost var earlier := ReadContents(contents[..n]).value;
    assert earlier + [] == earlier;
    for index := 0 to |parts|
      invariant ReadParts(role, parts[..index]).Some?
      invariant Run(earlier + ReadParts(role, parts[..index]).value) == Some(s)
    {
      assert parts[..index + 1][..index] == parts[..index];
      ContentPrefix(contents, n, index + 1);
      ghost var es := earlier + ReadParts(role, parts[..index]).value;
      var e := ReadPart(role, parts[index]);
      if e.None? {
        return None;
      }
      assert earlier + ReadParts(role, parts[..index + 1]).value == es + [e.value];
      RunSnoc(es, e.value, s);
      var next := Step(s, e.value);
      if next.None? {
        if ReadContents(contents).Some? { FailedPrefix(ReadContents(contents).value, es + [e.value]); }
        return None;
      }
      s := next.value;
    }
    assert parts[..|parts|] == parts;
    ContentStep(contents, n);
    r := Some(s);
  }

  lemma RunSnoc(es: seq<Event>, e: Event, s: Pending)
    requires Run(es) == Some(s)
    ensures Run(es + [e]) == Step(s, e)
  {
    assert (es + [e])[..|es|] == es;
  }

  lemma ContentStep(contents: seq<RawContent>, n: nat)
    requires n < |contents| && ReadContents(contents[..n]).Some? && ValidRole(contents[n])
    requires ReadParts(contents[n].role.value, contents[n].parts).Some?
    ensures ReadContents(contents[..n + 1]) == Some(ReadContents(contents[..n]).value + ReadParts(contents[n].role.value, contents[n].parts).value)
  {
    assert contents[..n + 1][..n] == contents[..n];
  }

  /** Accepts a request's contents exactly when they are well formed and their calls and responses pair off. */
  method DecodeContents(contents: seq<RawContent>) returns (ok: bool)
    ensures ok <==> Acceptable(contents)
  {
    hide ReadPart, Run, Step, ReadContents, ReadParts;
    if |contents| == 0 {
      return false;
    }
    var s := NONE_PENDING;
    InitiallyEmpty(contents);
    for index := 0 to |contents|
      invariant ReadContents(contents[..index]).Some? && Run(ReadContents(contents[..index]).value) == Some(s)
    {
      if !ValidRole(contents[index]) {
        InvalidRoleSpoils(contents, index);
        return false;
      }
      var next := DecodeParts(contents, index, s);
      if next.None? {
        return false;
      }
      s := next.value;
    }
    assert contents[..|contents|] == contents;
    if |s.ids| != 0 {
      return false;
    }
    ok := forall n :: n in s.names ==> s.names[n] == 0;
  }

  lemma InitiallyEmpty(contents: seq<RawContent>)
    ensures ReadContents(contents[..0]) == Some([]) && Run([]) == Some(NONE_PENDING)
  {
  }

  lemma InvalidRoleSpoils(contents: seq<RawContent>, n: nat)
    requires n < |contents| && !ValidRole(contents[n])
    ensures ReadContents(contents).None?
  {
    hide ReadParts, ValidRole;
    assert contents[..n + 1][..n] == contents[..n] && contents[..n + 1][n] == contents[n];
    BadContentSpoils(contents, n + 1);
  }
}
