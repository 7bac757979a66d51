/**
 The program one request runs in RunStream of internal/antigravity/accounts.go: choose an account, take
 a slot, run, and give the slot back before another account is tried. Between any two of its acts other
 requests may do anything.
 */
module AccountProgram {
  import opened Text

  /** Handed means the call has returned and left its release to the owner of the request. */
  datatype Phase =
    | Choosing
    | Selected(account: string, limit: int)
    | Running(account: string)
    | Retrying(account: string)
    | Closing(account: string)
    | Handed(account: string)
    | Ended

  datatype Event = Reserved(account: string) | Emitted(account: string, text: string) | Released(account: string)

  datatype Request = Request(conversation: string, direct: bool, handsOver: bool, phase: Phase, tried: set<string>, log: seq<Event>)

  datatype Act =
    | Choose(account: string, limit: int)
    | GiveUp
    | Take
    | Emit(text: string)
    | Return(status: Option<int>, cancelled: bool)
    | Panic
    | Release

  function Begin(conversation: string, direct: bool, handsOver: bool): Request {
    Request(conversation, direct, handsOver, Choosing, {}, [])
  }

  predicate Retryable(status: int) {
    status == 429 || status == 401 || status == 403 || status == 503
  }

  /** Whether an attempt ends the request: success, output already sent, or a failure another account cannot help with. */
  predicate Final(direct: bool, started: bool, status: Option<int>, cancelled: bool) {
    status.None? || started || cancelled || direct || !Retryable(status.value)
  }

  predicate Silent(log: seq<Event>) {
    forall i :: 0 <= i < |log| ==> !log[i].Emitted?
  }

  /** Where a request goes that is done with an account it still holds. */
  function Leaving(q: Request, account: string): Phase {
    if q.handsOver then Handed(account) else Closing(account)
  }

  /** What an act does; one that is not due does nothing, as a second call of the wrapped release. */
  function Do(q: Request, act: Act): Request {
    match act
    case Choose(a, limit) => if q.phase.Choosing? && a !in q.tried then q.(phase := Selected(a, limit)) else q
    case GiveUp => if q.phase.Choosing? || q.phase.Selected? then q.(phase := Ended) else q
    case Take =>
      if q.phase.Selected? then
        var a := q.phase.account;
        q.(phase := Running(a), tried := q.tried + {a}, log := q.log + [Reserved(a)])
      else q
    case Emit(text) => if q.phase.Running? then q.(log := q.log + [Emitted(q.phase.account, text)]) else q
    case Return(status, cancelled) =>
      if q.phase.Running? then
        q.(phase := if Final(q.direct, !Silent(q.log), status, cancelled) then Leaving(q, q.phase.account) else Retrying(q.phase.account))
      else q
    case Panic => if q.phase.Running? then q.(phase := Leaving(q, q.phase.account)) else q
    case Release =>
      if q.phase.Retrying? then q.(phase := Choosing, log := q.log + [Released(q.phase.account)])
      else if q.phase.Closing? || q.phase.Handed? then q.(phase := Ended, log := q.log + [Released(q.phase.account)])
      else q
  }

  function Replay(q: Request, acts: seq<Act>): Request {
    if acts == [] then q else Do(Replay(q, acts[..|acts| - 1]), acts[|acts| - 1])
  }

  /** The account whose slot a request holds. */
  function Held(p: Phase): Option<string> {
    if p.Running? || p.Retrying? || p.Closing? || p.Handed? then Some(p.account) else None
  }

  // ---------------------------------------------------------------- what a request's log shows

  function ReservedIn(log: seq<Event>): set<string> {
    set i | 0 <= i < |log| && log[i].Reserved? :: log[i].account
  }

  function ReleasedIn(log: seq<Event>): set<string> {
    set i | 0 <= i < |log| && log[i].Released? :: log[i].account
  }

  /** The account of the last reservation, which is the one recorded as selected. */
  function Last(log: seq<Event>): Option<string> {
    if log == [] then None
    else
      var e := log[|log| - 1];
      if e.Reserved? then Some(e.account) else Last(log[..|log| - 1])
  }

  /** The texts sent, in order. */
  function Output(log: seq<Event>): seq<string> {
    if log == [] then []
    else
      var e := log[|log| - 1];
      Output(log[..|log| - 1]) + if e.Emitted? then [e.text] else []
  }

  /** No account is reserved twice, and none is released twice or without a reservation before. */
  ghost predicate OncePerAccount(log: seq<Event>) {
    && (forall i, j :: 0 <= i < j < |log| && log[i].Reserved? && log[j].Reserved? ==> log[i].account != log[j].account)
    && (forall i, j :: 0 <= i < j < |log| && log[i].Released? && log[j].Released? ==> log[i].account != log[j].account)
    && (forall j :: 0 <= j < |log| && log[j].Released? ==> log[j].account in ReservedIn(log[..j]))
  }

  /** All output is from the account recorded last. */
  ghost predicate OneSource(log: seq<Event>) {
    forall i :: 0 <= i < |log| && log[i].Emitted? ==> Last(log) == Some(log[i].account)
  }

  /** The reservations not given back are exactly the one the request holds. */
  ghost predicate HoldsAtMostOne(q: Request) {
    ReservedIn(q.log) - ReleasedIn(q.log) == if Held(q.phase).Some? then {Held(q.phase).value} else {}
  }

  ghost predicate WellKept(q: Request) {
    && q.tried == ReservedIn(q.log) && OncePerAccount(q.log) && OneSource(q.log) && HoldsAtMostOne(q)
    && (Held(q.phase).Some? ==> Last(q.log) == Held(q.phase))
    && (q.phase.Choosing? || q.phase.Selected? || q.phase.Retrying? ==> Silent(q.log))
    && (q.phase.Selected? ==> q.phase.account !in q.tried)
    && (q.phase.Handed? ==> q.handsOver) && (q.phase.Closing? ==> !q.handsOver)
  }

  // ---------------------------------------------------------------- preservation

  lemma Snoc(log: seq<Event>, e: Event)
    ensures ReservedIn(log + [e]) == ReservedIn(log) + if e.Reserved? then {e.account} else {}
    ensures ReleasedIn(log + [e]) == ReleasedIn(log) + if e.Released? then {e.account} else {}
    ensures Last(log + [e]) == if e.Reserved? then Some(e.account) else Last(log)
    ensures Silent(log + [e]) <==> Silent(log) && !e.Emitted?
    ensures Output(log + [e]) == Output(log) + if e.Emitted? then [e.text] else []
  {
    var all := log + [e];
    assert all[..|log|] == log && all[|log|] == e;
    assert forall i :: 0 <= i < |log| ==> all[i] == log[i];
    forall a | a in ReservedIn(log) ensures a in ReservedIn(all) {
      var i :| 0 <= i < |log| && log[i].Reserved? && log[i].account == a;
      assert all[i] == log[i];
    }
    forall a | a in ReleasedIn(log) ensures a in ReleasedIn(all) {
      var i :| 0 <= i < |log| && log[i].Released? && log[i].account == a;
      assert all[i] == log[i];
    }
  }

  lemma OnceSnoc(log: seq<Event>, e: Event)
    requires OncePerAccount(log)
    requires e.Reserved? ==> e.account !in ReservedIn(log)
    requires e.Released? ==> e.account in ReservedIn(log) && e.account !in ReleasedIn(log)
    ensures OncePerAccount(log + [e])
  {
    var all := log + [e];
    assert all[..|log|] == log;
    assert forall i :: 0 <= i < |log| ==> all[i] == log[i] && all[..i] == log[..i];
    forall i | 0 <= i < |log| && log[i].Reserved? ensures log[i].account in ReservedIn(log) {}
    forall i | 0 <= i < |log| && log[i].Released? ensures log[i].account in ReleasedIn(log) {}
  }

  lemma SourceSnoc(log: seq<Event>, e: Event)
    requires OneSource(log) && (e.Reserved? ==> Silent(log)) && (e.Emitted? ==> Last(log) == Some(e.account))
    ensures OneSource(log + [e])
  {
    Snoc(log, e);
    var all := log + [e];
    assert forall i :: 0 <= i < |log| ==> all[i] == log[i];
  }

  lemma ReleasedWereReserved(log: seq<Event>)
    requires OncePerAccount(log)
    ensures ReleasedIn(log) <= ReservedIn(log)
  {
    forall a | a in ReleasedIn(log) ensures a in ReservedIn(log) {
      var j :| 0 <= j < |log| && log[j].Released? && log[j].account == a;
      var i :| 0 <= i < |log[..j]| && log[..j][i].Reserved? && log[..j][i].account == a;
      assert log[i].Reserved? && log[i].account == a;
    }
  }

  lemma DoKeeps(q: Request, act: Act)
    requires WellKept(q)
    ensures WellKept(Do(q, act))
  {
    hide OncePerAccount, OneSource, Silent, ReservedIn, ReleasedIn, Last, Output, Retryable;
    ReleasedWereReserved(q.log);
    var next := Do(q, act);
    if |next.log| > |q.log| {
      var e := next.log[|q.log|];
      assert next.log == q.log + [e];
      Snoc(q.log, e);
      OnceSnoc(q.log, e);
      SourceSnoc(q.log, e);
    }
  }

  lemma BeginKept(conversation: string, direct: bool, handsOver: bool)
    ensures WellKept(Begin(conversation, direct, handsOver))
  {
  }

  /** Whatever a request does, and whatever happens in between, its log stays well kept. */
  lemma {:induction false} ReplayKept(q: Request, acts: seq<Act>)
    requires WellKept(q)
    ensures WellKept(Replay(q, acts))
  {
    hide WellKept, Do;
    if acts != [] {
      ReplayKept(q, acts[..|acts| - 1]);
      DoKeeps(Replay(q, acts[..|acts| - 1]), acts[|acts| - 1]);
    }
  }

  /** Once a request is leaving, no act takes another account. */
  lemma {:induction false} LeavesForGood(q: Request, acts: seq<Act>)
    requires q.phase.Closing? || q.phase.Handed? || q.phase.Ended?
    ensures var end := Replay(q, acts);
            (end.phase.Closing? || end.phase.Handed? || end.phase.Ended?) && ReservedIn(end.log) == ReservedIn(q.log) && Output(end.log) == Output(q.log)
  {
    hide ReservedIn, Output;
    if acts != [] {
      LeavesForGood(q, acts[..|acts| - 1]);
      var before := Replay(q, acts[..|acts| - 1]);
      if before.phase.Closing? || before.phase.Handed? { Snoc(before.log, Released(before.phase.account)); }
    }
  }

  /**
   An attempt leads to another exactly if nothing was sent, the request is neither cancelled nor direct, and
   the failure is a spent quota, a refused login or an outage; after any other, no account is ever taken and
   nothing sent again.
   */
  lemma RetriedExactly(q: Request, status: Option<int>, cancelled: bool, acts: seq<Act>)
    requires q.phase.Running?
    ensures var after := Replay(q, [Return(status, cancelled)]);
            if !q.direct && !cancelled && Output(q.log) == [] && status in {Some(429), Some(401), Some(403), Some(503)}
            then Replay(q, [Return(status, cancelled), Release]).phase == Choosing
            else ReservedIn(Replay(after, acts).log) == ReservedIn(q.log) && Output(Replay(after, acts).log) == Output(q.log)
  {
    hide ReservedIn, Output, Silent;
    SilentExactly(q.log);
    var after := Replay(q, [Return(status, cancelled)]);
    assert [Return(status, cancelled)][..0] == [];
    assert Replay(q, []) == q;
    assert after == Do(q, Return(status, cancelled));
    assert [Return(status, cancelled), Release][..1] == [Return(status, cancelled)];
    assert Replay(q, [Return(status, cancelled), Release]) == Do(after, Release);
    if !after.phase.Retrying? { LeavesForGood(after, acts); }
  }

  lemma {:induction false} SilentExactly(log: seq<Event>)
    ensures Silent(log) <==> Output(log) == []
  {
    if log != [] {
      SilentExactly(log[..|log| - 1]);
      assert log == log[..|log| - 1] + [log[|log| - 1]];
    }
  }

  lemma ReplaySnoc(q: Request, acts: seq<Act>, act: Act)
    ensures Replay(q, acts + [act]) == Do(Replay(q, acts), act)
  {
    hide Do;
    assert (acts + [act])[..|acts|] == acts;
  }
}
