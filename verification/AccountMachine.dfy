/**
 All requests of internal/antigravity/accounts.go at once: each runs its own program, and their acts
 interleave in any order. The eligibility check, the selection callback, the reservation, the run and the
 release of a request are separate steps.
 */
module AccountMachine {
  import opened Text
  import opened Sets
  import S = AccountSlots
  import opened AccountProgram

  datatype State = State(accounts: map<string, S.Slots>, requests: map<nat, Request>)

  datatype Step =
    | ArriveStep(request: nat, conversation: string, direct: bool, handsOver: bool)
    | ActStep(request: nat, act: Act)

  /**
   Whether an act can happen now. A selection is of an account that passed the eligibility check, which a
   direct request skips; a slot is taken only if the account can be acquired at that moment. limits is
   the fixed limit of each account, and a request may be held to less, as a direct one is.
   */
  predicate Enabled(limits: map<string, int>, accounts: map<string, S.Slots>, q: Request, act: Act) {
    match act
    case Choose(a, limit) => a in accounts && a in limits && limit <= limits[a] && (q.direct || S.CanAcquire(accounts[a], q.conversation, limit))
    case Take => q.phase.Selected? ==> q.phase.account in accounts && S.CanAcquire(accounts[q.phase.account], q.conversation, q.phase.limit)
    case _ => true
  }

  /** The accounts after a request's phase changes: a slot more, a slot less, or as they were. */
  function Account(accounts: map<string, S.Slots>, conversation: string, before: Option<string>, after: Option<string>): map<string, S.Slots> {
    if before == after then accounts
    else
      var given := if before.Some? && before.value in accounts then accounts[before.value := S.Release(accounts[before.value], conversation)] else accounts;
      if after.Some? && after.value in given then given[after.value := S.Reserve(given[after.value], conversation)] else given
  }

  function Next(limits: map<string, int>, s: State, step: Step): State {
    match step
    case ArriveStep(r, conversation, direct, handsOver) =>
      if r in s.requests then s else s.(requests := s.requests[r := Begin(conversation, direct, handsOver)])
    case ActStep(r, act) =>
      if r in s.requests && Enabled(limits, s.accounts, s.requests[r], act) then
        var q := s.requests[r];
        var next := Do(q, act);
        State(Account(s.accounts, q.conversation, Held(q.phase), Held(next.phase)), s.requests[r := next])
      else s
  }

  function Run(limits: map<string, int>, steps: seq<Step>): State {
    if steps == [] then State(map a | a in limits :: S.IDLE, map[])
    else Next(limits, Run(limits, steps[..|steps| - 1]), steps[|steps| - 1])
  }

  // ---------------------------------------------------------------- who holds what

  function Holders(requests: map<nat, Request>, account: string): set<nat> {
    set r | r in requests && Held(requests[r].phase) == Some(account)
  }

  function HoldersIn(requests: map<nat, Request>, account: string, conversation: string): set<nat> {
    set r | r in requests && Held(requests[r].phase) == Some(account) && requests[r].conversation == conversation
  }

  ghost function CountIn(requests: map<nat, Request>, account: string): string -> nat {
    c => |HoldersIn(requests, account, c)|
  }

  /** The account's counters are the numbers of requests that hold a slot of it. */
  ghost predicate Counted(requests: map<nat, Request>, account: string, s: S.Slots) {
    S.Represents(s, |Holders(requests, account)|, CountIn(requests, account))
  }

  ghost predicate Within(limits: map<string, int>, a: string, s: S.Slots) {
    a in limits && S.ActiveSlots(s) <= if limits[a] > 0 then limits[a] else 0
  }

  ghost predicate Placed(limits: map<string, int>, accounts: map<string, S.Slots>, q: Request) {
    && WellKept(q) && ReservedIn(q.log) <= accounts.Keys
    && (Held(q.phase).Some? ==> Held(q.phase).value in accounts)
    && (q.phase.Selected? ==> q.phase.account in accounts && q.phase.account in limits && q.phase.limit <= limits[q.phase.account])
  }

  ghost predicate Inv(limits: map<string, int>, s: State) {
    && s.accounts.Keys == limits.Keys
    && (forall a :: a in s.accounts ==> Counted(s.requests, a, s.accounts[a]) && Within(limits, a, s.accounts[a]))
    && (forall r :: r in s.requests ==> Placed(limits, s.accounts, s.requests[r]))
  }

  // ---------------------------------------------------------------- preservation

  function Bit(b: bool): nat {
    if b then 1 else 0
  }

  /** One request changes its phase: the holders change by that request at most. */
  lemma HoldersUpdate(requests: map<nat, Request>, r: nat, next: Request, a: string)
    requires r in requests
    ensures |Holders(requests[r := next], a)| + Bit(Held(requests[r].phase) == Some(a)) == |Holders(requests, a)| + Bit(Held(next.phase) == Some(a))
  {
    hide Held;
    var after := requests[r := next];
    Exchanged(Holders(requests, a), Holders(after, a), r);
  }

  lemma HoldersInUpdate(requests: map<nat, Request>, r: nat, next: Request, a: string, c: string)
    requires r in requests && next.conversation == requests[r].conversation
    ensures |HoldersIn(requests[r := next], a, c)| + Bit(Held(requests[r].phase) == Some(a) && c == next.conversation)
            == |HoldersIn(requests, a, c)| + Bit(Held(next.phase) == Some(a) && c == next.conversation)
  {
    hide Held;
    var after := requests[r := next];
    Exchanged(HoldersIn(requests, a, c), HoldersIn(after, a, c), r);
  }

  lemma CountUpdate(requests: map<nat, Request>, r: nat, next: Request, a: string)
    requires r in requests && next.conversation == requests[r].conversation
    ensures var after, q := requests[r := next], requests[r];
            forall c :: CountIn(after, a)(c) + Bit(Held(q.phase) == Some(a) && c == q.conversation)
                        == CountIn(requests, a)(c) + Bit(Held(next.phase) == Some(a) && c == q.conversation)
  {
    hide Held, HoldersIn, Bit;
    var after, q := requests[r := next], requests[r];
    forall c ensures CountIn(after, a)(c) + Bit(Held(q.phase) == Some(a) && c == q.conversation)
                     == CountIn(requests, a)(c) + Bit(Held(next.phase) == Some(a) && c == q.conversation) {
      HoldersInUpdate(requests, r, next, a, c);
    }
  }

  lemma Exchanged<T>(before: set<T>, after: set<T>, x: T)
    requires forall y :: y in before && y != x ==> y in after
    requires forall y :: y in after && y != x ==> y in before
    ensures |after| + Bit(x in before) == |before| + Bit(x in after)
  {
    assert after - {x} == before - {x};
    Without(after, x);
    Without(before, x);
  }

  lemma Without<T>(xs: set<T>, x: T)
    ensures |xs| == |xs - {x}| + Bit(x in xs)
  {
    if x in xs {
      assert xs == (xs - {x}) + {x};
    } else {
      assert xs - {x} == xs;
    }
  }

  /** An act takes a slot, gives one back, or leaves what the request holds as it is. */
  lemma DoHolds(q: Request, act: Act)
    ensures Do(q, act).conversation == q.conversation
    ensures Held(Do(q, act).phase) == Held(q.phase)
            || (Held(q.phase).None? && act.Take? && q.phase.Selected? && Held(Do(q, act).phase) == Some(q.phase.account))
            || (Held(q.phase).Some? && Held(Do(q, act).phase).None?)
  {
    hide Final, Silent;
  }

  lemma ActCounts(limits: map<string, int>, s: State, r: nat, act: Act, a: string)
    requires Inv(limits, s) && r in s.requests && a in s.accounts
    ensures var q := s.requests[r];
            var next := Do(q, act);
            var accounts := Account(s.accounts, q.conversation, Held(q.phase), Held(next.phase));
            a in accounts && Counted(s.requests[r := next], a, accounts[a])
  {
    hide S.Represents, S.Reserve, S.Release, Holders, CountIn, Do, Within, Placed, HoldersIn;
    var q := s.requests[r];
    var next := Do(q, act);
    var slots, total, count := s.accounts[a], |Holders(s.requests, a)|, CountIn(s.requests, a);
    var after := CountIn(s.requests[r := next], a);
    DoHolds(q, act);
    HoldersUpdate(s.requests, r, next, a);
    CountUpdate(s.requests, r, next, a);
    if Held(q.phase) == Held(next.phase) {
      S.SameRepresents(slots, total, count, after);
    } else if Held(next.phase) == Some(a) {
      S.ReserveRepresents(slots, total, count, q.conversation, after);
    } else if Held(q.phase) == Some(a) {
      S.ReleaseRepresents(slots, total, count, q.conversation, after);
    } else {
      S.SameRepresents(slots, total, count, after);
    }
  }

  lemma ActWithin(limits: map<string, int>, s: State, r: nat, act: Act, a: string)
    requires Inv(limits, s) && r in s.requests && a in s.accounts && Enabled(limits, s.accounts, s.requests[r], act)
    ensures var q := s.requests[r];
            var accounts := Account(s.accounts, q.conversation, Held(q.phase), Held(Do(q, act).phase));
            a in accounts && Within(limits, a, accounts[a])
  {
    hide S.Reserve, S.Release, Holders, CountIn, Do, S.ActiveSlots, WellKept;
    var q := s.requests[r];
    DoHolds(q, act);
    assert "" !in s.accounts[a].conversations;
    S.ReleaseBounded(s.accounts[a], q.conversation);
    if act.Take? && q.phase.Selected? && q.phase.account == a {
      S.ReserveBounded(s.accounts[a], q.conversation, q.phase.limit, limits[a]);
    }
  }

  lemma ActPlaced(limits: map<string, int>, accounts: map<string, S.Slots>, q: Request, act: Act)
    requires Placed(limits, accounts, q) && Enabled(limits, accounts, q, act)
    ensures Placed(limits, accounts, Do(q, act))
  {
    hide WellKept, Final, Silent, ReservedIn;
    DoKeeps(q, act);
    if act.Take? && q.phase.Selected? { Snoc(q.log, Reserved(q.phase.account)); }
    if act.Emit? && q.phase.Running? { Snoc(q.log, Emitted(q.phase.account, act.text)); }
    if act.Release? && Held(q.phase).Some? { Snoc(q.log, Released(q.phase.account)); }
  }

  lemma PlacedStill(limits: map<string, int>, before: map<string, S.Slots>, after: map<string, S.Slots>, q: Request)
    requires Placed(limits, before, q) && after.Keys == before.Keys
    ensures Placed(limits, after, q)
  {
    hide WellKept, ReservedIn;
  }

  lemma NextKeeps(limits: map<string, int>, s: State, step: Step)
    requires Inv(limits, s)
    ensures Inv(limits, Next(limits, s, step))
  {
    hide Counted, Within, Placed, Do, Enabled;
    match step {
      case ArriveStep(r, conversation, direct, handsOver) =>
        if r !in s.requests { ArriveKeeps(limits, s, r, Begin(conversation, direct, handsOver)); }
      case ActStep(r, act) =>
        if r in s.requests && Enabled(limits, s.accounts, s.requests[r], act) {
          var q := s.requests[r];
          var accounts := Account(s.accounts, q.conversation, Held(q.phase), Held(Do(q, act).phase));
          forall a | a in s.accounts { ActCounts(limits, s, r, act, a); }
          forall a | a in s.accounts { ActWithin(limits, s, r, act, a); }
          ActPlaced(limits, s.accounts, q, act);
          forall x | x in s.requests { PlacedStill(limits, s.accounts, accounts, s.requests[x]); }
          PlacedStill(limits, s.accounts, accounts, Do(q, act));
        }
    }
  }

  lemma ArriveKeeps(limits: map<string, int>, s: State, r: nat, q: Request)
    requires Inv(limits, s) && r !in s.requests && q == Begin(q.conversation, q.direct, q.handsOver)
    ensures Inv(limits, s.(requests := s.requests[r := q]))
  {
    hide Counted, Within, WellKept;
    BeginKept(q.conversation, q.direct, q.handsOver);
    forall a | a in s.accounts { ArriveCounts(s.requests, r, q, a, s.accounts[a]); }
  }

  lemma ArriveCounts(requests: map<nat, Request>, r: nat, q: Request, a: string, slots: S.Slots)
    requires r !in requests && Held(q.phase).None? && Counted(requests, a, slots)
    ensures Counted(requests[r := q], a, slots)
  {
    hide S.Represents, Held;
    var after := requests[r := q];
    assert Holders(after, a) == Holders(requests, a);
    forall c ensures CountIn(after, a)(c) == CountIn(requests, a)(c) { assert HoldersIn(after, a, c) == HoldersIn(requests, a, c); }
    S.SameRepresents(slots, |Holders(requests, a)|, CountIn(requests, a), CountIn(after, a));
  }

  lemma {:induction false} AlwaysInv(limits: map<string, int>, steps: seq<Step>)
    ensures Inv(limits, Run(limits, steps))
  {
    hide Inv, Next;
    if steps == [] {
      InitialInv(limits);
    } else {
      AlwaysInv(limits, steps[..|steps| - 1]);
      NextKeeps(limits, Run(limits, steps[..|steps| - 1]), steps[|steps| - 1]);
    }
  }

  lemma InitialInv(limits: map<string, int>)
    ensures Inv(limits, Run(limits, []))
  {
    forall a | a in limits ensures Counted(map[], a, S.IDLE) {
      assert Holders(map[], a) == {};
      forall c ensures CountIn(map[], a)(c) == 0 { assert HoldersIn(map[], a, c) == {}; }
    }
  }

  // ---------------------------------------------------------------- for every interleaving

  /** The conversations that hold a slot of the account. */
  function Conversing(requests: map<nat, Request>, account: string): set<string> {
    set r | r in requests && Held(requests[r].phase) == Some(account) && requests[r].conversation != "" :: requests[r].conversation
  }

  /**
   After any interleaving of any number of requests: every counter of every account is the number of
   requests that hold it, and the slots in use, one for each conversation and one for each request
   without one, are within the account's limit.
   */
  lemma SlotsAreExact(limits: map<string, int>, steps: seq<Step>, a: string)
    requires a in limits
    ensures var s := Run(limits, steps);
            && a in s.accounts
            && s.accounts[a].active == |Holders(s.requests, a)|
            && s.accounts[a].unattributed == |HoldersIn(s.requests, a, "")|
            && s.accounts[a].conversations.Keys == Conversing(s.requests, a)
            && (forall c :: c in s.accounts[a].conversations ==> s.accounts[a].conversations[c] == |HoldersIn(s.requests, a, c)| > 0)
            && |Conversing(s.requests, a)| + |HoldersIn(s.requests, a, "")| <= if limits[a] > 0 then limits[a] else 0
  {
    hide Run, Counted, Conversing, Placed;
    AlwaysInv(limits, steps);
    var s := Run(limits, steps);
    ConversingExactly(s.requests, a, s.accounts[a]);
    S.KeyCount(s.accounts[a].conversations);
  }

  lemma ConversingExactly(requests: map<nat, Request>, a: string, slots: S.Slots)
    requires Counted(requests, a, slots)
    ensures slots.active == |Holders(requests, a)| && slots.unattributed == |HoldersIn(requests, a, "")|
    ensures slots.conversations.Keys == Conversing(requests, a)
    ensures forall c :: c in slots.conversations ==> slots.conversations[c] == |HoldersIn(requests, a, c)| > 0
  {
    hide Held;
    var count := CountIn(requests, a);
    assert forall c :: count(c) == |HoldersIn(requests, a, c)|;
    forall c ensures c in slots.conversations <==> c in Conversing(requests, a) {
      if c in slots.conversations {
        assert count(c) > 0;
        var r := Pick(HoldersIn(requests, a, c));
      }
      if c in Conversing(requests, a) {
        var r :| r in requests && Held(requests[r].phase) == Some(a) && requests[r].conversation == c && c != "";
        assert r in HoldersIn(requests, a, c);
        assert count(c) > 0;
      }
    }
  }

  /**
   A request never holds more than one reservation, takes and gives back no account's slot twice, tries no
   more accounts than there are, and has all its output from the account recorded last; and once it has
   returned it holds exactly the slot it handed over, if it did.
   */
  ghost predicate Behaves(all: set<string>, q: Request) {
    && OncePerAccount(q.log) && OneSource(q.log) && HoldsAtMostOne(q)
    && ReservedIn(q.log) <= all && |ReservedIn(q.log)| <= |all|
    && (q.phase.Ended? ==> ReservedIn(q.log) == ReleasedIn(q.log))
    && (q.phase.Handed? ==> q.handsOver && Last(q.log) == Some(q.phase.account) && HandedOver(q.log, q.phase.account))
  }

  /** All slots taken have been given back but this one. */
  ghost predicate HandedOver(log: seq<Event>, account: string) {
    ReservedIn(log) == ReleasedIn(log) + {account} && account !in ReleasedIn(log)
  }

  lemma KeptBehaves(all: set<string>, q: Request)
    requires WellKept(q) && ReservedIn(q.log) <= all
    ensures Behaves(all, q)
  {
    hide Last, OneSource, OncePerAccount, ReservedIn, ReleasedIn, Silent;
    ReleasedWereReserved(q.log);
    AllButHeld(ReservedIn(q.log), ReleasedIn(q.log), Held(q.phase));
    SubsetSize(ReservedIn(q.log), all);
  }

  lemma AllButHeld(reserved: set<string>, released: set<string>, held: Option<string>)
    requires released <= reserved && reserved - released == if held.Some? then {held.value} else {}
    ensures held.None? ==> reserved == released
    ensures held.Some? ==> reserved == released + {held.value} && held.value !in released
  {
    if held.Some? { assert held.value in reserved - released; }
    forall a | a in reserved && a !in released ensures held == Some(a) { assert a in reserved - released; }
  }

  /** Every request of every interleaving behaves. */
  lemma RequestsBehave(limits: map<string, int>, steps: seq<Step>, r: nat)
    requires r in Run(limits, steps).requests
    ensures Behaves(limits.Keys, Run(limits, steps).requests[r])
  {
    hide Run, Behaves, Counted, Within, WellKept, ReservedIn;
    AlwaysInv(limits, steps);
    var s := Run(limits, steps);
    assert Placed(limits, s.accounts, s.requests[r]);
    KeptBehaves(limits.Keys, s.requests[r]);
  }
}
