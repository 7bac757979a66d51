/** The limiter and the in-memory daily store as the objects they are: maps and counters updated in place. */
module Limiter {
  import opened Text
  import opened Int64
  import M = Metering
  import Q = DailyQuota

  class MemoryDailyStore {
    var usage: map<Q.DailyKey, int>

    constructor ()
      ensures usage == map[]
    {
      usage := map[];
    }

    /** The validation loop, with the set of what was seen. */
    static method Validate(entries: seq<Q.Entry>) returns (verdict: Q.Verdict)
      ensures verdict == Q.Validate(entries)
    {
      hide Q.ValidEntry;
      var seen: set<(Q.Scope, string)> := {};
      for i := 0 to |entries|
        invariant Q.Validate(entries[..i]) == Q.Reserved
        invariant forall p :: p in seen <==> exists j :: 0 <= j < i && p == (entries[j].scope, entries[j].id)
      {
        var e := entries[i];
        assert entries[..i + 1][..i] == entries[..i];
        assert forall j :: 0 <= j < i ==> entries[..i][j] == entries[j];
        FaultStays(entries, i + 1);
        if !Q.ValidEntry(e) {
          return Q.InvalidEntry;
        }
        if (e.scope, e.id) in seen {
          var j :| 0 <= j < i && (e.scope, e.id) == (entries[j].scope, entries[j].id);
          assert Q.Same(entries[..i][j], e);
          return Q.DuplicateEntry;
        }
        seen := seen + {(e.scope, e.id)};
      }
      assert entries[..|entries|] == entries;
      return Q.Reserved;
    }

    /** First every entry is checked, then every one is counted. */
    method ReserveRequests(day: int, entries: seq<Q.Entry>) returns (verdict: Q.Verdict)
      modifies this
      ensures (usage, verdict) == Q.Reserve(old(usage), day, entries)
    {
      hide Q.Validate, Q.CheckOne;
      verdict := Validate(entries);
      if verdict != Q.Reserved {
        return;
      }
      for i := 0 to |entries|
        invariant Q.Check(usage, day, entries[..i]) == Q.Reserved && usage == old(usage)
      {
        assert entries[..i + 1][..i] == entries[..i];
        RefusalStays(usage, day, entries, i + 1);
        verdict := Q.CheckOne(usage, day, entries[i]);
        if verdict != Q.Reserved {
          return;
        }
      }
      assert entries[..|entries|] == entries;
      for i := 0 to |entries|
        invariant usage == Q.Add(old(usage), day, entries[..i])
      {
        assert entries[..i + 1][..i] == entries[..i];
        var key := Q.KeyOf(day, entries[i]);
        usage := usage[key := Q.Used(usage, key) + 1];
      }
      verdict := Q.Reserved;
    }
  }

  /** Other requests' calls on the store, one after the other. */
  method OthersReserve(store: MemoryDailyStore, calls: seq<Q.Call>)
    modifies store
    ensures store.usage == Q.After(old(store.usage), calls)
  {
    hide Q.Reserve;
    for i := 0 to |calls|
      invariant store.usage == Q.After(old(store.usage), calls[..i])
    {
      assert calls[..i + 1][..i] == calls[..i];
      var _ := store.ReserveRequests(calls[i].day, calls[i].entries);
    }
    assert calls[..|calls|] == calls;
  }

  lemma {:induction false} FaultStays(entries: seq<Q.Entry>, n: nat)
    requires n <= |entries|
    ensures Q.Validate(entries[..n]) != Q.Reserved ==> Q.Validate(entries) == Q.Validate(entries[..n])
    decreases |entries| - n
  {
    if n < |entries| {
      assert entries[..n + 1][..n] == entries[..n];
      FaultStays(entries, n + 1);
    } else {
      assert entries[..n] == entries;
    }
  }

  lemma {:induction false} RefusalStays(usage: map<Q.DailyKey, int>, day: int, entries: seq<Q.Entry>, n: nat)
    requires n <= |entries|
    ensures Q.Check(usage, day, entries[..n]) != Q.Reserved ==> Q.Check(usage, day, entries) == Q.Check(usage, day, entries[..n])
    decreases |entries| - n
  {
    hide Q.CheckOne;
    if n < |entries| {
      assert entries[..n + 1][..n] == entries[..n];
      RefusalStays(usage, day, entries, n + 1);
    } else {
      assert entries[..n] == entries;
    }
  }

  datatype DailyLimits = DailyLimits(key: nat, user: nat)

  datatype Admission = Admitted | Cancelled | InvalidIdentity | Limited(rejection: M.Rejection) | DailyRefused(verdict: Q.Verdict) | StoreFailed

  class Limiter {
    const config: M.Config
    const daily: DailyLimits
    var keyRPM: map<string, M.Counter>
    var userRPM: map<string, M.Counter>
    var keyConcurrent: map<string, int>
    var userConcurrent: map<string, int>
    var globalCurrent: int

    ghost function View(): M.Gauges
      reads this
    {
      M.Gauges(M.Meter(keyRPM, keyConcurrent), M.Meter(userRPM, userConcurrent), globalCurrent)
    }

    constructor (config: M.Config, daily: DailyLimits)
      ensures View() == M.ZERO && this.config == config && this.daily == daily
    {
      this.config, this.daily := config, daily;
      keyRPM, userRPM, keyConcurrent, userConcurrent, globalCurrent := map[], map[], map[], map[], 0;
    }

    static method ActiveCounter(counters: map<string, M.Counter>, id: string, window: int) returns (next: map<string, M.Counter>)
      ensures forall flights: map<string, int> :: M.Meter(next, flights) == M.Activate(M.Meter(counters, flights), id, window)
    {
      if id !in counters || counters[id].start != window {
        return counters[id := M.Counter(window, 0)];
      }
      return counters;
    }

    method Refusal(who: M.Identity) returns (rejection: Option<M.Rejection>)
      requires who.key in keyRPM && who.user in userRPM
      ensures rejection == M.Refusal(config, View(), who)
    {
      if config.key.perWindow > 0 && keyRPM[who.key].count >= config.key.perWindow {
        return Some(M.KeyRate);
      }
      if config.user.perWindow > 0 && userRPM[who.user].count >= config.user.perWindow {
        return Some(M.UserRate);
      }
      var keyFlights := if who.key in keyConcurrent then keyConcurrent[who.key] else 0;
      if config.key.concurrent > 0 && keyFlights >= config.key.concurrent {
        return Some(M.KeyConcurrency);
      }
      var userFlights := if who.user in userConcurrent then userConcurrent[who.user] else 0;
      if config.user.concurrent > 0 && userFlights >= config.user.concurrent {
        return Some(M.UserConcurrency);
      }
      if config.concurrent > 0 && globalCurrent >= config.concurrent {
        return Some(M.GlobalConcurrency);
      }
      return None;
    }

    method Enter(who: M.Identity)
      requires who.key in keyRPM && who.user in userRPM
      modifies this
      ensures View() == M.Gauges(M.Enter(config.key, old(View()).key, who.key), M.Enter(config.user, old(View()).user, who.user), old(globalCurrent) + 1)
    {
      if config.key.perWindow > 0 {
        keyRPM := keyRPM[who.key := keyRPM[who.key].(count := keyRPM[who.key].count + 1)];
      }
      if config.user.perWindow > 0 {
        userRPM := userRPM[who.user := userRPM[who.user].(count := userRPM[who.user].count + 1)];
      }
      keyConcurrent := keyConcurrent[who.key := (if who.key in keyConcurrent then keyConcurrent[who.key] else 0) + 1];
      userConcurrent := userConcurrent[who.user := (if who.user in userConcurrent then userConcurrent[who.user] else 0) + 1];
      globalCurrent := globalCurrent + 1;
    }

    /** All checks and all increments under one lock. */
    method ReserveLocal(who: M.Identity, window: int) returns (rejection: Option<M.Rejection>)
      modifies this
      ensures (View(), rejection) == M.Reserve(config, old(View()), who, window)
    {
      hide M.Activate, M.Enter, M.Refusal;
      keyRPM := ActiveCounter(keyRPM, who.key, window);
      userRPM := ActiveCounter(userRPM, who.user, window);
      ghost var before := old(View());
      assert View() == before.(key := M.Activate(before.key, who.key, window), user := M.Activate(before.user, who.user, window));
      rejection := Refusal(who);
      if rejection.None? {
        Enter(who);
      }
    }

    /** releaseConcurrentLocked, with its guards. */
    method ReleaseConcurrent(who: M.Identity)
      modifies this
      ensures View() == M.Release(old(View()), who)
    {
      if who.key in keyConcurrent && keyConcurrent[who.key] > 1 {
        keyConcurrent := keyConcurrent[who.key := keyConcurrent[who.key] - 1];
      } else {
        keyConcurrent := keyConcurrent - {who.key};
      }
      if who.user in userConcurrent && userConcurrent[who.user] > 1 {
        userConcurrent := userConcurrent[who.user := userConcurrent[who.user] - 1];
      } else {
        userConcurrent := userConcurrent - {who.user};
      }
      if globalCurrent > 0 {
        globalCurrent := globalCurrent - 1;
      }
    }

    method RollbackLocal(who: M.Identity, window: int)
      modifies this
      ensures View() == M.Rollback(config, old(View()), who, window)
    {
      if config.key.perWindow > 0 && who.key in keyRPM && keyRPM[who.key].start == window && keyRPM[who.key].count > 0 {
        keyRPM := keyRPM[who.key := keyRPM[who.key].(count := keyRPM[who.key].count - 1)];
      }
      if config.user.perWindow > 0 && who.user in userRPM && userRPM[who.user].start == window && userRPM[who.user].count > 0 {
        userRPM := userRPM[who.user := userRPM[who.user].(count := userRPM[who.user].count - 1)];
      }
      ReleaseConcurrent(who);
    }

    /** The daily counters a request touches: those that are limited. */
    function DailyEntries(who: M.Identity): (entries: seq<Q.Entry>)
      ensures Q.DistinctEntries(entries)
    {
      (if daily.key > 0 then [Q.Entry(Q.KeyScope, who.key, daily.key)] else [])
      + if daily.user > 0 then [Q.Entry(Q.UserScope, who.user, daily.user)] else []
    }

    /** What the daily store makes of the request; a store that fails, or is cancelled, has counted nothing. */
    ghost function Daily(usage: map<Q.DailyKey, int>, who: M.Identity, day: int, storeFails: bool): (map<Q.DailyKey, int>, Admission) {
      var entries := DailyEntries(who);
      if entries == [] then (usage, Admitted)
      else if storeFails then (usage, StoreFailed)
      else
        var (counted, verdict) := Q.Reserve(usage, day, entries);
        (counted, if verdict == Q.Reserved then Admitted else DailyRefused(verdict))
    }

    /** The steps of the machine that an acquisition takes, with those of other requests in between. */
    static function StepsOf(admission: Admission, r: nat, t: M.Ticket, between: seq<M.Step>): seq<M.Step> {
      match admission
      case Cancelled => []
      case InvalidIdentity => []
      case Limited(_) => [M.ReserveStep(r, t)]
      case Admitted => [M.ReserveStep(r, t)] + between + [M.AdmitStep(r)]
      case DailyRefused(_) => [M.ReserveStep(r, t)] + between + [M.RollbackStep(r)]
      case StoreFailed => [M.ReserveStep(r, t)] + between + [M.RollbackStep(r)]
    }

    /**
     Acquire: reserved locally, then for the day, and rolled back locally if the day refuses or its store
     fails. Between the two other requests take any steps of theirs, and count on the store. What all
     requests have after it is what the machine has after those steps, in that order; and an admitted
     request gets a release of its own, which the end of its context calls too.
     */
    method Acquire(traffic: Traffic, store: MemoryDailyStore, r: nat, who: M.Identity, window: int, day: int, cancelled: bool, storeFails: bool,
                   between: seq<M.Step>, calls: seq<Q.Call>)
      returns (admission: Admission, release: ReleaseHandle?)
      requires r !in traffic.booked && r !in traffic.live && forall i :: 0 <= i < |between| ==> between[i].request != r
      modifies this, traffic, store
      ensures traffic.State(this) == M.After(config, old(traffic.State(this)), StepsOf(admission, r, M.Ticket(who, window), between))
      ensures admission == if cancelled then Cancelled else if who.key == "" || who.user == "" then InvalidIdentity
                           else var rejection := M.Reserve(config, old(View()), who, window).1;
                             if rejection.Some? then Limited(rejection.value) else Daily(Q.After(old(store.usage), calls), who, day, storeFails).1
      ensures store.usage == if admission.Cancelled? || admission.InvalidIdentity? || admission.Limited? then old(store.usage)
                             else Daily(Q.After(old(store.usage), calls), who, day, storeFails).0
      ensures admission.Admitted? ==> r in traffic.live && r !in traffic.pending
      ensures !admission.Admitted? ==> r !in traffic.live && r !in traffic.booked
      ensures release != null <==> admission.Admitted?
      ensures release != null ==> fresh(release) && !release.done && release.limiter == this && release.who == who
    {
      hide M.Reserve, M.Rollback, Q.Validate, Q.Check, Q.Add, M.Next, M.After;
      release := null;
      ghost var s, t := traffic.State(this), M.Ticket(who, window);
      M.AfterNothing(config, s);
      if cancelled {
        return Cancelled, null;
      }
      if who.key == "" || who.user == "" {
        return InvalidIdentity, null;
      }
      var rejection := traffic.Reserve(this, r, M.Ticket(who, window));
      M.AfterSnoc(config, s, [], M.ReserveStep(r, t));
      assert [] + [M.ReserveStep(r, t)] == [M.ReserveStep(r, t)];
      if rejection.Some? {
        return Limited(rejection.value), null;
      }
      traffic.Others(this, between);
      M.AfterConcat(config, s, [M.ReserveStep(r, t)], between);
      M.StillPending(config, M.Next(config, s, M.ReserveStep(r, t)), between, r);
      M.Settles(config, traffic.State(this), r);
      OthersReserve(store, calls);
      M.AfterSnoc(config, s, [M.ReserveStep(r, t)] + between, M.AdmitStep(r));
      M.AfterSnoc(config, s, [M.ReserveStep(r, t)] + between, M.RollbackStep(r));
      var entries := DailyEntries(who);
      if entries != [] {
        if storeFails {
          traffic.Step(this, M.RollbackStep(r));
          return StoreFailed, null;
        }
        var verdict := store.ReserveRequests(day, entries);
        if verdict != Q.Reserved {
          traffic.Step(this, M.RollbackStep(r));
          return DailyRefused(verdict), null;
        }
      }
      traffic.Step(this, M.AdmitStep(r));
      admission := Admitted;
      release := new ReleaseHandle(this, who);
    }
  }

  /** The requests under way, of all clients. */
  class Traffic {
    var live: map<nat, M.Ticket>
    var pending: set<nat>
    var booked: map<nat, M.Ticket>

    ghost function State(l: Limiter): M.State
      reads this, l
    {
      M.State(l.View(), live, pending, booked)
    }

    method Reserve(l: Limiter, r: nat, t: M.Ticket) returns (rejection: Option<M.Rejection>)
      requires r !in booked && r !in live
      modifies this, l
      ensures State(l) == M.Next(l.config, old(State(l)), M.ReserveStep(r, t)) && rejection == M.Reserve(l.config, old(l.View()), t.who, t.window).1
      ensures if rejection.None? then r in pending && r in live else r !in live && r !in booked
    {
      hide M.Reserve;
      rejection := l.ReserveLocal(t.who, t.window);
      if rejection.None? {
        live, pending, booked := live[r := t], pending + {r}, booked[r := t];
      }
    }

    /** Any step of any request: the limiter's critical section for it, and the books. */
    method Step(l: Limiter, step: M.Step)
      modifies this, l
      ensures State(l) == M.Next(l.config, old(State(l)), step)
    {
      hide M.Reserve, M.Rollback, M.Release;
      match step {
        case ReserveStep(r, t) =>
          if r !in booked && r !in live {
            var _ := Reserve(l, r, t);
          }
        case AdmitStep(r) => pending := pending - {r};
        case RollbackStep(r) =>
          if r in pending && r in live {
            l.RollbackLocal(live[r].who, live[r].window);
            live, pending, booked := live - {r}, pending - {r}, booked - {r};
          }
        case ReleaseStep(r) =>
          if r in live && r !in pending {
            l.ReleaseConcurrent(live[r].who);
            live := live - {r};
          }
      }
    }

    method Others(l: Limiter, steps: seq<M.Step>)
      modifies this, l
      ensures State(l) == M.After(l.config, old(State(l)), steps)
    {
      hide M.Next;
      for i := 0 to |steps|
        invariant State(l) == M.After(l.config, old(State(l)), steps[..i])
      {
        assert steps[..i + 1][..i] == steps[..i];
        Step(l, steps[i]);
      }
      assert steps[..|steps|] == steps;
    }
  }

  /** The release function of an admitted request: it counts down once, however often it is called. */
  class ReleaseHandle {
    const limiter: Limiter
    const who: M.Identity
    var done: bool

    constructor (limiter: Limiter, who: M.Identity)
      ensures this.limiter == limiter && this.who == who && !done
    {
      this.limiter, this.who, done := limiter, who, false;
    }

    method Call()
      modifies this`done, limiter
      ensures done
      ensures limiter.View() == if old(done) then old(limiter.View()) else M.Release(old(limiter.View()), who)
    {
      if !done {
        done := true;
        limiter.ReleaseConcurrent(who);
      }
    }
  }

  /** Whether one more request of the day can be counted under the limit, zero being no limit. */
  predicate Room(usage: map<Q.DailyKey, int>, key: Q.DailyKey, limit: nat) {
    limit > 0 ==> Q.Used(usage, key) < limit && Q.Used(usage, key) != MAX_INT64
  }

  /**
   The day admits a request exactly if neither its key nor its user is at a limit of its own; then the count of
   each that is limited goes up by one, and no other count changes.
   */
  lemma DailyExactly(l: Limiter, usage: map<Q.DailyKey, int>, who: M.Identity, day: int, other: Q.DailyKey)
    requires who.key != "" && who.user != ""
    ensures var (after, admission) := l.Daily(usage, who, day, false);
            var key, user := Q.DailyKey(day, Q.KeyScope, who.key), Q.DailyKey(day, Q.UserScope, who.user);
            && (admission.Admitted? <==> Room(usage, key, l.daily.key) && Room(usage, user, l.daily.user))
            && (admission.Admitted? || admission.DailyRefused?)
            && Q.Used(after, other) == Q.Used(usage, other)
               + (if admission.Admitted? && ((other == key && l.daily.key > 0) || (other == user && l.daily.user > 0)) then 1 else 0)
  {
    hide Q.Add, Q.Check, Q.Validate, Q.Used, Q.Counts;
    var entries := l.DailyEntries(who);
    assert forall i :: 0 <= i < |entries| ==> Q.ValidEntry(entries[i]);
    Q.ReservedExactly(usage, day, entries);
    Q.AllOrNothing(usage, day, entries, other);
    EntriesCount(l, who, day, other);
  }

  /** A refusal for the day names the key before the user, with the limit and the count it is at. */
  lemma DailyNames(l: Limiter, usage: map<Q.DailyKey, int>, who: M.Identity, day: int)
    requires who.key != "" && who.user != "" && l.Daily(usage, who, day, false).1.DailyRefused?
    ensures var key, user := Q.DailyKey(day, Q.KeyScope, who.key), Q.DailyKey(day, Q.UserScope, who.user);
            var entry := if !Room(usage, key, l.daily.key) then Q.Entry(Q.KeyScope, who.key, l.daily.key) else Q.Entry(Q.UserScope, who.user, l.daily.user);
            var current := Q.Used(usage, Q.KeyOf(day, entry));
            l.Daily(usage, who, day, false).1.verdict == if current >= entry.limit then Q.OverQuota(entry, current) else Q.Overflow
  {
    hide Q.Add, Q.Check, Q.Validate, Q.Used;
    var entries := l.DailyEntries(who);
    assert forall i :: 0 <= i < |entries| ==> Q.ValidEntry(entries[i]);
    Q.ValidateExactly(entries);
    var i := Q.RefusalNamesFirst(usage, day, entries);
    assert i > 0 ==> Q.CheckOne(usage, day, entries[0]) == Q.Reserved;
  }

  lemma EntriesCount(l: Limiter, who: M.Identity, day: int, other: Q.DailyKey)
    ensures var entries := l.DailyEntries(who);
            && (Q.Counts(day, entries, other) <==>
                  (other == Q.DailyKey(day, Q.KeyScope, who.key) && l.daily.key > 0) || (other == Q.DailyKey(day, Q.UserScope, who.user) && l.daily.user > 0))
            && (l.daily.key > 0 ==> |entries| > 0 && entries[0] == Q.Entry(Q.KeyScope, who.key, l.daily.key))
            && (l.daily.user > 0 ==> |entries| > 0 && entries[|entries| - 1] == Q.Entry(Q.UserScope, who.user, l.daily.user))
  {
    var entries := l.DailyEntries(who);
    if l.daily.key > 0 { assert Q.KeyOf(day, entries[0]) == Q.DailyKey(day, Q.KeyScope, who.key); }
    if l.daily.user > 0 { assert Q.KeyOf(day, entries[|entries| - 1]) == Q.DailyKey(day, Q.UserScope, who.user); }
  }

  ghost predicate Positive(flights: map<string, int>) {
    forall id :: id in flights ==> flights[id] > 0
  }

  lemma LeaveUndoesEnter(l: M.Limits, m: M.Meter, id: string)
    requires Positive(m.flights) && id in m.rates
    ensures M.Leave(M.Enter(l, m, id), id).flights == m.flights
  {
    if id in m.flights {
      assert m.flights[id := m.flights[id] + 1][id := m.flights[id]] == m.flights;
    } else {
      assert m.flights[id := 1] - {id} == m.flights;
    }
  }

  lemma RefundUndoesEnter(l: M.Limits, m: M.Meter, id: string)
    requires id in m.rates && m.rates[id].count >= 0
    ensures M.Refund(l, M.Enter(l, m, id), id, m.rates[id].start).rates == m.rates
  {
    assert m.rates[id := m.rates[id].(count := m.rates[id].count + 1)][id := m.rates[id]] == m.rates;
  }

  /** With nothing in between, a rollback undoes its reservation: only the windows have been turned to the present one. */
  lemma RollbackUndoesReserve(c: M.Config, g: M.Gauges, who: M.Identity, window: int)
    requires Positive(g.key.flights) && Positive(g.user.flights) && g.flights >= 0
    requires forall id :: id in g.key.rates ==> g.key.rates[id].count >= 0
    requires forall id :: id in g.user.rates ==> g.user.rates[id].count >= 0
    requires M.Reserve(c, g, who, window).1.None?
    ensures M.Rollback(c, M.Reserve(c, g, who, window).0, who, window)
            == g.(key := M.Activate(g.key, who.key, window), user := M.Activate(g.user, who.user, window))
  {
    var key, user := M.Activate(g.key, who.key, window), M.Activate(g.user, who.user, window);
    LeaveUndoesEnter(c.key, key, who.key);
    LeaveUndoesEnter(c.user, user, who.user);
    RefundUndoesEnter(c.key, key, who.key);
    RefundUndoesEnter(c.user, user, who.user);
    Separately(c.key, M.Enter(c.key, key, who.key), who.key, window);
    Separately(c.user, M.Enter(c.user, user, who.user), who.user, window);
    hide M.Activate, M.Enter, M.Leave, M.Refund, M.RateReached, M.FlightsReached;
  }

  /** A refund touches rates only, and leaving touches flights only. */
  lemma Separately(l: M.Limits, m: M.Meter, id: string, window: int)
    ensures M.Leave(M.Refund(l, m, id, window), id) == M.Meter(M.Refund(l, m, id, window).rates, M.Leave(m, id).flights)
  {
  }
}
