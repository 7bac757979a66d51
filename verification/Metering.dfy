/**
 The counters of internal/limit/limiter.go: requests per window and requests in flight, for the key and
 for the user of a request, and in all. A request is reserved locally, then admitted or rolled back by
 the daily store, and released later; any other requests come in between.
 */
module Metering {
  import opened Text

  /** A limit of zero is no limit. */
  datatype Limits = Limits(perWindow: nat, concurrent: nat)
  datatype Config = Config(key: Limits, user: Limits, concurrent: nat)

  datatype Identity = Identity(key: string, user: string)

  datatype Counter = Counter(start: int, count: int)

  /** The counters of one scope, key or user. */
  datatype Meter = Meter(rates: map<string, Counter>, flights: map<string, int>)
  datatype Gauges = Gauges(key: Meter, user: Meter, flights: int)

  const ZERO := Gauges(Meter(map[], map[]), Meter(map[], map[]), 0)

  datatype Rejection = KeyRate | UserRate | KeyConcurrency | UserConcurrency | GlobalConcurrency

  // ---------------------------------------------------------------- one scope

  /** activeCounter: the counter of the window, starting anew when the window is another one. */
  function Activate(m: Meter, id: string, window: int): (r: Meter)
    ensures id in r.rates && r.rates[id].start == window && r.flights == m.flights
  {
    if id in m.rates && m.rates[id].start == window then m else m.(rates := m.rates[id := Counter(window, 0)])
  }

  /** The window asked for keeps its count or starts at zero, and no other id is touched. */
  lemma ActivateTurns(m: Meter, id: string, window: int)
    ensures var r := Activate(m, id, window);
            && r.rates[id].count == (if id in m.rates && m.rates[id].start == window then m.rates[id].count else 0)
            && r.rates.Keys == m.rates.Keys + {id}
            && forall other :: other in m.rates && other != id ==> r.rates[other] == m.rates[other]
  {
  }

  function Flights(m: Meter, id: string): int {
    if id in m.flights then m.flights[id] else 0
  }

  predicate RateReached(l: Limits, m: Meter, id: string)
    requires id in m.rates
  {
    l.perWindow > 0 && m.rates[id].count >= l.perWindow
  }

  predicate FlightsReached(l: Limits, m: Meter, id: string) {
    l.concurrent > 0 && Flights(m, id) >= l.concurrent
  }

  function Enter(l: Limits, m: Meter, id: string): Meter
    requires id in m.rates
  {
    Meter(if l.perWindow > 0 then m.rates[id := m.rates[id].(count := m.rates[id].count + 1)] else m.rates,
          m.flights[id := Flights(m, id) + 1])
  }

  function Leave(m: Meter, id: string): Meter {
    m.(flights := if Flights(m, id) > 1 then m.flights[id := Flights(m, id) - 1] else m.flights - {id})
  }

  function Refund(l: Limits, m: Meter, id: string, window: int): Meter {
    if l.perWindow > 0 && id in m.rates && m.rates[id].start == window && m.rates[id].count > 0
    then m.(rates := m.rates[id := m.rates[id].(count := m.rates[id].count - 1)]) else m
  }

  // ---------------------------------------------------------------- the three together

  /** The first limit that is reached, in the order they are checked. */
  function Refusal(c: Config, g: Gauges, who: Identity): Option<Rejection>
    requires who.key in g.key.rates && who.user in g.user.rates
  {
    if RateReached(c.key, g.key, who.key) then Some(KeyRate)
    else if RateReached(c.user, g.user, who.user) then Some(UserRate)
    else if FlightsReached(c.key, g.key, who.key) then Some(KeyConcurrency)
    else if FlightsReached(c.user, g.user, who.user) then Some(UserConcurrency)
    else if c.concurrent > 0 && g.flights >= c.concurrent then Some(GlobalConcurrency)
    else None
  }

  /** A refused request has still turned its counters to the present window. */
  function Reserve(c: Config, g: Gauges, who: Identity, window: int): (Gauges, Option<Rejection>) {
    var seen := g.(key := Activate(g.key, who.key, window), user := Activate(g.user, who.user, window));
    var refusal := Refusal(c, seen, who);
    (if refusal.Some? then seen else Gauges(Enter(c.key, seen.key, who.key), Enter(c.user, seen.user, who.user), g.flights + 1), refusal)
  }

  function Release(g: Gauges, who: Identity): Gauges {
    Gauges(Leave(g.key, who.key), Leave(g.user, who.user), if g.flights > 0 then g.flights - 1 else g.flights)
  }

  function Rollback(c: Config, g: Gauges, who: Identity, window: int): Gauges {
    Release(g.(key := Refund(c.key, g.key, who.key, window), user := Refund(c.user, g.user, who.user, window)), who)
  }

  // ---------------------------------------------------------------- interleaved requests

  datatype Ticket = Ticket(who: Identity, window: int)

  /**
   live are the requests reserved and not yet rolled back or released, pending those of them still
   waiting for the daily store, and booked all reservations ever made and not rolled back.
   */
  datatype State = State(gauges: Gauges, live: map<nat, Ticket>, pending: set<nat>, booked: map<nat, Ticket>)

  const INITIAL := State(ZERO, map[], {}, map[])

  datatype Step =
    | ReserveStep(request: nat, ticket: Ticket)
    | AdmitStep(request: nat)
    | RollbackStep(request: nat)
    | ReleaseStep(request: nat)

  function Next(c: Config, s: State, step: Step): State {
    match step
    case ReserveStep(r, t) =>
      if r in s.booked || r in s.live then s
      else
        var (g, rejection) := Reserve(c, s.gauges, t.who, t.window);
        if rejection.Some? then s.(gauges := g)
        else State(g, s.live[r := t], s.pending + {r}, s.booked[r := t])
    case AdmitStep(r) => s.(pending := s.pending - {r})
    case RollbackStep(r) =>
      if r in s.pending && r in s.live
      then State(Rollback(c, s.gauges, s.live[r].who, s.live[r].window), s.live - {r}, s.pending - {r}, s.booked - {r}) else s
    case ReleaseStep(r) =>
      if r in s.live && r !in s.pending then s.(gauges := Release(s.gauges, s.live[r].who), live := s.live - {r}) else s
  }

  function After(c: Config, s: State, steps: seq<Step>): State {
    if steps == [] then s else Next(c, After(c, s, steps[..|steps| - 1]), steps[|steps| - 1])
  }

  function Run(c: Config, steps: seq<Step>): State {
    After(c, INITIAL, steps)
  }

  lemma AfterSnoc(c: Config, s: State, steps: seq<Step>, step: Step)
    ensures After(c, s, steps + [step]) == Next(c, After(c, s, steps), step)
  {
    hide Next;
    var all := steps + [step];
    assert all[..|all| - 1] == steps && all[|all| - 1] == step;
  }

  lemma AfterNothing(c: Config, s: State)
    ensures After(c, s, []) == s
  {
  }

  /** What other requests do leaves a request's own reservation pending. */
  lemma {:induction false} StillPending(c: Config, s: State, steps: seq<Step>, r: nat)
    requires r in s.pending && r in s.live && forall i :: 0 <= i < |steps| ==> steps[i].request != r
    ensures r in After(c, s, steps).pending && r in After(c, s, steps).live
  {
    hide Reserve, Rollback, Release;
    if steps != [] { StillPending(c, s, steps[..|steps| - 1], r); }
  }

  /** The two ways a pending reservation is settled. */
  lemma Settles(c: Config, s: State, r: nat)
    requires r in s.pending && r in s.live
    ensures var admitted, undone := Next(c, s, AdmitStep(r)), Next(c, s, RollbackStep(r));
            && r in admitted.live && r !in admitted.pending && admitted.gauges == s.gauges
            && r !in undone.live && r !in undone.booked && undone.gauges == Rollback(c, s.gauges, s.live[r].who, s.live[r].window)
  {
    hide Rollback;
  }

  lemma {:induction false} AfterConcat(c: Config, s: State, first: seq<Step>, second: seq<Step>)
    ensures After(c, s, first + second) == After(c, After(c, s, first), second)
    decreases |second|
  {
    hide Next;
    if second == [] {
      assert first + second == first;
    } else {
      AfterConcat(c, s, first, second[..|second| - 1]);
      assert (first + second)[..|first + second| - 1] == first + second[..|second| - 1];
    }
  }

  /** Key or user: which counters, which id, which limits. */
  datatype Scope = KeyScope | UserScope

  function MeterOf(scope: Scope, g: Gauges): Meter {
    if scope.KeyScope? then g.key else g.user
  }

  function IdOf(scope: Scope, who: Identity): string {
    if scope.KeyScope? then who.key else who.user
  }

  function LimitsOf(scope: Scope, c: Config): Limits {
    if scope.KeyScope? then c.key else c.user
  }

  // ---------------------------------------------------------------- requests in flight

  function LiveOf(scope: Scope, live: map<nat, Ticket>, id: string): set<nat> {
    set r | r in live && IdOf(scope, live[r].who) == id
  }

  /** Every entry is the number of live requests with that id, with no entry for none. */
  ghost predicate FlightsExact(scope: Scope, live: map<nat, Ticket>, flights: map<string, int>) {
    && (forall id :: id in flights ==> flights[id] == |LiveOf(scope, live, id)| > 0)
    && (forall id :: id !in flights ==> |LiveOf(scope, live, id)| == 0)
  }

  ghost predicate FlightsWithin(scope: Scope, c: Config, flights: map<string, int>) {
    LimitsOf(scope, c).concurrent > 0 ==> forall id :: id in flights ==> flights[id] <= LimitsOf(scope, c).concurrent
  }

  ghost predicate ScopeInv(scope: Scope, c: Config, s: State) {
    var flights := MeterOf(scope, s.gauges).flights;
    FlightsExact(scope, s.live, flights) && FlightsWithin(scope, c, flights)
  }

  ghost predicate FlightInv(c: Config, s: State) {
    && ScopeInv(KeyScope, c, s) && ScopeInv(UserScope, c, s)
    && s.gauges.flights == |s.live| && (c.concurrent > 0 ==> s.gauges.flights <= c.concurrent)
    && (forall r :: r in s.live ==> r in s.booked && s.booked[r] == s.live[r])
  }

  lemma LiveAfterReserve(scope: Scope, live: map<nat, Ticket>, r: nat, t: Ticket, id: string)
    requires r !in live
    ensures |LiveOf(scope, live[r := t], id)| == |LiveOf(scope, live, id)| + if id == IdOf(scope, t.who) then 1 else 0
  {
    if id == IdOf(scope, t.who) {
      assert LiveOf(scope, live[r := t], id) == LiveOf(scope, live, id) + {r};
    } else {
      assert LiveOf(scope, live[r := t], id) == LiveOf(scope, live, id);
    }
  }

  lemma LiveAfterLeaving(scope: Scope, live: map<nat, Ticket>, r: nat, id: string)
    requires r in live
    ensures |LiveOf(scope, live - {r}, id)| == |LiveOf(scope, live, id)| - if id == IdOf(scope, live[r].who) then 1 else 0
  {
    if id == IdOf(scope, live[r].who) {
      assert LiveOf(scope, live, id) == LiveOf(scope, live - {r}, id) + {r};
    } else {
      assert LiveOf(scope, live - {r}, id) == LiveOf(scope, live, id);
    }
  }

  lemma EnterExact(scope: Scope, live: map<nat, Ticket>, r: nat, t: Ticket, l: Limits, m: Meter)
    requires FlightsExact(scope, live, m.flights) && r !in live && IdOf(scope, t.who) in m.rates
    ensures FlightsExact(scope, live[r := t], Enter(l, m, IdOf(scope, t.who)).flights)
  {
    hide LiveOf, IdOf;
    forall id: string { LiveAfterReserve(scope, live, r, t, id); }
  }

  lemma LeaveExact(scope: Scope, live: map<nat, Ticket>, r: nat, m: Meter)
    requires FlightsExact(scope, live, m.flights) && r in live
    ensures FlightsExact(scope, live - {r}, Leave(m, IdOf(scope, live[r].who)).flights)
    ensures Flights(m, IdOf(scope, live[r].who)) >= 1
  {
    hide LiveOf, IdOf;
    forall id: string { LiveAfterLeaving(scope, live, r, id); }
    LiveHasOne(scope, live, r);
  }

  lemma LiveHasOne(scope: Scope, live: map<nat, Ticket>, r: nat)
    requires r in live
    ensures |LiveOf(scope, live, IdOf(scope, live[r].who))| >= 1
  {
    assert r in LiveOf(scope, live, IdOf(scope, live[r].who));
  }

  /** The guards against underflow never fire: what is released or rolled back is there to be counted down. */
  lemma NeverUnderflows(c: Config, s: State, r: nat)
    requires FlightInv(c, s) && r in s.live
    ensures Flights(s.gauges.key, s.live[r].who.key) >= 1 && Flights(s.gauges.user, s.live[r].who.user) >= 1 && s.gauges.flights >= 1
  {
    hide FlightsExact, FlightsWithin;
    LeaveExact(KeyScope, s.live, r, s.gauges.key);
    LeaveExact(UserScope, s.live, r, s.gauges.user);
    assert s.live != map[];
  }

  lemma EnterWithin(scope: Scope, c: Config, m: Meter, id: string)
    requires FlightsWithin(scope, c, m.flights) && id in m.rates && !FlightsReached(LimitsOf(scope, c), m, id)
    ensures FlightsWithin(scope, c, Enter(LimitsOf(scope, c), m, id).flights)
  {
  }

  lemma LeaveWithin(scope: Scope, c: Config, m: Meter, id: string)
    requires FlightsWithin(scope, c, m.flights)
    ensures FlightsWithin(scope, c, Leave(m, id).flights)
  {
  }

  lemma ReserveKeepsFlights(c: Config, s: State, r: nat, t: Ticket)
    requires FlightInv(c, s)
    ensures FlightInv(c, Next(c, s, ReserveStep(r, t)))
  {
    hide FlightsExact, FlightsWithin, Enter, Activate, RateReached, FlightsReached;
    if r !in s.booked && r !in s.live {
      var key, user := Activate(s.gauges.key, t.who.key, t.window), Activate(s.gauges.user, t.who.user, t.window);
      assert key.flights == s.gauges.key.flights && user.flights == s.gauges.user.flights;
      EnterKeeps(KeyScope, c, s.live, r, t, key);
      EnterKeeps(UserScope, c, s.live, r, t, user);
      OneMore(s.live, r, t);
    }
  }

  lemma EnterKeeps(scope: Scope, c: Config, live: map<nat, Ticket>, r: nat, t: Ticket, m: Meter)
    requires FlightsExact(scope, live, m.flights) && FlightsWithin(scope, c, m.flights) && r !in live && IdOf(scope, t.who) in m.rates
    ensures !FlightsReached(LimitsOf(scope, c), m, IdOf(scope, t.who)) ==>
              var n := Enter(LimitsOf(scope, c), m, IdOf(scope, t.who));
              FlightsExact(scope, live[r := t], n.flights) && FlightsWithin(scope, c, n.flights)
  {
    hide FlightsExact, FlightsWithin, Enter, FlightsReached, IdOf;
    EnterExact(scope, live, r, t, LimitsOf(scope, c), m);
    if !FlightsReached(LimitsOf(scope, c), m, IdOf(scope, t.who)) { EnterWithin(scope, c, m, IdOf(scope, t.who)); }
  }

  lemma OneMore<K, V>(m: map<K, V>, k: K, v: V)
    requires k !in m
    ensures |m[k := v]| == |m| + 1
  {
    assert m[k := v].Keys == m.Keys + {k};
    Sizes(m);
    Sizes(m[k := v]);
  }

  lemma Sizes<K, V>(m: map<K, V>)
    ensures |m| == |m.Keys|
  {
  }

  /** Leaving, by release or by rollback, which differ in the rate counters only. */
  lemma LeaveKeepsFlights(c: Config, s: State, r: nat, key: Meter, user: Meter)
    requires FlightInv(c, s) && r in s.live && key.flights == s.gauges.key.flights && user.flights == s.gauges.user.flights
    ensures var g := Release(s.gauges.(key := key, user := user), s.live[r].who);
            && FlightsExact(KeyScope, s.live - {r}, g.key.flights) && FlightsExact(UserScope, s.live - {r}, g.user.flights)
            && FlightsWithin(KeyScope, c, g.key.flights) && FlightsWithin(UserScope, c, g.user.flights)
            && g.flights == |s.live - {r}| == s.gauges.flights - 1
  {
    hide FlightsExact, FlightsWithin, Leave;
    var who := s.live[r].who;
    LeaveExact(KeyScope, s.live, r, key);
    LeaveExact(UserScope, s.live, r, user);
    LeaveWithin(KeyScope, c, key, who.key);
    LeaveWithin(UserScope, c, user, who.user);
    assert s.live.Keys == (s.live - {r}).Keys + {r};
    Sizes(s.live);
    Sizes(s.live - {r});
  }

  lemma NextKeepsFlights(c: Config, s: State, step: Step)
    requires FlightInv(c, s)
    ensures FlightInv(c, Next(c, s, step))
  {
    hide FlightsExact, FlightsWithin, Leave, Reserve;
    match step {
      case ReserveStep(r, t) => ReserveKeepsFlights(c, s, r, t);
      case AdmitStep(_) =>
      case RollbackStep(r) =>
        if r in s.live {
          var t := s.live[r];
          LeaveKeepsFlights(c, s, r, Refund(c.key, s.gauges.key, t.who.key, t.window), Refund(c.user, s.gauges.user, t.who.user, t.window));
        }
      case ReleaseStep(r) => if r in s.live { LeaveKeepsFlights(c, s, r, s.gauges.key, s.gauges.user); }
    }
  }

  lemma {:induction false} AlwaysFlightInv(c: Config, steps: seq<Step>)
    ensures FlightInv(c, Run(c, steps))
  {
    hide FlightInv, Next;
    if steps == [] {
      InitialFlights(c);
    } else {
      AlwaysFlightInv(c, steps[..|steps| - 1]);
      NextKeepsFlights(c, Run(c, steps[..|steps| - 1]), steps[|steps| - 1]);
    }
  }

  lemma InitialFlights(c: Config)
    ensures FlightInv(c, INITIAL)
  {
    forall scope: Scope, id: string ensures LiveOf(scope, map[], id) == {} {
    }
  }

  // ---------------------------------------------------------------- the maps add up

  ghost function Total(flights: map<string, int>): int
    decreases |flights.Keys|
  {
    if flights == map[] then 0
    else
      var id := Pick(flights.Keys);
      assert (flights - {id}).Keys == flights.Keys - {id};
      flights[id] + Total(flights - {id})
  }

  lemma {:induction false} TotalIsLive(scope: Scope, live: map<nat, Ticket>, flights: map<string, int>)
    requires forall id :: id in flights ==> flights[id] == |LiveOf(scope, live, id)|
    requires forall r :: r in live ==> IdOf(scope, live[r].who) in flights
    ensures Total(flights) == |live|
    decreases |flights.Keys|
  {
    hide LiveOf, IdOf;
    if flights == map[] {
      assert forall r :: r !in live;
      assert live == map[];
    } else {
      var id := Pick(flights.Keys);
      assert (flights - {id}).Keys == flights.Keys - {id};
      forall other | other in flights && other != id { Others(scope, live, id, other); }
      Apart(scope, live, id);
      TotalIsLive(scope, live - LiveOf(scope, live, id), flights - {id});
    }
  }

  /** The live requests are those with the id and the others. */
  lemma Apart(scope: Scope, live: map<nat, Ticket>, id: string)
    ensures |live| == |live - LiveOf(scope, live, id)| + |LiveOf(scope, live, id)|
    ensures forall r :: r in live - LiveOf(scope, live, id) ==> r in live && IdOf(scope, live[r].who) != id
  {
    var mine := LiveOf(scope, live, id);
    assert live.Keys == (live - mine).Keys + mine;
    Sizes(live);
    Sizes(live - mine);
  }

  lemma Others(scope: Scope, live: map<nat, Ticket>, id: string, other: string)
    requires other != id
    ensures LiveOf(scope, live - LiveOf(scope, live, id), other) == LiveOf(scope, live, other)
  {
  }

  /**
   Concurrency, after any interleaving of reservations, daily rejections with their rollbacks, and
   releases: each entry is the number of live requests of that key or user, both maps add up to the
   global count, and every configured limit holds.
   */
  lemma FlightsAreExact(c: Config, steps: seq<Step>)
    ensures var s := Run(c, steps);
            && FlightsExact(KeyScope, s.live, s.gauges.key.flights) && FlightsExact(UserScope, s.live, s.gauges.user.flights)
            && s.gauges.flights == |s.live| == Total(s.gauges.key.flights) == Total(s.gauges.user.flights)
            && (c.key.concurrent > 0 ==> forall id :: |LiveOf(KeyScope, s.live, id)| <= c.key.concurrent)
            && (c.user.concurrent > 0 ==> forall id :: |LiveOf(UserScope, s.live, id)| <= c.user.concurrent)
            && (c.concurrent > 0 ==> |s.live| <= c.concurrent)
  {
    hide Run, Total, LiveOf, IdOf;
    AlwaysFlightInv(c, steps);
    var s := Run(c, steps);
    forall r | r in s.live ensures IdOf(KeyScope, s.live[r].who) in s.gauges.key.flights && IdOf(UserScope, s.live[r].who) in s.gauges.user.flights {
      LiveHasOne(KeyScope, s.live, r);
      LiveHasOne(UserScope, s.live, r);
    }
    TotalIsLive(KeyScope, s.live, s.gauges.key.flights);
    TotalIsLive(UserScope, s.live, s.gauges.user.flights);
  }
}
