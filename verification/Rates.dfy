/**
 Requests per window, over every run of the limiter. Windows are read before the lock is taken, so they
 need not arrive in order; what decides whether the limit holds is whether a window is returned to.
 */
module Rates {
  import opened Text
  import opened Sets
  import opened Metering

  /** The bookings of a key or user in a window: reservations made and not rolled back. */
  function BookedIn(scope: Scope, booked: map<nat, Ticket>, id: string, window: int): set<nat> {
    set r | r in booked && IdOf(scope, booked[r].who) == id && booked[r].window == window
  }

  /** The step brings a request of this key or user. */
  predicate For(scope: Scope, step: Step, id: string) {
    step.ReserveStep? && IdOf(scope, step.ticket.who) == id
  }

  predicate Asks(scope: Scope, step: Step, id: string, window: int) {
    For(scope, step, id) && step.ticket.window == window
  }

  /** Once the requests of this key or user have left the window, none of them asks for it again. */
  ghost predicate NoReturn(scope: Scope, steps: seq<Step>, id: string, window: int) {
    forall i, j, k :: 0 <= i < j < k < |steps| && Asks(scope, steps[i], id, window) && For(scope, steps[j], id) && Asks(scope, steps[k], id, window) ==>
      Asks(scope, steps[j], id, window)
  }

  /** The requests of this key or user that ask for the window. */
  function Asking(scope: Scope, steps: seq<Step>, id: string, window: int): set<nat> {
    set i | 0 <= i < |steps| && Asks(scope, steps[i], id, window) :: steps[i].request
  }

  // ---------------------------------------------------------------- one window

  /** If the counter is at the window it counts its bookings, and they are within the limit. */
  ghost predicate RateAt(scope: Scope, limit: nat, booked: map<nat, Ticket>, rates: map<string, Counter>, id: string, window: int) {
    && (BookedIn(scope, booked, id, window) != {} ==> id in rates)
    && (id in rates && rates[id].start == window ==> rates[id].count == |BookedIn(scope, booked, id, window)|)
    && |BookedIn(scope, booked, id, window)| <= limit
  }

  /** A window that has bookings and is not the counter's has been asked for and left. */
  ghost predicate LeftBehind(scope: Scope, steps: seq<Step>, booked: map<nat, Ticket>, rates: map<string, Counter>, id: string, window: int) {
    BookedIn(scope, booked, id, window) != {} ==> id in rates && if rates[id].start == window then Asked(scope, steps, id, window) else Left(scope, steps, id, window)
  }

  ghost predicate Asked(scope: Scope, steps: seq<Step>, id: string, window: int) {
    exists i :: 0 <= i < |steps| && Asks(scope, steps[i], id, window)
  }

  ghost predicate Left(scope: Scope, steps: seq<Step>, id: string, window: int) {
    exists i, j :: 0 <= i < j < |steps| && Asks(scope, steps[i], id, window) && For(scope, steps[j], id) && !Asks(scope, steps[j], id, window)
  }

  lemma BookedAfterReserve(scope: Scope, booked: map<nat, Ticket>, r: nat, t: Ticket, id: string, window: int)
    requires r !in booked
    ensures BookedIn(scope, booked[r := t], id, window)
            == BookedIn(scope, booked, id, window) + if id == IdOf(scope, t.who) && window == t.window then {r} else {}
    ensures r !in BookedIn(scope, booked, id, window)
  {
  }

  lemma BookedAfterRollback(scope: Scope, booked: map<nat, Ticket>, r: nat, id: string, window: int)
    requires r in booked
    ensures BookedIn(scope, booked, id, window)
            == BookedIn(scope, booked - {r}, id, window) + if id == IdOf(scope, booked[r].who) && window == booked[r].window then {r} else {}
    ensures r !in BookedIn(scope, booked - {r}, id, window)
  {
  }

  /** The key step: a window newly turned to has no bookings, unless it was left before. */
  lemma TurnKeepsRate(scope: Scope, limit: nat, booked: map<nat, Ticket>, m: Meter, other: string, to: int, id: string, window: int)
    requires RateAt(scope, limit, booked, m.rates, id, window)
    requires other == id && to == window && id in m.rates && m.rates[id].start != window ==> BookedIn(scope, booked, id, window) == {}
    ensures RateAt(scope, limit, booked, Activate(m, other, to).rates, id, window)
  {
    hide BookedIn;
  }

  lemma EnterKeepsRate(scope: Scope, booked: map<nat, Ticket>, m: Meter, l: Limits, r: nat, t: Ticket, id: string, window: int)
    requires RateAt(scope, l.perWindow, booked, m.rates, id, window) && r !in booked && l.perWindow > 0
    requires var mine := IdOf(scope, t.who); mine in m.rates && m.rates[mine].start == t.window && !RateReached(l, m, mine)
    ensures RateAt(scope, l.perWindow, booked[r := t], Enter(l, m, IdOf(scope, t.who)).rates, id, window)
  {
    hide BookedIn, IdOf;
    BookedAfterReserve(scope, booked, r, t, id, window);
  }

  lemma RefundKeepsRate(scope: Scope, booked: map<nat, Ticket>, m: Meter, l: Limits, r: nat, id: string, window: int)
    requires RateAt(scope, l.perWindow, booked, m.rates, id, window) && r in booked && l.perWindow > 0
    ensures RateAt(scope, l.perWindow, booked - {r}, Refund(l, m, IdOf(scope, booked[r].who), booked[r].window).rates, id, window)
  {
    hide BookedIn, IdOf;
    BookedAfterRollback(scope, booked, r, id, window);
  }

  // ---------------------------------------------------------------- every step

  ghost predicate RateHolds(scope: Scope, c: Config, s: State, id: string, window: int) {
    LimitsOf(scope, c).perWindow > 0 ==> RateAt(scope, LimitsOf(scope, c).perWindow, s.booked, MeterOf(scope, s.gauges).rates, id, window)
  }

  lemma ReserveKeepsRate(scope: Scope, c: Config, s: State, r: nat, t: Ticket, id: string, window: int)
    requires RateHolds(scope, c, s, id, window)
    requires var rates := MeterOf(scope, s.gauges).rates;
             IdOf(scope, t.who) == id && t.window == window && id in rates && rates[id].start != window ==> BookedIn(scope, s.booked, id, window) == {}
    ensures RateHolds(scope, c, Next(c, s, ReserveStep(r, t)), id, window)
  {
    hide RateAt, Activate, Enter, RateReached, FlightsReached, BookedIn;
    var l, m, mine := LimitsOf(scope, c), MeterOf(scope, s.gauges), IdOf(scope, t.who);
    if l.perWindow > 0 && r !in s.booked && r !in s.live {
      TurnKeepsRate(scope, l.perWindow, s.booked, m, mine, t.window, id, window);
      if Reserve(c, s.gauges, t.who, t.window).1.None? {
        EnterKeepsRate(scope, s.booked, Activate(m, mine, t.window), l, r, t, id, window);
      }
    }
  }

  lemma OtherStepsKeepRate(scope: Scope, c: Config, s: State, step: Step, id: string, window: int)
    requires FlightInv(c, s) && RateHolds(scope, c, s, id, window) && !step.ReserveStep?
    ensures RateHolds(scope, c, Next(c, s, step), id, window)
  {
    hide RateAt, Refund, FlightsExact, FlightsWithin;
    if step.RollbackStep? && step.request in s.live && LimitsOf(scope, c).perWindow > 0 {
      RefundKeepsRate(scope, s.booked, MeterOf(scope, s.gauges), LimitsOf(scope, c), step.request, id, window);
    }
  }

  /** A counter's window changes only to that of a request that comes. */
  lemma StepTurns(scope: Scope, c: Config, s: State, step: Step, id: string)
    ensures var rates, next := MeterOf(scope, s.gauges).rates, MeterOf(scope, Next(c, s, step).gauges).rates;
            && (id in rates ==> id in next)
            && (id in next ==> (id in rates && next[id].start == rates[id].start) || (For(scope, step, id) && next[id].start == step.ticket.window))
  {
    hide RateReached, FlightsReached, Flights;
  }

  /** Bookings are added only by a request that comes, in the window it asks for, which is then the counter's. */
  lemma StepBooks(scope: Scope, c: Config, s: State, step: Step, id: string, window: int)
    ensures var next := Next(c, s, step);
            BookedIn(scope, next.booked, id, window) <= BookedIn(scope, s.booked, id, window)
            || (Asks(scope, step, id, window)
                && BookedIn(scope, next.booked, id, window) <= BookedIn(scope, s.booked, id, window) + {step.request}
                && id in MeterOf(scope, next.gauges).rates && MeterOf(scope, next.gauges).rates[id].start == window)
  {
    hide Refusal, Flights, Leave, Refund;
  }

  lemma LeftBehindStep(scope: Scope, c: Config, steps: seq<Step>, step: Step, s: State, id: string, window: int)
    requires LeftBehind(scope, steps, s.booked, MeterOf(scope, s.gauges).rates, id, window)
    ensures var next := Next(c, s, step);
            LeftBehind(scope, steps + [step], next.booked, MeterOf(scope, next.gauges).rates, id, window)
  {
    hide Next, BookedIn, For;
    var next, all := Next(c, s, step), steps + [step];
    StepTurns(scope, c, s, step, id);
    StepBooks(scope, c, s, step, id, window);
    assert all[|steps|] == step;
    assert forall i :: 0 <= i < |steps| ==> all[i] == steps[i];
    if Asks(scope, step, id, window) { assert Asked(scope, all, id, window); }
  }

  /** A request that turns the counter to a window nobody returns to finds no bookings there. */
  lemma TurnsToEmpty(scope: Scope, steps: seq<Step>, step: Step, booked: map<nat, Ticket>, rates: map<string, Counter>, id: string, window: int)
    requires NoReturn(scope, steps + [step], id, window) && LeftBehind(scope, steps, booked, rates, id, window)
    requires Asks(scope, step, id, window) && id in rates && rates[id].start != window
    ensures BookedIn(scope, booked, id, window) == {}
  {
    hide BookedIn, For;
    var all := steps + [step];
    forall i, j | 0 <= i < j < |steps| && Asks(scope, steps[i], id, window) && For(scope, steps[j], id) ensures Asks(scope, steps[j], id, window) {
      assert all[i] == steps[i] && all[j] == steps[j] && all[|steps|] == step;
    }
  }

  lemma {:induction false} AlwaysRate(scope: Scope, c: Config, steps: seq<Step>, id: string, window: int)
    ensures LeftBehind(scope, steps, Run(c, steps).booked, MeterOf(scope, Run(c, steps).gauges).rates, id, window)
    ensures NoReturn(scope, steps, id, window) ==> RateHolds(scope, c, Run(c, steps), id, window)
  {
    hide RateHolds, LeftBehind, NoReturn, Next, FlightInv, For;
    if steps == [] {
      InitialRate(scope, c, id, window);
    } else {
      var rest, step := steps[..|steps| - 1], steps[|steps| - 1];
      var s := Run(c, rest);
      assert steps == rest + [step];
      AlwaysRate(scope, c, rest, id, window);
      LeftBehindStep(scope, c, rest, step, s, id, window);
      if NoReturn(scope, steps, id, window) {
        NoReturnBefore(scope, rest, step, id, window);
        StepKeepsRate(scope, c, rest, step, s, id, window);
      }
    }
  }

  lemma NoReturnBefore(scope: Scope, steps: seq<Step>, step: Step, id: string, window: int)
    requires NoReturn(scope, steps + [step], id, window)
    ensures NoReturn(scope, steps, id, window)
  {
    hide Asks, For;
    var all := steps + [step];
    assert forall i :: 0 <= i < |steps| ==> all[i] == steps[i];
  }

  lemma StepKeepsRate(scope: Scope, c: Config, steps: seq<Step>, step: Step, s: State, id: string, window: int)
    requires s == Run(c, steps) && NoReturn(scope, steps + [step], id, window) && RateHolds(scope, c, s, id, window)
    requires LeftBehind(scope, steps, s.booked, MeterOf(scope, s.gauges).rates, id, window)
    ensures RateHolds(scope, c, Next(c, s, step), id, window)
  {
    hide Run, Next, RateHolds, LeftBehind, NoReturn, BookedIn;
    AlwaysFlightInv(c, steps);
    if step.ReserveStep? {
      var rates := MeterOf(scope, s.gauges).rates;
      if Asks(scope, step, id, window) && id in rates && rates[id].start != window {
        TurnsToEmpty(scope, steps, step, s.booked, rates, id, window);
      }
      ReserveKeepsRate(scope, c, s, step.request, step.ticket, id, window);
    } else {
      OtherStepsKeepRate(scope, c, s, step, id, window);
    }
  }

  lemma InitialRate(scope: Scope, c: Config, id: string, window: int)
    ensures RateHolds(scope, c, INITIAL, id, window)
    ensures LeftBehind(scope, [], INITIAL.booked, MeterOf(scope, INITIAL.gauges).rates, id, window)
  {
    assert BookedIn(scope, map[], id, window) == {};
  }

  lemma {:induction false} BookedAsked(scope: Scope, c: Config, steps: seq<Step>, id: string, window: int)
    ensures BookedIn(scope, Run(c, steps).booked, id, window) <= Asking(scope, steps, id, window)
  {
    if steps == [] {
      assert BookedIn(scope, map[], id, window) == {};
    } else {
      hide Next, BookedIn, Asks;
      var rest, step := steps[..|steps| - 1], steps[|steps| - 1];
      BookedAsked(scope, c, rest, id, window);
      StepBooks(scope, c, Run(c, rest), step, id, window);
      assert forall i :: 0 <= i < |rest| ==> rest[i] == steps[i];
    }
  }

  /**
   After any interleaving of reservations, rollbacks and releases: a window that is not returned to, or
   that no more requests ask for than the limit, holds no more bookings than the limit; and if it is not
   returned to, the counter is exact while it is at that window.
   */
  lemma LimitHolds(scope: Scope, c: Config, steps: seq<Step>, id: string, window: int)
    requires LimitsOf(scope, c).perWindow > 0
    requires NoReturn(scope, steps, id, window) || |Asking(scope, steps, id, window)| <= LimitsOf(scope, c).perWindow
    ensures var s := Run(c, steps);
            && |BookedIn(scope, s.booked, id, window)| <= LimitsOf(scope, c).perWindow
            && (NoReturn(scope, steps, id, window) && id in MeterOf(scope, s.gauges).rates && MeterOf(scope, s.gauges).rates[id].start == window ==>
                  MeterOf(scope, s.gauges).rates[id].count == |BookedIn(scope, s.booked, id, window)|)
  {
    hide Run, BookedIn, NoReturn, Asking;
    AlwaysRate(scope, c, steps, id, window);
    BookedAsked(scope, c, steps, id, window);
    SubsetSize(BookedIn(scope, Run(c, steps).booked, id, window), Asking(scope, steps, id, window));
  }

  // ---------------------------------------------------------------- who is refused, and why

  /** The first limit reached, in the order they are checked, told by the requests themselves. */
  ghost function FirstReached(c: Config, s: State, t: Ticket): Option<Rejection> {
    if c.key.perWindow > 0 && |BookedIn(KeyScope, s.booked, t.who.key, t.window)| >= c.key.perWindow then Some(KeyRate)
    else if c.user.perWindow > 0 && |BookedIn(UserScope, s.booked, t.who.user, t.window)| >= c.user.perWindow then Some(UserRate)
    else if c.key.concurrent > 0 && |LiveOf(KeyScope, s.live, t.who.key)| >= c.key.concurrent then Some(KeyConcurrency)
    else if c.user.concurrent > 0 && |LiveOf(UserScope, s.live, t.who.user)| >= c.user.concurrent then Some(UserConcurrency)
    else if c.concurrent > 0 && |s.live| >= c.concurrent then Some(GlobalConcurrency)
    else None
  }

  /** At the turn of the counter its count is the number of bookings in the window. */
  lemma CountAtTurn(scope: Scope, c: Config, steps: seq<Step>, step: Step, id: string, window: int)
    requires Asks(scope, step, id, window) && NoReturn(scope, steps + [step], id, window) && LimitsOf(scope, c).perWindow > 0
    ensures var s := Run(c, steps);
            Activate(MeterOf(scope, s.gauges), id, window).rates[id].count == |BookedIn(scope, s.booked, id, window)|
  {
    hide Run, NoReturn, BookedIn, LeftBehind, Asks;
    var s := Run(c, steps);
    var m := MeterOf(scope, s.gauges);
    AlwaysRate(scope, c, steps, id, window);
    NoReturnBefore(scope, steps, step, id, window);
    ActivateTurns(m, id, window);
    if id in m.rates && m.rates[id].start != window {
      TurnsToEmpty(scope, steps, step, s.booked, m.rates, id, window);
    }
  }

  lemma FlightsAre(scope: Scope, live: map<nat, Ticket>, m: Meter, id: string)
    requires FlightsExact(scope, live, m.flights)
    ensures Flights(m, id) == |LiveOf(scope, live, id)|
  {
  }

  /**
   After any run in which the clock does not return to the window: a request is refused exactly if as many
   requests of its key or user as the limit allows are booked in the window, or in flight, or in flight in all;
   and the refusal names the first such limit.
   */
  lemma RefusedExactly(c: Config, steps: seq<Step>, r: nat, t: Ticket)
    requires NoReturn(KeyScope, steps + [ReserveStep(r, t)], t.who.key, t.window)
    requires NoReturn(UserScope, steps + [ReserveStep(r, t)], t.who.user, t.window)
    ensures var s := Run(c, steps); Reserve(c, s.gauges, t.who, t.window).1 == FirstReached(c, s, t)
  {
    hide Run, NoReturn, BookedIn, FlightsExact, FlightsWithin, LiveOf, Flights;
    var s, step := Run(c, steps), ReserveStep(r, t);
    AlwaysFlightInv(c, steps);
    if c.key.perWindow > 0 { CountAtTurn(KeyScope, c, steps, step, t.who.key, t.window); }
    if c.user.perWindow > 0 { CountAtTurn(UserScope, c, steps, step, t.who.user, t.window); }
    FlightsAre(KeyScope, s.live, Activate(s.gauges.key, t.who.key, t.window), t.who.key);
    FlightsAre(UserScope, s.live, Activate(s.gauges.user, t.who.user, t.window), t.who.user);
  }

  // ---------------------------------------------------------------- exactly when

  /** Requests of one identity, each new, arriving in the windows given. */
  function Arrive(who: Identity, windows: seq<int>): (steps: seq<Step>)
    ensures |steps| == |windows| && forall i :: 0 <= i < |windows| ==> steps[i] == ReserveStep(i, Ticket(who, windows[i]))
  {
    seq(|windows|, i requires 0 <= i < |windows| => ReserveStep(i, Ticket(who, windows[i])))
  }

  /** A configuration whose only limit is the one per window. */
  function Only(scope: Scope, limit: nat): Config {
    if scope.KeyScope? then Config(Limits(limit, 0), Limits(0, 0), 0) else Config(Limits(0, 0), Limits(limit, 0), 0)
  }

  /** How many requests in a row, up to this one, asked for its window. */
  function Visit(windows: seq<int>, n: nat): (length: nat)
    requires n < |windows|
    ensures 1 <= length <= n + 1
  {
    if n == 0 || windows[n - 1] != windows[n] then 1 else Visit(windows, n - 1) + 1
  }

  function Admitted(windows: seq<int>, limit: nat): set<nat> {
    set n: nat | n < |windows| && Visit(windows, n) <= limit
  }

  lemma {:induction false} VisitPrefix(windows: seq<int>, m: nat, n: nat)
    requires n < m <= |windows|
    ensures Visit(windows[..m], n) == Visit(windows, n)
  {
    if n > 0 { VisitPrefix(windows, m, n - 1); }
  }

  lemma VisitSnoc(windows: seq<int>, w: int)
    ensures forall n :: 0 <= n < |windows| ==> Visit(windows + [w], n) == Visit(windows, n)
    ensures Visit(windows + [w], |windows|) == if windows == [] || windows[|windows| - 1] != w then 1 else Visit(windows, |windows| - 1) + 1
  {
    var all := windows + [w];
    assert all[..|windows|] == windows;
    forall n | 0 <= n < |windows| ensures Visit(all, n) == Visit(windows, n) { VisitPrefix(all, |windows|, n); }
  }

  /** The limiter's state after such arrivals, in closed form. */
  ghost predicate Settled(scope: Scope, limit: nat, who: Identity, windows: seq<int>, s: State) {
    var rates, id := MeterOf(scope, s.gauges).rates, IdOf(scope, who);
    && (windows != [] ==> id in rates && rates[id] == Counter(windows[|windows| - 1], Least(Visit(windows, |windows| - 1), limit)))
    && (windows == [] ==> id !in rates)
    && s.booked == (map n | n in Admitted(windows, limit) :: Ticket(who, windows[n]))
    && s.live == s.booked
  }

  function Least(a: nat, b: nat): nat {
    if a < b then a else b
  }

  lemma ArriveSnoc(who: Identity, windows: seq<int>, w: int)
    ensures Arrive(who, windows + [w]) == Arrive(who, windows) + [ReserveStep(|windows|, Ticket(who, w))]
  {
  }

  /** With no other limit, a request is admitted exactly if its window's count is below the limit. */
  lemma AdmittedExactly(scope: Scope, limit: nat, g: Gauges, who: Identity, window: int)
    requires limit > 0
    ensures var (after, refusal) := Reserve(Only(scope, limit), g, who, window);
            var m, id := MeterOf(scope, g), IdOf(scope, who);
            var count := if id in m.rates && m.rates[id].start == window then m.rates[id].count else 0;
            && (refusal.None? <==> count < limit)
            && id in MeterOf(scope, after).rates
            && MeterOf(scope, after).rates[id] == Counter(window, if count < limit then count + 1 else count)
  {
    hide Flights;
  }

  lemma SettledStep(scope: Scope, limit: nat, who: Identity, windows: seq<int>, w: int, s: State)
    requires limit > 0 && Settled(scope, limit, who, windows, s)
    ensures Settled(scope, limit, who, windows + [w], Next(Only(scope, limit), s, ReserveStep(|windows|, Ticket(who, w))))
  {
    hide Reserve, Visit, IdOf, MeterOf;
    var all, t := windows + [w], Ticket(who, w);
    var next := Next(Only(scope, limit), s, ReserveStep(|windows|, t));
    AdmittedExactly(scope, limit, s.gauges, who, w);
    VisitSnoc(windows, w);
    assert Admitted(all, limit) == Admitted(windows, limit) + if Visit(all, |windows|) <= limit then {|windows|} else {};
    assert |windows| !in s.booked && |windows| !in s.live;
    var rates, id := MeterOf(scope, s.gauges).rates, IdOf(scope, who);
    var count := if id in rates && rates[id].start == w then rates[id].count else 0;
    assert count < limit <==> Visit(all, |windows|) <= limit;
    assert Reserve(Only(scope, limit), s.gauges, who, w).1.None? <==> count < limit;
    assert t.who == who && t.window == w;
    if count < limit {
      assert next.booked == s.booked[|windows| := t];
    } else {
      assert next.booked == s.booked;
    }
    assert next.booked == if Visit(all, |windows|) <= limit then s.booked[|windows| := t] else s.booked;
  }

  lemma {:induction false} ArrivalsSettle(scope: Scope, limit: nat, who: Identity, windows: seq<int>)
    requires limit > 0
    ensures Settled(scope, limit, who, windows, Run(Only(scope, limit), Arrive(who, windows)))
  {
    if windows == [] {
      assert Admitted(windows, limit) == {};
    } else {
      hide Settled, Next;
      var rest, w := windows[..|windows| - 1], windows[|windows| - 1];
      assert windows == rest + [w];
      ArrivalsSettle(scope, limit, who, rest);
      ArriveSnoc(who, rest, w);
      AfterSnoc(Only(scope, limit), INITIAL, Arrive(who, rest), ReserveStep(|rest|, Ticket(who, w)));
      SettledStep(scope, limit, who, rest, w, Run(Only(scope, limit), Arrive(who, rest)));
    }
  }

  /** The requests from the start of a visit on ask for its window, and are numbered from one. */
  lemma {:induction false} VisitSpan(windows: seq<int>, n: nat)
    requires n < |windows|
    ensures var start := n + 1 - Visit(windows, n);
            forall q :: start <= q <= n ==> windows[q] == windows[n] && Visit(windows, q) == q - start + 1
  {
    if n > 0 && windows[n - 1] == windows[n] { VisitSpan(windows, n - 1); }
  }

  function At(windows: seq<int>, w: int): set<nat> {
    set n: nat | n < |windows| && windows[n] == w
  }

  function AdmittedAt(windows: seq<int>, limit: nat, w: int): set<nat> {
    set n: nat | n < |windows| && windows[n] == w && Visit(windows, n) <= limit
  }

  /** The first request of a visit is admitted. */
  lemma VisitOpens(windows: seq<int>, limit: nat, n: nat) returns (start: nat)
    requires n < |windows| && limit > 0
    ensures start <= n && start in AdmittedAt(windows, limit, windows[n]) && forall q :: start <= q <= n ==> windows[q] == windows[n]
  {
    VisitSpan(windows, n);
    start := n + 1 - Visit(windows, n);
  }

  /** A visit longer than the limit fills it, and any other visit to the window adds to that. */
  lemma TwoVisitsExceed(windows: seq<int>, limit: nat, w: int, i: nat, j: nat, k: nat, n: nat)
    requires limit > 0 && i < j < k < |windows| && windows[i] == w == windows[k] && windows[j] != w
    requires n < |windows| && windows[n] == w && Visit(windows, n) > limit
    ensures |AdmittedAt(windows, limit, w)| > limit
  {
    hide Visit;
    VisitSpan(windows, n);
    var start := n + 1 - Visit(windows, n);
    var full := Interval(start, limit);
    IntervalSize(start, limit);
    assert full <= AdmittedAt(windows, limit, w);
    var other := VisitOpens(windows, limit, if j < start then i else k);
    assert other !in full;
    SubsetSize<int>(full + {other}, AdmittedAt(windows, limit, w));
  }

  ghost predicate Returns(windows: seq<int>, w: int) {
    exists i, j, k :: 0 <= i < j < k < |windows| && windows[i] == w == windows[k] && windows[j] != w
  }

  lemma ReturnExceeds(windows: seq<int>, limit: nat, w: int)
    requires limit > 0 && Returns(windows, w) && |At(windows, w)| > limit
    ensures |AdmittedAt(windows, limit, w)| > limit
  {
    hide Visit;
    var i, j, k :| 0 <= i < j < k < |windows| && windows[i] == w == windows[k] && windows[j] != w;
    if n: nat :| n < |windows| && windows[n] == w && Visit(windows, n) > limit {
      TwoVisitsExceed(windows, limit, w, i, j, k, n);
    } else {
      assert AdmittedAt(windows, limit, w) == At(windows, w);
    }
  }

  lemma ArrivalTerms(scope: Scope, limit: nat, who: Identity, windows: seq<int>, w: int)
    requires limit > 0
    ensures var steps, id := Arrive(who, windows), IdOf(scope, who);
            && BookedIn(scope, Run(Only(scope, limit), steps).booked, id, w) == AdmittedAt(windows, limit, w)
            && Asking(scope, steps, id, w) == At(windows, w)
            && (NoReturn(scope, steps, id, w) <==> !Returns(windows, w))
  {
    hide Visit, Run;
    ArrivalsSettle(scope, limit, who, windows);
    var steps, id := Arrive(who, windows), IdOf(scope, who);
    assert forall i :: 0 <= i < |steps| ==> For(scope, steps[i], id) && (Asks(scope, steps[i], id, w) <==> windows[i] == w) && steps[i].request == i;
    forall n | n in At(windows, w) ensures n in Asking(scope, steps, id, w) { assert Asks(scope, steps[n], id, w) && steps[n].request == n; }
    if Returns(windows, w) {
      var i, j, k :| 0 <= i < j < k < |windows| && windows[i] == w == windows[k] && windows[j] != w;
      assert Asks(scope, steps[i], id, w) && For(scope, steps[j], id) && Asks(scope, steps[k], id, w) && !Asks(scope, steps[j], id, w);
    }
  }

  /**
   The exact condition, for every limit and every sequence of windows in which new requests arrive: the
   bookings of a window stay within the limit if and only if the window is never returned to, or no more
   requests ask for it than the limit.
   */
  lemma LimitHoldsExactly(scope: Scope, limit: nat, who: Identity, windows: seq<int>, w: int)
    requires limit > 0
    ensures var steps, id := Arrive(who, windows), IdOf(scope, who);
            |BookedIn(scope, Run(Only(scope, limit), steps).booked, id, w)| <= limit
            <==> NoReturn(scope, steps, id, w) || |Asking(scope, steps, id, w)| <= limit
  {
    hide BookedIn, NoReturn, Asking, Run, At, AdmittedAt;
    var steps, id := Arrive(who, windows), IdOf(scope, who);
    ArrivalTerms(scope, limit, who, windows, w);
    if NoReturn(scope, steps, id, w) || |Asking(scope, steps, id, w)| <= limit {
      LimitHolds(scope, Only(scope, limit), steps, id, w);
    } else {
      ReturnExceeds(windows, limit, w);
    }
  }

  /** Under a limit of one: one booking in every window if and only if no window is ever returned to. */
  lemma OneEachExactly(scope: Scope, who: Identity, windows: seq<int>)
    ensures var steps, id := Arrive(who, windows), IdOf(scope, who);
            (forall w :: |BookedIn(scope, Run(Only(scope, 1), steps).booked, id, w)| <= 1) <==> forall w :: NoReturn(scope, steps, id, w)
  {
    hide BookedIn, NoReturn, Asking, Run;
    var steps, id := Arrive(who, windows), IdOf(scope, who);
    forall w ensures |BookedIn(scope, Run(Only(scope, 1), steps).booked, id, w)| <= 1 <==> NoReturn(scope, steps, id, w) {
      LimitHoldsExactly(scope, 1, who, windows, w);
      ArrivalTerms(scope, 1, who, windows, w);
      if Returns(windows, w) { AskedTwice(windows, w); }
    }
  }

  lemma AskedTwice(windows: seq<int>, w: int)
    requires Returns(windows, w)
    ensures |At(windows, w)| > 1
  {
    var i, j, k :| 0 <= i < j < k < |windows| && windows[i] == w == windows[k] && windows[j] != w;
    SubsetSize<int>({i, k}, At(windows, w));
  }

  /** A late request that returns to a window just left passes a limit of one there. */
  lemma LateRequestPassesLimit(scope: Scope, who: Identity, w: int, other: int)
    requires w != other
    ensures |BookedIn(scope, Run(Only(scope, 1), Arrive(who, [w, other, w])).booked, IdOf(scope, who), w)| > 1
  {
    hide BookedIn, NoReturn, Asking, Run;
    var windows := [w, other, w];
    assert windows[0] == w == windows[2] && windows[1] != w;
    assert Returns(windows, w);
    AskedTwice(windows, w);
    ArrivalTerms(scope, 1, who, windows, w);
    LimitHoldsExactly(scope, 1, who, windows, w);
  }

  /** Going back is not the trouble, returning is: arrivals that never return keep the limit in any order. */
  lemma BackwardsIsFine(scope: Scope, limit: nat, who: Identity, windows: seq<int>, w: int)
    requires limit > 0 && forall i, j :: 0 <= i < j < |windows| ==> windows[i] > windows[j]
    ensures |BookedIn(scope, Run(Only(scope, limit), Arrive(who, windows)).booked, IdOf(scope, who), w)| <= limit
  {
    hide BookedIn, NoReturn, Asking, Run;
    ArrivalTerms(scope, limit, who, windows, w);
    assert !Returns(windows, w);
    LimitHoldsExactly(scope, limit, who, windows, w);
  }

  /** The windows of this key or user never go back. */
  ghost predicate InOrder(scope: Scope, steps: seq<Step>, id: string) {
    forall i, j :: 0 <= i < j < |steps| && For(scope, steps[i], id) && For(scope, steps[j], id) ==> steps[i].ticket.window <= steps[j].ticket.window
  }

  /** In particular, with windows in order every counter is exact and every window is within the limit. */
  lemma RatesAreExact(scope: Scope, c: Config, steps: seq<Step>, id: string, window: int)
    requires InOrder(scope, steps, id) && LimitsOf(scope, c).perWindow > 0
    ensures var s := Run(c, steps);
            && |BookedIn(scope, s.booked, id, window)| <= LimitsOf(scope, c).perWindow
            && (id in MeterOf(scope, s.gauges).rates && MeterOf(scope, s.gauges).rates[id].start == window ==>
                  MeterOf(scope, s.gauges).rates[id].count == |BookedIn(scope, s.booked, id, window)|)
  {
    hide Run, BookedIn;
    assert NoReturn(scope, steps, id, window);
    LimitHolds(scope, c, steps, id, window);
  }
}
