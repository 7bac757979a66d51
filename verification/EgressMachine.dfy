/**
 Every run of the egress runtime: install, prune, tunnel and probe steps in any order, with a controller
 whose failed apply may or may not have taken effect.
 */
module EgressMachine {
  import opened Text
  import opened Egress
  import opened Sets

  datatype Route = Route(token: string, key: string)

  /** A tunnel or probe in flight: the node revision it holds and the listener it dialled. */
  datatype Hold = Hold(key: string, listener: Listener)

  datatype State = State(
    nodes: map<string, Entry>, desired: set<string>, routes: map<string, Route>,
    ready: bool, version: int, fingerprint: string, last: Option<Snapshot>,
    config: map<string, Listener>, holds: multiset<Hold>)

  const INITIAL := State(map[], {}, map[], false, 0, "", None, map[], multiset{})

  datatype ApplyOutcome = Applied | FailedApplied | FailedUnapplied

  /** One attempt to configure the controller; dead are the ports whose probe would fail. */
  datatype Attempt = Attempt(marshals: bool, outcome: ApplyOutcome, dead: set<int>)

  datatype Step =
    | InstallStep(snapshot: Snapshot, forward: Attempt, back: Attempt)
    | PruneStep(attempt: Attempt)
    | TunnelStep(route: string, token: string)
    | ProbeStep(key: string)
    | CloseStep(hold: Hold)

  datatype Verdict = Installed | AlreadyInstalled | InvalidSnapshot | StaleSnapshot | VersionConflict | NodeConflict | Capacity | ApplyFailed

  function Listeners(nodes: map<string, Entry>): map<string, Listener> {
    map k | k in nodes :: nodes[k].listener
  }

  function RouteMap(routes: seq<RouteSpec>): map<string, Route> {
    if routes == [] then map[]
    else
      var last := routes[|routes| - 1];
      RouteMap(routes[..|routes| - 1])[last.id := Route(last.token, RouteKey(last))]
  }

  function NewPorts(was: map<string, Entry>, candidate: map<string, Entry>): set<int> {
    set k | k in candidate && k !in was :: candidate[k].listener.port
  }

  /** Applies the nodes and probes the ports: the controller's new configuration, and whether all went well. */
  function Push(config: map<string, Listener>, nodes: map<string, Entry>, ports: set<int>, a: Attempt): (map<string, Listener>, bool) {
    if !a.marshals then (config, false)
    else (if a.outcome.FailedUnapplied? then config else Listeners(nodes), a.outcome.Applied? && ports !! a.dead)
  }

  function Commit(digest: Snapshot -> string, s: State, snapshot: Snapshot, candidate: map<string, Entry>, desired: set<string>, config: map<string, Listener>): State {
    s.(nodes := candidate, desired := desired, routes := RouteMap(snapshot.routes), ready := true, version := snapshot.version,
       fingerprint := digest(snapshot), last := Some(snapshot), config := config)
  }

  function Swap(digest: Snapshot -> string, s: State, snapshot: Snapshot, plan: Plan, forward: Attempt, back: Attempt): (State, Verdict)
    requires plan.Plan?
  {
    var (config, ok) := Push(s.config, plan.candidate, NewPorts(s.nodes, plan.candidate), forward);
    if ok then (Commit(digest, s, snapshot, plan.candidate, plan.desired, config), Installed)
    else
      var (rolledBack, restored) := Push(config, s.nodes, Ports(s.nodes), back);
      (s.(ready := s.ready && restored, config := rolledBack), ApplyFailed)
  }

  ghost function Install(tokens: string -> string, digest: Snapshot -> string, s: State, snapshot: Snapshot, forward: Attempt, back: Attempt): (State, Verdict) {
    if !Acceptable(tokens, snapshot) then (s, InvalidSnapshot)
    else if snapshot.version < s.version then (s, StaleSnapshot)
    else if snapshot.version == s.version && s.ready then
      (s, if digest(snapshot) != s.fingerprint then VersionConflict else AlreadyInstalled)
    else
      match PlanNodes(s.nodes, snapshot.nodes)
      case RevisionConflict => (s, NodeConflict)
      case NoCapacity => (s, Capacity)
      case Plan(candidate, used, desired) => Swap(digest, s, snapshot, Plan(candidate, used, desired), forward, back)
  }

  function Needed(s: State): map<string, Entry> {
    map k | k in s.nodes && (k in s.desired || s.nodes[k].active > 0) :: s.nodes[k]
  }

  function Prune(s: State, a: Attempt): State {
    var keep := Needed(s);
    if !s.ready || |keep| == |s.nodes| || !a.marshals then s
    else s.(nodes := if a.outcome.Applied? then keep else s.nodes, config := if a.outcome.FailedUnapplied? then s.config else Listeners(keep))
  }

  function HoldNode(s: State, key: string): State
    requires key in s.nodes
  {
    var e := s.nodes[key];
    s.(nodes := s.nodes[key := e.(active := e.active + 1)], holds := s.holds + multiset{Hold(key, e.listener)})
  }

  predicate RouteAvailable(s: State, route: string, token: string) {
    s.ready && route in s.routes && s.routes[route].token == token && s.routes[route].key in s.nodes
  }

  predicate ProbeAvailable(s: State, key: string) {
    s.ready && key in s.nodes && key in s.desired
  }

  function Release(s: State, h: Hold): State
    requires h.key in s.nodes
  {
    var e := s.nodes[h.key];
    s.(nodes := s.nodes[h.key := e.(active := e.active - 1)], holds := s.holds - multiset{h})
  }

  ghost function Next(tokens: string -> string, digest: Snapshot -> string, s: State, step: Step): State {
    match step
    case InstallStep(snapshot, forward, back) => Install(tokens, digest, s, snapshot, forward, back).0
    case PruneStep(a) => Prune(s, a)
    case TunnelStep(route, token) => if RouteAvailable(s, route, token) then HoldNode(s, s.routes[route].key) else s
    case ProbeStep(key) => if ProbeAvailable(s, key) then HoldNode(s, key) else s
    case CloseStep(h) => if h in s.holds && h.key in s.nodes then Release(s, h) else s
  }

  ghost function Run(tokens: string -> string, digest: Snapshot -> string, steps: seq<Step>): State {
    if steps == [] then INITIAL
    else Next(tokens, digest, Run(tokens, digest, steps[..|steps| - 1]), steps[|steps| - 1])
  }

  // ---------------------------------------------------------------- the invariant

  ghost predicate Referenced(s: State) {
    s.desired <= s.nodes.Keys && forall r :: r in s.routes ==> s.routes[r].key in s.desired
  }

  /** Reference counts are exact, and what is held is in the map, at the listener it was dialled through. */
  ghost predicate Accounted(nodes: map<string, Entry>, holds: multiset<Hold>) {
    && (forall h :: h in holds ==> h.key in nodes && nodes[h.key].listener == h.listener)
    && (forall k :: k in nodes ==> nodes[k].active == holds[Hold(k, nodes[k].listener)])
  }

  /** While ready, the controller serves every node that is desired or held, at its port. */
  ghost predicate Served(s: State) {
    s.ready ==> forall k :: k in s.nodes && (k in s.desired || s.nodes[k].active > 0) ==>
      k in s.config && s.config[k] == s.nodes[k].listener
  }

  /** Every node of the snapshot is in the map with the settings it gives. */
  ghost predicate Named(nodes: map<string, Entry>, wanted: seq<Node>) {
    forall i :: 0 <= i < |wanted| ==> KeyFor(wanted[i]) in nodes && nodes[KeyFor(wanted[i])].listener.node == wanted[i]
  }

  /** Version, routes, desired nodes with their settings, and fingerprint are those of the last installed snapshot. */
  ghost predicate Recorded(digest: Snapshot -> string, s: State) {
    match s.last
    case None => s.version == 0 && s.routes == map[] && s.desired == {} && !s.ready
    case Some(snapshot) =>
      && s.version == snapshot.version && s.routes == RouteMap(snapshot.routes)
      && s.desired == Keys(snapshot.nodes) && Named(s.nodes, snapshot.nodes) && s.fingerprint == digest(snapshot)
  }

  ghost predicate Inv(digest: Snapshot -> string, s: State) {
    WellPlaced(s.nodes) && Referenced(s) && Accounted(s.nodes, s.holds) && Served(s) && Recorded(digest, s)
  }

  // ---------------------------------------------------------------- install

  lemma {:induction false} RoutesResolve(tokens: string -> string, keys: set<string>, routes: seq<RouteSpec>)
    requires forall i :: 0 <= i < |routes| ==> RouteOk(tokens, keys, routes[i])
    ensures forall r :: r in RouteMap(routes) ==> RouteMap(routes)[r].key in keys
  {
    if routes != [] {
      hide RouteKey, Identifier;
      RoutesResolve(tokens, keys, routes[..|routes| - 1]);
    }
  }

  lemma CandidateAccounted(was: map<string, Entry>, holds: multiset<Hold>, keys: set<string>, plan: Plan)
    requires Accounted(was, holds) && Sound(was, keys, plan)
    ensures Accounted(plan.candidate, holds)
  {
    hide WellPlaced, Ports;
    forall h | h in holds ensures h.key in plan.candidate && plan.candidate[h.key].listener == h.listener {
      assert holds[h] > 0 && h == Hold(h.key, was[h.key].listener);
      assert h.key in Held(was);
    }
  }

  lemma CommitKeeps(tokens: string -> string, digest: Snapshot -> string, s: State, snapshot: Snapshot, plan: Plan)
    requires Inv(digest, s) && Acceptable(tokens, snapshot) && Sound(s.nodes, Keys(snapshot.nodes), plan) && Named(plan.candidate, snapshot.nodes)
    ensures Inv(digest, Commit(digest, s, snapshot, plan.candidate, plan.desired, Listeners(plan.candidate)))
  {
    hide WellPlaced, Keys, RouteMap, Accounted, RouteOk, NodeOk, KeyFor, Ports, Named;
    RoutesResolve(tokens, Keys(snapshot.nodes), snapshot.routes);
    CandidateAccounted(s.nodes, s.holds, Keys(snapshot.nodes), plan);
  }

  lemma RollbackKeeps(digest: Snapshot -> string, s: State, config: map<string, Listener>, back: Attempt)
    requires Inv(digest, s)
    ensures var (rolledBack, restored) := Push(config, s.nodes, Ports(s.nodes), back);
            Inv(digest, s.(ready := s.ready && restored, config := rolledBack))
  {
    hide WellPlaced, Keys, RouteMap, Accounted, Ports, Named;
  }

  lemma InstallKeeps(tokens: string -> string, digest: Snapshot -> string, s: State, snapshot: Snapshot, forward: Attempt, back: Attempt)
    requires Inv(digest, s)
    ensures Inv(digest, Install(tokens, digest, s, snapshot, forward, back).0)
  {
    var plan := PlanNodes(s.nodes, snapshot.nodes);
    if Acceptable(tokens, snapshot) && plan.Plan? {
      PlanSound(s.nodes, snapshot.nodes);
      forall i | 0 <= i < |snapshot.nodes| { PlanNames(s.nodes, snapshot.nodes, i); }
      CommitKeeps(tokens, digest, s, snapshot, plan);
      var (config, ok) := Push(s.config, plan.candidate, NewPorts(s.nodes, plan.candidate), forward);
      RollbackKeeps(digest, s, config, back);
      hide Inv, Ports, NewPorts, Acceptable, PlanNodes, Sound;
    }
  }

  // ---------------------------------------------------------------- the other steps

  lemma SubmapPlaced(nodes: map<string, Entry>, keep: map<string, Entry>)
    requires WellPlaced(nodes) && forall k :: k in keep ==> k in nodes && keep[k].listener == nodes[k].listener
    ensures WellPlaced(keep)
  {
    hide KeyFor;
  }

  lemma NeededAccounted(s: State)
    requires Accounted(s.nodes, s.holds)
    ensures Accounted(Needed(s), s.holds)
  {
    forall h | h in s.holds ensures h.key in Needed(s) {
      assert s.holds[h] > 0 && h == Hold(h.key, s.nodes[h.key].listener);
    }
  }

  /** Keeping the desired nodes, or changing counts only, keeps the snapshot's nodes named. */
  lemma StillNamed(digest: Snapshot -> string, s: State, keep: map<string, Entry>)
    requires Recorded(digest, s)
    requires forall k :: k in s.desired && k in s.nodes ==> k in keep && keep[k].listener == s.nodes[k].listener
    ensures s.last.Some? ==> Named(keep, s.last.value.nodes)
  {
    hide KeyFor, RouteMap;
    if s.last.Some? {
      var wanted := s.last.value.nodes;
      forall i | 0 <= i < |wanted| ensures KeyFor(wanted[i]) in s.desired {
        assert KeyFor(wanted[i]) in Keys(wanted);
      }
    }
  }

  lemma PruneKeeps(digest: Snapshot -> string, s: State, a: Attempt)
    requires Inv(digest, s)
    ensures Inv(digest, Prune(s, a))
  {
    hide Keys, RouteMap, WellPlaced, Accounted, Named;
    SubmapPlaced(s.nodes, Needed(s));
    NeededAccounted(s);
    StillNamed(digest, s, Needed(s));
  }

  lemma HoldAccounted(nodes: map<string, Entry>, holds: multiset<Hold>, key: string)
    requires Accounted(nodes, holds) && key in nodes
    ensures var e := nodes[key];
            Accounted(nodes[key := e.(active := e.active + 1)], holds + multiset{Hold(key, e.listener)})
  {
  }

  lemma ReleaseAccounted(nodes: map<string, Entry>, holds: multiset<Hold>, h: Hold)
    requires Accounted(nodes, holds) && h in holds
    ensures h.key in nodes && nodes[h.key].active > 0
    ensures var e := nodes[h.key];
            Accounted(nodes[h.key := e.(active := e.active - 1)], holds - multiset{h})
  {
    var e := nodes[h.key];
    assert h == Hold(h.key, e.listener);
    var next := nodes[h.key := e.(active := e.active - 1)];
    forall k | k in next ensures next[k].active == (holds - multiset{h})[Hold(k, next[k].listener)] {
      assert nodes[k].active == holds[Hold(k, nodes[k].listener)];
    }
  }

  lemma HoldKeeps(digest: Snapshot -> string, s: State, key: string)
    requires Inv(digest, s) && s.ready && key in s.nodes && key in s.desired
    ensures Inv(digest, HoldNode(s, key))
  {
    hide Keys, RouteMap, WellPlaced, Accounted, Named;
    StillNamed(digest, s, HoldNode(s, key).nodes);
    HoldAccounted(s.nodes, s.holds, key);
    SubmapPlaced(s.nodes, HoldNode(s, key).nodes);
  }

  lemma ReleaseKeeps(digest: Snapshot -> string, s: State, h: Hold)
    requires Inv(digest, s) && h in s.holds
    ensures h.key in s.nodes && Inv(digest, Release(s, h))
  {
    hide Keys, RouteMap, WellPlaced, Accounted, Named;
    ReleaseAccounted(s.nodes, s.holds, h);
    StillNamed(digest, s, Release(s, h).nodes);
    SubmapPlaced(s.nodes, Release(s, h).nodes);
  }

  lemma NextKeeps(tokens: string -> string, digest: Snapshot -> string, s: State, step: Step)
    requires Inv(digest, s)
    ensures Inv(digest, Next(tokens, digest, s, step))
  {
    hide Install, Prune, HoldNode, Release, WellPlaced, Accounted, Served, Recorded;
    match step {
      case InstallStep(snapshot, forward, back) => InstallKeeps(tokens, digest, s, snapshot, forward, back);
      case PruneStep(a) => PruneKeeps(digest, s, a);
      case TunnelStep(route, token) => if RouteAvailable(s, route, token) { HoldKeeps(digest, s, s.routes[route].key); }
      case ProbeStep(key) => if ProbeAvailable(s, key) { HoldKeeps(digest, s, key); }
      case CloseStep(h) => if h in s.holds { ReleaseKeeps(digest, s, h); }
    }
  }

  // ---------------------------------------------------------------- over whole runs

  lemma {:induction false} AlwaysInv(tokens: string -> string, digest: Snapshot -> string, steps: seq<Step>)
    ensures Inv(digest, Run(tokens, digest, steps))
  {
    hide Inv, Next;
    if steps == [] {
      InitialInv(digest);
    } else {
      AlwaysInv(tokens, digest, steps[..|steps| - 1]);
      NextKeeps(tokens, digest, Run(tokens, digest, steps[..|steps| - 1]), steps[|steps| - 1]);
    }
  }

  lemma InitialInv(digest: Snapshot -> string)
    ensures Inv(digest, INITIAL)
  {
  }

  /**
   Whenever the runtime is ready, after any run: every route's node and every held node is in the map and
   served by the controller at one and the same listener; and ready or not, what is held stays in the map
   at the listener it was dialled through, on a port no other node has.
   */
  lemma ReadyMeansServed(tokens: string -> string, digest: Snapshot -> string, steps: seq<Step>)
    ensures var s := Run(tokens, digest, steps);
            && (s.ready ==> forall r :: r in s.routes ==>
                  s.routes[r].key in s.nodes && s.routes[r].key in s.config
                  && s.config[s.routes[r].key] == s.nodes[s.routes[r].key].listener)
            && (s.ready ==> forall h :: h in s.holds ==> h.key in s.config && s.config[h.key] == h.listener)
            && (forall h :: h in s.holds ==> h.key in s.nodes && s.nodes[h.key].listener == h.listener)
            && (forall k, l :: k in s.nodes && l in s.nodes && k != l ==> s.nodes[k].listener.port != s.nodes[l].listener.port)
  {
    AlwaysInv(tokens, digest, steps);
    var s := Run(tokens, digest, steps);
    hide Run, Recorded, KeyFor;
    forall h | h in s.holds ensures h.key in s.nodes && s.nodes[h.key].active > 0 && h == Hold(h.key, s.nodes[h.key].listener) {
    }
  }

  lemma {:induction false} RoutesMapped(routes: seq<RouteSpec>, i: nat)
    requires i < |routes| && forall j, k :: 0 <= j < k < |routes| ==> routes[j].id != routes[k].id
    ensures routes[i].id in RouteMap(routes) && RouteMap(routes)[routes[i].id] == Route(routes[i].token, RouteKey(routes[i]))
  {
    hide RouteKey;
    if i < |routes| - 1 {
      assert routes[..|routes| - 1][i] == routes[i];
      RoutesMapped(routes[..|routes| - 1], i);
    }
  }

  /** What is installed was acceptable. */
  lemma {:induction false} LastAcceptable(tokens: string -> string, digest: Snapshot -> string, steps: seq<Step>)
    ensures Run(tokens, digest, steps).last.Some? ==> Acceptable(tokens, Run(tokens, digest, steps).last.value)
  {
    if steps != [] {
      hide Acceptable, PlanNodes, Push, Ports, NewPorts, Needed, Listeners;
      LastAcceptable(tokens, digest, steps[..|steps| - 1]);
    }
  }

  /**
   In any run, each route of the snapshot in force is in the table with its own token, and leads to the
   node it names by id and revision: while ready, a tunnel of the route is let through and dials a
   listener the controller serves with exactly the settings the snapshot gives that node.
   */
  lemma RouteInForce(tokens: string -> string, digest: Snapshot -> string, steps: seq<Step>, i: nat) returns (node: Node)
    requires Run(tokens, digest, steps).last.Some? && i < |Run(tokens, digest, steps).last.value.routes|
    ensures var s := Run(tokens, digest, steps);
            var route := s.last.value.routes[i];
            && node in s.last.value.nodes && node.id == route.nodeId && node.revision == route.nodeRevision
            && route.id in s.routes && s.routes[route.id] == Route(route.token, KeyFor(node))
            && KeyFor(node) in s.nodes && s.nodes[KeyFor(node)].listener.node == node
            && (s.ready ==>
                  && RouteAvailable(s, route.id, route.token) && KeyFor(node) in s.config && s.config[KeyFor(node)].node == node
                  && Next(tokens, digest, s, TunnelStep(route.id, route.token)).holds == s.holds + multiset{Hold(KeyFor(node), s.config[KeyFor(node)])})
  {
    hide Run, WellPlaced, Accounted, RouteMap, NodeKey, Identifier;
    AlwaysInv(tokens, digest, steps);
    LastAcceptable(tokens, digest, steps);
    var snapshot := Run(tokens, digest, steps).last.value;
    RoutesMapped(snapshot.routes, i);
    var n := RouteNamesOneNode(tokens, snapshot, snapshot.routes[i]);
    node := snapshot.nodes[n];
  }

  lemma NextVersion(tokens: string -> string, digest: Snapshot -> string, s: State, step: Step)
    ensures s.version <= Next(tokens, digest, s, step).version
  {
    hide Acceptable, PlanNodes, Push, Ports, NewPorts, Needed, Listeners;
  }

  lemma {:induction false} VersionNeverDecreases(tokens: string -> string, digest: Snapshot -> string, steps: seq<Step>, n: nat)
    requires n <= |steps|
    ensures Run(tokens, digest, steps[..n]).version <= Run(tokens, digest, steps).version
    decreases |steps| - n
  {
    hide Next;
    if n == |steps| {
      assert steps[..n] == steps;
    } else {
      assert steps[..n + 1][..n] == steps[..n];
      NextVersion(tokens, digest, Run(tokens, digest, steps[..n]), steps[n]);
      VersionNeverDecreases(tokens, digest, steps, n + 1);
    }
  }

  /** A failed apply whose rollback succeeds leaves everything as it was, all listeners back in place. */
  lemma RollbackRestores(tokens: string -> string, digest: Snapshot -> string, s: State, snapshot: Snapshot, forward: Attempt, back: Attempt)
    requires Install(tokens, digest, s, snapshot, forward, back).1 == ApplyFailed
    requires back.marshals && back.outcome.Applied? && Ports(s.nodes) !! back.dead
    ensures Install(tokens, digest, s, snapshot, forward, back).0 == s.(config := Listeners(s.nodes))
  {
    hide Acceptable, PlanNodes, Ports, NewPorts;
  }

  /** A repeated version is taken for installed only if it is the installed snapshot, when digests do not collide. */
  lemma RepeatIsIdentical(tokens: string -> string, digest: Snapshot -> string, s: State, snapshot: Snapshot, forward: Attempt, back: Attempt)
    requires Inv(digest, s) && Install(tokens, digest, s, snapshot, forward, back).1 == AlreadyInstalled
    requires forall a, b :: digest(a) == digest(b) ==> a == b
    ensures s.last == Some(snapshot)
  {
    hide Acceptable, PlanNodes, Push, WellPlaced, Accounted, Served, Referenced;
  }

  /** After a successful prune that had something to remove, exactly the desired and the held nodes are left. */
  lemma PruneLeavesNeeded(digest: Snapshot -> string, s: State, a: Attempt)
    requires Inv(digest, s) && s.ready && a.marshals && a.outcome.Applied?
    ensures forall k :: k in Prune(s, a).nodes <==> k in s.desired || (k in s.nodes && s.nodes[k].active > 0)
    ensures forall k :: k in Prune(s, a).nodes ==> k in s.nodes && Prune(s, a).nodes[k] == s.nodes[k]
  {
    hide WellPlaced, Accounted, Served, Recorded;
    assert Needed(s).Keys <= s.nodes.Keys;
    SubsetSize(Needed(s).Keys, s.nodes.Keys);
    assert |Needed(s)| == |Needed(s).Keys| && |s.nodes| == |s.nodes.Keys|;
  }

  // ---------------------------------------------------------------- exactly when

  /** The snapshot is due: newer than what is applied, or of the same version while not ready. */
  predicate Due(s: State, snapshot: Snapshot) {
    snapshot.version > s.version || (snapshot.version == s.version && !s.ready)
  }

  /** There is a port for every new node. */
  predicate FindsPorts(s: State, snapshot: Snapshot) {
    |s.nodes| + NewNodes(s.nodes, snapshot.nodes) <= CAPACITY
  }

  /** The ports its new nodes will listen on, the lowest free ones, all answer their probe. */
  ghost predicate NewcomersLive(s: State, snapshot: Snapshot, dead: set<int>) {
    exists ports :: LowestFree(s.nodes, ports, NewNodes(s.nodes, snapshot.nodes)) && ports !! dead
  }

  predicate AllLive(nodes: map<string, Entry>, dead: set<int>) {
    forall k :: k in nodes ==> nodes[k].listener.port !in dead
  }

  lemma PlanExactly(nodes: map<string, Entry>, snapshot: Snapshot)
    requires WellPlaced(nodes) && Distinct(snapshot.nodes)
    ensures var plan := PlanNodes(nodes, snapshot.nodes);
            && (plan.Plan? <==> Agrees(nodes, snapshot.nodes) && |nodes| + NewNodes(nodes, snapshot.nodes) <= CAPACITY)
            && (Agrees(nodes, snapshot.nodes) ==> !plan.RevisionConflict?)
            && (plan.Plan? ==> LowestFree(nodes, NewPorts(nodes, plan.candidate), NewNodes(nodes, snapshot.nodes)))
  {
    hide WellPlaced, Agrees, Keys, PlanNodes, Distinct, LowestFree, Ports;
    var plan := PlanNodes(nodes, snapshot.nodes);
    if Agrees(nodes, snapshot.nodes) {
      RefusedExactlyWhenFull(nodes, snapshot.nodes);
    }
    if plan.RevisionConflict? { ConflictIsReal(nodes, snapshot.nodes); }
    if plan.Plan? {
      PlannedAgrees(nodes, snapshot.nodes);
      PlanTakesLowest(nodes, snapshot.nodes);
      PlanListens(nodes, snapshot.nodes);
    }
  }

  /** A plan is made only for nodes that agree with the map. */
  lemma {:induction false} PlannedAgrees(was: map<string, Entry>, nodes: seq<Node>)
    requires PlanNodes(was, nodes).Plan?
    ensures Agrees(was, nodes)
  {
    hide FreePort, KeyFor;
    if nodes != [] {
      var rest := nodes[..|nodes| - 1];
      PlannedAgrees(was, rest);
      assert forall i :: 0 <= i < |rest| ==> rest[i] == nodes[i];
    }
  }

  /** When the controller is configured and every new listener answers. */
  lemma PushedExactly(config: map<string, Listener>, target: map<string, Entry>, ports: set<int>, a: Attempt)
    ensures Push(config, target, ports, a).1 <==> a.marshals && a.outcome.Applied? && ports !! a.dead
    ensures a.marshals && a.outcome.Applied? ==> Push(config, target, ports, a).0 == Listeners(target)
  {
    hide Listeners;
  }

  /**
   When a snapshot is installed, in any state: if and only if it is acceptable and due, agrees with the
   revisions in the map and finds ports, the controller takes the new configuration, and every port its
   new nodes are given answers its probe. Then exactly the held and the wanted nodes are in the map, the
   new ones on those ports and all of them configured.
   */
  lemma InstalledExactly(tokens: string -> string, digest: Snapshot -> string, s: State, snapshot: Snapshot, forward: Attempt, back: Attempt)
    requires WellPlaced(s.nodes)
    ensures var (after, verdict) := Install(tokens, digest, s, snapshot, forward, back);
            && (verdict == Installed <==>
                  && Acceptable(tokens, snapshot) && Due(s, snapshot) && Agrees(s.nodes, snapshot.nodes) && FindsPorts(s, snapshot)
                  && forward.marshals && forward.outcome.Applied? && NewcomersLive(s, snapshot, forward.dead))
            && (verdict == Installed ==>
                  && after.ready && after.last == Some(snapshot) && after.version == snapshot.version && after.fingerprint == digest(snapshot)
                  && after.nodes.Keys == Held(s.nodes).Keys + Keys(snapshot.nodes) && after.desired == Keys(snapshot.nodes)
                  && after.routes == RouteMap(snapshot.routes) && after.config == Listeners(after.nodes) && after.holds == s.holds
                  && (forall k :: k in after.nodes && k in s.nodes ==> after.nodes[k] == s.nodes[k])
                  && (forall k :: k in after.nodes && k !in s.nodes ==> after.nodes[k].listener.port !in forward.dead && after.nodes[k].active == 0))
  {
    hide Acceptable, WellPlaced, Agrees, Keys, PlanNodes, NewPorts, NewNodes, LowestFree, Ports, Listeners, Push, RouteMap;
    if Acceptable(tokens, snapshot) {
      AcceptableDistinct(tokens, snapshot);
      PlanExactly(s.nodes, snapshot);
      var plan := PlanNodes(s.nodes, snapshot.nodes);
      if plan.Plan? {
        PlanSound(s.nodes, snapshot.nodes);
        InstalledPlan(s, snapshot, plan, forward.dead);
        PushedExactly(s.config, plan.candidate, NewPorts(s.nodes, plan.candidate), forward);
      }
    }
  }

  lemma AcceptableDistinct(tokens: string -> string, snapshot: Snapshot)
    requires Acceptable(tokens, snapshot)
    ensures Distinct(snapshot.nodes)
  {
    hide Distinct, NodeOk, RouteOk, Keys;
  }

  lemma InstalledPlan(s: State, snapshot: Snapshot, plan: Plan, dead: set<int>)
    requires plan.Plan? && LowestFree(s.nodes, NewPorts(s.nodes, plan.candidate), NewNodes(s.nodes, snapshot.nodes))
    ensures NewcomersLive(s, snapshot, dead) <==> NewPorts(s.nodes, plan.candidate) !! dead
    ensures NewPorts(s.nodes, plan.candidate) !! dead ==>
              forall k :: k in plan.candidate && k !in s.nodes ==> plan.candidate[k].listener.port !in dead
  {
    hide LowestFree, NewNodes;
    var mine, n := NewPorts(s.nodes, plan.candidate), NewNodes(s.nodes, snapshot.nodes);
    forall ports | LowestFree(s.nodes, ports, n) ensures ports == mine { LowestFreeUnique(s.nodes, ports, mine, n); }
    forall k | k in plan.candidate && k !in s.nodes ensures plan.candidate[k].listener.port in mine {
    }
  }

  /**
   The other verdicts. A snapshot not installed leaves everything as it was, except that a failed apply
   leaves the controller in doubt: the runtime is ready after it if and only if it was before, and the
   rollback was taken and every listener of the map answered.
   */
  lemma RefusedExactly(tokens: string -> string, digest: Snapshot -> string, s: State, snapshot: Snapshot, forward: Attempt, back: Attempt)
    requires WellPlaced(s.nodes)
    ensures var (after, verdict) := Install(tokens, digest, s, snapshot, forward, back);
            && (verdict == InvalidSnapshot <==> !Acceptable(tokens, snapshot))
            && (verdict == StaleSnapshot <==> Acceptable(tokens, snapshot) && snapshot.version < s.version)
            && (verdict == VersionConflict || verdict == AlreadyInstalled <==> Acceptable(tokens, snapshot) && snapshot.version == s.version && s.ready)
            && (verdict == AlreadyInstalled ==> digest(snapshot) == s.fingerprint) && (verdict == VersionConflict ==> digest(snapshot) != s.fingerprint)
            && (verdict == NodeConflict || verdict == Capacity <==>
                  Acceptable(tokens, snapshot) && Due(s, snapshot) && !(Agrees(s.nodes, snapshot.nodes) && FindsPorts(s, snapshot)))
            && (verdict == NodeConflict ==> !Agrees(s.nodes, snapshot.nodes))
            && (verdict != Installed && verdict != ApplyFailed ==> after == s)
            && (verdict == ApplyFailed ==>
                  && after == s.(ready := after.ready, config := after.config)
                  && (after.ready <==> s.ready && back.marshals && back.outcome.Applied? && AllLive(s.nodes, back.dead))
                  && (after.ready ==> after.config == Listeners(s.nodes)))
  {
    hide Acceptable, WellPlaced, Agrees, Keys, PlanNodes, NewPorts, NewNodes, LowestFree, Ports, Listeners, Push, RouteMap;
    if Acceptable(tokens, snapshot) {
      AcceptableDistinct(tokens, snapshot);
      PlanExactly(s.nodes, snapshot);
      var plan := PlanNodes(s.nodes, snapshot.nodes);
      if plan.Plan? {
        var (config, ok) := Push(s.config, plan.candidate, NewPorts(s.nodes, plan.candidate), forward);
        PushedExactly(config, s.nodes, Ports(s.nodes), back);
        LiveExactly(s.nodes, back.dead);
      }
    }
  }

  lemma LiveExactly(nodes: map<string, Entry>, dead: set<int>)
    ensures Ports(nodes) !! dead <==> AllLive(nodes, dead)
  {
    forall k | k in nodes ensures nodes[k].listener.port in Ports(nodes) {
    }
  }

  /**
   Pruning, exactly: the map changes only when ready and the controller takes the smaller configuration,
   and then to the desired and the held nodes; whatever else happens, nothing but the configuration in
   doubt changes.
   */
  lemma PrunedExactly(digest: Snapshot -> string, s: State, a: Attempt)
    requires Inv(digest, s)
    ensures var after := Prune(s, a);
            && after == s.(nodes := after.nodes, config := after.config)
            && (forall k :: k in after.nodes ==> k in s.nodes && after.nodes[k] == s.nodes[k])
            && (forall k :: k in s.nodes ==> (k !in after.nodes <==>
                  s.ready && a.marshals && a.outcome.Applied? && k !in s.desired && s.nodes[k].active <= 0))
            && (!s.ready || !a.marshals || a.outcome.FailedUnapplied? ==> after.config == s.config)
            && (after.config == s.config || after.config == Listeners(Needed(s)))
  {
    hide WellPlaced, Accounted, Served, Recorded, Listeners;
    assert Needed(s).Keys <= s.nodes.Keys;
    SubsetSize(Needed(s).Keys, s.nodes.Keys);
    assert |Needed(s)| == |Needed(s).Keys| && |s.nodes| == |s.nodes.Keys|;
  }

  ghost predicate HasRoute(snapshot: Snapshot, route: string, token: string) {
    exists i :: 0 <= i < |snapshot.routes| && snapshot.routes[i].id == route && snapshot.routes[i].token == token
  }

  /** A tunnel is let through, in any run, if and only if the runtime is ready and the snapshot in force has that route with that token. */
  lemma TunnelExactly(tokens: string -> string, digest: Snapshot -> string, steps: seq<Step>, route: string, token: string)
    ensures var s := Run(tokens, digest, steps);
            var after := Next(tokens, digest, s, TunnelStep(route, token));
            && (after != s <==> s.ready && s.last.Some? && HasRoute(s.last.value, route, token))
            && (after != s ==> |after.holds| == |s.holds| + 1)
  {
    hide Run, WellPlaced, Accounted, Served, RouteMap, NodeKey, Identifier, Named;
    AlwaysInv(tokens, digest, steps);
    LastAcceptable(tokens, digest, steps);
    var s := Run(tokens, digest, steps);
    if s.last.Some? {
      RouteKnown(tokens, s.last.value, route, token);
    }
    if RouteAvailable(s, route, token) { HoldGrows(s, s.routes[route].key); }
  }

  lemma HoldGrows(s: State, key: string)
    requires key in s.nodes
    ensures HoldNode(s, key) != s && |HoldNode(s, key).holds| == |s.holds| + 1
  {
  }

  lemma RouteKnown(tokens: string -> string, snapshot: Snapshot, route: string, token: string)
    requires Acceptable(tokens, snapshot)
    ensures (route in RouteMap(snapshot.routes) && RouteMap(snapshot.routes)[route].token == token)
            <==> HasRoute(snapshot, route, token)
  {
    hide NodeOk, RouteOk, Keys, RouteMap, Distinct;
    if i :| 0 <= i < |snapshot.routes| && snapshot.routes[i].id == route {
      RoutesMapped(snapshot.routes, i);
    } else {
      RoutesOnly(snapshot.routes, route);
    }
  }

  lemma {:induction false} RoutesOnly(routes: seq<RouteSpec>, route: string)
    requires forall i :: 0 <= i < |routes| ==> routes[i].id != route
    ensures route !in RouteMap(routes)
  {
    if routes != [] { RoutesOnly(routes[..|routes| - 1], route); }
  }

  /** A probe holds a node, in any run, if and only if the runtime is ready and the node is of the snapshot in force. */
  lemma ProbeExactly(tokens: string -> string, digest: Snapshot -> string, steps: seq<Step>, id: string, revision: int)
    ensures var s := Run(tokens, digest, steps);
            Next(tokens, digest, s, ProbeStep(NodeKey(id, revision))) != s <==>
              s.ready && s.last.Some? && exists i :: 0 <= i < |s.last.value.nodes| && s.last.value.nodes[i].id == id && s.last.value.nodes[i].revision == revision
  {
    hide Run, WellPlaced, Accounted, Served, RouteMap, NodeKey;
    AlwaysInv(tokens, digest, steps);
    var s, key := Run(tokens, digest, steps), NodeKey(id, revision);
    if s.last.Some? { NodeKnown(s.last.value.nodes, id, revision); }
    if key in s.nodes { HoldGrows(s, key); }
  }

  lemma NodeKnown(nodes: seq<Node>, id: string, revision: int)
    ensures NodeKey(id, revision) in Keys(nodes) <==> exists i :: 0 <= i < |nodes| && nodes[i].id == id && nodes[i].revision == revision
  {
    hide NodeKey;
    if NodeKey(id, revision) in Keys(nodes) {
      var i :| 0 <= i < |nodes| && KeyFor(nodes[i]) == NodeKey(id, revision);
      NodeKeyInjective(nodes[i].id, nodes[i].revision, id, revision);
    }
    if i :| 0 <= i < |nodes| && nodes[i].id == id && nodes[i].revision == revision { assert KeyFor(nodes[i]) in Keys(nodes); }
  }
}
