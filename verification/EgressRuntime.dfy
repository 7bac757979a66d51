/**
 The runtime object itself: node records shared between the node map, the routes and the live
 tunnels, updated in place. Each method is one step of the machine.
 */
module EgressRuntime {
  import opened Text
  import opened Egress
  import opened EgressMachine

  class NodeRuntime {
    const node: Node
    const port: int
    var active: int

    constructor (node: Node, port: int)
      ensures this.node == node && this.port == port && active == 0
    {
      this.node, this.port, active := node, port, 0;
    }
  }

  datatype RouteRuntime = RouteRuntime(token: string, node: NodeRuntime)

  /** The proxy process. config is what it really runs, which a failed apply leaves in doubt. */
  class Controller {
    ghost var config: map<string, Listener>

    constructor ()
      ensures config == map[]
    {
      config := map[];
    }

    method Apply(ghost nodes: map<string, Listener>, outcome: ApplyOutcome) returns (ok: bool)
      modifies this
      ensures ok == outcome.Applied?
      ensures config == if outcome.FailedUnapplied? then old(config) else nodes
    {
      ok := outcome.Applied?;
      if !outcome.FailedUnapplied? {
        config := nodes;
      }
    }
  }

  ghost function EntryOf(n: NodeRuntime): Entry
    reads n
  {
    Entry(Listener(n.node, n.port), n.active)
  }

  ghost function Entries(nodes: map<string, NodeRuntime>): map<string, Entry>
    reads nodes.Values
  {
    map k | k in nodes :: EntryOf(nodes[k])
  }

  ghost function RouteView(routes: map<string, RouteRuntime>): map<string, Route> {
    map r | r in routes :: Route(routes[r].token, KeyFor(routes[r].node.node))
  }

  ghost function HoldOn(n: NodeRuntime): Hold {
    Hold(KeyFor(n.node), Listener(n.node, n.port))
  }

  ghost predicate OwnKeys(nodes: map<string, NodeRuntime>) {
    forall k :: k in nodes ==> KeyFor(nodes[k].node) == k
  }

  /** Every record is at its own key; the records held are in the map, and held as often as the holds say. */
  ghost predicate Counts(nodes: map<string, NodeRuntime>, held: multiset<NodeRuntime>, holds: multiset<Hold>) {
    && OwnKeys(nodes)
    && (forall n :: n in held ==> KeyFor(n.node) in nodes && nodes[KeyFor(n.node)] == n)
    && (forall k :: k in nodes ==> held[nodes[k]] == holds[HoldOn(nodes[k])])
  }

  /** Routes, tunnels and the node map share the same records. */
  ghost predicate LinkedTo(nodes: map<string, NodeRuntime>, routes: map<string, RouteRuntime>, held: multiset<NodeRuntime>, holds: multiset<Hold>) {
    && (forall r :: r in routes ==> var key := KeyFor(routes[r].node.node); key in nodes && nodes[key] == routes[r].node)
    && Counts(nodes, held, holds)
  }

  lemma TakeCounts(nodes: map<string, NodeRuntime>, held: multiset<NodeRuntime>, holds: multiset<Hold>, n: NodeRuntime)
    requires Counts(nodes, held, holds) && KeyFor(n.node) in nodes && nodes[KeyFor(n.node)] == n
    ensures OwnKeys(nodes) && Counts(nodes, held + multiset{n}, holds + multiset{HoldOn(n)})
  {
    hide KeyFor;
    forall k | k in nodes ensures (held + multiset{n})[nodes[k]] == (holds + multiset{HoldOn(n)})[HoldOn(nodes[k])] {
      assert held[nodes[k]] == holds[HoldOn(nodes[k])];
    }
  }

  lemma CloseCounts(nodes: map<string, NodeRuntime>, held: multiset<NodeRuntime>, holds: multiset<Hold>, n: NodeRuntime)
    requires Counts(nodes, held, holds) && n in held
    ensures OwnKeys(nodes) && KeyFor(n.node) in nodes && nodes[KeyFor(n.node)] == n
    ensures HoldOn(n) in holds && Counts(nodes, held - multiset{n}, holds - multiset{HoldOn(n)})
  {
    hide KeyFor;
    forall k | k in nodes ensures (held - multiset{n})[nodes[k]] == (holds - multiset{HoldOn(n)})[HoldOn(nodes[k])] {
      assert held[nodes[k]] == holds[HoldOn(nodes[k])];
    }
  }

  /** Changes one reference count, which is seen wherever the record is shared. */
  method Adjust(ghost nodes: map<string, NodeRuntime>, n: NodeRuntime, delta: int)
    requires OwnKeys(nodes) && KeyFor(n.node) in nodes && nodes[KeyFor(n.node)] == n
    modifies n`active
    ensures KeyFor(n.node) in old(Entries(nodes))
    ensures var e := old(Entries(nodes)[KeyFor(n.node)]);
            e.listener == Listener(n.node, n.port) && Entries(nodes) == old(Entries(nodes))[KeyFor(n.node) := e.(active := e.active + delta)]
  {
    hide KeyFor;
    ghost var before := Entries(nodes);
    n.active := n.active + delta;
    ghost var after := Entries(nodes);
    forall k | k in nodes && k != KeyFor(n.node) ensures after[k] == before[k] {
      assert nodes[k] != n;
    }
  }

  method ValidateNodes(nodes: seq<Node>) returns (ok: bool, keys: set<string>)
    ensures ok <==> (forall i :: 0 <= i < |nodes| ==> NodeOk(nodes[i])) && Distinct(nodes)
    ensures ok ==> keys == Keys(nodes)
  {
    hide NodeOk, KeyFor, Keys;
    keys := {};
    NoKeys();
    for i := 0 to |nodes|
      invariant forall j :: 0 <= j < i ==> NodeOk(nodes[j])
      invariant keys == Keys(nodes[..i]) && Distinct(nodes[..i])
    {
      assert nodes[..i + 1] == nodes[..i] + [nodes[i]];
      KeysSnoc(nodes[..i], nodes[i]);
      KeyKnown(nodes, i);
      if !NodeOk(nodes[i]) || KeyFor(nodes[i]) in keys {
        return false, keys;
      }
      keys := keys + {KeyFor(nodes[i])};
    }
    assert nodes[..|nodes|] == nodes;
    ok := true;
  }

  lemma NoKeys()
    ensures Keys([]) == {}
  {
  }

  /** A key seen before is a key repeated. */
  lemma KeyKnown(nodes: seq<Node>, i: nat)
    requires i < |nodes|
    ensures KeyFor(nodes[i]) in Keys(nodes[..i]) <==> exists j :: 0 <= j < i && KeyFor(nodes[j]) == KeyFor(nodes[i])
  {
    hide KeyFor;
    assert forall j :: 0 <= j < i ==> nodes[..i][j] == nodes[j];
  }

  method ValidateRoutes(tokens: string -> string, keys: set<string>, specs: seq<RouteSpec>) returns (ok: bool)
    ensures ok <==> (forall i :: 0 <= i < |specs| ==> RouteOk(tokens, keys, specs[i]))
                    && forall i, j :: 0 <= i < j < |specs| ==> specs[i].id != specs[j].id
  {
    hide RouteOk;
    var seen: set<string> := {};
    for i := 0 to |specs|
      invariant forall j :: 0 <= j < i ==> RouteOk(tokens, keys, specs[j]) && specs[j].id in seen
      invariant forall r :: r in seen ==> exists j :: 0 <= j < i && specs[j].id == r
      invariant forall j, k :: 0 <= j < k < i ==> specs[j].id != specs[k].id
    {
      if !RouteOk(tokens, keys, specs[i]) || specs[i].id in seen {
        return false;
      }
      seen := seen + {specs[i].id};
    }
    ok := true;
  }

  /** The checks on a snapshot, node by node and route by route. */
  method ValidateSnapshot(tokens: string -> string, s: Snapshot) returns (ok: bool)
    ensures ok <==> Acceptable(tokens, s)
  {
    hide NodeOk, RouteOk, Distinct, Keys;
    if s.version < 0 || |s.nodes| > 4096 || |s.routes| > 65536 {
      return false;
    }
    var nodesOk, keys := ValidateNodes(s.nodes);
    if !nodesOk {
      return false;
    }
    ok := ValidateRoutes(tokens, keys, s.routes);
  }

  lemma {:induction false} PlanStops(was: map<string, Entry>, nodes: seq<Node>, n: nat)
    requires n <= |nodes|
    ensures !PlanNodes(was, nodes[..n]).Plan? ==> PlanNodes(was, nodes) == PlanNodes(was, nodes[..n])
    decreases |nodes| - n
  {
    hide FreePort, KeyFor;
    if n < |nodes| {
      assert nodes[..n + 1][..n] == nodes[..n];
      PlanStops(was, nodes, n + 1);
    } else {
      assert nodes[..n] == nodes;
    }
  }

  lemma SameSize<K, V, W>(a: map<K, V>, b: map<K, W>)
    requires a.Keys == b.Keys
    ensures |a| == |b|
  {
    assert |a| == |a.Keys| && |b| == |b.Keys|;
  }

  /** The port scan. */
  method ScanPort(used: set<int>) returns (port: int)
    ensures port == FreePort(used, FIRST_PORT)
  {
    port := FIRST_PORT;
    while port in used && port <= LAST_PORT
      invariant FIRST_PORT <= port <= LAST_PORT + 1
      invariant FreePort(used, port) == FreePort(used, FIRST_PORT)
    {
      port := port + 1;
    }
  }

  class Runtime {
    const controller: Controller
    var nodes: map<string, NodeRuntime>
    var desired: set<string>
    var routes: map<string, RouteRuntime>
    var ready: bool
    var appliedVersion: int
    var fingerprint: string
    ghost var last: Option<Snapshot>
    ghost var holds: multiset<Hold>
    // The records handed to tunnels and probes that have not come back.
    ghost var held: multiset<NodeRuntime>

    ghost function View(): State
      reads this, controller, nodes.Values
    {
      State(Entries(nodes), desired, RouteView(routes), ready, appliedVersion, fingerprint, last, controller.config, holds)
    }

    ghost predicate Linked()
      reads this
    {
      LinkedTo(nodes, routes, held, holds)
    }

    ghost predicate Valid(digest: Snapshot -> string)
      reads this, controller, nodes.Values
    {
      Linked() && Inv(digest, View())
    }

    constructor (controller: Controller)
      requires controller.config == map[]
      ensures View() == INITIAL && Linked() && this.controller == controller
    {
      this.controller := controller;
      nodes, desired, routes, ready, appliedVersion, fingerprint := map[], {}, map[], false, 0, "";
      last, holds, held := None, multiset{}, multiset{};
      new;
    }

    /** Takes a record, as a tunnel and a probe do. */
    method Take(n: NodeRuntime)
      requires Linked() && KeyFor(n.node) in nodes && nodes[KeyFor(n.node)] == n
      modifies n`active, this`holds, this`held
      ensures Linked() && View() == HoldNode(old(View()), KeyFor(n.node)) && held == old(held) + multiset{n}
    {
      hide KeyFor, RouteView, Counts, OwnKeys, Entries;
      TakeCounts(nodes, held, holds, n);
      Adjust(nodes, n, 1);
      holds := holds + multiset{HoldOn(n)};
      held := held + multiset{n};
    }

    method GiveBack(n: NodeRuntime)
      requires Linked() && n in held
      modifies n`active, this`holds, this`held
      ensures Linked() && old(HoldOn(n) in holds && KeyFor(n.node) in View().nodes)
      ensures View() == Release(old(View()), HoldOn(n)) && held == old(held) - multiset{n}
    {
      hide KeyFor, RouteView, Counts, OwnKeys, Entries;
      CloseCounts(nodes, held, holds, n);
      Adjust(nodes, n, -1);
      holds := holds - multiset{HoldOn(n)};
      held := held - multiset{n};
    }

    /** ServeHTTP up to the dial: the route's record, held, or null when the route is unavailable. */
    method OpenTunnel(ghost tokens: string -> string, ghost digest: Snapshot -> string, route: string, token: string) returns (n: NodeRuntime?)
      requires Valid(digest)
      modifies nodes.Values, this`holds, this`held
      ensures Valid(digest) && View() == Next(tokens, digest, old(View()), TunnelStep(route, token))
      ensures n != null <==> RouteAvailable(old(View()), route, token)
      ensures n != null ==> route in routes && n == routes[route].node && held == old(held) + multiset{n}
      ensures n == null ==> held == old(held)
    {
      hide KeyFor, Inv;
      NextKeeps(tokens, digest, View(), TunnelStep(route, token));
      if !ready || route !in routes || routes[route].token != token {
        return null;
      }
      n := routes[route].node;
      Take(n);
    }

    /** probeNode up to the dial. */
    method OpenProbe(ghost tokens: string -> string, ghost digest: Snapshot -> string, id: string, revision: int) returns (n: NodeRuntime?)
      requires Valid(digest)
      modifies nodes.Values, this`holds, this`held
      ensures Valid(digest) && View() == Next(tokens, digest, old(View()), ProbeStep(NodeKey(id, revision)))
      ensures n != null <==> ProbeAvailable(old(View()), NodeKey(id, revision))
      ensures n != null ==> NodeKey(id, revision) in nodes && n == nodes[NodeKey(id, revision)] && held == old(held) + multiset{n}
      ensures n == null ==> held == old(held)
    {
      hide KeyFor, Inv, NodeKey;
      var key := NodeKey(id, revision);
      NextKeeps(tokens, digest, View(), ProbeStep(key));
      if !ready || key !in nodes || key !in desired {
        return null;
      }
      n := nodes[key];
      Take(n);
    }

    /** The deferred decrement when a tunnel or probe ends, at whatever time that is. */
    method Close(ghost tokens: string -> string, ghost digest: Snapshot -> string, n: NodeRuntime)
      requires Valid(digest) && n in held
      modifies n`active, this`holds, this`held
      ensures Valid(digest) && held == old(held) - multiset{n}
      ensures View() == Next(tokens, digest, old(View()), CloseStep(HoldOn(n)))
    {
      hide KeyFor, Inv, Entries, RouteView, Counts;
      NextKeeps(tokens, digest, View(), CloseStep(HoldOn(n)));
      GiveBack(n);
    }

    /** Drops the revisions nobody needs, if the controller takes the smaller configuration. */
    method Prune(ghost digest: Snapshot -> string, a: Attempt)
      requires Valid(digest)
      modifies this`nodes, controller
      ensures Valid(digest) && View() == EgressMachine.Prune(old(View()), a)
    {
      hide KeyFor, Inv, Counts, RouteView, Listeners, Entries, Needed, LinkedTo;
      PruneKeeps(digest, View(), a);
      if !ready {
        return;
      }
      var keep := map k | k in nodes && (k in desired || nodes[k].active > 0) :: nodes[k];
      KeepIsNeeded(keep);
      NeededLinks(digest, keep);
      if |keep| == |nodes| || !a.marshals {
        return;
      }
      var ok := controller.Apply(Listeners(Entries(keep)), a.outcome);
      if ok {
        nodes := keep;
      }
    }

    lemma KeepIsNeeded(keep: map<string, NodeRuntime>)
      requires keep == map k | k in nodes && (k in desired || nodes[k].active > 0) :: nodes[k]
      ensures Entries(keep) == Needed(View()) && |keep| == |Needed(View())| && |nodes| == |View().nodes|
    {
      SameSize(keep, Entries(keep));
      SameSize(nodes, Entries(nodes));
    }

    lemma NeededLinks(digest: Snapshot -> string, keep: map<string, NodeRuntime>)
      requires Valid(digest) && keep == map k | k in nodes && (k in desired || nodes[k].active > 0) :: nodes[k]
      ensures LinkedTo(keep, routes, held, holds)
    {
      hide KeyFor, WellPlaced, Served, Recorded, Accounted;
      HeldIsActive(digest);
      assert forall r :: r in routes ==> RouteView(routes)[r].key in desired;
    }

    /** What a tunnel holds is active, so neither prune nor install drops it. */
    lemma HeldIsActive(digest: Snapshot -> string)
      requires Valid(digest)
      ensures forall n :: n in held ==> n in nodes.Values && n.active > 0
    {
      hide KeyFor, WellPlaced, Served, Recorded, Referenced;
      forall n | n in held ensures n in nodes.Values && n.active > 0 {
        var key := KeyFor(n.node);
        assert nodes[key] == n && held[n] > 0;
        assert Entries(nodes)[key].active == holds[Hold(key, Entries(nodes)[key].listener)];
      }
    }

    /** The node records a snapshot calls for: shared with the present map where they are in it, else new. */
    method Candidates(wanted: seq<Node>) returns (candidate: map<string, NodeRuntime>, keys: set<string>, refusal: Option<Verdict>)
      ensures refusal.None? ==> PlanNodes(Entries(nodes), wanted).Plan?
                                && Entries(candidate) == PlanNodes(Entries(nodes), wanted).candidate
                                && keys == PlanNodes(Entries(nodes), wanted).desired
      ensures refusal.Some? ==> !PlanNodes(Entries(nodes), wanted).Plan?
                                && refusal.value == if PlanNodes(Entries(nodes), wanted).NoCapacity? then Capacity else NodeConflict
      ensures forall k :: k in candidate && k in nodes ==> candidate[k] == nodes[k]
      ensures forall k :: k in candidate && k !in nodes ==> fresh(candidate[k])
    {
      hide KeyFor, FreePort, Ports, Entries, Held;
      ghost var was := Entries(nodes);
      candidate := map k | k in nodes && nodes[k].active > 0 :: nodes[k];
      var used := set k | k in nodes :: nodes[k].port;
      keys, refusal := {}, None;
      assert used == Ports(was) by { PortsOf(nodes); }
      HeldRecords(nodes, candidate);
      for i := 0 to |wanted|
        invariant was == Entries(nodes)
        invariant PlanNodes(was, wanted[..i]) == Plan(Entries(candidate), used, keys)
        invariant forall k :: k in candidate && k in nodes ==> candidate[k] == nodes[k]
        invariant forall k :: k in candidate && k !in nodes ==> fresh(candidate[k])
      {
        assert wanted[..i + 1][..i] == wanted[..i];
        PlanStops(was, wanted, i + 1);
        var key := KeyFor(wanted[i]);
        EntryAt(nodes, key);
        keys := keys + {key};
        if key in nodes {
          if nodes[key].node != wanted[i] {
            return candidate, keys, Some(NodeConflict);
          }
          EntriesUpdate(candidate, key, nodes[key]);
          candidate := candidate[key := nodes[key]];
        } else {
          var port := ScanPort(used);
          if port > LAST_PORT {
            return candidate, keys, Some(Capacity);
          }
          used := used + {port};
          var n := new NodeRuntime(wanted[i], port);
          EntriesUpdate(candidate, key, n);
          candidate := candidate[key := n];
        }
      }
      assert wanted[..|wanted|] == wanted;
    }

    /** Marshals, applies, and probes the listeners that are not in skip until one fails. */
    method Configure(target: map<string, NodeRuntime>, skip: map<string, NodeRuntime>, a: Attempt) returns (ok: bool)
      modifies controller
      ensures (controller.config, ok) == Push(old(controller.config), Entries(target), NewPorts(Entries(skip), Entries(target)), a)
      ensures ok <==> a.marshals && a.outcome.Applied? && forall k :: k in target && k !in skip ==> target[k].port !in a.dead
    {
      hide Listeners, Entries, NewPorts;
      ghost var entries, ports := Entries(target), NewPorts(Entries(skip), Entries(target));
      if !a.marshals {
        return false;
      }
      NewPortsOf(skip, target);
      ok := controller.Apply(Listeners(entries), a.outcome);
      assert Entries(target) == entries && Entries(skip) == old(Entries(skip));
      if ok {
        ok := ProbeAll(target, target.Keys - skip.Keys, a.dead);
        NoneDead(target, target.Keys - skip.Keys, a.dead);
      }
    }

    /** Probes the listeners one by one, in any order, until one fails. */
    method ProbeAll(target: map<string, NodeRuntime>, keys: set<string>, dead: set<int>) returns (ok: bool)
      requires keys <= target.Keys
      ensures ok <==> (set k | k in keys :: target[k].port) !! dead
    {
      var rest := keys;
      while rest != {}
        invariant rest <= keys && forall k :: k in keys - rest ==> target[k].port !in dead
      {
        var k :| k in rest;
        if target[k].port in dead {
          assert target[k].port in set j | j in keys :: target[j].port;
          return false;
        }
        rest := rest - {k};
      }
      ok := true;
    }

    method BuildRoutes(specs: seq<RouteSpec>, candidate: map<string, NodeRuntime>) returns (built: map<string, RouteRuntime>)
      requires OwnKeys(candidate) && forall i :: 0 <= i < |specs| ==> RouteKey(specs[i]) in candidate
      ensures RouteView(built) == RouteMap(specs)
      ensures forall r :: r in built ==> var key := KeyFor(built[r].node.node); key in candidate && candidate[key] == built[r].node
    {
      hide KeyFor, RouteKey;
      built := map[];
      for i := 0 to |specs|
        invariant RouteView(built) == RouteMap(specs[..i])
        invariant forall r :: r in built ==> var key := KeyFor(built[r].node.node); key in candidate && candidate[key] == built[r].node
      {
        assert specs[..i + 1][..i] == specs[..i];
        built := built[specs[i].id := RouteRuntime(specs[i].token, candidate[RouteKey(specs[i])])];
      }
      assert specs[..|specs|] == specs;
    }

    /** The new map shares every record a tunnel holds. */
    lemma CandidateCounts(digest: Snapshot -> string, candidate: map<string, NodeRuntime>, keys: set<string>, plan: Plan)
      requires Valid(digest) && Sound(Entries(nodes), keys, plan) && Entries(candidate) == plan.candidate
      requires forall k :: k in candidate && k in nodes ==> candidate[k] == nodes[k]
      requires forall k :: k in candidate && k !in nodes ==> candidate[k] !in held
      ensures Counts(candidate, held, holds)
    {
      hide KeyFor, Inv, Entries;
      PlacedOwn(candidate);
      HeldKept(digest, candidate, keys, plan);
      NothingElseHeld(digest);
      assert OwnKeys(candidate);
      forall k | k in candidate ensures held[candidate[k]] == holds[HoldOn(candidate[k])] {
        assert HoldOn(candidate[k]).key == k;
      }
    }

    lemma HeldKept(digest: Snapshot -> string, candidate: map<string, NodeRuntime>, keys: set<string>, plan: Plan)
      requires Valid(digest) && Sound(Entries(nodes), keys, plan) && Entries(candidate) == plan.candidate
      requires forall k :: k in candidate && k in nodes ==> candidate[k] == nodes[k]
      ensures forall n :: n in held ==> KeyFor(n.node) in candidate && candidate[KeyFor(n.node)] == n
    {
      hide KeyFor, Inv, Ports, WellPlaced;
      HeldIsActive(digest);
      forall n | n in held ensures KeyFor(n.node) in candidate && candidate[KeyFor(n.node)] == n {
        assert Entries(nodes)[KeyFor(n.node)].active > 0;
        assert KeyFor(n.node) in Held(Entries(nodes));
      }
    }

    lemma NothingElseHeld(digest: Snapshot -> string)
      requires Valid(digest)
      ensures forall h :: h in holds ==> h.key in nodes
    {
      hide KeyFor, Served, Recorded, Referenced, WellPlaced, LinkedTo;
    }

    /** Installs a snapshot: plan, apply, probe the new listeners, and swap, or roll back. */
    method Install(tokens: string -> string, digest: Snapshot -> string, snapshot: Snapshot, forward: Attempt, back: Attempt) returns (verdict: Verdict)
      requires Valid(digest)
      modifies this, controller
      ensures Valid(digest) && (View(), verdict) == EgressMachine.Install(tokens, digest, old(View()), snapshot, forward, back)
      ensures held == old(held)
    {
      hide Inv, KeyFor, Entries, RouteView, Counts, Push, PlanNodes, Acceptable, LinkedTo, Swap;
      InstallKeeps(tokens, digest, View(), snapshot, forward, back);
      var acceptable := ValidateSnapshot(tokens, snapshot);
      if !acceptable {
        return InvalidSnapshot;
      }
      if snapshot.version < appliedVersion {
        return StaleSnapshot;
      }
      if snapshot.version == appliedVersion && ready {
        return if digest(snapshot) != fingerprint then VersionConflict else AlreadyInstalled;
      }
      var candidate, keys, refusal := Candidates(snapshot.nodes);
      if refusal.Some? {
        return refusal.value;
      }
      CandidateReady(tokens, digest, snapshot, candidate);
      verdict := SwapIn(digest, snapshot, candidate, keys, PlanNodes(Entries(nodes), snapshot.nodes), forward, back);
    }

    method SwapIn(digest: Snapshot -> string, snapshot: Snapshot, candidate: map<string, NodeRuntime>, keys: set<string>, ghost plan: Plan,
                  forward: Attempt, back: Attempt) returns (verdict: Verdict)
      requires Linked() && Counts(candidate, held, holds)
      requires forall i :: 0 <= i < |snapshot.routes| ==> RouteKey(snapshot.routes[i]) in candidate
      requires plan.Plan? && Entries(candidate) == plan.candidate && keys == plan.desired
      modifies this, controller
      ensures (View(), verdict) == Swap(digest, old(View()), snapshot, plan, forward, back)
      ensures Linked() && held == old(held)
    {
      hide KeyFor, RouteKey, Entries, RouteView, Counts, Push, NewPorts, Ports, RouteMap, LinkedTo;
      var applied := Configure(candidate, nodes, forward);
      if !applied {
        RollBack(back);
        return ApplyFailed;
      }
      CommitTo(digest, snapshot, candidate, keys);
      verdict := Installed;
    }

    method RollBack(back: Attempt)
      modifies controller, this`ready
      ensures var (config, restored) := Push(old(controller.config), Entries(nodes), Ports(Entries(nodes)), back);
              View() == old(View()).(ready := old(ready) && restored, config := config)
    {
      hide Entries, RouteView, Push, NewPorts, Ports;
      AllPortsProbed(nodes);
      var restored := Configure(nodes, map[], back);
      ready := ready && restored;
    }

    method CommitTo(digest: Snapshot -> string, snapshot: Snapshot, candidate: map<string, NodeRuntime>, keys: set<string>)
      requires Counts(candidate, held, holds) && forall i :: 0 <= i < |snapshot.routes| ==> RouteKey(snapshot.routes[i]) in candidate
      modifies this
      ensures View() == Commit(digest, old(View()), snapshot, Entries(candidate), keys, controller.config)
      ensures Linked() && held == old(held)
    {
      hide KeyFor, RouteKey, Entries, RouteView, Counts, RouteMap, OwnKeys;
      CountsOwn(candidate, held, holds);
      var built := BuildRoutes(snapshot.routes, candidate);
      nodes, desired, routes := candidate, keys, built;
      fingerprint, appliedVersion, ready := digest(snapshot), snapshot.version, true;
      last := Some(snapshot);
    }

    lemma CandidateReady(tokens: string -> string, digest: Snapshot -> string, snapshot: Snapshot, candidate: map<string, NodeRuntime>)
      requires Valid(digest) && Acceptable(tokens, snapshot) && PlanNodes(Entries(nodes), snapshot.nodes).Plan?
      requires Entries(candidate) == PlanNodes(Entries(nodes), snapshot.nodes).candidate
      requires forall k :: k in candidate && k in nodes ==> candidate[k] == nodes[k]
      requires forall k :: k in candidate && k !in nodes ==> candidate[k] !in held
      ensures Counts(candidate, held, holds) && OwnKeys(candidate)
      ensures forall i :: 0 <= i < |snapshot.routes| ==> RouteKey(snapshot.routes[i]) in candidate
    {
      hide KeyFor, RouteKey, PlanNodes, Entries, Identifier, Counts, WellPlaced, Accounted, Served, Recorded, Referenced, Keys, Ports;
      var plan := PlanNodes(Entries(nodes), snapshot.nodes);
      PlanSound(Entries(nodes), snapshot.nodes);
      CandidateCounts(digest, candidate, Keys(snapshot.nodes), plan);
      assert candidate.Keys == Entries(candidate).Keys by { EntriesKeys(candidate); }
      assert OwnKeys(candidate) by { CountsOwn(candidate, held, holds); }
    }
  }

  lemma PlacedOwn(nodes: map<string, NodeRuntime>)
    requires WellPlaced(Entries(nodes))
    ensures OwnKeys(nodes)
  {
    hide KeyFor;
    forall k | k in nodes ensures KeyFor(nodes[k].node) == k { assert Entries(nodes)[k].listener.node == nodes[k].node; }
  }

  lemma EntriesKeys(nodes: map<string, NodeRuntime>)
    ensures Entries(nodes).Keys == nodes.Keys
  {
  }

  lemma CountsOwn(nodes: map<string, NodeRuntime>, held: multiset<NodeRuntime>, holds: multiset<Hold>)
    requires Counts(nodes, held, holds)
    ensures OwnKeys(nodes)
  {
    hide OwnKeys;
  }

  lemma NoneDead(target: map<string, NodeRuntime>, keys: set<string>, dead: set<int>)
    requires keys <= target.Keys
    ensures (set k | k in keys :: target[k].port) !! dead <==> forall k :: k in keys ==> target[k].port !in dead
  {
    var ports := set k | k in keys :: target[k].port;
    assert forall k :: k in keys ==> target[k].port in ports;
  }

  lemma NewPortsOf(skip: map<string, NodeRuntime>, target: map<string, NodeRuntime>)
    ensures NewPorts(Entries(skip), Entries(target)) == set k | k in target.Keys - skip.Keys :: target[k].port
  {
    var ports := set k | k in target.Keys - skip.Keys :: target[k].port;
    forall p | p in ports ensures p in NewPorts(Entries(skip), Entries(target)) {
      var k :| k in target.Keys - skip.Keys && target[k].port == p;
      assert Entries(target)[k].listener.port == p;
    }
    forall p | p in NewPorts(Entries(skip), Entries(target)) ensures p in ports {
      var k :| k in Entries(target) && k !in Entries(skip) && Entries(target)[k].listener.port == p;
      assert k in target.Keys - skip.Keys;
    }
  }

  /** Rolling back probes every listener of the map. */
  lemma AllPortsProbed(nodes: map<string, NodeRuntime>)
    ensures NewPorts(Entries(map[]), Entries(nodes)) == Ports(Entries(nodes))
  {
  }

  lemma PortsOf(nodes: map<string, NodeRuntime>)
    ensures (set k | k in nodes :: nodes[k].port) == Ports(Entries(nodes))
  {
    forall p | p in set k | k in nodes :: nodes[k].port ensures p in Ports(Entries(nodes)) {
      var k :| k in nodes && nodes[k].port == p;
      assert Entries(nodes)[k].listener.port == p;
    }
  }

  lemma HeldRecords(nodes: map<string, NodeRuntime>, candidate: map<string, NodeRuntime>)
    requires candidate == map k | k in nodes && nodes[k].active > 0 :: nodes[k]
    ensures Entries(candidate) == Held(Entries(nodes))
  {
  }

  lemma EntryAt(nodes: map<string, NodeRuntime>, key: string)
    ensures key in Entries(nodes) <==> key in nodes
    ensures key in nodes ==> Entries(nodes)[key] == EntryOf(nodes[key])
  {
  }

  lemma EntriesUpdate(nodes: map<string, NodeRuntime>, key: string, n: NodeRuntime)
    ensures Entries(nodes[key := n]) == Entries(nodes)[key := EntryOf(n)]
  {
  }
}
