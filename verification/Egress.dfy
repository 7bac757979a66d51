/**
 The account egress runtime of cmd/account-egress/runtime.go as a state machine: versioned snapshots are
 installed into a controller that may fail after taking effect, listeners get ports, live tunnels and
 probes hold nodes, and revisions nobody needs are pruned.
 */
module Egress {
  import opened Text
  import opened Sets
  import Decimals
  import Rounding

  // ---------------------------------------------------------------- snapshots

  /** usable stands for the checks on server, port, cipher and password; settings for their values. */
  datatype Node = Node(id: string, revision: int, usable: bool, settings: string)

  datatype RouteSpec = RouteSpec(id: string, token: string, nodeId: string, nodeRevision: int)

  datatype Snapshot = Snapshot(version: int, nodes: seq<Node>, routes: seq<RouteSpec>)

  /** strconv.FormatInt */
  function FormatInt(n: int): string {
    if n < 0 then "-" + Rounding.DigitsOf(-n) else Rounding.DigitsOf(n)
  }

  function NodeKey(id: string, revision: int): string {
    id + "/" + FormatInt(revision)
  }

  function KeyFor(node: Node): string {
    NodeKey(node.id, node.revision)
  }

  predicate IdentifierChar(c: char) {
    'A' <= c <= 'Z' || 'a' <= c <= 'z' || '0' <= c <= '9' || c == '_' || c == '-'
  }

  predicate Identifier(s: string) {
    1 <= |s| <= 200 && forall i :: 0 <= i < |s| ==> IdentifierChar(s[i])
  }

  predicate NodeOk(node: Node) {
    Identifier(node.id) && node.revision >= 1 && node.usable
  }

  /** The keys of the nodes, in any order. */
  function Keys(nodes: seq<Node>): set<string> {
    set i | 0 <= i < |nodes| :: KeyFor(nodes[i])
  }

  predicate Distinct(nodes: seq<Node>) {
    forall i, j :: 0 <= i < j < |nodes| ==> KeyFor(nodes[i]) != KeyFor(nodes[j])
  }

  function RouteKey(route: RouteSpec): string {
    NodeKey(route.nodeId, route.nodeRevision)
  }

  predicate RouteOk(tokens: string -> string, keys: set<string>, route: RouteSpec) {
    Identifier(route.id) && RouteKey(route) in keys && route.token == tokens(route.id)
  }

  /** What a snapshot must be to be considered at all; tokens gives the token a route must carry. */
  ghost predicate Acceptable(tokens: string -> string, s: Snapshot) {
    && s.version >= 0 && |s.nodes| <= 4096 && |s.routes| <= 65536
    && (forall i :: 0 <= i < |s.nodes| ==> NodeOk(s.nodes[i]))
    && Distinct(s.nodes)
    && (forall i :: 0 <= i < |s.routes| ==> RouteOk(tokens, Keys(s.nodes), s.routes[i]))
    && (forall i, j :: 0 <= i < j < |s.routes| ==> s.routes[i].id != s.routes[j].id)
  }

  lemma FormatIntInjective(m: int, n: int)
    requires FormatInt(m) == FormatInt(n)
    ensures m == n
  {
    hide Rounding.DigitsOf;
    var a, b := FormatInt(m), FormatInt(n);
    assert m >= 0 ==> Decimals.IsDigit(a[0]);
    assert n >= 0 ==> Decimals.IsDigit(b[0]);
    assert (m < 0 <==> a[0] == '-') && (n < 0 <==> b[0] == '-');
    Rounding.DigitsOfValue(if m < 0 then -m else m);
    Rounding.DigitsOfValue(if n < 0 then -n else n);
    assert m < 0 ==> a[1..] == Rounding.DigitsOf(-m);
    assert n < 0 ==> b[1..] == Rounding.DigitsOf(-n);
  }

  lemma NoSlash(n: int)
    ensures '/' !in FormatInt(n)
  {
    hide Rounding.DigitsOf;
  }

  /** Equal keys mean equal id and revision, for any ids: the last slash separates them. */
  lemma NodeKeyInjective(id1: string, rev1: int, id2: string, rev2: int)
    requires NodeKey(id1, rev1) == NodeKey(id2, rev2)
    ensures id1 == id2 && rev1 == rev2
  {
    hide FormatInt;
    var key := NodeKey(id1, rev1);
    NoSlash(rev1);
    NoSlash(rev2);
    var a, b := |id1|, |id2|;
    assert key[a] == '/' && key[b] == '/';
    assert forall i :: a < i < |key| ==> key[i] == FormatInt(rev1)[i - a - 1];
    assert forall i :: b < i < |key| ==> key[i] == FormatInt(rev2)[i - b - 1];
    assert a == b;
    assert key[..a] == id1 && key[..b] == id2;
    assert key[a + 1..] == FormatInt(rev1) && key[b + 1..] == FormatInt(rev2);
    FormatIntInjective(rev1, rev2);
  }

  /** A route of an acceptable snapshot names exactly one of its nodes: the one with its id and revision. */
  lemma RouteNamesOneNode(tokens: string -> string, s: Snapshot, route: RouteSpec) returns (i: nat)
    requires Acceptable(tokens, s) && route in s.routes
    ensures i < |s.nodes| && s.nodes[i].id == route.nodeId && s.nodes[i].revision == route.nodeRevision
    ensures forall j :: 0 <= j < |s.nodes| && s.nodes[j].id == route.nodeId && s.nodes[j].revision == route.nodeRevision ==> j == i
  {
    hide NodeKey, Identifier;
    i :| 0 <= i < |s.nodes| && KeyFor(s.nodes[i]) == RouteKey(route);
    NodeKeyInjective(s.nodes[i].id, s.nodes[i].revision, route.nodeId, route.nodeRevision);
    forall j | 0 <= j < |s.nodes| && s.nodes[j].id == route.nodeId && s.nodes[j].revision == route.nodeRevision ensures j == i {
      assert KeyFor(s.nodes[j]) == KeyFor(s.nodes[i]);
    }
  }

  // ---------------------------------------------------------------- ports

  const FIRST_PORT := 20000
  const LAST_PORT := 60000

  /** The scan for a free port; LAST_PORT + 1 when there is none. */
  function FreePort(used: set<int>, port: int): (p: int)
    requires FIRST_PORT <= port <= LAST_PORT + 1
    ensures port <= p <= LAST_PORT + 1 && (p <= LAST_PORT ==> p !in used)
    ensures forall q :: port <= q < p ==> q in used
    decreases LAST_PORT + 1 - port
  {
    if port <= LAST_PORT && port in used then FreePort(used, port + 1) else port
  }

  /** A node with its local listener port, and how many tunnels and probes hold it. */
  datatype Listener = Listener(node: Node, port: int)
  datatype Entry = Entry(listener: Listener, active: int)

  function Ports(nodes: map<string, Entry>): set<int> {
    set k | k in nodes :: nodes[k].listener.port
  }

  function Held(nodes: map<string, Entry>): map<string, Entry> {
    map k | k in nodes && nodes[k].active > 0 :: nodes[k]
  }

  datatype Plan = Plan(candidate: map<string, Entry>, used: set<int>, desired: set<string>) | RevisionConflict | NoCapacity

  function PlanOne(was: map<string, Entry>, plan: Plan, node: Node): Plan {
    if !plan.Plan? then plan
    else
      var key, desired := KeyFor(node), plan.desired + {KeyFor(node)};
      if key in was then
        (if was[key].listener.node != node then RevisionConflict
         else plan.(candidate := plan.candidate[key := was[key]], desired := desired))
      else
        var port := FreePort(plan.used, FIRST_PORT);
        if port > LAST_PORT then NoCapacity
        else Plan(plan.candidate[key := Entry(Listener(node, port), 0)], plan.used + {port}, desired)
  }

  /** The node map an install aims for: held nodes, nodes kept from before, and new nodes on free ports. */
  function PlanNodes(was: map<string, Entry>, nodes: seq<Node>): Plan {
    if nodes == [] then Plan(Held(was), Ports(was), {})
    else PlanOne(was, PlanNodes(was, nodes[..|nodes| - 1]), nodes[|nodes| - 1])
  }

  /** Listeners of one map never share a port, and ports are in range; keys name their node. */
  ghost predicate WellPlaced(nodes: map<string, Entry>) {
    && (forall k :: k in nodes ==> FIRST_PORT <= nodes[k].listener.port <= LAST_PORT && KeyFor(nodes[k].listener.node) == k)
    && (forall k, l :: k in nodes && l in nodes && nodes[k].listener.port == nodes[l].listener.port ==> k == l)
  }

  /**
   What a plan guarantees against the map it starts from: what is held or kept is unchanged, a new
   listener's port belongs to no listener of the earlier map, and nothing else is in the plan.
   */
  ghost predicate Sound(was: map<string, Entry>, keys: set<string>, plan: Plan) {
    && plan.Plan? && WellPlaced(plan.candidate) && plan.desired == keys
    && plan.candidate.Keys == Held(was).Keys + keys
    && (forall k :: k in plan.candidate && k in was ==> plan.candidate[k] == was[k])
    && (forall k :: k in plan.candidate && k !in was ==> plan.candidate[k].active == 0 && plan.candidate[k].listener.port !in Ports(was))
    && Ports(was) + Ports(plan.candidate) <= plan.used
  }

  lemma KeysSnoc(nodes: seq<Node>, node: Node)
    ensures Keys(nodes + [node]) == Keys(nodes) + {KeyFor(node)}
  {
    var all := nodes + [node];
    assert all[|nodes|] == node;
    forall i | 0 <= i < |nodes| ensures KeyFor(nodes[i]) in Keys(all) { assert all[i] == nodes[i]; }
  }

  lemma PlaceOne(nodes: map<string, Entry>, key: string, e: Entry)
    requires WellPlaced(nodes) && key !in nodes && KeyFor(e.listener.node) == key
    requires FIRST_PORT <= e.listener.port <= LAST_PORT && e.listener.port !in Ports(nodes)
    ensures WellPlaced(nodes[key := e]) && Ports(nodes[key := e]) == Ports(nodes) + {e.listener.port}
  {
    hide KeyFor;
    var next := nodes[key := e];
    forall k | k in nodes ensures nodes[k].listener.port in Ports(nodes) && next[k] == nodes[k] {
    }
    assert next[key].listener.port in Ports(next);
    forall p | p in Ports(nodes) ensures p in Ports(next) {
      var k :| k in nodes && nodes[k].listener.port == p;
      assert next[k].listener.port in Ports(next);
    }
  }

  lemma Placed(nodes: map<string, Entry>, key: string)
    requires WellPlaced(nodes) && key in nodes
    ensures FIRST_PORT <= nodes[key].listener.port <= LAST_PORT && KeyFor(nodes[key].listener.node) == key
    ensures nodes[key].listener.port in Ports(nodes)
  {
    hide KeyFor;
  }

  lemma KeptPortIsFree(was: map<string, Entry>, keys: set<string>, plan: Plan, key: string)
    requires WellPlaced(was) && Sound(was, keys, plan) && key in was && key !in plan.candidate
    ensures was[key].listener.port !in Ports(plan.candidate)
  {
    hide KeyFor;
    assert was[key].listener.port in Ports(was);
    forall k | k in plan.candidate ensures plan.candidate[k].listener.port != was[key].listener.port {
    }
  }

  lemma KeepSound(was: map<string, Entry>, keys: set<string>, plan: Plan, node: Node)
    requires WellPlaced(was) && Sound(was, keys, plan) && KeyFor(node) in was && PlanOne(was, plan, node).Plan?
    ensures Sound(was, keys + {KeyFor(node)}, PlanOne(was, plan, node))
  {
    hide FreePort, KeyFor, WellPlaced, Ports;
    var key := KeyFor(node);
    Placed(was, key);
    if key in plan.candidate {
      assert plan.candidate[key := was[key]] == plan.candidate;
    } else {
      KeptPortIsFree(was, keys, plan, key);
      PlaceOne(plan.candidate, key, was[key]);
    }
  }

  lemma AddSound(was: map<string, Entry>, keys: set<string>, plan: Plan, node: Node)
    requires Sound(was, keys, plan) && KeyFor(node) !in was && PlanOne(was, plan, node).Plan?
    requires KeyFor(node) !in plan.candidate
    ensures Sound(was, keys + {KeyFor(node)}, PlanOne(was, plan, node))
  {
    hide FreePort, KeyFor, WellPlaced, Ports;
    PlaceOne(plan.candidate, KeyFor(node), Entry(Listener(node, FreePort(plan.used, FIRST_PORT)), 0));
  }

  lemma {:induction false} PlanSound(was: map<string, Entry>, nodes: seq<Node>)
    requires WellPlaced(was) && Distinct(nodes) && PlanNodes(was, nodes).Plan?
    ensures Sound(was, Keys(nodes), PlanNodes(was, nodes))
  {
    hide Sound, PlanOne, WellPlaced, KeyFor, Keys, Distinct;
    if nodes == [] {
      HeldIsSound(was);
    } else {
      var rest, node := nodes[..|nodes| - 1], nodes[|nodes| - 1];
      assert nodes == rest + [node];
      KeysSnoc(rest, node);
      PlanPersists(was, PlanNodes(was, rest), node);
      DistinctInit(nodes);
      PlanSound(was, rest);
      if KeyFor(node) in was {
        KeepSound(was, Keys(rest), PlanNodes(was, rest), node);
      } else {
        NewKey(was, nodes);
        AddSound(was, Keys(rest), PlanNodes(was, rest), node);
      }
    }
  }

  lemma HeldIsSound(was: map<string, Entry>)
    requires WellPlaced(was)
    ensures Sound(was, Keys([]), Plan(Held(was), Ports(was), {}))
  {
    hide KeyFor;
    forall p | p in Ports(Held(was)) ensures p in Ports(was) {
      var k :| k in Held(was) && Held(was)[k].listener.port == p;
      assert was[k].listener.port in Ports(was);
    }
  }

  lemma DistinctInit(nodes: seq<Node>)
    requires nodes != [] && Distinct(nodes)
    ensures Distinct(nodes[..|nodes| - 1])
  {
    hide KeyFor;
  }

  lemma PlanPersists(was: map<string, Entry>, plan: Plan, node: Node)
    requires PlanOne(was, plan, node).Plan?
    ensures plan.Plan?
  {
    hide FreePort, NodeKey;
  }

  lemma NewKey(was: map<string, Entry>, nodes: seq<Node>)
    requires nodes != [] && Distinct(nodes) && KeyFor(nodes[|nodes| - 1]) !in was
    requires Sound(was, Keys(nodes[..|nodes| - 1]), PlanNodes(was, nodes[..|nodes| - 1]))
    ensures KeyFor(nodes[|nodes| - 1]) !in PlanNodes(was, nodes[..|nodes| - 1]).candidate
  {
    hide PlanNodes, NodeKey, WellPlaced;
    var rest := nodes[..|nodes| - 1];
    forall i | 0 <= i < |rest| ensures KeyFor(rest[i]) != KeyFor(nodes[|nodes| - 1]) { assert rest[i] == nodes[i]; }
  }

  /** Every node of the snapshot is planned as itself. */
  lemma {:induction false} PlanNames(was: map<string, Entry>, nodes: seq<Node>, i: nat)
    requires PlanNodes(was, nodes).Plan? && Distinct(nodes) && i < |nodes|
    ensures KeyFor(nodes[i]) in PlanNodes(was, nodes).candidate
    ensures PlanNodes(was, nodes).candidate[KeyFor(nodes[i])].listener.node == nodes[i]
  {
    hide FreePort, NodeKey;
    if i < |nodes| - 1 {
      assert nodes[..|nodes| - 1][i] == nodes[i];
      PlanNames(was, nodes[..|nodes| - 1], i);
    }
  }

  // ---------------------------------------------------------------- capacity

  const CAPACITY := 40001

  function AllPorts(): set<int> {
    Interval(FIRST_PORT, CAPACITY)
  }

  lemma PortCount(used: set<int>)
    requires used <= AllPorts()
    ensures |used| <= CAPACITY
    ensures FreePort(used, FIRST_PORT) > LAST_PORT <==> |used| == CAPACITY
  {
    IntervalSize(FIRST_PORT, CAPACITY);
    SubsetSize(used, AllPorts());
    var p := FreePort(used, FIRST_PORT);
    assert p <= LAST_PORT ==> Within(p, FIRST_PORT, CAPACITY);
    assert p > LAST_PORT ==> used == AllPorts();
  }

  /** No node of the snapshot reuses an id and revision with other settings. */
  predicate Agrees(was: map<string, Entry>, nodes: seq<Node>) {
    forall i :: 0 <= i < |nodes| && KeyFor(nodes[i]) in was ==> was[KeyFor(nodes[i])].listener.node == nodes[i]
  }

  /** Pigeonhole: the ports in use are exactly one for each earlier listener and one for each new node. */
  ghost predicate Counted(was: map<string, Entry>, nodes: seq<Node>, plan: Plan) {
    plan.Plan? && plan.used <= AllPorts() && |plan.used| == |was.Keys| + |Keys(nodes) - was.Keys|
  }

  lemma {:induction false} PortsSize(was: map<string, Entry>, keys: set<string>)
    requires WellPlaced(was) && keys <= was.Keys
    ensures |set k | k in keys :: was[k].listener.port| == |keys|
    decreases |keys|
  {
    var image := set k | k in keys :: was[k].listener.port;
    if keys == {} {
      assert image == {};
    } else {
      var x := Pick(keys);
      PortsSize(was, keys - {x});
      var rest := set k | k in keys - {x} :: was[k].listener.port;
      assert image == rest + {was[x].listener.port};
    }
  }

  /**
   Installation is refused for lack of ports exactly when the listeners of the earlier map and the new
   nodes together need more than the 40001 ports there are.
   */
  lemma {:induction false} RefusedExactlyWhenFull(was: map<string, Entry>, nodes: seq<Node>)
    requires WellPlaced(was) && Distinct(nodes) && Agrees(was, nodes)
    ensures PlanNodes(was, nodes).NoCapacity? <==> |was| + |Keys(nodes) - was.Keys| > CAPACITY
    ensures !PlanNodes(was, nodes).NoCapacity? ==> Counted(was, nodes, PlanNodes(was, nodes))
  {
    hide Counted, WellPlaced, PlanOne, KeyFor, Keys, Distinct, Agrees;
    if nodes == [] {
      NothingPlanned(was);
    } else {
      var rest, node := nodes[..|nodes| - 1], nodes[|nodes| - 1];
      assert nodes == rest + [node];
      DistinctInit(nodes);
      AgreesInit(was, nodes);
      RefusedExactlyWhenFull(was, rest);
      PlanOneCounts(was, rest, node, PlanNodes(was, rest));
    }
  }

  lemma AgreesInit(was: map<string, Entry>, nodes: seq<Node>)
    requires nodes != [] && Agrees(was, nodes)
    ensures Agrees(was, nodes[..|nodes| - 1])
    ensures var node := nodes[|nodes| - 1]; KeyFor(node) in was ==> was[KeyFor(node)].listener.node == node
  {
    hide KeyFor;
  }

  lemma NothingPlanned(was: map<string, Entry>)
    requires WellPlaced(was)
    ensures Counted(was, [], PlanNodes(was, [])) && |was| + |Keys([]) - was.Keys| <= CAPACITY
  {
    PortsSize(was, was.Keys);
    assert Ports(was) == set k | k in was.Keys :: was[k].listener.port;
    assert Keys([]) - was.Keys == {};
    assert |was| == |was.Keys|;
    forall p | p in Ports(was) ensures p in AllPorts() {
      var k :| k in was && was[k].listener.port == p;
      assert Within(p, FIRST_PORT, CAPACITY);
    }
    PortCount(Ports(was));
  }

  lemma PlanOneCounts(was: map<string, Entry>, rest: seq<Node>, node: Node, plan: Plan)
    requires Distinct(rest + [node]) && (KeyFor(node) in was ==> was[KeyFor(node)].listener.node == node)
    requires plan.NoCapacity? <==> |was| + |Keys(rest) - was.Keys| > CAPACITY
    requires !plan.NoCapacity? ==> Counted(was, rest, plan)
    ensures var next := PlanOne(was, plan, node);
            && (next.NoCapacity? <==> |was| + |Keys(rest + [node]) - was.Keys| > CAPACITY)
            && (!next.NoCapacity? ==> Counted(was, rest + [node], next))
  {
    hide AllPorts, FreePort, KeyFor, Keys, Distinct;
    KeysGrow(was, rest, node);
    if plan.Plan? && KeyFor(node) !in was {
      PortCount(plan.used);
      AddPort(plan.used);
    }
  }

  lemma KeysGrow(was: map<string, Entry>, rest: seq<Node>, node: Node)
    requires Distinct(rest + [node])
    ensures |Keys(rest + [node]) - was.Keys| == |Keys(rest) - was.Keys| + if KeyFor(node) in was then 0 else 1
  {
    hide KeyFor, Keys, Distinct;
    KeysSnoc(rest, node);
    NotYetPlanned(rest + [node]);
    assert (rest + [node])[..|rest|] == rest;
    Grow(Keys(rest), was.Keys, KeyFor(node));
  }

  lemma Grow<T>(a: set<T>, b: set<T>, x: T)
    requires x !in a
    ensures |a + {x} - b| == |a - b| + if x in b then 0 else 1
  {
    if x in b {
      assert a + {x} - b == a - b;
    } else {
      assert a + {x} - b == (a - b) + {x};
    }
  }

  lemma NotYetPlanned(nodes: seq<Node>)
    requires nodes != [] && Distinct(nodes)
    ensures KeyFor(nodes[|nodes| - 1]) !in Keys(nodes[..|nodes| - 1])
  {
    hide NodeKey;
    var rest := nodes[..|nodes| - 1];
    forall i | 0 <= i < |rest| ensures KeyFor(rest[i]) != KeyFor(nodes[|nodes| - 1]) { assert rest[i] == nodes[i]; }
  }

  lemma AddPort(used: set<int>)
    requires used <= AllPorts()
    ensures var p := FreePort(used, FIRST_PORT); p <= LAST_PORT ==> used + {p} <= AllPorts() && |used + {p}| == |used| + 1
  {
  }

  /** A revision conflict is reported only for a node that is in the map with other settings. */
  lemma {:induction false} ConflictIsReal(was: map<string, Entry>, nodes: seq<Node>)
    requires PlanNodes(was, nodes).RevisionConflict?
    ensures !Agrees(was, nodes)
  {
    hide FreePort, NodeKey;
    var rest := nodes[..|nodes| - 1];
    if PlanNodes(was, rest).RevisionConflict? {
      ConflictIsReal(was, rest);
      var i :| 0 <= i < |rest| && KeyFor(rest[i]) in was && was[KeyFor(rest[i])].listener.node != rest[i];
      assert nodes[i] == rest[i];
    }
  }

  // ---------------------------------------------------------------- which ports

  /** The given number of lowest ports that no listener of the map has. */
  ghost predicate LowestFree(was: map<string, Entry>, ports: set<int>, n: nat) {
    && |ports| == n && ports <= AllPorts() && ports !! Ports(was)
    && (forall p, q :: p in ports && FIRST_PORT <= q < p && q !in Ports(was) ==> q in ports)
  }

  /** How many of the nodes are not in the map. */
  function NewNodes(was: map<string, Entry>, nodes: seq<Node>): nat {
    |Keys(nodes) - was.Keys|
  }

  lemma LowestFreeUnique(was: map<string, Entry>, a: set<int>, b: set<int>, n: nat)
    requires LowestFree(was, a, n) && LowestFree(was, b, n)
    ensures a == b
  {
    Comparable(was, a, b, n);
    if a <= b { SubsetSize(a, b); } else { SubsetSize(b, a); }
  }

  lemma Comparable(was: map<string, Entry>, a: set<int>, b: set<int>, n: nat)
    requires LowestFree(was, a, n) && LowestFree(was, b, n)
    ensures a <= b || b <= a
  {
    if a - b != {} {
      var p := Pick(a - b);
      assert Within(p, FIRST_PORT, CAPACITY);
      forall q | q in b ensures q in a {
        assert Within(q, FIRST_PORT, CAPACITY);
        assert p < q ==> p in b;
      }
    } else {
      forall p | p in a ensures p in b { assert p !in a - b; }
    }
  }

  /** New nodes are given the lowest free ports, one each. */
  lemma {:induction false} PlanTakesLowest(was: map<string, Entry>, nodes: seq<Node>)
    requires Distinct(nodes) && PlanNodes(was, nodes).Plan?
    ensures LowestFree(was, PlanNodes(was, nodes).used - Ports(was), NewNodes(was, nodes))
    ensures Ports(was) <= PlanNodes(was, nodes).used
  {
    hide KeyFor, Keys, Distinct, PlanOne, LowestFree, Ports, PlanNodes, NewNodes;
    if nodes == [] {
      NoneTaken(was);
    } else {
      var rest, node := nodes[..|nodes| - 1], nodes[|nodes| - 1];
      assert nodes == rest + [node];
      PlanSnoc(was, rest, node);
      DistinctInit(nodes);
      PlanPersists(was, PlanNodes(was, rest), node);
      PlanTakesLowest(was, rest);
      NewNodesGrow(was, rest, node);
      TakesLowest(was, PlanNodes(was, rest), node, NewNodes(was, rest));
    }
  }

  lemma NewNodesGrow(was: map<string, Entry>, rest: seq<Node>, node: Node)
    requires Distinct(rest + [node])
    ensures NewNodes(was, rest + [node]) == NewNodes(was, rest) + if KeyFor(node) in was then 0 else 1
  {
    hide KeyFor, Keys, Distinct;
    KeysGrow(was, rest, node);
  }

  lemma PlanSnoc(was: map<string, Entry>, rest: seq<Node>, node: Node)
    ensures PlanNodes(was, rest + [node]) == PlanOne(was, PlanNodes(was, rest), node)
  {
    hide PlanOne;
    assert (rest + [node])[..|rest|] == rest;
  }

  lemma NoneTaken(was: map<string, Entry>)
    ensures PlanNodes(was, []) == Plan(Held(was), Ports(was), {})
    ensures LowestFree(was, Ports(was) - Ports(was), NewNodes(was, []))
  {
    assert Keys([]) - was.Keys == {};
    assert Ports(was) - Ports(was) == {};
  }

  lemma TakesLowest(was: map<string, Entry>, plan: Plan, node: Node, n: nat)
    requires plan.Plan? && PlanOne(was, plan, node).Plan? && Ports(was) <= plan.used && LowestFree(was, plan.used - Ports(was), n)
    ensures var next := PlanOne(was, plan, node);
            Ports(was) <= next.used && LowestFree(was, next.used - Ports(was), n + if KeyFor(node) in was then 0 else 1)
  {
    hide KeyFor, Ports;
    if KeyFor(node) !in was {
      var port := FreePort(plan.used, FIRST_PORT);
      assert Within(port, FIRST_PORT, CAPACITY);
      assert plan.used + {port} - Ports(was) == (plan.used - Ports(was)) + {port};
    }
  }

  /** The new ports of a plan are exactly those its new nodes listen on. */
  lemma {:induction false} PlanListens(was: map<string, Entry>, nodes: seq<Node>)
    requires WellPlaced(was) && Distinct(nodes) && PlanNodes(was, nodes).Plan?
    ensures var plan := PlanNodes(was, nodes);
            plan.used - Ports(was) == set k | k in plan.candidate && k !in was :: plan.candidate[k].listener.port
  {
    hide WellPlaced, KeyFor, Keys, Distinct, Ports, PlanOne;
    if nodes == [] {
      assert Held(was).Keys <= was.Keys;
    } else {
      var rest, node := nodes[..|nodes| - 1], nodes[|nodes| - 1];
      assert nodes == rest + [node];
      PlanPersists(was, PlanNodes(was, rest), node);
      DistinctInit(nodes);
      PlanListens(was, rest);
      PlanSound(was, rest);
      if KeyFor(node) !in was { NewKey(was, nodes); }
      PlanTakesLowest(was, rest);
      ListensOne(was, PlanNodes(was, rest), node);
    }
  }

  lemma ListensOne(was: map<string, Entry>, plan: Plan, node: Node)
    requires plan.Plan? && PlanOne(was, plan, node).Plan? && Ports(was) <= plan.used
    requires KeyFor(node) !in was ==> KeyFor(node) !in plan.candidate
    requires plan.used - Ports(was) == set k | k in plan.candidate && k !in was :: plan.candidate[k].listener.port
    ensures var next := PlanOne(was, plan, node);
            next.used - Ports(was) == set k | k in next.candidate && k !in was :: next.candidate[k].listener.port
  {
    hide KeyFor, Ports, FreePort;
    var next, key := PlanOne(was, plan, node), KeyFor(node);
    var before := set k | k in plan.candidate && k !in was :: plan.candidate[k].listener.port;
    var after := set k | k in next.candidate && k !in was :: next.candidate[k].listener.port;
    forall p | p in before ensures p in after {
      var k :| k in plan.candidate && k !in was && plan.candidate[k].listener.port == p;
      assert k in next.candidate && next.candidate[k].listener.port == p;
    }
    if key in was {
      assert after == before;
    } else {
      assert next.candidate[key].listener.port in after;
      assert after == before + {FreePort(plan.used, FIRST_PORT)};
    }
  }
}
