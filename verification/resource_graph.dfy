/** The compiled resource graph: authored dependencies, validation, and the deterministic schedule. */
module ResourceGraph {
  import opened Addresses
  import opened Digraph
  import opened Kahn
  import opened Model
  import opened CycleFinding

  datatype GraphError =
    | EmptyNodeAddress
    | DuplicateAddress(address: string)
    | UnknownDependency(address: string, dependency: string)
    | UnknownTrigger(address: string, trigger: string)
    | TriggerNotDependency(address: string, trigger: string)
    | DependencyCycle(cycle: seq<string>)
    | IncompleteSchedule

  function NodeAddresses(nodes: seq<Node>): (r: seq<string>)
    ensures |r| == |nodes| && forall i :: 0 <= i < |r| ==> r[i] == nodes[i].address
  {
    seq(|nodes|, i requires 0 <= i < |nodes| => nodes[i].address)
  }

  predicate WellAddressed(nodes: seq<Node>)
  {
    Distinct(NodeAddresses(nodes)) && "" !in NodeAddresses(nodes)
  }

  /** Edges from a node to what it needs: the direction the cycle search follows. */
  ghost function Needs(nodes: seq<Node>): set<Edge>
  {
    set k, d | 0 <= k < |nodes| && d in nodes[k].dependsOn :: (nodes[k].address, d)
  }

  ghost function Reverse(E: set<Edge>): set<Edge>
  {
    set e | e in E :: (e.1, e.0)
  }

  /** Edges from a dependency to the nodes waiting for it: the direction the schedule follows. */
  ghost function Unblocks(nodes: seq<Node>): set<Edge>
  {
    Reverse(Needs(nodes))
  }

  ghost predicate KnownReferences(nodes: seq<Node>, node: Node)
  {
    && (forall d :: d in node.dependsOn ==> d in NodeAddresses(nodes))
    && (forall t :: t in node.triggeredBy ==> t in node.dependsOn)
  }

  ghost predicate ValidGraph(nodes: seq<Node>)
  {
    && WellAddressed(nodes)
    && (forall k :: 0 <= k < |nodes| ==> KnownReferences(nodes, nodes[k]))
    && Acyclic(Needs(nodes))
  }

  /** What each validation error asserts about the graph. */
  ghost predicate Witnesses(nodes: seq<Node>, error: GraphError)
  {
    match error
    case EmptyNodeAddress => "" in NodeAddresses(nodes)
    case DuplicateAddress(a) => exists i, j :: 0 <= i < j < |nodes| && nodes[i].address == nodes[j].address == a
    case UnknownDependency(a, d) =>
      d !in NodeAddresses(nodes) && exists k :: 0 <= k < |nodes| && nodes[k].address == a && d in nodes[k].dependsOn
    case UnknownTrigger(a, t) =>
      t !in NodeAddresses(nodes) && exists k :: 0 <= k < |nodes| && nodes[k].address == a && t in nodes[k].triggeredBy
    case TriggerNotDependency(a, t) =>
      exists k :: 0 <= k < |nodes| && nodes[k].address == a && t in nodes[k].triggeredBy && t !in nodes[k].dependsOn
    case DependencyCycle(c) => IsCanonicalCycle(Needs(nodes), c)
    case IncompleteSchedule => false
  }

  ghost predicate NodesIndexed(nodes: seq<Node>, byAddress: map<string, Node>)
  {
    && (forall a :: a in byAddress <==> a in NodeAddresses(nodes))
    && (forall i :: 0 <= i < |nodes| ==> byAddress[NodeAddresses(nodes)[i]] == nodes[i])
  }

  lemma NothingIndexed(nodes: seq<Node>)
    ensures WellAddressed(nodes[..0]) && NodesIndexed(nodes[..0], map[])
  {
  }

  lemma IndexedNext(nodes: seq<Node>, i: nat, byAddress: map<string, Node>)
    requires i < |nodes| && WellAddressed(nodes[..i]) && NodesIndexed(nodes[..i], byAddress)
    ensures var a := nodes[i].address;
            && (a == "" ==> !WellAddressed(nodes) && Witnesses(nodes, EmptyNodeAddress))
            && (a in byAddress ==> !WellAddressed(nodes) && Witnesses(nodes, DuplicateAddress(a)))
            && (a != "" && a !in byAddress ==> WellAddressed(nodes[..i + 1]) && NodesIndexed(nodes[..i + 1], byAddress[a := nodes[i]]))
  {
    var a := nodes[i].address;
    assert NodeAddresses(nodes)[i] == a;
    assert NodeAddresses(nodes[..i]) == NodeAddresses(nodes)[..i];
    assert NodeAddresses(nodes[..i + 1]) == NodeAddresses(nodes)[..i] + [a];
    if a in byAddress {
      var j :| 0 <= j < i && NodeAddresses(nodes)[..i][j] == a;
      assert nodes[j].address == nodes[i].address == a;
      assert NodeAddresses(nodes)[j] == NodeAddresses(nodes)[i];
    }
  }

  method IndexNodes(nodes: seq<Node>) returns (r: Result<map<string, Node>, GraphError>)
    ensures r.Ok? ==> WellAddressed(nodes) && NodesIndexed(nodes, r.value)
    ensures r.Err? ==> !WellAddressed(nodes) && Witnesses(nodes, r.error)
  {
    var byAddress: map<string, Node> := map[];
    NothingIndexed(nodes);
    hide *;
    for i := 0 to |nodes|
      invariant WellAddressed(nodes[..i]) && NodesIndexed(nodes[..i], byAddress)
    {
      var a := nodes[i].address;
      IndexedNext(nodes, i, byAddress);
      if a == "" {
        return Err(EmptyNodeAddress);
      }
      if a in byAddress {
        return Err(DuplicateAddress(a));
      }
      byAddress := byAddress[a := nodes[i]];
    }
    assert nodes[..|nodes|] == nodes;
    r := Ok(byAddress);
  }

  /** The reference checks of one node. */
  method CheckReferences(nodes: seq<Node>, k: nat, byAddress: map<string, Node>) returns (r: Option<GraphError>)
    requires k < |nodes| && NodesIndexed(nodes, byAddress)
    ensures r.None? <==> KnownReferences(nodes, nodes[k])
    ensures r.Some? ==> Witnesses(nodes, r.value)
  {
    var node := nodes[k];
    var deps := CanonicalAddresses(node.dependsOn);
    assert forall d :: d in deps <==> d in Elements(deps);
    assert forall d :: d in node.dependsOn <==> d in Elements(node.dependsOn);
    for i := 0 to |deps|
      invariant forall d :: d in deps[..i] ==> d in byAddress
    {
      TakeNext(deps, i);
      if deps[i] !in byAddress {
        assert deps[i] in deps;
        return Some(UnknownDependency(node.address, deps[i]));
      }
    }
    assert deps[..|deps|] == deps;
    for i := 0 to |node.triggeredBy|
      invariant forall t :: t in node.triggeredBy[..i] ==> t in node.dependsOn
    {
      var t := node.triggeredBy[i];
      assert t in node.triggeredBy;
      TakeNext(node.triggeredBy, i);
      if t !in byAddress {
        return Some(UnknownTrigger(node.address, t));
      }
      if t !in node.dependsOn {
        return Some(TriggerNotDependency(node.address, t));
      }
    }
    assert node.triggeredBy[..|node.triggeredBy|] == node.triggeredBy;
    return None;
  }

  /** `validatedNodes`: succeeds exactly on valid graphs, and otherwise names a real fault. */
  method ValidatedNodes(nodes: seq<Node>) returns (r: Result<map<string, Node>, GraphError>)
    ensures r.Ok? <==> ValidGraph(nodes)
    ensures r.Ok? ==> NodesIndexed(nodes, r.value)
    ensures r.Err? ==> Witnesses(nodes, r.error)
  {
    var index := IndexNodes(nodes);
    if index.Err? {
      return index;
    }
    var byAddress := index.value;
    for k := 0 to |nodes|
      invariant forall i :: 0 <= i < k ==> KnownReferences(nodes, nodes[i])
    {
      var bad := CheckReferences(nodes, k, byAddress);
      if bad.Some? {
        return Err(bad.value);
      }
    }
    var adjacency := Adjacency(byAddress);
    AdjacencyIsNeeds(nodes, byAddress);
    var cycle := FindCycle(adjacency);
    if cycle.Some? {
      return Err(DependencyCycle(cycle.value));
    }
    return Ok(byAddress);
  }

  function Adjacency(byAddress: map<string, Node>): map<string, set<string>>
  {
    map a | a in byAddress :: set d | d in byAddress[a].dependsOn
  }

  lemma AdjacencyIsNeeds(nodes: seq<Node>, byAddress: map<string, Node>)
    requires NodesIndexed(nodes, byAddress)
    requires forall k :: 0 <= k < |nodes| ==> KnownReferences(nodes, nodes[k])
    ensures EdgeSet(Adjacency(byAddress)) == Needs(nodes)
    ensures forall e :: e in Needs(nodes) ==> e.1 in byAddress
  {
    forall a, d | a in byAddress && d in byAddress[a].dependsOn ensures (a, d) in Needs(nodes) {
      var k :| 0 <= k < |nodes| && NodeAddresses(nodes)[k] == a;
      assert byAddress[NodeAddresses(nodes)[k]] == nodes[k];
    }
    forall e | e in Needs(nodes) ensures e in EdgeSet(Adjacency(byAddress)) && e.1 in byAddress {
      var k, d :| 0 <= k < |nodes| && d in nodes[k].dependsOn && e == (nodes[k].address, d);
      assert NodeAddresses(nodes)[k] == nodes[k].address;
      assert byAddress[NodeAddresses(nodes)[k]] == nodes[k];
    }
    assert forall e :: e in EdgeSet(Adjacency(byAddress)) ==> e in Needs(nodes);
  }

  // ---- the schedule ----

  ghost function Priority(nodes: seq<Node>): seq<string>
  {
    SortedSeq(Elements(NodeAddresses(nodes)))
  }

  /** The address-lexicographically greedy topological order. */
  ghost function ScheduleOrder(nodes: seq<Node>): seq<string>
  {
    LeastOrder(Priority(nodes), Unblocks(nodes))
  }

  lemma {:induction false} ReverseWalk(E: set<Edge>, p: seq<string>) returns (q: seq<string>)
    requires IsWalk(E, p)
    ensures WalkFromTo(Reverse(E), q, p[|p| - 1], p[0])
    decreases |p|
  {
    if |p| == 1 {
      q := p;
    } else {
      assert (p[0], p[1]) in E;
      var r := ReverseWalk(E, p[1..]);
      q := r + [p[0]];
      assert (p[0], p[1]) in E && (p[1], p[0]) in Reverse(E);
      forall i, j | 0 <= i && j == i + 1 && j < |q| ensures (q[i], q[j]) in Reverse(E) {
        if j < |r| { assert (r[i], r[j]) in Reverse(E); }
      }
    }
  }

  lemma ReverseReach(E: set<Edge>, x: string, y: string)
    requires Reaches(E, x, y)
    ensures Reaches(Reverse(E), y, x)
  {
    var p :| WalkFromTo(E, p, x, y);
    var q := ReverseWalk(E, p);
  }

  lemma ReverseTwice(E: set<Edge>)
    ensures Reverse(Reverse(E)) == E
  {
    forall e | e in E ensures e in Reverse(Reverse(E)) {
      assert (e.1, e.0) in Reverse(E);
    }
  }

  lemma ReverseAcyclic(E: set<Edge>)
    requires Acyclic(E)
    ensures Acyclic(Reverse(E))
  {
    ReverseTwice(E);
    forall e | e in Reverse(E) ensures !Reaches(Reverse(E), e.1, e.0) {
      assert (e.1, e.0) in E && !Reaches(E, (e.1, e.0).1, (e.1, e.0).0);
      if Reaches(Reverse(E), e.1, e.0) {
        ReverseReach(Reverse(E), e.1, e.0);
      }
    }
  }

  lemma ScheduleEdges(nodes: seq<Node>)
    requires ValidGraph(nodes)
    ensures Distinct(Priority(nodes)) && StrictlySorted(Priority(nodes))
    ensures forall a :: a in Priority(nodes) <==> a in NodeAddresses(nodes)
    ensures Within(Unblocks(nodes), Priority(nodes)) && Acyclic(Unblocks(nodes))
  {
    StrictlySortedIsDistinct(Priority(nodes));
    assert forall a :: a in Priority(nodes) <==> a in Elements(Priority(nodes));
    ReverseAcyclic(Needs(nodes));
    forall e | e in Unblocks(nodes) ensures e.0 in Priority(nodes) && e.1 in Priority(nodes) {
      var k, d :| 0 <= k < |nodes| && d in nodes[k].dependsOn && e == (d, nodes[k].address);
      assert NodeAddresses(nodes)[k] == nodes[k].address;
    }
  }

  /** DFS validation implies Kahn completeness, and what the schedule promises. */
  lemma ValidGraphSchedules(nodes: seq<Node>)
    requires ValidGraph(nodes)
    ensures Permutes(ScheduleOrder(nodes), Priority(nodes))
    ensures forall k, d :: 0 <= k < |nodes| && (d in nodes[k].dependsOn || d in nodes[k].triggeredBy)
              ==> Precedes(ScheduleOrder(nodes), d, nodes[k].address)
  {
    ScheduleEdges(nodes);
    LeastOrderComplete(Priority(nodes), Unblocks(nodes));
    var order := ScheduleOrder(nodes);
    forall k, d | 0 <= k < |nodes| && (d in nodes[k].dependsOn || d in nodes[k].triggeredBy)
      ensures Precedes(order, d, nodes[k].address)
    {
      assert KnownReferences(nodes, nodes[k]);
      assert NodeAddresses(nodes)[k] == nodes[k].address;
      assert (nodes[k].address, d) in Needs(nodes);
      assert (d, nodes[k].address) in Unblocks(nodes);
      var i, j := IndexOf(order, d), IndexOf(order, nodes[k].address);
      assert (order[i], order[j]) in Unblocks(nodes);
    }
  }

  /** No other topological order of the graph is lexicographically smaller in Go's string order. */
  lemma ScheduleIsLeast(nodes: seq<Node>, other: seq<string>, k: nat)
    requires ValidGraph(nodes) && |ScheduleOrder(nodes)| == |other|
    requires Permutes(other, Priority(nodes)) && Topological(other, Unblocks(nodes))
    requires k < |other| && other[..k] == ScheduleOrder(nodes)[..k] && other[k] != ScheduleOrder(nodes)[k]
    ensures Less(ScheduleOrder(nodes)[k], other[k])
  {
    ScheduleEdges(nodes);
    LeastOrderIsLeast(Priority(nodes), Unblocks(nodes), other, k);
  }

  ghost predicate SameNode(n: Node, m: Node)
  {
    n.address == m.address && Elements(n.dependsOn) == Elements(m.dependsOn)
  }

  ghost predicate HasTwin(n: Node, nodes: seq<Node>)
  {
    exists j :: 0 <= j < |nodes| && SameNode(n, nodes[j])
  }

  /** Both graphs hold the same nodes, in any order and with their dependency lists in any order. */
  ghost predicate SameNodes(nodes: seq<Node>, nodes': seq<Node>)
  {
    && (forall i :: 0 <= i < |nodes| ==> HasTwin(nodes[i], nodes'))
    && (forall j :: 0 <= j < |nodes'| ==> HasTwin(nodes'[j], nodes))
  }

  lemma NeedsSubset(nodes: seq<Node>, nodes': seq<Node>)
    requires forall i :: 0 <= i < |nodes| ==> HasTwin(nodes[i], nodes')
    ensures Needs(nodes) <= Needs(nodes')
    ensures Elements(NodeAddresses(nodes)) <= Elements(NodeAddresses(nodes'))
  {
    forall e | e in Needs(nodes) ensures e in Needs(nodes') {
      var k, d :| 0 <= k < |nodes| && d in nodes[k].dependsOn && e == (nodes[k].address, d);
      var j :| 0 <= j < |nodes'| && SameNode(nodes[k], nodes'[j]);
      assert d in Elements(nodes[k].dependsOn);
    }
    forall a | a in NodeAddresses(nodes) ensures a in NodeAddresses(nodes') {
      var k :| 0 <= k < |nodes| && NodeAddresses(nodes)[k] == a;
      var j :| 0 <= j < |nodes'| && SameNode(nodes[k], nodes'[j]);
      assert NodeAddresses(nodes')[j] == a;
    }
  }

  /** Permuting the nodes, or any dependency list, does not change the schedule. */
  lemma ScheduleIgnoresInputOrder(nodes: seq<Node>, nodes': seq<Node>)
    requires SameNodes(nodes, nodes')
    ensures ScheduleOrder(nodes) == ScheduleOrder(nodes')
  {
    NeedsSubset(nodes, nodes');
    NeedsSubset(nodes', nodes);
    hide *;
    SameScheduleFrom(nodes, nodes');
  }

  lemma SameScheduleFrom(nodes: seq<Node>, nodes': seq<Node>)
    requires Needs(nodes) <= Needs(nodes') && Needs(nodes') <= Needs(nodes)
    requires Elements(NodeAddresses(nodes)) <= Elements(NodeAddresses(nodes'))
    requires Elements(NodeAddresses(nodes')) <= Elements(NodeAddresses(nodes))
    ensures ScheduleOrder(nodes) == ScheduleOrder(nodes')
  {
    assert Needs(nodes) == Needs(nodes');
    assert Elements(NodeAddresses(nodes)) == Elements(NodeAddresses(nodes'));
  }

  // ---- Schedule ----

  ghost predicate CountsMatch(nodes: seq<Node>, indegree: map<string, int>, dependents: map<string, seq<string>>)
  {
    && (forall a :: a in indegree <==> a in NodeAddresses(nodes))
    && (forall k :: 0 <= k < |nodes| ==> indegree[NodeAddresses(nodes)[k]] == |Elements(nodes[k].dependsOn)|)
    && (forall d :: d in dependents ==> Distinct(dependents[d]))
    && (forall d, a :: Lists(dependents, d, a) <==> (a, d) in Needs(nodes))
  }

  predicate Lists(dependents: map<string, seq<string>>, d: string, a: string)
  {
    d in dependents && a in dependents[d]
  }

  /** The first loop of Schedule: count dependencies, collect dependents. */
  method CountDependencies(nodes: seq<Node>) returns (indegree: map<string, int>, dependents: map<string, seq<string>>)
    requires WellAddressed(nodes)
    ensures CountsMatch(nodes, indegree, dependents)
  {
    indegree, dependents := map[], map[];
    for i := 0 to |nodes|
      invariant CountsMatch(nodes[..i], indegree, dependents)
    {
      var dependencies := CanonicalAddresses(nodes[i].dependsOn);
      AddressFresh(nodes, i);
      ghost var indegree0, dependents0 := indegree, dependents;
      indegree := indegree[nodes[i].address := |dependencies|];
      for j := 0 to |dependencies|
        invariant ListedFor(nodes, i, dependents0, dependents, dependencies[..j])
      {
        var d := dependencies[j];
        ListNext(nodes, i, dependents0, dependents, dependencies, j);
        dependents := dependents[d := (if d in dependents then dependents[d] else []) + [nodes[i].address]];
      }
      assert dependencies[..|dependencies|] == dependencies;
      CountsNext(nodes, i, indegree0, dependents0, indegree, dependents, dependencies);
    }
    assert nodes[..|nodes|] == nodes;
  }

  /** Node i has been appended to the dependents of exactly the dependencies in done. */
  ghost predicate ListedFor(nodes: seq<Node>, i: nat, was: map<string, seq<string>>,
                            now: map<string, seq<string>>, done: seq<string>)
    requires i < |nodes|
  {
    && (forall d :: d in now ==> Distinct(now[d]))
    && (forall d, a :: Lists(now, d, a) <==> Lists(was, d, a) || (d in done && a == nodes[i].address))
  }

  lemma AddressFresh(nodes: seq<Node>, i: nat)
    requires WellAddressed(nodes) && i < |nodes|
    ensures NodeAddresses(nodes[..i + 1]) == NodeAddresses(nodes[..i]) + [nodes[i].address]
    ensures nodes[i].address !in NodeAddresses(nodes[..i])
    ensures forall d :: (nodes[i].address, d) !in Needs(nodes[..i])
  {
    var all := NodeAddresses(nodes);
    assert forall j :: 0 <= j < i ==> NodeAddresses(nodes[..i])[j] == all[j];
    assert all[i] == nodes[i].address;
    forall d ensures (nodes[i].address, d) !in Needs(nodes[..i]) {
      assert forall k :: 0 <= k < i ==> nodes[..i][k].address == all[k];
    }
  }

  lemma ListNext(nodes: seq<Node>, i: nat, was: map<string, seq<string>>, now: map<string, seq<string>>,
                 deps: seq<string>, j: nat)
    requires i < |nodes| && j < |deps| && StrictlySorted(deps)
    requires ListedFor(nodes, i, was, now, deps[..j])
    requires forall d :: !Lists(was, d, nodes[i].address)
    ensures var d := deps[j];
            ListedFor(nodes, i, was, now[d := (if d in now then now[d] else []) + [nodes[i].address]], deps[..j + 1])
  {
    var d := deps[j];
    StrictlySortedIsDistinct(deps);
    TakeNext(deps, j);
    assert d !in deps[..j];
    var l := if d in now then now[d] else [];
    assert !Lists(now, d, nodes[i].address);
    PushFacts(l, nodes[i].address);
    var next := now[d := l + [nodes[i].address]];
    forall d', a ensures Lists(next, d', a) <==> Lists(was, d', a) || (d' in deps[..j + 1] && a == nodes[i].address) {
      assert Lists(next, d', a) <==> Lists(now, d', a) || (d' == d && a == nodes[i].address);
    }
  }

  lemma CountsNext(nodes: seq<Node>, i: nat, indegree0: map<string, int>, dependents0: map<string, seq<string>>,
                   indegree: map<string, int>, dependents: map<string, seq<string>>, deps: seq<string>)
    requires WellAddressed(nodes) && i < |nodes| && deps == Canonical(nodes[i].dependsOn)
    requires CountsMatch(nodes[..i], indegree0, dependents0)
    requires indegree == indegree0[nodes[i].address := |deps|]
    requires ListedFor(nodes, i, dependents0, dependents, deps)
    ensures CountsMatch(nodes[..i + 1], indegree, dependents)
  {
    AddressFresh(nodes, i);
    var before, after := nodes[..i], nodes[..i + 1];
    StrictlySortedIsDistinct(deps);
    DistinctSize(deps);
    forall k | 0 <= k < |after| ensures indegree[NodeAddresses(after)[k]] == |Elements(after[k].dependsOn)| {
      if k < i {
        assert NodeAddresses(before)[k] == NodeAddresses(after)[k];
        assert NodeAddresses(before)[k] in NodeAddresses(before);
      }
    }
    forall d, a ensures Lists(dependents, d, a) <==> (a, d) in Needs(after) {
      NeedsNext(nodes, i, deps, a, d);
    }
  }

  lemma NeedsNext(nodes: seq<Node>, i: nat, deps: seq<string>, a: string, d: string)
    requires i < |nodes| && deps == Canonical(nodes[i].dependsOn)
    ensures (a, d) in Needs(nodes[..i + 1]) <==> (a, d) in Needs(nodes[..i]) || (d in deps && a == nodes[i].address)
  {
    var before, after := nodes[..i], nodes[..i + 1];
    assert d in deps <==> d in Elements(deps);
    assert d in nodes[i].dependsOn <==> d in Elements(nodes[i].dependsOn);
    if (a, d) in Needs(after) {
      var k, d' :| 0 <= k < |after| && d' in after[k].dependsOn && (a, d) == (after[k].address, d');
      assert k < i ==> before[k] == after[k];
    }
    if (a, d) in Needs(before) {
      var k, d' :| 0 <= k < |before| && d' in before[k].dependsOn && (a, d) == (before[k].address, d');
      assert after[k] == before[k];
    }
    assert after[i] == nodes[i];
  }

  lemma {:induction false} DistinctSize(s: seq<string>)
    requires Distinct(s)
    ensures |Elements(s)| == |s|
  {
    if s != [] {
      var n := |s| - 1;
      DistinctSize(s[..n]);
      assert s == s[..n] + [s[n]];
      PushFacts(s[..n], s[n]);
      assert s[n] !in Elements(s[..n]);
    }
  }

  /** `Schedule`: on a valid graph every node comes out, in the greedy order; otherwise the
      validation fault is returned. The "did not emit every graph node" branch is dead. */
  method Schedule(nodes: seq<Node>) returns (r: Result<seq<Node>, GraphError>)
    ensures r.Ok? <==> ValidGraph(nodes)
    ensures r.Ok? ==> NodeAddresses(r.value) == ScheduleOrder(nodes) && forall n :: n in r.value ==> n in nodes
    ensures r.Err? ==> Witnesses(nodes, r.error)
  {
    hide *;
    var validated := ValidatedNodes(nodes);
    if validated.Err? {
      return Err(validated.error);
    }
    var byAddress := validated.value;
    ValidIsWellAddressed(nodes);
    var indegree, dependents := CountDependencies(nodes);
    var found := InitialReady(indegree);
    var ready := SortStrings(found);
    ghost var rank, rem := PriorityRank(nodes), Priority(nodes);
    var ordered := [];
    StartSchedule(nodes, indegree, dependents, rank, found, ready);
    assert ordered + LeastOrder(rem, Unblocks(nodes)) == ScheduleOrder(nodes) by { OrderIs(nodes); }
    while |ready| > 0
      invariant KahnState(Unblocks(nodes), rem, rank, indegree, ready) && RanksStrings(rank)
      invariant CountsListed(nodes, dependents)
      invariant ordered + LeastOrder(rem, Unblocks(nodes)) == ScheduleOrder(nodes)
      decreases |rem|
    {
      var address := ready[0];
      ghost var rem0 := rem;
      indegree, ready, rem := EmitNode(nodes, dependents, rem, rank, indegree, ready);
      OrderIs(nodes);
      NextLeast(ordered, address, rem, rem0, Priority(nodes), Unblocks(nodes));
      ordered := ordered + [address];
    }
    Finish(Unblocks(nodes), rem, rank, indegree, ready);
    EveryNodeOut(nodes, byAddress, ordered);
    if |ordered| == |nodes| {
      var out := seq(|ordered|, i requires 0 <= i < |ordered| && ordered[i] in byAddress => byAddress[ordered[i]]);
      ScheduledNodes(nodes, byAddress, ordered, out);
      return Ok(out);
    }
    return Err(IncompleteSchedule);
  }

  lemma ValidIsWellAddressed(nodes: seq<Node>)
    requires ValidGraph(nodes)
    ensures WellAddressed(nodes)
  {
  }

  lemma OrderIs(nodes: seq<Node>)
    ensures ScheduleOrder(nodes) == LeastOrder(Priority(nodes), Unblocks(nodes))
    ensures [] + ScheduleOrder(nodes) == ScheduleOrder(nodes)
  {
  }

  method InitialReady(indegree: map<string, int>) returns (ready: seq<string>)
    ensures Distinct(ready) && forall v :: v in ready <==> v in indegree && indegree[v] == 0
  {
    ready := [];
    var rest := indegree.Keys;
    while rest != {}
      invariant rest <= indegree.Keys
      invariant Distinct(ready)
      invariant forall v :: v in ready <==> v in indegree && v !in rest && indegree[v] == 0
      decreases rest
    {
      var v :| v in rest;
      rest := rest - {v};
      if indegree[v] == 0 {
        PushFacts(ready, v);
        ready := ready + [v];
      }
    }
  }

  /** The position of each address in sorted order; the schedule compares addresses directly. */
  ghost function PriorityRank(nodes: seq<Node>): map<string, nat>
  {
    var p := Priority(nodes);
    map a | a in p :: IndexOf(p, a)
  }

  ghost predicate RanksStrings(rank: map<string, nat>)
  {
    forall a, b :: a in rank && b in rank ==> (rank[a] < rank[b] <==> Less(a, b))
  }

  ghost predicate CountsListed(nodes: seq<Node>, dependents: map<string, seq<string>>)
  {
    && (forall d :: d in dependents ==> Distinct(dependents[d]))
    && (forall d, a :: Lists(dependents, d, a) <==> (d, a) in Unblocks(nodes))
  }

  lemma PriorityRankFacts(nodes: seq<Node>)
    ensures var p, rank := Priority(nodes), PriorityRank(nodes);
            RanksStrings(rank) && Ranked(p, rank) && forall v :: v in rank <==> v in p
  {
    var p, rank := Priority(nodes), PriorityRank(nodes);
    StrictlySortedIsDistinct(p);
    RankIsPlace(nodes);
    hide Priority, PriorityRank, Less;
    forall a, b | a in rank && b in rank ensures rank[a] < rank[b] <==> Less(a, b) {
      LessTrichotomy(a, b);
      assert p[rank[a]] == a && p[rank[b]] == b;
    }
  }

  lemma RankIsPlace(nodes: seq<Node>)
    ensures var p, rank := Priority(nodes), PriorityRank(nodes);
            && (forall v :: v in rank <==> v in p)
            && (forall v :: v in rank ==> rank[v] < |p| && p[rank[v]] == v)
            && (forall i :: 0 <= i < |p| ==> p[i] in rank && rank[p[i]] == i)
  {
    var p := Priority(nodes);
    StrictlySortedIsDistinct(p);
    hide Priority, Less;
    forall i | 0 <= i < |p| ensures p[i] in p && IndexOf(p, p[i]) == i {
    }
  }

  lemma SortedIsRanked(ready: seq<string>, unsorted: seq<string>, rank: map<string, nat>)
    requires RanksStrings(rank) && forall v :: v in unsorted ==> v in rank
    requires Sorted(ready) && multiset(ready) == multiset(unsorted) && Distinct(unsorted)
    ensures Ranked(ready, rank) && Permutes(ready, unsorted)
  {
    SameMultisetSameElements(ready, unsorted);
    assert forall v :: v in ready <==> v in Elements(ready);
    assert forall v :: v in unsorted <==> v in Elements(unsorted);
    DistinctPermutes(unsorted, ready);
    forall i, j | 0 <= i < j < |ready| ensures rank[ready[i]] < rank[ready[j]] {
      LessTrichotomy(ready[i], ready[j]);
      assert ready[i] in ready && ready[j] in ready;
    }
    assert |ready| == |multiset(ready)| == |multiset(unsorted)| == |unsorted|;
  }

  lemma CountsAreListed(nodes: seq<Node>, indegree: map<string, int>, dependents: map<string, seq<string>>)
    requires CountsMatch(nodes, indegree, dependents)
    ensures CountsListed(nodes, dependents)
  {
    forall d, a ensures (a, d) in Needs(nodes) <==> (d, a) in Unblocks(nodes) {
      InReverse(Needs(nodes), a, d);
    }
  }

  lemma CountsArePreds(nodes: seq<Node>, indegree: map<string, int>, dependents: map<string, seq<string>>)
    requires ValidGraph(nodes) && CountsMatch(nodes, indegree, dependents)
    ensures forall v :: v in Priority(nodes) <==> v in indegree
    ensures forall v :: v in indegree ==> indegree[v] == |PredsIn(Unblocks(nodes), Priority(nodes), v)|
  {
    ScheduleEdges(nodes);
    forall v | v in indegree ensures indegree[v] == |PredsIn(Unblocks(nodes), Priority(nodes), v)| {
      assert v in NodeAddresses(nodes);
      var k :| 0 <= k < |nodes| && NodeAddresses(nodes)[k] == v;
      PredsAre(nodes, k);
    }
  }

  lemma StartSchedule(nodes: seq<Node>, indegree: map<string, int>, dependents: map<string, seq<string>>,
                      rank: map<string, nat>, found: seq<string>, ready: seq<string>)
    requires ValidGraph(nodes) && CountsMatch(nodes, indegree, dependents) && rank == PriorityRank(nodes)
    requires Distinct(found) && forall v :: v in found <==> v in indegree && indegree[v] == 0
    requires Sorted(ready) && multiset(ready) == multiset(found)
    ensures KahnState(Unblocks(nodes), Priority(nodes), rank, indegree, ready)
    ensures RanksStrings(rank) && CountsListed(nodes, dependents)
  {
    PriorityRankFacts(nodes);
    ScheduleEdges(nodes);
    CountsAreListed(nodes, indegree, dependents);
    CountsArePreds(nodes, indegree, dependents);
    hide *;
    SortedIsRanked(ready, found, rank);
    KahnStarts(Unblocks(nodes), Priority(nodes), rank, indegree, found, ready);
  }

  lemma InReverse(E: set<Edge>, a: string, b: string)
    ensures (a, b) in E <==> (b, a) in Reverse(E)
  {
    if (a, b) in E { assert ((a, b).1, (a, b).0) in Reverse(E); }
  }

  lemma PredsAre(nodes: seq<Node>, k: nat)
    requires ValidGraph(nodes) && k < |nodes|
    ensures PredsIn(Unblocks(nodes), Priority(nodes), nodes[k].address) == Elements(nodes[k].dependsOn)
  {
    ScheduleEdges(nodes);
    NeedsOf(nodes, k);
    hide Needs, ValidGraph, Priority;
    forall u ensures u in PredsIn(Unblocks(nodes), Priority(nodes), nodes[k].address) <==> u in Elements(nodes[k].dependsOn) {
      InReverse(Needs(nodes), nodes[k].address, u);
      assert (nodes[k].address, u) in Needs(nodes) ==> (u, nodes[k].address) in Unblocks(nodes);
    }
  }

  lemma NeedsOf(nodes: seq<Node>, k: nat)
    requires WellAddressed(nodes) && k < |nodes|
    ensures forall u :: (nodes[k].address, u) in Needs(nodes) <==> u in nodes[k].dependsOn
  {
    forall u | (nodes[k].address, u) in Needs(nodes) ensures u in nodes[k].dependsOn {
      var j, d :| 0 <= j < |nodes| && d in nodes[j].dependsOn && (nodes[k].address, u) == (nodes[j].address, d);
      assert NodeAddresses(nodes)[j] == NodeAddresses(nodes)[k];
    }
  }

  /** One round of the scheduling loop: the ready list is re-sorted after every append. */
  method EmitNode(ghost nodes: seq<Node>, dependents: map<string, seq<string>>, ghost rem: seq<string>,
                  ghost rank: map<string, nat>, indegree: map<string, int>, ready: seq<string>)
    returns (indegree': map<string, int>, ready': seq<string>, ghost rem': seq<string>)
    requires KahnState(Unblocks(nodes), rem, rank, indegree, ready) && |ready| > 0
    requires RanksStrings(rank) && CountsListed(nodes, dependents)
    ensures KahnState(Unblocks(nodes), rem', rank, indegree', ready')
    ensures |rem'| < |rem| && LeastOrder(rem, Unblocks(nodes)) == [ready[0]] + LeastOrder(rem', Unblocks(nodes))
  {
    hide *;
    ghost var E := Unblocks(nodes);
    var deps := if ready[0] in dependents then dependents[ready[0]] else [];
    DependentsAre(nodes, dependents, ready[0], deps);
    rem' := PopHead(E, rem, rank, indegree, ready, deps);
    indegree', ready' := indegree, ready[1..];
    RankedTail(E, rem, rank, indegree, ready);
    assert deps[0..] == deps;
    for k := 0 to |deps|
      invariant MidState(E, rem', rank, indegree', ready', deps[k..]) && Ranked(ready', rank)
    {
      DropNext(deps, k);
      PendingKnown(E, rem', rank, indegree', ready', deps[k..]);
      ghost var indegree0, ready0 := indegree', ready';
      indegree' := indegree'[deps[k] := indegree'[deps[k]] - 1];
      if indegree'[deps[k]] == 0 {
        ghost var appended := ready' + [deps[k]];
        CountDown(E, rem', rank, indegree0, ready0, deps[k..], indegree', appended);
        ready' := SortStrings(ready' + [deps[k]]);
        ResortedStrings(E, rem', rank, indegree', appended, ready', deps[k + 1..]);
      } else {
        CountDown(E, rem', rank, indegree0, ready0, deps[k..], indegree', ready');
      }
    }
    DropAll(deps);
    IsKahnState(E, rem', rank, indegree', ready');
  }

  lemma IsKahnState(E: set<Edge>, rem: seq<string>, rank: map<string, nat>, indegree: map<string, int>,
                    ready: seq<string>)
    requires MidState(E, rem, rank, indegree, ready, []) && Ranked(ready, rank)
    ensures KahnState(E, rem, rank, indegree, ready)
  {
  }

  lemma DependentsAre(nodes: seq<Node>, dependents: map<string, seq<string>>, address: string, deps: seq<string>)
    requires CountsListed(nodes, dependents) && deps == if address in dependents then dependents[address] else []
    ensures Distinct(deps) && forall v :: v in deps <==> (address, v) in Unblocks(nodes)
  {
    assert forall v :: v in deps <==> Lists(dependents, address, v);
  }

  lemma RankedTail(E: set<Edge>, rem: seq<string>, rank: map<string, nat>, indegree: map<string, int>,
                   ready: seq<string>)
    requires KahnState(E, rem, rank, indegree, ready) && |ready| > 0
    ensures Ranked(ready[1..], rank)
  {
  }

  lemma ResortedStrings(E: set<Edge>, rem: seq<string>, rank: map<string, nat>, indegree: map<string, int>,
                        appended: seq<string>, ready: seq<string>, pending: seq<string>)
    requires MidState(E, rem, rank, indegree, appended, pending) && RanksStrings(rank)
    requires Sorted(ready) && multiset(ready) == multiset(appended)
    ensures MidState(E, rem, rank, indegree, ready, pending) && Ranked(ready, rank)
  {
    SortedIsRanked(ready, appended, rank);
  }

  lemma EveryNodeOut(nodes: seq<Node>, byAddress: map<string, Node>, ordered: seq<string>)
    requires ValidGraph(nodes) && NodesIndexed(nodes, byAddress) && ordered == ScheduleOrder(nodes)
    ensures |ordered| == |nodes| && forall i :: 0 <= i < |ordered| ==> ordered[i] in byAddress
  {
    ValidGraphSchedules(nodes);
    ScheduleEdges(nodes);
    DistinctSize(NodeAddresses(nodes));
    DistinctSize(Priority(nodes));
    assert forall i :: 0 <= i < |ordered| ==> ordered[i] in ordered;
  }

  lemma ScheduledNodes(nodes: seq<Node>, byAddress: map<string, Node>, ordered: seq<string>, out: seq<Node>)
    requires NodesIndexed(nodes, byAddress)
    requires |out| == |ordered| && forall i :: 0 <= i < |ordered| ==> ordered[i] in byAddress && out[i] == byAddress[ordered[i]]
    ensures NodeAddresses(out) == ordered && forall n :: n in out ==> n in nodes
  {
    forall i | 0 <= i < |out| ensures out[i] in nodes && out[i].address == ordered[i] {
      assert ordered[i] in byAddress;
      assert ordered[i] in NodeAddresses(nodes);
      var k :| 0 <= k < |nodes| && NodeAddresses(nodes)[k] == ordered[i];
      assert byAddress[NodeAddresses(nodes)[k]] == nodes[k];
    }
  }
}
