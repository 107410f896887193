/** Why planHost can always order its steps: the validated graph orders the nodes, and any state the
    engine wrote orders the orphans. */
module PlanOrdering {
  import opened Addresses
  import opened Digraph
  import opened Model
  import opened Planning
  import opened DependencyOrder
  import opened OrderingTheorems
  import opened PlanHosting
  import Graph = ResourceGraph

  /** What planBuilt hands to planHost: one host's managed nodes, in schedule order. */
  function HostNodes(scheduled: seq<Node>, host: string): seq<Node>
  {
    if scheduled == [] then []
    else
      var n := |scheduled| - 1;
      HostNodes(scheduled[..n], host) +
      if scheduled[n].managed && scheduled[n].host == host then [scheduled[n]] else []
  }

  /** The grouping loop of planBuilt. */
  method GroupByHost(scheduled: seq<Node>) returns (nodesByHost: map<string, seq<Node>>)
    ensures forall h :: HostNodes(scheduled, h) == if h in nodesByHost then nodesByHost[h] else []
  {
    nodesByHost := map[];
    for i := 0 to |scheduled|
      invariant forall h :: HostNodes(scheduled[..i], h) == if h in nodesByHost then nodesByHost[h] else []
    {
      var node := scheduled[i];
      assert scheduled[..i + 1][..i] == scheduled[..i];
      if node.managed {
        nodesByHost := nodesByHost[node.host := (if node.host in nodesByHost then nodesByHost[node.host] else []) + [node]];
      }
    }
    assert scheduled[..|scheduled|] == scheduled;
  }

  /** Authored dependencies are graph dependencies, between managed resources of one host. */
  ghost predicate AuthoredWithinHost(nodes: seq<Node>)
  {
    forall i, d :: 0 <= i < |nodes| && d in nodes[i].explicitDependsOn ==>
      d in nodes[i].dependsOn && NamesManaged(nodes, d, nodes[i].host)
  }

  ghost predicate NamesManaged(nodes: seq<Node>, address: string, host: string)
  {
    exists j :: 0 <= j < |nodes| && nodes[j].address == address && nodes[j].managed && nodes[j].host == host
  }

  /** Nodes in an order their own dependencies respect, authored ones included. */
  ghost predicate InScheduleOrder(nodes: seq<Node>)
  {
    && Graph.WellAddressed(nodes)
    && (forall i, d :: 0 <= i < |nodes| && d in nodes[i].dependsOn && d in Graph.NodeAddresses(nodes) ==>
          Precedes(Graph.NodeAddresses(nodes), d, nodes[i].address))
    && (forall i, d :: 0 <= i < |nodes| && d in nodes[i].explicitDependsOn ==>
          d in nodes[i].dependsOn && d in Graph.NodeAddresses(nodes))
    && (forall i, t :: 0 <= i < |nodes| && t in nodes[i].triggeredBy ==> t in nodes[i].dependsOn)
  }

  lemma {:induction false} HostNodesMembers(scheduled: seq<Node>, host: string)
    ensures forall n :: n in HostNodes(scheduled, host) <==> n in scheduled && n.managed && n.host == host
  {
    if scheduled != [] {
      var n := |scheduled| - 1;
      HostNodesMembers(scheduled[..n], host);
      assert scheduled[..n + 1] == scheduled;
      TakeNext(scheduled, n);
    }
  }

  /** The elements that part shares with all come in the same order. */
  ghost predicate KeepsOrder(all: seq<string>, part: seq<string>)
  {
    forall a, b :: a in part && b in part && Precedes(all, a, b) ==> Precedes(part, a, b)
  }

  /** Filtering keeps distinctness and relative order. */
  lemma {:induction false} HostNodesKeepOrder(scheduled: seq<Node>, host: string)
    requires Graph.WellAddressed(scheduled)
    ensures Graph.WellAddressed(HostNodes(scheduled, host))
    ensures KeepsOrder(Graph.NodeAddresses(scheduled), Graph.NodeAddresses(HostNodes(scheduled, host)))
  {
    if scheduled != [] {
      var n := |scheduled| - 1;
      var before, last := scheduled[..n], scheduled[n];
      AddressesOfPrefix(scheduled, n);
      HostNodesKeepOrder(before, host);
      HostNodesMembers(before, host);
      assert before + [last] == scheduled;
      FilterStep(before, last, HostNodes(before, host), HostNodes(scheduled, host));
    }
  }

  lemma AddressesOfPrefix(nodes: seq<Node>, n: nat)
    requires n < |nodes|
    ensures Graph.NodeAddresses(nodes[..n]) == Graph.NodeAddresses(nodes)[..n]
    ensures Graph.WellAddressed(nodes) ==> Graph.WellAddressed(nodes[..n])
  {
    assert Graph.NodeAddresses(nodes[..n]) == Graph.NodeAddresses(nodes)[..n];
  }

  lemma InAddresses(nodes: seq<Node>, a: string)
    ensures a in Graph.NodeAddresses(nodes) <==> exists n :: n in nodes && n.address == a
  {
    if a in Graph.NodeAddresses(nodes) {
      var i :| 0 <= i < |nodes| && Graph.NodeAddresses(nodes)[i] == a;
      assert nodes[i] in nodes;
    }
    if n :| n in nodes && n.address == a {
      var i :| 0 <= i < |nodes| && nodes[i] == n;
      assert Graph.NodeAddresses(nodes)[i] == a;
    }
  }

  /** One step of the filter: r is r0, or r0 with the last node appended. */
  lemma FilterStep(before: seq<Node>, last: Node, r0: seq<Node>, r: seq<Node>)
    requires Graph.WellAddressed(before + [last]) && Graph.WellAddressed(r0)
    requires forall n :: n in r0 ==> n in before
    requires r == r0 || r == r0 + [last]
    requires KeepsOrder(Graph.NodeAddresses(before), Graph.NodeAddresses(r0))
    ensures Graph.WellAddressed(r)
    ensures KeepsOrder(Graph.NodeAddresses(before + [last]), Graph.NodeAddresses(r))
  {
    var all, old', now := Graph.NodeAddresses(before + [last]), Graph.NodeAddresses(r0), Graph.NodeAddresses(r);
    assert all == Graph.NodeAddresses(before) + [last.address];
    assert r != r0 ==> now == old' + [last.address];
    PushFacts(old', last.address);
    forall a | a in old' ensures a in Graph.NodeAddresses(before) && a != last.address {
      InAddresses(r0, a);
      InAddresses(before, a);
      var i :| 0 <= i < |before| && Graph.NodeAddresses(before)[i] == a;
      assert all[i] == a && all[|before|] == last.address;
    }
    assert all[|before|] in all;
    forall a, b | a in now && b in now && Precedes(all, a, b) ensures Precedes(now, a, b) {
      var i, j :| 0 <= i < j < |all| && all[i] == a && all[j] == b;
      assert a != last.address;
      if j < |before| {
        assert Graph.NodeAddresses(before)[i] == a && Graph.NodeAddresses(before)[j] == b;
        assert b != last.address;
        assert Precedes(old', a, b);
      } else {
        var k :| 0 <= k < |old'| && old'[k] == a;
        assert now[k] == a && now[|old'|] == b;
      }
    }
  }

  /** A valid graph's schedule, filtered to one host's managed nodes, is ready to be planned. */
  lemma ValidGraphInOrder(graph: seq<Node>, scheduled: seq<Node>, host: string)
    requires Graph.ValidGraph(graph) && AuthoredWithinHost(graph)
    requires Graph.NodeAddresses(scheduled) == Graph.ScheduleOrder(graph) && forall n :: n in scheduled ==> n in graph
    ensures InScheduleOrder(HostNodes(scheduled, host))
  {
    var nodes := HostNodes(scheduled, host);
    Graph.ValidGraphSchedules(graph);
    Graph.ScheduleEdges(graph);
    HostNodesMembers(scheduled, host);
    HostNodesKeepOrder(scheduled, host);
    forall i, d | 0 <= i < |nodes| && d in nodes[i].dependsOn && d in Graph.NodeAddresses(nodes)
      ensures Precedes(Graph.NodeAddresses(nodes), d, nodes[i].address)
    {
      assert nodes[i] in nodes;
      var k :| 0 <= k < |graph| && graph[k] == nodes[i];
      assert Precedes(Graph.ScheduleOrder(graph), d, graph[k].address);
      assert Graph.NodeAddresses(nodes)[i] == nodes[i].address;
    }
    forall i, d | 0 <= i < |nodes| && d in nodes[i].explicitDependsOn
      ensures d in nodes[i].dependsOn && d in Graph.NodeAddresses(nodes)
    {
      assert nodes[i] in nodes;
      var k :| 0 <= k < |graph| && graph[k] == nodes[i];
      ManagedIsPlanned(graph, scheduled, host, d);
    }
    forall i, t | 0 <= i < |nodes| && t in nodes[i].triggeredBy ensures t in nodes[i].dependsOn {
      assert nodes[i] in nodes;
      var k :| 0 <= k < |graph| && graph[k] == nodes[i];
      assert Graph.KnownReferences(graph, graph[k]);
    }
  }

  lemma ManagedIsPlanned(graph: seq<Node>, scheduled: seq<Node>, host: string, d: string)
    requires Graph.ValidGraph(graph) && Graph.WellAddressed(graph) && NamesManaged(graph, d, host)
    requires Graph.NodeAddresses(scheduled) == Graph.ScheduleOrder(graph) && forall n :: n in scheduled ==> n in graph
    ensures d in Graph.NodeAddresses(HostNodes(scheduled, host))
  {
    Graph.ValidGraphSchedules(graph);
    Graph.ScheduleEdges(graph);
    HostNodesMembers(scheduled, host);
    hide Graph.ValidGraph, Graph.ScheduleOrder, Graph.Priority, Graph.Unblocks, HostNodes;
    var j :| 0 <= j < |graph| && graph[j].address == d && graph[j].managed && graph[j].host == host;
    assert Graph.NodeAddresses(graph)[j] == d;
    assert d in Graph.NodeAddresses(scheduled);
    InAddresses(scheduled, d);
    var m :| m in scheduled && m.address == d;
    SameNodeAt(graph, j, m);
    InAddresses(HostNodes(scheduled, host), d);
  }

  lemma SameNodeAt(graph: seq<Node>, j: nat, m: Node)
    requires Graph.WellAddressed(graph) && j < |graph| && m in graph && m.address == graph[j].address
    ensures m == graph[j]
  {
    var k :| 0 <= k < |graph| && graph[k] == m;
    assert Graph.NodeAddresses(graph)[k] == Graph.NodeAddresses(graph)[j];
  }

  // ---- the draft ----

  /** The recorded dependencies of the tracked resources. */
  ghost function StateEdges(resources: Resources): set<Edge>
  {
    set a, d | a in resources && d in resources[a].dependsOn :: (a, d)
  }

  /** Where each step of a draft comes from. */
  lemma DraftShape(nodes: seq<Node>, resources: Resources, world: World, orphans: seq<string>, draft: seq<Step>)
    requires IsDraft(nodes, resources, world, orphans, draft)
    ensures |draft| == |nodes| + |orphans|
    ensures StepAddresses(draft) == Graph.NodeAddresses(nodes) + orphans
    ensures forall k :: |nodes| <= k < |draft| ==> draft[k].address == orphans[k - |nodes|]
    ensures forall k :: 0 <= k < |nodes| ==> draft[k] == PlanNodes(nodes, resources, world).value[k]
    ensures forall k :: 0 <= k < |nodes| ==> draft[k].node.(payload := nodes[k].payload) == nodes[k]
    ensures forall k :: |nodes| <= k < |draft| ==> draft[k].address in resources && draft[k] == OrphanStep(draft[k].address, resources[draft[k].address])
  {
    DraftNodes(nodes, resources, world, orphans, draft);
    DraftOrphans(nodes, resources, world, orphans, draft);
    hide *;
    forall k | 0 <= k < |draft| ensures draft[k].address == (Graph.NodeAddresses(nodes) + orphans)[k] {
    }
  }

  lemma DraftNodes(nodes: seq<Node>, resources: Resources, world: World, orphans: seq<string>, draft: seq<Step>)
    requires IsDraft(nodes, resources, world, orphans, draft)
    ensures |draft| >= |nodes| == |PlanNodes(nodes, resources, world).value|
    ensures forall k :: 0 <= k < |nodes| ==>
              draft[k] == PlanNodes(nodes, resources, world).value[k] &&
              draft[k].address == nodes[k].address && draft[k].node.(payload := nodes[k].payload) == nodes[k]
  {
    PlanNodesShape(nodes, resources, world);
    var planned := PlanNodes(nodes, resources, world).value;
    forall k | 0 <= k < |nodes| ensures planned[k].node.(payload := nodes[k].payload) == nodes[k] {
      PlanOneKeepsNode(nodes[k], resources, world, ActionsOf(planned[..k]));
    }
  }

  lemma PlanNodesCount(nodes: seq<Node>, resources: Resources, world: World)
    requires PlanNodes(nodes, resources, world).Ok?
    ensures |PlanNodes(nodes, resources, world).value| == |nodes|
  {
    hide *;
    PlanNodesShape(nodes, resources, world);
  }

  lemma DraftParts(nodes: seq<Node>, resources: Resources, world: World, orphans: seq<string>, draft: seq<Step>)
    requires IsDraft(nodes, resources, world, orphans, draft)
    ensures PlanNodes(nodes, resources, world).Ok? && forall a :: a in orphans ==> a in resources
    ensures draft == PlanNodes(nodes, resources, world).value + OrphanSteps(resources, orphans)
  {
    hide PlanNodes, PlanOne, OrphanSteps, OrphansSorted;
  }

  lemma DraftOrphans(nodes: seq<Node>, resources: Resources, world: World, orphans: seq<string>, draft: seq<Step>)
    requires IsDraft(nodes, resources, world, orphans, draft)
    ensures |draft| == |nodes| + |orphans|
    ensures forall k :: |nodes| <= k < |draft| ==>
              draft[k].address == orphans[k - |nodes|] && draft[k].address in resources &&
              draft[k] == OrphanStep(draft[k].address, resources[draft[k].address])
  {
    hide *;
    DraftParts(nodes, resources, world, orphans, draft);
    var removed := OrphanSteps(resources, orphans);
    PlanNodesCount(nodes, resources, world);
    forall k | |nodes| <= k < |draft|
      ensures draft[k].address == orphans[k - |nodes|] && draft[k].address in resources &&
              draft[k] == OrphanStep(draft[k].address, resources[draft[k].address])
    {
      assert draft[k] == removed[k - |nodes|];
      OrphanStepAddress(orphans[k - |nodes|], resources[orphans[k - |nodes|]]);
    }
  }

  lemma OrphanStepAddress(a: string, resource: Resource)
    ensures OrphanStep(a, resource).address == a
  {
  }

  lemma PlanOneKeepsNode(node: Node, resources: Resources, world: World, actions: Actions)
    requires PlanOne(node, resources, world, actions).Ok?
    ensures PlanOne(node, resources, world, actions).value.node.(payload := node.payload) == node
  {
  }

  lemma DraftWellAddressed(nodes: seq<Node>, resources: Resources, world: World, orphans: seq<string>, draft: seq<Step>)
    requires IsDraft(nodes, resources, world, orphans, draft)
    requires Graph.WellAddressed(nodes) && "" !in resources
    ensures WellAddressed(draft)
    ensures forall k :: 0 <= k < |draft| ==> (draft[k].IsOrphan() <==> k >= |nodes|)
  {
    DraftShape(nodes, resources, world, orphans, draft);
    var all, na := StepAddresses(draft), Graph.NodeAddresses(nodes);
    OrphansDistinct(resources, orphans);
    forall i, j | 0 <= i < j < |all| ensures all[i] != all[j] {
      if j >= |nodes| {
        assert all[j] in orphans;
        if i < |nodes| { assert all[i] == na[i]; }
      } else {
        assert all[i] == na[i] && all[j] == na[j];
      }
    }
    assert "" !in orphans;
    forall k | 0 <= k < |nodes| ensures draft[k].node.address != "" {
      assert na[k] in na;
    }
  }

  lemma OrphansDistinct(resources: Resources, orphans: seq<string>)
    requires OrphansSorted(resources, orphans)
    ensures Distinct(orphans)
  {
    forall i, j | 0 <= i < j < |orphans| ensures orphans[i] != orphans[j] {
      assert OrphanBefore(resources, orphans[i], orphans[j]);
      LessTrichotomy(orphans[i], orphans[j]);
    }
  }

  ghost predicate IsOrphanEdge(resources: Resources, orphans: seq<string>, e: Edge)
  {
    e in StateEdges(resources) && e.0 in orphans && e.1 in orphans
  }

  /** The engine's rank: orphans first in an order their recorded dependencies respect, then kept nodes
      forwards, then removed nodes backwards. */
  ghost function TeardownRank(draft: seq<Step>, na: seq<string>, orphanOrder: seq<string>, x: string): int
  {
    if x in orphanOrder then IndexOf(orphanOrder, x) - |orphanOrder|
    else if x in na then
      if IsRemoved(draft, x) then 2 * |na| - IndexOf(na, x) else IndexOf(na, x)
    else 0
  }

  /** The cycle error is unreachable from planHost: for nodes in schedule order and any prior state whose
      recorded dependencies are acyclic, whatever mix of steps removes or keeps objects, the authored edges
      are acyclic and so the plan can be ordered. */
  lemma AuthoredAlwaysAcyclic(nodes: seq<Node>, resources: Resources, world: World, orphans: seq<string>,
                              draft: seq<Step>)
    requires InScheduleOrder(nodes) && "" !in resources && Acyclic(StateEdges(resources))
    requires IsDraft(nodes, resources, world, orphans, draft)
    ensures WellAddressed(draft) && Acyclic(Authored(draft)) && |ExecutionOrder(draft)| == |draft|
  {
    DraftWellAddressed(nodes, resources, world, orphans, draft);
    var orphanOrder := OrphanOrder(resources, orphans);
    var na := Graph.NodeAddresses(nodes);
    var rank := x => TeardownRank(draft, na, orphanOrder, x);
    forall e | e in Authored(draft) ensures rank(e.0) < rank(e.1) {
      AuthoredRises(nodes, resources, world, orphans, draft, orphanOrder, e);
    }
    RankAcyclic(Authored(draft), rank);
    FailsIffAuthoredCyclic(draft);
  }

  lemma OrphanOrder(resources: Resources, orphans: seq<string>) returns (order: seq<string>)
    requires Acyclic(StateEdges(resources)) && OrphansSorted(resources, orphans)
    ensures Permutes(order, orphans)
    ensures forall e :: IsOrphanEdge(resources, orphans, e) ==> IndexOf(order, e.0) < IndexOf(order, e.1)
  {
    var E := set e | e in StateEdges(resources) && e.0 in orphans && e.1 in orphans;
    AcyclicMono(E, StateEdges(resources));
    OrphansDistinct(resources, orphans);
    LeastOrderComplete(orphans, E);
    order := LeastOrder(orphans, E);
    forall e | IsOrphanEdge(resources, orphans, e) ensures IndexOf(order, e.0) < IndexOf(order, e.1) {
      assert (order[IndexOf(order, e.0)], order[IndexOf(order, e.1)]) in E;
    }
  }

  lemma AuthoredRises(nodes: seq<Node>, resources: Resources, world: World, orphans: seq<string>, draft: seq<Step>,
                      orphanOrder: seq<string>, e: Edge)
    requires InScheduleOrder(nodes) && IsDraft(nodes, resources, world, orphans, draft)
    requires WellAddressed(draft) && forall k :: 0 <= k < |draft| ==> (draft[k].IsOrphan() <==> k >= |nodes|)
    requires Permutes(orphanOrder, orphans)
    requires forall e :: IsOrphanEdge(resources, orphans, e) ==> IndexOf(orphanOrder, e.0) < IndexOf(orphanOrder, e.1)
    requires e in Authored(draft)
    ensures var na := Graph.NodeAddresses(nodes);
            TeardownRank(draft, na, orphanOrder, e.0) < TeardownRank(draft, na, orphanOrder, e.1)
  {
    var na := Graph.NodeAddresses(nodes);
    DraftShape(nodes, resources, world, orphans, draft);
    var k, d := AuthoredOwner(draft, |draft|, e);
    OrphanOwns(resources, draft, na, orphans, e, k, d);
    if k >= |nodes| {
      OrphanRises(resources, draft, na, orphans, orphanOrder, e);
    } else {
      NodeOwns(nodes, orphans, draft, k, d);
      NodeRises(draft, na, orphanOrder, d, na[k]);
    }
  }

  lemma OrphanOwns(resources: Resources, draft: seq<Step>, na: seq<string>, orphans: seq<string>, e: Edge, k: nat,
                   d: string)
    requires k < |draft| && d in AuthoredDeps(draft[k]) && e == Oriented(draft, draft[k], d)
    requires k >= |na| ==> draft[k].IsOrphan() && draft[k].address in resources
    requires k >= |na| ==> draft[k] == OrphanStep(draft[k].address, resources[draft[k].address])
    requires StepAddresses(draft) == na + orphans && Endpoints(Vertices(draft), e)
    ensures k >= |na| ==> e.0 in orphans && (e.1 in orphans || e.1 in na) && e in StateEdges(resources)
  {
    assert (na + orphans)[k] == draft[k].address;
    assert e.1 in na + orphans;
  }

  lemma NodeOwns(nodes: seq<Node>, orphans: seq<string>, draft: seq<Step>, k: nat, d: string)
    requires InScheduleOrder(nodes) && WellAddressed(draft) && StepAddresses(draft) == Graph.NodeAddresses(nodes) + orphans
    requires k < |nodes| <= |draft| && !draft[k].IsOrphan() && draft[k].node.(payload := nodes[k].payload) == nodes[k]
    requires d in AuthoredDeps(draft[k])
    ensures Precedes(Graph.NodeAddresses(nodes), d, nodes[k].address)
    ensures d !in orphans && nodes[k].address !in orphans && Distinct(Graph.NodeAddresses(nodes))
  {
    assert d in nodes[k].explicitDependsOn;
    assert d in nodes[k].dependsOn && d in Graph.NodeAddresses(nodes);
    assert Graph.NodeAddresses(nodes)[k] in Graph.NodeAddresses(nodes);
    NodesAreNoOrphans(Graph.NodeAddresses(nodes), orphans);
  }

  lemma NodesAreNoOrphans(na: seq<string>, orphans: seq<string>)
    requires Distinct(na + orphans)
    ensures forall x :: x in na ==> x !in orphans
  {
    var all := na + orphans;
    forall i, j | 0 <= i < |na| && 0 <= j < |orphans| ensures na[i] != orphans[j] {
      assert all[i] == na[i] && all[|na| + j] == orphans[j];
    }
  }

  lemma OrphanRises(resources: Resources, draft: seq<Step>, na: seq<string>, orphans: seq<string>,
                    orphanOrder: seq<string>, e: Edge)
    requires Permutes(orphanOrder, orphans) && e.0 in orphans && (e.1 in orphans || e.1 in na)
    requires e in StateEdges(resources)
    requires forall e :: IsOrphanEdge(resources, orphans, e) ==> IndexOf(orphanOrder, e.0) < IndexOf(orphanOrder, e.1)
    ensures TeardownRank(draft, na, orphanOrder, e.0) < TeardownRank(draft, na, orphanOrder, e.1)
  {
    if e.1 in orphans {
      assert IsOrphanEdge(resources, orphans, e);
    }
  }

  lemma NodeRises(draft: seq<Step>, na: seq<string>, orphanOrder: seq<string>, d: string, n: string)
    requires Distinct(na) && Precedes(na, d, n) && d !in orphanOrder && n !in orphanOrder
    ensures d in na && n in na
    ensures if IsRemoved(draft, d) then TeardownRank(draft, na, orphanOrder, n) < TeardownRank(draft, na, orphanOrder, d)
            else TeardownRank(draft, na, orphanOrder, d) < TeardownRank(draft, na, orphanOrder, n)
  {
    var i, j :| 0 <= i < j < |na| && na[i] == d && na[j] == n;
    IndexOfDistinct(na, i);
    IndexOfDistinct(na, j);
  }

  lemma IndexOfDistinct(s: seq<string>, i: nat)
    requires i < |s| && Distinct(s)
    ensures IndexOf(s, s[i]) == i
  {
    assert s[i] in s;
  }

  // ---- a plan exists ----

  lemma {:induction false} PlaceFor(resources: Resources, r: seq<string>, k: string, n: nat) returns (at: nat)
    requires OrphansSorted(resources, r) && k in resources && k !in r && n <= |r|
    requires forall i :: n <= i < |r| ==> OrphanBefore(resources, k, r[i])
    ensures at <= |r| && (at > 0 ==> OrphanBefore(resources, r[at - 1], k))
    ensures forall i :: at <= i < |r| ==> OrphanBefore(resources, k, r[i])
    decreases n
  {
    if n > 0 && !OrphanBefore(resources, r[n - 1], k) {
      LessTrichotomy(r[n - 1], k);
      at := PlaceFor(resources, r, k, n - 1);
    } else {
      at := n;
    }
  }

  lemma {:induction false} SortedOrphansExist(resources: Resources, addresses: set<string>) returns (r: seq<string>)
    requires addresses <= resources.Keys
    ensures OrphansSorted(resources, r) && forall a :: a in r <==> a in addresses
    decreases |addresses|
  {
    hide OrphanBefore;
    if k :| k in addresses {
      var rest := SortedOrphansExist(resources, addresses - {k});
      var at := PlaceFor(resources, rest, k, |rest|);
      InsertOrphan(resources, rest, at, k);
      r := rest[..at] + [k] + rest[at..];
    } else {
      r := [];
    }
  }

  /** Nodes in schedule order that can each be planned, against a state with acyclic dependencies and no
      protected orphan, have a plan. */
  lemma PlanExists(nodes: seq<Node>, resources: Resources, world: World)
    requires InScheduleOrder(nodes) && "" !in resources && Acyclic(StateEdges(resources))
    requires PlanNodes(nodes, resources, world).Ok?
    requires forall a :: a in resources && a !in Graph.NodeAddresses(nodes) ==> !OrphanBlocked(resources[a])
    ensures exists orphans, draft, plan :: IsPlan(nodes, resources, world, orphans, draft, plan)
  {
    hide *;
    var addresses := set a | a in resources && a !in Graph.NodeAddresses(nodes);
    var orphans := SortedOrphansExist(resources, addresses);
    var planned := PlanNodes(nodes, resources, world).value;
    assert forall a :: a in orphans ==> a in resources;
    var draft := planned + OrphanSteps(resources, orphans);
    IsADraft(nodes, resources, world, orphans, planned, OrphanSteps(resources, orphans));
    DraftHasPlan(nodes, resources, world, orphans, draft);
  }

  lemma DraftHasPlan(nodes: seq<Node>, resources: Resources, world: World, orphans: seq<string>, draft: seq<Step>)
    requires InScheduleOrder(nodes) && "" !in resources && Acyclic(StateEdges(resources))
    requires IsDraft(nodes, resources, world, orphans, draft)
    ensures exists plan :: IsPlan(nodes, resources, world, orphans, draft, plan)
  {
    hide *;
    AuthoredAlwaysAcyclic(nodes, resources, world, orphans, draft);
    var steps := SortedPlanExists(draft);
    var plan := HostPlan(steps, false, PriorOf(resources, draft), exists s :: s in draft && s.reclassified);
    MakesPlan(nodes, resources, world, orphans, draft, plan);
  }

  lemma MakesPlan(nodes: seq<Node>, resources: Resources, world: World, orphans: seq<string>, draft: seq<Step>,
                  plan: HostPlan)
    requires IsDraft(nodes, resources, world, orphans, draft) && WellAddressed(draft) && |ExecutionOrder(draft)| == |draft|
    requires SortedPlan(draft, plan.steps) && plan.priorResources == PriorOf(resources, draft)
    requires plan.statePrewrite <==> exists s :: s in draft && s.reclassified
    ensures IsPlan(nodes, resources, world, orphans, draft, plan)
  {
    hide IsDraft, PriorOf, ExecutionOrder, WellAddressed;
  }

  lemma SortedPlanExists(steps: seq<Step>) returns (sorted: seq<Step>)
    requires WellAddressed(steps) && Acyclic(Authored(steps))
    ensures SortedPlan(steps, sorted)
  {
    OrderIsLinearExtension(steps);
    hide ExecutionOrder, Authored, Topological, FinalEdges, Acyclic, WellAddressed;
    var order := ExecutionOrder(steps);
    assert forall i :: 0 <= i < |order| ==> order[i] in StepAddresses(steps);
    sorted := seq(|order|, i requires 0 <= i < |order| && order[i] in StepAddresses(steps) => StepFor(steps, order[i]));
    assert StepAddresses(sorted) == order;
  }

  // ---- nodes keep schedule order ----

  /** No node's dependency, authored or inferred, is an orphan: graph addresses that are tracked are managed. */
  ghost predicate DependsOnNoOrphan(nodes: seq<Node>, orphans: seq<string>)
  {
    forall i, d :: 0 <= i < |nodes| && d in nodes[i].dependsOn ==> d !in orphans
  }

  ghost predicate NothingTornDown(nodes: seq<Node>, draft: seq<Step>)
  {
    forall i, d :: 0 <= i < |nodes| && d in nodes[i].explicitDependsOn ==> !IsRemoved(draft, d)
  }

  ghost predicate OrphansIndependent(nodes: seq<Node>, resources: Resources, orphans: seq<string>)
  {
    forall o, d :: o in orphans && o in resources && d in resources[o].dependsOn ==> d !in Graph.NodeAddresses(nodes)
  }

  /** Nodes run in exactly schedule order, before all orphans, just when no node depends on a tracked address
      without a node, none of their explicit dependencies is removed, and no orphan depends on a live node. */
  lemma NodesRunInScheduleOrder(nodes: seq<Node>, resources: Resources, world: World, orphans: seq<string>,
                                draft: seq<Step>)
    requires InScheduleOrder(nodes) && "" !in resources
    requires IsDraft(nodes, resources, world, orphans, draft)
    ensures ExecutionOrder(draft) == Graph.NodeAddresses(nodes) + LeastOrder(orphans, FinalEdges(draft)) <==>
            DependsOnNoOrphan(nodes, orphans) && NothingTornDown(nodes, draft) && OrphansIndependent(nodes, resources, orphans)
  {
    hide Graph.NodeAddresses, IsDraft, DependsOnNoOrphan, NothingTornDown, OrphansIndependent, ExecutionOrder, LeastOrder, FinalEdges, Shaped;
    DraftWellAddressed(nodes, resources, world, orphans, draft);
    ShapedDraft(nodes, resources, world, orphans, draft);
    if DependsOnNoOrphan(nodes, orphans) && NothingTornDown(nodes, draft) && OrphansIndependent(nodes, resources, orphans) {
      NodesFirst(nodes, resources, world, orphans, draft);
    }
    if ExecutionOrder(draft) == Graph.NodeAddresses(nodes) + LeastOrder(orphans, FinalEdges(draft)) {
      NodesWereFirst(nodes, resources, orphans, draft);
    }
  }

  lemma NodesFirst(nodes: seq<Node>, resources: Resources, world: World, orphans: seq<string>, draft: seq<Step>)
    requires InScheduleOrder(nodes) && "" !in resources
    requires IsDraft(nodes, resources, world, orphans, draft)
    requires DependsOnNoOrphan(nodes, orphans) && NothingTornDown(nodes, draft) && OrphansIndependent(nodes, resources, orphans)
    ensures ExecutionOrder(draft) == Graph.NodeAddresses(nodes) + LeastOrder(orphans, FinalEdges(draft))
  {
    DraftShape(nodes, resources, world, orphans, draft);
    ScheduledAddresses(nodes);
    DraftWellAddressed(nodes, resources, world, orphans, draft);
    WellAddressedIs(draft);
    ExecutionOrderIs(draft);
    hide *;
    var na, E := Graph.NodeAddresses(nodes), FinalEdges(draft);
    forall e | e in E && e.1 in na ensures e.0 in na && Precedes(na, e.0, e.1) {
      EdgeIntoNode(nodes, resources, world, orphans, draft, e);
    }
    FedInOrder(na, orphans, E);
    LeastOrderPrefix(na, orphans, E);
  }

  lemma ScheduledAddresses(nodes: seq<Node>)
    requires InScheduleOrder(nodes)
    ensures Graph.WellAddressed(nodes)
  {
  }

  lemma WellAddressedIs(steps: seq<Step>)
    ensures WellAddressed(steps) <==> Distinct(StepAddresses(steps)) && "" !in StepAddresses(steps)
  {
  }

  lemma FedInOrder(na: seq<string>, orphans: seq<string>, E: set<Edge>)
    requires Distinct(na + orphans)
    requires forall e :: e in E && e.1 in na ==> e.0 in na && Precedes(na, e.0, e.1)
    ensures Topological(na, E) && forall u, v :: u in orphans && v in na ==> (u, v) !in E
  {
    NodesAreNoOrphans(na, orphans);
    var all := na + orphans;
    assert forall i :: 0 <= i < |na| ==> all[i] == na[i];
    forall i, j | 0 <= i < |na| && 0 <= j < |na| && (na[i], na[j]) in E ensures i < j {
      assert (na[i], na[j]).1 in na;
      var p, q :| 0 <= p < q < |na| && na[p] == na[i] && na[q] == na[j];
    }
    forall u, v | u in orphans && v in na ensures (u, v) !in E {
      assert (u, v) in E ==> (u, v).0 in na;
    }
  }

  /** Every edge into a node comes from a node before it. */
  ghost predicate FedByNodes(na: seq<string>, all: seq<string>, E: set<Edge>)
  {
    forall p: nat, u | p < |na| && u in all && (u, na[p]) in E :: u in na[..p]
  }

  lemma NodesWereFirst(nodes: seq<Node>, resources: Resources, orphans: seq<string>, draft: seq<Step>)
    requires InScheduleOrder(nodes) && Shaped(nodes, resources, orphans, draft) && WellAddressed(draft)
    requires ExecutionOrder(draft) == Graph.NodeAddresses(nodes) + LeastOrder(orphans, FinalEdges(draft))
    ensures DependsOnNoOrphan(nodes, orphans) && NothingTornDown(nodes, draft) && OrphansIndependent(nodes, resources, orphans)
  {
    var na, E := Graph.NodeAddresses(nodes), FinalEdges(draft);
    LeastOrderSound(StepAddresses(draft), E);
    ExecutionOrderIs(draft);
    hide *;
    PrefixIsFed(na, LeastOrder(orphans, E), StepAddresses(draft), E);
    FedNoOrphan(nodes, resources, orphans, draft);
    FedNoTeardown(nodes, resources, orphans, draft);
    FedIndependent(nodes, resources, orphans, draft);
  }

  lemma PrefixIsFed(na: seq<string>, rest: seq<string>, all: seq<string>, E: set<Edge>)
    requires PredsFirst(na + rest, all, E)
    ensures FedByNodes(na, all, E)
  {
    hide PredsFirst;
    forall p: nat, u | p < |na| && u in all && (u, na[p]) in E ensures u in na[..p] {
      PredInPrefix(na, rest, all, E, p, u);
    }
  }

  lemma FedAt(na: seq<string>, all: seq<string>, E: set<Edge>, p: nat, u: string)
    requires Distinct(na) && FedByNodes(na, all, E) && p < |na| && u in all && (u, na[p]) in E
    ensures exists k :: 0 <= k < p && na[k] == u
    ensures forall q :: p <= q < |na| ==> na[q] != u
  {
    assert u in na[..p];
  }

  lemma FedNoOrphan(nodes: seq<Node>, resources: Resources, orphans: seq<string>, draft: seq<Step>)
    requires InScheduleOrder(nodes) && Shaped(nodes, resources, orphans, draft) && WellAddressed(draft)
    requires FedByNodes(Graph.NodeAddresses(nodes), StepAddresses(draft), FinalEdges(draft))
    ensures DependsOnNoOrphan(nodes, orphans)
  {
    var na := Graph.NodeAddresses(nodes);
    NodesAreNoOrphans(na, orphans);
    assert Distinct(na);
    hide FinalEdges, InScheduleOrder, FedByNodes;
    forall i, d | 0 <= i < |nodes| && d in nodes[i].dependsOn ensures d !in orphans {
      if d in orphans {
        OrphanEdgeKept(nodes, resources, orphans, draft, i, d);
        FedAt(na, StepAddresses(draft), FinalEdges(draft), i, d);
      }
    }
  }

  lemma FedNoTeardown(nodes: seq<Node>, resources: Resources, orphans: seq<string>, draft: seq<Step>)
    requires InScheduleOrder(nodes) && Shaped(nodes, resources, orphans, draft) && WellAddressed(draft)
    requires FedByNodes(Graph.NodeAddresses(nodes), StepAddresses(draft), FinalEdges(draft))
    ensures NothingTornDown(nodes, draft)
  {
    var na := Graph.NodeAddresses(nodes);
    assert Distinct(na);
    hide FinalEdges, IsRemoved, InScheduleOrder, FedByNodes;
    forall i, d | 0 <= i < |nodes| && d in nodes[i].explicitDependsOn ensures !IsRemoved(draft, d) {
      if IsRemoved(draft, d) {
        RemovedEdge(nodes, resources, orphans, draft, i, d);
        var p, q :| 0 <= p < q < |na| && na[p] == d && na[q] == nodes[i].address;
        FedAt(na, StepAddresses(draft), FinalEdges(draft), p, na[q]);
      }
    }
  }

  lemma FedIndependent(nodes: seq<Node>, resources: Resources, orphans: seq<string>, draft: seq<Step>)
    requires InScheduleOrder(nodes) && Shaped(nodes, resources, orphans, draft) && WellAddressed(draft)
    requires FedByNodes(Graph.NodeAddresses(nodes), StepAddresses(draft), FinalEdges(draft))
    ensures OrphansIndependent(nodes, resources, orphans)
  {
    var na := Graph.NodeAddresses(nodes);
    NodesAreNoOrphans(na, orphans);
    assert Distinct(na);
    hide FinalEdges, InScheduleOrder, FedByNodes;
    forall o, d | o in orphans && o in resources && d in resources[o].dependsOn ensures d !in na {
      if d in na {
        OrphanEdge(nodes, resources, orphans, draft, o, d);
        var p :| 0 <= p < |na| && na[p] == d;
        FedAt(na, StepAddresses(draft), FinalEdges(draft), p, o);
      }
    }
  }

  lemma PredInPrefix(na: seq<string>, rest: seq<string>, all: seq<string>, E: set<Edge>, p: nat, u: string)
    requires PredsFirst(na + rest, all, E) && p < |na| && u in all && (u, na[p]) in E
    ensures u in na[..p]
  {
    var r := na + rest;
    assert r[p] == na[p] && r[..p] == na[..p];
  }

  /** An orphan runs before what it depends on. */
  lemma OrphanEdge(nodes: seq<Node>, resources: Resources, orphans: seq<string>, draft: seq<Step>, o: string, d: string)
    requires Shaped(nodes, resources, orphans, draft) && o in orphans && o in resources && d in resources[o].dependsOn
    requires d in Graph.NodeAddresses(nodes)
    ensures (o, d) in FinalEdges(draft) && o in StepAddresses(draft)
  {
    var j :| 0 <= j < |orphans| && orphans[j] == o;
    var k := |nodes| + j;
    assert StepAddresses(draft)[k] == o && o in StepAddresses(draft);
    assert d in StepAddresses(draft);
    assert draft[k] == OrphanStep(o, resources[o]);
    AuthoredHas(draft, |draft|, k, d);
    FinalEdgesWithin(draft);
  }

  /** A node runs before an explicit dependency that is being removed. */
  lemma RemovedEdge(nodes: seq<Node>, resources: Resources, orphans: seq<string>, draft: seq<Step>, i: nat, d: string)
    requires InScheduleOrder(nodes) && Shaped(nodes, resources, orphans, draft)
    requires i < |nodes| && d in nodes[i].explicitDependsOn && IsRemoved(draft, d)
    ensures (nodes[i].address, d) in FinalEdges(draft) && nodes[i].address in StepAddresses(draft)
    ensures Precedes(Graph.NodeAddresses(nodes), d, nodes[i].address)
  {
    NodeAt(nodes, resources, orphans, draft, i);
    assert StepAddresses(draft)[i] in StepAddresses(draft);
    assert d in nodes[i].dependsOn && d in Graph.NodeAddresses(nodes) && d in StepAddresses(draft);
    AuthoredHas(draft, |draft|, i, d);
    FinalEdgesWithin(draft);
  }

  /** The inferred edge from an orphan to a node is never skipped: nothing leads from a node to an orphan. */
  lemma OrphanEdgeKept(nodes: seq<Node>, resources: Resources, orphans: seq<string>, draft: seq<Step>, i: nat,
                       d: string)
    requires InScheduleOrder(nodes) && Shaped(nodes, resources, orphans, draft) && WellAddressed(draft)
    requires i < |nodes| && d in nodes[i].dependsOn && d in orphans
    ensures (d, nodes[i].address) in FinalEdges(draft) && d in StepAddresses(draft)
  {
    var na, n := Graph.NodeAddresses(nodes), nodes[i].address;
    NodesAreNoOrphans(na, orphans);
    NodeAt(nodes, resources, orphans, draft, i);
    InferredMembers(draft, (d, n));
    assert AsksFor(draft[i], (d, n)) && draft[i] in draft;
    assert na[i] in na && d in StepAddresses(draft) && n in StepAddresses(draft);
    hide FinalEdges, Authored, Inferred, Shaped;
    SkippedHasPath(Authored(draft), Inferred(draft), Vertices(draft), (d, n));
    FinalIs(draft);
    forall e | e in FinalEdges(draft) && e.0 in na ensures e.1 in na {
      EdgeFromNode(nodes, resources, orphans, draft, e);
    }
    NoWay(FinalEdges(draft), n, d, Elements(na));
  }

  lemma EdgeFromNode(nodes: seq<Node>, resources: Resources, orphans: seq<string>, draft: seq<Step>, e: Edge)
    requires InScheduleOrder(nodes) && Shaped(nodes, resources, orphans, draft) && WellAddressed(draft)
    requires e in FinalEdges(draft) && e.0 in Graph.NodeAddresses(nodes)
    ensures e.1 in Graph.NodeAddresses(nodes)
  {
    hide *;
    FinalEdgeKinds(draft, e);
    if e in Authored(draft) {
      AuthoredFromNode(nodes, resources, orphans, draft, e);
    } else {
      InferredFromNode(nodes, resources, orphans, draft, e);
    }
  }

  lemma AuthoredFromNode(nodes: seq<Node>, resources: Resources, orphans: seq<string>, draft: seq<Step>, e: Edge)
    requires InScheduleOrder(nodes) && Shaped(nodes, resources, orphans, draft) && WellAddressed(draft)
    requires e in Authored(draft) && e.0 in Graph.NodeAddresses(nodes)
    ensures e.1 in Graph.NodeAddresses(nodes)
  {
    var na := Graph.NodeAddresses(nodes);
    NodesAreNoOrphans(na, orphans);
    var k, d := AuthoredOwner(draft, |draft|, e);
    NodeAt(nodes, resources, orphans, draft, k);
    OrphanOwns(resources, draft, na, orphans, e, k, d);
    hide Authored, StepAddresses, FinalEdges, IsRemoved;
    assert k < |nodes|;
    assert na[k] in na;
  }

  lemma InferredFromNode(nodes: seq<Node>, resources: Resources, orphans: seq<string>, draft: seq<Step>, e: Edge)
    requires Shaped(nodes, resources, orphans, draft) && e in Inferred(draft)
    ensures e.1 in Graph.NodeAddresses(nodes)
  {
    InferredMembers(draft, e);
    var s :| s in draft && AsksFor(s, e);
    var k :| 0 <= k < |draft| && draft[k] == s;
    NodeAt(nodes, resources, orphans, draft, k);
    assert Graph.NodeAddresses(nodes)[k] in Graph.NodeAddresses(nodes);
  }

  /** The part of a draft's shape that edges depend on. */
  ghost predicate Shaped(nodes: seq<Node>, resources: Resources, orphans: seq<string>, draft: seq<Step>)
  {
    && |draft| == |nodes| + |orphans| && StepAddresses(draft) == Graph.NodeAddresses(nodes) + orphans
    && (forall k :: 0 <= k < |draft| ==> (draft[k].IsOrphan() <==> k >= |nodes|))
    && (forall k :: 0 <= k < |nodes| ==> draft[k].node.(payload := nodes[k].payload) == nodes[k])
    && (forall k :: |nodes| <= k < |draft| ==>
          draft[k].address in resources && draft[k] == OrphanStep(draft[k].address, resources[draft[k].address]))
  }

  lemma NodeAt(nodes: seq<Node>, resources: Resources, orphans: seq<string>, draft: seq<Step>, k: nat)
    requires Shaped(nodes, resources, orphans, draft) && k < |draft|
    ensures k < |nodes| ==> Graph.NodeAddresses(nodes)[k] == draft[k].address && nodes[k].address == draft[k].address
    ensures k < |nodes| ==> nodes[k].dependsOn == draft[k].node.dependsOn && nodes[k].explicitDependsOn == draft[k].node.explicitDependsOn
    ensures k >= |nodes| ==> draft[k].address in orphans
  {
    assert StepAddresses(draft)[k] == draft[k].address;
    assert k < |nodes| ==> draft[k].node.(payload := nodes[k].payload).dependsOn == nodes[k].dependsOn;
  }

  lemma AuthoredIntoNode(nodes: seq<Node>, resources: Resources, orphans: seq<string>, draft: seq<Step>, e: Edge)
    requires InScheduleOrder(nodes) && Shaped(nodes, resources, orphans, draft)
    requires NothingTornDown(nodes, draft) && OrphansIndependent(nodes, resources, orphans)
    requires e in Authored(draft) && e.1 in Graph.NodeAddresses(nodes)
    ensures e.0 in Graph.NodeAddresses(nodes) && Precedes(Graph.NodeAddresses(nodes), e.0, e.1)
  {
    var na := Graph.NodeAddresses(nodes);
    var k, d := AuthoredOwner(draft, |draft|, e);
    NodeAt(nodes, resources, orphans, draft, k);
    OrphanOwns(resources, draft, na, orphans, e, k, d);
    hide Authored, StepAddresses, Graph.NodeAddresses, Precedes;
    assert k < |nodes|;
  }

  lemma InferredIntoNode(nodes: seq<Node>, resources: Resources, orphans: seq<string>, draft: seq<Step>, e: Edge)
    requires InScheduleOrder(nodes) && Shaped(nodes, resources, orphans, draft) && DependsOnNoOrphan(nodes, orphans)
    requires e in Inferred(draft) && Endpoints(Vertices(draft), e) && e.1 in Graph.NodeAddresses(nodes)
    ensures e.0 in Graph.NodeAddresses(nodes) && Precedes(Graph.NodeAddresses(nodes), e.0, e.1)
  {
    InferredMembers(draft, e);
    var s :| s in draft && AsksFor(s, e);
    var k :| 0 <= k < |draft| && draft[k] == s;
    NodeAt(nodes, resources, orphans, draft, k);
    assert e.0 in StepAddresses(draft);
    hide Inferred, StepAddresses, Graph.NodeAddresses, Precedes;
  }

  lemma EdgeIntoNode(nodes: seq<Node>, resources: Resources, world: World, orphans: seq<string>, draft: seq<Step>,
                     e: Edge)
    requires InScheduleOrder(nodes) && IsDraft(nodes, resources, world, orphans, draft)
    requires WellAddressed(draft) && forall k :: 0 <= k < |draft| ==> (draft[k].IsOrphan() <==> k >= |nodes|)
    requires DependsOnNoOrphan(nodes, orphans) && NothingTornDown(nodes, draft) && OrphansIndependent(nodes, resources, orphans)
    requires e in FinalEdges(draft) && e.1 in Graph.NodeAddresses(nodes)
    ensures e.0 in Graph.NodeAddresses(nodes) && Precedes(Graph.NodeAddresses(nodes), e.0, e.1)
  {
    hide *;
    ShapedDraft(nodes, resources, world, orphans, draft);
    FinalEdgeKinds(draft, e);
    if e in Authored(draft) {
      AuthoredIntoNode(nodes, resources, orphans, draft, e);
    } else {
      InferredIntoNode(nodes, resources, orphans, draft, e);
    }
  }

  lemma ShapedDraft(nodes: seq<Node>, resources: Resources, world: World, orphans: seq<string>, draft: seq<Step>)
    requires IsDraft(nodes, resources, world, orphans, draft)
    requires forall k :: 0 <= k < |draft| ==> (draft[k].IsOrphan() <==> k >= |nodes|)
    ensures Shaped(nodes, resources, orphans, draft)
  {
    hide IsDraft, PlanNodes, PlanOne, StepAddresses, Graph.NodeAddresses, OrphanStep;
    DraftShape(nodes, resources, world, orphans, draft);
  }
}
