/** What every state the engine writes satisfies, over any sequence of applies, moves and crashes;
    and why nothing still depends on an orphan when it goes. */
module RunInvariant {
  import opened Addresses
  import opened Digraph
  import opened Model
  import opened Planning
  import opened Remoting
  import opened DependencyOrder
  import opened OrderingTheorems
  import opened PlanOrdering
  import opened Execution
  import opened Effects
  import Graph = ResourceGraph

  /** Recorded dependencies stay among the tracked addresses. */
  ghost predicate Closed(resources: Resources)
  {
    forall a, d :: a in resources && d in resources[a].dependsOn ==> d in resources
  }

  ghost predicate GoodState(resources: Resources)
  {
    "" !in resources && Closed(resources) && Acyclic(StateEdges(resources))
  }

  /** A rank that grows along every recorded dependency makes a closed state good. */
  lemma RankedState(resources: Resources, rank: string -> int)
    requires "" !in resources
    requires forall a, d :: a in resources && d in resources[a].dependsOn ==> d in resources && rank(a) < rank(d)
    ensures GoodState(resources)
  {
    forall e | e in StateEdges(resources) ensures rank(e.0) < rank(e.1) {
      var a, d :| a in resources && d in resources[a].dependsOn && e == (a, d);
    }
    RankAcyclic(StateEdges(resources), rank);
  }

  lemma GoodParts(resources: Resources)
    requires GoodState(resources)
    ensures "" !in resources && Acyclic(StateEdges(resources))
  {
  }

  lemma AddressParts(nodes: seq<Node>)
    requires InScheduleOrder(nodes)
    ensures "" !in Graph.NodeAddresses(nodes) && Distinct(Graph.NodeAddresses(nodes))
  {
  }

  // ---- the dependency lists executeHost records ----

  lemma StartDeps(plan: HostPlan, a: string)
    requires a in plan.priorResources
    ensures a in StartState(plan)
    ensures StartState(plan)[a].dependsOn ==
            if NodeStepAt(plan.steps, a) then Tracked(StepFor(plan.steps, a).node.explicitDependsOn, plan.priorResources.Keys)
            else plan.priorResources[a].dependsOn
  {
    assert Renumbered(plan.priorResources, plan.steps).Keys == plan.priorResources.Keys;
  }

  lemma FinalDeps(reports: Reports, plan: HostPlan, world: World, a: string)
    requires a in FinalMachine(reports, plan, world).resources && NodeStepAt(plan.steps, a)
    ensures forall d :: d in FinalMachine(reports, plan, world).resources[a].dependsOn ==>
              d in FinalMachine(reports, plan, world).resources && d in StepFor(plan.steps, a).node.explicitDependsOn
  {
    var m := PerformAll(reports, Machine(StartState(plan), world), plan.steps);
    assert FinalMachine(reports, plan, world).resources.Keys == m.resources.Keys;
    CanonicalMembers(StepFor(plan.steps, a).node.explicitDependsOn);
  }

  /** A node's step keeps the node's authored dependencies, which all come earlier in schedule order. */
  lemma NodeStepDeps(nodes: seq<Node>, resources: Resources, world: World, orphans: seq<string>,
                     draft: seq<Step>, plan: HostPlan, k: nat)
    requires IsPlan(nodes, resources, world, orphans, draft, plan) && InScheduleOrder(nodes) && k < |nodes|
    ensures NodeStepAt(plan.steps, nodes[k].address)
    ensures StepFor(plan.steps, nodes[k].address).node.explicitDependsOn == nodes[k].explicitDependsOn
    ensures forall d :: d in nodes[k].explicitDependsOn ==> Precedes(Graph.NodeAddresses(nodes), d, nodes[k].address)
  {
    hide *;
    ExplicitPrecedes(nodes, k);
    NodeIsNotOrphan(nodes, resources, world, orphans, draft, plan, k);
    NodeStepNode(nodes, resources, world, orphans, draft, plan, k);
    IsNodeStep(plan.steps, nodes[k].address);
  }

  lemma IsNodeStep(steps: seq<Step>, a: string)
    requires a in StepAddresses(steps) && !StepFor(steps, a).IsOrphan()
    ensures NodeStepAt(steps, a)
  {
  }

  lemma ExplicitPrecedes(nodes: seq<Node>, k: nat)
    requires InScheduleOrder(nodes) && k < |nodes|
    ensures Graph.WellAddressed(nodes)
    ensures forall d :: d in nodes[k].explicitDependsOn ==> Precedes(Graph.NodeAddresses(nodes), d, nodes[k].address)
  {
    hide Precedes, Graph.WellAddressed;
    forall d | d in nodes[k].explicitDependsOn ensures Precedes(Graph.NodeAddresses(nodes), d, nodes[k].address) {
      assert d in nodes[k].dependsOn && d in Graph.NodeAddresses(nodes);
    }
  }

  /** The step of a node carries it, but for the payload. */
  lemma NodeStepNode(nodes: seq<Node>, resources: Resources, world: World, orphans: seq<string>, draft: seq<Step>,
                     plan: HostPlan, k: nat)
    requires IsPlan(nodes, resources, world, orphans, draft, plan) && k < |nodes|
    ensures nodes[k].address in StepAddresses(plan.steps)
    ensures StepFor(plan.steps, nodes[k].address).node.(payload := nodes[k].payload) == nodes[k]
  {
    hide *;
    NodeStep(nodes, resources, world, orphans, draft, plan, k);
    PlanPrior(nodes, resources, world, orphans, draft, plan);
    DraftShape(nodes, resources, world, orphans, draft);
  }

  lemma OtherStepDeps(nodes: seq<Node>, resources: Resources, world: World, orphans: seq<string>,
                      draft: seq<Step>, plan: HostPlan, a: string)
    requires IsPlan(nodes, resources, world, orphans, draft, plan) && a !in Graph.NodeAddresses(nodes)
    ensures !NodeStepAt(plan.steps, a) && (a in plan.priorResources <==> a in resources)
    ensures a in resources ==> plan.priorResources[a].dependsOn == resources[a].dependsOn
  {
    OtherStep(nodes, resources, world, orphans, draft, plan, a);
  }

  lemma PriorKeys(nodes: seq<Node>, resources: Resources, world: World, orphans: seq<string>, draft: seq<Step>,
                  plan: HostPlan)
    requires IsPlan(nodes, resources, world, orphans, draft, plan)
    ensures plan.priorResources.Keys == resources.Keys
  {
    hide IsPlan, PlannedPrior;
    forall a ensures Find(plan.priorResources, a).Some? <==> Find(resources, a).Some? {
      if a in Graph.NodeAddresses(nodes) {
        var k :| 0 <= k < |nodes| && Graph.NodeAddresses(nodes)[k] == a;
        NodeStep(nodes, resources, world, orphans, draft, plan, k);
        SomePrior(nodes[k], Find(resources, a));
      } else {
        OtherStep(nodes, resources, world, orphans, draft, plan, a);
      }
    }
    forall a ensures a in plan.priorResources <==> a in resources {
      assert Find(plan.priorResources, a).Some? <==> Find(resources, a).Some?;
    }
  }

  lemma SomePrior(node: Node, prior: Option<Resource>)
    ensures PlannedPrior(node, prior).Some? <==> prior.Some?
  {
  }

  /** Nodes by their schedule position, backwards; orphans below all nodes, in an order of their own. */
  function StateRank(na: seq<string>, orphanOrder: seq<string>, x: string): int
  {
    if x in na then 0 - IndexOf(na, x)
    else if x in orphanOrder then IndexOf(orphanOrder, x) - |orphanOrder| - |na|
    else 0
  }

  /** The early write keeps the state good: orphans keep what was recorded, nodes get their tracked authored dependencies. */
  lemma EarlyWriteGood(nodes: seq<Node>, resources: Resources, world: World, orphans: seq<string>,
                       draft: seq<Step>, plan: HostPlan)
    requires IsPlan(nodes, resources, world, orphans, draft, plan) && InScheduleOrder(nodes) && GoodState(resources)
    ensures GoodState(StartState(plan)) && StartState(plan).Keys == resources.Keys
  {
    hide *;
    var start, na := StartState(plan), Graph.NodeAddresses(nodes);
    PriorKeys(nodes, resources, world, orphans, draft, plan);
    StartCore(plan, "");
    PlanPrior(nodes, resources, world, orphans, draft, plan);
    OrphansSortedOf(nodes, resources, world, orphans, draft);
    GoodParts(resources);
    var orphanOrder := OrphanOrder(resources, orphans);
    var rank := x => StateRank(na, orphanOrder, x);
    forall a, d | a in start && d in start[a].dependsOn ensures d in start && rank(a) < rank(d) {
      StartEdge(nodes, resources, world, orphans, draft, plan, orphanOrder, a, d);
    }
    RankedState(start, rank);
  }

  lemma OrphansSortedOf(nodes: seq<Node>, resources: Resources, world: World, orphans: seq<string>, draft: seq<Step>)
    requires IsDraft(nodes, resources, world, orphans, draft)
    ensures OrphansSorted(resources, orphans)
  {
  }

  lemma StartEdge(nodes: seq<Node>, resources: Resources, world: World, orphans: seq<string>, draft: seq<Step>,
                  plan: HostPlan,
                  orphanOrder: seq<string>, a: string, d: string)
    requires IsPlan(nodes, resources, world, orphans, draft, plan) && InScheduleOrder(nodes) && GoodState(resources)
    requires Permutes(orphanOrder, orphans)
    requires forall e :: IsOrphanEdge(resources, orphans, e) ==> IndexOf(orphanOrder, e.0) < IndexOf(orphanOrder, e.1)
    requires a in StartState(plan) && d in StartState(plan)[a].dependsOn
    ensures d in StartState(plan)
    ensures StateRank(Graph.NodeAddresses(nodes), orphanOrder, a) < StateRank(Graph.NodeAddresses(nodes), orphanOrder, d)
  {
    var na := Graph.NodeAddresses(nodes);
    PriorKeys(nodes, resources, world, orphans, draft, plan);
    StartCore(plan, a);
    StartDeps(plan, a);
    PlanPrior(nodes, resources, world, orphans, draft, plan);
    assert Distinct(na) && Closed(resources);
    if a in na {
      var k :| 0 <= k < |nodes| && na[k] == a;
      NodeStepDeps(nodes, resources, world, orphans, draft, plan, k);
      CanonicalMembers(nodes[k].explicitDependsOn);
      hide *;
      NodeRankRises(na, orphanOrder, d, a);
    } else {
      OtherStepDeps(nodes, resources, world, orphans, draft, plan, a);
      assert (a, d) in StateEdges(resources) && d in resources;
      hide *;
      OrphanRankRises(na, resources, orphans, orphanOrder, a, d);
    }
  }

  lemma NodeRankRises(na: seq<string>, orphanOrder: seq<string>, d: string, a: string)
    requires Distinct(na) && Precedes(na, d, a)
    ensures d in na && a in na && StateRank(na, orphanOrder, a) < StateRank(na, orphanOrder, d)
  {
    var i, j :| 0 <= i < j < |na| && na[i] == d && na[j] == a;
    IndexOfDistinct(na, i);
    IndexOfDistinct(na, j);
  }

  lemma OrphanRankRises(na: seq<string>, resources: Resources, orphans: seq<string>, orphanOrder: seq<string>,
                        a: string, d: string)
    requires Permutes(orphanOrder, orphans) && forall x :: x in orphans <==> x in resources && x !in na
    requires forall e :: IsOrphanEdge(resources, orphans, e) ==> IndexOf(orphanOrder, e.0) < IndexOf(orphanOrder, e.1)
    requires a !in na && a in resources && d in resources && (a, d) in StateEdges(resources)
    ensures StateRank(na, orphanOrder, a) < StateRank(na, orphanOrder, d)
  {
    if d !in na {
      assert IsOrphanEdge(resources, orphans, (a, d));
    }
  }

  /** The final write is good and holds no orphan. */
  lemma FinalWriteGood(reports: Reports, nodes: seq<Node>, resources: Resources, world: World, orphans: seq<string>,
                       draft: seq<Step>, plan: HostPlan)
    requires IsPlan(nodes, resources, world, orphans, draft, plan) && InScheduleOrder(nodes)
    ensures var final := FinalMachine(reports, plan, world).resources;
            GoodState(final) && forall a :: a in final ==> a in Graph.NodeAddresses(nodes)
  {
    hide *;
    var final, na := FinalMachine(reports, plan, world).resources, Graph.NodeAddresses(nodes);
    AddressParts(nodes);
    forall a | a in final ensures a in na {
      NoOrphanLeft(reports, nodes, resources, world, orphans, draft, plan, a);
    }
    var rank := x => StateRank(na, [], x);
    forall a, d | a in final && d in final[a].dependsOn ensures d in final && rank(a) < rank(d) {
      FinalEdge(reports, nodes, resources, world, orphans, draft, plan, a, d);
    }
    RankedState(final, rank);
  }

  lemma NoOrphanLeft(reports: Reports, nodes: seq<Node>, resources: Resources, world: World, orphans: seq<string>,
                     draft: seq<Step>, plan: HostPlan, a: string)
    requires IsPlan(nodes, resources, world, orphans, draft, plan) && a in FinalMachine(reports, plan, world).resources
    ensures a in Graph.NodeAddresses(nodes)
  {
    hide *;
    if a !in Graph.NodeAddresses(nodes) {
      OtherStep(nodes, resources, world, orphans, draft, plan, a);
      FinalAt(reports, plan, world, a);
      NoCore(reports, FinalMachine(reports, plan, world).resources, a, plan.priorResources, resources);
    }
  }

  lemma NoCore(reports: Reports, final: Resources, a: string, prior: Resources, resources: Resources)
    requires Find(prior, a) == Find(resources, a) && a in final
    requires a in resources ==> CoreAt(final, a) == CoreEffect(reports, OrphanStep(a, resources[a]), CoreOf(Find(prior, a)))
    ensures a !in resources ==> CoreAt(final, a) != CoreOf(Find(prior, a))
    ensures a !in resources
  {
  }

  lemma FinalEdge(reports: Reports, nodes: seq<Node>, resources: Resources, world: World, orphans: seq<string>,
                  draft: seq<Step>,
                  plan: HostPlan,
                  a: string, d: string)
    requires IsPlan(nodes, resources, world, orphans, draft, plan) && InScheduleOrder(nodes)
    requires a in FinalMachine(reports, plan, world).resources && d in FinalMachine(reports, plan, world).resources[a].dependsOn
    requires a in Graph.NodeAddresses(nodes)
    ensures d in FinalMachine(reports, plan, world).resources
    ensures StateRank(Graph.NodeAddresses(nodes), [], a) < StateRank(Graph.NodeAddresses(nodes), [], d)
  {
    var na := Graph.NodeAddresses(nodes);
    assert Distinct(na);
    var k :| 0 <= k < |nodes| && na[k] == a;
    NodeStepDeps(nodes, resources, world, orphans, draft, plan, k);
    FinalDeps(reports, plan, world, a);
    hide *;
    NodeRankRises(na, [], d, a);
  }

  // ---- teardown safety ----

  /** Every dependency in memory was there at the start, or is authored by the step that last wrote the resource. */
  lemma {:induction false} MachineDeps(reports: Reports, m: Machine, steps: seq<Step>, a: string)
    requires WellAddressed(steps) && a in PerformAll(reports, m, steps).resources
    ensures forall d :: d in PerformAll(reports, m, steps).resources[a].dependsOn ==>
              (a in m.resources && d in m.resources[a].dependsOn) ||
              (NodeStepAt(steps, a) && d in StepFor(steps, a).node.explicitDependsOn) ||
              (a in StepAddresses(steps) && StepFor(steps, a).IsOrphan() && StepFor(steps, a).action in {Adopt, Create, Update})
  {
    if steps != [] {
      var n := |steps| - 1;
      var before := PerformAll(reports, m, steps[..n]);
      PrefixStep(steps, n);
      assert steps[..n + 1] == steps;
      assert PerformAll(reports, m, steps) == Perform(reports, before, steps[n], n + 1);
      PerformDeps(reports, before, steps[n], n + 1, a);
      hide StepFor, StepAddresses, Perform, WellAddressed;
      if a in before.resources {
        MachineDeps(reports, m, steps[..n], a);
      }
    }
  }

  /** A dependency in memory was there before a step, or the step wrote it for its own address. */
  lemma PerformDeps(reports: Reports, m: Machine, step: Step, order: nat, a: string)
    requires a in Perform(reports, m, step, order).resources
    ensures forall d :: d in Perform(reports, m, step, order).resources[a].dependsOn ==>
              (a in m.resources && d in m.resources[a].dependsOn) ||
              (a == step.address && step.action in {Adopt, Create, Update} && d in step.node.explicitDependsOn)
  {
    CanonicalMembers(step.node.explicitDependsOn);
  }

  /** When executeHost reaches an orphan, no resource still in memory lists it: the orphans that depended on
      it have gone before, and live resources depend on graph addresses only. */
  lemma TeardownSafe(reports: Reports, nodes: seq<Node>, resources: Resources, world: World, orphans: seq<string>,
                     draft: seq<Step>, plan: HostPlan, k: nat, a: string)
    requires IsPlan(nodes, resources, world, orphans, draft, plan) && InScheduleOrder(nodes)
    requires k < |plan.steps| && plan.steps[k].IsOrphan()
    requires a in PerformAll(reports, Machine(StartState(plan), world), plan.steps[..k]).resources
    ensures plan.steps[k].address !in PerformAll(reports, Machine(StartState(plan), world), plan.steps[..k]).resources[a].dependsOn
  {
    hide *;
    var o := plan.steps[k].address;
    ScheduledAddressed(nodes);
    OrphanHere(nodes, resources, world, orphans, draft, plan, k);
    if a in Graph.NodeAddresses(nodes) {
      var i :| 0 <= i < |nodes| && Graph.NodeAddresses(nodes)[i] == a;
      LiveDeps(reports, nodes, resources, world, orphans, draft, plan, k, i, o);
    } else {
      OrphanDeps(reports, nodes, resources, world, orphans, draft, plan, k, a);
    }
  }

  lemma ScheduledAddressed(nodes: seq<Node>)
    requires InScheduleOrder(nodes)
    ensures Graph.WellAddressed(nodes)
  {
  }

  lemma OrphanHere(nodes: seq<Node>, resources: Resources, world: World, orphans: seq<string>, draft: seq<Step>,
                   plan: HostPlan, k: nat)
    requires IsPlan(nodes, resources, world, orphans, draft, plan) && Graph.WellAddressed(nodes)
    requires k < |plan.steps| && plan.steps[k].IsOrphan()
    ensures plan.steps[k].address !in Graph.NodeAddresses(nodes)
  {
    PlanSteps(nodes, resources, world, orphans, draft, plan);
    StepForAt(plan.steps, k);
    if plan.steps[k].address in Graph.NodeAddresses(nodes) {
      var i :| 0 <= i < |nodes| && Graph.NodeAddresses(nodes)[i] == plan.steps[k].address;
      NodeStep(nodes, resources, world, orphans, draft, plan, i);
      NodeIsNotOrphan(nodes, resources, world, orphans, draft, plan, i);
    }
  }

  lemma NodeIsNotOrphan(nodes: seq<Node>, resources: Resources, world: World, orphans: seq<string>,
                        draft: seq<Step>, plan: HostPlan, i: nat)
    requires IsPlan(nodes, resources, world, orphans, draft, plan) && Graph.WellAddressed(nodes) && i < |nodes|
    ensures nodes[i].address in StepAddresses(plan.steps) && !StepFor(plan.steps, nodes[i].address).IsOrphan()
  {
    hide *;
    NodeStepNode(nodes, resources, world, orphans, draft, plan, i);
    NodeAddressed(nodes, i);
    NotOrphan(StepFor(plan.steps, nodes[i].address));
  }

  lemma NotOrphan(s: Step)
    requires s.node.address != ""
    ensures !s.IsOrphan()
  {
  }

  lemma NodeAddressed(nodes: seq<Node>, i: nat)
    requires Graph.WellAddressed(nodes) && i < |nodes|
    ensures nodes[i].address != ""
  {
    assert Graph.NodeAddresses(nodes)[i] in Graph.NodeAddresses(nodes);
  }

  lemma LiveDeps(reports: Reports, nodes: seq<Node>, resources: Resources, world: World, orphans: seq<string>,
                 draft: seq<Step>,
                 plan: HostPlan,
                 k: nat, i: nat, o: string)
    requires IsPlan(nodes, resources, world, orphans, draft, plan) && InScheduleOrder(nodes)
    requires k < |plan.steps| && i < |nodes| && o !in Graph.NodeAddresses(nodes)
    requires nodes[i].address in PerformAll(reports, Machine(StartState(plan), world), plan.steps[..k]).resources
    ensures o !in PerformAll(reports, Machine(StartState(plan), world), plan.steps[..k]).resources[nodes[i].address].dependsOn
  {
    hide *;
    var m0, a := Machine(StartState(plan), world), nodes[i].address;
    NodeStepDeps(nodes, resources, world, orphans, draft, plan, i);
    ExplicitInGraph(nodes, i, o);
    PlanSteps(nodes, resources, world, orphans, draft, plan);
    PrefixWellAddressed(plan.steps, k);
    StartNames(plan, a, o);
    MachineDeps(reports, m0, plan.steps[..k], a);
    PrefixNodeStep(plan.steps, k, a);
  }

  lemma ExplicitInGraph(nodes: seq<Node>, i: nat, o: string)
    requires InScheduleOrder(nodes) && i < |nodes| && o !in Graph.NodeAddresses(nodes)
    ensures o !in nodes[i].explicitDependsOn
  {
  }

  /** After reconciling, a node's step leaves only its authored dependencies. */
  lemma StartNames(plan: HostPlan, a: string, o: string)
    requires NodeStepAt(plan.steps, a) && o !in StepFor(plan.steps, a).node.explicitDependsOn
    ensures a in StartState(plan) ==> o !in StartState(plan)[a].dependsOn
  {
    StartCore(plan, a);
    if a in plan.priorResources {
      StartDeps(plan, a);
      hide StartState;
      CanonicalMembers(StepFor(plan.steps, a).node.explicitDependsOn);
    }
  }

  lemma PrefixNodeStep(steps: seq<Step>, k: nat, a: string)
    requires WellAddressed(steps) && k <= |steps| && NodeStepAt(steps, a)
    ensures a in StepAddresses(steps[..k]) ==> StepFor(steps[..k], a) == StepFor(steps, a) && !StepFor(steps[..k], a).IsOrphan()
  {
    PrefixWellAddressed(steps, k);
  }

  lemma OrphanDeps(reports: Reports, nodes: seq<Node>, resources: Resources, world: World, orphans: seq<string>,
                   draft: seq<Step>,
                   plan: HostPlan, k: nat, a: string)
    requires IsPlan(nodes, resources, world, orphans, draft, plan) && InScheduleOrder(nodes)
    requires k < |plan.steps| && a !in Graph.NodeAddresses(nodes)
    requires a in PerformAll(reports, Machine(StartState(plan), world), plan.steps[..k]).resources
    ensures plan.steps[k].address !in PerformAll(reports, Machine(StartState(plan), world), plan.steps[..k]).resources[a].dependsOn
  {
    var o, m0 := plan.steps[k].address, Machine(StartState(plan), world);
    PlanSteps(nodes, resources, world, orphans, draft, plan);
    PrefixWellAddressed(plan.steps, k);
    OtherStep(nodes, resources, world, orphans, draft, plan, a);
    OtherStepDeps(nodes, resources, world, orphans, draft, plan, a);
    StartCore(plan, a);
    hide *;
    if a in plan.priorResources { StartDeps(plan, a); }
    OrphanStillThere(reports, m0, plan.steps, k, a);
    if a in resources && o in resources[a].dependsOn {
      DependentsGoFirst(nodes, resources, world, orphans, draft, plan, a, k);
    }
  }

  /** While an address without a node step is tracked, its own step has not run, so its list only shrinks. */
  lemma OrphanStillThere(reports: Reports, m0: Machine, steps: seq<Step>, k: nat, a: string)
    requires WellAddressed(steps) && k <= |steps| && a in PerformAll(reports, m0, steps[..k]).resources
    requires a in StepAddresses(steps) ==> StepFor(steps, a).action in {Forget, Delete, Destroy}
    ensures a in m0.resources && a !in StepAddresses(steps[..k])
    ensures forall d :: d in PerformAll(reports, m0, steps[..k]).resources[a].dependsOn ==> d in m0.resources[a].dependsOn
  {
    PrefixWellAddressed(steps, k);
    EffectAt(reports, m0, steps[..k], a);
    MachineDeps(reports, m0, steps[..k], a);
  }

  /** An orphan that depends on a planned address runs, and goes, before it. */
  lemma DependentsGoFirst(nodes: seq<Node>, resources: Resources, world: World, orphans: seq<string>,
                          draft: seq<Step>, plan: HostPlan,
                          a: string, k: nat)
    requires IsPlan(nodes, resources, world, orphans, draft, plan) && k < |plan.steps|
    requires a in resources && a !in Graph.NodeAddresses(nodes) && plan.steps[k].address in resources[a].dependsOn
    ensures a in StepAddresses(plan.steps[..k])
  {
    hide *;
    OtherStep(nodes, resources, world, orphans, draft, plan, a);
    PlanSteps(nodes, resources, world, orphans, draft, plan);
    PlanPrior(nodes, resources, world, orphans, draft, plan);
    OrderIsLinearExtension(draft);
    PlanOrder(nodes, resources, world, orphans, draft, plan);
    StepForAt(plan.steps, k);
    DependsEdge(draft, a, resources[a], plan.steps[k].address);
    StepsBefore(plan.steps, a, k);
  }

  lemma DependsEdge(draft: seq<Step>, a: string, resource: Resource, d: string)
    requires a in StepAddresses(draft) && d in StepAddresses(draft) && d in resource.dependsOn
    requires StepFor(draft, a) == OrphanStep(a, resource)
    ensures (a, d) in Authored(draft)
  {
    var i := StepIndex(draft, a);
    AuthoredHas(draft, |draft|, i, d);
  }

  lemma StepsBefore(steps: seq<Step>, a: string, k: nat)
    requires WellAddressed(steps) && k < |steps| && Precedes(StepAddresses(steps), a, steps[k].address)
    ensures a in StepAddresses(steps[..k])
  {
    var p, q :| 0 <= p < q < |steps| && StepAddresses(steps)[p] == a && StepAddresses(steps)[q] == steps[k].address;
    StepForAt(steps, q);
    StepForAt(steps, k);
    assert StepAddresses(steps[..k])[p] == a;
  }

  lemma PlanOrder(nodes: seq<Node>, resources: Resources, world: World, orphans: seq<string>, draft: seq<Step>,
                  plan: HostPlan)
    requires IsPlan(nodes, resources, world, orphans, draft, plan)
    ensures StepAddresses(plan.steps) == ExecutionOrder(draft)
  {
  }
}
