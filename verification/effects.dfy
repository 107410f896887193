/** What executing a plan does to one address, independent of the order of the other steps. */
module Effects {
  import opened Digraph
  import opened Model
  import opened Planning
  import opened Remoting
  import opened DependencyOrder
  import opened OrderingTheorems
  import opened PlanOrdering
  import opened Execution
  import Graph = ResourceGraph

  /** The part of a tracked resource that only its own step decides. */
  function Core(r: Resource): Resource
  {
    r.(dependsOn := [], order := 0)
  }

  function CoreAt(resources: Resources, a: string): Option<Resource>
  {
    if a in resources then Some(Core(resources[a])) else None
  }

  function WorldAt(world: World, a: string): Option<Observed>
  {
    if a in world then Some(world[a]) else None
  }

  function WorldEffect(reports: Reports, step: Step, before: Option<Observed>): Option<Observed>
  {
    match step.action
    case NoOp => before
    case Forget => before
    case Adopt => before
    case Delete => None
    case Destroy => None
    case Create => Some(reports(step.node))
    case Update => Some(reports(step.node))
  }

  ghost function CoreEffect(reports: Reports, step: Step, before: Option<Resource>): Option<Resource>
  {
    match step.action
    case NoOp => before
    case Forget => None
    case Delete => None
    case Destroy => None
    case Adopt => Some(Core(ResourceForStep(step, step.observed.isProtected, 0)))
    case Create => Some(Core(ResourceForStep(step, reports(step.node).isProtected, 0)))
    case Update => Some(Core(ResourceForStep(step, reports(step.node).isProtected, 0)))
  }

  lemma PerformAt(reports: Reports, m: Machine, step: Step, order: nat, a: string)
    ensures var m' := Perform(reports, m, step, order);
            WorldAt(m'.world, a) == (if a == step.address then WorldEffect(reports, step, WorldAt(m.world, a)) else WorldAt(m.world, a)) &&
            CoreAt(m'.resources, a) == (if a == step.address then CoreEffect(reports, step, CoreAt(m.resources, a)) else CoreAt(m.resources, a))
  {
  }

  /** A plan touches exactly the addresses of its steps, each by its own step. */
  lemma {:induction false} EffectAt(reports: Reports, m: Machine, steps: seq<Step>, a: string)
    requires WellAddressed(steps)
    ensures var m' := PerformAll(reports, m, steps);
            if a in StepAddresses(steps) then
              var s := StepFor(steps, a);
              WorldAt(m'.world, a) == WorldEffect(reports, s, WorldAt(m.world, a)) &&
              CoreAt(m'.resources, a) == CoreEffect(reports, s, CoreAt(m.resources, a))
            else
              WorldAt(m'.world, a) == WorldAt(m.world, a) && CoreAt(m'.resources, a) == CoreAt(m.resources, a)
  {
    if steps != [] {
      var n := |steps| - 1;
      PrefixStep(steps, n);
      assert steps[..n + 1] == steps;
      EffectAt(reports, m, steps[..n], a);
      PerformAt(reports, PerformAll(reports, m, steps[..n]), steps[n], n + 1, a);
    }
  }

  /** The steps of a plan are those of its draft. */
  lemma PlanSteps(nodes: seq<Node>, resources: Resources, world: World, orphans: seq<string>, draft: seq<Step>,
                  plan: HostPlan)
    requires IsPlan(nodes, resources, world, orphans, draft, plan)
    ensures WellAddressed(plan.steps) && Acyclic(Authored(draft))
    ensures forall a :: a in StepAddresses(plan.steps) <==> a in StepAddresses(draft)
    ensures forall a :: a in StepAddresses(draft) ==> StepFor(plan.steps, a) == StepFor(draft, a)
  {
    FailsIffAuthoredCyclic(draft);
    OrderIsLinearExtension(draft);
    forall a | a in StepAddresses(draft) ensures StepFor(plan.steps, a) == StepFor(draft, a) {
      SameStep(draft, StepFor(plan.steps, a), StepFor(draft, a));
    }
  }

  lemma SameStep(steps: seq<Step>, s: Step, t: Step)
    requires WellAddressed(steps) && s in steps && t in steps && s.address == t.address
    ensures s == t
  {
    var i :| 0 <= i < |steps| && steps[i] == s;
    var j :| 0 <= j < |steps| && steps[j] == t;
    assert StepAddresses(steps)[i] == StepAddresses(steps)[j];
  }

  /** The prior state of a plan, address by address. */
  lemma {:induction false} PriorOfAt(resources: Resources, steps: seq<Step>, a: string)
    requires WellAddressed(steps)
    ensures Find(PriorOf(resources, steps), a) ==
            if a in StepAddresses(steps) && StepFor(steps, a).prior.Some? then StepFor(steps, a).prior else Find(resources, a)
  {
    if steps != [] {
      var n := |steps| - 1;
      PrefixStep(steps, n);
      assert steps[..n + 1] == steps;
      PriorOfAt(resources, steps[..n], a);
    }
  }

  lemma StartCore(plan: HostPlan, a: string)
    ensures CoreAt(StartState(plan), a) == CoreAt(plan.priorResources, a)
    ensures StartState(plan).Keys == plan.priorResources.Keys
  {
  }

  lemma FinalCore(reports: Reports, plan: HostPlan, world: World, a: string)
    ensures CoreAt(FinalMachine(reports, plan, world).resources, a) ==
            CoreAt(PerformAll(reports, Machine(StartState(plan), world), plan.steps).resources, a)
    ensures FinalMachine(reports, plan, world).world == PerformAll(reports, Machine(StartState(plan), world), plan.steps).world
  {
  }

  function CoreOf(r: Option<Resource>): Option<Resource>
  {
    if r.Some? then Some(Core(r.value)) else None
  }

  /** The final machine at any address, from the step that owns it. */
  lemma FinalAt(reports: Reports, plan: HostPlan, world: World, a: string)
    requires WellAddressed(plan.steps)
    ensures CoreAt(StartState(plan), a) == CoreOf(Find(plan.priorResources, a))
    ensures var m := FinalMachine(reports, plan, world);
            if a in StepAddresses(plan.steps) then
              var s := StepFor(plan.steps, a);
              WorldAt(m.world, a) == WorldEffect(reports, s, WorldAt(world, a)) &&
              CoreAt(m.resources, a) == CoreEffect(reports, s, CoreOf(Find(plan.priorResources, a)))
            else
              WorldAt(m.world, a) == WorldAt(world, a) && CoreAt(m.resources, a) == CoreOf(Find(plan.priorResources, a))
  {
    StartCore(plan, a);
    EffectAt(reports, Machine(StartState(plan), world), plan.steps, a);
    FinalCore(reports, plan, world, a);
  }

  /** A node's step survives the ordering, and the plan's prior state holds its planned prior. */
  lemma NodeStep(nodes: seq<Node>, resources: Resources, world: World, orphans: seq<string>, draft: seq<Step>,
                 plan: HostPlan, k: nat)
    requires IsPlan(nodes, resources, world, orphans, draft, plan) && k < |nodes|
    ensures k < |PlanNodes(nodes, resources, world).value|
    ensures var s, a := PlanNodes(nodes, resources, world).value[k], nodes[k].address;
            a in StepAddresses(plan.steps) && StepFor(plan.steps, a) == s &&
            s.prior == PlannedPrior(nodes[k], Find(resources, a)) && Find(plan.priorResources, a) == s.prior
    ensures WellAddressed(plan.steps)
  {
    PlanNodesShape(nodes, resources, world);
    DraftShape(nodes, resources, world, orphans, draft);
    PlanSteps(nodes, resources, world, orphans, draft, plan);
    PlanPrior(nodes, resources, world, orphans, draft, plan);
    var s, a := PlanNodes(nodes, resources, world).value[k], nodes[k].address;
    PlanOnePrior(nodes[k], resources, world, ActionsOf(PlanNodes(nodes, resources, world).value[..k]), s);
    hide *;
    StepForAt(draft, k);
    PriorOfAt(resources, draft, a);
  }

  lemma PlanOnePrior(node: Node, resources: Resources, world: World, actions: Actions, s: Step)
    requires PlanOne(node, resources, world, actions) == Ok(s)
    ensures s.prior == PlannedPrior(node, Find(resources, node.address))
    ensures s.prior.None? ==> Find(resources, node.address).None?
    ensures s.address == node.address
  {
  }

  lemma PlanPrior(nodes: seq<Node>, resources: Resources, world: World, orphans: seq<string>, draft: seq<Step>,
                  plan: HostPlan)
    requires IsPlan(nodes, resources, world, orphans, draft, plan)
    ensures plan.priorResources == PriorOf(resources, draft) && WellAddressed(draft)
    ensures IsDraft(nodes, resources, world, orphans, draft)
    ensures forall a :: a in orphans <==> a in resources && a !in Graph.NodeAddresses(nodes)
    ensures forall a :: a in orphans ==> !OrphanBlocked(resources[a])
  {
  }

  /** The step of an address without a node in a draft. */
  lemma OtherInDraft(nodes: seq<Node>, resources: Resources, world: World, orphans: seq<string>, draft: seq<Step>,
                     a: string)
    requires IsDraft(nodes, resources, world, orphans, draft) && WellAddressed(draft) && a !in Graph.NodeAddresses(nodes)
    requires forall a :: a in orphans <==> a in resources && a !in Graph.NodeAddresses(nodes)
    ensures a in resources <==> a in StepAddresses(draft)
    ensures a in resources ==> StepFor(draft, a) == OrphanStep(a, resources[a])
  {
    DraftShape(nodes, resources, world, orphans, draft);
    hide PlanNodes, IsDraft, PlanOne, OrphanStep;
    assert a in StepAddresses(draft) <==> a in orphans;
    if a in orphans {
      var j :| 0 <= j < |orphans| && orphans[j] == a;
      assert draft[|nodes| + j].address == orphans[|nodes| + j - |nodes|];
      StepForAt(draft, |nodes| + j);
    }
  }

  /** An address without a node has a step exactly when it is tracked, and that step is its orphan step. */
  lemma OtherStep(nodes: seq<Node>, resources: Resources, world: World, orphans: seq<string>, draft: seq<Step>,
                  plan: HostPlan, a: string)
    requires IsPlan(nodes, resources, world, orphans, draft, plan) && a !in Graph.NodeAddresses(nodes)
    ensures WellAddressed(plan.steps)
    ensures a in resources <==> a in StepAddresses(plan.steps)
    ensures a in resources ==> StepFor(plan.steps, a) == OrphanStep(a, resources[a])
    ensures Find(plan.priorResources, a) == Find(resources, a)
  {
    PlanPrior(nodes, resources, world, orphans, draft, plan);
    PlanSteps(nodes, resources, world, orphans, draft, plan);
    OtherInDraft(nodes, resources, world, orphans, draft, a);
    PriorOfAt(resources, draft, a);
    hide IsPlan, PlanNodes, IsDraft, PlanOne, PriorOf, ExecutionOrder, Authored, StepFor, StepAddresses, Graph.NodeAddresses;
    if a in resources { OrphanPrior(a, resources[a]); }
  }

  lemma OrphanPrior(a: string, resource: Resource)
    ensures OrphanStep(a, resource).prior == Some(resource)
  {
  }
}
