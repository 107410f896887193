/** Convergence and crash transparency: where a successful run ends up does not depend on where an
    earlier one stopped, and planning again from there finds nothing to do. */
module Convergence {
  import opened Model
  import opened Planning
  import opened Remoting
  import opened Execution
  import opened Effects
  import opened PlanOrdering
  import opened RunInvariant
  import Graph = ResourceGraph

  /** What the graph compiler gives: digests of ephemeral nodes are safe to keep, nothing that is meant to be
      absent is triggered or of a kind with its own update rule, and the recorded delete identity of a component
      artifact is its desired identity. */
  predicate Settleable(node: Node)
  {
    && (node.ephemeral ==> node.digestSafe)
    && (IsAbsent(node) ==> node.triggeredBy == [] && node.kind != "apk_update" && IdentityKeys(node.kind).None?)
    && (IdentityKeys(node.kind).Some? ==>
          var (payloadKey, key) := IdentityKeys(node.kind).value;
          payloadKey !in node.payload &&
          (key in DeleteIdentity(node.desired) ==> !Differs(DeleteIdentity(node.desired)[key], TextOf(node.desired, key))))
  }

  /** The remote object is what the node wants. */
  predicate InDesiredCondition(node: Node, observed: Observed)
  {
    if IsAbsent(node) then !observed.present
    else observed.present && AsWanted(node, observed)
  }

  /** The tracked resource agrees with the node, so that planning the node changes nothing. */
  predicate InDesiredState(node: Node, resource: Option<Resource>)
  {
    if resource.None? then IsAbsent(node) && !CleanupPending(node, None)
    else
      && resource.value.desiredDigest == HashOf(node.desired)
      && (IsProtectedNode(node) ==> resource.value.isProtected)
      && !CleanupPending(node, resource)
  }

  /** What each decision about one node means: objects are created only where there is none and deleted only
      where there is one, nothing is done exactly when remote object and recorded digest are as wanted, only the
      record is written exactly when just that is behind, and an update always finds an object. */
  lemma NodeDecision(node: Node, prior: Option<Resource>, observed: Observed)
    ensures var action := PlanNode(node, prior, observed);
            var absent := "ensure" in node.desired && node.desired["ensure"] == Text("absent");
            var recorded := prior.Some? && prior.value.desiredDigest == HashOf(node.desired);
            var writeOnly := !absent && "content_write_only" in node.desired && node.desired["content_write_only"] == Flag(true);
            var asWanted := if absent then !observed.present
                            else observed.present && (observed.digest == HashOf(node.desired) ||
                                                      (observed.digest == NoDigest && observed.values == Some(node.desired)));
            && action in {Create, Update, Adopt, Delete, NoOp}
            && (action == Create <==> !absent && !observed.present)
            && (action == Delete <==> absent && observed.present)
            && (action == NoOp <==> asWanted && (recorded || (prior.None? && absent)))
            && (action == Adopt <==> asWanted && !recorded && !writeOnly && !(prior.None? && absent))
            && (action == Update <==> !absent && observed.present && (!asWanted || (writeOnly && !recorded)))
  {
  }

  predicate Quiet(actions: Actions)
  {
    forall a :: a in actions ==> actions[a] == NoOp
  }

  lemma {:induction false} QuietTriggers(triggers: seq<string>, actions: Actions)
    requires Quiet(actions)
    ensures ChangedTriggers(triggers, actions) == []
  {
    if triggers != [] {
      QuietTriggers(triggers[..|triggers| - 1], actions);
    }
  }

  /** A node that is where it wants to be, with nothing changing before it, is a no-op. */
  lemma SettledIsNoOp(node: Node, resources: Resources, world: World, actions: Actions)
    requires InDesiredCondition(node, Look(world, node.address)) && InDesiredState(node, Find(resources, node.address))
    requires Quiet(actions) && node.address != ""
    ensures PlanOne(node, resources, world, actions).Ok? && PlanOne(node, resources, world, actions).value.action == NoOp
  {
    QuietTriggers(node.triggeredBy, actions);
    var prior := Find(resources, node.address);
    assert !Reclassified(node, prior);
    assert PlannedPrior(node, prior) == if prior.None? || !IsProtectedNode(node) then prior else Some(prior.value.(isProtected := true));
    assert CleanupPending(node, PlannedPrior(node, prior)) == CleanupPending(node, prior);
    assert OwnAction(node, prior, Look(world, node.address)) == NoOp;
    assert !ApkDependenciesChanged(node.dependsOn, actions);
    assert FinalAction(node, NoOp, Look(world, node.address), actions) == NoOp;
  }

  predicate AllNoOps(steps: seq<Step>)
  {
    forall s :: s in steps ==> s.action == NoOp
  }

  lemma {:induction false} NoOpsAreQuiet(steps: seq<Step>)
    requires AllNoOps(steps)
    ensures Quiet(ActionsOf(steps))
  {
    if steps != [] {
      var n := |steps| - 1;
      assert steps[n] in steps;
      NoOpsAreQuiet(steps[..n]);
    }
  }

  ghost predicate AllSettled(nodes: seq<Node>, resources: Resources, world: World)
  {
    forall k :: 0 <= k < |nodes| ==>
      nodes[k].address != "" &&
      InDesiredCondition(nodes[k], Look(world, nodes[k].address)) && InDesiredState(nodes[k], Find(resources, nodes[k].address))
  }

  lemma {:induction false} SettledPlansNothing(nodes: seq<Node>, resources: Resources, world: World)
    requires AllSettled(nodes, resources, world)
    ensures PlanNodes(nodes, resources, world).Ok? && AllNoOps(PlanNodes(nodes, resources, world).value)
  {
    if nodes != [] {
      var n := |nodes| - 1;
      SettledPlansNothing(nodes[..n], resources, world);
      var before := PlanNodes(nodes[..n], resources, world).value;
      NoOpsAreQuiet(before);
      SettledIsNoOp(nodes[n], resources, world, ActionsOf(before));
    }
  }

  // ---- one successful run settles every node ----

  lemma AbsentNeverApplied(node: Node, resources: Resources, world: World, actions: Actions)
    requires Settleable(node) && IsAbsent(node) && PlanOne(node, resources, world, actions).Ok?
    ensures var s := PlanOne(node, resources, world, actions).value;
            s.action == PlanNode(node, PlannedPrior(node, Find(resources, node.address)), Look(world, node.address))
  {
    assert ChangedTriggers(node.triggeredBy, actions) == [];
  }

  lemma PresentNeverRemoved(node: Node, resources: Resources, world: World, actions: Actions)
    requires !IsAbsent(node) && PlanOne(node, resources, world, actions).Ok?
    ensures var s := PlanOne(node, resources, world, actions).value;
            s.action in {Create, Update, Adopt, NoOp} &&
            (s.action == NoOp || s.action == Adopt ==> InDesiredCondition(node, Look(world, node.address)))
  {
  }

  /** After a node's own step, its remote object is in the desired condition. */
  lemma StepReachesCondition(reports: Reports, node: Node, resources: Resources, world: World, actions: Actions, s: Step)
    requires Faithful(reports)
    requires Settleable(node) && PlanOne(node, resources, world, actions) == Ok(s)
    ensures var after := WorldEffect(reports, s, WorldAt(world, node.address));
            InDesiredCondition(node, if after.Some? then after.value else Unobserved)
  {
    if IsAbsent(node) {
      AbsentNeverApplied(node, resources, world, actions);
    } else {
      PresentNeverRemoved(node, resources, world, actions);
      assert s.node.desired == node.desired;
    }
  }

  /** After a node's own step, its tracked resource agrees with it. */
  lemma StepReachesState(reports: Reports, node: Node, resources: Resources, world: World, actions: Actions, s: Step)
    requires Settleable(node) && PlanOne(node, resources, world, actions) == Ok(s)
    ensures InDesiredState(node, CoreEffect(reports, s, CoreOf(s.prior)))
  {
    PlannedSameNode(node, resources, world, actions, s);
    ActionFits(node, resources, world, actions, s);
    if s.action == NoOp {
      NoOpKeepsState(node, resources, world, actions, s);
    } else {
      hide PlanOne;
      OwnEffectFits(reports, node, s);
    }
  }

  lemma PlannedSameNode(node: Node, resources: Resources, world: World, actions: Actions, s: Step)
    requires PlanOne(node, resources, world, actions) == Ok(s)
    ensures s.node.(payload := node.payload) == node
  {
  }

  lemma ActionFits(node: Node, resources: Resources, world: World, actions: Actions, s: Step)
    requires Settleable(node) && PlanOne(node, resources, world, actions) == Ok(s)
    ensures if IsAbsent(node) then s.action in {NoOp, Delete, Adopt} else s.action in {NoOp, Create, Update, Adopt}
  {
    if IsAbsent(node) {
      AbsentNeverApplied(node, resources, world, actions);
    } else {
      PresentNeverRemoved(node, resources, world, actions);
    }
  }

  lemma OwnEffectFits(reports: Reports, node: Node, s: Step)
    requires Settleable(node) && s.node.(payload := node.payload) == node && s.action != NoOp
    requires if IsAbsent(node) then s.action in {NoOp, Delete, Adopt} else s.action in {NoOp, Create, Update, Adopt}
    ensures InDesiredState(node, CoreEffect(reports, s, CoreOf(s.prior)))
  {
  }

  lemma NoOpKeepsState(node: Node, resources: Resources, world: World, actions: Actions, s: Step)
    requires Settleable(node) && PlanOne(node, resources, world, actions) == Ok(s) && s.action == NoOp
    ensures InDesiredState(node, CoreOf(s.prior))
  {
    var prior := Find(resources, node.address);
    if s.prior.Some? {
      assert !Reclassified(node, prior);
      assert !CleanupPending(node, s.prior);
      assert CleanupPending(node, CoreOf(s.prior)) == CleanupPending(node, s.prior);
    }
  }

  lemma StateFromCore(node: Node, resources: Resources)
    requires InDesiredState(node, CoreAt(resources, node.address))
    ensures InDesiredState(node, Find(resources, node.address))
  {
  }

  /** Every node is settled after a successful run, and nothing else is tracked. */
  lemma RunSettles(reports: Reports, nodes: seq<Node>, resources: Resources, world: World, orphans: seq<string>,
                   draft: seq<Step>,
                   plan: HostPlan)
    requires Faithful(reports)
    requires IsPlan(nodes, resources, world, orphans, draft, plan)
    requires Graph.WellAddressed(nodes) && forall n :: n in nodes ==> Settleable(n)
    ensures var m := FinalMachine(reports, plan, world);
            AllSettled(nodes, m.resources, m.world) && forall a :: a in m.resources ==> a in Graph.NodeAddresses(nodes)
  {
    hide IsPlan, FinalMachine, InDesiredCondition, InDesiredState, Settleable, Look, Find, Graph.WellAddressed;
    var m := FinalMachine(reports, plan, world);
    forall k | 0 <= k < |nodes|
      ensures nodes[k].address != "" && InDesiredCondition(nodes[k], Look(m.world, nodes[k].address))
      ensures InDesiredState(nodes[k], Find(m.resources, nodes[k].address))
    {
      NodeSettles(reports, nodes, resources, world, orphans, draft, plan, k);
    }
    forall a | a in m.resources ensures a in Graph.NodeAddresses(nodes) {
      if a !in Graph.NodeAddresses(nodes) {
        NotTracked(reports, nodes, resources, world, orphans, draft, plan, a);
      }
    }
  }

  lemma NotTracked(reports: Reports, nodes: seq<Node>, resources: Resources, world: World, orphans: seq<string>,
                   draft: seq<Step>,
                   plan: HostPlan, a: string)
    requires IsPlan(nodes, resources, world, orphans, draft, plan)
    requires Graph.WellAddressed(nodes) && forall n :: n in nodes ==> Settleable(n)
    requires a !in Graph.NodeAddresses(nodes)
    ensures a !in FinalMachine(reports, plan, world).resources
  {
    OtherStep(nodes, resources, world, orphans, draft, plan, a);
    FinalAt(reports, plan, world, a);
    hide *;
    CoreFind(FinalMachine(reports, plan, world).resources, a);
    if a in resources { OrphanLeaves(reports, a, resources[a], CoreOf(Find(plan.priorResources, a))); }
    CoreGone(resources, FinalMachine(reports, plan, world).resources, a);
  }

  lemma OrphanLeaves(reports: Reports, a: string, resource: Resource, before: Option<Resource>)
    ensures CoreEffect(reports, OrphanStep(a, resource), before) == None
  {
  }

  lemma CoreGone(before: Resources, after: Resources, a: string)
    ensures CoreAt(after, a) == None ==> a !in after
    ensures a !in before && CoreAt(after, a) == CoreOf(Find(before, a)) ==> a !in after
  {
  }

  lemma NodeSettles(reports: Reports, nodes: seq<Node>, resources: Resources, world: World, orphans: seq<string>,
                    draft: seq<Step>, plan: HostPlan, k: nat)
    requires Faithful(reports)
    requires IsPlan(nodes, resources, world, orphans, draft, plan) && k < |nodes|
    requires Graph.WellAddressed(nodes) && forall n :: n in nodes ==> Settleable(n)
    ensures var m := FinalMachine(reports, plan, world);
            nodes[k].address != "" && InDesiredCondition(nodes[k], Look(m.world, nodes[k].address)) &&
            InDesiredState(nodes[k], Find(m.resources, nodes[k].address))
  {
    NodeStep(nodes, resources, world, orphans, draft, plan, k);
    FinalAt(reports, plan, world, nodes[k].address);
    NodePlanned(nodes, resources, world, orphans, draft, plan, k);
    var s := PlanNodes(nodes, resources, world).value[k];
    var actions := ActionsOf(PlanNodes(nodes, resources, world).value[..k]);
    assert nodes[k] in nodes && Graph.NodeAddresses(nodes)[k] in Graph.NodeAddresses(nodes);
    StepReachesCondition(reports, nodes[k], resources, world, actions, s);
    StepReachesState(reports, nodes[k], resources, world, actions, s);
    hide *;
    LookAt(FinalMachine(reports, plan, world).world, nodes[k].address);
    CoreFind(FinalMachine(reports, plan, world).resources, nodes[k].address);
    StateFromCore(nodes[k], FinalMachine(reports, plan, world).resources);
  }

  lemma LookAt(world: World, a: string)
    ensures Look(world, a) == if WorldAt(world, a).Some? then WorldAt(world, a).value else Unobserved
  {
  }

  lemma CoreFind(resources: Resources, a: string)
    ensures CoreAt(resources, a) == CoreOf(Find(resources, a))
  {
  }

  lemma NodePlanned(nodes: seq<Node>, resources: Resources, world: World, orphans: seq<string>,
                    draft: seq<Step>, plan: HostPlan, k: nat)
    requires IsPlan(nodes, resources, world, orphans, draft, plan) && k < |nodes|
    ensures |PlanNodes(nodes, resources, world).value| == |nodes|
    ensures var planned := PlanNodes(nodes, resources, world).value;
            PlanOne(nodes[k], resources, world, ActionsOf(planned[..k])) == Ok(planned[k])
  {
    PlanNodesShape(nodes, resources, world);
  }

  /** Convergence: from any prior state and any remote world, planning again after a successful run
      finds every node a no-op and no orphan; for nodes in schedule order such a plan exists. */
  lemma Converges(reports: Reports, nodes: seq<Node>, resources: Resources, world: World, orphans: seq<string>,
                  draft: seq<Step>,
                  plan: HostPlan)
    requires Faithful(reports)
    requires IsPlan(nodes, resources, world, orphans, draft, plan)
    requires Graph.WellAddressed(nodes) && forall n :: n in nodes ==> Settleable(n)
    ensures var m := FinalMachine(reports, plan, world);
            PlanNodes(nodes, m.resources, m.world).Ok? &&
            IsDraft(nodes, m.resources, m.world, [], PlanNodes(nodes, m.resources, m.world).value) &&
            forall orphans', draft' :: IsDraft(nodes, m.resources, m.world, orphans', draft') ==>
              orphans' == [] && |draft'| == |nodes| && AllNoOps(draft')
    ensures InScheduleOrder(nodes) ==>
              var m := FinalMachine(reports, plan, world);
              exists draft', plan' :: IsPlan(nodes, m.resources, m.world, [], draft', plan')
  {
    var m := FinalMachine(reports, plan, world);
    RunSettles(reports, nodes, resources, world, orphans, draft, plan);
    hide *;
    SettledDraft(nodes, m.resources, m.world);
    if InScheduleOrder(nodes) {
      FinalWriteGood(reports, nodes, resources, world, orphans, draft, plan);
      GoodParts(m.resources);
      DraftHasPlan(nodes, m.resources, m.world, [], PlanNodes(nodes, m.resources, m.world).value);
    }
  }

  lemma HasMember(s: seq<string>)
    requires s != []
    ensures exists x :: x in s
  {
    assert s[0] in s;
  }

  lemma SettledDraft(nodes: seq<Node>, resources: Resources, world: World)
    requires AllSettled(nodes, resources, world) && forall a :: a in resources ==> a in Graph.NodeAddresses(nodes)
    ensures PlanNodes(nodes, resources, world).Ok?
    ensures IsDraft(nodes, resources, world, [], PlanNodes(nodes, resources, world).value)
    ensures forall orphans', draft' :: IsDraft(nodes, resources, world, orphans', draft') ==>
              orphans' == [] && |draft'| == |nodes| && AllNoOps(draft')
  {
    SettledPlansNothing(nodes, resources, world);
    PlanNodesShape(nodes, resources, world);
    assert OrphanSteps(resources, []) == [];
    forall orphans', draft' | IsDraft(nodes, resources, world, orphans', draft')
      ensures orphans' == [] && |draft'| == |nodes| && AllNoOps(draft')
    {
      if orphans' != [] { HasMember(orphans'); }
    }
  }
}
