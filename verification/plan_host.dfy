/** The loops of planHost, proved against the specification in Planning. */
module PlanHosting {
  import opened Addresses
  import opened Digraph
  import opened Model
  import opened Planning
  import opened Remoting
  import opened DependencyOrder
  import opened OrderingTheorems
  import opened CycleFinding
  import Graph = ResourceGraph

  /** `sort.Slice` with planHost's comparison. */
  method SortOrphans(resources: Resources, addresses: set<string>) returns (r: seq<string>)
    requires addresses <= resources.Keys
    ensures forall a :: a in r <==> a in addresses
    ensures forall i, j :: 0 <= i < j < |r| && r[i] in resources && r[j] in resources ==>
              resources[r[i]].order > resources[r[j]].order ||
              (resources[r[i]].order == resources[r[j]].order && Less(r[j], r[i]))
    ensures OrphansSorted(resources, r)
  {
    r := [];
    var rest := addresses;
    while rest != {}
      invariant rest <= addresses
      invariant OrphansSorted(resources, r)
      invariant forall a :: a in r <==> a in addresses && a !in rest
      decreases rest
    {
      var k :| k in rest;
      rest := rest - {k};
      var at := |r|;
      while at > 0 && !OrphanBefore(resources, r[at - 1], k)
        invariant 0 <= at <= |r|
        invariant forall i :: at <= i < |r| ==> OrphanBefore(resources, k, r[i])
      {
        assert r[at - 1] in r && r[at - 1] != k;
        LessTrichotomy(r[at - 1], k);
        at := at - 1;
      }
      InsertOrphan(resources, r, at, k);
      r := r[..at] + [k] + r[at..];
    }
  }

  lemma InsertOrphan(resources: Resources, r: seq<string>, at: nat, k: string)
    requires OrphansSorted(resources, r) && k in resources && at <= |r|
    requires forall i :: at <= i < |r| ==> OrphanBefore(resources, k, r[i])
    requires at > 0 ==> OrphanBefore(resources, r[at - 1], k)
    ensures OrphansSorted(resources, r[..at] + [k] + r[at..])
    ensures forall a :: a in r[..at] + [k] + r[at..] <==> a in r || a == k
  {
    var before := (a, b) => a in resources && b in resources && OrphanBefore(resources, a, b);
    hide OrphanBefore;
    InsertAt(r, at, k);
    forall a, b, c | before(a, b) && before(b, c) ensures before(a, c) {
      OrphanBeforeTrans(resources, a, b, c);
    }
    assert forall v :: v in r ==> v in resources;
    InsertBetween(before, r, at, k);
  }

  lemma OrphanBeforeTrans(resources: Resources, a: string, b: string, c: string)
    requires a in resources && b in resources && c in resources
    requires OrphanBefore(resources, a, b) && OrphanBefore(resources, b, c)
    ensures OrphanBefore(resources, a, c)
  {
    if Less(c, b) && Less(b, a) { LessTrans(c, b, a); }
  }

  /** Why planHost failed. */
  ghost predicate Explains(nodes: seq<Node>, resources: Resources, world: World, unreadable: set<string>,
                           error: PlanError)
  {
    match error
    case InspectFailed(a) => a in unreadable && a in Graph.NodeAddresses(nodes)
    case NoCleanupIdentity(_) => exists n: nat :: n <= |nodes| && PlanNodes(nodes[..n], resources, world) == Err(error)
    case AdoptionRefused(a) =>
      exists k :: 0 <= k < |nodes| && nodes[k].address == a && RefusesAdoption(nodes[k], Find(resources, a), Look(world, a))
    case PreventDestroyBlocks(a, action) =>
      || (exists n: nat :: n <= |nodes| && PlanNodes(nodes[..n], resources, world) == Err(error))
      || (a in resources && a !in Graph.NodeAddresses(nodes) && OrphanBlocked(resources[a]) && action == OrphanAction(resources[a]))
    case Unordered(e) =>
      exists orphans, draft :: IsDraft(nodes, resources, world, orphans, draft) &&
        (!WellAddressed(draft) || (e.StepCycle? && !Acyclic(Authored(draft))))
  }

  /** The node loop. */
  method PlanNodeLoop(nodes: seq<Node>, resources: Resources, remote: Remote)
    returns (r: Result<seq<Step>, PlanError>, priorState: Resources, prewrite: bool)
    ensures r.Ok? ==> r == PlanNodes(nodes, resources, remote.world)
    ensures r.Ok? ==> priorState == PriorOf(resources, r.value) && (prewrite <==> exists s :: s in r.value && s.reclassified)
    ensures r.Err? ==> Explains(nodes, resources, remote.world, remote.unreadable, r.error)
    ensures r.Err? ==> !r.error.Unordered?
  {
    hide PlanOne, Explains;
    var steps: seq<Step>, actions: Actions := [], map[];
    priorState, prewrite := resources, false;
    assert nodes[..0] == [];
    for i := 0 to |nodes|
      invariant PlanNodes(nodes[..i], resources, remote.world) == Ok(steps)
      invariant actions == ActionsOf(steps) && priorState == PriorOf(resources, steps)
      invariant prewrite <==> exists s :: s in steps && s.reclassified
    {
      var node := nodes[i];
      var observed := remote.Inspect(node);
      if observed.None? {
        UnreadableExplained(nodes, i, resources, remote.world, remote.unreadable);
        return Err(InspectFailed(node.address)), priorState, prewrite;
      }
      var planned := PlanOne(node, resources, remote.world, actions);
      PlanNodesNext(nodes, i, resources, remote.world, steps, planned);
      if planned.Err? {
        RefusalExplained(nodes, i, resources, remote.world, remote.unreadable, steps, planned.error);
        return Err(planned.error), priorState, prewrite;
      }
      var step := planned.value;
      PushStep(resources, steps, step);
      PlanOneAddress(node, resources, remote.world, actions);
      steps := steps + [step];
      actions := actions[node.address := step.action];
      if step.prior.Some? {
        priorState := priorState[step.address := step.prior.value];
      }
      prewrite := prewrite || step.reclassified;
    }
    assert nodes[..|nodes|] == nodes;
    r := Ok(steps);
  }

  lemma UnreadableExplained(nodes: seq<Node>, i: nat, resources: Resources, world: World, unreadable: set<string>)
    requires i < |nodes| && nodes[i].address in unreadable
    ensures Explains(nodes, resources, world, unreadable, InspectFailed(nodes[i].address))
  {
    assert Graph.NodeAddresses(nodes)[i] == nodes[i].address;
  }

  lemma PlanNodesNext(nodes: seq<Node>, i: nat, resources: Resources, world: World, steps: seq<Step>,
                      planned: Result<Step, PlanError>)
    requires i < |nodes| && PlanNodes(nodes[..i], resources, world) == Ok(steps)
    requires planned == PlanOne(nodes[i], resources, world, ActionsOf(steps))
    ensures PlanNodes(nodes[..i + 1], resources, world) == if planned.Err? then Err(planned.error) else Ok(steps + [planned.value])
  {
    hide PlanOne, ActionsOf;
    assert nodes[..i + 1][..i] == nodes[..i];
  }

  lemma RefusalExplained(nodes: seq<Node>, i: nat, resources: Resources, world: World, unreadable: set<string>,
                         steps: seq<Step>, error: PlanError)
    requires i < |nodes| && PlanOne(nodes[i], resources, world, ActionsOf(steps)) == Err(error)
    requires PlanNodes(nodes[..i + 1], resources, world) == Err(error)
    ensures Explains(nodes, resources, world, unreadable, error) && !error.Unordered?
  {
    hide OwnAction, FinalAction, AfterApk, TriggerApplies, ChangedTriggers, RequiresMigration, HasMigrationIdentity,
      PlannedNode, PlannedPrior, Reclassified, PlanNodes;
  }

  lemma PushStep(resources: Resources, steps: seq<Step>, step: Step)
    ensures ActionsOf(steps + [step]) == ActionsOf(steps)[step.address := step.action]
    ensures PriorOf(resources, steps + [step]) ==
            if step.prior.Some? then PriorOf(resources, steps)[step.address := step.prior.value] else PriorOf(resources, steps)
    ensures forall s :: s in steps + [step] <==> s in steps || s == step
  {
    assert (steps + [step])[..|steps|] == steps;
  }

  /** An orphan's step has no node; it deletes or destroys the object as the record says, or else forgets the record. */
  predicate OrphanGoes(address: string, resource: Resource, s: Step)
  {
    && s.address == address && s.node.address == "" && s.prior == Some(resource) && s.triggeredBy == [] && !s.reclassified
    && s.action == (if resource.deleteBehavior == "delete" then Delete
                    else if resource.deleteBehavior == "destroy" then Destroy else Forget)
    && !(resource.preventDestroy && s.action != Forget)
  }

  /** The orphan loop. */
  method PlanOrphans(resources: Resources, orphans: seq<string>) returns (r: Result<seq<Step>, PlanError>)
    requires forall a :: a in orphans ==> a in resources
    ensures r.Ok? <==> forall a :: a in orphans ==> !OrphanBlocked(resources[a])
    ensures r.Ok? ==> r.value == OrphanSteps(resources, orphans)
    ensures r.Ok? ==>
              |r.value| == |orphans| &&
              forall i :: 0 <= i < |orphans| && orphans[i] in resources ==> OrphanGoes(orphans[i], resources[orphans[i]], r.value[i])
    ensures r.Err? ==> exists a :: a in orphans && OrphanBlocked(resources[a]) &&
                         r.error == PreventDestroyBlocks(a, OrphanAction(resources[a])) &&
                         resources[a].preventDestroy && resources[a].deleteBehavior in {"delete", "destroy"}
  {
    var steps: seq<Step> := [];
    for i := 0 to |orphans|
      invariant |steps| == i && forall j :: 0 <= j < i ==> steps[j] == OrphanStep(orphans[j], resources[orphans[j]])
      invariant forall j :: 0 <= j < i ==> !OrphanBlocked(resources[orphans[j]])
    {
      var resource := resources[orphans[i]];
      assert orphans[i] in orphans;
      if OrphanBlocked(resource) {
        return Err(PreventDestroyBlocks(orphans[i], OrphanAction(resource)));
      }
      steps := steps + [OrphanStep(orphans[i], resource)];
    }
    r := Ok(steps);
  }

  /** `planHost`. */
  method PlanHost(nodes: seq<Node>, resources: Resources, remote: Remote, moved: bool)
    returns (r: Result<HostPlan, PlanError>, ghost orphans: seq<string>, ghost draft: seq<Step>)
    ensures r.Ok? ==> IsPlan(nodes, resources, remote.world, orphans, draft, r.value) && r.value.moved == moved
    ensures r.Err? ==> Explains(nodes, resources, remote.world, remote.unreadable, r.error)
  {
    hide *;
    orphans, draft := [], [];
    var loop, priorState, prewrite := PlanNodeLoop(nodes, resources, remote);
    if loop.Err? {
      return Err(loop.error), [], [];
    }
    var current := set i | 0 <= i < |nodes| :: nodes[i].address;
    CurrentAddresses(nodes, current);
    var sorted := SortOrphans(resources, resources.Keys - current);
    var removed := PlanOrphans(resources, sorted);
    if removed.Err? {
      BlockedExplains(nodes, resources, remote.world, remote.unreadable, sorted, removed.error);
      return Err(removed.error), [], [];
    }
    var steps := loop.value + removed.value;
    IsADraft(nodes, resources, remote.world, sorted, loop.value, removed.value);
    var ordered := OrderStepsForExecution(steps);
    if ordered.Err? {
      CycleExplains(nodes, resources, remote.world, remote.unreadable, sorted, steps, ordered.error);
      return Err(Unordered(ordered.error)), [], [];
    }
    orphans, draft := sorted, steps;
    r := Ok(HostPlan(ordered.value, moved, priorState, prewrite));
    IsAPlan(nodes, resources, remote.world, sorted, steps, r.value);
  }

  lemma BlockedExplains(nodes: seq<Node>, resources: Resources, world: World, unreadable: set<string>,
                        orphans: seq<string>, error: PlanError)
    requires forall a :: a in orphans <==> a in resources && a !in Graph.NodeAddresses(nodes)
    requires exists a :: a in orphans && OrphanBlocked(resources[a]) &&
               error == PreventDestroyBlocks(a, OrphanAction(resources[a]))
    ensures Explains(nodes, resources, world, unreadable, error)
  {
  }

  lemma CycleExplains(nodes: seq<Node>, resources: Resources, world: World, unreadable: set<string>,
                      orphans: seq<string>, steps: seq<Step>, error: OrderError)
    requires IsDraft(nodes, resources, world, orphans, steps)
    requires WellAddressed(steps) ==> error.StepCycle? && IsCanonicalCycle(FinalEdges(steps), error.cycle)
    ensures Explains(nodes, resources, world, unreadable, Unordered(error))
  {
    if WellAddressed(steps) {
      CyclicIffCycle(FinalEdges(steps));
      FailsIffAuthoredCyclic(steps);
    }
  }

  lemma IsADraft(nodes: seq<Node>, resources: Resources, world: World, orphans: seq<string>,
                 planned: seq<Step>, removed: seq<Step>)
    requires PlanNodes(nodes, resources, world) == Ok(planned) && OrphansSorted(resources, orphans)
    requires forall a :: a in orphans <==> a in resources && a !in Graph.NodeAddresses(nodes)
    requires forall a :: a in orphans ==> !OrphanBlocked(resources[a])
    requires removed == OrphanSteps(resources, orphans)
    ensures IsDraft(nodes, resources, world, orphans, planned + removed)
  {
  }

  lemma IsAPlan(nodes: seq<Node>, resources: Resources, world: World, orphans: seq<string>, draft: seq<Step>,
                plan: HostPlan)
    requires IsDraft(nodes, resources, world, orphans, draft)
    requires WellAddressed(draft) && Acyclic(FinalEdges(draft))
    requires StepAddresses(plan.steps) == ExecutionOrder(draft) && forall s :: s in plan.steps ==> s in draft
    requires plan.priorResources == PriorOf(resources, PlanNodes(nodes, resources, world).value)
    requires plan.statePrewrite <==> exists s :: s in PlanNodes(nodes, resources, world).value && s.reclassified
    ensures IsPlan(nodes, resources, world, orphans, draft, plan)
  {
    DraftPlan(nodes, resources, world, orphans, draft);
    FailsIffAuthoredCyclic(draft);
  }

  lemma CurrentAddresses(nodes: seq<Node>, current: set<string>)
    requires current == set i | 0 <= i < |nodes| :: nodes[i].address
    ensures forall a :: a in current <==> a in Graph.NodeAddresses(nodes)
  {
    forall a | a in current ensures a in Graph.NodeAddresses(nodes) {
      var i :| 0 <= i < |nodes| && nodes[i].address == a;
      assert Graph.NodeAddresses(nodes)[i] == a;
    }
  }

  /** The prior state and the prewrite flag depend only on the node steps: orphans are never reclassified. */
  lemma DraftPlan(nodes: seq<Node>, resources: Resources, world: World, orphans: seq<string>, steps: seq<Step>)
    requires IsDraft(nodes, resources, world, orphans, steps)
    ensures var planned := PlanNodes(nodes, resources, world).value;
            PriorOf(resources, steps) == PriorOf(resources, planned) &&
            ((exists s :: s in steps && s.reclassified) <==> exists s :: s in planned && s.reclassified)
  {
    DraftTail(nodes, resources, world, orphans, steps);
    hide *;
    var planned := PlanNodes(nodes, resources, world).value;
    PriorOfOrphans(resources, planned, steps, |steps| - |planned|);
    forall s | s in steps && s.reclassified ensures s in planned {
      var i :| 0 <= i < |steps| && steps[i] == s;
    }
    forall s | s in planned ensures s in steps {
      var i :| 0 <= i < |planned| && planned[i] == s;
      assert steps[i] == s;
    }
  }

  /** The steps after a draft's node steps. */
  lemma DraftTail(nodes: seq<Node>, resources: Resources, world: World, orphans: seq<string>, steps: seq<Step>)
    requires IsDraft(nodes, resources, world, orphans, steps)
    ensures PlanNodes(nodes, resources, world).Ok?
    ensures var planned := PlanNodes(nodes, resources, world).value;
            && |planned| <= |steps| && steps[..|planned|] == planned
            && (forall j :: |planned| <= j < |steps| ==>
                  steps[j].address in resources && !steps[j].reclassified && steps[j].prior == Some(resources[steps[j].address]))
            && forall i, j :: 0 <= i < |planned| <= j < |steps| ==> steps[i].address != steps[j].address
  {
    var planned := PlanNodes(nodes, resources, world).value;
    PlanNodesShape(nodes, resources, world);
    hide PlanOne, PlanNodes;
    forall j | |planned| <= j < |steps|
      ensures steps[j].address in resources && steps[j].address !in Graph.NodeAddresses(nodes)
      ensures !steps[j].reclassified && steps[j].prior == Some(resources[steps[j].address])
    {
      assert orphans[j - |planned|] in orphans;
    }
    forall i, j | 0 <= i < |planned| <= j < |steps| ensures steps[i].address != steps[j].address {
      assert Graph.NodeAddresses(nodes)[i] == steps[i].address;
    }
  }

  lemma {:induction false} PriorOfOrphans(resources: Resources, planned: seq<Step>, steps: seq<Step>, n: nat)
    requires |steps| == |planned| + n && steps[..|planned|] == planned
    requires forall i :: |planned| <= i < |steps| ==>
               steps[i].address in resources && steps[i].prior == Some(resources[steps[i].address])
    requires forall i, j :: 0 <= i < |planned| <= j < |steps| ==> steps[i].address != steps[j].address
    ensures PriorOf(resources, steps) == PriorOf(resources, planned)
    decreases n
  {
    if n == 0 {
      assert steps == planned;
    } else {
      var init := steps[..|steps| - 1];
      assert init[..|planned|] == planned;
      PriorOfOrphans(resources, planned, init, n - 1);
      PriorOfElsewhere(resources, planned, steps[|steps| - 1].address);
      var a := steps[|steps| - 1].address;
      assert PriorOf(resources, planned)[a := resources[a]] == PriorOf(resources, planned);
    }
  }

  lemma {:induction false} PriorOfElsewhere(resources: Resources, steps: seq<Step>, a: string)
    requires forall i :: 0 <= i < |steps| ==> steps[i].address != a
    ensures Find(PriorOf(resources, steps), a) == Find(resources, a)
  {
    if steps != [] {
      PriorOfElsewhere(resources, steps[..|steps| - 1], a);
    }
  }
}
