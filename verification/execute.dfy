/** Executing a plan: remote changes step by step, bookkeeping of the tracked state, and the writes. */
module Execution {
  import opened Addresses
  import opened Model
  import opened Planning
  import opened Remoting
  import opened DependencyOrder
  import Digraph

  datatype ExecError =
    | MigrationBlocked(address: string)
    | MigrationFailed(address: string)
    | StepFailed(address: string, action: Action)
    | WriteFailed

  /** The tracked resources in memory and the objects on the remote host. */
  datatype Machine = Machine(resources: Resources, world: World)

  function FilterOut(deps: seq<string>, removed: string): (r: seq<string>)
    ensures forall d :: d in r <==> d in deps && d != removed
  {
    if deps == [] then []
    else
      var n := |deps| - 1;
      assert deps == deps[..n] + [deps[n]];
      FilterOut(deps[..n], removed) + if deps[n] == removed then [] else [deps[n]]
  }

  function FilterIn(deps: seq<string>, keys: set<string>): (r: seq<string>)
    ensures forall d :: d in r <==> d in deps && d in keys
  {
    if deps == [] then []
    else
      var n := |deps| - 1;
      assert deps == deps[..n] + [deps[n]];
      FilterIn(deps[..n], keys) + if deps[n] in keys then [deps[n]] else []
  }

  lemma {:induction false} FilterOutSorted(deps: seq<string>, removed: string)
    requires StrictlySorted(deps)
    ensures StrictlySorted(FilterOut(deps, removed))
  {
    if deps != [] {
      var n := |deps| - 1;
      FilterOutSorted(deps[..n], removed);
      var kept := FilterOut(deps[..n], removed);
      forall i | 0 <= i < |kept| ensures Less(kept[i], deps[n]) {
        assert kept[i] in deps[..n];
      }
    }
  }

  lemma {:induction false} FilterInSorted(deps: seq<string>, keys: set<string>)
    requires StrictlySorted(deps)
    ensures StrictlySorted(FilterIn(deps, keys))
  {
    if deps != [] {
      var n := |deps| - 1;
      FilterInSorted(deps[..n], keys);
      var kept := FilterIn(deps[..n], keys);
      forall i | 0 <= i < |kept| ensures Less(kept[i], deps[n]) {
        assert kept[i] in deps[..n];
      }
    }
  }

  /** Stop tracking an address: drop the resource, then every reference to it. */
  function Untracked(resources: Resources, removed: string): Resources
  {
    map a | a in resources && a != removed :: resources[a].(dependsOn := FilterOut(resources[a].dependsOn, removed))
  }

  /** `trackedStateDependencies`. */
  ghost function Tracked(dependencies: seq<string>, keys: set<string>): seq<string>
  {
    FilterIn(Canonical(dependencies), keys)
  }

  ghost predicate NodeStepAt(steps: seq<Step>, a: string)
  {
    a in StepAddresses(steps) && !StepFor(steps, a).IsOrphan()
  }

  /** `reconcileStateDependencies`: every tracked node depends on its tracked authored dependencies. */
  ghost function Reconciled(resources: Resources, steps: seq<Step>): Resources
  {
    map a | a in resources ::
      if NodeStepAt(steps, a)
      then resources[a].(dependsOn := Tracked(StepFor(steps, a).node.explicitDependsOn, resources.Keys))
      else resources[a]
  }

  /** Every tracked resource of a planned node lists, in order, exactly its authored dependencies that are tracked. */
  ghost predicate RecordsAuthored(resources: Resources, steps: seq<Step>)
  {
    forall s :: s in steps && !s.IsOrphan() && s.address in resources ==>
      var recorded := resources[s.address].dependsOn;
      StrictlySorted(recorded) && forall d :: d in recorded <==> d in s.node.explicitDependsOn && d in resources
  }

  /** Nothing but dependency lists differs, and only those of planned nodes. */
  ghost predicate OnlyDependsChanged(before: Resources, after: Resources, steps: seq<Step>)
  {
    && after.Keys == before.Keys
    && forall a :: a in before ==>
         && after[a].(dependsOn := before[a].dependsOn) == before[a]
         && ((forall s :: s in steps && s.address == a ==> s.IsOrphan()) ==> after[a] == before[a])
  }

  lemma ReconciledRecords(resources: Resources, steps: seq<Step>)
    requires WellAddressed(steps)
    ensures RecordsAuthored(Reconciled(resources, steps), steps)
    ensures OnlyDependsChanged(resources, Reconciled(resources, steps), steps)
  {
    var r := Reconciled(resources, steps);
    assert r.Keys == resources.Keys;
    forall s | s in steps && !s.IsOrphan() && s.address in r
      ensures r[s.address].dependsOn == Tracked(s.node.explicitDependsOn, r.Keys)
    {
      var i :| 0 <= i < |steps| && steps[i] == s;
      StepForAt(steps, i);
    }
    forall s | s in steps && !s.IsOrphan() && s.address in r
      ensures StrictlySorted(r[s.address].dependsOn)
      ensures forall d :: d in r[s.address].dependsOn <==> d in s.node.explicitDependsOn && d in r
    {
      CanonicalMembers(s.node.explicitDependsOn);
      FilterInSorted(Canonical(s.node.explicitDependsOn), r.Keys);
    }
  }

  /** No-op resources get their new position. */
  function Renumbered(resources: Resources, steps: seq<Step>): Resources
  {
    map a | a in resources ::
      if a in StepAddresses(steps) && StepFor(steps, a).action == NoOp
      then resources[a].(order := StepIndex(steps, a) + 1)
      else resources[a]
  }

  function StepIndex(steps: seq<Step>, a: string): nat
    requires a in StepAddresses(steps)
  {
    Digraph.IndexOf(StepAddresses(steps), a)
  }

  ghost function ResourceForStep(step: Step, isProtected: bool, order: nat): Resource
  {
    Resource(step.node.kind, order,
             if step.node.ephemeral && !step.node.digestSafe then NoDigest else HashOf(step.node.desired),
             Canonical(step.node.explicitDependsOn),
             IsProtectedNode(step.node) || isProtected,
             step.node.preventDestroy,
             TextOf(step.node.desired, "delete_behavior"),
             DeleteIdentity(step.node.desired))
  }

  /** One successful step. */
  ghost function Perform(reports: Reports, m: Machine, step: Step, order: nat): Machine
  {
    match step.action
    case NoOp => m
    case Forget => m.(resources := Untracked(m.resources, step.address))
    case Delete => Machine(Untracked(m.resources, step.address), m.world - {step.address})
    case Destroy => Machine(Untracked(m.resources, step.address), m.world - {step.address})
    case Adopt => m.(resources := m.resources[step.address := ResourceForStep(step, step.observed.isProtected, order)])
    case Create =>
      Machine(m.resources[step.address := ResourceForStep(step, reports(step.node).isProtected, order)],
              m.world[step.address := reports(step.node)])
    case Update =>
      Machine(m.resources[step.address := ResourceForStep(step, reports(step.node).isProtected, order)],
              m.world[step.address := reports(step.node)])
  }

  /** What a step records of its node, which was reported protected or not. */
  ghost predicate IsRecordOf(step: Step, isProtected: bool, order: nat, r: Resource)
  {
    && r.kind == step.node.kind && r.order == order && r.preventDestroy == step.node.preventDestroy
    && (r.isProtected <==> step.node.sensitive || step.node.ephemeral || isProtected)
    && r.desiredDigest == (if step.node.ephemeral && !step.node.digestSafe then NoDigest else HashOf(step.node.desired))
    && StrictlySorted(r.dependsOn) && (forall d :: d in r.dependsOn <==> d in step.node.explicitDependsOn)
    && r.deleteBehavior == (if "delete_behavior" in step.node.desired && step.node.desired["delete_behavior"].Text?
                            then step.node.desired["delete_behavior"].text else "")
    && r.delete == (if "delete" in step.node.desired && step.node.desired["delete"].Nested?
                    then step.node.desired["delete"].fields else map[])
  }

  /** The address is untracked: its record is gone, and so is every reference to it. */
  ghost predicate IsUntracked(before: Resources, after: Resources, removed: string)
  {
    && after.Keys == before.Keys - {removed}
    && forall a :: a in before && a != removed ==>
         && after[a].(dependsOn := before[a].dependsOn) == before[a]
         && (forall d :: d in after[a].dependsOn <==> d in before[a].dependsOn && d != removed)
         && (StrictlySorted(before[a].dependsOn) ==> StrictlySorted(after[a].dependsOn))
  }

  lemma UntrackedExactly(resources: Resources, removed: string)
    ensures IsUntracked(resources, Untracked(resources, removed), removed)
  {
    forall a | a in resources && StrictlySorted(resources[a].dependsOn)
      ensures StrictlySorted(FilterOut(resources[a].dependsOn, removed))
    {
      FilterOutSorted(resources[a].dependsOn, removed);
    }
  }

  /** What a successful step does to the records and to the remote host. */
  lemma PerformExactly(reports: Reports, m: Machine, step: Step, order: nat)
    ensures var m', a := Perform(reports, m, step, order), step.address;
            match step.action
            case NoOp => m' == m
            case Forget => m'.world == m.world && IsUntracked(m.resources, m'.resources, a)
            case Delete => m'.world == m.world - {a} && IsUntracked(m.resources, m'.resources, a)
            case Destroy => m'.world == m.world - {a} && IsUntracked(m.resources, m'.resources, a)
            case Adopt =>
              && m'.world == m.world && m'.resources == m.resources[a := m'.resources[a]]
              && IsRecordOf(step, step.observed.isProtected, order, m'.resources[a])
            case _ =>
              && m'.world == m.world[a := reports(step.node)] && m'.resources == m.resources[a := m'.resources[a]]
              && IsRecordOf(step, reports(step.node).isProtected, order, m'.resources[a])
  {
    UntrackedExactly(m.resources, step.address);
    RecordExactly(step, step.observed.isProtected, order);
    RecordExactly(step, reports(step.node).isProtected, order);
    hide Untracked, ResourceForStep, IsRecordOf, IsUntracked;
  }

  lemma RecordExactly(step: Step, isProtected: bool, order: nat)
    ensures IsRecordOf(step, isProtected, order, ResourceForStep(step, isProtected, order))
  {
    CanonicalMembers(step.node.explicitDependsOn);
  }

  ghost function PerformAll(reports: Reports, m: Machine, steps: seq<Step>): Machine
  {
    if steps == [] then m
    else
      var n := |steps| - 1;
      Perform(reports, PerformAll(reports, m, steps[..n]), steps[n], n + 1)
  }

  /** The state executeHost starts from, which is also what an early write stores. */
  ghost function StartState(plan: HostPlan): Resources
  {
    Reconciled(Renumbered(plan.priorResources, plan.steps), plan.steps)
  }

  ghost function FinalMachine(reports: Reports, plan: HostPlan, world: World): Machine
  {
    var m := PerformAll(reports, Machine(StartState(plan), world), plan.steps);
    m.(resources := Reconciled(m.resources, plan.steps))
  }

  lemma RenumberedPositions(resources: Resources, steps: seq<Step>)
    requires WellAddressed(steps)
    ensures Renumbered(resources, steps).Keys == resources.Keys
    ensures forall k :: 0 <= k < |steps| && steps[k].action == NoOp && steps[k].address in resources ==>
              Renumbered(resources, steps)[steps[k].address] == resources[steps[k].address].(order := k + 1)
    ensures forall a :: a in resources && (forall s :: s in steps && s.address == a ==> s.action != NoOp) ==>
              Renumbered(resources, steps)[a] == resources[a]
  {
    forall k | 0 <= k < |steps| && steps[k].action == NoOp && steps[k].address in resources
      ensures Renumbered(resources, steps)[steps[k].address] == resources[steps[k].address].(order := k + 1)
    {
      StepForAt(steps, k);
    }
  }

  /** The tracked resources of the steps before n, and of all no-ops, carry the step's position, counted from one. */
  ghost predicate Positioned(resources: Resources, steps: seq<Step>, n: nat)
  {
    forall k :: 0 <= k < |steps| && (k < n || steps[k].action == NoOp) && steps[k].address in resources ==>
      resources[steps[k].address].order == k + 1
  }

  lemma PerformOrder(reports: Reports, m: Machine, step: Step, order: nat, a: string)
    ensures var after := Perform(reports, m, step, order).resources;
            && (a != step.address && a in after ==> a in m.resources && after[a].order == m.resources[a].order)
            && (step.address in after && step.action != NoOp ==> after[step.address].order == order)
            && (step.action == NoOp ==> after == m.resources)
  {
  }

  lemma {:induction false} PerformedPositions(reports: Reports, m: Machine, steps: seq<Step>, n: nat)
    requires WellAddressed(steps) && n <= |steps| && Positioned(m.resources, steps, 0)
    ensures Positioned(PerformAll(reports, m, steps[..n]).resources, steps, n)
  {
    if n == 0 {
      assert steps[..0] == [];
    } else {
      PerformedPositions(reports, m, steps, n - 1);
      assert steps[..n][..n - 1] == steps[..n - 1];
      var before, after := PerformAll(reports, m, steps[..n - 1]), PerformAll(reports, m, steps[..n]);
      assert after == Perform(reports, before, steps[n - 1], n);
      hide PerformAll, Perform;
      forall k | 0 <= k < |steps| && (k < n || steps[k].action == NoOp) && steps[k].address in after.resources
        ensures after.resources[steps[k].address].order == k + 1
      {
        StepForAt(steps, k);
        StepForAt(steps, n - 1);
        PerformOrder(reports, before, steps[n - 1], n, steps[k].address);
      }
    }
  }

  /** What a run records: the early and the final write list every planned node's tracked authored dependencies, and
      the final write numbers every tracked resource by the position of its step. */
  lemma RunRecords(reports: Reports, plan: HostPlan, world: World)
    requires WellAddressed(plan.steps)
    ensures RecordsAuthored(StartState(plan), plan.steps)
    ensures RecordsAuthored(FinalMachine(reports, plan, world).resources, plan.steps)
    ensures Positioned(FinalMachine(reports, plan, world).resources, plan.steps, |plan.steps|)
  {
    var renumbered := Renumbered(plan.priorResources, plan.steps);
    RenumberedPositions(plan.priorResources, plan.steps);
    ReconciledRecords(renumbered, plan.steps);
    var m := PerformAll(reports, Machine(StartState(plan), world), plan.steps);
    ReconciledRecords(m.resources, plan.steps);
    PerformedPositions(reports, Machine(StartState(plan), world), plan.steps, |plan.steps|);
    assert plan.steps[..|plan.steps|] == plan.steps;
    hide Reconciled, Renumbered, PerformAll, RecordsAuthored, WellAddressed;
  }

  predicate CallsProvider(action: Action)
  {
    action == Create || action == Update || action == Delete || action == Destroy
  }

  ghost predicate SameAt(w: World, v: World, a: string)
  {
    (a in w <==> a in v) && (a in w ==> w[a] == v[a])
  }

  /** The remote world after stopping at step k: earlier steps are done, and step k may have left its own
      address, if the provider was called for it, in any condition. */
  ghost predicate StoppedAt(reports: Reports, plan: HostPlan, world: World, k: nat, world': World)
  {
    && k <= |plan.steps|
    && forall a :: SameAt(world', PerformAll(reports, Machine(StartState(plan), world), plan.steps[..k]).world, a)
                || (k < |plan.steps| && CallsProvider(plan.steps[k].action) && a == plan.steps[k].address)
  }

  predicate HasChanges(steps: seq<Step>)
  {
    exists s :: s in steps && s.action != NoOp
  }

  // ---- the loops ----

  method ReconcileStateDependencies(resources: Resources, steps: seq<Step>) returns (r: Resources)
    requires WellAddressed(steps)
    ensures RecordsAuthored(r, steps) && OnlyDependsChanged(resources, r, steps)
    ensures r == Reconciled(resources, steps)
  {
    r := resources;
    assert StepAddresses(steps[..0]) == [];
    for i := 0 to |steps|
      invariant r == Reconciled(resources, steps[..i])
    {
      var step := steps[i];
      ReconciledNext(resources, steps, i);
      if step.IsOrphan() || step.address !in r {
        continue;
      }
      var dependencies := CanonicalAddresses(step.node.explicitDependsOn);
      r := r[step.address := r[step.address].(dependsOn := FilterIn(dependencies, r.Keys))];
    }
    assert steps[..|steps|] == steps;
    ReconciledRecords(resources, steps);
  }

  lemma PrefixStep(steps: seq<Step>, i: nat)
    requires i < |steps| && WellAddressed(steps)
    ensures WellAddressed(steps[..i + 1]) && WellAddressed(steps[..i])
    ensures forall a :: a in StepAddresses(steps[..i + 1]) <==> a in StepAddresses(steps[..i]) || a == steps[i].address
    ensures steps[i].address !in StepAddresses(steps[..i])
    ensures forall a :: a in StepAddresses(steps[..i]) ==> StepFor(steps[..i + 1], a) == StepFor(steps[..i], a)
    ensures StepFor(steps[..i + 1], steps[i].address) == steps[i]
  {
    NextAddress(steps, i);
    var p, q, all := StepAddresses(steps[..i]), StepAddresses(steps[..i + 1]), StepAddresses(steps);
    assert q == p + [steps[i].address];
    assert p == all[..i] && q == all[..i + 1];
    forall a | a in p ensures StepFor(steps[..i + 1], a) == StepFor(steps[..i], a) {
      StepForAt(steps[..i + 1], Digraph.IndexOf(p, a));
    }
    StepForAt(steps[..i + 1], i);
  }

  lemma StepForAt(steps: seq<Step>, i: nat)
    requires i < |steps| && WellAddressed(steps)
    ensures steps[i].address in StepAddresses(steps) && StepFor(steps, steps[i].address) == steps[i]
    ensures StepIndex(steps, steps[i].address) == i
  {
    assert StepAddresses(steps)[i] == steps[i].address;
  }

  lemma PrefixWellAddressed(steps: seq<Step>, k: nat)
    requires WellAddressed(steps) && k <= |steps|
    ensures WellAddressed(steps[..k])
    ensures forall a :: a in StepAddresses(steps[..k]) ==>
              a in StepAddresses(steps) && StepFor(steps[..k], a) == StepFor(steps, a)
  {
    assert StepAddresses(steps[..k]) == StepAddresses(steps)[..k];
    forall a | a in StepAddresses(steps[..k])
      ensures a in StepAddresses(steps) && StepFor(steps[..k], a) == StepFor(steps, a)
    {
      var i := StepIndex(steps[..k], a);
      StepForAt(steps, i);
    }
  }

  lemma ReconciledNext(resources: Resources, steps: seq<Step>, i: nat)
    requires WellAddressed(steps) && i < |steps|
    ensures var r, s := Reconciled(resources, steps[..i]), steps[i];
            Reconciled(resources, steps[..i + 1]) ==
            if s.IsOrphan() || s.address !in r then r
            else r[s.address := r[s.address].(dependsOn := Tracked(s.node.explicitDependsOn, r.Keys))]
  {
    PrefixStep(steps, i);
    var s := steps[i];
    assert Reconciled(resources, steps[..i]).Keys == resources.Keys;
    assert s.address in resources ==> Reconciled(resources, steps[..i])[s.address] == resources[s.address];
    forall a | a in resources && a != s.address
      ensures Reconciled(resources, steps[..i + 1])[a] == Reconciled(resources, steps[..i])[a]
    {
      assert NodeStepAt(steps[..i + 1], a) <==> NodeStepAt(steps[..i], a);
    }
  }

  method RenumberNoOps(resources: Resources, steps: seq<Step>) returns (r: Resources)
    requires WellAddressed(steps)
    ensures r.Keys == resources.Keys
    ensures forall k :: 0 <= k < |steps| && steps[k].action == NoOp && steps[k].address in r ==>
              r[steps[k].address] == resources[steps[k].address].(order := k + 1)
    ensures forall a :: a in r && (forall s :: s in steps && s.address == a ==> s.action != NoOp) ==> r[a] == resources[a]
    ensures r == Renumbered(resources, steps)
  {
    r := resources;
    assert StepAddresses(steps[..0]) == [];
    for index := 0 to |steps|
      invariant r == Renumbered(resources, steps[..index])
    {
      var step := steps[index];
      RenumberedNext(resources, steps, index);
      if step.action == NoOp && step.address in r {
        r := r[step.address := r[step.address].(order := index + 1)];
      }
    }
    assert steps[..|steps|] == steps;
    RenumberedPositions(resources, steps);
  }

  lemma PrefixIndex(steps: seq<Step>, i: nat)
    requires WellAddressed(steps) && i < |steps|
    ensures forall a :: a in StepAddresses(steps[..i]) ==>
              a in StepAddresses(steps[..i + 1]) && StepIndex(steps[..i + 1], a) == StepIndex(steps[..i], a)
  {
    PrefixStep(steps, i);
    hide WellAddressed;
    forall a | a in StepAddresses(steps[..i]) ensures StepIndex(steps[..i + 1], a) == StepIndex(steps[..i], a) {
      StepForAt(steps[..i + 1], StepIndex(steps[..i], a));
    }
  }

  lemma RenumberedAt(resources: Resources, steps: seq<Step>, a: string)
    ensures Renumbered(resources, steps).Keys == resources.Keys
    ensures a in resources ==>
              Renumbered(resources, steps)[a] ==
              if a in StepAddresses(steps) && StepFor(steps, a).action == NoOp
              then resources[a].(order := StepIndex(steps, a) + 1) else resources[a]
  {
  }

  lemma RenumberedNext(resources: Resources, steps: seq<Step>, i: nat)
    requires WellAddressed(steps) && i < |steps|
    ensures var r, s := Renumbered(resources, steps[..i]), steps[i];
            Renumbered(resources, steps[..i + 1]) ==
            if s.action == NoOp && s.address in r then r[s.address := r[s.address].(order := i + 1)] else r
  {
    hide *;
    PrefixStep(steps, i);
    LastStepAt(steps, i);
    PrefixIndex(steps, i);
    var r, s := Renumbered(resources, steps[..i]), steps[i];
    var next := if s.action == NoOp && s.address in r then r[s.address := r[s.address].(order := i + 1)] else r;
    RenumberedAt(resources, steps[..i], s.address);
    RenumberedAt(resources, steps[..i + 1], s.address);
    assert next.Keys == resources.Keys;
    forall a | a in resources ensures Renumbered(resources, steps[..i + 1])[a] == next[a] {
      RenumberedAt(resources, steps[..i], a);
      RenumberedAt(resources, steps[..i + 1], a);
    }
  }

  lemma LastStepAt(steps: seq<Step>, i: nat)
    requires WellAddressed(steps) && i < |steps|
    ensures steps[i].address in StepAddresses(steps[..i + 1]) && StepIndex(steps[..i + 1], steps[i].address) == i
  {
    PrefixStep(steps, i);
    StepForAt(steps[..i + 1], i);
  }

  /** Reconciling twice changes nothing more. */
  lemma ReconciledTwice(resources: Resources, steps: seq<Step>)
    ensures Reconciled(Reconciled(resources, steps), steps) == Reconciled(resources, steps)
  {
    assert Reconciled(resources, steps).Keys == resources.Keys;
  }

  lemma {:induction false} AllNoOp(reports: Reports, m: Machine, steps: seq<Step>)
    requires forall s :: s in steps ==> s.action == NoOp
    ensures PerformAll(reports, m, steps) == m
  {
    if steps != [] {
      AllNoOp(reports, m, steps[..|steps| - 1]);
    }
  }

  /** `removeStateDependencyReferences`, after deleting the resource itself. */
  method RemoveStateDependencyReferences(resources: Resources, removed: string) returns (r: Resources)
    requires removed !in resources
    ensures IsUntracked(resources, r, removed)
    ensures r == Untracked(resources, removed)
  {
    hide IsUntracked, FilterOut, Untracked;
    r := resources;
    var rest := resources.Keys;
    while rest != {}
      invariant rest <= resources.Keys && r.Keys == resources.Keys
      invariant forall a :: a in resources ==>
                  r[a] == if a in rest then resources[a]
                          else resources[a].(dependsOn := FilterOut(resources[a].dependsOn, removed))
      decreases rest
    {
      var a :| a in rest;
      rest := rest - {a};
      var filtered, changed := [], false;
      var deps := r[a].dependsOn;
      FilterOutNothing(removed);
      assert deps[..0] == [];
      for i := 0 to |deps|
        invariant filtered == FilterOut(deps[..i], removed)
        invariant !changed ==> filtered == deps[..i]
      {
        FilterOutNext(deps, removed, i);
        if deps[i] == removed {
          changed := true;
        } else {
          filtered := filtered + [deps[i]];
        }
      }
      assert deps[..|deps|] == deps;
      if changed {
        r := r[a := r[a].(dependsOn := filtered)];
      }
    }
    UntrackedIs(resources, removed, r);
    UntrackedExactly(resources, removed);
  }

  lemma FilterOutNothing(removed: string)
    ensures FilterOut([], removed) == []
  {
  }

  lemma FilterOutNext(deps: seq<string>, removed: string, i: nat)
    requires i < |deps|
    ensures FilterOut(deps[..i + 1], removed) == FilterOut(deps[..i], removed) + if deps[i] == removed then [] else [deps[i]]
    ensures deps[..i + 1] == deps[..i] + [deps[i]]
  {
    assert deps[..i + 1][..i] == deps[..i];
  }

  lemma UntrackedIs(resources: Resources, removed: string, r: Resources)
    requires removed !in resources && r.Keys == resources.Keys
    requires forall a :: a in resources ==> r[a] == resources[a].(dependsOn := FilterOut(resources[a].dependsOn, removed))
    ensures r == Untracked(resources, removed)
  {
    hide FilterOut;
  }

  /** The body of the execution loop. */
  method ExecuteStep(resources: Resources, step: Step, order: nat, remote: Remote)
    returns (r: Result<Resources, ExecError>)
    modifies remote`world
    ensures r.Ok? ==> Machine(r.value, remote.world) == Perform(remote.reports, Machine(resources, old(remote.world)), step, order)
    ensures r.Err? <==> CallsProvider(step.action) && step.address in remote.failing
    ensures r.Err? ==> r.error == StepFailed(step.address, step.action)
    ensures r.Err? ==> forall a :: a != step.address ==> SameAt(remote.world, old(remote.world), a)
  {
    match step.action {
      case NoOp =>
        return Ok(resources);
      case Forget =>
        var out := RemoveStateDependencyReferences(resources - {step.address}, step.address);
        UntrackedTwice(resources, step.address);
        return Ok(out);
      case Delete =>
        var ok := remote.Delete(step);
        if !ok {
          return Err(StepFailed(step.address, step.action));
        }
        var out := RemoveStateDependencyReferences(resources - {step.address}, step.address);
        UntrackedTwice(resources, step.address);
        return Ok(out);
      case Destroy =>
        var ok := remote.Delete(step);
        if !ok {
          return Err(StepFailed(step.address, step.action));
        }
        var out := RemoveStateDependencyReferences(resources - {step.address}, step.address);
        UntrackedTwice(resources, step.address);
        return Ok(out);
      case Adopt =>
        var resource := BuildResource(step, step.observed.isProtected, order);
        return Ok(resources[step.address := resource]);
      case Create =>
        var observed := remote.Apply(step);
        if observed.None? {
          return Err(StepFailed(step.address, step.action));
        }
        var resource := BuildResource(step, observed.value.isProtected, order);
        return Ok(resources[step.address := resource]);
      case Update =>
        var observed := remote.Apply(step);
        if observed.None? {
          return Err(StepFailed(step.address, step.action));
        }
        var resource := BuildResource(step, observed.value.isProtected, order);
        return Ok(resources[step.address := resource]);
    }
  }

  lemma UntrackedTwice(resources: Resources, a: string)
    ensures Untracked(resources - {a}, a) == Untracked(resources, a)
  {
  }

  /** `resourceForStep`. What it records is what the next plan needs: with the wanted object in place the node is a
      no-op, unless its digest must not be kept; it is not taken for newly protected; and should the node go away,
      the orphan waits for the authored dependencies and is removed, forgotten or blocked as the node asked. */
  method BuildResource(step: Step, isProtected: bool, order: nat) returns (r: Resource)
    ensures forall observed: Observed :: observed.present != IsAbsent(step.node) && AsWanted(step.node, observed) ==>
              (PlanNode(step.node, Some(r), observed) == NoOp <==> !(step.node.ephemeral && !step.node.digestSafe))
    ensures !Reclassified(step.node, Some(r))
    ensures IsRecordOf(step, isProtected, order, r)
    ensures OrphanAction(r) == Forget <==> TextOf(step.node.desired, "delete_behavior") !in {"delete", "destroy"}
    ensures OrphanBlocked(r) <==> step.node.preventDestroy && OrphanAction(r) != Forget
    ensures r == ResourceForStep(step, isProtected, order)
  {
    var dependsOn := CanonicalAddresses(step.node.explicitDependsOn);
    CanonicalMembers(step.node.explicitDependsOn);
    r := Resource(step.node.kind, order,
                  if step.node.ephemeral && !step.node.digestSafe then NoDigest else HashOf(step.node.desired),
                  dependsOn, IsProtectedNode(step.node) || isProtected, step.node.preventDestroy,
                  TextOf(step.node.desired, "delete_behavior"), DeleteIdentity(step.node.desired));
  }

  /** Every step that must migrate a prior identity has one, and the provider can migrate it. */
  predicate MigrationsPass(steps: seq<Step>, unmigratable: set<string>)
  {
    forall s :: s in steps && RequiresMigration(s) ==> HasMigrationIdentity(s) && s.address !in unmigratable
  }

  /** The migration loop stops at the first step it cannot migrate, and says why. */
  predicate MigrationStops(steps: seq<Step>, unmigratable: set<string>, k: int, error: ExecError)
  {
    && 0 <= k < |steps| && MigrationsPass(steps[..k], unmigratable) && RequiresMigration(steps[k])
    && error == if HasMigrationIdentity(steps[k]) then MigrationFailed(steps[k].address) else MigrationBlocked(steps[k].address)
  }

  predicate StepsPass(steps: seq<Step>, failing: set<string>)
  {
    forall s :: s in steps && CallsProvider(s.action) ==> s.address !in failing
  }

  /** The execution loop stops at the first step whose call to the provider fails. */
  predicate StepStops(steps: seq<Step>, failing: set<string>, k: int, error: ExecError)
  {
    && 0 <= k < |steps| && StepsPass(steps[..k], failing) && CallsProvider(steps[k].action) && steps[k].address in failing
    && error == StepFailed(steps[k].address, steps[k].action)
  }

  /** The migration loop that runs before an early write. */
  method MigratePriors(steps: seq<Step>, remote: Remote) returns (r: Option<ExecError>)
    ensures r.None? <==> MigrationsPass(steps, remote.unmigratable)
    ensures r.Some? ==> exists k :: MigrationStops(steps, remote.unmigratable, k, r.value)
  {
    for i := 0 to |steps|
      invariant MigrationsPass(steps[..i], remote.unmigratable)
    {
      TakeNext(steps, i);
      assert steps[i] in steps;
      if !RequiresMigration(steps[i]) {
        continue;
      }
      if !HasMigrationIdentity(steps[i]) {
        assert MigrationStops(steps, remote.unmigratable, i, MigrationBlocked(steps[i].address));
        return Some(MigrationBlocked(steps[i].address));
      }
      var ok := remote.Migrate(steps[i]);
      if !ok {
        assert MigrationStops(steps, remote.unmigratable, i, MigrationFailed(steps[i].address));
        return Some(MigrationFailed(steps[i].address));
      }
    }
    assert steps[..|steps|] == steps;
    return None;
  }

  /** `executeHost`. Success leaves the final machine behind, after as many writes as are needed: the early one, and
      one at the end unless nothing changed after an early one. Failure names the migration or the step that failed,
      or a write; it leaves the remote world stopped at that step, and the early write as the only one. */
  method ExecuteHost(plan: HostPlan, remote: Remote) returns (r: Result<(), ExecError>)
    requires WellAddressed(plan.steps)
    modifies remote
    ensures r.Ok? <==>
              && (plan.statePrewrite ==> MigrationsPass(plan.steps, remote.unmigratable))
              && StepsPass(plan.steps, remote.failing)
              && old(remote.writesLeft) >=
                 (if (plan.moved || plan.statePrewrite) && (exists s :: s in plan.steps && s.action != NoOp) then 2 else 1)
    ensures r.Ok? ==> old(remote.writesLeft) - remote.writesLeft ==
                      (if (plan.moved || plan.statePrewrite) && (exists s :: s in plan.steps && s.action != NoOp) then 2 else 1)
    ensures r.Ok? ==> Machine(remote.stored, remote.world) == FinalMachine(remote.reports, plan, old(remote.world))
    ensures r.Err? && (r.error.MigrationBlocked? || r.error.MigrationFailed?) ==>
              remote.stored == old(remote.stored) && remote.world == old(remote.world) && plan.statePrewrite &&
              exists k :: MigrationStops(plan.steps, remote.unmigratable, k, r.error)
    ensures r.Err? && r.error.StepFailed? ==>
              && remote.stored == (if plan.moved || plan.statePrewrite then StartState(plan) else old(remote.stored))
              && exists k: nat :: StepStops(plan.steps, remote.failing, k, r.error) &&
                   StoppedAt(remote.reports, plan, old(remote.world), k, remote.world)
    ensures r == Err(WriteFailed) ==> exists k :: StoppedAt(remote.reports, plan, old(remote.world), k, remote.world)
    ensures r == Err(WriteFailed) && remote.stored != old(remote.stored) ==>
              (plan.moved || plan.statePrewrite) && remote.stored == StartState(plan) && StepsPass(plan.steps, remote.failing)
    ensures remote.stored == old(remote.stored) || RecordsAuthored(remote.stored, plan.steps)
    ensures r.Ok? ==> RecordsAuthored(remote.stored, plan.steps) && Positioned(remote.stored, plan.steps, |plan.steps|)
  {
    RunRecords(remote.reports, plan, remote.world);
    hide Reconciled, RecordsAuthored, Positioned;
    var state := RenumberNoOps(plan.priorResources, plan.steps);
    state := ReconcileStateDependencies(state, plan.steps);
    NotStarted(remote.reports, plan, remote.world);
    if plan.statePrewrite {
      var blocked := MigratePriors(plan.steps, remote);
      if blocked.Some? {
        return Err(blocked.value);
      }
    }
    if plan.moved || plan.statePrewrite {
      var ok := remote.Write(state);
      if !ok {
        assert StoppedAt(remote.reports, plan, old(remote.world), 0, remote.world);
        return Err(WriteFailed);
      }
      if !HasChanges(plan.steps) {
        NothingToDo(remote.reports, plan, remote.world);
        return Ok(());
      }
    }
    r := RunSteps(plan, state, remote);
  }

  lemma NotStarted(reports: Reports, plan: HostPlan, world: World)
    ensures StoppedAt(reports, plan, world, 0, world)
  {
    assert plan.steps[..0] == [];
  }

  lemma NothingToDo(reports: Reports, plan: HostPlan, world: World)
    requires !HasChanges(plan.steps)
    ensures FinalMachine(reports, plan, world) == Machine(StartState(plan), world)
  {
    AllNoOp(reports, Machine(StartState(plan), world), plan.steps);
    ReconciledTwice(Renumbered(plan.priorResources, plan.steps), plan.steps);
  }

  /** The execution loop, the last reconciliation and the final write. */
  method RunSteps(plan: HostPlan, start: Resources, remote: Remote) returns (r: Result<(), ExecError>)
    requires WellAddressed(plan.steps) && start == StartState(plan)
    modifies remote
    ensures r.Ok? <==> StepsPass(plan.steps, remote.failing) && old(remote.writesLeft) > 0
    ensures r.Ok? ==> Machine(remote.stored, remote.world) == FinalMachine(remote.reports, plan, old(remote.world))
    ensures r.Ok? ==> remote.writesLeft == old(remote.writesLeft) - 1
    ensures r.Err? ==> remote.stored == old(remote.stored) && (r.error.StepFailed? || r.error.WriteFailed?)
    ensures r.Err? && r.error.StepFailed? ==>
              exists k: nat :: StepStops(plan.steps, remote.failing, k, r.error) &&
                StoppedAt(remote.reports, plan, old(remote.world), k, remote.world)
    ensures r == Err(WriteFailed) ==>
              StepsPass(plan.steps, remote.failing) &&
              StoppedAt(remote.reports, plan, old(remote.world), |plan.steps|, remote.world)
  {
    var state := start;
    ghost var m0 := Machine(start, remote.world);
    assert plan.steps[..0] == [];
    for index := 0 to |plan.steps|
      invariant Machine(state, remote.world) == PerformAll(remote.reports, m0, plan.steps[..index])
      invariant remote.stored == old(remote.stored) && remote.writesLeft == old(remote.writesLeft)
      invariant StepsPass(plan.steps[..index], remote.failing)
    {
      var step := plan.steps[index];
      TakeNext(plan.steps, index);
      assert step in plan.steps;
      assert plan.steps[..index + 1][..index] == plan.steps[..index];
      var done := ExecuteStep(state, step, index + 1, remote);
      if done.Err? {
        assert StepStops(plan.steps, remote.failing, index, done.error);
        assert StoppedAt(remote.reports, plan, old(remote.world), index, remote.world);
        return Err(done.error);
      }
      state := done.value;
    }
    assert plan.steps[..|plan.steps|] == plan.steps;
    state := ReconcileStateDependencies(state, plan.steps);
    var ok := remote.Write(state);
    if !ok {
      assert StoppedAt(remote.reports, plan, old(remote.world), |plan.steps|, remote.world);
      return Err(WriteFailed);
    }
    return Ok(());
  }
}
