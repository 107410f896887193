/** Any sequence of applies, with changing configurations, moves and crashes, keeps the stored state good,
    and every plan along the way can be ordered. */
module EngineRun {
  import opened Digraph
  import opened Model
  import opened Planning
  import opened Remoting
  import opened DependencyOrder
  import opened PlanOrdering
  import opened PlanHosting
  import opened Execution
  import opened Effects
  import opened RunInvariant
  import opened StateMoves
  import opened ComponentNames
  import opened MoveResolution
  import opened Restart

  /** How far one apply got with its writes. */
  datatype Outcome = NothingWritten | EarlyWritten | Finished

  /** One apply of one host: the state after moves, the configuration's nodes, the world that was inspected
      when planning, the plan, and where it stopped. */
  datatype Attempt = Attempt(
    targets: map<string, (Digest, Digest)>,
    path: seq<Resources>,
    moved: Resources,
    nodes: seq<Node>,
    world: World,
    orphans: seq<string>,
    draft: seq<Step>,
    plan: HostPlan,
    reports: Reports,
    outcome: Outcome)

  ghost predicate IsAttempt(stored: Resources, attempt: Attempt, stored': Resources)
  {
    && MovesTo(stored, attempt.targets, attempt.moved, attempt.path)
    && InScheduleOrder(attempt.nodes)
    && IsPlan(attempt.nodes, attempt.moved, attempt.world, attempt.orphans, attempt.draft, attempt.plan)
    && match attempt.outcome
       case NothingWritten => stored' == stored
       case EarlyWritten => stored' == StartState(attempt.plan)
       case Finished => stored' == FinalMachine(attempt.reports, attempt.plan, attempt.world).resources
  }

  ghost predicate IsRun(states: seq<Resources>, attempts: seq<Attempt>)
  {
    && |states| == |attempts| + 1
    && states[0] == map[]
    && forall i, j :: 0 <= i && j == i + 1 && j < |states| ==> IsAttempt(states[i], attempts[i], states[j])
  }

  lemma AttemptKeepsGood(stored: Resources, attempt: Attempt, stored': Resources)
    requires GoodState(stored) && IsAttempt(stored, attempt, stored')
    ensures GoodState(attempt.moved) && GoodState(stored')
    ensures attempt.outcome == Finished ==> forall a :: a in stored' ==> a in Graph.NodeAddresses(attempt.nodes)
  {
    MovesKeepGood(stored, attempt.targets, attempt.moved, attempt.path);
    EarlyWriteGood(attempt.nodes, attempt.moved, attempt.world, attempt.orphans, attempt.draft, attempt.plan);
    FinalWriteGood(attempt.reports, attempt.nodes, attempt.moved, attempt.world, attempt.orphans, attempt.draft,
                   attempt.plan);
  }

  lemma NothingTracked()
    ensures GoodState(map[])
  {
    RankedState(map[], x => 0);
  }

  /** Every state ever stored is closed and acyclic. */
  lemma {:induction false} RunKeepsGood(states: seq<Resources>, attempts: seq<Attempt>, i: nat)
    requires IsRun(states, attempts) && i < |states|
    ensures GoodState(states[i])
  {
    hide IsAttempt, GoodState;
    if i == 0 {
      NothingTracked();
    } else {
      RunKeepsGood(states, attempts, i - 1);
      AttemptKeepsGood(states[i - 1], attempts[i - 1], states[i]);
    }
  }

  /** From every state of every run, after any moves, every draft of a scheduled configuration can be
      ordered: the action dependency cycle error never happens. */
  lemma RunAlwaysOrders(states: seq<Resources>, attempts: seq<Attempt>, i: nat,
                        targets: map<string, (Digest, Digest)>, path: seq<Resources>, moved: Resources,
                        nodes: seq<Node>, world: World, orphans: seq<string>, draft: seq<Step>)
    requires IsRun(states, attempts) && i < |states| && MovesTo(states[i], targets, moved, path)
    requires InScheduleOrder(nodes) && IsDraft(nodes, moved, world, orphans, draft)
    ensures WellAddressed(draft) && Acyclic(Authored(draft)) && |ExecutionOrder(draft)| == |draft|
  {
    RunKeepsGood(states, attempts, i);
    MovesKeepGood(states[i], targets, moved, path);
    AuthoredAlwaysAcyclic(nodes, moved, world, orphans, draft);
  }

  /** A validated graph and any state the engine has written can always be ordered. */
  lemma ValidatedAlwaysOrders(graph: seq<Node>, scheduled: seq<Node>, host: string,
                              states: seq<Resources>, attempts: seq<Attempt>, i: nat,
                              targets: map<string, (Digest, Digest)>, path: seq<Resources>, moved: Resources,
                              world: World, orphans: seq<string>, draft: seq<Step>)
    requires Graph.ValidGraph(graph) && AuthoredWithinHost(graph)
    requires Graph.NodeAddresses(scheduled) == Graph.ScheduleOrder(graph) && forall n :: n in scheduled ==> n in graph
    requires IsRun(states, attempts) && i < |states| && MovesTo(states[i], targets, moved, path)
    requires IsDraft(HostNodes(scheduled, host), moved, world, orphans, draft)
    ensures WellAddressed(draft) && Acyclic(Authored(draft)) && |ExecutionOrder(draft)| == |draft|
  {
    hide *;
    ValidGraphInOrder(graph, scheduled, host);
    RunAlwaysOrders(states, attempts, i, targets, path, moved, HostNodes(scheduled, host), world, orphans, draft);
  }

  datatype ApplyError = MoveFailed(move: ResolveError) | PlanFailed(plan: PlanError) | ExecFailed(exec: ExecError)

  /** The resolution and the plan of one apply that got as far as planning. */
  ghost predicate IsApply(host: string, nodes: seq<Node>, stored: Resources, world: World, names: Names,
                          declarations: seq<Move>,
                          desired: set<string>, targets: Targets,
                          resolution: Resolution, orphans: seq<string>, draft: seq<Step>, plan: HostPlan)
  {
    && IsResolution(host, declarations, desired, resolution)
    && resolution.before == stored && resolution.namesBefore == names && resolution.targets == targets
    && IsPlan(nodes, resolution.result.resources, world, orphans, draft, plan)
    && (plan.moved <==> resolution.result.moves != [])
  }

  /** One apply of one host under its lease: resolve moves, plan, execute. Nothing is changed before the plan is made;
      success carries out the plan of the resolved state and leaves its final state and names; failure leaves the remote
      world stopped at some step of that plan, and the state as it was or as the early write. */
  method ApplyHost(host: string, nodes: seq<Node>, remote: Remote, names: Names, declarations: seq<Move>,
                   desired: set<string>, targets: Targets)
    returns (r: Result<Names, ApplyError>, ghost resolution: Option<Resolution>, ghost orphans: seq<string>,
             ghost draft: seq<Step>, ghost plan: Option<HostPlan>)
    requires InScheduleOrder(nodes) && GoodState(remote.stored)
    modifies remote
    ensures r.Err? && !r.error.ExecFailed? ==> remote.stored == old(remote.stored) && remote.world == old(remote.world)
    ensures r.Ok? || r.error.ExecFailed? ==>
              resolution.Some? && plan.Some? &&
              IsApply(host, nodes, old(remote.stored), old(remote.world), names, declarations, desired, targets,
                      resolution.value, orphans, draft, plan.value)
    ensures r.Ok? && resolution.Some? && plan.Some? ==>
              r.value == resolution.value.result.names &&
              Machine(remote.stored, remote.world) == FinalMachine(remote.reports, plan.value, old(remote.world))
    ensures r.Err? && r.error.ExecFailed? && plan.Some? ==>
              && (remote.stored == old(remote.stored) || remote.stored == StartState(plan.value))
              && exists k :: StoppedAt(remote.reports, plan.value, old(remote.world), k, remote.world)
    ensures GoodState(remote.stored)
    ensures r.Err? && r.error.PlanFailed? ==> !r.error.plan.Unordered?
    ensures r.Ok? ==> forall a :: a in remote.stored ==> a in Graph.NodeAddresses(nodes)
  {
    hide *;
    resolution, orphans, draft, plan := None, [], [], None;
    var resolved, moves, finalTargets, path := ResolveMoves(host, remote.stored, names, declarations, desired, targets);
    if resolved.Err? {
      r := Err(MoveFailed(resolved.error));
      return;
    }
    var moved, realized := resolved.value.resources, resolved.value.moves;
    RanKnown(host, remote.stored, declarations, desired, targets, moves, finalTargets, path);
    LeavesLast(host, names, desired, moves, finalTargets, path, resolved.value);
    ResolutionMovesTo(host, remote.stored, declarations, desired, targets, moves, finalTargets, path);
    MovesKeepGood(remote.stored, targets, moved, path);
    resolution := Some(Resolution(remote.stored, names, targets, moves, finalTargets, path, resolved.value));
    ResolutionIs(host, declarations, desired, resolution.value);
    var planned;
    planned, orphans, draft := PlanHost(nodes, moved, remote, |realized| > 0);
    if planned.Err? {
      NeverUnordered(nodes, moved, remote.world, remote.unreadable, planned.error);
      r := Err(PlanFailed(planned.error));
      return;
    }
    plan := Some(planned.value);
    ghost var world := remote.world;
    PlanSteps(nodes, moved, world, orphans, draft, planned.value);
    EarlyWriteGood(nodes, moved, world, orphans, draft, planned.value);
    FinalWriteGood(remote.reports, nodes, moved, world, orphans, draft, planned.value);
    ApplyIs(host, nodes, remote.stored, world, names, declarations, desired, targets, resolution.value, orphans,
            draft, planned.value);
    NotStarted(remote.reports, planned.value, world);
    var done := ExecuteHost(planned.value, remote);
    if done.Err? {
      r := Err(ExecFailed(done.error));
      return;
    }
    r := Ok(resolved.value.names);
  }

  lemma ResolutionIs(host: string, declarations: seq<Move>, desired: set<string>, r: Resolution)
    requires Ran(host, r.before, declarations, desired, r.targets, r.moves, r.finalTargets, r.path)
    requires (forall m :: m in r.moves ==> m.from in r.finalTargets) && |r.path| == |r.moves| + 1
    requires Leaves(host, r.namesBefore, desired, r.moves, r.finalTargets, r.path, r.result)
    ensures IsResolution(host, declarations, desired, r)
  {
    hide Ran, Leaves;
  }

  lemma ApplyIs(host: string, nodes: seq<Node>, stored: Resources, world: World, names: Names, declarations: seq<Move>,
                desired: set<string>, targets: Targets,
                resolution: Resolution, orphans: seq<string>, draft: seq<Step>, plan: HostPlan)
    requires IsResolution(host, declarations, desired, resolution)
    requires resolution.before == stored && resolution.namesBefore == names && resolution.targets == targets
    requires IsPlan(nodes, resolution.result.resources, world, orphans, draft, plan)
    requires plan.moved <==> resolution.result.moves != []
    ensures IsApply(host, nodes, stored, world, names, declarations, desired, targets, resolution, orphans, draft, plan)
  {
    hide IsResolution, IsPlan;
  }

  lemma RanKnown(host: string, resources: Resources, declarations: seq<Move>, desired: set<string>, targets: Targets,
                 moves: seq<Move>, finalTargets: map<string, string>, path: seq<Resources>)
    requires Ran(host, resources, declarations, desired, targets, moves, finalTargets, path)
    ensures (forall m :: m in moves ==> m.from in finalTargets) && path != []
  {
  }

  lemma LeavesLast(host: string, names: Names, desired: set<string>, moves: seq<Move>, finalTargets: map<string, string>,
                   path: seq<Resources>, result: Resolved)
    requires (forall m :: m in moves ==> m.from in finalTargets) && |path| == |moves| + 1
    requires Leaves(host, names, desired, moves, finalTargets, path, result)
    ensures result.resources == path[|path| - 1]
  {
  }

  lemma NeverUnordered(nodes: seq<Node>, resources: Resources, world: World, unreadable: set<string>, error: PlanError)
    requires InScheduleOrder(nodes) && GoodState(resources) && Explains(nodes, resources, world, unreadable, error)
    ensures !error.Unordered?
  {
    if error.Unordered? {
      var orphans, draft :| IsDraft(nodes, resources, world, orphans, draft) &&
        (!WellAddressed(draft) || (error.error.StepCycle? && !Acyclic(Authored(draft))));
      AuthoredAlwaysAcyclic(nodes, resources, world, orphans, draft);
    }
  }
}
