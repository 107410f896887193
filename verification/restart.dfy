/** A whole apply, moves included, stopped anywhere and started over. */
module Restart {
  import opened Model
  import opened Planning
  import opened Remoting
  import opened Execution
  import opened Effects
  import opened PlanOrdering
  import opened RunInvariant
  import opened Convergence
  import opened Crash
  import opened StateMoves
  import opened ComponentNames
  import opened MoveResolution
  import Graph = ResourceGraph

  /** One finished resolution of the declared moves of a host. */
  datatype Resolution = Resolution(
    before: Resources,
    namesBefore: Names,
    targets: Targets,
    moves: seq<Move>,
    finalTargets: map<string, string>,
    path: seq<Resources>,
    result: Resolved)

  ghost predicate IsResolution(host: string, declarations: seq<Move>, desired: set<string>, r: Resolution)
  {
    && Ran(host, r.before, declarations, desired, r.targets, r.moves, r.finalTargets, r.path)
    && (forall m :: m in r.moves ==> m.from in r.finalTargets) && |r.path| == |r.moves| + 1
    && Leaves(host, r.namesBefore, desired, r.moves, r.finalTargets, r.path, r.result)
  }

  /** The state that the second apply finds: what the first one found, if nothing was written, or its early write. */
  ghost predicate FoundAgain(first: Resolution, plan: HostPlan, second: Resolution)
  {
    || (second.before == first.before && second.namesBefore == first.namesBefore && second.targets == first.targets)
    || (second.before == StartState(plan) && second.namesBefore == first.result.names)
  }

  lemma ResolvedTheSame(host: string, declarations: seq<Move>, desired: set<string>, first: Resolution,
                        second: Resolution)
    requires IsResolution(host, declarations, desired, first) && IsResolution(host, declarations, desired, second)
    requires second.before == first.before && second.namesBefore == first.namesBefore && second.targets == first.targets
    ensures second.result == first.result
  {
    SameMoves(host, first.before, second.before, declarations, desired, first.targets, second.targets,
              first.moves, first.finalTargets, first.path, second.moves, second.finalTargets, second.path);
    hide StateMoves.Resolves, StateMoves.Realized, NamesLeft, Bindable, Physical;
    SamePathExactly(first.moves, first.finalTargets, desired, first.targets, first.path, second.path);
  }

  lemma ResolvedToNothing(host: string, declarations: seq<Move>, desired: set<string>, first: Resolution,
                          second: Resolution)
    requires IsResolution(host, declarations, desired, first) && IsResolution(host, declarations, desired, second)
    requires second.before.Keys == first.result.resources.Keys && second.namesBefore == first.result.names
    ensures second.result.resources == second.before && second.result.moves == []
    ensures second.result.names == first.result.names && second.result.bindings == first.result.bindings
  {
    hide Ran, StateMoves.Realized, NamesLeft, Bindable, Physical, StaysAt;
    ResolvedAgain(host, first.before, first.namesBefore, declarations, desired, first.targets, second.targets,
                  first.moves, first.finalTargets, first.path, first.result,
                  second.before, second.moves, second.finalTargets, second.path);
    StaysToTheEnd(second.path, second.before);
  }

  lemma StaysToTheEnd(path: seq<Resources>, resources: Resources)
    requires StaysAt(path, resources) && path != []
    ensures path[|path| - 1] == resources
  {
  }

  /** The second apply plans against what the first one planned against, or against its early write; components keep
      their names, and after the early write there is nothing left to move. */
  lemma RestartFinds(host: string, declarations: seq<Move>, desired: set<string>, first: Resolution, second: Resolution,
                     nodes: seq<Node>, world: World, orphans: seq<string>, draft: seq<Step>, plan: HostPlan)
    requires IsResolution(host, declarations, desired, first) && IsResolution(host, declarations, desired, second)
    requires IsPlan(nodes, first.result.resources, world, orphans, draft, plan)
    requires FoundAgain(first, plan, second)
    ensures second.result.resources == first.result.resources || second.result.resources == StartState(plan)
    ensures second.result.names == first.result.names && second.result.bindings == first.result.bindings
    ensures second.before == StartState(plan) && second.namesBefore == first.result.names ==> second.result.moves == []
  {
    hide *;
    FoundCases(first, plan, second);
    PriorKeys(nodes, first.result.resources, world, orphans, draft, plan);
    StartCore(plan, "");
    if second.before == StartState(plan) && second.namesBefore == first.result.names {
      ResolvedToNothing(host, declarations, desired, first, second);
    } else {
      ResolvedTheSame(host, declarations, desired, first, second);
    }
  }

  lemma FoundCases(first: Resolution, plan: HostPlan, second: Resolution)
    requires FoundAgain(first, plan, second)
    ensures !(second.before == StartState(plan) && second.namesBefore == first.result.names) ==>
              second.before == first.before && second.namesBefore == first.namesBefore && second.targets == first.targets
  {
  }

  /** Crash transparency of a whole apply: resolve the declared moves, plan, execute, stop anywhere; then resolve,
      plan and execute again. The second plan can be made unless an nftables table is refused, and the remote world
      ends up as that of the uninterrupted apply. */
  lemma ApplyTransparent(reports: Reports, host: string, declarations: seq<Move>, desired: set<string>,
                         first: Resolution, second: Resolution,
                         nodes: seq<Node>, world: World, orphans: seq<string>, draft: seq<Step>, plan: HostPlan,
                         k: nat, world': World, reports2: Reports)
    requires Faithful(reports) && Faithful(reports2)
    requires IsResolution(host, declarations, desired, first) && IsResolution(host, declarations, desired, second)
    requires IsPlan(nodes, first.result.resources, world, orphans, draft, plan)
    requires Graph.WellAddressed(nodes) && forall n :: n in nodes ==> Settleable(n)
    requires StoppedAt(reports, plan, world, k, world') && FoundAgain(first, plan, second)
    ensures var stored := second.result.resources;
            && (PlanNodes(nodes, stored, world').Ok? <==> forall n :: n in nodes ==> !Refused(n, stored, world'))
            && (PlanNodes(nodes, stored, world').Ok? && InScheduleOrder(nodes) && GoodState(first.result.resources) ==>
                  exists orphans2, draft2, plan2 :: IsPlan(nodes, stored, world', orphans2, draft2, plan2))
            && (forall orphans2, draft2, plan2 :: IsPlan(nodes, stored, world', orphans2, draft2, plan2) ==>
                  EndsAlike(reports, nodes, world, plan, reports2, world', plan2))
  {
    hide *;
    RestartFinds(host, declarations, desired, first, second, nodes, world, orphans, draft, plan);
    CrashTransparent(reports, nodes, first.result.resources, world, orphans, draft, plan, k, world',
                     second.result.resources, reports2);
  }
}
