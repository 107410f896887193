/** Crash transparency: stopping anywhere in a run and starting over ends in the same remote world. The one
    thing that can stand in the way of planning again is an nftables table whose creation was interrupted. */
module Crash {
  import opened Model
  import opened Planning
  import opened Remoting
  import opened DependencyOrder
  import opened Execution
  import opened Effects
  import opened PlanOrdering
  import opened RunInvariant
  import opened Convergence
  import Graph = ResourceGraph

  /** The same content: presence, and the digest when present. */
  ghost predicate SameContent(w: World, v: World, a: string)
  {
    && Look(w, a).present == Look(v, a).present
    && (Look(w, a).present ==> EffectiveDigest(Look(w, a)) == EffectiveDigest(Look(v, a)))
  }

  /** The same object as far as the engine can tell: the same content, and the marker that decides on adoption. */
  ghost predicate Alike(w: World, v: World, a: string)
  {
    SameContent(w, v, a) && (Look(w, a).present ==> Look(w, a).managed == Look(v, a).managed)
  }

  /** Every node's object is as an inspection can report it. */
  ghost predicate AllInspectable(nodes: seq<Node>, world: World)
  {
    forall n :: n in nodes ==> Inspectable(n, Look(world, n.address))
  }

  /** An address whose step, if it has one, never calls the provider is untouched by a stopped run. */
  lemma UntouchedAt(reports: Reports, plan: HostPlan, world: World, k: nat, world': World, a: string)
    requires WellAddressed(plan.steps) && StoppedAt(reports, plan, world, k, world')
    requires a in StepAddresses(plan.steps) ==> !CallsProvider(StepFor(plan.steps, a).action)
    ensures WorldAt(world', a) == WorldAt(world, a)
  {
    var prefix := plan.steps[..k];
    PrefixWellAddressed(plan.steps, k);
    EffectAt(reports, Machine(StartState(plan), world), prefix, a);
    if k < |plan.steps| && a == plan.steps[k].address {
      StepForAt(plan.steps, k);
    }
    assert SameAt(world', PerformAll(reports, Machine(StartState(plan), world), prefix).world, a);
  }

  /** The world a stopped run leaves at an address that was not being changed: nothing has happened there yet,
      or its step is done. */
  lemma LeftAt(reports: Reports, plan: HostPlan, world: World, k: nat, world': World, a: string)
    requires WellAddressed(plan.steps) && StoppedAt(reports, plan, world, k, world')
    requires !InterruptedAt(plan, k, a)
    ensures WorldAt(world', a) == WorldAt(world, a) ||
            (a in StepAddresses(plan.steps) && WorldAt(world', a) == WorldEffect(reports, StepFor(plan.steps, a), WorldAt(world, a)))
  {
    var prefix := plan.steps[..k];
    PrefixWellAddressed(plan.steps, k);
    EffectAt(reports, Machine(StartState(plan), world), prefix, a);
    assert SameAt(world', PerformAll(reports, Machine(StartState(plan), world), prefix).world, a);
  }

  predicate InterruptedAt(plan: HostPlan, k: nat, a: string)
  {
    k < |plan.steps| && CallsProvider(plan.steps[k].action) && a == plan.steps[k].address
  }

  // ---- what can keep a node from being planned again ----

  predicate Refused(node: Node, resources: Resources, world: World)
  {
    RefusesAdoption(node, Find(resources, node.address), Look(world, node.address))
  }

  /** An nftables table that nobody tracks and that may not be adopted. */
  predicate TableAtRisk(node: Node, resources: Resources)
  {
    node.kind == "nftables_table" && node.address !in resources && !DesiredBool(node.desired, "adopt_existing")
  }

  ghost predicate Plannable(node: Node, resources: Resources, world: World)
  {
    forall actions :: PlanOne(node, resources, world, actions).Ok?
  }

  lemma {:induction false} AllPlannable(nodes: seq<Node>, resources: Resources, world: World)
    requires forall k :: 0 <= k < |nodes| ==> Plannable(nodes[k], resources, world)
    ensures PlanNodes(nodes, resources, world).Ok?
  {
    if nodes != [] {
      AllPlannable(nodes[..|nodes| - 1], resources, world);
    }
  }

  predicate MigrationPossible(node: Node, prior: Option<Resource>)
  {
    Reclassified(node, prior) && IdentityKeys(node.kind).Some? ==>
      TextOf(PlannedNode(node, prior).payload, IdentityKeys(node.kind).value.0) != ""
  }

  lemma PlannableIf(node: Node, resources: Resources, world: World)
    requires Settleable(node) && MigrationPossible(node, Find(resources, node.address))
    requires node.preventDestroy && IsAbsent(node) ==> !Look(world, node.address).present
    requires !Refused(node, resources, world)
    ensures Plannable(node, resources, world)
  {
    hide RefusesAdoption, Settleable, Reclassified, FinalAction, OwnAction, MigrationPossible, RemovesRemoteObject, RequiresMigration,
      HasMigrationIdentity, PlannedNode, IsAbsent;
    var prior, observed := Find(resources, node.address), Look(world, node.address);
    forall actions ensures PlanOne(node, resources, world, actions).Ok? {
      RemovalAllowed(node, prior, observed, actions);
      forall step: Step | step.node == PlannedNode(node, prior) && step.reclassified == Reclassified(node, prior)
        ensures !(RequiresMigration(step) && !HasMigrationIdentity(step))
      {
        MigrationAllowed(node, prior, step);
      }
    }
  }

  lemma MigrationAllowed(node: Node, prior: Option<Resource>, step: Step)
    requires step.node == PlannedNode(node, prior) && step.reclassified == Reclassified(node, prior) && MigrationPossible(node, prior)
    ensures !(RequiresMigration(step) && !HasMigrationIdentity(step))
  {
    assert PlannedNode(node, prior).kind == node.kind;
  }

  lemma RemovalAllowed(node: Node, prior: Option<Resource>, observed: Observed, actions: Actions)
    requires Settleable(node) && (node.preventDestroy && IsAbsent(node) ==> !observed.present)
    ensures RemovesRemoteObject(FinalAction(node, OwnAction(node, prior, observed), observed, actions)) ==> !node.preventDestroy
  {
    assert IsAbsent(node) ==> ChangedTriggers(node.triggeredBy, actions) == [];
  }

  lemma PlannedBefore(node: Node, resources: Resources, world: World, actions: Actions, s: Step)
    requires Settleable(node) && PlanOne(node, resources, world, actions) == Ok(s)
    ensures MigrationPossible(node, Find(resources, node.address))
    ensures node.preventDestroy && IsAbsent(node) ==> !Look(world, node.address).present && !CallsProvider(s.action)
  {
    if IsAbsent(node) {
      AbsentNeverApplied(node, resources, world, actions);
    }
  }

  lemma ProtectedNotReclassified(node: Node, prior: Option<Resource>, again: Option<Resource>)
    requires CoreOf(again) == CoreOf(PlannedPrior(node, prior))
    ensures MigrationPossible(node, again)
  {
  }

  /** Whatever was stored when the run stopped, every node that is not refused can be planned again. */
  lemma NodePlannableAgain(reports: Reports, nodes: seq<Node>, resources: Resources, world: World,
                           orphans: seq<string>, draft: seq<Step>,
                           plan: HostPlan, k: nat, world': World, stored: Resources, n: nat)
    requires IsPlan(nodes, resources, world, orphans, draft, plan) && n < |nodes|
    requires forall n :: n in nodes ==> Settleable(n)
    requires StoppedAt(reports, plan, world, k, world') && (stored == resources || stored == StartState(plan))
    requires !Refused(nodes[n], stored, world')
    ensures Plannable(nodes[n], stored, world')
  {
    var a := nodes[n].address;
    NodeStep(nodes, resources, world, orphans, draft, plan, n);
    NodePlanned(nodes, resources, world, orphans, draft, plan, n);
    FinalAt(reports, plan, world, a);
    assert nodes[n] in nodes;
    var planned := PlanNodes(nodes, resources, world).value;
    PlannedBefore(nodes[n], resources, world, ActionsOf(planned[..n]), planned[n]);
    hide *;
    CoreFind(stored, a);
    if stored != resources {
      ProtectedNotReclassified(nodes[n], Find(resources, a), Find(stored, a));
    }
    if nodes[n].preventDestroy && IsAbsent(nodes[n]) {
      UntouchedAt(reports, plan, world, k, world', a);
      LookAt(world, a);
      LookAt(world', a);
    }
    PlannableIf(nodes[n], stored, world');
  }

  lemma PlannedNotRefused(nodes: seq<Node>, resources: Resources, world: World, n: nat)
    requires PlanNodes(nodes, resources, world).Ok? && n < |nodes|
    ensures !Refused(nodes[n], resources, world)
  {
    PlanNodesShape(nodes, resources, world);
    var planned := PlanNodes(nodes, resources, world).value;
    assert PlanOne(nodes[n], resources, world, ActionsOf(planned[..n])) == Ok(planned[n]);
  }

  /** A node is refused after a stopped run only if its own table was being changed when the run stopped. */
  lemma RefusedWasInterrupted(reports: Reports, nodes: seq<Node>, resources: Resources, world: World,
                              orphans: seq<string>,
                              draft: seq<Step>, plan: HostPlan, k: nat, world': World, stored: Resources, n: nat)
    requires Faithful(reports)
    requires IsPlan(nodes, resources, world, orphans, draft, plan) && n < |nodes|
    requires StoppedAt(reports, plan, world, k, world') && (stored == resources || stored == StartState(plan))
    requires Refused(nodes[n], stored, world')
    ensures InterruptedAt(plan, k, nodes[n].address) && TableAtRisk(nodes[n], resources)
  {
    var a := nodes[n].address;
    NodeStep(nodes, resources, world, orphans, draft, plan, n);
    NodePlanned(nodes, resources, world, orphans, draft, plan, n);
    var planned := PlanNodes(nodes, resources, world).value;
    PlannedSameNode(nodes[n], resources, world, ActionsOf(planned[..n]), planned[n]);
    PlannedNotRefused(nodes, resources, world, n);
    SameTracked(nodes, resources, world, orphans, draft, plan, stored, a);
    hide *;
    RefusedParts(nodes[n], stored, world');
    if !InterruptedAt(plan, k, a) {
      LeftAt(reports, plan, world, k, world', a);
      LookAt(world, a);
      LookAt(world', a);
      OwnTableIsMarked(reports, nodes[n], planned[n], resources, stored, world, world');
    }
    AtRisk(nodes[n], resources, stored, world');
  }

  lemma RefusedParts(node: Node, resources: Resources, world: World)
    requires Refused(node, resources, world)
    ensures Look(world, node.address).present && Find(resources, node.address).None?
  {
  }

  lemma AtRisk(node: Node, resources: Resources, stored: Resources, world: World)
    requires Refused(node, stored, world) && (node.address in stored <==> node.address in resources)
    ensures TableAtRisk(node, resources)
  {
  }

  lemma SameTracked(nodes: seq<Node>, resources: Resources, world: World, orphans: seq<string>, draft: seq<Step>,
                    plan: HostPlan, stored: Resources, a: string)
    requires IsPlan(nodes, resources, world, orphans, draft, plan) && (stored == resources || stored == StartState(plan))
    ensures a in stored <==> a in resources
  {
    hide *;
    PriorKeys(nodes, resources, world, orphans, draft, plan);
    StartCore(plan, a);
  }

  /** What the engine itself leaves at a table's address is absent or carries the engine's marker. */
  lemma OwnTableIsMarked(reports: Reports, node: Node, s: Step, resources: Resources, stored: Resources, world: World,
                         world': World)
    requires Faithful(reports)
    requires s.node.(payload := node.payload) == node
    requires node.address in stored <==> node.address in resources
    requires WorldAt(world', node.address) == WorldAt(world, node.address) ||
             WorldAt(world', node.address) == WorldEffect(reports, s, WorldAt(world, node.address))
    requires !Refused(node, resources, world)
    ensures !Refused(node, stored, world')
  {
    assert s.node.kind == node.kind;
  }

  lemma OrphansUnblockedAgain(reports: Reports, nodes: seq<Node>, resources: Resources, world: World,
                              orphans: seq<string>,
                              draft: seq<Step>,
                              plan: HostPlan, stored: Resources, a: string)
    requires IsPlan(nodes, resources, world, orphans, draft, plan) && a !in Graph.NodeAddresses(nodes)
    requires stored == resources || stored == StartState(plan)
    ensures CoreAt(stored, a) == CoreAt(resources, a)
    ensures a in stored <==> a in resources
    ensures a in stored ==> !OrphanBlocked(stored[a]) && OrphanAction(stored[a]) == OrphanAction(resources[a])
  {
    OtherStep(nodes, resources, world, orphans, draft, plan, a);
    FinalAt(reports, plan, world, a);
    PlanPrior(nodes, resources, world, orphans, draft, plan);
    hide *;
    CoreFind(resources, a);
    SameCore(stored, resources, a);
  }

  lemma SameCore(r: Resources, t: Resources, a: string)
    requires CoreAt(r, a) == CoreAt(t, a)
    ensures a in r <==> a in t
    ensures a in r ==> OrphanAction(r[a]) == OrphanAction(t[a]) && OrphanBlocked(r[a]) == OrphanBlocked(t[a])
  {
    assert a in r ==> Core(r[a]) == Core(t[a]);
  }

  // ---- both runs end in the same world ----

  lemma SameCondition(node: Node, w: World, v: World)
    requires InDesiredCondition(node, Look(w, node.address)) && InDesiredCondition(node, Look(v, node.address))
    ensures SameContent(w, v, node.address)
    ensures Inspectable(node, Look(w, node.address)) && Inspectable(node, Look(v, node.address)) ==> Alike(w, v, node.address)
  {
  }

  /** What a step leaves at its node's address can be inspected, if what it found there could. */
  lemma EffectInspectable(reports: Reports, node: Node, s: Step, before: Option<Observed>, after: Observed)
    requires Faithful(reports)
    requires s.node.(payload := node.payload) == node
    requires Inspectable(node, if before.Some? then before.value else Unobserved)
    requires after == if WorldEffect(reports, s, before).Some? then WorldEffect(reports, s, before).value else Unobserved
    ensures Inspectable(node, after)
  {
    assert s.node.kind == node.kind && s.node.desired == node.desired;
  }

  lemma FinalInspectable(reports: Reports, nodes: seq<Node>, resources: Resources, world: World, orphans: seq<string>,
                         draft: seq<Step>,
                         plan: HostPlan, n: nat)
    requires Faithful(reports)
    requires IsPlan(nodes, resources, world, orphans, draft, plan) && n < |nodes|
    requires Inspectable(nodes[n], Look(world, nodes[n].address))
    ensures Inspectable(nodes[n], Look(FinalMachine(reports, plan, world).world, nodes[n].address))
  {
    var a := nodes[n].address;
    NodeStep(nodes, resources, world, orphans, draft, plan, n);
    NodePlanned(nodes, resources, world, orphans, draft, plan, n);
    FinalAt(reports, plan, world, a);
    var planned := PlanNodes(nodes, resources, world).value;
    PlannedSameNode(nodes[n], resources, world, ActionsOf(planned[..n]), planned[n]);
    hide *;
    LookAt(world, a);
    LookAt(FinalMachine(reports, plan, world).world, a);
    EffectInspectable(reports, nodes[n], planned[n], WorldAt(world, a),
                      Look(FinalMachine(reports, plan, world).world, a));
  }

  lemma AlikeFromEqual(w: World, v: World, a: string)
    requires WorldAt(w, a) == WorldAt(v, a)
    ensures Alike(w, v, a)
  {
  }

  lemma OrphanEffect(reports: Reports, a: string, resource: Resource)
    ensures CallsProvider(OrphanStep(a, resource).action) <==> OrphanAction(resource) != Forget
    ensures forall before :: WorldEffect(reports, OrphanStep(a, resource), before) ==
                             if OrphanAction(resource) == Forget then before else None
  {
  }

  lemma OtherAlike(reports: Reports, nodes: seq<Node>, resources: Resources, world: World, orphans: seq<string>,
                   draft: seq<Step>,
                   plan: HostPlan,
                   k: nat, world': World, stored: Resources,
                   reports2: Reports, orphans2: seq<string>, draft2: seq<Step>, plan2: HostPlan, a: string)
    requires IsPlan(nodes, resources, world, orphans, draft, plan) && a !in Graph.NodeAddresses(nodes)
    requires StoppedAt(reports, plan, world, k, world') && (stored == resources || stored == StartState(plan))
    requires IsPlan(nodes, stored, world', orphans2, draft2, plan2)
    ensures Alike(FinalMachine(reports2, plan2, world').world, FinalMachine(reports, plan, world).world, a)
  {
    hide *;
    OtherStep(nodes, resources, world, orphans, draft, plan, a);
    OtherStep(nodes, stored, world', orphans2, draft2, plan2, a);
    OrphansUnblockedAgain(reports, nodes, resources, world, orphans, draft, plan, stored, a);
    FinalAt(reports, plan, world, a);
    FinalAt(reports2, plan2, world', a);
    if a !in resources {
      UntouchedAt(reports, plan, world, k, world', a);
    } else {
      OrphanEffect(reports, a, resources[a]);
      OrphanEffect(reports2, a, stored[a]);
      if OrphanAction(resources[a]) == Forget {
        UntouchedAt(reports, plan, world, k, world', a);
      }
    }
    AlikeFromEqual(FinalMachine(reports2, plan2, world').world, FinalMachine(reports, plan, world).world, a);
  }

  /** Stop after any prefix of the ordered steps, with the interrupted step's own address left in any
      condition and the early write possibly done. Planning again succeeds exactly when no node is refused, which
      can only be the interrupted one; then, for nodes in schedule order against a good state, a plan exists;
      and executing any new plan gives the remote world of the uninterrupted run. */
  lemma CrashTransparent(reports: Reports, nodes: seq<Node>, resources: Resources, world: World, orphans: seq<string>,
                         draft: seq<Step>,
                         plan: HostPlan, k: nat, world': World, stored: Resources, reports2: Reports)
    requires Faithful(reports) && Faithful(reports2)
    requires IsPlan(nodes, resources, world, orphans, draft, plan)
    requires Graph.WellAddressed(nodes) && forall n :: n in nodes ==> Settleable(n)
    requires StoppedAt(reports, plan, world, k, world') && (stored == resources || stored == StartState(plan))
    ensures PlanNodes(nodes, stored, world').Ok? <==> forall n :: n in nodes ==> !Refused(n, stored, world')
    ensures forall n :: n in nodes && Refused(n, stored, world') ==> InterruptedAt(plan, k, n.address) && TableAtRisk(n, resources)
    ensures forall a :: a in stored && a !in Graph.NodeAddresses(nodes) ==> !OrphanBlocked(stored[a])
    ensures PlanNodes(nodes, stored, world').Ok? && InScheduleOrder(nodes) && GoodState(resources) ==>
              exists orphans2, draft2, plan2 :: IsPlan(nodes, stored, world', orphans2, draft2, plan2)
    ensures forall orphans2, draft2, plan2 :: IsPlan(nodes, stored, world', orphans2, draft2, plan2) ==>
              EndsAlike(reports, nodes, world, plan, reports2, world', plan2)
  {
    hide *;
    PlansUnlessRefused(reports, nodes, resources, world, orphans, draft, plan, k, world', stored);
    forall n | n in nodes && Refused(n, stored, world') ensures InterruptedAt(plan, k, n.address) && TableAtRisk(n, resources) {
      var i :| 0 <= i < |nodes| && nodes[i] == n;
      RefusedWasInterrupted(reports, nodes, resources, world, orphans, draft, plan, k, world', stored, i);
    }
    forall a | a in stored && a !in Graph.NodeAddresses(nodes) ensures !OrphanBlocked(stored[a]) {
      OrphansUnblockedAgain(reports, nodes, resources, world, orphans, draft, plan, stored, a);
    }
    if PlanNodes(nodes, stored, world').Ok? && InScheduleOrder(nodes) && GoodState(resources) {
      EarlyWriteGood(nodes, resources, world, orphans, draft, plan);
      GoodParts(stored);
      PlanExists(nodes, stored, world');
    }
    forall orphans2, draft2, plan2 | IsPlan(nodes, stored, world', orphans2, draft2, plan2)
      ensures EndsAlike(reports, nodes, world, plan, reports2, world', plan2)
    {
      SameWorld(reports, nodes, resources, world, orphans, draft, plan, k, world', stored, reports2, orphans2, draft2,
                plan2);
    }
  }

  /** Both executions leave the same content everywhere; and, where inspections can have reported both starting
      worlds, the same objects. */
  ghost predicate EndsAlike(reports: Reports, nodes: seq<Node>, world: World, plan: HostPlan,
                            reports2: Reports, world': World, plan2: HostPlan)
  {
    var v, w := FinalMachine(reports, plan, world).world, FinalMachine(reports2, plan2, world').world;
    && (forall a :: SameContent(w, v, a))
    && (AllInspectable(nodes, world) && AllInspectable(nodes, world') ==> forall a :: Alike(w, v, a))
  }

  lemma SameWorld(reports: Reports, nodes: seq<Node>, resources: Resources, world: World, orphans: seq<string>,
                  draft: seq<Step>,
                  plan: HostPlan, k: nat, world': World, stored: Resources,
                  reports2: Reports, orphans2: seq<string>, draft2: seq<Step>, plan2: HostPlan)
    requires Faithful(reports) && Faithful(reports2)
    requires IsPlan(nodes, resources, world, orphans, draft, plan)
    requires Graph.WellAddressed(nodes) && forall n :: n in nodes ==> Settleable(n)
    requires StoppedAt(reports, plan, world, k, world') && (stored == resources || stored == StartState(plan))
    requires IsPlan(nodes, stored, world', orphans2, draft2, plan2)
    ensures EndsAlike(reports, nodes, world, plan, reports2, world', plan2)
  {
    hide IsPlan, StoppedAt, Settleable, FinalMachine, Alike, SameContent, StartState, Graph.WellAddressed, AllInspectable;
    forall a
      ensures SameContent(FinalMachine(reports2, plan2, world').world, FinalMachine(reports, plan, world).world, a)
      ensures AllInspectable(nodes, world) && AllInspectable(nodes, world') ==>
                Alike(FinalMachine(reports2, plan2, world').world, FinalMachine(reports, plan, world).world, a)
    {
      SameWorldAt(reports, nodes, resources, world, orphans, draft, plan, k, world', stored, reports2, orphans2,
                  draft2, plan2, a);
    }
  }

  lemma PlansUnlessRefused(reports: Reports, nodes: seq<Node>, resources: Resources, world: World, orphans: seq<string>,
                           draft: seq<Step>, plan: HostPlan, k: nat, world': World, stored: Resources)
    requires IsPlan(nodes, resources, world, orphans, draft, plan)
    requires forall n :: n in nodes ==> Settleable(n)
    requires StoppedAt(reports, plan, world, k, world') && (stored == resources || stored == StartState(plan))
    ensures PlanNodes(nodes, stored, world').Ok? <==> forall n :: n in nodes ==> !Refused(n, stored, world')
  {
    hide *;
    if forall n :: n in nodes ==> !Refused(n, stored, world') {
      forall n | 0 <= n < |nodes| ensures Plannable(nodes[n], stored, world') {
        assert nodes[n] in nodes;
        NodePlannableAgain(reports, nodes, resources, world, orphans, draft, plan, k, world', stored, n);
      }
      AllPlannable(nodes, stored, world');
    } else {
      var n :| n in nodes && Refused(n, stored, world');
      var i :| 0 <= i < |nodes| && nodes[i] == n;
      if PlanNodes(nodes, stored, world').Ok? {
        PlannedNotRefused(nodes, stored, world', i);
      }
    }
  }

  /** Every interruption can be planned again exactly when the plan changes no untracked nftables table that
      may not be adopted: a reader of the plan can tell. */
  lemma RestartAlwaysPlansExactly(reports: Reports, nodes: seq<Node>, resources: Resources, world: World,
                                  orphans: seq<string>,
                                  draft: seq<Step>, plan: HostPlan, stored: Resources)
    requires Faithful(reports)
    requires IsPlan(nodes, resources, world, orphans, draft, plan)
    requires Graph.WellAddressed(nodes) && forall n :: n in nodes ==> Settleable(n)
    requires stored == resources || stored == StartState(plan)
    ensures (forall k, world' :: StoppedAt(reports, plan, world, k, world') ==> PlanNodes(nodes, stored, world').Ok?) <==>
            forall s, n :: s in plan.steps && n in nodes && s.address == n.address && CallsProvider(s.action) ==> !TableAtRisk(n, resources)
  {
    hide *;
    if s, n :| s in plan.steps && n in nodes && s.address == n.address && CallsProvider(s.action) && TableAtRisk(n, resources) {
      var k :| 0 <= k < |plan.steps| && plan.steps[k] == s;
      SameTracked(nodes, resources, world, orphans, draft, plan, stored, n.address);
      var world' := LeftUnmarked(reports, plan, world, k);
      LeftRefused(n, resources, stored, world');
      PlansUnlessRefused(reports, nodes, resources, world, orphans, draft, plan, k, world', stored);
    } else {
      forall k, world' | StoppedAt(reports, plan, world, k, world') ensures PlanNodes(nodes, stored, world').Ok? {
        PlansUnlessRefused(reports, nodes, resources, world, orphans, draft, plan, k, world', stored);
        forall n | n in nodes ensures !Refused(n, stored, world') {
          if Refused(n, stored, world') {
            var i :| 0 <= i < |nodes| && nodes[i] == n;
            RefusedWasInterrupted(reports, nodes, resources, world, orphans, draft, plan, k, world', stored, i);
            InterruptedStep(plan, k, n.address);
          }
        }
      }
    }
  }

  lemma InterruptedStep(plan: HostPlan, k: nat, a: string)
    requires InterruptedAt(plan, k, a)
    ensures exists s :: s in plan.steps && s.address == a && CallsProvider(s.action)
  {
    assert plan.steps[k] in plan.steps;
  }

  const Unmarked := Observed(true, None, NoDigest, false, false)

  /** A run can stop at any step that calls the provider with an unmarked object at its address. */
  lemma LeftUnmarked(reports: Reports, plan: HostPlan, world: World, k: nat) returns (world': World)
    requires k < |plan.steps| && CallsProvider(plan.steps[k].action)
    ensures StoppedAt(reports, plan, world, k, world') && Look(world', plan.steps[k].address) == Unmarked
  {
    world' := PerformAll(reports, Machine(StartState(plan), world), plan.steps[..k]).world[plan.steps[k].address := Unmarked];
  }

  lemma LeftRefused(n: Node, resources: Resources, stored: Resources, world: World)
    requires TableAtRisk(n, resources) && Look(world, n.address) == Unmarked
    requires n.address in stored <==> n.address in resources
    ensures Refused(n, stored, world)
  {
  }

  const Table := NoNode.(address := "t", kind := "nftables_table", managed := true, sensitive := true)

  lemma TablePlanned()
    ensures PlanNodes([Table], map[], map[]).Ok? && PlanNodes([Table], map[], map[]).value[0].action == Create
  {
    assert [Table][..0] == [];
    assert PlanNodes([], map[], map[]) == Ok([]);
    assert PlanOne(Table, map[], map[], map[]).Ok?;
  }

  /** The one failure is real: creating a table on an empty host, stopped with the table there but not its marker. */
  lemma InterruptedTableIsRefused(reports: Reports)
    ensures Settleable(Table) && InScheduleOrder([Table]) && GoodState(map[])
    ensures exists orphans, draft, plan, world' :: IsPlan([Table], map[], map[], orphans, draft, plan) &&
              StoppedAt(reports, plan, map[], 0, world') && AllInspectable([Table], map[]) && AllInspectable([Table], world') &&
              PlanNodes([Table], map[], world') == Err(AdoptionRefused("t"))
  {
    TableFits();
    TablePlanned();
    hide *;
    GoodParts(map[]);
    PlanExists([Table], map[], map[]);
    var orphans, draft, plan :| IsPlan([Table], map[], map[], orphans, draft, plan);
    OnlyStep(orphans, draft, plan);
    var world' := LeftUnmarked(reports, plan, map[], 0);
    RefusedNow(world');
  }

  lemma TableFits()
    ensures Settleable(Table) && InScheduleOrder([Table]) && GoodState(map[]) && AllInspectable([Table], map[])
  {
    RankedState(map[], x => 0);
    assert Graph.NodeAddresses([Table]) == ["t"];
  }

  lemma OnlyStep(orphans: seq<string>, draft: seq<Step>, plan: HostPlan)
    requires IsPlan([Table], map[], map[], orphans, draft, plan)
    ensures |plan.steps| > 0 && plan.steps[0].address == "t" && CallsProvider(plan.steps[0].action)
  {
    TablePlanned();
    NodeStep([Table], map[], map[], orphans, draft, plan, 0);
    DraftShape([Table], map[], map[], orphans, draft);
    PlanOrder([Table], map[], map[], orphans, draft, plan);
    PlanSteps([Table], map[], map[], orphans, draft, plan);
    hide IsPlan, PlanNodes, PlanOne;
    assert plan.steps != [];
    assert StepAddresses(plan.steps)[0] in StepAddresses(draft);
    if orphans != [] { HasMember(orphans); }
    StepForAt(plan.steps, 0);
  }

  lemma RefusedNow(world: World)
    requires Look(world, "t") == Unmarked
    ensures PlanNodes([Table], map[], world) == Err(AdoptionRefused("t")) && AllInspectable([Table], world)
  {
    assert [Table][..0] == [];
    assert PlanNodes([], map[], world) == Ok([]);
  }

  lemma SameWorldAt(reports: Reports, nodes: seq<Node>, resources: Resources, world: World, orphans: seq<string>,
                    draft: seq<Step>, plan: HostPlan,
                    k: nat, world': World, stored: Resources,
                    reports2: Reports, orphans2: seq<string>, draft2: seq<Step>, plan2: HostPlan, a: string)
    requires Faithful(reports) && Faithful(reports2)
    requires IsPlan(nodes, resources, world, orphans, draft, plan)
    requires Graph.WellAddressed(nodes) && forall n :: n in nodes ==> Settleable(n)
    requires StoppedAt(reports, plan, world, k, world') && (stored == resources || stored == StartState(plan))
    requires IsPlan(nodes, stored, world', orphans2, draft2, plan2)
    ensures SameContent(FinalMachine(reports2, plan2, world').world, FinalMachine(reports, plan, world).world, a)
    ensures AllInspectable(nodes, world) && AllInspectable(nodes, world') ==>
              Alike(FinalMachine(reports2, plan2, world').world, FinalMachine(reports, plan, world).world, a)
  {
    if a in Graph.NodeAddresses(nodes) {
      var n :| 0 <= n < |nodes| && Graph.NodeAddresses(nodes)[n] == a;
      NodeSettles(reports, nodes, resources, world, orphans, draft, plan, n);
      NodeSettles(reports2, nodes, stored, world', orphans2, draft2, plan2, n);
      assert nodes[n] in nodes;
      if AllInspectable(nodes, world) && AllInspectable(nodes, world') {
        FinalInspectable(reports, nodes, resources, world, orphans, draft, plan, n);
        FinalInspectable(reports2, nodes, stored, world', orphans2, draft2, plan2, n);
      }
      hide *;
      SameCondition(nodes[n], FinalMachine(reports2, plan2, world').world, FinalMachine(reports, plan, world).world);
    } else {
      OtherAlike(reports, nodes, resources, world, orphans, draft, plan, k, world', stored, reports2, orphans2,
                 draft2, plan2, a);
      AlikeIsSameContent(FinalMachine(reports2, plan2, world').world, FinalMachine(reports, plan, world).world, a);
    }
  }

  lemma AlikeIsSameContent(w: World, v: World, a: string)
    requires Alike(w, v, a)
    ensures SameContent(w, v, a)
  {
  }
}
