/** What planning one node decides, said of the node's attributes, the tracked record and the observation alone. */
module PlanDecisions {
  import opened Model
  import opened DependencyOrder
  import opened Planning
  import opened Remoting
  import opened Effects

  /** The node is protected, but what is tracked of it is not. */
  predicate NewlyShielded(node: Node, resources: Resources)
  {
    node.address in resources && (node.sensitive || node.ephemeral) && !resources[node.address].isProtected
  }

  /** The record that a plan carries for a tracked node: a newly protected one loses its digest and takes over the delete
      identity of the node, and every protected one is marked. */
  predicate CarriedRecord(node: Node, before: Resource, after: Resource)
  {
    if !node.sensitive && !node.ephemeral then after == before
    else
      && after.isProtected && after.kind == before.kind && after.order == before.order && after.dependsOn == before.dependsOn
      && after.preventDestroy == before.preventDestroy && after.deleteBehavior == before.deleteBehavior
      && if before.isProtected then after.desiredDigest == before.desiredDigest && after.delete == before.delete
         else
           && after.desiredDigest == NoDigest
           && after.delete == if "delete" in node.desired && node.desired["delete"].Nested? then node.desired["delete"].fields
                              else map[]
  }

  /** A step carries the node, the record and the observation it was planned from. */
  lemma StepCarries(node: Node, resources: Resources, world: World, actions: Actions, s: Step)
    requires PlanOne(node, resources, world, actions) == Ok(s)
    ensures var a := node.address;
            && s.address == a && s.node.(payload := node.payload) == node
            && (s.prior.Some? <==> a in resources) && (a in resources ==> CarriedRecord(node, resources[a], s.prior.value))
            && (s.reclassified <==> NewlyShielded(node, resources))
    ensures var observed := if node.address in world then world[node.address] else Observed(false, None, NoDigest, false, false);
            && s.observed.(digest := observed.digest) == observed
            && (s.observed.digest == HashOf(node.desired) <==> AsWanted(node, observed))
  {
    StepParts(node, resources, world, actions, s);
    RecordCarried(node, resources);
    ObservedExactly(node, Look(world, node.address));
    hide PlanOne, PlannedPrior, CarriedRecord, EffectiveDigest, AsWanted;
  }

  lemma StepParts(node: Node, resources: Resources, world: World, actions: Actions, s: Step)
    requires PlanOne(node, resources, world, actions) == Ok(s)
    ensures s.address == node.address && s.node.(payload := node.payload) == node
    ensures s.prior == PlannedPrior(node, Find(resources, node.address))
    ensures s.reclassified == Reclassified(node, Find(resources, node.address))
    ensures var observed := Look(world, node.address); s.observed == observed.(digest := EffectiveDigest(observed))
  {
    hide PlannedPrior, FinalAction, OwnAction, RefusesAdoption, RequiresMigration, HasMigrationIdentity, EffectiveDigest,
      TriggerApplies, IndependentlyVerified, AfterApk, ChangedTriggers;
  }

  lemma RecordCarried(node: Node, resources: Resources)
    ensures var prior := Find(resources, node.address);
            && (PlannedPrior(node, prior).Some? <==> node.address in resources)
            && (node.address in resources ==>
                  CarriedRecord(node, resources[node.address], PlannedPrior(node, prior).value))
            && (Reclassified(node, prior) <==> NewlyShielded(node, resources))
  {
  }

  lemma ObservedExactly(node: Node, observed: Observed)
    ensures EffectiveDigest(observed) == HashOf(node.desired) <==> AsWanted(node, observed)
  {
  }

  // ---- the identities of artifacts and certificates ----

  /** The attributes hold a text that is not empty. */
  predicate Names(attributes: Attributes, key: string)
  {
    key in attributes && attributes[key].Text? && attributes[key].text != ""
  }

  /** The two kinds that leave something behind on the host when their identity changes: the key of the payload that
      carries the earlier identity, and the key of the identity itself. */
  predicate LeavesBehind(kind: string, payloadKey: string, key: string)
  {
    || (kind == "component_artifact_source" && payloadKey == "prior_delete_path" && key == "path")
    || (kind == "component_ca_certificate" && payloadKey == "prior_trust_marker" && key == "trust_marker")
  }

  lemma KeysExactly(kind: string, payloadKey: string, key: string)
    ensures IdentityKeys(kind) == Some((payloadKey, key)) <==> LeavesBehind(kind, payloadKey, key)
    ensures IdentityKeys(kind).Some? <==> kind == "component_artifact_source" || kind == "component_ca_certificate"
  {
  }

  /** A newly protected node hands the identity that is still recorded in public to its step's payload; no other payload
      is touched. */
  lemma StepPayload(node: Node, resources: Resources, world: World, actions: Actions, s: Step, payloadKey: string,
                    key: string)
    requires PlanOne(node, resources, world, actions) == Ok(s)
    ensures NewlyShielded(node, resources) && LeavesBehind(node.kind, payloadKey, key) ==>
              s.node.payload == if Names(resources[node.address].delete, key)
                                then node.payload[payloadKey := resources[node.address].delete[key]] else node.payload
    ensures !NewlyShielded(node, resources) || node.kind !in {"component_artifact_source", "component_ca_certificate"} ==>
              s.node.payload == node.payload
  {
    StepNodeIs(node, resources, world, actions, s);
    hide PlanOne, PlannedNode, NewlyShielded, LeavesBehind, Names;
    PayloadExactly(node, resources, payloadKey, key);
  }

  lemma StepNodeIs(node: Node, resources: Resources, world: World, actions: Actions, s: Step)
    requires PlanOne(node, resources, world, actions) == Ok(s)
    ensures s.node == PlannedNode(node, Find(resources, node.address))
  {
    hide PlannedNode, PlannedPrior, FinalAction, OwnAction, RefusesAdoption, RequiresMigration, HasMigrationIdentity, EffectiveDigest,
      TriggerApplies, IndependentlyVerified, AfterApk, ChangedTriggers, Reclassified;
  }

  lemma PayloadExactly(node: Node, resources: Resources, payloadKey: string, key: string)
    ensures var planned := PlannedNode(node, Find(resources, node.address));
            && planned.kind == node.kind
            && (NewlyShielded(node, resources) && LeavesBehind(node.kind, payloadKey, key) ==>
                  planned.payload == if Names(resources[node.address].delete, key)
                                     then node.payload[payloadKey := resources[node.address].delete[key]] else node.payload)
            && (!NewlyShielded(node, resources) || node.kind !in {"component_artifact_source", "component_ca_certificate"} ==>
                  planned.payload == node.payload)
  {
    KeysExactly(node.kind, payloadKey, key);
    hide IdentityKeys, LeavesBehind;
  }

  /** An identity is to be cleaned up exactly when an earlier one is known, from the payload or else from the record, and
      is not the wanted one. */
  lemma CleanupExactly(node: Node, prior: Option<Resource>, payloadKey: string, key: string)
    requires LeavesBehind(node.kind, payloadKey, key)
    ensures CleanupPending(node, prior) <==>
            var known := if payloadKey in node.payload then Some(node.payload[payloadKey])
                         else if prior.Some? && key in prior.value.delete then Some(prior.value.delete[key]) else None;
            known.Some? && !(Names(node.desired, key) && known.value == node.desired[key])
  {
    KeysExactly(node.kind, payloadKey, key);
  }

  /** Whatever is to be cleaned up, the provider gets to see it. */
  lemma CleanupIsCarriedOut(node: Node, resources: Resources, world: World, actions: Actions, s: Step)
    requires PlanOne(node, resources, world, actions) == Ok(s) && CleanupPending(s.node, s.prior)
    ensures s.action in {Create, Update, Delete}
  {
  }

  /** A migration is required of exactly the newly protected nodes of those kinds, and can be done when the payload names
      the identity. */
  lemma MigrationExactly(step: Step, payloadKey: string, key: string)
    ensures RequiresMigration(step) <==>
            step.reclassified && (step.node.kind == "component_artifact_source" || step.node.kind == "component_ca_certificate")
    ensures LeavesBehind(step.node.kind, payloadKey, key) ==>
              (HasMigrationIdentity(step) <==> Names(step.node.payload, payloadKey))
  {
    KeysExactly(step.node.kind, payloadKey, key);
  }

  // ---- refusals ----

  /** A newly protected artifact or certificate whose earlier identity nothing names. */
  predicate IdentityMissing(node: Node, resources: Resources)
  {
    && NewlyShielded(node, resources)
    && ((node.kind == "component_artifact_source" && !Names(resources[node.address].delete, "path") &&
         !Names(node.payload, "prior_delete_path")) ||
        (node.kind == "component_ca_certificate" && !Names(resources[node.address].delete, "trust_marker") &&
         !Names(node.payload, "prior_trust_marker")))
  }

  /** A table that is there, is not tracked, carries no marker, and may not be adopted. */
  predicate ForeignTable(node: Node, resources: Resources, world: World)
  {
    && node.kind == "nftables_table" && node.address !in resources && node.address in world
    && world[node.address].present && !world[node.address].managed
    && !("adopt_existing" in node.desired && node.desired["adopt_existing"] == Flag(true))
  }

  lemma MissingExactly(node: Node, resources: Resources, step: Step)
    requires step.node == PlannedNode(node, Find(resources, node.address))
    requires step.reclassified == Reclassified(node, Find(resources, node.address))
    ensures RequiresMigration(step) && !HasMigrationIdentity(step) <==> IdentityMissing(node, resources)
  {
    ReclassifiedExactly(node, resources);
    MissingFor(node, resources, step, "prior_delete_path", "path");
    MissingFor(node, resources, step, "prior_trust_marker", "trust_marker");
    MigrationExactly(step, "", "");
    PayloadExactly(node, resources, "", "");
    hide PlannedNode, Reclassified, RequiresMigration, HasMigrationIdentity, NewlyShielded, Names;
  }

  lemma ReclassifiedExactly(node: Node, resources: Resources)
    ensures Reclassified(node, Find(resources, node.address)) <==> NewlyShielded(node, resources)
  {
  }

  lemma MissingFor(node: Node, resources: Resources, step: Step, payloadKey: string, key: string)
    requires step.node == PlannedNode(node, Find(resources, node.address))
    requires step.reclassified == Reclassified(node, Find(resources, node.address))
    ensures LeavesBehind(node.kind, payloadKey, key) ==>
              (RequiresMigration(step) && !HasMigrationIdentity(step) <==>
               && NewlyShielded(node, resources) && !Names(resources[node.address].delete, key)
               && !Names(node.payload, payloadKey))
  {
    ReclassifiedExactly(node, resources);
    MigrationExactly(step, payloadKey, key);
    PayloadExactly(node, resources, payloadKey, key);
    hide PlannedNode, Reclassified, RequiresMigration, HasMigrationIdentity, NewlyShielded;
  }

  lemma ForeignExactly(node: Node, resources: Resources, world: World)
    ensures RefusesAdoption(node, Find(resources, node.address), Look(world, node.address)) <==> ForeignTable(node, resources, world)
  {
  }

  /** The three refusals, in this order: a missing identity, a foreign table, and the removal of a remote object that is
      wanted absent but must not be destroyed. */
  lemma RefusedExactly(node: Node, resources: Resources, world: World, actions: Actions)
    ensures var r, a := PlanOne(node, resources, world, actions), node.address;
            && (r == Err(NoCleanupIdentity(a)) <==> IdentityMissing(node, resources))
            && (r == Err(AdoptionRefused(a)) <==> !IdentityMissing(node, resources) && ForeignTable(node, resources, world))
            && (r == Err(PreventDestroyBlocks(a, Delete)) <==>
                  && !IdentityMissing(node, resources) && !ForeignTable(node, resources, world) && node.preventDestroy
                  && "ensure" in node.desired && node.desired["ensure"] == Text("absent")
                  && a in world && world[a].present
                  && !Redone(node, resources, world, actions))
            && (r.Err? ==> r.error in {NoCleanupIdentity(a), AdoptionRefused(a), PreventDestroyBlocks(a, Delete)})
  {
    hide RequiresMigration, HasMigrationIdentity, IdentityMissing, ForeignTable, RefusesAdoption, PlannedNode, Redone;
    forall step: Step | step.node == PlannedNode(node, Find(resources, node.address)) &&
                        step.reclassified == Reclassified(node, Find(resources, node.address))
      ensures RequiresMigration(step) && !HasMigrationIdentity(step) <==> IdentityMissing(node, resources)
    {
      MissingExactly(node, resources, step);
    }
    ForeignExactly(node, resources, world);
    RemovalExactly(node, resources, world, actions);
    hide FinalAction, OwnAction, Reclassified, PlannedPrior, ChangedTriggers, TriggerApplies, AfterApk, IndependentlyVerified;
  }

  /** The package index is done again when a dependency acts, whatever it wanted for itself. */
  predicate Redone(node: Node, resources: Resources, world: World, actions: Actions)
  {
    node.kind == "apk_update" && exists d :: d in node.dependsOn && d in actions && actions[d] != NoOp
  }

  lemma RemovalExactly(node: Node, resources: Resources, world: World, actions: Actions)
    ensures var prior, observed := Find(resources, node.address), Look(world, node.address);
            var action := FinalAction(node, OwnAction(node, prior, observed), observed, actions);
            && action in {Create, Update, Adopt, Delete, NoOp}
            && (action == Delete <==>
                  && "ensure" in node.desired && node.desired["ensure"] == Text("absent")
                  && node.address in world && world[node.address].present && !Redone(node, resources, world, actions))
  {
  }

  // ---- triggers ----

  /** A step names the triggers that change, in list order, each as often as it is listed. */
  lemma {:induction false} TriggersNamed(before: seq<string>, after: seq<string>, actions: Actions)
    ensures ChangedTriggers(before + after, actions) == ChangedTriggers(before, actions) + ChangedTriggers(after, actions)
    decreases |after|
  {
    if after == [] {
      assert before + [] == before;
    } else {
      var n := |after| - 1;
      assert (before + after)[..|before + after| - 1] == before + after[..n];
      TriggersNamed(before, after[..n], actions);
    }
  }

  lemma OneTriggerNamed(trigger: string, actions: Actions)
    ensures ChangedTriggers([trigger], actions) ==
            if trigger in actions && actions[trigger] in {Create, Update, Delete, Destroy} then [trigger] else []
  {
    assert [trigger][..0] == [];
  }

  /** Whether an object is made or changed depends on whether it is there; an absent one is changed only to clean up. */
  lemma MadeOrChanged(node: Node, resources: Resources, world: World, actions: Actions, s: Step)
    requires PlanOne(node, resources, world, actions) == Ok(s)
    ensures s.action == Create ==> !s.observed.present
    ensures s.action == Update && !s.observed.present ==> CleanupPending(s.node, s.prior)
    ensures s.triggeredBy != [] ==> s.triggeredBy == ChangedTriggers(node.triggeredBy, actions) && s.action != NoOp && s.action != Adopt
  {
  }

  // ---- the plan ----

  /** The state that a plan starts from: records of nodes as they are carried, records of orphans untouched. It is written
      early exactly when a tracked node is newly protected. */
  lemma PlanCarries(nodes: seq<Node>, resources: Resources, world: World, orphans: seq<string>, draft: seq<Step>,
                    plan: HostPlan)
    requires IsPlan(nodes, resources, world, orphans, draft, plan)
    ensures forall a :: a in plan.priorResources <==> a in resources
    ensures forall n :: n in nodes && n.address in resources && n.address in plan.priorResources ==>
              CarriedRecord(n, resources[n.address], plan.priorResources[n.address])
    ensures forall a :: a in resources && a in plan.priorResources && a !in Graph.NodeAddresses(nodes) ==>
              plan.priorResources[a] == resources[a]
    ensures plan.statePrewrite <==> exists n :: n in nodes && NewlyShielded(n, resources)
  {
    hide IsPlan, PlanOne, PlanNodes, CarriedRecord, NewlyShielded, Find;
    forall k: nat | k < |nodes| ensures CarriedAt(nodes, resources, plan, k) {
      NodeCarried(nodes, resources, world, orphans, draft, plan, k);
    }
    forall a | a !in Graph.NodeAddresses(nodes) ensures Find(plan.priorResources, a) == Find(resources, a) {
      OtherStep(nodes, resources, world, orphans, draft, plan, a);
    }
    forall n | n in nodes && n.address in resources && n.address in plan.priorResources
      ensures CarriedRecord(n, resources[n.address], plan.priorResources[n.address])
    {
      var k :| 0 <= k < |nodes| && nodes[k] == n;
      assert CarriedAt(nodes, resources, plan, k);
    }
    forall a ensures a in plan.priorResources <==> a in resources {
      FoundExactly(plan.priorResources, a);
      FoundExactly(resources, a);
      if a in Graph.NodeAddresses(nodes) {
        var k :| 0 <= k < |nodes| && Graph.NodeAddresses(nodes)[k] == a;
        assert CarriedAt(nodes, resources, plan, k);
      }
    }
    forall a | a in resources && a in plan.priorResources && a !in Graph.NodeAddresses(nodes)
      ensures plan.priorResources[a] == resources[a]
    {
      FoundExactly(plan.priorResources, a);
      FoundExactly(resources, a);
    }
    PrewriteExactly(nodes, resources, world, orphans, draft, plan);
  }

  lemma FoundExactly(resources: Resources, a: string)
    ensures Find(resources, a) == if a in resources then Some(resources[a]) else None
  {
  }

  ghost predicate CarriedAt(nodes: seq<Node>, resources: Resources, plan: HostPlan, k: nat)
    requires k < |nodes|
  {
    var a := nodes[k].address;
    (a in plan.priorResources <==> a in resources) &&
    (a in resources ==> CarriedRecord(nodes[k], resources[a], plan.priorResources[a]))
  }

  lemma NodeCarried(nodes: seq<Node>, resources: Resources, world: World, orphans: seq<string>, draft: seq<Step>,
                    plan: HostPlan, k: nat)
    requires IsPlan(nodes, resources, world, orphans, draft, plan) && k < |nodes|
    ensures CarriedAt(nodes, resources, plan, k)
  {
    NodeStep(nodes, resources, world, orphans, draft, plan, k);
    PlanNodesShape(nodes, resources, world);
    var planned := PlanNodes(nodes, resources, world).value;
    StepCarries(nodes[k], resources, world, ActionsOf(planned[..k]), planned[k]);
    hide PlanOne, IsPlan, PlanNodes, CarriedRecord, PlannedPrior;
  }

  lemma PrewriteExactly(nodes: seq<Node>, resources: Resources, world: World, orphans: seq<string>, draft: seq<Step>,
                        plan: HostPlan)
    requires IsPlan(nodes, resources, world, orphans, draft, plan)
    ensures plan.statePrewrite <==> exists n :: n in nodes && NewlyShielded(n, resources)
  {
    PrewriteOfDraft(nodes, resources, world, orphans, draft, plan);
    hide *;
    PlanNodesShape(nodes, resources, world);
    var planned := PlanNodes(nodes, resources, world).value;
    forall k | 0 <= k < |nodes| ensures planned[k].reclassified <==> NewlyShielded(nodes[k], resources) {
      StepParts(nodes[k], resources, world, ActionsOf(planned[..k]), planned[k]);
      RecordCarried(nodes[k], resources);
    }
    SomeReclassified(nodes, planned, resources);
  }

  lemma SomeReclassified(nodes: seq<Node>, planned: seq<Step>, resources: Resources)
    requires |planned| == |nodes|
    requires forall k :: 0 <= k < |nodes| ==> (planned[k].reclassified <==> NewlyShielded(nodes[k], resources))
    ensures (exists s :: s in planned && s.reclassified) <==> exists n :: n in nodes && NewlyShielded(n, resources)
  {
    hide NewlyShielded;
    if n :| n in nodes && NewlyShielded(n, resources) {
      var k :| 0 <= k < |nodes| && nodes[k] == n;
      assert planned[k] in planned;
    }
    if s :| s in planned && s.reclassified {
      var k :| 0 <= k < |planned| && planned[k] == s;
      assert nodes[k] in nodes;
    }
  }

  lemma PrewriteOfDraft(nodes: seq<Node>, resources: Resources, world: World, orphans: seq<string>, draft: seq<Step>,
                        plan: HostPlan)
    requires IsPlan(nodes, resources, world, orphans, draft, plan)
    ensures PlanNodes(nodes, resources, world).Ok?
    ensures plan.statePrewrite <==> exists s :: s in PlanNodes(nodes, resources, world).value && s.reclassified
  {
    hide PlanNodes, WellAddressed, ExecutionOrder, PriorOf, OrphansSorted;
    var planned := PlanNodes(nodes, resources, world).value;
    forall s | s in draft ensures s in planned || !s.reclassified {
      var i :| 0 <= i < |draft| && draft[i] == s;
      if i < |planned| { assert planned[i] == s; }
    }
    forall s | s in planned ensures s in draft {
      var i :| 0 <= i < |planned| && planned[i] == s;
      assert draft[i] == s;
    }
  }
}
