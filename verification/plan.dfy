/** Planning one host: reconcile desired nodes, tracked state and observed remote objects into steps. */
module Planning {
  import opened Addresses
  import opened Model
  import opened DependencyOrder
  import Graph = ResourceGraph

  type Resources = map<string, Resource>
  type World = map<string, Observed>
  type Actions = map<string, Action>

  datatype PlanError =
    | InspectFailed(address: string)
    | NoCleanupIdentity(address: string)
    | AdoptionRefused(address: string)
    | PreventDestroyBlocks(address: string, action: Action)
    | Unordered(error: OrderError)

  datatype HostPlan = HostPlan(steps: seq<Step>, moved: bool, priorResources: Resources, statePrewrite: bool)

  // ---- attribute access ----

  /** Go's `value, _ := desired[name].(string)`. */
  function TextOf(attributes: Attributes, name: string): string
  {
    if name in attributes && attributes[name].Text? then attributes[name].text else ""
  }

  function DesiredBool(attributes: Attributes, name: string): bool
  {
    name in attributes && attributes[name].Flag? && attributes[name].flag
  }

  function DeleteIdentity(desired: Attributes): Attributes
  {
    if "delete" in desired && desired["delete"].Nested? then desired["delete"].fields else map[]
  }

  predicate IsAbsent(node: Node)
  {
    TextOf(node.desired, "ensure") == "absent"
  }

  predicate IsProtectedNode(node: Node)
  {
    node.sensitive || node.ephemeral
  }

  function Look(world: World, address: string): Observed
  {
    if address in world then world[address] else Unobserved
  }

  function Find(resources: Resources, address: string): Option<Resource>
  {
    if address in resources then Some(resources[address]) else None
  }

  // ---- planNode ----

  function EffectiveDigest(observed: Observed): Digest
  {
    if observed.digest == NoDigest && observed.values.Some? then HashOf(observed.values.value) else observed.digest
  }

  /** The reconciliation of one node against its prior resource and its observation. */
  function PlanNode(node: Node, prior: Option<Resource>, observed: Observed): Action
  {
    var want := HashOf(node.desired);
    var seen := EffectiveDigest(observed);
    if IsAbsent(node) then
      if observed.present then Delete
      else if prior.Some? && prior.value.desiredDigest != want then Adopt
      else NoOp
    else if prior.None? then
      if !observed.present then Create
      else if DesiredBool(node.desired, "content_write_only") then Update
      else if seen == want then Adopt
      else Update
    else
      if !observed.present then Create
      else if DesiredBool(node.desired, "content_write_only") && prior.value.desiredDigest != want then Update
      else if seen == want && prior.value.desiredDigest != want then Adopt
      else if prior.value.desiredDigest != want then Update
      else if seen != want then Update
      else NoOp
  }

  // ---- protected priors and component identities ----

  /** The kinds whose earlier remote identity must be cleaned up: (payload key, identity key). */
  function IdentityKeys(kind: string): Option<(string, string)>
  {
    if kind == "component_artifact_source" then Some(("prior_delete_path", "path"))
    else if kind == "component_ca_certificate" then Some(("prior_trust_marker", "trust_marker"))
    else None
  }

  predicate Reclassified(node: Node, prior: Option<Resource>)
  {
    prior.Some? && IsProtectedNode(node) && !prior.value.isProtected
  }

  /** `planProtectedPrior`, applied when the node is protected. */
  function PlannedPrior(node: Node, prior: Option<Resource>): Option<Resource>
  {
    if prior.None? || !IsProtectedNode(node) then prior
    else
      var kept := prior.value.(isProtected := true);
      Some(if prior.value.isProtected then kept
           else kept.(desiredDigest := NoDigest, delete := DeleteIdentity(node.desired)))
  }

  /** A public identity that the prior state still records moves into the step's payload. */
  function PlannedNode(node: Node, prior: Option<Resource>): Node
  {
    if Reclassified(node, prior) && IdentityKeys(node.kind).Some? then
      var (payloadKey, key) := IdentityKeys(node.kind).value;
      var old' := TextOf(prior.value.delete, key);
      if old' == "" then node else node.(payload := node.payload[payloadKey := Text(old')])
    else node
  }

  predicate RequiresMigration(step: Step)
  {
    step.reclassified && IdentityKeys(step.node.kind).Some?
  }

  predicate HasMigrationIdentity(step: Step)
  {
    IdentityKeys(step.node.kind).Some? && TextOf(step.node.payload, IdentityKeys(step.node.kind).value.0) != ""
  }

  /** `componentPriorIdentityCleanupPending`. */
  predicate CleanupPending(node: Node, prior: Option<Resource>)
  {
    IdentityKeys(node.kind).Some? &&
    var (payloadKey, key) := IdentityKeys(node.kind).value;
    var current := TextOf(node.desired, key);
    if payloadKey in node.payload then Differs(node.payload[payloadKey], current)
    else prior.Some? && key in prior.value.delete && Differs(prior.value.delete[key], current)
  }

  predicate Differs(raw: Attr, current: string)
  {
    !raw.Text? || raw.text == "" || raw.text != current
  }

  /** An nftables table that nobody tracks and that does not carry the engine's marker is not taken over unasked. */
  predicate RefusesAdoption(node: Node, prior: Option<Resource>, observed: Observed)
  {
    && node.kind == "nftables_table" && prior.None? && observed.present && !observed.managed
    && !DesiredBool(node.desired, "adopt_existing")
  }

  // ---- trigger propagation ----

  predicate ChangesRemote(action: Action)
  {
    action == Create || action == Update || action == Delete || action == Destroy
  }

  /** `changedRemoteTriggers`: the triggers that will change their remote object, in list order. */
  function ChangedTriggers(triggers: seq<string>, actions: Actions): seq<string>
  {
    if triggers == [] then []
    else
      var n := |triggers| - 1;
      ChangedTriggers(triggers[..n], actions) +
      if triggers[n] in actions && ChangesRemote(actions[triggers[n]]) then [triggers[n]] else []
  }

  /** `apkDependenciesChanged`. */
  predicate ApkDependenciesChanged(dependencies: seq<string>, actions: Actions)
  {
    exists d :: d in dependencies && d in actions && actions[d] != NoOp
  }

  /** `protectedArtifactInstallUsesIndependentVerification`. */
  predicate IndependentlyVerified(node: Node)
  {
    && DesiredBool(node.desired, "content_verified")
    && (DesiredBool(node.desired, "content_sha256_sensitive") || DesiredBool(node.desired, "content_sha256_ephemeral"))
    && node.kind in {"component_binary", "component_file", "component_archive", "component_ca_certificate"}
  }

  function Redo(observed: Observed): Action
  {
    if observed.present then Update else Create
  }

  /** The action a node would get on its own, before apk and trigger propagation. */
  function OwnAction(node: Node, prior: Option<Resource>, observed: Observed): Action
  {
    var planned := PlannedPrior(node, prior);
    var base := PlanNode(node, planned, observed);
    if CleanupPending(PlannedNode(node, prior), planned) && (base == NoOp || base == Adopt) then Update else base
  }

  function AfterApk(node: Node, own: Action, observed: Observed, actions: Actions): Action
  {
    if node.kind == "apk_update" && ApkDependenciesChanged(node.dependsOn, actions) then Redo(observed) else own
  }

  predicate TriggerApplies(node: Node, action: Action, actions: Actions)
  {
    ChangedTriggers(node.triggeredBy, actions) != [] && (action == NoOp || action == Adopt)
  }

  function FinalAction(node: Node, own: Action, observed: Observed, actions: Actions): Action
  {
    var action := AfterApk(node, own, observed, actions);
    if TriggerApplies(node, action, actions) && !IndependentlyVerified(node) then Redo(observed) else action
  }

  /** One iteration of planHost's node loop. */
  function PlanOne(node: Node, resources: Resources, world: World, actions: Actions): Result<Step, PlanError>
  {
    var prior := Find(resources, node.address);
    var observed := Look(world, node.address);
    var own := OwnAction(node, prior, observed);
    var action := FinalAction(node, own, observed, actions);
    var exempt := TriggerApplies(node, AfterApk(node, own, observed, actions), actions) && IndependentlyVerified(node);
    var step := Step(node.address, action, PlannedNode(node, prior), PlannedPrior(node, prior),
                     observed.(digest := EffectiveDigest(observed)),
                     if exempt then [] else ChangedTriggers(node.triggeredBy, actions),
                     Reclassified(node, prior));
    if RequiresMigration(step) && !HasMigrationIdentity(step) then Err(NoCleanupIdentity(node.address))
    else if RefusesAdoption(node, prior, observed) then Err(AdoptionRefused(node.address))
    else if RemovesRemoteObject(action) && node.preventDestroy then Err(PreventDestroyBlocks(node.address, action))
    else Ok(step)
  }

  function ActionsOf(steps: seq<Step>): Actions
  {
    if steps == [] then map[]
    else ActionsOf(steps[..|steps| - 1])[steps[|steps| - 1].address := steps[|steps| - 1].action]
  }

  /** The node loop of planHost: one pass, each node seeing the actions planned before it. */
  function PlanNodes(nodes: seq<Node>, resources: Resources, world: World): Result<seq<Step>, PlanError>
  {
    if nodes == [] then Ok([])
    else
      var n := |nodes| - 1;
      var before := PlanNodes(nodes[..n], resources, world);
      if before.Err? then before
      else
        var last := PlanOne(nodes[n], resources, world, ActionsOf(before.value));
        if last.Err? then Err(last.error) else Ok(before.value + [last.value])
  }

  lemma PlanOneAddress(node: Node, resources: Resources, world: World, actions: Actions)
    ensures var r := PlanOne(node, resources, world, actions); r.Ok? ==> r.value.address == node.address
  {
  }

  /** The k-th planned step is PlanOne of the k-th node, given the actions planned before it. */
  lemma {:induction false} PlanNodesShape(nodes: seq<Node>, resources: Resources, world: World)
    requires PlanNodes(nodes, resources, world).Ok?
    ensures var steps := PlanNodes(nodes, resources, world).value;
            |steps| == |nodes| &&
            (forall k :: 0 <= k < |nodes| ==>
              steps[k].address == nodes[k].address &&
              PlanOne(nodes[k], resources, world, ActionsOf(steps[..k])) == Ok(steps[k]))
  {
    hide PlanOne, ActionsOf;
    if nodes != [] {
      var n := |nodes| - 1;
      PlanNodesShape(nodes[..n], resources, world);
      var steps, before := PlanNodes(nodes, resources, world).value, PlanNodes(nodes[..n], resources, world).value;
      assert steps[..n] == before;
      forall k | 0 <= k < |nodes|
        ensures steps[k].address == nodes[k].address && PlanOne(nodes[k], resources, world, ActionsOf(steps[..k])) == Ok(steps[k])
      {
        PlanOneAddress(nodes[k], resources, world, ActionsOf(steps[..k]));
        if k < n {
          assert before[..k] == steps[..k];
          assert nodes[..n][k] == nodes[k];
        }
      }
    }
  }

  // ---- orphans ----

  function OrphanAction(resource: Resource): Action
  {
    if resource.deleteBehavior == "delete" then Delete
    else if resource.deleteBehavior == "destroy" then Destroy
    else Forget
  }

  predicate OrphanBlocked(resource: Resource)
  {
    resource.preventDestroy && RemovesRemoteObject(OrphanAction(resource))
  }

  function OrphanStep(address: string, resource: Resource): Step
  {
    Step(address, OrphanAction(resource), NoNode, Some(resource), Unobserved, [], false)
  }

  /** Later-created orphans first; equal orders by descending address. */
  predicate OrphanBefore(resources: Resources, a: string, b: string)
    requires a in resources && b in resources
  {
    resources[a].order > resources[b].order || (resources[a].order == resources[b].order && Less(b, a))
  }

  ghost predicate OrphansSorted(resources: Resources, orphans: seq<string>)
  {
    && (forall a :: a in orphans ==> a in resources)
    && (forall i, j :: 0 <= i < j < |orphans| ==> OrphanBefore(resources, orphans[i], orphans[j]))
  }

  function OrphanSteps(resources: Resources, orphans: seq<string>): (steps: seq<Step>)
    requires forall a :: a in orphans ==> a in resources
    ensures |steps| == |orphans|
    ensures forall i :: 0 <= i < |steps| ==>
              orphans[i] in orphans && steps[i] == OrphanStep(orphans[i], resources[orphans[i]])
  {
    seq(|orphans|, i requires 0 <= i < |orphans| && orphans[i] in orphans => OrphanStep(orphans[i], resources[orphans[i]]))
  }

  /** The steps planHost hands to the ordering: one per node, then one per tracked resource without a node. */
  ghost predicate IsDraft(nodes: seq<Node>, resources: Resources, world: World, orphans: seq<string>, steps: seq<Step>)
  {
    && PlanNodes(nodes, resources, world).Ok?
    && OrphansSorted(resources, orphans)
    && (forall a :: a in orphans <==> a in resources && a !in Graph.NodeAddresses(nodes))
    && (forall a :: a in orphans ==> !OrphanBlocked(resources[a]))
    && steps == PlanNodes(nodes, resources, world).value + OrphanSteps(resources, orphans)
  }

  /** A finished plan: an execution order of a draft. */
  ghost predicate IsPlan(nodes: seq<Node>, resources: Resources, world: World,
                         orphans: seq<string>, draft: seq<Step>, plan: HostPlan)
  {
    && IsDraft(nodes, resources, world, orphans, draft)
    && WellAddressed(draft)
    && |ExecutionOrder(draft)| == |draft|
    && StepAddresses(plan.steps) == ExecutionOrder(draft)
    && (forall s :: s in plan.steps ==> s in draft)
    && plan.priorResources == PriorOf(resources, draft)
    && (plan.statePrewrite <==> exists s :: s in draft && s.reclassified)
  }

  /** The prior state a plan carries: protected nodes' priors are scrubbed. */
  function PriorOf(resources: Resources, steps: seq<Step>): Resources
  {
    if steps == [] then resources
    else
      var s := steps[|steps| - 1];
      var before := PriorOf(resources, steps[..|steps| - 1]);
      if s.prior.Some? then before[s.address := s.prior.value] else before
  }
}
