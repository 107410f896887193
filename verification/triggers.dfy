/** One pass over the nodes in schedule order computes the least fixpoint of trigger propagation. */
module Triggers {
  import opened Addresses
  import opened Digraph
  import opened Model
  import opened Planning
  import opened PlanOrdering
  import opened DependencyOrder
  import Graph = ResourceGraph

  function Own(node: Node, resources: Resources, world: World): Action
  {
    OwnAction(node, Find(resources, node.address), Look(world, node.address))
  }

  /** An address acts when it is going to change, or when its own plan is anything but a no-op. */
  ghost predicate Acts(nodes: seq<Node>, resources: Resources, world: World, changing: set<string>, a: string)
  {
    a in changing || exists j :: 0 <= j < |nodes| && nodes[j].address == a && Own(nodes[j], resources, world) != NoOp
  }

  /** Given which addresses change their remote objects, this node has to change its own: because of its own
      plan, because it is the apk index and a dependency acts, or because a trigger changes and the
      node is not verified independently. No order of evaluation is involved. */
  ghost predicate MustChange(nodes: seq<Node>, resources: Resources, world: World, changing: set<string>, node: Node)
  {
    || ChangesRemote(Own(node, resources, world))
    || (node.kind == "apk_update" && exists d :: d in node.dependsOn && Acts(nodes, resources, world, changing, d))
    || ((exists t :: t in node.triggeredBy && t in changing) && !ContentVerified(node))
  }

  /** The artifact kinds whose content is verified against a protected checksum, as the node's own attributes say. */
  predicate ContentVerified(node: Node)
  {
    && node.kind in {"component_binary", "component_file", "component_archive", "component_ca_certificate"}
    && "content_verified" in node.desired && node.desired["content_verified"] == Flag(true)
    && (("content_sha256_sensitive" in node.desired && node.desired["content_sha256_sensitive"] == Flag(true)) ||
        ("content_sha256_ephemeral" in node.desired && node.desired["content_sha256_ephemeral"] == Flag(true)))
  }

  lemma VerifiedExactly(node: Node)
    ensures IndependentlyVerified(node) <==> ContentVerified(node)
  {
  }

  ghost predicate ClosedUnder(nodes: seq<Node>, resources: Resources, world: World, changing: set<string>)
  {
    forall k :: 0 <= k < |nodes| && MustChange(nodes, resources, world, changing, nodes[k]) ==> nodes[k].address in changing
  }

  /** The addresses that the single pass plans to change. */
  ghost function PlannedChanges(steps: seq<Step>): set<string>
  {
    set k | 0 <= k < |steps| && ChangesRemote(steps[k].action) :: steps[k].address
  }

  lemma {:induction false} ChangedTriggersNonempty(triggers: seq<string>, actions: Actions)
    ensures ChangedTriggers(triggers, actions) != [] <==>
            exists t :: t in triggers && t in actions && ChangesRemote(actions[t])
  {
    if triggers != [] {
      var n := |triggers| - 1;
      ChangedTriggersNonempty(triggers[..n], actions);
      assert triggers == triggers[..n] + [triggers[n]];
    }
  }

  /** The actions a node sees are those planned for the nodes before it. */
  lemma {:induction false} ActionsBefore(steps: seq<Step>, k: nat)
    requires k <= |steps| && Distinct(StepAddresses(steps))
    ensures forall j :: 0 <= j < k ==> steps[j].address in ActionsOf(steps[..k]) && ActionsOf(steps[..k])[steps[j].address] == steps[j].action
    ensures forall a :: a in ActionsOf(steps[..k]) ==> exists j :: 0 <= j < k && steps[j].address == a
  {
    if k > 0 {
      ActionsBefore(steps, k - 1);
      assert steps[..k][..k - 1] == steps[..k - 1];
      forall j | 0 <= j < k - 1 ensures steps[j].address != steps[k - 1].address {
        assert StepAddresses(steps)[j] != StepAddresses(steps)[k - 1];
      }
    }
  }

  /** The planned steps of nodes in schedule order, with what the proofs below use of them. */
  ghost predicate IsPass(nodes: seq<Node>, resources: Resources, world: World, steps: seq<Step>)
  {
    && InScheduleOrder(nodes)
    && |steps| == |nodes| && StepAddresses(steps) == Graph.NodeAddresses(nodes)
    && forall k :: 0 <= k < |nodes| ==> PlanOne(nodes[k], resources, world, ActionsOf(steps[..k])) == Ok(steps[k])
  }

  lemma PassShape(nodes: seq<Node>, resources: Resources, world: World)
    requires InScheduleOrder(nodes) && PlanNodes(nodes, resources, world).Ok?
    ensures IsPass(nodes, resources, world, PlanNodes(nodes, resources, world).value)
  {
    PlanNodesShape(nodes, resources, world);
  }

  /** A dependency among the nodes has been planned before the node that names it. */
  lemma DependencyPlanned(nodes: seq<Node>, resources: Resources, world: World, steps: seq<Step>, k: nat,
                          d: string) returns (j: nat)
    requires IsPass(nodes, resources, world, steps) && k < |nodes|
    requires d in nodes[k].dependsOn && d in Graph.NodeAddresses(nodes)
    ensures j < k && nodes[j].address == d == steps[j].address
  {
    var na := Graph.NodeAddresses(nodes);
    assert Precedes(na, d, na[k]);
    var p, q :| 0 <= p < q < |na| && na[p] == d && na[q] == na[k];
    assert q == k;
    assert StepAddresses(steps)[p] == steps[p].address;
    j := p;
  }

  /** What a node sees of its dependency d: exactly what was planned for d. */
  lemma SeenAction(nodes: seq<Node>, resources: Resources, world: World, steps: seq<Step>, k: nat, d: string)
    requires IsPass(nodes, resources, world, steps) && k < |nodes| && d in nodes[k].dependsOn
    ensures var seen := ActionsOf(steps[..k]);
            d in seen <==> exists j :: 0 <= j < |nodes| && nodes[j].address == d
    ensures forall j :: 0 <= j < |nodes| && nodes[j].address == d ==> ActionsOf(steps[..k])[d] == steps[j].action
  {
    ActionsBefore(steps, k);
    var seen := ActionsOf(steps[..k]);
    forall j | 0 <= j < |nodes| && nodes[j].address == d ensures d in seen && seen[d] == steps[j].action {
      assert Graph.NodeAddresses(nodes)[j] == d;
      var i := DependencyPlanned(nodes, resources, world, steps, k, d);
      assert Graph.NodeAddresses(nodes)[i] == d;
    }
    if d in seen {
      var j :| 0 <= j < k && steps[j].address == d;
      assert StepAddresses(steps)[j] == nodes[j].address;
    }
  }

  lemma InChanges(nodes: seq<Node>, resources: Resources, world: World, steps: seq<Step>, a: string)
    requires IsPass(nodes, resources, world, steps)
    ensures a in PlannedChanges(steps) <==> exists j :: 0 <= j < |nodes| && nodes[j].address == a && ChangesRemote(steps[j].action)
  {
    forall j | 0 <= j < |steps| ensures steps[j].address == nodes[j].address {
      assert StepAddresses(steps)[j] == Graph.NodeAddresses(nodes)[j];
    }
  }

  /** An action that is not a change is the node's own no-op or adopt. */
  lemma UnchangedIsOwn(nodes: seq<Node>, resources: Resources, world: World, steps: seq<Step>, k: nat)
    requires IsPass(nodes, resources, world, steps) && k < |nodes|
    ensures ChangesRemote(Own(nodes[k], resources, world)) ==> ChangesRemote(steps[k].action)
    ensures !ChangesRemote(steps[k].action) ==> steps[k].action == Own(nodes[k], resources, world)
    ensures steps[k].action != Forget
  {
  }

  /** The trigger part of the rule, as the pass sees it. */
  lemma TriggersSeen(nodes: seq<Node>, resources: Resources, world: World, steps: seq<Step>, k: nat)
    requires IsPass(nodes, resources, world, steps) && k < |nodes|
    ensures ChangedTriggers(nodes[k].triggeredBy, ActionsOf(steps[..k])) != [] <==>
            exists t :: t in nodes[k].triggeredBy && t in PlannedChanges(steps)
  {
    var seen, triggers := ActionsOf(steps[..k]), nodes[k].triggeredBy;
    ChangedTriggersNonempty(triggers, seen);
    forall t | t in triggers ensures (t in seen && ChangesRemote(seen[t])) <==> t in PlannedChanges(steps) {
      assert t in nodes[k].dependsOn;
      SeenAction(nodes, resources, world, steps, k, t);
      InChanges(nodes, resources, world, steps, t);
    }
  }

  /** The apk part of the rule, as the pass sees it. */
  lemma ApkSeen(nodes: seq<Node>, resources: Resources, world: World, steps: seq<Step>, k: nat)
    requires IsPass(nodes, resources, world, steps) && k < |nodes|
    ensures ApkDependenciesChanged(nodes[k].dependsOn, ActionsOf(steps[..k])) <==>
            exists d :: d in nodes[k].dependsOn && Acts(nodes, resources, world, PlannedChanges(steps), d)
  {
    var seen := ActionsOf(steps[..k]);
    hide IsPass, Acts, PlannedChanges, Own, ActionsOf;
    forall d | d in nodes[k].dependsOn
      ensures (d in seen && seen[d] != NoOp) <==> Acts(nodes, resources, world, PlannedChanges(steps), d)
    {
      DependencyActs(nodes, resources, world, steps, k, d);
    }
  }

  lemma DependencyActs(nodes: seq<Node>, resources: Resources, world: World, steps: seq<Step>, k: nat, d: string)
    requires IsPass(nodes, resources, world, steps) && k < |nodes| && d in nodes[k].dependsOn
    ensures var seen := ActionsOf(steps[..k]);
            (d in seen && seen[d] != NoOp) <==> Acts(nodes, resources, world, PlannedChanges(steps), d)
  {
    SeenAction(nodes, resources, world, steps, k, d);
    InChanges(nodes, resources, world, steps, d);
    forall j: nat | j < |nodes| && nodes[j].address == d
      ensures steps[j].action != NoOp <==> ChangesRemote(steps[j].action) || Own(nodes[j], resources, world) != NoOp
    {
      UnchangedIsOwn(nodes, resources, world, steps, j);
    }
    hide PlannedChanges, Own, ActionsOf, PlanOne, InScheduleOrder;
  }

  /** A node is planned to change exactly when the rule, applied to all planned changes, says it must. */
  lemma PassIsFixpoint(nodes: seq<Node>, resources: Resources, world: World, steps: seq<Step>, k: nat)
    requires IsPass(nodes, resources, world, steps) && k < |nodes|
    ensures ChangesRemote(steps[k].action) <==> MustChange(nodes, resources, world, PlannedChanges(steps), nodes[k])
    ensures nodes[k].address in PlannedChanges(steps) <==> ChangesRemote(steps[k].action)
    ensures !ChangesRemote(steps[k].action) ==> steps[k].action == Own(nodes[k], resources, world)
  {
    TriggersSeen(nodes, resources, world, steps, k);
    VerifiedExactly(nodes[k]);
    ApkSeen(nodes, resources, world, steps, k);
    UnchangedIsOwn(nodes, resources, world, steps, k);
    InChanges(nodes, resources, world, steps, nodes[k].address);
    forall j | 0 <= j < |nodes| && nodes[j].address == nodes[k].address ensures j == k {
      assert Graph.NodeAddresses(nodes)[j] == Graph.NodeAddresses(nodes)[k];
    }
  }

  /** Every closed set contains every planned change: by induction along the schedule. */
  lemma {:induction false} PassIsLeast(nodes: seq<Node>, resources: Resources, world: World,
                                       steps: seq<Step>, changing: set<string>, k: nat)
    requires IsPass(nodes, resources, world, steps) && ClosedUnder(nodes, resources, world, changing)
    requires k < |nodes| && ChangesRemote(steps[k].action)
    ensures nodes[k].address in changing
    decreases k
  {
    PassIsFixpoint(nodes, resources, world, steps, k);
    hide *;
    forall d | d in nodes[k].dependsOn && d in PlannedChanges(steps) ensures d in changing {
      var j := ChangedDependency(nodes, resources, world, steps, k, d);
      PassIsLeast(nodes, resources, world, steps, changing, j);
    }
    TriggersAreDependencies(nodes, resources, world, steps, k);
    MustChangeMono(nodes, resources, world, PlannedChanges(steps), changing, nodes[k]);
    ClosedHas(nodes, resources, world, changing, k);
  }

  lemma ClosedHas(nodes: seq<Node>, resources: Resources, world: World, changing: set<string>, k: nat)
    requires ClosedUnder(nodes, resources, world, changing) && k < |nodes|
    requires MustChange(nodes, resources, world, changing, nodes[k])
    ensures nodes[k].address in changing
  {
  }

  lemma TriggersAreDependencies(nodes: seq<Node>, resources: Resources, world: World, steps: seq<Step>, k: nat)
    requires IsPass(nodes, resources, world, steps) && k < |nodes|
    ensures forall t :: t in nodes[k].triggeredBy ==> t in nodes[k].dependsOn
  {
  }

  lemma ChangedDependency(nodes: seq<Node>, resources: Resources, world: World, steps: seq<Step>, k: nat,
                          d: string) returns (j: nat)
    requires IsPass(nodes, resources, world, steps) && k < |nodes|
    requires d in nodes[k].dependsOn && d in PlannedChanges(steps)
    ensures j < k && nodes[j].address == d && ChangesRemote(steps[j].action)
  {
    InChanges(nodes, resources, world, steps, d);
    var i :| 0 <= i < |nodes| && nodes[i].address == d && ChangesRemote(steps[i].action);
    DistinctNodes(nodes, resources, world, steps);
    hide *;
    j := DependencyPlanned(nodes, resources, world, steps, k, d);
  }

  lemma DistinctNodes(nodes: seq<Node>, resources: Resources, world: World, steps: seq<Step>)
    requires IsPass(nodes, resources, world, steps)
    ensures forall a :: a in Graph.NodeAddresses(nodes) <==> exists i :: 0 <= i < |nodes| && nodes[i].address == a
    ensures forall i, j :: 0 <= i < |nodes| && 0 <= j < |nodes| && nodes[i].address == nodes[j].address ==> i == j
  {
    var na := Graph.NodeAddresses(nodes);
    forall i | 0 <= i < |nodes| ensures nodes[i].address in na {
      assert na[i] == nodes[i].address;
    }
    forall i, j | 0 <= i < |nodes| && 0 <= j < |nodes| && nodes[i].address == nodes[j].address ensures i == j {
      assert na[i] == na[j];
    }
  }

  lemma MustChangeMono(nodes: seq<Node>, resources: Resources, world: World, s: set<string>, t: set<string>, node: Node)
    requires MustChange(nodes, resources, world, s, node)
    requires forall d :: d in node.dependsOn && d in s ==> d in t
    requires forall d :: d in node.triggeredBy ==> d in node.dependsOn
    ensures MustChange(nodes, resources, world, t, node)
  {
    if d :| d in node.dependsOn && Acts(nodes, resources, world, s, d) {
      assert Acts(nodes, resources, world, t, d);
    }
  }

  /** The single pass of planHost is the least fixpoint of trigger propagation over all nodes. */
  lemma SinglePassIsLeastFixpoint(nodes: seq<Node>, resources: Resources, world: World)
    requires InScheduleOrder(nodes) && PlanNodes(nodes, resources, world).Ok?
    ensures var changes := PlannedChanges(PlanNodes(nodes, resources, world).value);
            ClosedUnder(nodes, resources, world, changes) &&
            forall s :: ClosedUnder(nodes, resources, world, s) ==> changes <= s
  {
    PassShape(nodes, resources, world);
    var steps := PlanNodes(nodes, resources, world).value;
    hide *;
    ClosedIf(nodes, resources, world, steps);
    forall s | ClosedUnder(nodes, resources, world, s) ensures PlannedChanges(steps) <= s {
      LeastIn(nodes, resources, world, steps, s);
    }
  }

  lemma ClosedIf(nodes: seq<Node>, resources: Resources, world: World, steps: seq<Step>)
    requires IsPass(nodes, resources, world, steps)
    ensures ClosedUnder(nodes, resources, world, PlannedChanges(steps))
  {
    forall k | 0 <= k < |nodes| && MustChange(nodes, resources, world, PlannedChanges(steps), nodes[k])
      ensures nodes[k].address in PlannedChanges(steps)
    {
      PassIsFixpoint(nodes, resources, world, steps, k);
    }
  }

  lemma LeastIn(nodes: seq<Node>, resources: Resources, world: World, steps: seq<Step>, s: set<string>)
    requires IsPass(nodes, resources, world, steps) && ClosedUnder(nodes, resources, world, s)
    ensures PlannedChanges(steps) <= s
  {
    forall a | a in PlannedChanges(steps) ensures a in s {
      InChanges(nodes, resources, world, steps, a);
      var k :| 0 <= k < |nodes| && nodes[k].address == a && ChangesRemote(steps[k].action);
      PassIsLeast(nodes, resources, world, steps, s, k);
    }
  }
}
