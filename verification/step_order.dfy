/** Which edges a plan is ordered by, and what the order means for each pair of steps, said of the steps themselves. */
module StepOrder {
  import opened Addresses
  import opened Digraph
  import opened Model
  import opened DependencyOrder
  import opened OrderingTheorems

  /** Some step of the plan deletes or destroys the object at the address. */
  ghost predicate Removed(steps: seq<Step>, address: string)
  {
    exists r :: r in steps && r.address == address && (r.action == Delete || r.action == Destroy)
  }

  /** The step asks for the edge: a node comes after what it explicitly depends on, or before it when that is removed; an
      orphan goes before what its record depends on. */
  ghost predicate Authors(steps: seq<Step>, s: Step, e: Edge)
  {
    if s.node.address == "" then
      e.0 == s.address && s.prior.Some? && e.1 in s.prior.value.dependsOn
    else
      || (e.1 == s.address && e.0 in s.node.explicitDependsOn && !Removed(steps, e.0))
      || (e.0 == s.address && e.1 in s.node.explicitDependsOn && Removed(steps, e.1))
  }

  ghost predicate Planned(steps: seq<Step>, address: string)
  {
    exists s :: s in steps && s.address == address
  }

  lemma PlannedExactly(steps: seq<Step>, address: string)
    ensures Planned(steps, address) <==> address in StepAddresses(steps)
    ensures Removed(steps, address) <==> IsRemoved(steps, address)
  {
    if address in StepAddresses(steps) {
      var i :| 0 <= i < |steps| && StepAddresses(steps)[i] == address;
      assert steps[i] in steps;
    }
    if s :| s in steps && s.address == address {
      var i :| 0 <= i < |steps| && steps[i] == s;
      assert StepAddresses(steps)[i] == address;
    }
    if IsRemoved(steps, address) {
      var k :| 0 <= k < |steps| && steps[k].address == address && RemovesRemoteObject(steps[k].action);
      assert steps[k] in steps;
    }
  }

  lemma OrientedExactly(steps: seq<Step>, s: Step, e: Edge)
    ensures Authors(steps, s, e) <==> exists d :: d in AuthoredDeps(s) && e == Oriented(steps, s, d)
  {
    hide Removed, IsRemoved;
    PlannedExactly(steps, e.0);
    PlannedExactly(steps, e.1);
    if Authors(steps, s, e) {
      var d := if s.node.address == "" || (e.0 == s.address && e.1 in s.node.explicitDependsOn && Removed(steps, e.1)) then e.1 else e.0;
      assert d in AuthoredDeps(s) && e == Oriented(steps, s, d);
    }
    if d :| d in AuthoredDeps(s) && e == Oriented(steps, s, d) {
      PlannedExactly(steps, d);
    }
  }

  /** The authored edges are exactly those that steps of the plan ask for, between planned addresses. */
  lemma AuthoredExactly(steps: seq<Step>, e: Edge)
    ensures e in Authored(steps) <==> Planned(steps, e.0) && Planned(steps, e.1) && exists s :: s in steps && Authors(steps, s, e)
  {
    hide Authors, Planned, Oriented, AuthoredDeps, AuthoredUpTo;
    PlannedExactly(steps, e.0);
    PlannedExactly(steps, e.1);
    if e in Authored(steps) {
      var k, d := AuthoredOwner(steps, |steps|, e);
      assert steps[k] in steps;
      OrientedExactly(steps, steps[k], e);
    }
    if Planned(steps, e.0) && Planned(steps, e.1) && exists s :: s in steps && Authors(steps, s, e) {
      var s :| s in steps && Authors(steps, s, e);
      OrientedExactly(steps, s, e);
      var i :| 0 <= i < |steps| && steps[i] == s;
      var d :| d in AuthoredDeps(s) && e == Oriented(steps, s, d);
      AuthoredHas(steps, |steps|, i, d);
    }
  }

  /** The inferred edges are asked for in plan order, and by one step in the order of the addresses it waits for. */
  lemma {:induction false} InferredInOrder(steps: seq<Step>, i: nat, j: nat)
    requires i < j < |Inferred(steps)|
    ensures exists k, l :: 0 <= k <= l < |steps| && AsksFor(steps[k], Inferred(steps)[i]) && AsksFor(steps[l], Inferred(steps)[j]) &&
              (k == l ==> Less(Inferred(steps)[i].0, Inferred(steps)[j].0))
    decreases |steps|
  {
    var n := |steps| - 1;
    var before, own := Inferred(steps[..n]), InferredOf(steps[n]);
    assert Inferred(steps) == before + own;
    hide Inferred, InferredOf, AsksFor;
    if j < |before| {
      InferredInOrder(steps[..n], i, j);
      var k, l :| 0 <= k <= l < n && AsksFor(steps[..n][k], before[i]) && AsksFor(steps[..n][l], before[j]) &&
        (k == l ==> Less(before[i].0, before[j].0));
      assert AsksFor(steps[k], Inferred(steps)[i]) && AsksFor(steps[l], Inferred(steps)[j]);
    } else {
      OwnInOrder(steps[n]);
      assert Inferred(steps)[j] == own[j - |before|];
      if i < |before| {
        assert before[i] in before;
        InferredMembers(steps[..n], before[i]);
        var s :| s in steps[..n] && AsksFor(s, before[i]);
        var k :| 0 <= k < n && steps[..n][k] == s;
        assert AsksFor(steps[k], Inferred(steps)[i]) && AsksFor(steps[n], Inferred(steps)[j]);
      } else {
        assert Inferred(steps)[i] == own[i - |before|];
        assert AsksFor(steps[n], Inferred(steps)[i]) && AsksFor(steps[n], Inferred(steps)[j]);
      }
    }
  }

  lemma OwnInOrder(s: Step)
    ensures forall e :: e in InferredOf(s) ==> AsksFor(s, e)
    ensures forall i :: 0 <= i < |InferredOf(s)| ==> AsksFor(s, InferredOf(s)[i])
    ensures forall i, j :: 0 <= i < j < |InferredOf(s)| ==> Less(InferredOf(s)[i].0, InferredOf(s)[j].0)
  {
    if !s.IsOrphan() {
      var deps := Canonical(s.node.dependsOn);
      CanonicalMembers(s.node.dependsOn);
      FromInOrder(deps, s.node.explicitDependsOn, s.address);
      assert InferredOf(s) == InferredFrom(deps, s.node.explicitDependsOn, s.address);
      hide InferredFrom, InferredOf, Canonical, Less;
      forall e | e in InferredOf(s) ensures AsksFor(s, e) {
        InferredFromMembers(deps, s.node.explicitDependsOn, s.address, e);
      }
    }
  }

  lemma {:induction false} FromInOrder(deps: seq<string>, explicit: seq<string>, address: string)
    requires StrictlySorted(deps)
    ensures var r := InferredFrom(deps, explicit, address); forall i, j :: 0 <= i < j < |r| ==> Less(r[i].0, r[j].0)
    decreases |deps|
  {
    if deps != [] {
      var n := |deps| - 1;
      FromInOrder(deps[..n], explicit, address);
      var before := InferredFrom(deps[..n], explicit, address);
      forall i | 0 <= i < |before| ensures Less(before[i].0, deps[n]) {
        InferredFromMembers(deps[..n], explicit, address, before[i]);
        assert before[i].0 in deps[..n];
      }
    }
  }

  /** In the order a plan is executed, every node comes after what it explicitly depends on, or before it when that is
      removed; every orphan goes before what its record depends on; and what a node depends on otherwise comes first,
      unless the edge was dropped because the order has to be the other way round. */
  lemma OrderMeans(steps: seq<Step>, s: Step, d: string)
    requires WellAddressed(steps) && Acyclic(Authored(steps)) && s in steps && Planned(steps, d)
    ensures s.node.address != "" && d in s.node.explicitDependsOn ==>
              if Removed(steps, d) then Precedes(ExecutionOrder(steps), s.address, d)
              else Precedes(ExecutionOrder(steps), d, s.address)
    ensures s.node.address == "" && s.prior.Some? && d in s.prior.value.dependsOn ==> Precedes(ExecutionOrder(steps), s.address, d)
    ensures s.node.address != "" && d in s.node.dependsOn && d !in s.node.explicitDependsOn && d != s.address ==>
              if (d, s.address) in FinalEdges(steps) then Precedes(ExecutionOrder(steps), d, s.address)
              else Precedes(ExecutionOrder(steps), s.address, d)
  {
    hide *;
    OrderIsLinearExtension(steps);
    Asked(steps, s, d);
    AuthoredExactly(steps, (d, s.address));
    AuthoredExactly(steps, (s.address, d));
    if s.node.address != "" && d in s.node.dependsOn && d !in s.node.explicitDependsOn && d != s.address {
      AsksInferred(steps, s, d);
      if (d, s.address) in FinalEdges(steps) {
        InOrder(steps, (d, s.address));
      } else {
        SkippedIsReversed(steps, (d, s.address));
      }
    }
  }

  lemma Asked(steps: seq<Step>, s: Step, d: string)
    requires s in steps
    ensures Planned(steps, s.address)
    ensures s.node.address != "" && d in s.node.explicitDependsOn ==>
              Authors(steps, s, if Removed(steps, d) then (s.address, d) else (d, s.address))
    ensures s.node.address == "" && s.prior.Some? && d in s.prior.value.dependsOn ==> Authors(steps, s, (s.address, d))
  {
    hide Removed;
  }

  lemma AsksInferred(steps: seq<Step>, s: Step, d: string)
    requires s in steps && s.node.address != "" && d in s.node.dependsOn && d !in s.node.explicitDependsOn
    requires Planned(steps, d)
    ensures (d, s.address) in Inferred(steps) && Endpoints(Vertices(steps), (d, s.address))
  {
    hide Inferred;
    InferredMembers(steps, (d, s.address));
    assert AsksFor(s, (d, s.address));
    PlannedExactly(steps, d);
    PlannedExactly(steps, s.address);
  }

  lemma InOrder(steps: seq<Step>, e: Edge)
    requires WellAddressed(steps) && Acyclic(Authored(steps)) && e in FinalEdges(steps)
    ensures Precedes(ExecutionOrder(steps), e.0, e.1)
  {
    hide FinalEdges, ExecutionOrder, Authored, Inferred, WellAddressed, Acyclic;
    OrderIsLinearExtension(steps);
    FinalEdgeKinds(steps, e);
    AuthoredExactly(steps, e);
    PlannedExactly(steps, e.0);
    PlannedExactly(steps, e.1);
    var order := ExecutionOrder(steps);
    assert e.0 in order && e.1 in order;
    var i :| 0 <= i < |order| && order[i] == e.0;
    var j :| 0 <= j < |order| && order[j] == e.1;
    assert (order[i], order[j]) in FinalEdges(steps);
  }
}
