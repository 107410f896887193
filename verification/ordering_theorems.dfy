/** What the step order guarantees for every plan. */
module OrderingTheorems {
  import opened Addresses
  import opened Digraph
  import opened Model
  import opened DependencyOrder

  // ---- whose edges they are ----

  /** Every authored edge belongs to some step of the plan. */
  lemma {:induction false} AuthoredOwner(steps: seq<Step>, n: nat, e: Edge) returns (k: nat, d: string)
    requires n <= |steps| && e in AuthoredUpTo(steps, n)
    ensures k < n && d in AuthoredDeps(steps[k]) && e == Oriented(steps, steps[k], d)
    ensures Endpoints(Vertices(steps), e)
  {
    if e in AuthoredUpTo(steps, n - 1) {
      k, d := AuthoredOwner(steps, n - 1, e);
    } else {
      k := n - 1;
      d :| d in AuthoredDeps(steps[k]) && Endpoints(Vertices(steps), Oriented(steps, steps[k], d)) && e == Oriented(steps, steps[k], d);
    }
  }

  lemma {:induction false} AuthoredHas(steps: seq<Step>, n: nat, i: nat, d: string)
    requires i < n <= |steps| && d in AuthoredDeps(steps[i]) && Endpoints(Vertices(steps), Oriented(steps, steps[i], d))
    ensures Oriented(steps, steps[i], d) in AuthoredUpTo(steps, n)
  {
    if i < n - 1 {
      AuthoredHas(steps, n - 1, i, d);
    }
  }

  /** A node asks to run after each graph dependency that it does not name explicitly. */
  predicate AsksFor(s: Step, e: Edge)
  {
    !s.IsOrphan() && e.1 == s.address && e.0 in s.node.dependsOn && e.0 !in s.node.explicitDependsOn
  }

  lemma {:induction false} InferredFromMembers(deps: seq<string>, explicit: seq<string>, address: string, e: Edge)
    ensures e in InferredFrom(deps, explicit, address) <==> e.1 == address && e.0 in deps && e.0 !in explicit
  {
    if deps != [] {
      var n := |deps| - 1;
      TakeNext(deps, n);
      assert deps[..n + 1] == deps;
      InferredFromMembers(deps[..n], explicit, address, e);
    }
  }

  lemma {:induction false} InferredMembers(steps: seq<Step>, e: Edge)
    ensures e in Inferred(steps) <==> exists s :: s in steps && AsksFor(s, e)
  {
    if steps != [] {
      var n := |steps| - 1;
      var s := steps[n];
      TakeNext(steps, n);
      assert steps[..n + 1] == steps;
      InferredMembers(steps[..n], e);
      InferredFromMembers(Canonical(s.node.dependsOn), s.node.explicitDependsOn, s.address, e);
      CanonicalMembers(s.node.dependsOn);
      assert e in InferredOf(s) <==> AsksFor(s, e);
    }
  }

  lemma {:induction false} AddedWasCandidate(E: set<Edge>, candidates: seq<Edge>, vertices: set<string>, e: Edge)
    requires e in AddInferred(E, candidates, vertices)
    ensures e in E || (e in candidates && Endpoints(vertices, e))
  {
    if candidates != [] {
      var n := |candidates| - 1;
      if e in AddInferred(E, candidates[..n], vertices) {
        AddedWasCandidate(E, candidates[..n], vertices, e);
      }
    }
  }

  lemma FinalEdgeKinds(steps: seq<Step>, e: Edge)
    requires e in FinalEdges(steps)
    ensures e in Authored(steps) || (e in Inferred(steps) && Endpoints(Vertices(steps), e))
  {
    hide Authored, Inferred, Endpoints, Vertices;
    AddedWasCandidate(Authored(steps), Inferred(steps), Vertices(steps), e);
  }

  // ---- the theorems ----

  /** Inferred edges never create a cycle. */
  lemma {:induction false} InferredKeepAcyclic(E: set<Edge>, candidates: seq<Edge>, vertices: set<string>)
    requires Acyclic(E)
    ensures Acyclic(AddInferred(E, candidates, vertices))
  {
    if candidates != [] {
      var n := |candidates| - 1;
      InferredKeepAcyclic(E, candidates[..n], vertices);
      var F, e := AddInferred(E, candidates[..n], vertices), candidates[n];
      if Endpoints(vertices, e) && !Reaches(F, e.1, e.0) {
        AddEdgeAcyclic(F, e.0, e.1);
      }
    }
  }

  /** Sorting fails exactly when the authored edges alone are cyclic, whatever was inferred. */
  lemma FailsIffAuthoredCyclic(steps: seq<Step>)
    requires WellAddressed(steps)
    ensures Acyclic(FinalEdges(steps)) <==> Acyclic(Authored(steps))
    ensures |ExecutionOrder(steps)| == |steps| <==> Acyclic(Authored(steps))
  {
    FinalEdgesWithin(steps);
    LeastOrderComplete(StepAddresses(steps), FinalEdges(steps));
    if Acyclic(Authored(steps)) {
      InferredKeepAcyclic(Authored(steps), Inferred(steps), Vertices(steps));
    } else if Acyclic(FinalEdges(steps)) {
      AcyclicMono(Authored(steps), FinalEdges(steps));
    }
  }

  /** An inferred edge that is not kept has the opposite path already. */
  lemma {:induction false} SkippedHasPath(E: set<Edge>, candidates: seq<Edge>, vertices: set<string>, e: Edge)
    requires e in candidates && Endpoints(vertices, e)
    ensures e in AddInferred(E, candidates, vertices) || Reaches(AddInferred(E, candidates, vertices), e.1, e.0)
  {
    var n := |candidates| - 1;
    var F := AddInferred(E, candidates[..n], vertices);
    var G := AddInferred(E, candidates, vertices);
    assert F <= G;
    if candidates[n] == e {
      if Reaches(F, e.1, e.0) { ReachMono(F, G, e.1, e.0); }
    } else {
      assert e in candidates[..n] by {
        assert candidates == candidates[..n] + [candidates[n]];
      }
      SkippedHasPath(E, candidates[..n], vertices, e);
      if e !in F { ReachMono(F, G, e.1, e.0); }
    }
  }

  /** Every skipped inferred edge with distinct endpoints has its endpoints in the opposite order in the output. */
  lemma SkippedIsReversed(steps: seq<Step>, e: Edge)
    requires WellAddressed(steps) && Acyclic(Authored(steps))
    requires e in Inferred(steps) && Endpoints(Vertices(steps), e) && e.0 != e.1
    requires e !in FinalEdges(steps)
    ensures Precedes(ExecutionOrder(steps), e.1, e.0)
  {
    FailsIffAuthoredCyclic(steps);
    FinalEdgesWithin(steps);
    LeastOrderComplete(StepAddresses(steps), FinalEdges(steps));
    SkippedHasPath(Authored(steps), Inferred(steps), Vertices(steps), e);
    assert e.0 in StepAddresses(steps) && e.1 in StepAddresses(steps);
    PathIsForward(ExecutionOrder(steps), FinalEdges(steps), e.1, e.0);
  }

  lemma PathIsForward(order: seq<string>, E: set<Edge>, x: string, y: string)
    requires Topological(order, E) && Within(E, order) && Distinct(order)
    requires x in order && y in order && x != y && Reaches(E, x, y)
    ensures Precedes(order, x, y)
  {
    var rank := (v: string) => if v in order then IndexOf(order, v) else 0;
    forall e | e in E ensures rank(e.0) < rank(e.1) {
      assert (order[rank(e.0)], order[rank(e.1)]) in E;
    }
    var p :| WalkFromTo(E, p, x, y);
    WalkRises(E, p, rank);
    assert order[rank(x)] == x && order[rank(y)] == y;
  }

  ghost predicate InPlan(steps: seq<Step>, e: Edge)
  {
    e in Inferred(steps) && Endpoints(Vertices(steps), e)
  }

  /** If authored and inferred edges together have no cycle, none is skipped. */
  lemma NothingSkipped(steps: seq<Step>, all: set<Edge>)
    requires Authored(steps) <= all && Acyclic(all)
    requires forall e :: InPlan(steps, e) ==> e in all
    ensures forall e :: InPlan(steps, e) ==> e in FinalEdges(steps)
  {
    forall e | InPlan(steps, e) ensures e in FinalEdges(steps) {
      KeepsWithin(Authored(steps), Inferred(steps), Vertices(steps), all);
      SkippedHasPath(Authored(steps), Inferred(steps), Vertices(steps), e);
      if e !in FinalEdges(steps) {
        ReachMono(FinalEdges(steps), all, e.1, e.0);
      }
    }
  }

  lemma {:induction false} KeepsWithin(E: set<Edge>, candidates: seq<Edge>, vertices: set<string>, all: set<Edge>)
    requires E <= all && forall e :: e in candidates && Endpoints(vertices, e) ==> e in all
    ensures AddInferred(E, candidates, vertices) <= all
  {
    if candidates != [] {
      var n := |candidates| - 1;
      assert candidates[n] in candidates;
      KeepsWithin(E, candidates[..n], vertices, all);
    }
  }

  /** A sorted plan is a permutation of its input and a linear extension of the final edges. */
  lemma OrderIsLinearExtension(steps: seq<Step>)
    requires WellAddressed(steps) && Acyclic(Authored(steps))
    ensures Permutes(ExecutionOrder(steps), StepAddresses(steps))
    ensures Topological(ExecutionOrder(steps), FinalEdges(steps))
    ensures forall e :: e in Authored(steps) ==> Precedes(ExecutionOrder(steps), e.0, e.1)
  {
    FailsIffAuthoredCyclic(steps);
    FinalEdgesWithin(steps);
    LeastOrderComplete(StepAddresses(steps), FinalEdges(steps));
    var order := ExecutionOrder(steps);
    forall e | e in Authored(steps) ensures Precedes(order, e.0, e.1) {
      assert Endpoints(Vertices(steps), e);
      assert e.0 in order && e.1 in order;
      var i, j := IndexOf(order, e.0), IndexOf(order, e.1);
      assert (order[i], order[j]) in FinalEdges(steps);
    }
  }

  /** It is the rank-lexicographically least linear extension: at the first position where another
      one differs, the chosen step came earlier in the input. */
  lemma OrderIsLeast(steps: seq<Step>, other: seq<string>, k: nat)
    requires WellAddressed(steps) && Acyclic(Authored(steps))
    requires Permutes(other, StepAddresses(steps)) && Topological(other, FinalEdges(steps))
    requires k < |steps| && |ExecutionOrder(steps)| == |steps|
    requires other[..k] == ExecutionOrder(steps)[..k] && other[k] != ExecutionOrder(steps)[k]
    ensures Precedes(StepAddresses(steps), ExecutionOrder(steps)[k], other[k])
  {
    LeastOrderIsLeast(StepAddresses(steps), FinalEdges(steps), other, k);
  }

  /** A plan comes back unchanged exactly when it respects its own final edges. */
  lemma UnchangedExactly(steps: seq<Step>)
    requires WellAddressed(steps)
    ensures ExecutionOrder(steps) == StepAddresses(steps) <==> Topological(StepAddresses(steps), FinalEdges(steps))
  {
    if Topological(StepAddresses(steps), FinalEdges(steps)) {
      LeastOrderIdentity(StepAddresses(steps), FinalEdges(steps));
    } else if |ExecutionOrder(steps)| == |steps| {
      FailsIffAuthoredCyclic(steps);
      OrderIsLinearExtension(steps);
    }
  }

  // ---- sorting twice ----

  /** The same steps, in their execution order. */
  ghost predicate SortedPlan(steps: seq<Step>, sorted: seq<Step>)
  {
    StepAddresses(sorted) == ExecutionOrder(steps) && forall s :: s in sorted ==> s in steps
  }

  lemma SortedSteps(steps: seq<Step>, sorted: seq<Step>)
    requires WellAddressed(steps) && Acyclic(Authored(steps)) && SortedPlan(steps, sorted)
    ensures WellAddressed(sorted) && Vertices(sorted) == Vertices(steps)
    ensures forall s :: s in sorted <==> s in steps
  {
    OrderIsLinearExtension(steps);
    hide ExecutionOrder, Authored, Topological, FinalEdges, Acyclic;
    assert "" !in StepAddresses(sorted);
    forall s | s in steps ensures s in sorted {
      StillThere(steps, sorted, s);
    }
  }

  lemma StillThere(steps: seq<Step>, sorted: seq<Step>, s: Step)
    requires WellAddressed(steps) && s in steps && forall t :: t in sorted ==> t in steps
    requires forall a :: a in StepAddresses(steps) ==> a in StepAddresses(sorted)
    ensures s in sorted
  {
    var all := StepAddresses(steps);
    var i :| 0 <= i < |steps| && steps[i] == s;
    assert all[i] in all;
    var j :| 0 <= j < |sorted| && StepAddresses(sorted)[j] == all[i];
    assert sorted[j] in steps;
    var k :| 0 <= k < |steps| && steps[k] == sorted[j];
    assert all[k] == all[i];
  }

  lemma SameAuthored(steps: seq<Step>, other: seq<Step>)
    requires forall s :: s in steps ==> s in other
    requires forall s :: s in other ==> s in steps
    requires Vertices(steps) == Vertices(other)
    ensures Authored(steps) <= Authored(other)
  {
    forall e | e in Authored(steps) ensures e in Authored(other) {
      var k, d := AuthoredOwner(steps, |steps|, e);
      assert steps[k] in other;
      var j :| 0 <= j < |other| && other[j] == steps[k];
      SameRemoved(steps, other, d);
      AuthoredHas(other, |other|, j, d);
    }
  }

  lemma SameRemoved(steps: seq<Step>, other: seq<Step>, d: string)
    requires forall s :: s in steps ==> s in other
    requires forall s :: s in other ==> s in steps
    ensures IsRemoved(steps, d) <==> IsRemoved(other, d)
  {
    if IsRemoved(steps, d) {
      var k :| 0 <= k < |steps| && steps[k].address == d && RemovesRemoteObject(steps[k].action);
      assert steps[k] in other;
      var j :| 0 <= j < |other| && other[j] == steps[k];
    }
    if IsRemoved(other, d) {
      var k :| 0 <= k < |other| && other[k].address == d && RemovesRemoteObject(other[k].action);
      assert other[k] in steps;
      var j :| 0 <= j < |steps| && steps[j] == other[k];
    }
  }

  lemma SortedAsksTheSame(steps: seq<Step>, sorted: seq<Step>)
    requires WellAddressed(steps) && Acyclic(Authored(steps)) && SortedPlan(steps, sorted)
    ensures WellAddressed(sorted) && Authored(sorted) == Authored(steps)
    ensures forall e :: InPlan(sorted, e) <==> InPlan(steps, e)
  {
    SortedSteps(steps, sorted);
    hide Authored, SortedPlan, Vertices, WellAddressed, Inferred;
    SameAuthored(steps, sorted);
    SameAuthored(sorted, steps);
    forall e ensures InPlan(sorted, e) <==> InPlan(steps, e) {
      InferredMembers(steps, e);
      InferredMembers(sorted, e);
    }
  }

  /** Sorting twice is sorting once exactly when the second sort keeps no edge that the first one skipped. */
  lemma ResortUnchangedExactly(steps: seq<Step>, sorted: seq<Step>)
    requires WellAddressed(steps) && Acyclic(Authored(steps)) && SortedPlan(steps, sorted)
    ensures ExecutionOrder(sorted) == StepAddresses(sorted) <==> FinalEdges(sorted) <= FinalEdges(steps)
  {
    hide *;
    SortedAsksTheSame(steps, sorted);
    OrderIsLinearExtension(steps);
    UnchangedExactly(sorted);
    SortedIs(steps, sorted);
    if FinalEdges(sorted) <= FinalEdges(steps) {
      FewerEdges(ExecutionOrder(steps), FinalEdges(sorted), FinalEdges(steps));
    } else {
      var e :| e in FinalEdges(sorted) && e !in FinalEdges(steps);
      KeptAgainReverses(steps, sorted, e);
      Backwards(ExecutionOrder(steps), FinalEdges(sorted), e);
    }
  }

  lemma SortedIs(steps: seq<Step>, sorted: seq<Step>)
    requires SortedPlan(steps, sorted)
    ensures StepAddresses(sorted) == ExecutionOrder(steps)
  {
  }

  lemma FewerEdges(order: seq<string>, E: set<Edge>, F: set<Edge>)
    requires Topological(order, F) && E <= F
    ensures Topological(order, E)
  {
  }

  lemma Backwards(order: seq<string>, E: set<Edge>, e: Edge)
    requires e in E && Precedes(order, e.1, e.0)
    ensures !Topological(order, E)
  {
    var i, j :| 0 <= i < j < |order| && order[i] == e.1 && order[j] == e.0;
    assert (order[j], order[i]) in E;
  }

  /** An edge kept only by the second sort points against the output of the first. */
  lemma KeptAgainReverses(steps: seq<Step>, sorted: seq<Step>, e: Edge)
    requires WellAddressed(steps) && Acyclic(Authored(steps)) && SortedPlan(steps, sorted)
    requires e in FinalEdges(sorted) && e !in FinalEdges(steps)
    ensures Precedes(ExecutionOrder(steps), e.1, e.0)
  {
    SortedAsksTheSame(steps, sorted);
    FinalEdgesWithin(steps);
    FinalEdgeKinds(sorted, e);
    FailsIffAuthoredCyclic(sorted);
    hide *;
    KeptIsNoLoop(FinalEdges(sorted), e);
    KeptInPlan(steps, sorted, e);
    SkippedIsReversed(steps, e);
  }

  lemma KeptInPlan(steps: seq<Step>, sorted: seq<Step>, e: Edge)
    requires e in Authored(sorted) || (e in Inferred(sorted) && Endpoints(Vertices(sorted), e))
    requires Authored(sorted) <= FinalEdges(steps) && e !in FinalEdges(steps)
    requires forall e :: InPlan(sorted, e) <==> InPlan(steps, e)
    ensures e in Inferred(steps) && Endpoints(Vertices(steps), e)
  {
    hide FinalEdges, Authored, Inferred, Endpoints, Vertices;
    assert InPlan(sorted, e);
  }

  lemma KeptIsNoLoop(E: set<Edge>, e: Edge)
    requires Acyclic(E) && e in E
    ensures e.0 != e.1
  {
    ReachSelf(E, e.0);
  }

  /** So a plan whose sort skipped nothing is stable under sorting. */
  lemma NothingSkippedIsStable(steps: seq<Step>, sorted: seq<Step>)
    requires WellAddressed(steps) && Acyclic(Authored(steps)) && SortedPlan(steps, sorted)
    requires forall e :: InPlan(steps, e) ==> e in FinalEdges(steps)
    ensures ExecutionOrder(sorted) == StepAddresses(sorted)
  {
    hide *;
    ResortUnchangedExactly(steps, sorted);
    SortedAsksTheSame(steps, sorted);
    FinalEdgesWithin(steps);
    KeptAreInPlan(steps, sorted);
  }

  lemma KeptAreInPlan(steps: seq<Step>, sorted: seq<Step>)
    requires Authored(sorted) <= FinalEdges(steps)
    requires forall e :: InPlan(sorted, e) <==> InPlan(steps, e)
    requires forall e :: InPlan(steps, e) ==> e in FinalEdges(steps)
    ensures FinalEdges(sorted) <= FinalEdges(steps)
  {
    hide Authored, Inferred, Endpoints, Vertices;
    forall e | e in Inferred(sorted) && Endpoints(Vertices(sorted), e) ensures e in FinalEdges(steps) {
      assert InPlan(sorted, e);
    }
    KeepsWithin(Authored(sorted), Inferred(sorted), Vertices(sorted), FinalEdges(steps));
  }

  // ---- sorting twice is not always sorting once ----

  function Asking(address: string, action: Action, explicit: seq<string>, deps: seq<string>): Step
  {
    Step(address, action, NoNode.(address := address, explicitDependsOn := explicit, dependsOn := deps), None, Unobserved, [], false)
  }

  /** m is being removed, x depends on m, and n depends on m and x and names m explicitly. */
  const Removal := Asking("m", Delete, [], [])
  const Depending := Asking("x", Update, [], ["m"])
  const Naming := Asking("n", Update, ["m"], ["m", "x"])

  ghost predicate IsThree(steps: seq<Step>)
  {
    |steps| == 3 && Distinct(StepAddresses(steps)) && forall s :: s in steps <==> s == Removal || s == Depending || s == Naming
  }

  lemma ThreeAddresses(steps: seq<Step>)
    requires IsThree(steps)
    ensures WellAddressed(steps) && forall a :: a in StepAddresses(steps) <==> a == "m" || a == "x" || a == "n"
    ensures forall s :: s in steps ==> !s.IsOrphan()
    ensures forall d :: IsRemoved(steps, d) <==> d == "m"
  {
    forall a ensures a in StepAddresses(steps) <==> a == "m" || a == "x" || a == "n" {
      if a in StepAddresses(steps) {
        var i :| 0 <= i < |steps| && StepAddresses(steps)[i] == a;
        assert steps[i] in steps;
      }
      if s :| s in steps && s.address == a {
        var i :| 0 <= i < |steps| && steps[i] == s;
        assert StepAddresses(steps)[i] == a;
      }
      assert Removal in steps && Depending in steps && Naming in steps;
    }
    forall d ensures IsRemoved(steps, d) <==> d == "m" {
      if IsRemoved(steps, d) {
        var i :| 0 <= i < |steps| && steps[i].address == d && RemovesRemoteObject(steps[i].action);
        assert steps[i] in steps;
      }
      if d == "m" {
        assert Removal in steps;
        var i :| 0 <= i < |steps| && steps[i] == Removal;
      }
    }
  }

  lemma ThreeAuthored(steps: seq<Step>)
    requires IsThree(steps)
    ensures Authored(steps) == {("n", "m")}
  {
    ThreeAddresses(steps);
    forall e | e in Authored(steps) ensures e == ("n", "m") {
      var k, d := AuthoredOwner(steps, |steps|, e);
      assert steps[k] in steps;
    }
    assert Naming in steps;
    var k :| 0 <= k < |steps| && steps[k] == Naming;
    AuthoredHas(steps, |steps|, k, "m");
  }

  lemma CanonicalOfThree()
    ensures Canonical([]) == [] && Canonical(["m"]) == ["m"] && Canonical(["m", "x"]) == ["m", "x"]
  {
    assert Less("m", "x");
    hide Less, Canonical;
    CanonicalOfSorted([]);
    CanonicalOfSorted(["m"]);
    CanonicalOfSorted(["m", "x"]);
  }

  lemma CanonicalOfSorted(s: seq<string>)
    requires StrictlySorted(s)
    ensures Canonical(s) == s
  {
    SortedUnique(s, Canonical(s));
  }

  lemma ThreeInferred()
    ensures InferredOf(Removal) == []
    ensures InferredOf(Depending) == [("m", "x")]
    ensures InferredOf(Naming) == [("x", "n")]
  {
    CanonicalOfThree();
    hide Canonical, Less;
    assert ["m"][..0] == [] && ["m", "x"][..1] == ["m"];
    assert InferredFrom(["m"], [], "x") == [("m", "x")];
    assert InferredFrom(["m"], ["m"], "n") == [];
  }

  lemma InferredOfThree(a: Step, b: Step, c: Step)
    ensures Inferred([a, b, c]) == InferredOf(a) + InferredOf(b) + InferredOf(c)
  {
    hide InferredOf;
    assert [a, b, c][..2] == [a, b] && [a, b][..1] == [a] && [a][..0] == [];
    assert Inferred([a]) == Inferred([]) + InferredOf(a);
    assert Inferred([a, b]) == Inferred([a]) + InferredOf(b);
    assert Inferred([a, b, c]) == Inferred([a, b]) + InferredOf(c);
  }

  lemma TwoCandidates(E: set<Edge>, first: Edge, second: Edge, vertices: set<string>)
    ensures AddInferred(E, [first, second], vertices) == AddIfNoPath(AddIfNoPath(E, first, vertices), second, vertices)
  {
    AddInferredNext(E, [first], second, vertices);
    AddInferredNext(E, [], first, vertices);
    assert [first] + [second] == [first, second] && [] + [first] == [first];
  }

  /** Three edges that would close a circle: the last one asked for is dropped. */
  lemma LastOfCircle(x: string, y: string, z: string, vertices: set<string>)
    requires x != y && y != z && x != z && {x, y, z} <= vertices
    ensures AddInferred({(x, y)}, [(y, z), (z, x)], vertices) == {(x, y), (y, z)}
    ensures AddInferred({(x, y)}, [(z, x), (y, z)], vertices) == {(x, y), (z, x)}
  {
    var E := {(x, y)};
    TwoCandidates(E, (y, z), (z, x), vertices);
    TwoCandidates(E, (z, x), (y, z), vertices);
    NoWay(E, z, y, {z});
    NoWay(E, x, z, {x, y});
    assert WalkFromTo(E + {(y, z)}, [x, y, z], x, z);
    assert WalkFromTo(E + {(z, x)}, [z, x, y], z, y);
    assert E + {(y, z)} == {(x, y), (y, z)} && E + {(z, x)} == {(x, y), (z, x)};
  }

  lemma NoWay(E: set<Edge>, from: string, to: string, closed: set<string>)
    requires from in closed && to !in closed && forall e :: e in E && e.0 in closed ==> e.1 in closed
    ensures !Reaches(E, from, to)
  {
    forall p | WalkFromTo(E, p, from, to) ensures false {
      ClosedWalk(E, closed, p);
    }
  }

  lemma ChainOrder(r: seq<string>, a: string, b: string, c: string, E: set<Edge>)
    requires |r| == 3 && Topological(r, E) && (a, b) in E && (b, c) in E
    requires a in r && b in r && c in r
    ensures r == [a, b, c]
  {
    var i :| 0 <= i < 3 && r[i] == a;
    var j :| 0 <= j < 3 && r[j] == b;
    var k :| 0 <= k < 3 && r[k] == c;
    assert (r[i], r[j]) in E && (r[j], r[k]) in E;
  }

  lemma ThreeOrder(steps: seq<Step>, candidates: seq<Edge>, a: string, b: string, c: string)
    requires IsThree(steps) && Inferred(steps) == candidates && {a, b, c} == {"m", "x", "n"}
    requires AddInferred({("n", "m")}, candidates, Vertices(steps)) == {(a, b), (b, c)}
    ensures ExecutionOrder(steps) == [a, b, c]
  {
    ThreeAddresses(steps);
    ThreeAuthored(steps);
    hide IsThree, Inferred, Authored, ExecutionOrder, AddInferred, Vertices;
    NoWay({("n", "m")}, "m", "n", {"m"});
    OrderIsLinearExtension(steps);
    FinalIs(steps);
    ChainOrder(ExecutionOrder(steps), a, b, c, FinalEdges(steps));
  }

  lemma FinalIs(steps: seq<Step>)
    ensures FinalEdges(steps) == AddInferred(Authored(steps), Inferred(steps), Vertices(steps))
  {
  }

  lemma AreThree(a: Step, b: Step, c: Step)
    requires {a, b, c} == {Removal, Depending, Naming}
    ensures IsThree([a, b, c]) && Vertices([a, b, c]) >= {"n", "m", "x"}
    ensures StepAddresses([a, b, c]) == [a.address, b.address, c.address]
  {
    var steps := [a, b, c];
    forall s ensures s in steps <==> s == Removal || s == Depending || s == Naming {
      assert s in steps <==> s in {a, b, c};
      assert s in {a, b, c} <==> s in {Removal, Depending, Naming};
    }
    ThreeAddresses(steps);
  }

  /** Sorting is not idempotent: which edge of a circle is dropped depends on the input order. */
  lemma NotIdempotent()
    ensures ExecutionOrder([Removal, Depending, Naming]) == StepAddresses([Naming, Removal, Depending])
    ensures ExecutionOrder([Naming, Removal, Depending]) == StepAddresses([Depending, Naming, Removal])
  {
    hide InferredOf, Inferred, ExecutionOrder, AddInferred, IsThree, Vertices;
    var once, twice := [Removal, Depending, Naming], [Naming, Removal, Depending];
    AreThree(Removal, Depending, Naming);
    AreThree(Naming, Removal, Depending);
    ThreeInferred();
    InferredOfThree(Removal, Depending, Naming);
    InferredOfThree(Naming, Removal, Depending);
    LastOfCircle("n", "m", "x", Vertices(once));
    LastOfCircle("n", "m", "x", Vertices(twice));
    ThreeOrder(once, [("m", "x"), ("x", "n")], "n", "m", "x");
    ThreeOrder(twice, [("x", "n"), ("m", "x")], "x", "n", "m");
  }
}
