/** Ordering the steps of a plan: authored edges first, inferred edges only where they
    close no path, then a priority topological sort by input position. */
module DependencyOrder {
  import opened Addresses
  import opened Digraph
  import opened Model
  import opened CycleFinding
  import opened Kahn

  datatype OrderError =
    | EmptyAddress
    | DuplicateStep(address: string)
    | StepCycle(cycle: seq<string>)

  function StepAddresses(steps: seq<Step>): (r: seq<string>)
    ensures |r| == |steps| && forall i :: 0 <= i < |r| ==> r[i] == steps[i].address
  {
    seq(|steps|, i requires 0 <= i < |steps| => steps[i].address)
  }

  predicate WellAddressed(steps: seq<Step>)
  {
    Distinct(StepAddresses(steps)) && "" !in StepAddresses(steps)
  }

  ghost predicate IsRemoved(steps: seq<Step>, address: string)
  {
    exists k :: 0 <= k < |steps| && steps[k].address == address && RemovesRemoteObject(steps[k].action)
  }

  /** The dependencies of a step that an author, or the recorded state, asked for. */
  function AuthoredDeps(s: Step): seq<string>
  {
    if !s.IsOrphan() then s.node.explicitDependsOn
    else if s.prior.Some? then s.prior.value.dependsOn
    else []
  }

  /** An orphan runs before what it depended on; a node runs after an explicit dependency, but
      before one that is being removed. */
  ghost function Oriented(steps: seq<Step>, s: Step, dependency: string): Edge
  {
    if s.IsOrphan() || IsRemoved(steps, dependency) then (s.address, dependency) else (dependency, s.address)
  }

  ghost predicate Endpoints(vertices: set<string>, e: Edge)
  {
    e.0 in vertices && e.1 in vertices
  }

  ghost function Vertices(steps: seq<Step>): set<string>
  {
    Elements(StepAddresses(steps))
  }

  ghost function AuthoredFrom(steps: seq<Step>, s: Step, deps: seq<string>): set<Edge>
  {
    set d | d in deps && Endpoints(Vertices(steps), Oriented(steps, s, d)) :: Oriented(steps, s, d)
  }

  ghost function AuthoredUpTo(steps: seq<Step>, n: nat): set<Edge>
    requires n <= |steps|
  {
    if n == 0 then {}
    else AuthoredUpTo(steps, n - 1) + AuthoredFrom(steps, steps[n - 1], AuthoredDeps(steps[n - 1]))
  }

  ghost function Authored(steps: seq<Step>): set<Edge>
  {
    AuthoredUpTo(steps, |steps|)
  }

  /** The inferred edges one node asks for, in the order they are tried. */
  ghost function InferredFrom(deps: seq<string>, explicit: seq<string>, address: string): seq<Edge>
  {
    if deps == [] then []
    else
      var d := deps[|deps| - 1];
      InferredFrom(deps[..|deps| - 1], explicit, address) + if d in explicit then [] else [(d, address)]
  }

  ghost function InferredOf(s: Step): seq<Edge>
  {
    if s.IsOrphan() then [] else InferredFrom(Canonical(s.node.dependsOn), s.node.explicitDependsOn, s.address)
  }

  ghost function Inferred(steps: seq<Step>): seq<Edge>
  {
    if steps == [] then [] else Inferred(steps[..|steps| - 1]) + InferredOf(steps[|steps| - 1])
  }

  ghost function AddIfNoPath(E: set<Edge>, e: Edge, vertices: set<string>): set<Edge>
  {
    if Endpoints(vertices, e) && !Reaches(E, e.1, e.0) then E + {e} else E
  }

  /** Try each inferred edge in turn, keeping it only if it closes no path so far. */
  ghost function AddInferred(E: set<Edge>, candidates: seq<Edge>, vertices: set<string>): set<Edge>
  {
    if candidates == [] then E
    else
      var n := |candidates| - 1;
      AddIfNoPath(AddInferred(E, candidates[..n], vertices), candidates[n], vertices)
  }

  ghost function FinalEdges(steps: seq<Step>): set<Edge>
  {
    AddInferred(Authored(steps), Inferred(steps), Vertices(steps))
  }

  ghost function Preds(E: set<Edge>, v: string): set<string>
  {
    set e | e in E && e.1 == v :: e.0
  }

  lemma PredsAfterAdd(E: set<Edge>, b: string, a: string, v: string)
    requires (b, a) !in E
    ensures Preds(E + {(b, a)}, v) == Preds(E, v) + if v == a then {b} else {}
    ensures b !in Preds(E, a)
  {
    forall u ensures u in Preds(E + {(b, a)}, v) <==> u in Preds(E, v) + if v == a then {b} else {} {
      InPreds(E + {(b, a)}, u, v);
      InPreds(E, u, v);
    }
    InPreds(E, b, a);
  }

  lemma InPreds(E: set<Edge>, u: string, v: string)
    ensures u in Preds(E, v) <==> (u, v) in E
  {
    if (u, v) in E {
      assert (u, v).1 == v;
    }
  }

  /** Nothing outside a set closed under the edges is reached from inside it. */
  lemma {:induction false} ClosedWalk(E: set<Edge>, closed: set<string>, p: seq<string>)
    requires IsWalk(E, p) && p[0] in closed
    requires forall e :: e in E && e.0 in closed ==> e.1 in closed
    ensures p[|p| - 1] in closed
    decreases |p|
  {
    if |p| > 1 {
      assert (p[0], p[1]) in E;
      ClosedWalk(E, closed, p[1..]);
    }
  }

  /** What depth-first search knows while it is working through the successors of address. */
  ghost predicate Explored(E: set<Edge>, from: string, to: string, visited: set<string>, stack: seq<string>,
                           pending: set<string>, address: string)
  {
    && from in visited && to !in visited && address in visited
    && (forall v :: v in stack ==> v in visited)
    && (forall v :: v in visited ==> Reaches(E, from, v))
    && (forall e :: e in E && e.0 in visited && e.0 !in stack ==> e.1 in visited || (e.0 == address && e.1 in pending))
  }

  lemma PopExplored(E: set<Edge>, from: string, to: string, visited: set<string>, stack: seq<string>, next: set<string>)
    requires |stack| > 0 && Explored(E, from, to, visited, stack, {}, from)
    requires forall a :: (stack[|stack| - 1], a) in E ==> a in next
    ensures Explored(E, from, to, visited, stack[..|stack| - 1], next, stack[|stack| - 1])
  {
    var n := |stack| - 1;
    assert stack[n] in stack;
    assert stack == stack[..n] + [stack[n]];
    assert forall v :: v in stack <==> v in stack[..n] || v == stack[n];
    forall e | e in E && e.0 == stack[n] ensures e.1 in next {
      assert (stack[n], e.1) in E;
    }
  }

  lemma VisitExplored(E: set<Edge>, from: string, to: string, visited: set<string>, stack: seq<string>,
                      pending: set<string>, address: string, n: string)
    requires Explored(E, from, to, visited, stack, pending, address) && (address, n) in E && n != to
    ensures n in visited ==> Explored(E, from, to, visited, stack, pending - {n}, address)
    ensures n !in visited ==> Explored(E, from, to, visited + {n}, stack + [n], pending - {n}, address)
  {
    ReachEdge(E, address, n);
    ReachTrans(E, from, address, n);
    PushFacts(stack, n);
  }

  lemma DoneExplored(E: set<Edge>, from: string, to: string, visited: set<string>, stack: seq<string>, address: string)
    requires Explored(E, from, to, visited, stack, {}, address)
    ensures Explored(E, from, to, visited, stack, {}, from)
  {
  }

  lemma NotExplored(E: set<Edge>, from: string, to: string, visited: set<string>)
    requires Explored(E, from, to, visited, [], {}, from)
    ensures !Reaches(E, from, to)
  {
    forall p | WalkFromTo(E, p, from, to) ensures false {
      ClosedWalk(E, visited, p);
    }
  }

  ghost predicate DependentsMatch(edges: map<string, set<string>>, dependents: map<string, seq<string>>)
  {
    && dependents.Keys == edges.Keys
    && (forall b :: b in edges ==> Distinct(dependents[b]) && Elements(dependents[b]) == edges[b])
  }

  ghost predicate DegreesMatch(vertices: set<string>, E: set<Edge>, indegree: map<string, int>)
  {
    && indegree.Keys == vertices
    && (forall v :: v in vertices ==> indegree[v] == |Preds(E, v)|)
  }

  lemma EdgeSetTouch(edges: map<string, set<string>>, b: string)
    requires b !in edges
    ensures EdgeSet(edges[b := {}]) == EdgeSet(edges)
  {
  }

  lemma EdgeSetAdd(edges: map<string, set<string>>, b: string, a: string)
    requires b in edges
    ensures EdgeSet(edges[b := edges[b] + {a}]) == EdgeSet(edges) + {(b, a)}
  {
  }

  lemma DependentsAdd(edges: map<string, set<string>>, dependents: map<string, seq<string>>, b: string, a: string)
    requires DependentsMatch(edges, dependents) && b in edges && a !in edges[b]
    ensures DependentsMatch(edges[b := edges[b] + {a}], dependents[b := dependents[b] + [a]])
  {
    PushFacts(dependents[b], a);
    assert a !in Elements(dependents[b]);
  }

  lemma DegreesAdd(vertices: set<string>, E: set<Edge>, indegree: map<string, int>, b: string, a: string)
    requires DegreesMatch(vertices, E, indegree) && a in vertices && (b, a) !in E
    ensures DegreesMatch(vertices, E + {(b, a)}, indegree[a := indegree[a] + 1])
  {
    hide Preds;
    forall v | v in vertices
      ensures indegree[a := indegree[a] + 1][v] == |Preds(E + {(b, a)}, v)|
    {
      PredsAfterAdd(E, b, a, v);
    }
  }

  /** The maps that the source's closures addBefore and addInferredBefore share. */
  class StepGraph {
    const vertices: set<string>
    var edges: map<string, set<string>>
    var dependents: map<string, seq<string>>
    var indegree: map<string, int>

    ghost function Edges(): set<Edge>
      reads this`edges
    {
      EdgeSet(edges)
    }

    ghost predicate Valid()
      reads this
    {
      && (forall e :: e in Edges() ==> Endpoints(vertices, e))
      && DependentsMatch(edges, dependents)
      && DegreesMatch(vertices, Edges(), indegree)
    }

    constructor (addresses: set<string>)
      ensures Valid() && vertices == addresses && Edges() == {}
    {
      vertices := addresses;
      edges := map[];
      dependents := map[];
      indegree := map a | a in addresses :: 0;
      new;
      assert Edges() == {};
      assert forall v :: Preds({}, v) == {};
    }

    method AddBefore(before: string, after: string)
      requires Valid()
      modifies this
      ensures Valid()
      ensures Edges() == old(Edges()) + if Endpoints(vertices, (before, after)) then {(before, after)} else {}
    {
      if before !in vertices || after !in vertices {
        return;
      }
      if before !in edges {
        EdgeSetTouch(edges, before);
        edges := edges[before := {}];
        dependents := dependents[before := []];
      }
      if after in edges[before] {
        assert Edges() == Edges() + {(before, after)};
        return;
      }
      Link(before, after);
    }

    /** The tail of addBefore: record the new edge in all three maps. */
    method Link(before: string, after: string)
      requires Valid() && before in edges && after !in edges[before] && Endpoints(vertices, (before, after))
      modifies this
      ensures Valid()
      ensures Edges() == old(Edges()) + {(before, after)}
    {
      EdgeSetAdd(edges, before, after);
      DependentsAdd(edges, dependents, before, after);
      DegreesAdd(vertices, Edges(), indegree, before, after);
      hide *;
      edges := edges[before := edges[before] + {after}];
      dependents := dependents[before := dependents[before] + [after]];
      indegree := indegree[after := indegree[after] + 1];
      LinkedValid(old(Edges()), (before, after));
    }

    lemma LinkedValid(E: set<Edge>, e: Edge)
      requires forall f :: f in E ==> Endpoints(vertices, f)
      requires Edges() == E + {e} && Endpoints(vertices, e)
      requires DependentsMatch(edges, dependents) && DegreesMatch(vertices, E + {e}, indegree)
      ensures Valid()
    {
    }

    /** `actionPathExists`: depth-first search with an explicit stack. */
    method PathExists(from: string, to: string) returns (found: bool)
      requires Valid()
      ensures found <==> Reaches(Edges(), from, to)
    {
      if from == to {
        ReachSelf(Edges(), from);
        return true;
      }
      ReachSelf(Edges(), from);
      var visited := {from};
      var stack := [from];
      while |stack| > 0
        invariant Explored(Edges(), from, to, visited, stack, {}, from)
        invariant visited <= vertices + {from}
        decreases |vertices + {from} - visited|, |stack|
      {
        var address := stack[|stack| - 1];
        PopExplored(Edges(), from, to, visited, stack, Next(address));
        ghost var visited0, stack0 := visited, stack;
        stack := stack[..|stack| - 1];
        var next := if address in edges then edges[address] else {};
        while next != {}
          invariant Explored(Edges(), from, to, visited, stack, next, address)
          invariant next <= Next(address)
          invariant visited0 <= visited <= vertices + {from}
          invariant visited == visited0 ==> |stack| < |stack0|
          decreases next
        {
          var n :| n in next;
          assert (address, n) in Edges();
          if n == to {
            ReachEdge(Edges(), address, n);
            ReachTrans(Edges(), from, address, n);
            return true;
          }
          VisitExplored(Edges(), from, to, visited, stack, next, address, n);
          next := next - {n};
          if n !in visited {
            visited := visited + {n};
            stack := stack + [n];
          }
        }
        if visited != visited0 {
          SmallerSet(vertices + {from} - visited, vertices + {from} - visited0);
        }
        DoneExplored(Edges(), from, to, visited, stack, address);
      }
      NotExplored(Edges(), from, to, visited);
      return false;
    }

    ghost function Next(address: string): set<string>
      reads this
    {
      if address in edges then edges[address] else {}
    }

    method AddInferredBefore(before: string, after: string)
      requires Valid()
      modifies this
      ensures Valid()
      ensures Edges() == AddIfNoPath(old(Edges()), (before, after), vertices)
    {
      var path := PathExists(after, before);
      if path {
        return;
      }
      AddBefore(before, after);
    }

    /** `sort.SliceStable` by rank on every list of dependents. */
    method SortDependents(rank: map<string, nat>)
      requires Valid() && vertices <= rank.Keys
      requires forall u, v :: u in rank && v in rank && rank[u] == rank[v] ==> u == v
      modifies this`dependents
      ensures Valid() && forall b :: b in dependents ==> Ranked(dependents[b], rank)
    {
      var rest := dependents.Keys;
      while rest != {}
        invariant rest <= dependents.Keys
        invariant forall b :: b in dependents && b !in rest ==> Ranked(dependents[b], rank)
        invariant DependentsMatch(edges, dependents)
        decreases rest
      {
        var b :| b in rest;
        rest := rest - {b};
        forall a | a in dependents[b] ensures a in rank {
          assert a in Elements(dependents[b]);
          assert Endpoints(vertices, (b, a));
        }
        var s := SortByRank(dependents[b], rank);
        assert Elements(s) == Elements(dependents[b]);
        dependents := dependents[b := s];
      }
    }

    /** Everything whose count is already zero, in the arbitrary order of a map range. */
    method InitialReady() returns (ready: seq<string>)
      requires Valid()
      ensures Distinct(ready) && forall v :: v in ready <==> v in vertices && indegree[v] == 0
    {
      ready := [];
      var rest := indegree.Keys;
      while rest != {}
        invariant rest <= indegree.Keys
        invariant Distinct(ready)
        invariant forall v :: v in ready <==> v in indegree && v !in rest && indegree[v] == 0
        decreases rest
      {
        var v :| v in rest;
        rest := rest - {v};
        if indegree[v] == 0 {
          PushFacts(ready, v);
          ready := ready + [v];
        }
      }
    }

    /** One dependent of an emitted address waits for one step fewer. */
    method CountOne(ghost rem: seq<string>, ghost rank: map<string, nat>,
                    ready: seq<string>, ghost pending: seq<string>, dependent: string)
      returns (ready': seq<string>)
      requires pending != [] && pending[0] == dependent && MidState(Edges(), rem, rank, indegree, ready, pending)
      modifies this`indegree
      ensures MidState(Edges(), rem, rank, indegree, ready', pending[1..])
    {
      hide *;
      PendingKnown(Edges(), rem, rank, indegree, ready, pending);
      ghost var indegree0 := indegree;
      ready' := ready;
      indegree := indegree[dependent := indegree[dependent] - 1];
      if indegree[dependent] == 0 {
        ready' := ready + [dependent];
      }
      CountDown(Edges(), rem, rank, indegree0, ready, pending, indegree, ready');
    }

    /** Count down the dependents of the emitted address, then re-sort the ready list. */
    method Emit(ghost rem: seq<string>, rank: map<string, nat>, ready: seq<string>)
      returns (ready': seq<string>, ghost rem': seq<string>)
      requires DependentsMatch(edges, dependents)
      requires KahnState(Edges(), rem, rank, indegree, ready) && |ready| > 0
      modifies this`indegree
      ensures KahnState(Edges(), rem', rank, indegree, ready')
      ensures |rem'| < |rem| && LeastOrder(rem, Edges()) == [ready[0]] + LeastOrder(rem', Edges())
    {
      var address := ready[0];
      var deps := if address in dependents then dependents[address] else [];
      DependentsAre(address, deps);
      hide *;
      rem' := PopHead(Edges(), rem, rank, indegree, ready, deps);
      ready' := ready[1..];
      assert deps[0..] == deps;
      for k := 0 to |deps|
        invariant MidState(Edges(), rem', rank, indegree, ready', deps[k..])
      {
        DropNext(deps, k);
        ready' := CountOne(rem', rank, ready', deps[k..], deps[k]);
      }
      DropAll(deps);
      ReadySortable(Edges(), rem', rank, indegree, ready');
      ghost var ready0 := ready';
      ready' := SortByRank(ready', rank);
      Resorted(Edges(), rem', rank, indegree, ready0, ready');
    }

    /** The priority loop: emit the ready step of smallest rank until none is ready. */
    method Drain(ghost prio: seq<string>, rank: map<string, nat>) returns (ordered: seq<string>)
      requires Valid() && Distinct(prio) && Elements(prio) == vertices
      requires rank.Keys == vertices && forall i :: 0 <= i < |prio| ==> rank[prio[i]] == i
      modifies this`indegree
      ensures ordered == LeastOrder(prio, Edges())
    {
      hide *;
      RankInjective(prio, rank);
      var found := InitialReady();
      var ready := SortByRank(found, rank);
      ordered := [];
      ghost var rem := prio;
      SamePermuted(ready, found);
      StartState(Edges(), prio, rank, indegree, ready);
      assert ordered + LeastOrder(rem, Edges()) == LeastOrder(prio, Edges());
      while |ready| > 0
        invariant KahnState(Edges(), rem, rank, indegree, ready)
        invariant DependentsMatch(edges, dependents)
        invariant ordered + LeastOrder(rem, Edges()) == LeastOrder(prio, Edges())
        decreases |rem|
      {
        var address := ready[0];
        ghost var rem0 := rem;
        ready, rem := Emit(rem, rank, ready);
        NextLeast(ordered, address, rem, rem0, prio, Edges());
        ordered := ordered + [address];
      }
      Finish(Edges(), rem, rank, indegree, ready);
    }

    lemma DependentsAre(address: string, deps: seq<string>)
      requires DependentsMatch(edges, dependents) && deps == if address in dependents then dependents[address] else []
      ensures Distinct(deps) && forall v :: v in deps <==> (address, v) in Edges()
    {
      forall v ensures v in deps <==> (address, v) in Edges() {
        assert v in deps <==> v in Elements(deps);
      }
    }

    lemma StartState(E: set<Edge>, prio: seq<string>, rank: map<string, nat>, indegree: map<string, int>,
                     ready: seq<string>)
      requires Valid() && E == Edges() && indegree == this.indegree && Distinct(prio) && Elements(prio) == vertices
      requires rank.Keys == vertices && forall i :: 0 <= i < |prio| ==> rank[prio[i]] == i
      requires Ranked(ready, rank) && Distinct(ready)
      requires forall v :: v in ready <==> v in vertices && indegree[v] == 0
      ensures KahnState(E, prio, rank, indegree, ready) && DependentsMatch(edges, dependents)
    {
      assert forall v :: v in prio <==> v in Elements(prio);
      forall v | v in vertices ensures PredsIn(E, prio, v) == Preds(E, v) {
        forall u ensures u in PredsIn(E, prio, v) <==> u in Preds(E, v) {
          InPreds(E, u, v);
          assert (u, v) in E ==> Endpoints(vertices, (u, v));
        }
      }
      forall e | e in E ensures e.1 in indegree {
        assert Endpoints(vertices, e);
      }
    }
  }

  // ---- orderStepsForExecution ----

  function StepFor(steps: seq<Step>, address: string): (s: Step)
    requires address in StepAddresses(steps)
    ensures s in steps && s.address == address
  {
    steps[IndexOf(StepAddresses(steps), address)]
  }

  ghost function ExecutionOrder(steps: seq<Step>): seq<string>
  {
    LeastOrder(StepAddresses(steps), FinalEdges(steps))
  }

  /** The first step whose address is empty or already taken. */
  ghost predicate AddressErrorAt(steps: seq<Step>, k: nat, error: OrderError)
  {
    && k < |steps| && WellAddressed(steps[..k])
    && if steps[k].address == "" then error == EmptyAddress
       else steps[k].address in StepAddresses(steps[..k]) && error == DuplicateStep(steps[k].address)
  }

  method IndexSteps(steps: seq<Step>)
    returns (r: Result<(map<string, Step>, map<string, nat>), OrderError>)
    ensures r.Ok? <==> WellAddressed(steps)
    ensures r.Err? ==> exists k :: AddressErrorAt(steps, k, r.error)
    ensures r.Ok? ==> IndexMatches(steps, r.value.0, r.value.1)
  {
    var byAddress: map<string, Step>, rank: map<string, nat> := map[], map[];
    for index := 0 to |steps|
      invariant WellAddressed(steps[..index])
      invariant IndexMatches(steps[..index], byAddress, rank)
    {
      var step := steps[index];
      TakeNext(steps, index);
      NextAddress(steps, index);
      if step.address == "" {
        assert AddressErrorAt(steps, index, EmptyAddress);
        return Err(EmptyAddress);
      }
      if step.address in byAddress {
        assert AddressErrorAt(steps, index, DuplicateStep(step.address));
        return Err(DuplicateStep(step.address));
      }
      byAddress := byAddress[step.address := step];
      rank := rank[step.address := index];
    }
    assert steps[..|steps|] == steps;
    r := Ok((byAddress, rank));
  }

  ghost predicate IndexMatches(steps: seq<Step>, byAddress: map<string, Step>, rank: map<string, nat>)
  {
    && (forall a :: a in byAddress <==> a in StepAddresses(steps))
    && (forall a :: a in rank <==> a in StepAddresses(steps))
    && (forall i :: 0 <= i < |steps| ==> rank[StepAddresses(steps)[i]] == i && byAddress[StepAddresses(steps)[i]] == steps[i])
  }

  lemma NextAddress(steps: seq<Step>, n: nat)
    requires n < |steps|
    ensures StepAddresses(steps[..n + 1]) == StepAddresses(steps[..n]) + [steps[n].address]
    ensures forall x :: x in StepAddresses(steps[..n + 1]) <==> x in StepAddresses(steps[..n]) || x == steps[n].address
    ensures WellAddressed(steps) ==> steps[n].address != "" && steps[n].address !in StepAddresses(steps[..n])
  {
    var a, b := StepAddresses(steps[..n + 1]), StepAddresses(steps[..n]);
    assert a == b + [steps[n].address];
    var all := StepAddresses(steps);
    assert all[n] in all;
    assert forall i :: 0 <= i < n ==> b[i] == all[i];
  }

  lemma RemovedStep(steps: seq<Step>, byAddress: map<string, Step>, rank: map<string, nat>, d: string)
    requires WellAddressed(steps) && IndexMatches(steps, byAddress, rank)
    ensures IsRemoved(steps, d) <==> d in byAddress && RemovesRemoteObject(byAddress[d].action)
  {
    var all := StepAddresses(steps);
    if IsRemoved(steps, d) {
      var k :| 0 <= k < |steps| && steps[k].address == d && RemovesRemoteObject(steps[k].action);
      assert all[k] == d;
    }
    if d in byAddress {
      var k :| 0 <= k < |all| && all[k] == d;
      assert steps[k].address == d;
    }
  }

  lemma OrientedIs(steps: seq<Step>, byAddress: map<string, Step>, rank: map<string, nat>, s: Step, d: string)
    requires WellAddressed(steps) && IndexMatches(steps, byAddress, rank)
    ensures Oriented(steps, s, d) ==
            if s.IsOrphan() || (d in byAddress && RemovesRemoteObject(byAddress[d].action))
            then (s.address, d) else (d, s.address)
  {
    RemovedStep(steps, byAddress, rank, d);
  }

  lemma AuthoredFromNone(steps: seq<Step>, s: Step, deps: seq<string>)
    ensures AuthoredFrom(steps, s, deps[..0]) == {} && deps[..|deps|] == deps
  {
  }

  lemma AuthoredFromNext(steps: seq<Step>, s: Step, deps: seq<string>, j: nat)
    requires j < |deps|
    ensures AuthoredFrom(steps, s, deps[..j + 1]) == AuthoredFrom(steps, s, deps[..j]) +
            if Endpoints(Vertices(steps), Oriented(steps, s, deps[j])) then {Oriented(steps, s, deps[j])} else {}
  {
    TakeNext(deps, j);
    assert deps[j] in deps[..j + 1];
  }

  lemma AuthoredFromCanonical(steps: seq<Step>, s: Step, deps: seq<string>)
    ensures AuthoredFrom(steps, s, Canonical(deps)) == AuthoredFrom(steps, s, deps)
  {
    assert forall d :: d in Canonical(deps) <==> d in Elements(Canonical(deps));
    assert forall d :: d in deps <==> d in Elements(deps);
  }

  /** The loop over one step's canonical authored dependencies. */
  method AddAuthoredOf(g: StepGraph, ghost steps: seq<Step>,
                       byAddress: map<string, Step>, ghost rank: map<string, nat>, s: Step)
    requires g.Valid() && g.vertices == Vertices(steps)
    requires WellAddressed(steps) && IndexMatches(steps, byAddress, rank)
    modifies g
    ensures g.Valid() && g.Edges() == old(g.Edges()) + AuthoredFrom(steps, s, AuthoredDeps(s))
  {
    hide *;
    var deps := CanonicalAddresses(AuthoredDeps(s));
    ghost var E := g.Edges();
    AuthoredFromNone(steps, s, deps);
    for j := 0 to |deps|
      invariant g.Valid() && g.Edges() == E + AuthoredFrom(steps, s, deps[..j])
    {
      OrientedIs(steps, byAddress, rank, s, deps[j]);
      AuthoredFromNext(steps, s, deps, j);
      if s.IsOrphan() || (deps[j] in byAddress && RemovesRemoteObject(byAddress[deps[j]].action)) {
        g.AddBefore(s.address, deps[j]);
      } else {
        g.AddBefore(deps[j], s.address);
      }
    }
    AuthoredFromCanonical(steps, s, AuthoredDeps(s));
  }

  lemma AuthoredNext(steps: seq<Step>, n: nat)
    requires n < |steps|
    ensures AuthoredUpTo(steps, n + 1) ==
            AuthoredUpTo(steps, n) + AuthoredFrom(steps, steps[n], AuthoredDeps(steps[n]))
  {
  }

  lemma InferredNext(steps: seq<Step>, n: nat)
    requires n < |steps|
    ensures Inferred(steps[..n + 1]) == Inferred(steps[..n]) + InferredOf(steps[n])
  {
    assert steps[..n + 1][..n] == steps[..n];
  }

  lemma InferredFromNext(deps: seq<string>, j: nat, explicit: seq<string>, address: string)
    requires j < |deps|
    ensures InferredFrom(deps[..j + 1], explicit, address) ==
            InferredFrom(deps[..j], explicit, address) + if deps[j] in explicit then [] else [(deps[j], address)]
  {
    assert deps[..j + 1][..j] == deps[..j];
  }

  lemma AddInferredNext(E: set<Edge>, before: seq<Edge>, e: Edge, vertices: set<string>)
    ensures AddInferred(E, before + [e], vertices) == AddIfNoPath(AddInferred(E, before, vertices), e, vertices)
  {
    assert (before + [e])[..|before|] == before;
  }

  lemma InferredPush(before: seq<Edge>, deps: seq<string>, j: nat, explicit: seq<string>, address: string)
    requires j < |deps|
    ensures before + InferredFrom(deps[..j + 1], explicit, address) ==
            before + InferredFrom(deps[..j], explicit, address) + if deps[j] in explicit then [] else [(deps[j], address)]
    ensures deps[j] in explicit ==>
              before + InferredFrom(deps[..j + 1], explicit, address) == before + InferredFrom(deps[..j], explicit, address)
  {
    InferredFromNext(deps, j, explicit, address);
  }

  lemma InferredStart(before: seq<Edge>, deps: seq<string>, explicit: seq<string>, address: string)
    ensures before + InferredFrom(deps[..0], explicit, address) == before
  {
  }

  lemma InferredIs(s: Step)
    ensures !s.IsOrphan() ==> InferredOf(s) == InferredFrom(Canonical(s.node.dependsOn), s.node.explicitDependsOn, s.address)
  {
  }

  /** The loop over one node's canonical inferred dependencies. */
  method AddInferredOf(g: StepGraph, s: Step, ghost E: set<Edge>, ghost before: seq<Edge>)
    requires g.Valid() && g.Edges() == AddInferred(E, before, g.vertices)
    modifies g
    ensures g.Valid() && g.Edges() == AddInferred(E, before + InferredOf(s), g.vertices)
  {
    if s.IsOrphan() {
      assert before + InferredOf(s) == before;
      return;
    }
    var explicit := CanonicalAddresses(s.node.explicitDependsOn);
    var deps := CanonicalAddresses(s.node.dependsOn);
    ghost var ex := s.node.explicitDependsOn;
    CanonicalMembers(ex);
    InferredStart(before, deps, ex, s.address);
    InferredIs(s);
    hide *;
    for j := 0 to |deps|
      invariant g.Valid() && g.Edges() == AddInferred(E, before + InferredFrom(deps[..j], ex, s.address), g.vertices)
    {
      InferredPush(before, deps, j, ex, s.address);
      ghost var sofar := before + InferredFrom(deps[..j], ex, s.address);
      if deps[j] in explicit {
        continue;
      }
      g.AddInferredBefore(deps[j], s.address);
      AddInferredNext(E, sofar, (deps[j], s.address), g.vertices);
    }
    assert deps[..|deps|] == deps;
  }

  method BuildEdges(steps: seq<Step>, byAddress: map<string, Step>, ghost rank: map<string, nat>) returns (g: StepGraph)
    requires WellAddressed(steps) && IndexMatches(steps, byAddress, rank)
    ensures fresh(g) && g.Valid() && g.vertices == Vertices(steps) && g.Edges() == FinalEdges(steps)
  {
    assert byAddress.Keys == Vertices(steps);
    g := new StepGraph(byAddress.Keys);
    for i := 0 to |steps|
      invariant fresh(g) && g.Valid() && g.vertices == Vertices(steps) && g.Edges() == AuthoredUpTo(steps, i)
    {
      AddAuthoredOf(g, steps, byAddress, rank, steps[i]);
      AuthoredNext(steps, i);
    }
    for i := 0 to |steps|
      invariant fresh(g) && g.Valid() && g.vertices == Vertices(steps)
      invariant g.Edges() == AddInferred(Authored(steps), Inferred(steps[..i]), Vertices(steps))
    {
      AddInferredOf(g, steps[i], Authored(steps), Inferred(steps[..i]));
      InferredNext(steps, i);
    }
    assert steps[..|steps|] == steps;
  }

  /** The whole sort. A well-addressed plan is either ordered greedily by input position under the
      final edges, or a true cycle of those edges is reported. */
  method OrderStepsForExecution(steps: seq<Step>) returns (r: Result<seq<Step>, OrderError>)
    ensures r.Ok? ==> WellAddressed(steps) && Acyclic(FinalEdges(steps))
    ensures r.Ok? ==> StepAddresses(r.value) == ExecutionOrder(steps) && forall s :: s in r.value ==> s in steps
    ensures r.Err? && WellAddressed(steps) ==>
              r.error.StepCycle? && IsCanonicalCycle(FinalEdges(steps), r.error.cycle)
    ensures r.Err? && !WellAddressed(steps) ==> exists k :: AddressErrorAt(steps, k, r.error)
  {
    hide *;
    var index := IndexSteps(steps);
    if index.Err? {
      return Err(index.error);
    }
    var (byAddress, rank) := index.value;
    var g := BuildEdges(steps, byAddress, rank);
    PriorityIs(steps, byAddress, rank);
    g.SortDependents(rank);
    var order := g.Drain(StepAddresses(steps), rank);
    OrderFacts(steps, byAddress, rank, order);
    if |order| != |steps| {
      var cycle := ReportCycle(g, byAddress.Keys, steps);
      return Err(StepCycle(cycle));
    }
    var ordered := seq(|order|, i requires 0 <= i < |order| && order[i] in byAddress => byAddress[order[i]]);
    SameSteps(steps, byAddress, rank, order, ordered);
    return Ok(ordered);
  }

  lemma PriorityIs(steps: seq<Step>, byAddress: map<string, Step>, rank: map<string, nat>)
    requires WellAddressed(steps) && IndexMatches(steps, byAddress, rank)
    ensures var prio := StepAddresses(steps);
            && Distinct(prio) && Elements(prio) == Vertices(steps) == rank.Keys == byAddress.Keys
            && (forall i :: 0 <= i < |prio| ==> rank[prio[i]] == i)
    ensures forall u, v :: u in rank && v in rank && rank[u] == rank[v] ==> u == v
  {
    RankInjective(StepAddresses(steps), rank);
  }

  lemma OrderFacts(steps: seq<Step>, byAddress: map<string, Step>, rank: map<string, nat>, order: seq<string>)
    requires WellAddressed(steps) && IndexMatches(steps, byAddress, rank)
    requires order == LeastOrder(StepAddresses(steps), FinalEdges(steps))
    ensures forall i :: 0 <= i < |order| ==> order[i] in byAddress
    ensures |order| == |steps| <==> Acyclic(FinalEdges(steps))
    ensures order == ExecutionOrder(steps)
  {
    FinalEdgesWithin(steps);
    ExecutionOrderIs(steps);
    hide FinalEdges, IndexMatches, ExecutionOrder, LeastOrder, Acyclic;
    PriorityIs(steps, byAddress, rank);
    LeastOrderComplete(StepAddresses(steps), FinalEdges(steps));
    LeastOrderDistinct(StepAddresses(steps), FinalEdges(steps));
    forall i | 0 <= i < |order| ensures order[i] in byAddress {
      assert order[i] in order;
      assert order[i] in Elements(StepAddresses(steps));
    }
  }

  lemma ExecutionOrderIs(steps: seq<Step>)
    ensures ExecutionOrder(steps) == LeastOrder(StepAddresses(steps), FinalEdges(steps))
  {
  }

  /** `actionDependencyCycle`. Its "unknown" fallback is unreachable here: a sort that stops early has a cycle. */
  method ReportCycle(g: StepGraph, vertices: set<string>, ghost steps: seq<Step>) returns (cycle: seq<string>)
    requires g.Edges() == FinalEdges(steps) && vertices == Vertices(steps) && !Acyclic(FinalEdges(steps))
    ensures IsCanonicalCycle(FinalEdges(steps), cycle)
  {
    FinalEdgesWithin(steps);
    var adjacency := map a | a in vertices :: if a in g.edges then g.edges[a] else {};
    forall e ensures e in EdgeSet(adjacency) <==> e in g.Edges() {
      if e in g.Edges() { assert Endpoints(vertices, e); }
    }
    forall e | e in EdgeSet(adjacency) ensures e.1 in adjacency {
      assert Endpoints(vertices, e);
    }
    assert EdgeSet(adjacency) == g.Edges();
    var found := FindCycle(adjacency);
    cycle := found.value;
  }

  lemma SameSteps(steps: seq<Step>, byAddress: map<string, Step>, rank: map<string, nat>, order: seq<string>,
                  ordered: seq<Step>)
    requires WellAddressed(steps) && IndexMatches(steps, byAddress, rank)
    requires |ordered| == |order| && forall i :: 0 <= i < |order| ==> order[i] in byAddress && ordered[i] == byAddress[order[i]]
    ensures StepAddresses(ordered) == order && forall s :: s in ordered ==> s in steps
  {
    forall i | 0 <= i < |order| ensures ordered[i] in steps && ordered[i].address == order[i] {
      var k :| 0 <= k < |steps| && StepAddresses(steps)[k] == order[i];
      assert byAddress[StepAddresses(steps)[k]] == steps[k];
    }
  }

  lemma {:induction false} AddInferredWithin(E: set<Edge>, candidates: seq<Edge>, vertices: set<string>)
    requires forall e :: e in E ==> Endpoints(vertices, e)
    ensures forall e :: e in AddInferred(E, candidates, vertices) ==> Endpoints(vertices, e)
    ensures E <= AddInferred(E, candidates, vertices)
  {
    if candidates != [] {
      AddInferredWithin(E, candidates[..|candidates| - 1], vertices);
    }
  }

  lemma {:induction false} AuthoredWithin(steps: seq<Step>, n: nat)
    requires n <= |steps|
    ensures forall e :: e in AuthoredUpTo(steps, n) ==> Endpoints(Vertices(steps), e)
  {
    if n > 0 { AuthoredWithin(steps, n - 1); }
  }

  lemma FinalEdgesWithin(steps: seq<Step>)
    ensures Within(FinalEdges(steps), StepAddresses(steps))
    ensures forall e :: e in FinalEdges(steps) ==> Endpoints(Vertices(steps), e)
    ensures Authored(steps) <= FinalEdges(steps)
  {
    AuthoredWithin(steps, |steps|);
    AddInferredWithin(Authored(steps), Inferred(steps), Vertices(steps));
  }
}
