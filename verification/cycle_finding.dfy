/** The depth-first search that names a cycle. The plan ordering (edges point from a step to the
    steps after it) and the graph validation (edges point from a node to its dependencies) run the
    same search; they differ only in the edges they hand it. */
module CycleFinding {
  import opened Addresses
  import opened Digraph
  import opened Model

  datatype Mark = Unvisited | Visiting | Visited

  ghost function EdgeSet(edges: map<string, set<string>>): set<Edge>
  {
    set a, b | a in edges && b in edges[a] :: (a, b)
  }

  /** A closed walk without repetition that starts at its smallest address. */
  ghost predicate IsCanonicalCycle(E: set<Edge>, c: seq<string>)
  {
    && IsCycle(E, c)
    && Distinct(c[..|c| - 1])
    && forall x :: x in c ==> x == c[0] || Less(c[0], x)
  }

  /** The closed walk out is cycle, entered at another place. */
  ghost predicate IsRotation(cycle: seq<string>, out: seq<string>)
    requires cycle != []
  {
    exists k :: 0 <= k < |cycle| && out == cycle[k..|cycle| - 1] + cycle[..k] + [cycle[k]]
  }

  /** `canonicalActionCycle` and `canonicalDependencyCycle`: rotate to the smallest address. */
  method CanonicalCycle(cycle: seq<string>, ghost E: set<Edge>) returns (out: seq<string>)
    requires IsCycle(E, cycle) && Distinct(cycle[..|cycle| - 1])
    ensures IsCanonicalCycle(E, out)
    ensures |out| == |cycle| && Elements(out) == Elements(cycle)
    ensures IsRotation(cycle, out)
  {
    if |cycle| <= 2 {
      assert cycle == cycle[0..|cycle| - 1] + cycle[..0] + [cycle[0]];
      return cycle;
    }
    hide IsCycle, Less, IsRotation, IsCanonicalCycle;
    var unique := cycle[..|cycle| - 1];
    var start := 0;
    for index := 1 to |unique|
      invariant 0 <= start < |unique|
      invariant forall i :: 0 <= i < index ==> unique[i] == unique[start] || Less(unique[start], unique[i])
    {
      LessTrichotomy(unique[index], unique[start]);
      if Less(unique[index], unique[start]) {
        forall i | 0 <= i < index && unique[i] != unique[start] ensures Less(unique[index], unique[i]) {
          LessTrans(unique[index], unique[start], unique[i]);
        }
        start := index;
      }
    }
    out := unique[start..] + unique[..start];
    out := out + [out[0]];
    assert out == cycle[start..|cycle| - 1] + cycle[..start] + [cycle[start]];
    RotationIsCycle(E, cycle, start, out);
    RotatedToSmallest(E, cycle, start, out);
  }

  lemma RotatedToSmallest(E: set<Edge>, cycle: seq<string>, start: nat, out: seq<string>)
    requires start < |cycle| - 1 && cycle[|cycle| - 1] == cycle[0]
    requires forall i :: 0 <= i < |cycle| - 1 ==> cycle[i] == cycle[start] || Less(cycle[start], cycle[i])
    requires out == cycle[start..|cycle| - 1] + cycle[..start] + [cycle[start]]
    requires IsCycle(E, out) && Elements(out) == Elements(cycle) && Distinct(out[..|out| - 1])
    ensures IsCanonicalCycle(E, out) && IsRotation(cycle, out)
  {
    hide Less, IsCycle;
    forall x | x in out ensures x == out[0] || Less(out[0], x) {
      assert x in Elements(cycle);
      var i :| 0 <= i < |cycle| && cycle[i] == x;
    }
  }

  lemma RotationIsCycle(E: set<Edge>, cycle: seq<string>, start: nat, out: seq<string>)
    requires IsCycle(E, cycle) && Distinct(cycle[..|cycle| - 1]) && start < |cycle| - 1
    requires out == cycle[start..|cycle| - 1] + cycle[..start] + [cycle[start]]
    ensures IsCycle(E, out) && |out| == |cycle| && Elements(out) == Elements(cycle)
    ensures Distinct(out[..|out| - 1])
  {
    var n := |cycle| - 1;
    RotationIs(cycle, start, out);
    hide Distinct, Elements;
    forall i, j | 0 <= i && j == i + 1 && j < |out| ensures (out[i], out[j]) in E {
      var k := if i < n - start then i + start else i + start - n;
      assert (cycle[k], cycle[k + 1]) in E;
      assert out[i] == cycle[k] && out[j] == cycle[k + 1];
    }
  }

  /** The elements of a rotation, place by place. */
  lemma RotationIs(cycle: seq<string>, start: nat, out: seq<string>)
    requires start < |cycle| - 1 && cycle[0] == cycle[|cycle| - 1] && Distinct(cycle[..|cycle| - 1])
    requires out == cycle[start..|cycle| - 1] + cycle[..start] + [cycle[start]]
    ensures |out| == |cycle| && Elements(out) == Elements(cycle) && Distinct(out[..|out| - 1])
    ensures var n := |cycle| - 1;
            forall i :: 0 <= i < n ==> out[i] == if i < n - start then cycle[i + start] else cycle[i + start - n]
  {
    var n := |cycle| - 1;
    forall x ensures x in out <==> x in cycle {
      if x in cycle {
        var k :| 0 <= k < |cycle| && cycle[k] == x;
        var k' := if k == n then 0 else k;
        assert out[if k' >= start then k' - start else k' + n - start] == x;
      }
    }
    var u := cycle[..n];
    assert forall i :: 0 <= i < n ==> out[..n][i] == u[if i < n - start then i + start else i + start - n];
  }

  ghost predicate EdgesMatch(E: set<Edge>, edges: map<string, set<string>>)
  {
    && (forall a, b :: (a, b) in E <==> a in edges && b in edges[a])
    && (forall e :: e in E ==> e.1 in edges)
  }

  ghost predicate MarksMatch(state: map<string, Mark>, stack: seq<string>, finished: map<string, int>)
  {
    && (forall v :: v in stack <==> v in state && state[v] == Visiting)
    && (forall v :: v in finished <==> v in state && state[v] == Visited)
  }

  ghost predicate StackMatch(E: set<Edge>, stack: seq<string>, stackIndex: map<string, nat>)
  {
    && Distinct(stack)
    && (forall v :: v in stackIndex <==> v in stack)
    && (forall i :: 0 <= i < |stack| ==> stackIndex[stack[i]] == i)
    && (stack != [] ==> IsWalk(E, stack))
  }

  /** Every edge out of a finished address leads to one that finished earlier. */
  ghost predicate Settled(E: set<Edge>, finished: map<string, int>, clock: int)
  {
    && (forall v :: v in finished ==> finished[v] < clock)
    && (forall e :: e in E && e.0 in finished ==> e.1 in finished && finished[e.1] < finished[e.0])
  }

  lemma PushStack(E: set<Edge>, stack: seq<string>, stackIndex: map<string, nat>, address: string)
    requires StackMatch(E, stack, stackIndex) && address !in stack
    requires stack != [] ==> (stack[|stack| - 1], address) in E
    ensures StackMatch(E, stack + [address], stackIndex[address := |stack|])
  {
    PushFacts(stack, address);
    var t := stack + [address];
    assert forall i :: 0 <= i < |stack| ==> stack[i] in stack;
    forall i, j | 0 <= i && j == i + 1 && j < |t| ensures (t[i], t[j]) in E {
      if j < |stack| { assert (stack[i], stack[j]) in E; }
    }
  }

  lemma PopStack(E: set<Edge>, stack: seq<string>, stackIndex: map<string, nat>, address: string)
    requires StackMatch(E, stack + [address], stackIndex)
    ensures StackMatch(E, stack, stackIndex - {address})
    ensures address !in stack
  {
    var t := stack + [address];
    PushFacts(stack, address);
    assert forall i :: 0 <= i < |stack| ==> t[i] == stack[i];
    assert t[|stack|] == address;
    if stack != [] {
      SubWalk(E, t, 0, |stack| - 1);
      assert t[0..|stack|] == stack;
    }
  }

  lemma PushMarks(state: map<string, Mark>, stack: seq<string>, address: string, finished: map<string, int>)
    requires MarksMatch(state, stack, finished) && address in state && state[address] == Unvisited
    ensures MarksMatch(state[address := Visiting], stack + [address], finished)
  {
    PushFacts(stack, address);
  }

  lemma PopMarks(state: map<string, Mark>, stack: seq<string>, address: string, finished: map<string, int>, clock: int)
    requires MarksMatch(state, stack + [address], finished) && address !in stack
    ensures address in state && address !in finished
    ensures MarksMatch(state[address := Visited], stack, finished[address := clock])
  {
    PushFacts(stack, address);
    assert address in stack + [address];
  }

  lemma SettleNext(E: set<Edge>, finished: map<string, int>, clock: int, address: string)
    requires Settled(E, finished, clock) && address !in finished
    requires forall b :: (address, b) in E ==> b in finished
    ensures Settled(E, finished[address := clock], clock + 1)
  {
    forall e | e in E && e.0 == address ensures e.1 in finished {
      assert (address, e.1) in E;
    }
  }

  /** The variables that the recursive closure `visit` captures. The finishing times are proof-only. */
  datatype Search = Search(
    state: map<string, Mark>,
    stack: seq<string>,
    stackIndex: map<string, nat>,
    finished: map<string, int>,
    clock: int)

  ghost predicate Valid(E: set<Edge>, edges: map<string, set<string>>, s: Search)
  {
    match s
    case Search(state, stack, stackIndex, finished, clock) =>
      && EdgesMatch(E, edges)
      && state.Keys == edges.Keys
      && MarksMatch(state, stack, finished)
      && StackMatch(E, stack, stackIndex)
      && Settled(E, finished, clock)
  }

  ghost function Unseen(edges: map<string, set<string>>, s: Search): set<string>
  {
    edges.Keys - Elements(s.stack) - s.finished.Keys
  }

  function Enter(s: Search, address: string): Search
  {
    s.(state := s.state[address := Visiting], stack := s.stack + [address],
       stackIndex := s.stackIndex[address := |s.stack|])
  }

  function Leave(s: Search, address: string): Search
    requires |s.stack| > 0
  {
    s.(state := s.state[address := Visited], stack := s.stack[..|s.stack| - 1],
       stackIndex := s.stackIndex - {address}, finished := s.finished[address := s.clock], clock := s.clock + 1)
  }

  lemma EnterValid(E: set<Edge>, edges: map<string, set<string>>, s: Search, address: string)
    requires Valid(E, edges, s) && address in edges && s.state[address] == Unvisited
    requires s.stack != [] ==> (s.stack[|s.stack| - 1], address) in E
    ensures Valid(E, edges, Enter(s, address)) && address in Unseen(edges, s)
  {
    PushStack(E, s.stack, s.stackIndex, address);
    PushMarks(s.state, s.stack, address, s.finished);
  }

  lemma LeaveValid(E: set<Edge>, edges: map<string, set<string>>, s: Search, stack0: seq<string>, address: string)
    requires Valid(E, edges, s) && s.stack == stack0 + [address]
    requires forall b :: (address, b) in E ==> b in s.finished
    ensures Valid(E, edges, Leave(s, address)) && Leave(s, address).stack == stack0
  {
    hide EdgesMatch, MarksMatch, StackMatch, Settled;
    PopStack(E, stack0, s.stackIndex, address);
    PopMarks(s.state, stack0, address, s.finished, s.clock);
    SettleNext(E, s.finished, s.clock, address);
    assert s.stack[..|s.stack| - 1] == stack0;
  }

  lemma SuccessorKnown(E: set<Edge>, edges: map<string, set<string>>, s: Search, a: string, b: string)
    requires Valid(E, edges, s) && (a, b) in E
    ensures b in edges && b in s.state
    ensures s.state[b] == Visited ==> b in s.finished
  {
    assert (a, b).1 in edges;
  }

  lemma UnseenShrinks(edges: map<string, set<string>>, s: Search, t: Search)
    requires t.stack == s.stack && s.finished.Keys <= t.finished.Keys
    ensures |Unseen(edges, t)| <= |Unseen(edges, s)|
  {
    SubsetSize(Unseen(edges, t), Unseen(edges, s));
  }

  lemma ShrinkUnseen(edges: map<string, set<string>>, s: Search, t: Search, address: string)
    requires t.stack == s.stack + [address] && s.finished.Keys <= t.finished.Keys
    requires address in Unseen(edges, s)
    ensures |Unseen(edges, t)| < |Unseen(edges, s)|
  {
    PushFacts(s.stack, address);
    SmallerSet(Unseen(edges, t), Unseen(edges, s));
  }

  lemma CloseStack(E: set<Edge>, stack: seq<string>, at: nat)
    requires IsWalk(E, stack) && Distinct(stack) && at < |stack|
    requires (stack[|stack| - 1], stack[at]) in E
    ensures var c := stack[at..] + [stack[at]]; IsCycle(E, c) && Distinct(c[..|c| - 1])
  {
    var c := stack[at..] + [stack[at]];
    SubWalk(E, stack, at, |stack| - 1);
    assert c[..|c| - 1] == stack[at..];
    forall i, j | 0 <= i && j == i + 1 && j < |c| ensures (c[i], c[j]) in E {
      assert c[i] == stack[at + i];
      if j < |c| - 1 { assert c[j] == stack[at + j]; }
    }
  }

  /** A successor is still on the stack: the stack from there on closes a cycle. */
  method CloseCycle(ghost E: set<Edge>, edges: map<string, set<string>>, s: Search, dependent: string)
    returns (cycle: seq<string>)
    requires Valid(E, edges, s) && dependent in s.state && s.state[dependent] == Visiting
    requires s.stack != [] && (s.stack[|s.stack| - 1], dependent) in E
    ensures IsCanonicalCycle(E, cycle)
  {
    assert dependent in s.stack;
    var at := s.stackIndex[dependent];
    CloseStack(E, s.stack, at);
    cycle := CanonicalCycle(s.stack[at..] + [dependent], E);
  }

  /** The recursive closure `visit`. */
  method Visit(ghost E: set<Edge>, edges: map<string, set<string>>, s: Search, address: string)
    returns (found: bool, t: Search, cycle: seq<string>)
    requires Valid(E, edges, s) && address in edges && s.state[address] == Unvisited
    requires s.stack != [] ==> (s.stack[|s.stack| - 1], address) in E
    ensures found ==> IsCanonicalCycle(E, cycle)
    ensures !found ==> Valid(E, edges, t) && t.stack == s.stack
    ensures !found ==> s.finished.Keys + {address} <= t.finished.Keys
    decreases |Unseen(edges, s)|, 0
  {
    hide *;
    EnterValid(E, edges, s, address);
    EnterPushes(s, address);
    ShrinkUnseen(edges, s, Enter(s, address), address);
    var outgoing := SortedKeys(edges[address]);
    Successors(E, edges, s, address, outgoing);
    found, t, cycle := VisitAll(E, edges, Enter(s, address), address, outgoing);
    if !found {
      LeaveValid(E, edges, t, s.stack, address);
      LeaveFinishes(t, address);
      t := Leave(t, address);
    }
  }

  lemma EnterPushes(s: Search, address: string)
    ensures Enter(s, address).stack == s.stack + [address] && Enter(s, address).finished == s.finished
  {
  }

  lemma LeaveFinishes(s: Search, address: string)
    requires |s.stack| > 0
    ensures Leave(s, address).finished.Keys == s.finished.Keys + {address}
  {
  }

  lemma Successors(E: set<Edge>, edges: map<string, set<string>>, s: Search, address: string, outgoing: seq<string>)
    requires Valid(E, edges, s) && address in edges && outgoing == SortedSeq(edges[address])
    ensures forall b :: b in outgoing <==> (address, b) in E
  {
    forall b ensures b in outgoing <==> (address, b) in E {
      assert b in outgoing <==> b in Elements(outgoing);
    }
  }

  lemma CanonicalCycleIsCyclic(E: set<Edge>, cycle: seq<string>)
    requires IsCanonicalCycle(E, cycle)
    ensures !Acyclic(E)
  {
    CyclicIffCycle(E);
  }

  /** The loop of `visit` over the successors of the address on top of the stack. */
  method VisitAll(ghost E: set<Edge>, edges: map<string, set<string>>, s: Search, address: string,
                  outgoing: seq<string>)
    returns (found: bool, t: Search, cycle: seq<string>)
    requires Valid(E, edges, s) && s.stack != [] && s.stack[|s.stack| - 1] == address
    requires forall b :: b in outgoing <==> (address, b) in E
    ensures found ==> IsCanonicalCycle(E, cycle)
    ensures !found ==> Valid(E, edges, t) && t.stack == s.stack && s.finished.Keys <= t.finished.Keys
    ensures !found ==> forall b :: b in outgoing ==> b in t.finished
    decreases |Unseen(edges, s)|, 1
  {
    hide *;
    found, t, cycle := false, s, [];
    for i := 0 to |outgoing|
      invariant Valid(E, edges, t) && t.stack == s.stack && s.finished.Keys <= t.finished.Keys
      invariant forall b :: b in outgoing[..i] ==> b in t.finished.Keys
    {
      TakeNext(outgoing, i);
      var dependent := outgoing[i];
      SuccessorKnown(E, edges, t, address, dependent);
      match t.state[dependent] {
        case Unvisited =>
          UnseenShrinks(edges, s, t);
          found, t, cycle := Visit(E, edges, t, dependent);
          if found {
            return;
          }
        case Visiting =>
          cycle := CloseCycle(E, edges, t, dependent);
          return true, t, cycle;
        case Visited =>
      }
    }
    assert outgoing[..|outgoing|] == outgoing;
    found := false;
  }

  /** `actionDependencyCycle` and `validateAcyclicDependencies`: search from every address in sorted
      order. A cycle is reported exactly when there is one. */
  method FindCycle(edges: map<string, set<string>>) returns (cycle: Option<seq<string>>)
    requires forall e :: e in EdgeSet(edges) ==> e.1 in edges
    ensures cycle.None? <==> Acyclic(EdgeSet(edges))
    ensures cycle.Some? ==> IsCanonicalCycle(EdgeSet(edges), cycle.value)
  {
    hide *;
    ghost var E := EdgeSet(edges);
    var s := Search(map a | a in edges :: Unvisited, [], map[], map[], 0);
    var addresses := SortedKeys(edges.Keys);
    NothingSearched(edges, s, addresses);
    for i := 0 to |addresses|
      invariant Valid(E, edges, s) && s.stack == []
      invariant forall k :: 0 <= k < i ==> addresses[k] in s.finished.Keys
    {
      NotOnStack(E, edges, s, addresses[i]);
      if s.state[addresses[i]] == Unvisited {
        var found, t, c := Visit(E, edges, s, addresses[i]);
        if found {
          CanonicalCycleIsCyclic(E, c);
          return Some(c);
        }
        s := t;
      }
    }
    EverythingFinished(E, edges, s);
    return None;
  }

  lemma NothingSearched(edges: map<string, set<string>>, s: Search, addresses: seq<string>)
    requires forall e :: e in EdgeSet(edges) ==> e.1 in edges
    requires s == Search(map a | a in edges :: Unvisited, [], map[], map[], 0) && addresses == SortedSeq(edges.Keys)
    ensures Valid(EdgeSet(edges), edges, s)
    ensures forall k :: 0 <= k < |addresses| ==> addresses[k] in edges
    ensures forall a :: a in edges ==> a in addresses
  {
    assert forall a :: a in addresses <==> a in Elements(addresses);
    assert forall k :: 0 <= k < |addresses| ==> addresses[k] in addresses;
  }

  lemma NotOnStack(E: set<Edge>, edges: map<string, set<string>>, s: Search, a: string)
    requires Valid(E, edges, s) && s.stack == [] && a in edges
    ensures a in s.state && (s.state[a] != Unvisited ==> a in s.finished.Keys)
  {
    assert a !in s.stack;
  }

  lemma EverythingFinished(E: set<Edge>, edges: map<string, set<string>>, s: Search)
    requires Valid(E, edges, s) && forall a :: a in edges ==> a in s.finished.Keys
    ensures Acyclic(E)
  {
    forall e | e in E ensures e.0 in s.finished {
      assert (e.0, e.1) in E;
    }
    FinishedAcyclic(E, s.finished, s.clock);
  }

  /** Once everything is finished, every edge leads to something finished earlier. */
  lemma FinishedAcyclic(E: set<Edge>, finished: map<string, int>, clock: int)
    requires Settled(E, finished, clock) && forall e :: e in E ==> e.0 in finished
    ensures Acyclic(E)
  {
    var rank := (x: string) => if x in finished then -finished[x] else 0;
    RankAcyclic(E, rank);
  }
}
