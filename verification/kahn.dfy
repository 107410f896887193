/** The loop state shared by the program's two Kahn sorts: counts of unemitted
    predecessors and a ready list, tied to the greedy order of Digraph. */
module Kahn {
  import opened Addresses
  import opened Digraph

  ghost function PredsIn(E: set<Edge>, rem: seq<string>, v: string): set<string>
  {
    set u | u in rem && (u, v) in E
  }

  ghost predicate Ranked(s: seq<string>, rank: map<string, nat>)
  {
    && (forall v :: v in s ==> v in rank)
    && (forall i, j :: 0 <= i < j < |s| ==> rank[s[i]] < rank[s[j]])
  }

  /** After popping an element, its successors in pending still have to be counted down. */
  ghost predicate MidState(E: set<Edge>, rem: seq<string>, rank: map<string, nat>,
                           indegree: map<string, int>, ready: seq<string>, pending: seq<string>)
  {
    && Distinct(rem) && Distinct(ready) && Distinct(pending)
    && Ranked(rem, rank)
    && (forall e :: e in E ==> e.1 in indegree)
    && (forall v :: v in pending ==> v in rem)
    && (forall v :: v in rem ==> v in indegree)
    && (forall v :: v in indegree && v !in rem ==> PredsIn(E, rem, v) == {})
    && (forall v :: v in rem ==> indegree[v] == |PredsIn(E, rem, v)| + if v in pending then 1 else 0)
    && (forall v :: v in ready <==> v in rem && indegree[v] == 0)
  }

  ghost predicate KahnState(E: set<Edge>, rem: seq<string>, rank: map<string, nat>,
                            indegree: map<string, int>, ready: seq<string>)
  {
    MidState(E, rem, rank, indegree, ready, []) && Ranked(ready, rank)
  }

  lemma KahnStarts(E: set<Edge>, prio: seq<string>, rank: map<string, nat>, indegree: map<string, int>,
                   found: seq<string>, ready: seq<string>)
    requires Distinct(prio) && Ranked(prio, rank) && Within(E, prio)
    requires forall v :: v in prio <==> v in indegree
    requires forall v :: v in indegree ==> indegree[v] == |PredsIn(E, prio, v)|
    requires forall v :: v in found <==> v in indegree && indegree[v] == 0
    requires Ranked(ready, rank) && Permutes(ready, found)
    ensures KahnState(E, prio, rank, indegree, ready)
  {
  }

  lemma NotBlocked(E: set<Edge>, rem: seq<string>, v: string)
    ensures PredsIn(E, rem, v) == {} <==> !Blocked(v, rem, E)
  {
    if Blocked(v, rem, E) {
      var u :| u in rem && (u, v) in E;
      assert u in PredsIn(E, rem, v);
    }
  }

  /** The head of the ready list is exactly what the greedy order picks. */
  lemma HeadIsFirstReady(E: set<Edge>, rem: seq<string>, rank: map<string, nat>,
                         indegree: map<string, int>, ready: seq<string>)
    requires KahnState(E, rem, rank, indegree, ready) && |ready| > 0
    ensures FirstReady(rem, E) < |rem| && rem[FirstReady(rem, E)] == ready[0]
  {
    assert ready[0] in ready;
    var j :| 0 <= j < |rem| && rem[j] == ready[0];
    NotBlocked(E, rem, rem[j]);
    var i := FirstReady(rem, E);
    NotBlocked(E, rem, rem[i]);
    assert rem[i] in ready;
  }

  lemma NothingReady(E: set<Edge>, rem: seq<string>, rank: map<string, nat>, indegree: map<string, int>)
    requires KahnState(E, rem, rank, indegree, [])
    ensures LeastOrder(rem, E) == []
  {
    var ready: seq<string> := [];
    forall v | v in rem ensures Blocked(v, rem, E) {
      assert v in ready <==> indegree[v] == 0;
      NotBlocked(E, rem, v);
    }
  }

  lemma Pop(E: set<Edge>, rem: seq<string>, i: nat, rank: map<string, nat>,
            indegree: map<string, int>, ready: seq<string>, deps: seq<string>)
    requires KahnState(E, rem, rank, indegree, ready) && |ready| > 0
    requires i < |rem| && rem[i] == ready[0]
    requires Distinct(deps) && forall v :: v in deps <==> (rem[i], v) in E
    ensures MidState(E, Without(rem, i), rank, indegree, ready[1..], deps)
  {
    hide *;
    KahnParts(E, rem, rank, indegree, ready);
    WithoutFacts(rem, i);
    WithoutRanked(rem, rank, i);
    PopReady(rem, indegree, ready, i);
    PopPreds(E, rem, i, indegree, deps);
    MidFrom(E, Without(rem, i), rank, indegree, ready[1..], deps);
  }

  lemma KahnParts(E: set<Edge>, rem: seq<string>, rank: map<string, nat>, indegree: map<string, int>, ready: seq<string>)
    requires KahnState(E, rem, rank, indegree, ready)
    ensures Distinct(rem) && Distinct(ready) && Ranked(rem, rank) && (forall e :: e in E ==> e.1 in indegree)
    ensures forall v :: v in rem ==> v in indegree && indegree[v] == |PredsIn(E, rem, v)|
    ensures forall v :: v in indegree && v !in rem ==> PredsIn(E, rem, v) == {}
    ensures forall v :: v in ready <==> v in rem && indegree[v] == 0
  {
  }

  lemma MidFrom(E: set<Edge>, rem: seq<string>, rank: map<string, nat>, indegree: map<string, int>, ready: seq<string>,
                pending: seq<string>)
    requires Distinct(rem) && Distinct(ready) && Distinct(pending) && Ranked(rem, rank)
    requires (forall e :: e in E ==> e.1 in indegree) && (forall v :: v in rem ==> v in indegree)
    requires forall v :: v in ready <==> v in rem && indegree[v] == 0
    requires CountedBut(E, rem, indegree, pending)
    ensures MidState(E, rem, rank, indegree, ready, pending)
  {
    hide Distinct, Ranked, PredsIn;
  }

  /** Every count is that of the predecessors left, but for one more at each pending vertex. */
  ghost predicate CountedBut(E: set<Edge>, rem: seq<string>, indegree: map<string, int>, pending: seq<string>)
  {
    && (forall v :: v in pending ==> v in rem)
    && (forall v :: v in indegree && v !in rem ==> PredsIn(E, rem, v) == {})
    && (forall v :: v in rem && v in indegree ==> indegree[v] == |PredsIn(E, rem, v)| + if v in pending then 1 else 0)
  }

  lemma PopPreds(E: set<Edge>, rem: seq<string>, i: nat, indegree: map<string, int>, deps: seq<string>)
    requires Distinct(rem) && i < |rem| && (forall e :: e in E ==> e.1 in indegree)
    requires forall v :: v in rem ==> v in indegree && indegree[v] == |PredsIn(E, rem, v)|
    requires forall v :: v in indegree && v !in rem ==> PredsIn(E, rem, v) == {}
    requires indegree[rem[i]] == 0 && forall v :: v in deps <==> (rem[i], v) in E
    ensures CountedBut(E, Without(rem, i), indegree, deps)
  {
    var a, rest := rem[i], Without(rem, i);
    WithoutFacts(rem, i);
    hide PredsIn, Without, Distinct;
    assert a in rem && PredsIn(E, rem, a) == {};
    forall v | v in deps ensures v in rest {
      assert (a, v).1 in indegree;
      PredsWithout(E, rem, i, v);
    }
    forall v | v in indegree && v !in rest ensures PredsIn(E, rest, v) == {} {
      PredsWithout(E, rem, i, v);
    }
    forall v | v in rest ensures indegree[v] == |PredsIn(E, rest, v)| + if v in deps then 1 else 0 {
      PredsWithout(E, rem, i, v);
    }
  }

  /** Removing one vertex takes it, and nothing else, from the predecessors of what it blocks. */
  lemma PredsWithout(E: set<Edge>, rem: seq<string>, i: nat, v: string)
    requires Distinct(rem) && i < |rem|
    ensures PredsIn(E, Without(rem, i), v) <= PredsIn(E, rem, v)
    ensures |PredsIn(E, rem, v)| == |PredsIn(E, Without(rem, i), v)| + if (rem[i], v) in E then 1 else 0
    ensures (rem[i], v) in E ==> PredsIn(E, rem, v) != {}
  {
    WithoutFacts(rem, i);
    hide Without, Distinct;
    var p, q := PredsIn(E, rem, v), PredsIn(E, Without(rem, i), v);
    assert q == p - {rem[i]};
    assert rem[i] in rem;
    assert rem[i] in p <==> (rem[i], v) in E;
  }

  /** The tail of the ready list is what is ready without its head. */
  lemma PopReady(rem: seq<string>, indegree: map<string, int>, ready: seq<string>, i: nat)
    requires Distinct(rem) && Distinct(ready) && |ready| > 0 && i < |rem| && rem[i] == ready[0]
    requires forall v :: v in rem ==> v in indegree
    requires forall v :: v in ready <==> v in rem && indegree[v] == 0
    ensures Distinct(ready[1..]) && indegree[rem[i]] == 0
    ensures forall v :: v in ready[1..] <==> v in Without(rem, i) && indegree[v] == 0
  {
    WithoutFacts(rem, i);
    hide Without;
    assert ready[0] in ready;
    assert forall v :: v in ready[1..] <==> v in ready && v != ready[0];
  }

  lemma WithoutRanked(rem: seq<string>, rank: map<string, nat>, i: nat)
    requires Ranked(rem, rank) && i < |rem|
    ensures Ranked(Without(rem, i), rank)
  {
    var rem' := Without(rem, i);
    assert forall j :: 0 <= j < |rem'| ==> rem'[j] == if j < i then rem[j] else rem[j + 1];
  }

  lemma CountDown(E: set<Edge>, rem: seq<string>, rank: map<string, nat>, indegree: map<string, int>,
                  ready: seq<string>, pending: seq<string>, indegree': map<string, int>, ready': seq<string>)
    requires MidState(E, rem, rank, indegree, ready, pending) && |pending| > 0
    requires pending[0] in indegree && indegree' == indegree[pending[0] := indegree[pending[0]] - 1]
    requires ready' == if indegree'[pending[0]] == 0 then ready + [pending[0]] else ready
    ensures MidState(E, rem, rank, indegree', ready', pending[1..])
  {
    var d := pending[0];
    assert d in pending;
    assert d !in ready;
    assert forall v :: v in pending[1..] <==> v in pending && v != d;
    assert forall v :: v in ready + [d] <==> v in ready || v == d;
    assert Distinct(ready + [d]);
  }

  /** Stable sort of a duplicate-free list by rank. */
  method SortByRank(s: seq<string>, rank: map<string, nat>) returns (r: seq<string>)
    requires Distinct(s)
    requires forall v :: v in s ==> v in rank
    requires forall u, v :: u in s && v in s && rank[u] == rank[v] ==> u == v
    ensures Ranked(r, rank) && Permutes(r, s)
  {
    r := [];
    for n := 0 to |s|
      invariant Ranked(r, rank) && Permutes(r, s[..n])
    {
      assert s[n] in s && s[n] !in s[..n];
      assert forall v :: v in r ==> v in s[..n] && v in s;
      var at := |r|;
      while at > 0 && rank[s[n]] < rank[r[at - 1]]
        invariant 0 <= at <= |r|
        invariant forall i :: at <= i < |r| ==> rank[s[n]] < rank[r[i]]
      {
        at := at - 1;
      }
      if at > 0 {
        assert r[at - 1] in r;
        assert rank[r[at - 1]] < rank[s[n]];
      }
      assert s[..n + 1] == s[..n] + [s[n]];
      InsertRanked(r, at, s[n], rank);
      InsertAt(r, at, s[n]);
      r := r[..at] + [s[n]] + r[at..];
    }
    assert s[..|s|] == s;
  }

  lemma InsertRanked(r: seq<string>, at: nat, k: string, rank: map<string, nat>)
    requires Ranked(r, rank) && k in rank && at <= |r|
    requires forall i :: at <= i < |r| ==> rank[k] < rank[r[i]]
    requires at > 0 ==> rank[r[at - 1]] < rank[k]
    ensures Ranked(r[..at] + [k] + r[at..], rank)
  {
    InsertAt(r, at, k);
    assert forall v :: v in r ==> v in rank;
    InsertBetween((a, b) => a in rank && b in rank && rank[a] < rank[b], r, at, k);
  }

  lemma RankInjective(prio: seq<string>, rank: map<string, nat>)
    requires rank.Keys == Elements(prio) && forall i :: 0 <= i < |prio| ==> rank[prio[i]] == i
    ensures forall u, v :: u in rank && v in rank && rank[u] == rank[v] ==> u == v
  {
    forall u, v | u in rank && v in rank && rank[u] == rank[v] ensures u == v {
      assert u in Elements(prio) && v in Elements(prio);
      var i :| 0 <= i < |prio| && prio[i] == u;
      var j :| 0 <= j < |prio| && prio[j] == v;
    }
  }

  lemma SamePermuted(s: seq<string>, t: seq<string>)
    requires Permutes(s, t)
    ensures Distinct(s) && forall v :: v in s <==> v in t
  {
  }

  /** Popping the head of the ready list takes the greedy order's first element. */
  lemma PopHead(E: set<Edge>, rem: seq<string>, rank: map<string, nat>,
                indegree: map<string, int>, ready: seq<string>, deps: seq<string>) returns (rem': seq<string>)
    requires KahnState(E, rem, rank, indegree, ready) && |ready| > 0
    requires Distinct(deps) && forall v :: v in deps <==> (ready[0], v) in E
    ensures MidState(E, rem', rank, indegree, ready[1..], deps)
    ensures |rem'| < |rem| && LeastOrder(rem, E) == [ready[0]] + LeastOrder(rem', E)
  {
    HeadIsFirstReady(E, rem, rank, indegree, ready);
    var i := FirstReady(rem, E);
    rem' := Without(rem, i);
    Pop(E, rem, i, rank, indegree, ready, deps);
  }

  lemma NextLeast(ordered: seq<string>, address: string, rem': seq<string>, rem: seq<string>, prio: seq<string>,
                  E: set<Edge>)
    requires ordered + LeastOrder(rem, E) == LeastOrder(prio, E)
    requires LeastOrder(rem, E) == [address] + LeastOrder(rem', E)
    ensures ordered + [address] + LeastOrder(rem', E) == LeastOrder(prio, E)
  {
    assert ordered + [address] + LeastOrder(rem', E) == ordered + ([address] + LeastOrder(rem', E));
  }

  lemma PendingKnown(E: set<Edge>, rem: seq<string>, rank: map<string, nat>,
                     indegree: map<string, int>, ready: seq<string>, pending: seq<string>)
    requires MidState(E, rem, rank, indegree, ready, pending) && |pending| > 0
    ensures pending[0] in indegree
  {
    assert pending[0] in pending;
  }

  lemma ReadySortable(E: set<Edge>, rem: seq<string>, rank: map<string, nat>, indegree: map<string, int>,
                      ready: seq<string>)
    requires MidState(E, rem, rank, indegree, ready, [])
    ensures Distinct(ready) && forall v :: v in ready ==> v in rank
    ensures forall u, v :: u in ready && v in ready && rank[u] == rank[v] ==> u == v
  {
    forall u, v | u in ready && v in ready && rank[u] == rank[v] ensures u == v {
      assert u in rem && v in rem;
      var i :| 0 <= i < |rem| && rem[i] == u;
      var j :| 0 <= j < |rem| && rem[j] == v;
    }
  }

  lemma Resorted(E: set<Edge>, rem: seq<string>, rank: map<string, nat>,
                 indegree: map<string, int>, ready: seq<string>, sorted: seq<string>)
    requires MidState(E, rem, rank, indegree, ready, [])
    requires Ranked(sorted, rank) && Permutes(sorted, ready)
    ensures KahnState(E, rem, rank, indegree, sorted)
  {
  }

  lemma Finish(E: set<Edge>, rem: seq<string>, rank: map<string, nat>, indegree: map<string, int>, ready: seq<string>)
    requires KahnState(E, rem, rank, indegree, ready) && |ready| == 0
    ensures LeastOrder(rem, E) == []
  {
    assert ready == [];
    NothingReady(E, rem, rank, indegree);
  }
}
