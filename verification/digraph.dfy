/** Finite directed graphs over addresses: walks, reachability, cycles, and the
    greedy topological order that both priority sorts of the program compute. */
module Digraph {
  import opened Addresses

  type Edge = (string, string)

  ghost predicate IsWalk(E: set<Edge>, p: seq<string>)
  {
    |p| >= 1 && forall i, j :: 0 <= i && j == i + 1 && j < |p| ==> (p[i], p[j]) in E
  }

  ghost predicate WalkFromTo(E: set<Edge>, p: seq<string>, x: string, y: string)
  {
    IsWalk(E, p) && p[0] == x && p[|p| - 1] == y
  }

  /** Reflexive reachability. */
  ghost predicate Reaches(E: set<Edge>, x: string, y: string)
  {
    exists p :: WalkFromTo(E, p, x, y)
  }

  /** No edge closes a walk back to its own start. */
  ghost predicate Acyclic(E: set<Edge>)
  {
    forall e :: e in E ==> !Reaches(E, e.1, e.0)
  }

  ghost predicate IsCycle(E: set<Edge>, c: seq<string>)
  {
    |c| >= 2 && IsWalk(E, c) && c[0] == c[|c| - 1]
  }

  lemma ReachSelf(E: set<Edge>, x: string)
    ensures Reaches(E, x, x)
  {
    assert WalkFromTo(E, [x], x, x);
  }

  lemma ReachTrans(E: set<Edge>, x: string, y: string, z: string)
    requires Reaches(E, x, y) && Reaches(E, y, z)
    ensures Reaches(E, x, z)
  {
    var p :| WalkFromTo(E, p, x, y);
    var q :| WalkFromTo(E, q, y, z);
    var r := p + q[1..];
    forall i, j | 0 <= i && j == i + 1 && j < |r| ensures (r[i], r[j]) in E {
      if j < |p| {
        assert (p[i], p[j]) in E;
      } else {
        assert r[i] == q[i - |p| + 1] && r[j] == q[j - |p| + 1];
      }
    }
    assert WalkFromTo(E, r, x, z);
  }

  lemma ReachEdge(E: set<Edge>, x: string, y: string)
    requires (x, y) in E
    ensures Reaches(E, x, y)
  {
    assert WalkFromTo(E, [x, y], x, y);
  }

  lemma ReachMono(E: set<Edge>, F: set<Edge>, x: string, y: string)
    requires E <= F && Reaches(E, x, y)
    ensures Reaches(F, x, y)
  {
    var p :| WalkFromTo(E, p, x, y);
    assert WalkFromTo(F, p, x, y);
  }

  lemma AcyclicMono(E: set<Edge>, F: set<Edge>)
    requires E <= F && Acyclic(F)
    ensures Acyclic(E)
  {
    forall e | e in E ensures !Reaches(E, e.1, e.0) {
      if Reaches(E, e.1, e.0) { ReachMono(E, F, e.1, e.0); }
    }
  }

  lemma SubWalk(E: set<Edge>, p: seq<string>, i: nat, j: nat)
    requires IsWalk(E, p) && i <= j < |p|
    ensures WalkFromTo(E, p[i..j + 1], p[i], p[j])
  {
  }

  /** A cycle exists exactly when some closed walk does. */
  lemma CyclicIffCycle(E: set<Edge>)
    ensures !Acyclic(E) <==> exists c :: IsCycle(E, c)
  {
    if !Acyclic(E) {
      var e :| e in E && Reaches(E, e.1, e.0);
      var p :| WalkFromTo(E, p, e.1, e.0);
      var c := [e.0] + p;
      forall i, j | 0 <= i && j == i + 1 && j < |c| ensures (c[i], c[j]) in E {
        if i > 0 { assert c[i] == p[i - 1] && c[j] == p[j - 1]; }
      }
      assert IsCycle(E, c);
    }
    if c :| IsCycle(E, c) {
      SubWalk(E, c, 1, |c| - 1);
      assert (c[0], c[1]) in E;
      assert WalkFromTo(E, c[1..|c| - 1 + 1], c[1], c[0]);
    }
  }

  /** A rank that grows along every edge rules out cycles. */
  lemma RankAcyclic(E: set<Edge>, rank: string -> int)
    requires forall e :: e in E ==> rank(e.0) < rank(e.1)
    ensures Acyclic(E)
  {
    forall e | e in E ensures !Reaches(E, e.1, e.0) {
      if Reaches(E, e.1, e.0) {
        var p :| WalkFromTo(E, p, e.1, e.0);
        WalkRises(E, p, rank);
      }
    }
  }

  lemma {:induction false} WalkRises(E: set<Edge>, p: seq<string>, rank: string -> int)
    requires forall e :: e in E ==> rank(e.0) < rank(e.1)
    requires IsWalk(E, p)
    ensures rank(p[0]) <= rank(p[|p| - 1])
    decreases |p|
  {
    if |p| > 1 {
      assert (p[0], p[1]) in E;
      WalkRises(E, p[1..], rank);
    }
  }

  /** A walk that may use one extra edge either avoids it or splits at it. */
  lemma {:induction false} WalkSplit(E: set<Edge>, b: string, a: string, p: seq<string>)
    requires IsWalk(E + {(b, a)}, p)
    ensures Reaches(E, p[0], p[|p| - 1]) || (Reaches(E, p[0], b) && Reaches(E, a, p[|p| - 1]))
    decreases |p|
  {
    if |p| == 1 {
      ReachSelf(E, p[0]);
    } else {
      var x, y, z := p[0], p[1], p[|p| - 1];
      assert (x, y) in E + {(b, a)};
      WalkSplit(E, b, a, p[1..]);
      if (x, y) in E {
        ReachEdge(E, x, y);
        if Reaches(E, y, z) { ReachTrans(E, x, y, z); } else { ReachTrans(E, x, y, b); }
      } else {
        ReachSelf(E, x);
      }
    }
  }

  /** Adding an edge whose reverse path does not exist keeps the graph acyclic. */
  lemma AddEdgeAcyclic(E: set<Edge>, b: string, a: string)
    requires Acyclic(E) && !Reaches(E, a, b)
    ensures Acyclic(E + {(b, a)})
  {
    var F := E + {(b, a)};
    forall e | e in F ensures !Reaches(F, e.1, e.0) {
      if Reaches(F, e.1, e.0) {
        var p :| WalkFromTo(F, p, e.1, e.0);
        WalkSplit(E, b, a, p);
        if e in E {
          ReachEdge(E, e.0, e.1);
          if !Reaches(E, e.1, e.0) {
            ReachTrans(E, a, e.0, e.1);
            ReachTrans(E, a, e.1, b);
          }
          assert false;
        }
      }
    }
  }

  // ---- the greedy topological order ----

  ghost predicate Blocked(v: string, rem: seq<string>, E: set<Edge>)
  {
    exists u :: u in rem && (u, v) in E
  }

  /** The first element of rem that waits for no other element of rem, or |rem|. */
  ghost function FirstReady(rem: seq<string>, E: set<Edge>, from: nat := 0): (i: nat)
    requires from <= |rem|
    ensures from <= i <= |rem|
    ensures forall j :: from <= j < i ==> Blocked(rem[j], rem, E)
    ensures i < |rem| ==> !Blocked(rem[i], rem, E)
    decreases |rem| - from
  {
    if from == |rem| || !Blocked(rem[from], rem, E) then from else FirstReady(rem, E, from + 1)
  }

  function Without<T>(s: seq<T>, i: nat): seq<T>
    requires i < |s|
  {
    s[..i] + s[i + 1..]
  }

  /** Repeatedly emit the first element, in the order of rem, that nothing left in rem must precede. */
  ghost function LeastOrder(rem: seq<string>, E: set<Edge>): seq<string>
    decreases |rem|
  {
    var i := FirstReady(rem, E);
    if i == |rem| then [] else [rem[i]] + LeastOrder(Without(rem, i), E)
  }

  ghost predicate Precedes(s: seq<string>, a: string, b: string)
  {
    exists i, j :: 0 <= i < j < |s| && s[i] == a && s[j] == b
  }

  /** Every edge between elements of s points forward. */
  ghost predicate Topological(s: seq<string>, E: set<Edge>)
  {
    forall i, j :: 0 <= i < |s| && 0 <= j < |s| && (s[i], s[j]) in E ==> i < j
  }

  ghost predicate Permutes(s: seq<string>, t: seq<string>)
  {
    Distinct(s) && Distinct(t) && |s| == |t| && forall x :: x in s <==> x in t
  }

  ghost predicate Within(E: set<Edge>, s: seq<string>)
  {
    forall e :: e in E ==> e.0 in s && e.1 in s
  }

  lemma WithoutFacts(s: seq<string>, i: nat)
    requires i < |s| && Distinct(s)
    ensures Distinct(Without(s, i))
    ensures forall x :: x in Without(s, i) <==> x in s && x != s[i]
  {
    var t := Without(s, i);
    assert forall j :: 0 <= j < |t| ==> t[j] == if j < i then s[j] else s[j + 1];
    forall x | x in s && x != s[i] ensures x in t {
      var j :| 0 <= j < |s| && s[j] == x;
      assert t[if j < i then j else j - 1] == x;
    }
  }

  lemma WithoutPrecedes(s: seq<string>, i: nat, a: string, b: string)
    requires i < |s| && Precedes(Without(s, i), a, b)
    ensures Precedes(s, a, b)
  {
    var t := Without(s, i);
    var j, k :| 0 <= j < k < |t| && t[j] == a && t[k] == b;
    assert s[if j < i then j else j + 1] == a && s[if k < i then k else k + 1] == b;
  }

  /** Everything that must come before an emitted element has been emitted before it. */
  ghost predicate PredsFirst(r: seq<string>, from: seq<string>, E: set<Edge>)
  {
    forall k, u :: 0 <= k < |r| && u in from && (u, r[k]) in E ==> u in r[..k]
  }

  lemma {:induction false} LeastOrderDistinct(rem: seq<string>, E: set<Edge>)
    requires Distinct(rem)
    ensures Distinct(LeastOrder(rem, E))
    ensures forall x :: x in LeastOrder(rem, E) ==> x in rem
    decreases |rem|
  {
    var i := FirstReady(rem, E);
    if i < |rem| {
      var t := LeastOrder(Without(rem, i), E);
      WithoutFacts(rem, i);
      LeastOrderDistinct(Without(rem, i), E);
      hide Without, FirstReady;
      forall j | 0 <= j < |t| ensures t[j] != rem[i] {
        assert t[j] in t;
      }
    }
  }

  /** What the greedy order emits, also when it gets stuck. */
  lemma {:induction false} LeastOrderSound(rem: seq<string>, E: set<Edge>)
    requires Distinct(rem)
    ensures PredsFirst(LeastOrder(rem, E), rem, E)
    decreases |rem|
  {
    var i := FirstReady(rem, E);
    if i < |rem| {
      WithoutFacts(rem, i);
      LeastOrderSound(Without(rem, i), E);
      PredsFirstPrepend(rem, i, LeastOrder(Without(rem, i), E), E);
    }
  }

  lemma PredsFirstPrepend(rem: seq<string>, i: nat, t: seq<string>, E: set<Edge>)
    requires Distinct(rem) && i < |rem| && !Blocked(rem[i], rem, E) && PredsFirst(t, Without(rem, i), E)
    ensures PredsFirst([rem[i]] + t, rem, E)
  {
    WithoutFacts(rem, i);
    hide Without;
    var r := [rem[i]] + t;
    forall k, u | 0 <= k < |r| && u in rem && (u, r[k]) in E ensures u in r[..k] {
      assert k > 0;
      assert r[k] == t[k - 1] && r[..k] == [rem[i]] + t[..k - 1];
    }
  }

  lemma PredsFirstTopological(r: seq<string>, from: seq<string>, E: set<Edge>)
    requires Distinct(r) && PredsFirst(r, from, E) && forall x :: x in r ==> x in from
    ensures Topological(r, E)
  {
    forall i, j | 0 <= i < |r| && 0 <= j < |r| && (r[i], r[j]) in E ensures i < j {
      assert r[i] in from;
      var k :| 0 <= k < |r[..j]| && r[..j][k] == r[i];
    }
  }

  lemma Pigeonhole(p: seq<string>, s: seq<string>) returns (i: nat, j: nat)
    requires forall x :: x in p ==> x in s
    requires |p| > |s|
    ensures i < j < |p| && p[i] == p[j]
  {
    if Distinct(p) {
      ElementCount(p);
      ElementCount(s);
      SubsetSize(Elements(p), Elements(s));
      assert false;
    }
    i, j :| 0 <= i < j < |p| && p[i] == p[j];
  }

  lemma {:induction false} ElementCount(s: seq<string>)
    ensures |Elements(s)| <= |s|
    ensures Distinct(s) ==> |Elements(s)| == |s|
  {
    if s != [] {
      var n := |s| - 1;
      assert s == s[..n] + [s[n]];
      ElementCount(s[..n]);
      PushFacts(s[..n], s[n]);
      assert Distinct(s) ==> s[n] !in Elements(s[..n]);
    }
  }

  /** When everything left is blocked, walking backwards must repeat: there is a cycle. */
  lemma StuckHasCycle(rem: seq<string>, E: set<Edge>)
    requires rem != []
    requires forall v :: v in rem ==> Blocked(v, rem, E)
    ensures !Acyclic(E)
  {
    var p := BackWalk(rem, E, |rem|);
    var i, j := Pigeonhole(p, rem);
    SubWalk(E, p, i, j);
    assert IsCycle(E, p[i..j + 1]);
    CyclicIffCycle(E);
  }

  lemma {:induction false} BackWalk(rem: seq<string>, E: set<Edge>, n: nat) returns (p: seq<string>)
    requires rem != []
    requires forall v :: v in rem ==> Blocked(v, rem, E)
    ensures |p| == n + 1 && IsWalk(E, p) && forall x :: x in p ==> x in rem
  {
    if n == 0 {
      p := [rem[0]];
    } else {
      var q := BackWalk(rem, E, n - 1);
      assert q[0] in rem;
      var u :| u in rem && (u, q[0]) in E;
      p := [u] + q;
      forall i, j | 0 <= i && j == i + 1 && j < |p| ensures (p[i], p[j]) in E {
        if i > 0 { assert p[i] == q[i - 1] && p[j] == q[j - 1]; }
      }
    }
  }

  lemma {:induction false} AcyclicOrderComplete(rem: seq<string>, E: set<Edge>)
    requires Distinct(rem) && Acyclic(E)
    ensures |LeastOrder(rem, E)| == |rem|
    ensures forall x :: x in rem ==> x in LeastOrder(rem, E)
    decreases |rem|
  {
    var i := FirstReady(rem, E);
    if i < |rem| {
      WithoutFacts(rem, i);
      AcyclicOrderComplete(Without(rem, i), E);
    } else if rem != [] {
      StuckHasCycle(rem, E);
    }
  }

  function IndexOf(s: seq<string>, x: string): (i: nat)
    requires x in s
    ensures i < |s| && s[i] == x
  {
    if s[0] == x then 0 else 1 + IndexOf(s[1..], x)
  }

  /** Sorting succeeds exactly on acyclic graphs, and then returns a topological permutation. */
  lemma LeastOrderComplete(prio: seq<string>, E: set<Edge>)
    requires Distinct(prio) && Within(E, prio)
    ensures |LeastOrder(prio, E)| == |prio| <==> Acyclic(E)
    ensures Acyclic(E) ==> Permutes(LeastOrder(prio, E), prio) && Topological(LeastOrder(prio, E), E)
  {
    var r := LeastOrder(prio, E);
    LeastOrderDistinct(prio, E);
    LeastOrderSound(prio, E);
    PredsFirstTopological(r, prio, E);
    if Acyclic(E) {
      AcyclicOrderComplete(prio, E);
    }
    if |r| == |prio| {
      SameSize(r, prio);
      TopologicalAcyclic(r, E);
    }
  }

  lemma TopologicalAcyclic(r: seq<string>, E: set<Edge>)
    requires Topological(r, E) && Within(E, r)
    ensures Acyclic(E)
  {
    var rank := (x: string) => if x in r then IndexOf(r, x) else 0;
    forall e | e in E ensures rank(e.0) < rank(e.1) {
      assert (r[rank(e.0)], r[rank(e.1)]) in E;
    }
    RankAcyclic(E, rank);
  }

  lemma SameSize(r: seq<string>, s: seq<string>)
    requires Distinct(r) && Distinct(s) && |r| == |s| && forall x :: x in r ==> x in s
    ensures forall x :: x in s ==> x in r
  {
    forall x | x in s ensures x in r {
      if x !in r {
        var i, j := Pigeonhole(r + [x], s);
        assert false;
      }
    }
  }

  /** Among all topological orders the greedy one is least: at the first place where another one
      differs, the greedy choice comes earlier in prio. */
  lemma {:induction false} LeastOrderIsLeast(prio: seq<string>, E: set<Edge>, t: seq<string>, k: nat)
    requires Permutes(t, prio) && Topological(t, E)
    requires |LeastOrder(prio, E)| == |prio|
    requires k < |prio| && t[..k] == LeastOrder(prio, E)[..k] && t[k] != LeastOrder(prio, E)[k]
    ensures Precedes(prio, LeastOrder(prio, E)[k], t[k])
    decreases k
  {
    FirstEmitted(prio, E);
    assert |t| == |prio|;
    hide LeastOrder, FirstReady, Without, Blocked, Precedes, Topological, Permutes;
    var i := FirstReady(prio, E);
    if k == 0 {
      FirstIsLeast(prio, E, t);
    } else {
      LeastOrderTail(prio, E, t, k);
      LeastOrderIsLeast(Without(prio, i), E, t[1..], k - 1);
      WithoutPrecedes(prio, i, LeastOrder(prio, E)[k], t[k]);
    }
  }

  lemma FirstEmitted(prio: seq<string>, E: set<Edge>)
    requires |LeastOrder(prio, E)| == |prio| > 0
    ensures FirstReady(prio, E) < |prio| && LeastOrder(prio, E)[0] == prio[FirstReady(prio, E)]
  {
  }

  lemma FirstIsLeast(prio: seq<string>, E: set<Edge>, t: seq<string>)
    requires Permutes(t, prio) && Topological(t, E) && |t| == |prio| > 0 && FirstReady(prio, E) < |prio|
    requires t[0] != prio[FirstReady(prio, E)]
    ensures Precedes(prio, prio[FirstReady(prio, E)], t[0])
  {
    hide LeastOrder;
    assert t[0] in prio;
    var j :| 0 <= j < |prio| && prio[j] == t[0];
    forall u | u in prio ensures (u, t[0]) !in E {
      assert u in t;
      var n :| 0 <= n < |t| && t[n] == u;
    }
    assert !Blocked(prio[j], prio, E);
  }

  lemma LeastOrderTail(prio: seq<string>, E: set<Edge>, t: seq<string>, k: nat)
    requires Permutes(t, prio) && Topological(t, E) && |LeastOrder(prio, E)| == |prio|
    requires 0 < k < |prio| == |t| && t[..k] == LeastOrder(prio, E)[..k]
    ensures FirstReady(prio, E) < |prio| && |Without(prio, FirstReady(prio, E))| == |prio| - 1
    ensures var rest := Without(prio, FirstReady(prio, E));
            && LeastOrder(prio, E)[1..] == LeastOrder(rest, E) && |LeastOrder(rest, E)| == |rest|
            && Permutes(t[1..], rest) && Topological(t[1..], E) && t[1..][..k - 1] == LeastOrder(rest, E)[..k - 1]
  {
    FirstEmitted(prio, E);
    RestEmitted(prio, E);
    hide LeastOrder, FirstReady, Permutes, Topological;
    var r := LeastOrder(prio, E);
    SameHeadAndTail(t, r, k);
    TailPermutes(t, prio, FirstReady(prio, E));
    TailTopological(t, E);
  }

  lemma RestEmitted(prio: seq<string>, E: set<Edge>)
    requires |LeastOrder(prio, E)| == |prio| > 0
    ensures FirstReady(prio, E) < |prio|
    ensures LeastOrder(prio, E)[1..] == LeastOrder(Without(prio, FirstReady(prio, E)), E)
  {
  }

  lemma SameHeadAndTail(t: seq<string>, r: seq<string>, k: nat)
    requires 0 < k <= |t| && k <= |r| && t[..k] == r[..k]
    ensures t[0] == r[0] && t[1..][..k - 1] == r[1..][..k - 1]
  {
    assert t[0] == t[..k][0] == r[..k][0];
    assert t[1..][..k - 1] == t[..k][1..];
    assert r[1..][..k - 1] == r[..k][1..];
  }

  lemma TailPermutes(t: seq<string>, prio: seq<string>, i: nat)
    requires Permutes(t, prio) && i < |prio| && t != [] && t[0] == prio[i]
    ensures Permutes(t[1..], Without(prio, i))
  {
    WithoutFacts(prio, i);
    forall x ensures x in t[1..] <==> x in Without(prio, i) {
      assert x in t[1..] <==> x in t && x != t[0];
    }
  }

  lemma TailTopological(t: seq<string>, E: set<Edge>)
    requires Topological(t, E) && t != []
    ensures Topological(t[1..], E)
  {
    forall i, j | 0 <= i < |t| - 1 && 0 <= j < |t| - 1 && (t[1..][i], t[1..][j]) in E ensures i < j {
      assert (t[i + 1], t[j + 1]) in E;
    }
  }

  /** Input that already respects the edges is returned unchanged. */
  lemma {:induction false} LeastOrderIdentity(prio: seq<string>, E: set<Edge>)
    requires Distinct(prio) && Topological(prio, E)
    ensures LeastOrder(prio, E) == prio
    decreases |prio|
  {
    if prio != [] {
      forall u | u in prio ensures (u, prio[0]) !in E {
        var n :| 0 <= n < |prio| && prio[n] == u;
      }
      assert FirstReady(prio, E) == 0;
      assert Without(prio, 0) == prio[1..];
      LeastOrderIdentity(prio[1..], E);
    }
  }

  /** A topological prefix that nothing later must precede is emitted first and in its own order. */
  lemma {:induction false} LeastOrderPrefix(pre: seq<string>, post: seq<string>, E: set<Edge>)
    requires Distinct(pre + post) && Topological(pre, E)
    requires forall u, v :: u in post && v in pre ==> (u, v) !in E
    ensures LeastOrder(pre + post, E) == pre + LeastOrder(post, E)
    decreases |pre|
  {
    if pre == [] {
      assert pre + post == post;
    } else {
      HeadIsEmitted(pre, post, E);
      TailIsOrdered(pre, post, E);
      LeastOrderPrefix(pre[1..], post, E);
      hide *;
      Reassemble(pre, LeastOrder(post, E));
    }
  }

  lemma HeadIsEmitted(pre: seq<string>, post: seq<string>, E: set<Edge>)
    requires Distinct(pre + post) && Topological(pre, E) && pre != []
    requires forall u, v :: u in post && v in pre ==> (u, v) !in E
    ensures LeastOrder(pre + post, E) == [pre[0]] + LeastOrder(pre[1..] + post, E)
  {
    HeadIsFirst(pre, post, E);
    assert (pre + post)[0] == pre[0];
    hide FirstReady, Without, Topological, Distinct;
  }

  lemma TailIsOrdered(pre: seq<string>, post: seq<string>, E: set<Edge>)
    requires Distinct(pre + post) && Topological(pre, E) && pre != []
    ensures Distinct(pre[1..] + post) && Topological(pre[1..], E)
    ensures forall v :: v in pre[1..] ==> v in pre
  {
    var all := pre + post;
    assert forall i :: 0 <= i < |pre[1..] + post| ==> (pre[1..] + post)[i] == all[i + 1];
  }

  lemma Reassemble(pre: seq<string>, t: seq<string>)
    requires pre != []
    ensures [pre[0]] + (pre[1..] + t) == pre + t
  {
  }

  lemma HeadIsFirst(pre: seq<string>, post: seq<string>, E: set<Edge>)
    requires Distinct(pre + post) && Topological(pre, E) && pre != []
    requires forall u, v :: u in post && v in pre ==> (u, v) !in E
    ensures FirstReady(pre + post, E) == 0 && Without(pre + post, 0) == pre[1..] + post
  {
    var all := pre + post;
    forall u | u in all ensures (u, all[0]) !in E {
      if u in pre {
        var n :| 0 <= n < |pre| && pre[n] == u;
      }
    }
    assert FirstReady(all, E) == 0;
    assert Without(all, 0) == pre[1..] + post;
  }
}
