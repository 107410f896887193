/** The moves that were carried out, collapsed to one entry from each final address to the address it began as. */
module MoveLineage {
  import opened Addresses
  import opened Digraph
  import opened Model
  import opened Planning
  import opened StateMoves

  /** No two moves share a source or a target, and a target is moved on only later. */
  ghost predicate InChainOrder(moves: seq<Move>)
  {
    && (forall i, j :: 0 <= i < j < |moves| ==> moves[i].from != moves[j].from && moves[i].to != moves[j].to)
    && (forall i, j :: 0 <= i < |moves| && 0 <= j < |moves| && moves[i].to == moves[j].from ==> i < j)
  }

  function Lineage(moves: seq<Move>): map<string, string>
  {
    if moves == [] then map[]
    else
      var before, move := Lineage(moves[..|moves| - 1]), moves[|moves| - 1];
      if move.from in before then (before - {move.from})[move.to := before[move.from]]
      else before[move.to := move.from]
  }

  /** moveLineage. */
  method CollapseMoves(moves: seq<Move>) returns (lineage: map<string, string>)
    ensures lineage == Lineage(moves)
  {
    lineage := map[];
    for i := 0 to |moves|
      invariant lineage == Lineage(moves[..i])
    {
      assert moves[..i + 1][..i] == moves[..i];
      var move := moves[i];
      var source := move.from;
      if move.from in lineage {
        source := lineage[move.from];
        lineage := lineage - {move.from};
      }
      lineage := lineage[move.to := source];
    }
    assert moves[..|moves|] == moves;
  }

  ghost function Sources(moves: seq<Move>): set<string>
  {
    set m | m in moves :: m.from
  }

  ghost function Targets(moves: seq<Move>): set<string>
  {
    set m | m in moves :: m.to
  }

  ghost function MoveEdges(moves: seq<Move>): set<Edge>
  {
    set m | m in moves :: (m.from, m.to)
  }

  ghost predicate Collapses(moves: seq<Move>, lineage: map<string, string>)
  {
    && lineage.Keys == Targets(moves) - Sources(moves)
    && (forall e :: e in lineage ==> lineage[e] in Sources(moves) && lineage[e] !in Targets(moves))
    && (forall e :: e in lineage ==> Reaches(MoveEdges(moves), lineage[e], e))
    && (forall d, e :: d in lineage && e in lineage && lineage[d] == lineage[e] ==> d == e)
    && (forall s :: s in Sources(moves) && s !in Targets(moves) ==> exists e :: e in lineage && lineage[e] == s)
  }

  lemma LastMove(moves: seq<Move>)
    requires moves != [] && InChainOrder(moves)
    ensures var init, m := moves[..|moves| - 1], moves[|moves| - 1];
            && InChainOrder(init)
            && Sources(moves) == Sources(init) + {m.from} && Targets(moves) == Targets(init) + {m.to}
            && MoveEdges(moves) == MoveEdges(init) + {(m.from, m.to)}
            && m.from !in Sources(init) && m.to !in Targets(init) && m.to !in Sources(init) && m.to != m.from
  {
    var n := |moves| - 1;
    var init, m := moves[..n], moves[n];
    assert moves == init + [m];
    forall x | x in init ensures x.from != m.from && x.to != m.to && x.from != m.to {
      var i :| 0 <= i < n && moves[i] == x;
    }
  }

  /** Every chain of moves leaves exactly one entry, from its end back to its start. */
  lemma {:induction false} LineageCollapses(moves: seq<Move>)
    requires InChainOrder(moves)
    ensures Collapses(moves, Lineage(moves))
    decreases |moves|
  {
    if moves != [] {
      var n := |moves| - 1;
      LastMove(moves);
      LineageCollapses(moves[..n]);
      hide InChainOrder;
      CollapseLast(moves[..n], moves[n], moves, Lineage(moves[..n]), Lineage(moves));
    }
  }

  lemma CollapseLast(init: seq<Move>, m: Move, moves: seq<Move>, before: map<string, string>,
                     after: map<string, string>)
    requires Collapses(init, before)
    requires Sources(moves) == Sources(init) + {m.from} && Targets(moves) == Targets(init) + {m.to}
    requires MoveEdges(moves) == MoveEdges(init) + {(m.from, m.to)}
    requires m.from !in Sources(init) && m.to !in Targets(init) && m.to !in Sources(init) && m.to != m.from
    requires after == if m.from in before then (before - {m.from})[m.to := before[m.from]] else before[m.to := m.from]
    ensures Collapses(moves, after)
  {
    hide Sources, Targets, MoveEdges, Reaches;
    assert m.from in before <==> m.from in Targets(init);
    forall e | e in after ensures Reaches(MoveEdges(moves), after[e], e) {
      if e != m.to {
        ReachMono(MoveEdges(init), MoveEdges(moves), before[e], e);
      } else {
        ReachEdge(MoveEdges(moves), m.from, m.to);
        if m.from in before {
          ReachMono(MoveEdges(init), MoveEdges(moves), before[m.from], m.from);
          ReachTrans(MoveEdges(moves), before[m.from], m.from, m.to);
        }
      }
    }
    forall s | s in Sources(moves) && s !in Targets(moves) ensures exists e :: e in after && after[e] == s {
      if s == m.from || (m.from in before && before[m.from] == s) {
        assert after[m.to] == s;
      } else {
        var e :| e in before && before[e] == s;
        assert e in after && after[e] == s;
      }
    }
  }

  // ---- The realized moves of a resolution are in chain order ----

  /** No address lies under two of the roots that the moves mention. */
  ghost predicate RootsApart(moves: seq<Move>)
  {
    forall a, r, q | r in Sources(moves) + Targets(moves) && q in Sources(moves) + Targets(moves) && Under(a, r) && Under(a, q) ::
      r == q
  }

  /** The realized move comes from the declared move. */
  ghost predicate HopOf(hop: Move, move: Move)
  {
    Under(hop.from, move.from) && Under(hop.to, move.to)
  }

  lemma HopsOrdered(resources: Resources, move: Move)
    requires forall a :: !(Under(a, move.from) && Under(a, move.to))
    ensures InChainOrder(Hops(resources, move))
    ensures forall k :: 0 <= k < |Hops(resources, move)| ==> HopOf(Hops(resources, move)[k], move)
  {
    var sources := SortedSeq(set a | a in resources && Under(a, move.from));
    var hops := Hops(resources, move);
    forall k | 0 <= k < |hops| ensures HopOf(hops[k], move) && hops[k].from == sources[k] {
      assert sources[k] in Elements(sources);
      RebasedIsUnder(sources[k], move.from, move.to);
    }
    StrictlySortedIsDistinct(sources);
    forall i, j | 0 <= i < j < |hops| ensures hops[i].from != hops[j].from && hops[i].to != hops[j].to {
      RebaseUnderInjective(sources[i], sources[j], move);
    }
    forall i, j | 0 <= i < |hops| && 0 <= j < |hops| ensures hops[i].to != hops[j].from {
      assert Under(hops[i].to, move.to) && Under(hops[j].from, move.from);
    }
  }

  lemma RebaseUnderInjective(a: string, b: string, move: Move)
    requires Under(a, move.from) && Under(b, move.from)
    ensures Rebase(a, move.from, move.to) == Rebase(b, move.from, move.to) ==> a == b
  {
    assert (move.to + a[|move.from|..])[|move.to|..] == a[|move.from|..];
    assert (move.to + b[|move.from|..])[|move.to|..] == b[|move.from|..];
    FromPrefix(a, move.from);
    FromPrefix(b, move.from);
  }

  ghost predicate HasOrigin(hop: Move, moves: seq<Move>, n: nat)
    requires n <= |moves|
  {
    exists s :: 0 <= s < n && HopOf(hop, moves[s])
  }

  /** Each realized move belongs to a declared move of those resolved so far. */
  ghost predicate HopsOf(hops: seq<Move>, moves: seq<Move>, n: nat)
    requires n <= |moves|
  {
    forall k :: 0 <= k < |hops| ==> HasOrigin(hops[k], moves, n)
  }

  /** Distinct declared moves have hops at distinct places; only an earlier one's target can be a later one's source. */
  lemma HopsApart(moves: seq<Move>, s: nat, n: nat, x: Move, y: Move)
    requires RootsApart(moves) && InChainOrder(moves) && s < n < |moves| && HopOf(x, moves[s]) && HopOf(y, moves[n])
    ensures x.from != y.from && x.to != y.to && y.to != x.from
  {
    var p, q := moves[s], moves[n];
    assert p in moves && q in moves;
    assert p.from in Sources(moves) && q.from in Sources(moves) && p.to in Targets(moves) && q.to in Targets(moves);
  }

  lemma JoinHops(moves: seq<Move>, n: nat, a: seq<Move>, b: seq<Move>)
    requires RootsApart(moves) && InChainOrder(moves) && n < |moves|
    requires InChainOrder(a) && HopsOf(a, moves, n)
    requires InChainOrder(b) && forall k :: 0 <= k < |b| ==> HopOf(b[k], moves[n])
    ensures InChainOrder(a + b) && HopsOf(a + b, moves, n + 1)
  {
    hide RootsApart, Under;
    var t := a + b;
    forall i, j | 0 <= i < |a| && 0 <= j < |b|
      ensures a[i].from != b[j].from && a[i].to != b[j].to && b[j].to != a[i].from
    {
      assert HasOrigin(a[i], moves, n);
      var s :| 0 <= s < n && HopOf(a[i], moves[s]);
      HopsApart(moves, s, n, a[i], b[j]);
    }
    assert forall k :: 0 <= k < |t| ==> t[k] == if k < |a| then a[k] else b[k - |a|];
    forall k | 0 <= k < |t| ensures HasOrigin(t[k], moves, n + 1) {
      if k >= |a| {
        assert HopOf(t[k], moves[n]);
      } else {
        assert HasOrigin(a[k], moves, n);
        var s :| 0 <= s < n && HopOf(a[k], moves[s]);
        assert HopOf(t[k], moves[s]);
      }
    }
    assert HopsOf(t, moves, n + 1);
  }

  /** What a resolution carries out is in chain order, so its lineage collapses. */
  lemma {:induction false} RealizedInChainOrder(moves: seq<Move>, finalTargets: map<string, string>,
        desired: set<string>, path: seq<Resources>)
    requires RootsApart(moves) && InChainOrder(moves)
    requires (forall m :: m in moves ==> m.from in finalTargets) && 1 <= |path| <= |moves| + 1
    ensures var hops := Realized(moves, finalTargets, desired, path);
            InChainOrder(hops) && HopsOf(hops, moves, |path| - 1) && Collapses(hops, Lineage(hops))
    decreases |path|
  {
    hide RootsApart, HopOf, Hops, Decide, Collapses;
    if |path| > 1 {
      var n := |path| - 2;
      var before := path[..n + 1];
      RealizedInChainOrder(moves, finalTargets, desired, before);
      MoveRootsApart(moves, n);
      HopsOrdered(path[n], moves[n]);
      NoHops();
      JoinHops(moves, n, Realized(moves, finalTargets, desired, before),
               if Decide(path[n], moves[n], finalTargets[moves[n].from], desired) == Carry then Hops(path[n], moves[n]) else []);
    }
    LineageCollapses(Realized(moves, finalTargets, desired, path));
  }

  lemma NoHops()
    ensures InChainOrder([])
  {
  }

  lemma MoveRootsApart(moves: seq<Move>, n: nat)
    requires RootsApart(moves) && InChainOrder(moves) && n < |moves|
    ensures forall a :: !(Under(a, moves[n].from) && Under(a, moves[n].to))
  {
    var p := moves[n];
    assert p in moves && p.from in Sources(moves) && p.to in Targets(moves);
  }

  /** Every tracked address was there before or was moved to; every move starts at a tracked address or where
      an earlier one ended, and ends at a tracked address or where a later one starts. */
  ghost predicate Spans(prior: Resources, hops: seq<Move>, resources: Resources)
  {
    && (forall a :: a in resources ==> a in prior || a in Targets(hops))
    && (forall h :: h in hops ==> h.to in Sources(hops) || h.to in resources)
    && (forall h :: h in hops ==> h.from in Targets(hops) || h.from in prior)
  }

  lemma HopsAre(resources: Resources, move: Move)
    ensures forall a :: a in resources && Under(a, move.from) ==> Move(a, Rebase(a, move.from, move.to)) in Hops(resources, move)
    ensures forall h :: h in Hops(resources, move) ==> h.from in resources && h.to == Rebase(h.from, move.from, move.to)
  {
    var under := set a | a in resources && Under(a, move.from);
    var sources, hops := SortedSeq(under), Hops(resources, move);
    hide Under, Rebase;
    forall a | a in under
      ensures Move(a, Rebase(a, move.from, move.to)) in hops
    {
      assert a in Elements(sources);
      var k :| 0 <= k < |sources| && sources[k] == a;
      assert hops[k] == Move(a, Rebase(a, move.from, move.to));
    }
    forall h | h in hops ensures h.from in resources && h.to == Rebase(h.from, move.from, move.to) {
      var k :| 0 <= k < |hops| && hops[k] == h;
      assert sources[k] in Elements(sources);
    }
  }

  lemma HopMembers(resources: Resources, move: Move, targets: map<string, (Digest, Digest)>, moved: Resources)
    requires IsMoved(resources, move, targets, moved)
    ensures forall h :: h in Hops(resources, move) ==> h.from in resources && h.to in moved
    ensures forall a :: a in resources && Under(a, move.from) ==> a in Sources(Hops(resources, move))
    ensures forall a :: a in resources && !Under(a, move.from) ==> a in moved
    ensures forall b :: b in moved ==> b in resources || b in Targets(Hops(resources, move))
  {
    HopsAre(resources, move);
    var hops := Hops(resources, move);
    hide Hops, MovedResource;
    forall b | b in moved ensures b in resources || b in Targets(hops) {
      var a :| a in resources && b == Rebase(a, move.from, move.to);
      if Under(a, move.from) {
        assert Move(a, b) in hops;
      }
    }
  }

  lemma SpansNext(prior: Resources, hops: seq<Move>, resources: Resources, more: seq<Move>, moved: Resources)
    requires Spans(prior, hops, resources)
    requires forall h :: h in more ==> h.from in resources && h.to in moved
    requires forall a :: a in resources && a !in Sources(more) ==> a in moved
    requires forall b :: b in moved ==> b in resources || b in Targets(more)
    ensures Spans(prior, hops + more, moved)
  {
    assert Sources(hops + more) == Sources(hops) + Sources(more);
    assert Targets(hops + more) == Targets(hops) + Targets(more);
  }

  lemma {:induction false} RealizedSpans(moves: seq<Move>, finalTargets: map<string, string>, desired: set<string>,
                        targets: map<string, (Digest, Digest)>, path: seq<Resources>)
    requires forall m :: m in moves ==> m.from in finalTargets
    requires Resolves(moves, finalTargets, desired, targets, path)
    ensures Spans(path[0], Realized(moves, finalTargets, desired, path), path[|path| - 1])
    decreases |path|
  {
    hide Spans, IsMoved, Hops, Decide, Sources, Targets;
    if |path| == 1 {
      SpansNothing(path[0]);
    } else {
      var n := |path| - 2;
      var before := path[..n + 1];
      ResolvedPrefix(moves, finalTargets, desired, targets, path);
      ResolvedLast(moves, finalTargets, desired, targets, path, n);
      RealizedSpans(moves, finalTargets, desired, targets, before);
      var hops := Realized(moves, finalTargets, desired, before);
      if Decide(path[n], moves[n], finalTargets[moves[n].from], desired) == Carry {
        HopMembers(path[n], moves[n], targets, path[n + 1]);
        SpansNext(path[0], hops, path[n], Hops(path[n], moves[n]), path[n + 1]);
      } else {
        assert hops + [] == hops;
      }
    }
  }

  lemma SpansNothing(resources: Resources)
    ensures Spans(resources, [], resources)
  {
  }

  lemma ResolvedLast(moves: seq<Move>, finalTargets: map<string, string>, desired: set<string>,
                     targets: map<string, (Digest, Digest)>, path: seq<Resources>, n: nat)
    requires forall m :: m in moves ==> m.from in finalTargets
    requires Resolves(moves, finalTargets, desired, targets, path) && n + 1 < |path|
    ensures match Decide(path[n], moves[n], finalTargets[moves[n].from], desired)
            case Skip => path[n + 1] == path[n]
            case Carry => IsMoved(path[n], moves[n], targets, path[n + 1])
            case Fail(_) => false
  {
    hide IsMoved;
    assert 0 <= n < |path| - 1;
  }

  lemma ResolvedPrefix(moves: seq<Move>, finalTargets: map<string, string>, desired: set<string>,
                       targets: map<string, (Digest, Digest)>, path: seq<Resources>)
    requires forall m :: m in moves ==> m.from in finalTargets
    requires Resolves(moves, finalTargets, desired, targets, path) && |path| > 1
    ensures Resolves(moves, finalTargets, desired, targets, path[..|path| - 1])
  {
    hide Decide, IsMoved;
    var t := path[..|path| - 1];
    forall i | 0 <= i < |t| - 1
      ensures match Decide(t[i], moves[i], finalTargets[moves[i].from], desired)
              case Skip => t[i + 1] == t[i]
              case Carry => IsMoved(t[i], moves[i], targets, t[i + 1])
              case Fail(_) => false
    {
      assert t[i] == path[i] && t[i + 1] == path[i + 1];
      ResolvedLast(moves, finalTargets, desired, targets, path, i);
    }
  }

  /** Each entry of a resolution's lineage leads from an address tracked after it to the one address it had before. */
  lemma LineageSpansResolution(moves: seq<Move>, finalTargets: map<string, string>, desired: set<string>,
                               targets: map<string, (Digest, Digest)>, path: seq<Resources>)
    requires forall m :: m in moves ==> m.from in finalTargets
    requires RootsApart(moves) && InChainOrder(moves)
    requires Resolves(moves, finalTargets, desired, targets, path)
    ensures var lineage := Lineage(Realized(moves, finalTargets, desired, path));
            && (forall e :: e in lineage ==> e in path[|path| - 1] && lineage[e] in path[0])
            && (forall d, e :: d in lineage && e in lineage && lineage[d] == lineage[e] ==> d == e)
  {
    hide Lineage, Realized, RootsApart, InChainOrder, MoveEdges;
    RealizedInChainOrder(moves, finalTargets, desired, path);
    RealizedSpans(moves, finalTargets, desired, targets, path);
  }
}
