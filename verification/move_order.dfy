/** Declared moves in the state package: which are refused, and the order in which the others are carried out. */
module MoveOrder {
  import opened Addresses
  import opened Digraph
  import opened Model
  import opened StateMoves
  import opened MoveLineage

  datatype RootsError =
    | NotARoot(root: string)
    | MovesToItself(root: string)
    | SourceRepeated(root: string, first: string)
    | TargetRepeated(first: string, second: string, root: string)
    | Overlapping(move: Move, previous: Move)
    | MoveCycle(root: string)

  // ---- component roots ----

  predicate NameStart(c: char)
  {
    ('a' <= c <= 'z') || ('A' <= c <= 'Z') || c == '_'
  }

  /** `validComponentName`. */
  predicate ValidName(name: string)
  {
    name != "" && forall i :: 0 <= i < |name| ==> NameStart(name[i]) || (i > 0 && '0' <= name[i] <= '9')
  }

  /** `componentNameFromRoot`. */
  function NameOf(host: string, root: string): Option<string>
  {
    var prefix := Root(host, "");
    if prefix <= root && ValidName(root[|prefix|..]) then Some(root[|prefix|..]) else None
  }

  lemma NameOfRoot(host: string, root: string)
    ensures NameOf(host, root).Some? ==> ValidName(NameOf(host, root).value) && root == Root(host, NameOf(host, root).value)
  {
    var prefix := Root(host, "");
    if prefix <= root { assert root == prefix + root[|prefix|..]; }
  }

  /** A component root of a host is the host's component prefix and a name: letters, digits and underscores, not starting
      with a digit. */
  lemma NameExactly(host: string, root: string, name: string)
    ensures NameOf(host, root) == Some(name) <==>
            && root == "host." + host + ".component." + name && name != "" && !('0' <= name[0] <= '9')
            && forall i :: 0 <= i < |name| ==>
                 'a' <= name[i] <= 'z' || 'A' <= name[i] <= 'Z' || name[i] == '_' || '0' <= name[i] <= '9'
  {
    var prefix := Root(host, "");
    assert prefix == "host." + host + ".component.";
    if prefix <= root { assert root == prefix + root[|prefix|..]; }
    if root == prefix + name { assert root[|prefix|..] == name; }
  }

  lemma RootHasName(host: string, name: string)
    requires ValidName(name)
    ensures NameOf(host, Root(host, name)) == Some(name)
  {
    var prefix := Root(host, "");
    assert Root(host, name) == prefix + name;
    assert Root(host, name)[|prefix|..] == name;
  }

  /** `prefixesOverlap`. */
  predicate Overlap(left: string, right: string)
  {
    left == right || right + "." <= left || left + "." <= right
  }

  /** Names hold no dot, so no address lies under two roots. */
  lemma RootsDisjoint(host: string, a: string, b: string, x: string)
    requires ValidName(a) && ValidName(b) && Under(x, Root(host, a)) && Under(x, Root(host, b))
    ensures a == b
  {
    FromPrefix(x, Root(host, a));
    FromPrefix(x, Root(host, b));
    assert Root(host, a) == Root(host, "") + a && Root(host, b) == Root(host, "") + b;
    if |a| < |b| {
      NameThere(host, b, x, |a|);
      DotAfter(x, Root(host, a));
    } else if |b| < |a| {
      NameThere(host, a, x, |b|);
      DotAfter(x, Root(host, b));
    } else {
      var n := |Root(host, "")|;
      assert a == x[n..n + |a|] == b;
    }
  }

  lemma NameThere(host: string, name: string, x: string, k: nat)
    requires Under(x, Root(host, name)) && k < |name|
    ensures |Root(host, "")| + k < |x| && x[|Root(host, "")| + k] == name[k]
  {
    FromPrefix(x, Root(host, name));
    assert Root(host, name) == Root(host, "") + name;
  }

  lemma DotAfter(x: string, root: string)
    requires Under(x, root) && |x| > |root|
    ensures x[|root|] == '.'
  {
    assert x[..|root + "."|] == root + ".";
  }

  lemma RootsOverlap(host: string, a: string, b: string)
    requires ValidName(a) && ValidName(b) && Overlap(Root(host, a), Root(host, b))
    ensures a == b
  {
    if Root(host, a) + "." <= Root(host, b) {
      RootsDisjoint(host, a, b, Root(host, b));
    } else {
      RootsDisjoint(host, a, b, Root(host, a));
    }
  }

  // ---- what is accepted ----

  ghost predicate RootMove(host: string, move: Move)
  {
    NameOf(host, move.from).Some? && NameOf(host, move.to).Some? && move.from != move.to
  }

  /** Moves between different component roots of the host, no two with the same source or the same target. */
  ghost predicate Screened(host: string, moves: seq<Move>)
  {
    && (forall m :: m in moves ==> RootMove(host, m))
    && (forall i, j :: 0 <= i < j < |moves| ==> moves[i].from != moves[j].from && moves[i].to != moves[j].to)
  }

  ghost predicate Orderable(host: string, moves: seq<Move>)
  {
    Screened(host, moves) && Acyclic(MoveEdges(moves))
  }

  lemma ScreenedRootsApart(host: string, moves: seq<Move>)
    requires forall m :: m in moves ==> RootMove(host, m)
    ensures RootsApart(moves)
  {
    forall a, r, q | r in Sources(moves) + Targets(moves) && q in Sources(moves) + Targets(moves) && Under(a, r) && Under(a, q)
      ensures r == q
    {
      NameOfRoot(host, r);
      NameOfRoot(host, q);
      RootsDisjoint(host, NameOf(host, r).value, NameOf(host, q).value, a);
    }
  }

  lemma SameMembers(a: seq<Move>, b: seq<Move>)
    requires multiset(a) == multiset(b)
    ensures forall m :: m in a <==> m in b
    ensures MoveEdges(a) == MoveEdges(b)
  {
    assert forall m :: m in a <==> m in multiset(a);
    assert forall m :: m in b <==> m in multiset(b);
  }

  /** A permutation of moves with distinct sources and targets has distinct sources and targets. */
  lemma ScreenedPermutes(host: string, a: seq<Move>, b: seq<Move>)
    requires multiset(a) == multiset(b) && Screened(host, a)
    ensures Screened(host, b)
  {
    SameMembers(a, b);
    forall i, j | 0 <= i < j < |b| ensures b[i].from != b[j].from && b[i].to != b[j].to {
      assert b[i] in b && b[j] in b;
      var p :| 0 <= p < |a| && a[p] == b[i];
      var q :| 0 <= q < |a| && a[q] == b[j];
      if p == q {
        TwiceCounted(b, i, j);
        CountsDistinct(a, a[p]);
      }
    }
  }

  // ---- screening, in name order ----

  predicate NamesBefore(a: Move, b: Move)
  {
    if a.from != b.from then Less(a.from, b.from) else Less(a.to, b.to)
  }

  lemma NamesBeforeOrders(a: Move, b: Move, c: Move)
    ensures NamesBefore(a, b) ==> !NamesBefore(b, a)
    ensures !NamesBefore(b, a) && !NamesBefore(c, b) ==> !NamesBefore(c, a)
  {
    hide Less;
    LessTrichotomy(a.from, b.from);
    LessTrichotomy(b.from, c.from);
    LessTrichotomy(a.to, b.to);
    LessTrichotomy(a.from, a.from);
    LessTrichotomy(a.to, a.to);
    if !Less(b.from, a.from) && !Less(c.from, b.from) { NotLessTrans(a.from, b.from, c.from); }
    if !Less(b.to, a.to) && !Less(c.to, b.to) { NotLessTrans(a.to, b.to, c.to); }
    LessTrichotomy(a.from, c.from);
  }

  ghost predicate InNameOrder(moves: seq<Move>)
  {
    forall i, j :: 0 <= i < j < |moves| ==> !NamesBefore(moves[j], moves[i])
  }

  method SortByNames(moves: seq<Move>) returns (r: seq<Move>)
    ensures InNameOrder(r) && multiset(r) == multiset(moves)
  {
    hide NamesBefore;
    forall a, b, c
      ensures (NamesBefore(a, b) ==> !NamesBefore(b, a)) && (!NamesBefore(b, a) && !NamesBefore(c, b) ==> !NamesBefore(c, a))
    {
      NamesBeforeOrders(a, b, c);
    }
    r := StableSort((a, b) => NamesBefore(a, b), moves);
  }

  /** The j-th move is the first one refused, for this reason. */
  ghost predicate OffendsAt(host: string, moves: seq<Move>, j: nat, error: RootsError)
  {
    && j < |moves| && Screened(host, moves[..j])
    && var m := moves[j];
    match error
    case NotARoot(root) =>
      if NameOf(host, m.from).None? then root == m.from else root == m.to && NameOf(host, m.to).None?
    case MovesToItself(root) => NameOf(host, root).Some? && m == Move(root, root)
    case SourceRepeated(root, first) => RootMove(host, m) && root == m.from && Move(root, first) in moves[..j]
    case TargetRepeated(first, second, root) =>
      RootMove(host, m) && m == Move(second, root) && Move(first, root) in moves[..j] && forall p :: p in moves[..j] ==> p.from != second
    case Overlapping(move, previous) =>
      && RootMove(host, m) && move == m && previous in moves[..j] && previous.from != m.from && previous.to != m.to
      && (Overlap(previous.from, m.from) || Overlap(previous.to, m.to))
    case MoveCycle(_) => false
  }

  /** A refused move really is refused, and never for overlapping: roots of the same host overlap only when equal. */
  lemma OffenceIsReal(host: string, moves: seq<Move>, j: nat, error: RootsError)
    requires OffendsAt(host, moves, j, error)
    ensures !Screened(host, moves) && !error.Overlapping?
  {
    var m := moves[j];
    assert m in moves;
    forall p | p in moves[..j] ensures exists i :: 0 <= i < j && moves[i] == p {
      var i :| 0 <= i < j && moves[..j][i] == p;
      assert moves[i] == p;
    }
    if error.Overlapping? {
      var p := error.previous;
      NameOfRoot(host, p.from);
      NameOfRoot(host, p.to);
      NameOfRoot(host, m.from);
      NameOfRoot(host, m.to);
      hide Overlap, NameOf;
      if Overlap(p.from, m.from) {
        RootsOverlap(host, NameOf(host, p.from).value, NameOf(host, m.from).value);
      } else {
        RootsOverlap(host, NameOf(host, p.to).value, NameOf(host, m.to).value);
      }
    }
  }

  /** bySource and byTarget hold the ends of the moves passed so far. */
  ghost predicate Indexed(moves: seq<Move>, bySource: map<string, string>, byTarget: map<string, string>)
  {
    && (forall m :: m in moves ==> m.from in bySource && bySource[m.from] == m.to && m.to in byTarget && byTarget[m.to] == m.from)
    && (forall s :: s in bySource ==> Move(s, bySource[s]) in moves)
    && (forall t :: t in byTarget ==> Move(byTarget[t], t) in moves)
  }

  lemma PassMove(host: string, moves: seq<Move>, j: nat, bySource: map<string, string>, byTarget: map<string, string>)
    requires j < |moves| && Screened(host, moves[..j]) && Indexed(moves[..j], bySource, byTarget)
    requires RootMove(host, moves[j]) && moves[j].from !in bySource && moves[j].to !in byTarget
    ensures Screened(host, moves[..j + 1])
    ensures Indexed(moves[..j + 1], bySource[moves[j].from := moves[j].to], byTarget[moves[j].to := moves[j].from])
  {
    hide RootMove;
    TakeNext(moves, j);
    var t := moves[..j + 1];
    forall a, b | 0 <= a < b < |t| ensures t[a].from != t[b].from && t[a].to != t[b].to {
      assert t[a] == moves[..j][a] && t[a] in moves[..j];
      if b < j { assert t[b] == moves[..j][b]; }
    }
  }

  /** The first half of validateAndOrderMoves. */
  method ScreenMoves(host: string, moves: seq<Move>) returns (error: Option<RootsError>, bySource: map<string, string>)
    ensures error.Some? ==> exists j :: OffendsAt(host, moves, j, error.value)
    ensures error.None? ==> Screened(host, moves) && exists byTarget :: Indexed(moves, bySource, byTarget)
  {
    hide NameOf, Overlap, Indexed, Screened;
    error, bySource := None, map[];
    var byTarget: map<string, string> := map[];
    NothingScreened(host);
    for j := 0 to |moves|
      invariant Screened(host, moves[..j]) && Indexed(moves[..j], bySource, byTarget)
    {
      var move := moves[j];
      if NameOf(host, move.from).None? {
        assert OffendsAt(host, moves, j, NotARoot(move.from));
        return Some(NotARoot(move.from)), bySource;
      }
      if NameOf(host, move.to).None? {
        assert OffendsAt(host, moves, j, NotARoot(move.to));
        return Some(NotARoot(move.to)), bySource;
      }
      if move.from == move.to {
        assert OffendsAt(host, moves, j, MovesToItself(move.from));
        return Some(MovesToItself(move.from)), bySource;
      }
      IndexedEnds(moves[..j], bySource, byTarget, move);
      if move.from in bySource {
        assert OffendsAt(host, moves, j, SourceRepeated(move.from, bySource[move.from]));
        return Some(SourceRepeated(move.from, bySource[move.from])), bySource;
      }
      if move.to in byTarget {
        assert OffendsAt(host, moves, j, TargetRepeated(byTarget[move.to], move.from, move.to));
        return Some(TargetRepeated(byTarget[move.to], move.from, move.to)), bySource;
      }
      for i := 0 to j {
        var previous := moves[i];
        if Overlap(previous.from, move.from) || Overlap(previous.to, move.to) {
          assert moves[..j][i] == previous && previous in moves[..j];
          assert OffendsAt(host, moves, j, Overlapping(move, previous));
          return Some(Overlapping(move, previous)), bySource;
        }
      }
      PassMove(host, moves, j, bySource, byTarget);
      bySource := bySource[move.from := move.to];
      byTarget := byTarget[move.to := move.from];
    }
    assert moves[..|moves|] == moves;
  }

  lemma IndexedEnds(moves: seq<Move>, bySource: map<string, string>, byTarget: map<string, string>, move: Move)
    requires Indexed(moves, bySource, byTarget)
    ensures move.from in bySource ==> Move(move.from, bySource[move.from]) in moves
    ensures move.from !in bySource ==> forall p :: p in moves ==> p.from != move.from
    ensures move.to in byTarget ==> Move(byTarget[move.to], move.to) in moves
    ensures move.to !in byTarget ==> forall p :: p in moves ==> p.to != move.to
  {
  }

  lemma NothingScreened(host: string)
    ensures Screened(host, []) && Indexed([], map[], map[])
  {
  }

  // ---- the length of the chain ahead of a source ----

  /** n moves lead from s to t. */
  ghost predicate Leads(next: map<string, string>, s: string, n: nat, t: string)
    decreases n
  {
    if n == 0 then s == t else s in next && Leads(next, next[s], n - 1, t)
  }

  lemma {:induction false} LeadsOn(next: map<string, string>, s: string, n: nat, t: string)
    requires Leads(next, s, n, t) && t in next
    ensures Leads(next, s, n + 1, next[t])
    decreases n
  {
    if n > 0 { LeadsOn(next, next[s], n - 1, t); }
  }

  /** Exactly d moves lead on from s. */
  ghost predicate HasDepth(next: map<string, string>, s: string, d: nat)
    decreases d
  {
    if d == 0 then s !in next else s in next && HasDepth(next, next[s], d - 1)
  }

  lemma {:induction false} OneDepth(next: map<string, string>, s: string, d: nat, e: nat)
    requires HasDepth(next, s, d) && HasDepth(next, s, e)
    ensures d == e
    decreases d
  {
    if d > 0 { OneDepth(next, next[s], d - 1, e - 1); }
  }

  ghost predicate LoopsBack(next: map<string, string>, s: string)
  {
    exists n: nat :: n > 0 && Leads(next, s, n, s)
  }

  ghost predicate Depths(next: map<string, string>, depths: map<string, nat>)
  {
    forall s :: s in depths ==> s in next && HasDepth(next, s, depths[s])
  }

  /** Every source being visited leads to this one. */
  ghost predicate Pursuing(next: map<string, string>, visiting: set<string>, source: string)
  {
    forall v :: v in visiting ==> exists n: nat :: n > 0 && Leads(next, v, n, source)
  }

  lemma PursueNext(next: map<string, string>, visiting: set<string>, source: string)
    requires Pursuing(next, visiting, source) && source in next
    ensures Pursuing(next, visiting + {source}, next[source])
  {
    forall v | v in visiting + {source} ensures exists n: nat :: n > 0 && Leads(next, v, n, next[source]) {
      if v in visiting {
        var n: nat :| n > 0 && Leads(next, v, n, source);
        LeadsOn(next, v, n, source);
      } else {
        assert Leads(next, source, 1, next[source]);
      }
    }
  }

  /** The depth closure of validateAndOrderMoves. */
  method DepthOf(next: map<string, string>, source: string, depths: map<string, nat>, visiting: set<string>)
    returns (r: Result<nat, string>, after: map<string, nat>)
    requires source in next && visiting <= next.Keys
    requires Depths(next, depths) && Pursuing(next, visiting, source)
    ensures r.Err? ==> LoopsBack(next, r.error)
    ensures r.Ok? ==> Depths(next, after) && depths.Keys <= after.Keys && source in after && after[source] == r.value
    decreases |next.Keys - visiting|
  {
    after := depths;
    if source in depths {
      return Ok(depths[source]), after;
    }
    if source in visiting {
      return Err(source), after;
    }
    var value := 1;
    assert HasDepth(next, source, 1) <==> next[source] !in next;
    if next[source] in next {
      PursueNext(next, visiting, source);
      SmallerSet(next.Keys - (visiting + {source}), next.Keys - visiting);
      var ahead;
      ahead, after := DepthOf(next, next[source], depths, visiting + {source});
      if ahead.Err? {
        return Err(ahead.error), after;
      }
      value := value + ahead.value;
    }
    assert HasDepth(next, source, value);
    after := after[source := value];
    r := Ok(value);
  }

  // ---- the order of execution ----

  ghost predicate NextIs(moves: seq<Move>, next: map<string, string>)
  {
    && (forall m :: m in moves ==> m.from in next && next[m.from] == m.to)
    && (forall s :: s in next ==> Move(s, next[s]) in moves)
  }

  function DepthIn(depths: map<string, nat>, s: string): nat
  {
    if s in depths then depths[s] else 0
  }

  predicate Deeper(depths: map<string, nat>, a: Move, b: Move)
  {
    || DepthIn(depths, a.from) > DepthIn(depths, b.from)
    || (DepthIn(depths, a.from) == DepthIn(depths, b.from) && Less(a.from, b.from))
  }

  lemma DeeperOrders(depths: map<string, nat>, a: Move, b: Move, c: Move)
    ensures Deeper(depths, a, b) ==> !Deeper(depths, b, a)
    ensures a.from != b.from ==> Deeper(depths, a, b) || Deeper(depths, b, a)
    ensures !Deeper(depths, b, a) && !Deeper(depths, c, b) ==> !Deeper(depths, c, a)
  {
    hide Less;
    LessTrichotomy(a.from, b.from);
    if !Less(b.from, a.from) && !Less(c.from, b.from) { NotLessTrans(a.from, b.from, c.from); }
  }

  /** The longer the chain ahead, the earlier the move; among equals, by source. */
  ghost predicate InDepthOrder(moves: seq<Move>)
  {
    exists next, depths :: NextIs(moves, next) && Depths(next, depths) && depths.Keys == next.Keys && ByDepth(depths, moves)
  }

  ghost predicate ByDepth(depths: map<string, nat>, moves: seq<Move>)
  {
    forall i, j :: 0 <= i < j < |moves| ==> Deeper(depths, moves[i], moves[j])
  }

  /** `sort.SliceStable` by depth and source, where no two moves share a source. */
  method SortByDepth(moves: seq<Move>, depths: map<string, nat>) returns (r: seq<Move>)
    requires forall i, j :: 0 <= i < j < |moves| ==> moves[i].from != moves[j].from
    ensures ByDepth(depths, r) && multiset(r) == multiset(moves)
  {
    hide Deeper;
    forall a, b, c
      ensures (Deeper(depths, a, b) ==> !Deeper(depths, b, a)) &&
              (!Deeper(depths, b, a) && !Deeper(depths, c, b) ==> !Deeper(depths, c, a))
    {
      DeeperOrders(depths, a, b, c);
    }
    r := StableSort((a, b) => Deeper(depths, a, b), moves);
    forall i, j | 0 <= i < j < |r| ensures Deeper(depths, r[i], r[j]) {
      SourcesDiffer(moves, r, i, j);
      DeeperOrders(depths, r[i], r[j], r[j]);
    }
  }

  lemma SourcesDiffer(moves: seq<Move>, r: seq<Move>, i: nat, j: nat)
    requires forall i, j :: 0 <= i < j < |moves| ==> moves[i].from != moves[j].from
    requires multiset(r) == multiset(moves) && i < j < |r|
    ensures r[i].from != r[j].from
  {
    SameMembers(moves, r);
    assert r[i] in r && r[j] in r;
    var p :| 0 <= p < |moves| && moves[p] == r[i];
    var q :| 0 <= q < |moves| && moves[q] == r[j];
    if p == q {
      TwiceCounted(r, i, j);
      CountsDistinct(moves, moves[p]);
    }
  }

  lemma {:induction false} LeadsWalk(moves: seq<Move>, next: map<string, string>, s: string, n: nat,
                                     t: string) returns (p: seq<string>)
    requires NextIs(moves, next) && Leads(next, s, n, t)
    ensures |p| == n + 1 && WalkFromTo(MoveEdges(moves), p, s, t)
    decreases n
  {
    if n == 0 {
      p := [s];
    } else {
      var q := LeadsWalk(moves, next, next[s], n - 1, t);
      assert Move(s, next[s]) in moves;
      p := [s] + q;
      forall i, j | 0 <= i && j == i + 1 && j < |p| ensures (p[i], p[j]) in MoveEdges(moves) {
        if i > 0 { assert p[i] == q[i - 1] && p[j] == q[j - 1]; }
      }
    }
  }

  lemma LoopIsCycle(moves: seq<Move>, next: map<string, string>, s: string)
    requires NextIs(moves, next) && LoopsBack(next, s)
    ensures OnMoveCycle(moves, s) && !Acyclic(MoveEdges(moves))
  {
    var n: nat :| n > 0 && Leads(next, s, n, s);
    var p := LeadsWalk(moves, next, s, n, s);
    assert IsCycle(MoveEdges(moves), p);
    CyclicIffCycle(MoveEdges(moves));
  }

  ghost predicate OnMoveCycle(moves: seq<Move>, s: string)
  {
    exists c :: IsCycle(MoveEdges(moves), c) && c[0] == s
  }

  lemma DepthsAcyclic(moves: seq<Move>, next: map<string, string>, depths: map<string, nat>)
    requires NextIs(moves, next) && Depths(next, depths) && depths.Keys == next.Keys
    ensures Acyclic(MoveEdges(moves))
  {
    var rank: string -> int := x => if x in depths then -(depths[x] as int) else 0;
    forall e | e in MoveEdges(moves) ensures rank(e.0) < rank(e.1) {
      var m :| m in moves && e == (m.from, m.to);
      NextDepth(next, depths, m.from);
    }
    RankAcyclic(MoveEdges(moves), rank);
  }

  lemma NextDepth(next: map<string, string>, depths: map<string, nat>, s: string)
    requires Depths(next, depths) && s in next && depths.Keys == next.Keys
    ensures depths[s] > 0
    ensures next[s] in next ==> depths[s] == depths[next[s]] + 1
  {
    assert HasDepth(next, s, depths[s]);
    if next[s] in next { OneDepth(next, next[s], depths[s] - 1, depths[next[s]]); }
  }

  lemma DeepestFirst(moves: seq<Move>, next: map<string, string>, depths: map<string, nat>)
    requires NextIs(moves, next) && Depths(next, depths) && depths.Keys == next.Keys && ByDepth(depths, moves)
    requires forall i, j :: 0 <= i < j < |moves| ==> moves[i].from != moves[j].from && moves[i].to != moves[j].to
    ensures InChainOrder(moves)
  {
    forall i, j | 0 <= i < |moves| && 0 <= j < |moves| && moves[i].to == moves[j].from ensures i < j {
      assert moves[i] in moves && moves[j] in moves;
      NextDepth(next, depths, moves[i].from);
    }
  }

  /** Depth order is chain order. */
  lemma DepthIsChainOrder(host: string, moves: seq<Move>)
    requires InDepthOrder(moves) && Screened(host, moves)
    ensures InChainOrder(moves)
  {
    hide RootMove, Depths, ByDepth, InChainOrder;
    var next, depths :| NextIs(moves, next) && Depths(next, depths) && depths.Keys == next.Keys && ByDepth(depths, moves);
    DeepestFirst(moves, next, depths);
  }

  lemma {:induction false} ByDepthUnique(depths: map<string, nat>, a: seq<Move>, b: seq<Move>)
    requires ByDepth(depths, a) && ByDepth(depths, b) && forall m :: m in a <==> m in b
    ensures a == b
    decreases |a|
  {
    HasFirst(a);
    HasFirst(b);
    if a != [] && b != [] {
      DeeperOrders(depths, a[0], b[0], b[0]);
      assert a[0] == b[0];
      TailMembers(depths, a);
      TailMembers(depths, b);
      ByDepthUnique(depths, a[1..], b[1..]);
      assert a == [a[0]] + a[1..] && b == [b[0]] + b[1..];
    }
  }

  lemma HasFirst(s: seq<Move>)
    ensures s != [] ==> s[0] in s
  {
  }

  lemma TailMembers(depths: map<string, nat>, a: seq<Move>)
    requires a != [] && ByDepth(depths, a)
    ensures forall m :: m in a[1..] <==> m in a && m != a[0]
  {
    forall m | m in a[1..] ensures m != a[0] {
      var i :| 0 <= i < |a[1..]| && a[1..][i] == m;
      assert Deeper(depths, a[0], a[i + 1]);
      DeeperOrders(depths, a[0], a[0], a[0]);
    }
    assert a == [a[0]] + a[1..];
  }

  lemma DepthsUnique(next: map<string, string>, d: map<string, nat>, e: map<string, nat>)
    requires Depths(next, d) && Depths(next, e) && d.Keys == e.Keys
    ensures d == e
  {
    forall s | s in d ensures d[s] == e[s] {
      OneDepth(next, s, d[s], e[s]);
    }
  }

  /** There is one depth order of the same moves. */
  lemma DepthOrderUnique(a: seq<Move>, b: seq<Move>)
    requires multiset(a) == multiset(b) && InDepthOrder(a) && InDepthOrder(b)
    ensures a == b
  {
    hide Depths, ByDepth;
    SameMembers(a, b);
    var n, d :| NextIs(a, n) && Depths(n, d) && d.Keys == n.Keys && ByDepth(d, a);
    var m, e :| NextIs(b, m) && Depths(m, e) && e.Keys == m.Keys && ByDepth(e, b);
    NextIsOne(a, n, m);
    DepthsUnique(n, d, e);
    ByDepthUnique(d, a, b);
  }

  /** In the depth order, a source with more moves ahead of it comes first; equal ones go by name. */
  lemma DepthOrderMeans(moves: seq<Move>, next: map<string, string>, i: nat, j: nat) returns (d: nat, e: nat)
    requires InDepthOrder(moves) && NextIs(moves, next) && i < j < |moves|
    ensures HasDepth(next, moves[i].from, d) && HasDepth(next, moves[j].from, e)
    ensures d > e || (d == e && Less(moves[i].from, moves[j].from))
  {
    hide HasDepth, Less;
    var n, depths :| NextIs(moves, n) && Depths(n, depths) && depths.Keys == n.Keys && ByDepth(depths, moves);
    NextIsOne(moves, n, next);
    assert moves[i] in moves && moves[j] in moves;
    d, e := depths[moves[i].from], depths[moves[j].from];
    assert Deeper(depths, moves[i], moves[j]);
  }

  /** In the name order, moves go by source and then by target. */
  lemma NameOrderMeans(moves: seq<Move>, i: nat, j: nat)
    requires InNameOrder(moves) && i < j < |moves|
    ensures Less(moves[i].from, moves[j].from) ||
            (moves[i].from == moves[j].from && (moves[i].to == moves[j].to || Less(moves[i].to, moves[j].to)))
  {
    hide Less;
    assert !NamesBefore(moves[j], moves[i]);
    LessTrichotomy(moves[i].from, moves[j].from);
    LessTrichotomy(moves[i].to, moves[j].to);
  }

  ghost predicate Explained(host: string, moves: seq<Move>, error: RootsError)
  {
    || (exists j :: OffendsAt(host, moves, j, error))
    || (error.MoveCycle? && Screened(host, moves) && OnMoveCycle(moves, error.root))
  }

  /** The reason is the first offence among the moves in name order, or a root on a cycle. */
  ghost predicate Refuses(host: string, declarations: seq<Move>, error: RootsError)
  {
    exists sorted :: multiset(sorted) == multiset(declarations) && InNameOrder(sorted) && Explained(host, sorted, error)
  }

  lemma RefusalIsReal(host: string, declarations: seq<Move>, error: RootsError)
    requires Refuses(host, declarations, error)
    ensures !Orderable(host, declarations) && !error.Overlapping?
  {
    hide Screened, OffendsAt, InNameOrder;
    var sorted :| multiset(sorted) == multiset(declarations) && InNameOrder(sorted) && Explained(host, sorted, error);
    SameMembers(sorted, declarations);
    if j :| OffendsAt(host, sorted, j, error) {
      OffenceIsReal(host, sorted, j, error);
      if Screened(host, declarations) { ScreenedPermutes(host, declarations, sorted); }
    } else {
      CyclicIffCycle(MoveEdges(sorted));
    }
  }

  lemma IndexedIsNext(moves: seq<Move>, bySource: map<string, string>, byTarget: map<string, string>)
    requires Indexed(moves, bySource, byTarget)
    ensures NextIs(moves, bySource)
  {
  }

  /** `validateAndOrderMoves`. */
  method ValidateAndOrderMoves(host: string, declarations: seq<Move>) returns (r: Result<seq<Move>, RootsError>)
    ensures r.Ok? <==> Orderable(host, declarations)
    ensures r.Ok? ==> multiset(r.value) == multiset(declarations) && InDepthOrder(r.value)
    ensures r.Ok? ==> InChainOrder(r.value) && RootsApart(r.value) && Screened(host, r.value)
    ensures r.Err? ==> Refuses(host, declarations, r.error) && !r.error.Overlapping?
  {
    hide *;
    var moves := SortByNames(declarations);
    SameMembers(moves, declarations);
    var error, next := ScreenMoves(host, moves);
    if error.Some? {
      RefusedAs(host, declarations, moves, error.value);
      return Err(error.value);
    }
    ghost var byTarget :| Indexed(moves, next, byTarget);
    IndexedIsNext(moves, next, byTarget);
    var depths: map<string, nat> := map[];
    NoDepths(next);
    var sources := SortedKeys(next.Keys);
    SortedSeqMembers(next.Keys);
    for i := 0 to |sources|
      invariant Depths(next, depths) && depths.Keys <= next.Keys
      invariant forall k :: 0 <= k < i ==> sources[k] in depths
    {
      assert sources[i] in sources;
      var depth, after := DepthOf(next, sources[i], depths, {});
      if depth.Err? {
        LoopIsCycle(moves, next, depth.error);
        RefusedAs(host, declarations, moves, MoveCycle(depth.error));
        return Err(MoveCycle(depth.error));
      }
      depths := after;
      DepthKeys(next, depths);
    }
    assert forall s :: s in next ==> s in depths by {
      forall s | s in next ensures s in depths {
        var k :| 0 <= k < |sources| && sources[k] == s;
      }
    }
    DepthsAcyclic(moves, next, depths);
    ScreenedPermutes(host, moves, declarations);
    OrderableIs(host, declarations);
    SourcesKnown(host, moves, next);
    var ordered := SortByDepth(moves, depths);
    SameMembers(ordered, moves);
    ScreenedPermutes(host, moves, ordered);
    OrderedWell(host, moves, ordered, next, depths);
    r := Ok(ordered);
  }

  lemma RefusedAs(host: string, declarations: seq<Move>, moves: seq<Move>, error: RootsError)
    requires multiset(moves) == multiset(declarations) && InNameOrder(moves)
    requires (exists j :: OffendsAt(host, moves, j, error)) ||
             (error.MoveCycle? && Screened(host, moves) && OnMoveCycle(moves, error.root))
    ensures Refuses(host, declarations, error) && !Orderable(host, declarations) && !error.Overlapping?
  {
    hide OffendsAt, InNameOrder, Screened, OnMoveCycle, Orderable;
    RefusalIsReal(host, declarations, error);
  }

  lemma NoDepths(next: map<string, string>)
    ensures Depths(next, map[]) && Pursuing(next, {}, "")
    ensures forall s :: Pursuing(next, {}, s)
  {
  }

  lemma DepthKeys(next: map<string, string>, depths: map<string, nat>)
    requires Depths(next, depths)
    ensures depths.Keys <= next.Keys
  {
  }

  lemma OrderableIs(host: string, moves: seq<Move>)
    ensures Orderable(host, moves) <==> Screened(host, moves) && Acyclic(MoveEdges(moves))
  {
  }

  lemma SourcesKnown(host: string, moves: seq<Move>, next: map<string, string>)
    requires Screened(host, moves) && NextIs(moves, next)
    ensures forall m :: m in moves ==> m.from in next
    ensures forall i, j :: 0 <= i < j < |moves| ==> moves[i].from != moves[j].from
  {
  }

  lemma OrderedWell(host: string, moves: seq<Move>, ordered: seq<Move>, next: map<string, string>, depths: map<string,
                    nat>)
    requires NextIs(moves, next) && (forall m :: m in ordered <==> m in moves) && Screened(host, ordered)
    requires Depths(next, depths) && depths.Keys == next.Keys && ByDepth(depths, ordered)
    ensures InDepthOrder(ordered) && InChainOrder(ordered) && RootsApart(ordered)
  {
    hide Depths, ByDepth, RootMove, InChainOrder, RootsApart;
    assert NextIs(ordered, next);
    DeepestFirst(ordered, next, depths);
    ScreenedRootsApart(host, ordered);
  }

  // ---- where chains end ----

  ghost predicate ChainEnd(next: map<string, string>, s: string, t: string)
  {
    t !in next && exists n: nat :: n > 0 && Leads(next, s, n, t)
  }

  ghost predicate FinalTargets(moves: seq<Move>, out: map<string, string>)
  {
    exists next :: NextIs(moves, next) && out.Keys == next.Keys && forall s :: s in next ==> ChainEnd(next, s, out[s])
  }

  /** The inner loop of `finalMoveTargets`. */
  method EndOf(next: map<string, string>, source: string, ghost depth: nat) returns (target: string)
    requires source in next && HasDepth(next, next[source], depth)
    ensures ChainEnd(next, source, target)
  {
    target := next[source];
    ghost var left, n := depth, 1;
    assert Leads(next, source, 1, target);
    while target in next
      invariant HasDepth(next, target, left)
      invariant n > 0 && Leads(next, source, n, target)
      decreases left
    {
      LeadsOn(next, source, n, target);
      target := next[target];
      left, n := left - 1, n + 1;
    }
  }

  /** `finalMoveTargets`. */
  method FinalMoveTargets(moves: seq<Move>) returns (out: map<string, string>)
    requires InDepthOrder(moves) && forall i, j :: 0 <= i < j < |moves| ==> moves[i].from != moves[j].from
    ensures FinalTargets(moves, out)
  {
    hide InDepthOrder, HasDepth, Leads;
    var next := NextMap(moves);
    out := map[];
    for i := 0 to |moves|
      invariant forall s :: s in out ==> s in next && ChainEnd(next, s, out[s])
      invariant forall k :: 0 <= k < i ==> moves[k].from in out
    {
      assert moves[i] in moves;
      ghost var depth := DepthAhead(moves, next, moves[i]);
      var target := EndOf(next, moves[i].from, depth);
      out := out[moves[i].from := target];
    }
    forall s | s in next ensures s in out {
      var k :| 0 <= k < |moves| && moves[k] == Move(s, next[s]);
    }
    assert out.Keys == next.Keys;
  }

  method NextMap(moves: seq<Move>) returns (next: map<string, string>)
    requires forall i, j :: 0 <= i < j < |moves| ==> moves[i].from != moves[j].from
    ensures NextIs(moves, next)
  {
    next := map[];
    assert NextIs(moves[..0], next);
    hide NextIs;
    for i := 0 to |moves|
      invariant NextIs(moves[..i], next)
    {
      AddNext(moves, i, next);
      next := next[moves[i].from := moves[i].to];
    }
    assert moves[..|moves|] == moves;
  }

  lemma AddNext(moves: seq<Move>, i: nat, next: map<string, string>)
    requires i < |moves| && NextIs(moves[..i], next)
    requires forall i, j :: 0 <= i < j < |moves| ==> moves[i].from != moves[j].from
    ensures NextIs(moves[..i + 1], next[moves[i].from := moves[i].to])
  {
    TakeNext(moves, i);
    forall m | m in moves[..i] ensures m.from != moves[i].from {
      var k :| 0 <= k < i && moves[..i][k] == m;
      assert moves[k].from != moves[i].from;
    }
  }

  lemma NextIsOne(moves: seq<Move>, next: map<string, string>, other: map<string, string>)
    requires NextIs(moves, next) && NextIs(moves, other)
    ensures next == other
  {
  }

  lemma DepthAhead(moves: seq<Move>, next: map<string, string>, m: Move) returns (d: nat)
    requires InDepthOrder(moves) && NextIs(moves, next) && m in moves
    ensures HasDepth(next, m.to, d)
  {
    hide ByDepth;
    var other, depths :| NextIs(moves, other) && Depths(other, depths) && depths.Keys == other.Keys && ByDepth(depths, moves);
    NextIsOne(moves, next, other);
    NextDepth(next, depths, m.from);
    assert HasDepth(next, m.from, depths[m.from]);
    d := depths[m.from] - 1;
  }

  lemma {:induction false} OneEnd(next: map<string, string>, s: string, n: nat, t: string, m: nat, u: string)
    requires Leads(next, s, n, t) && t !in next && Leads(next, s, m, u) && u !in next
    ensures t == u
    decreases n
  {
    if n > 0 && m > 0 { OneEnd(next, next[s], n - 1, t, m - 1, u); }
  }

  /** Every chain has one end. */
  lemma FinalTargetsUnique(moves: seq<Move>, a: map<string, string>, b: map<string, string>)
    requires FinalTargets(moves, a) && FinalTargets(moves, b)
    ensures a == b
  {
    hide Leads;
    var n :| NextIs(moves, n) && a.Keys == n.Keys && forall s :: s in n ==> ChainEnd(n, s, a[s]);
    var m :| NextIs(moves, m) && b.Keys == m.Keys && forall s :: s in m ==> ChainEnd(m, s, b[s]);
    NextIsOne(moves, n, m);
    forall s | s in a ensures a[s] == b[s] {
      assert ChainEnd(n, s, a[s]) && ChainEnd(m, s, b[s]);
      var i: nat :| i > 0 && Leads(n, s, i, a[s]);
      var j: nat :| j > 0 && Leads(n, s, j, b[s]);
      OneEnd(n, s, i, a[s], j, b[s]);
    }
  }
}
