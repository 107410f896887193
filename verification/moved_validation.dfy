/** Declared component moves: what validation refuses, and that what it accepts is an acyclic one-to-one relation. */
module MovedValidation {
  import opened Addresses
  import opened Digraph
  import opened Model

  /** One moved block, with the file and line that order the diagnostics. */
  datatype Declared = Declared(from: string, to: string, file: string, line: nat)

  datatype MovedError =
    | SelfMove(name: string)
    | DuplicateMove(from: string, to: string)
    | MapsToBoth(from: string, first: string, second: string)
    | BothMapTo(first: string, second: string, to: string)
    | MoveCycle(name: string)

  predicate SourceLess(a: Declared, b: Declared)
  {
    if a.file != b.file then Less(a.file, b.file)
    else if a.line != b.line then a.line < b.line
    else NameLess(a, b)
  }

  predicate NameLess(a: Declared, b: Declared)
  {
    if a.from != b.from then Less(a.from, b.from) else Less(a.to, b.to)
  }

  /** The order of the result: names, then file and line. */
  predicate ResultLess(a: Declared, b: Declared)
  {
    if a.from != b.from || a.to != b.to then NameLess(a, b)
    else if a.file != b.file then Less(a.file, b.file)
    else a.line < b.line
  }

  datatype Order = BySource | ByName

  predicate Before(order: Order, a: Declared, b: Declared)
  {
    match order
    case BySource => SourceLess(a, b)
    case ByName => ResultLess(a, b)
  }

  predicate InOrder(order: Order, moves: seq<Declared>)
  {
    forall i, j :: 0 <= i < j < |moves| ==> !Before(order, moves[j], moves[i])
  }

  lemma StringsCompare(a: string, b: string, c: string)
    ensures a == b || Less(a, b) || Less(b, a)
    ensures !(Less(a, b) && Less(b, a)) && !Less(a, a)
    ensures Less(a, b) && Less(b, c) ==> Less(a, c)
  {
    LessTrichotomy(a, b);
    LessTrichotomy(a, a);
    if Less(a, b) && Less(b, c) { LessTrans(a, b, c); }
  }

  /** Both orders are total: the negation of Before is transitive. */
  lemma NotBeforeTrans(order: Order, a: Declared, b: Declared, c: Declared)
    requires !Before(order, b, a) && !Before(order, c, b)
    ensures !Before(order, c, a)
  {
    StringsCompare(c.from, a.from, b.from);
    StringsCompare(a.from, b.from, c.from);
    StringsCompare(b.from, c.from, a.from);
    StringsCompare(c.to, a.to, b.to);
    StringsCompare(a.to, b.to, c.to);
    StringsCompare(b.to, c.to, a.to);
    StringsCompare(c.file, a.file, b.file);
    StringsCompare(a.file, b.file, c.file);
    StringsCompare(b.file, c.file, a.file);
  }

  lemma BeforeAsym(order: Order, a: Declared, b: Declared)
    requires Before(order, a, b)
    ensures !Before(order, b, a)
  {
    StringsCompare(a.from, b.from, a.from);
    StringsCompare(a.to, b.to, a.to);
    StringsCompare(a.file, b.file, a.file);
  }

  method SortMoves(order: Order, values: seq<Declared>) returns (r: seq<Declared>)
    ensures InOrder(order, r) && multiset(r) == multiset(values)
  {
    hide Before;
    forall a, b, c | !Before(order, b, a) && !Before(order, c, b) ensures !Before(order, c, a) {
      NotBeforeTrans(order, a, b, c);
    }
    forall a, b | Before(order, a, b) ensures !Before(order, b, a) {
      BeforeAsym(order, a, b);
    }
    r := StableSort((a, b) => Before(order, a, b), values);
  }

  ghost function Edges(moves: seq<Declared>): set<Edge>
  {
    set m | m in moves :: (m.from, m.to)
  }

  /** No move is idle, no source has two targets, and no target has two sources. */
  ghost predicate OneToOne(moves: seq<Declared>)
  {
    && (forall m :: m in moves ==> m.from != m.to)
    && forall i, j :: 0 <= i < j < |moves| ==> moves[i].from != moves[j].from && moves[i].to != moves[j].to
  }

  ghost predicate ValidMoves(moves: seq<Declared>)
  {
    OneToOne(moves) && Acyclic(Edges(moves))
  }

  ghost predicate OnCycle(E: set<Edge>, name: string)
  {
    exists y :: (name, y) in E && Reaches(E, y, name)
  }

  /** The error is the first that the moves, in source order, give rise to. */
  ghost predicate Offends(moves: seq<Declared>, error: MovedError)
  {
    match error
    case SelfMove(name) => exists i :: 0 <= i < |moves| && OneToOne(moves[..i]) && moves[i].from == moves[i].to == name
    case DuplicateMove(from, to) =>
      exists i, j :: 0 <= j < i < |moves| && OneToOne(moves[..i]) && from != to &&
        moves[i].from == moves[j].from == from && moves[i].to == moves[j].to == to
    case MapsToBoth(from, first, second) =>
      exists i, j :: 0 <= j < i < |moves| && OneToOne(moves[..i]) && from != second && first != second &&
        moves[i].from == moves[j].from == from && moves[j].to == first && moves[i].to == second
    case BothMapTo(first, second, to) =>
      exists i, j :: 0 <= j < i < |moves| && OneToOne(moves[..i]) && second != to && first != second &&
        moves[i].to == moves[j].to == to && moves[j].from == first && moves[i].from == second &&
        (forall k :: 0 <= k < i ==> moves[k].from != second)
    case MoveCycle(name) => OneToOne(moves) && OnCycle(Edges(moves), name)
  }

  // ---- The depth-first search ----

  datatype Colour = White | Grey | Black

  function ColourOf(state: map<string, Colour>, name: string): Colour
  {
    if name in state then state[name] else White
  }

  /** stack is the path of names being visited, done the names left behind in the order they were finished. */
  ghost predicate Searching(E: set<Edge>, state: map<string, Colour>, stack: seq<string>, done: seq<string>)
  {
    && (forall n :: ColourOf(state, n) == Grey <==> n in stack)
    && (forall n :: ColourOf(state, n) == Black <==> n in done)
    && Distinct(done)
    && (stack != [] ==> IsWalk(E, stack))
    && (forall i, y :: 0 <= i < |done| && (done[i], y) in E ==> y in done[..i])
  }

  ghost predicate SameEdges(E: set<Edge>, bySource: map<string, string>)
  {
    forall x, y :: (x, y) in E <==> x in bySource && bySource[x] == y
  }

  lemma StackCycle(E: set<Edge>, stack: seq<string>, name: string)
    requires stack != [] && IsWalk(E, stack) && name in stack && (stack[|stack| - 1], name) in E
    ensures OnCycle(E, name)
  {
    var i :| 0 <= i < |stack| && stack[i] == name;
    var last := |stack| - 1;
    if i == last {
      ReachSelf(E, name);
    } else {
      SubWalk(E, stack, i + 1, last);
      assert Reaches(E, stack[i + 1], stack[last]);
      ReachEdge(E, stack[last], name);
      ReachTrans(E, stack[i + 1], stack[last], name);
      assert (stack[i], stack[i + 1]) in E;
    }
  }

  lemma PushName(E: set<Edge>, state: map<string, Colour>, stack: seq<string>, done: seq<string>, name: string)
    requires Searching(E, state, stack, done) && ColourOf(state, name) == White
    requires stack != [] ==> (stack[|stack| - 1], name) in E
    ensures Searching(E, state[name := Grey], stack + [name], done) && name !in stack && name !in done
  {
    var t := stack + [name];
    forall i, j | 0 <= i && j == i + 1 && j < |t| ensures (t[i], t[j]) in E {
      if j < |stack| { assert (stack[i], stack[j]) in E; }
    }
  }

  lemma FinishName(E: set<Edge>, state: map<string, Colour>, stack: seq<string>, done: seq<string>, name: string)
    requires Searching(E, state, stack + [name], done) && name !in stack
    requires forall y :: (name, y) in E ==> y in done
    ensures Searching(E, state[name := Black], stack, done + [name])
  {
    var t, d := stack + [name], done + [name];
    assert forall n :: n in t <==> n in stack || n == name;
    assert ColourOf(state, name) == Grey;
    forall i, j | 0 <= i && j == i + 1 && j < |stack| ensures (stack[i], stack[j]) in E {
      assert (t[i], t[j]) in E;
    }
    forall i, y | 0 <= i < |d| && (d[i], y) in E ensures y in d[..i] {
      assert d[..i] == done[..i];
    }
  }

  ghost function Ahead(universe: set<string>, stack: seq<string>, done: seq<string>): set<string>
  {
    universe - Elements(stack) - Elements(done)
  }

  lemma AheadShrinks(universe: set<string>, stack: seq<string>, done: seq<string>, name: string)
    requires name in universe && name !in stack && name !in done
    ensures |Ahead(universe, stack + [name], done)| < |Ahead(universe, stack, done)|
  {
    PushFacts(stack, name);
    assert name in Ahead(universe, stack, done) && name !in Ahead(universe, stack + [name], done);
    SmallerSet(Ahead(universe, stack + [name], done), Ahead(universe, stack, done));
  }

  /** The visit closure of validateAndSortMoved. */
  method Visit(ghost E: set<Edge>, bySource: map<string, string>, state: map<string, Colour>, name: string,
               ghost universe: set<string>, ghost stack: seq<string>, ghost done: seq<string>)
    returns (cycle: Option<string>, after: map<string, Colour>, ghost done': seq<string>)
    requires SameEdges(E, bySource) && Searching(E, state, stack, done)
    requires name in universe && bySource.Values <= universe
    requires stack != [] ==> (stack[|stack| - 1], name) in E
    ensures cycle.Some? ==> OnCycle(E, cycle.value)
    ensures cycle.None? ==> Searching(E, after, stack, done') && done <= done' && name in done'
    decreases |Ahead(universe, stack, done)|
  {
    hide Searching, Ahead, Reaches, OnCycle;
    after, done', cycle := state, done, None;
    NameColours(E, state, stack, done, name);
    match ColourOf(state, name) {
      case Grey =>
        StackCycle(E, stack, name);
        return Some(name), state, done;
      case Black =>
        return None, state, done;
      case White =>
    }
    PushName(E, state, stack, done, name);
    AheadShrinks(universe, stack, done, name);
    after := state[name := Grey];
    if name in bySource {
      assert bySource[name] in bySource.Values;
      cycle, after, done' := Visit(E, bySource, after, bySource[name], universe, stack + [name], done);
      if cycle.Some? {
        return;
      }
    }
    FinishName(E, after, stack, done', name);
    after := after[name := Black];
    done' := done' + [name];
  }

  lemma NameColours(E: set<Edge>, state: map<string, Colour>, stack: seq<string>, done: seq<string>, name: string)
    requires Searching(E, state, stack, done)
    ensures ColourOf(state, name) == Grey ==> name in stack && stack != [] && IsWalk(E, stack)
    ensures ColourOf(state, name) == Black ==> name in done
  {
  }

  lemma AllDoneAcyclic(E: set<Edge>, state: map<string, Colour>, done: seq<string>)
    requires Searching(E, state, [], done) && forall e :: e in E ==> e.0 in done
    ensures Acyclic(E)
  {
    var rank: string -> int := x => if x in done then -(IndexOf(done, x) as int) else 1;
    forall e | e in E ensures rank(e.0) < rank(e.1) {
      var i := IndexOf(done, e.0);
      assert (done[i], e.1) in E;
      var j :| 0 <= j < i && done[..i][j] == e.1;
      assert done[j] == e.1 && done[IndexOf(done, e.1)] == e.1;
    }
    RankAcyclic(E, rank);
  }

  lemma OnCycleNotAcyclic(E: set<Edge>, name: string)
    requires OnCycle(E, name)
    ensures !Acyclic(E)
  {
    var y :| (name, y) in E && Reaches(E, y, name);
    assert Reaches(E, (name, y).1, (name, y).0);
  }

  // ---- The whole validation ----

  /** The maps that the screening loop fills from the moves it has passed. */
  ghost predicate Collected(moves: seq<Declared>, bySource: map<string, Declared>, byTarget: map<string, Declared>)
  {
    && OneToOne(moves)
    && (forall k :: k in bySource ==> bySource[k] in moves && bySource[k].from == k)
    && (forall k :: k in byTarget ==> byTarget[k] in moves && byTarget[k].to == k)
    && (forall m :: m in moves ==> m.from in bySource && bySource[m.from] == m && m.to in byTarget && byTarget[m.to] == m)
  }

  lemma CollectNext(moves: seq<Declared>, i: nat, bySource: map<string, Declared>, byTarget: map<string, Declared>)
    requires i < |moves| && Collected(moves[..i], bySource, byTarget)
    requires var m := moves[i]; m.from != m.to && m.from !in bySource && m.to !in byTarget
    ensures var m := moves[i]; Collected(moves[..i + 1], bySource[m.from := m], byTarget[m.to := m])
  {
    TakeNext(moves, i);
    OneMoreApart(moves, i, bySource, byTarget);
    hide OneToOne;
  }

  lemma OneMoreApart(moves: seq<Declared>, i: nat, bySource: map<string, Declared>, byTarget: map<string, Declared>)
    requires i < |moves| && Collected(moves[..i], bySource, byTarget)
    requires var m := moves[i]; m.from != m.to && m.from !in bySource && m.to !in byTarget
    ensures OneToOne(moves[..i + 1])
  {
    TakeNext(moves, i);
    var t := moves[..i + 1];
    forall a, b | 0 <= a < b < |t| ensures t[a].from != t[b].from && t[a].to != t[b].to {
      assert t[a] == moves[..i][a] && t[a] in moves[..i];
      if b < i { assert t[b] == moves[..i][b]; }
    }
  }

  lemma NotOneToOne(moves: seq<Declared>, sorted: seq<Declared>, error: MovedError)
    requires multiset(moves) == multiset(sorted) && Offends(sorted, error) && !error.MoveCycle?
    ensures !OneToOne(moves)
  {
    if OneToOne(moves) {
      OneToOnePermutes(moves, sorted);
    }
  }

  /** Reordering the moves keeps them one-to-one. */
  lemma OneToOnePermutes(moves: seq<Declared>, sorted: seq<Declared>)
    requires multiset(moves) == multiset(sorted) && OneToOne(moves)
    ensures OneToOne(sorted) && Edges(sorted) == Edges(moves)
  {
    assert forall m :: m in moves <==> m in multiset(moves);
    assert forall m :: m in sorted <==> m in multiset(sorted);
    forall i, j | 0 <= i < j < |sorted| ensures sorted[i].from != sorted[j].from && sorted[i].to != sorted[j].to {
      assert sorted[i] in sorted && sorted[j] in sorted;
      var a :| 0 <= a < |moves| && moves[a] == sorted[i];
      var b :| 0 <= b < |moves| && moves[b] == sorted[j];
      if a == b {
        TwiceCounted(sorted, i, j);
        CountsDistinct(moves, moves[a]);
      }
    }
  }

  method Screen(moves: seq<Declared>)
    returns (error: Option<MovedError>, bySource: map<string, Declared>, byTarget: map<string, Declared>)
    ensures error.Some? ==> Offends(moves, error.value) && !error.value.MoveCycle?
    ensures error.None? ==> Collected(moves, bySource, byTarget)
  {
    hide OneToOne;
    error, bySource, byTarget := None, map[], map[];
    NothingCollected(moves);
    for i := 0 to |moves|
      invariant Collected(moves[..i], bySource, byTarget)
    {
      var move := moves[i];
      if move.from == move.to {
        return Some(SelfMove(move.from)), bySource, byTarget;
      }
      if move.from in bySource {
        var previous := bySource[move.from];
        EarlierMove(moves, i, previous);
        if previous.to == move.to {
          return Some(DuplicateMove(move.from, move.to)), bySource, byTarget;
        }
        return Some(MapsToBoth(move.from, previous.to, move.to)), bySource, byTarget;
      }
      if move.to in byTarget && byTarget[move.to].from != move.from {
        var previous := byTarget[move.to];
        EarlierMove(moves, i, previous);
        forall k | 0 <= k < i ensures moves[k].from != move.from {
          assert moves[..i][k] in moves[..i];
        }
        return Some(BothMapTo(previous.from, move.from, move.to)), bySource, byTarget;
      }
      CollectNext(moves, i, bySource, byTarget);
      bySource, byTarget := bySource[move.from := move], byTarget[move.to := move];
    }
    assert moves[..|moves|] == moves;
  }

  lemma NothingCollected(moves: seq<Declared>)
    ensures Collected(moves[..0], map[], map[])
  {
  }

  lemma EarlierMove(moves: seq<Declared>, i: nat, previous: Declared)
    requires i <= |moves| && previous in moves[..i]
    ensures exists j :: 0 <= j < i && moves[j] == previous
  {
    var j :| 0 <= j < i && moves[..i][j] == previous;
    assert moves[j] == previous;
  }

  /** Colour every name reachable from a source. */
  method VisitAll(ghost E: set<Edge>, next: map<string, string>) returns (cycle: Option<string>)
    requires SameEdges(E, next)
    ensures cycle.Some? ==> OnCycle(E, cycle.value)
    ensures cycle.None? ==> Acyclic(E)
  {
    hide *;
    ghost var universe := next.Keys + next.Values;
    var sources := SortedKeys(next.Keys);
    SourcesListed(E, next, sources);
    var state: map<string, Colour> := map[];
    ghost var done: seq<string> := [];
    NotSearchingYet(E);
    for i := 0 to |sources|
      invariant Searching(E, state, [], done)
      invariant forall k :: 0 <= k < i ==> sources[k] in done
    {
      ghost var done0 := done;
      cycle, state, done := Visit(E, next, state, sources[i], universe, [], done);
      if cycle.Some? {
        return;
      }
      assert forall x :: x in done0 ==> x in done;
    }
    AllDoneAcyclic(E, state, done);
    cycle := None;
  }

  lemma SourcesListed(E: set<Edge>, next: map<string, string>, sources: seq<string>)
    requires SameEdges(E, next) && sources == SortedSeq(next.Keys)
    ensures forall k :: 0 <= k < |sources| ==> sources[k] in next.Keys
    ensures forall e :: e in E ==> e.0 in sources
  {
    assert forall k :: 0 <= k < |sources| ==> sources[k] in Elements(sources);
    forall e | e in E ensures e.0 in sources {
      assert (e.0, e.1) in E && e.0 in Elements(sources);
    }
  }

  lemma NotSearchingYet(E: set<Edge>)
    ensures Searching(E, map[], [], [])
  {
  }

  lemma NextEdges(moves: seq<Declared>, bySource: map<string, Declared>, byTarget: map<string, Declared>,
                  next: map<string, string>)
    requires Collected(moves, bySource, byTarget) && next == map k | k in bySource :: bySource[k].to
    ensures SameEdges(Edges(moves), next)
  {
    forall x, y ensures (x, y) in Edges(moves) <==> x in next && next[x] == y {
      if x in next && next[x] == y {
        assert bySource[x] in moves;
      }
    }
  }

  /** By file, then by line, then by source, then by target. */
  predicate NotAfter(a: Declared, b: Declared)
  {
    || Less(a.file, b.file)
    || (a.file == b.file && a.line < b.line)
    || (a.file == b.file && a.line == b.line && Less(a.from, b.from))
    || (a.file == b.file && a.line == b.line && a.from == b.from && (a.to == b.to || Less(a.to, b.to)))
  }

  lemma InOrderMeans(moves: seq<Declared>)
    requires InOrder(BySource, moves)
    ensures forall i, j :: 0 <= i < j < |moves| ==> NotAfter(moves[i], moves[j])
  {
    hide Less;
    forall i, j | 0 <= i < j < |moves| ensures NotAfter(moves[i], moves[j]) {
      var a, b := moves[i], moves[j];
      assert !SourceLess(b, a);
      LessTrichotomy(a.file, b.file);
      LessTrichotomy(a.from, b.from);
      LessTrichotomy(a.to, b.to);
    }
  }

  lemma RisingSources(moves: seq<Declared>)
    requires InOrder(ByName, moves) && OneToOne(moves)
    ensures forall i, j :: 0 <= i < j < |moves| ==> Less(moves[i].from, moves[j].from)
  {
    hide Less;
    forall i, j | 0 <= i < j < |moves| ensures Less(moves[i].from, moves[j].from) {
      assert !ResultLess(moves[j], moves[i]);
      LessTrichotomy(moves[i].from, moves[j].from);
    }
  }

  /** validateAndSortMoved. The moves come back sorted by source name just when no source, no target and no
      cycle is shared; otherwise the error names the first offence in source order, or a name on a cycle. */
  method ValidateAndSortMoved(declared: seq<Declared>) returns (r: Result<seq<Declared>, MovedError>,
                              ghost inOrder: seq<Declared>)
    ensures multiset(inOrder) == multiset(declared) && InOrder(BySource, inOrder)
    ensures forall i, j :: 0 <= i < j < |inOrder| ==> NotAfter(inOrder[i], inOrder[j])
    ensures r.Ok? <==> ValidMoves(declared)
    ensures r.Ok? ==> multiset(r.value) == multiset(declared) && InOrder(ByName, r.value) && ValidMoves(r.value)
    ensures r.Ok? ==> forall i, j :: 0 <= i < j < |r.value| ==> Less(r.value[i].from, r.value[j].from)
    ensures r.Err? ==> Offends(inOrder, r.error)
  {
    hide InOrder, Acyclic, Offends, OneToOne;
    var moves := SortMoves(BySource, declared);
    inOrder := moves;
    InOrderMeans(moves);
    var error, bySource, byTarget := Screen(moves);
    if error.Some? {
      NotOneToOne(declared, moves, error.value);
      return Err(error.value), inOrder;
    }
    OneToOnePermutes(moves, declared);
    var next := map k | k in bySource :: bySource[k].to;
    NextEdges(moves, bySource, byTarget, next);
    var cycle := VisitAll(Edges(moves), next);
    if cycle.Some? {
      OnCycleNotAcyclic(Edges(moves), cycle.value);
      CycleOffends(moves, cycle.value);
      return Err(MoveCycle(cycle.value)), inOrder;
    }
    moves := SortMoves(ByName, moves);
    OneToOnePermutes(declared, moves);
    RisingSources(moves);
    r := Ok(moves);
  }

  lemma CycleOffends(moves: seq<Declared>, name: string)
    requires OneToOne(moves) && OnCycle(Edges(moves), name)
    ensures Offends(moves, MoveCycle(name))
  {
  }
}
