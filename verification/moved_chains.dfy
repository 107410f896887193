/** Validated moves fall into disjoint simple chains; a host compiles, of each chain, the moves that lead to its
    one mounted component. */
module MovedChains {
  import opened Addresses
  import opened Digraph
  import opened Model
  import opened MovedValidation
  import StateMoves

  ghost predicate OneToOneMap(next: map<string, string>)
  {
    forall x, y :: x in next && y in next && next[x] == next[y] ==> x == y
  }

  ghost predicate StepAt(next: map<string, string>, nodes: seq<string>, i: nat)
    requires i + 1 < |nodes|
  {
    nodes[i] in next && next[nodes[i]] == nodes[i + 1]
  }

  ghost predicate IsPath(next: map<string, string>, nodes: seq<string>)
  {
    nodes != [] && forall i :: 0 <= i < |nodes| - 1 ==> StepAt(next, nodes, i)
  }

  /** A head is moved from and never moved to. */
  ghost predicate IsHead(next: map<string, string>, name: string)
  {
    name in next && name !in next.Values
  }

  /** A path from a head that goes on as far as the moves do. */
  ghost predicate IsChain(next: map<string, string>, nodes: seq<string>)
  {
    IsPath(next, nodes) && IsHead(next, nodes[0]) && nodes[|nodes| - 1] !in next
  }

  lemma PathStep(next: map<string, string>, nodes: seq<string>, i: nat)
    requires IsPath(next, nodes) && i + 1 < |nodes|
    ensures nodes[i] in next && next[nodes[i]] == nodes[i + 1] && nodes[i + 1] in next.Values
  {
    assert StepAt(next, nodes, i);
  }

  lemma {:induction false} PathMeets(next: map<string, string>, a: seq<string>, i: nat, b: seq<string>, j: nat)
    requires OneToOneMap(next) && IsPath(next, a) && IsPath(next, b) && a[0] !in next.Values && b[0] !in next.Values
    requires i < |a| && j < |b| && a[i] == b[j]
    ensures i == j && a[0] == b[0]
    decreases i
  {
    if i > 0 { PathStep(next, a, i - 1); }
    if j > 0 { PathStep(next, b, j - 1); }
    if i > 0 && j > 0 {
      PathMeets(next, a, i - 1, b, j - 1);
    }
  }

  /** No path from a head meets itself. */
  lemma PathDistinct(next: map<string, string>, nodes: seq<string>)
    requires OneToOneMap(next) && IsPath(next, nodes) && nodes[0] !in next.Values
    ensures Distinct(nodes)
  {
    forall i, j | 0 <= i < j < |nodes| ensures nodes[i] != nodes[j] {
      if nodes[i] == nodes[j] { PathMeets(next, nodes, i, nodes, j); }
    }
  }

  lemma {:induction false} ChainsAgree(next: map<string, string>, a: seq<string>, b: seq<string>, n: nat)
    requires IsPath(next, a) && IsPath(next, b) && a[0] == b[0] && n < |a| && n < |b|
    ensures a[..n + 1] == b[..n + 1]
  {
    if n > 0 {
      ChainsAgree(next, a, b, n - 1);
      assert a[..n][n - 1] == b[..n][n - 1];
      PathStep(next, a, n - 1);
      PathStep(next, b, n - 1);
      TakeNext(a, n);
      TakeNext(b, n);
    } else {
      assert a[..1] == [a[0]] && b[..1] == [b[0]];
    }
  }

  /** A head has one chain. */
  lemma ChainUnique(next: map<string, string>, a: seq<string>, b: seq<string>)
    requires IsChain(next, a) && IsChain(next, b) && a[0] == b[0]
    ensures a == b
  {
    var n := if |a| < |b| then |a| - 1 else |b| - 1;
    ChainsAgree(next, a, b, n);
    assert a[..n + 1][n] == b[..n + 1][n];
    if |a| < |b| {
      PathStep(next, b, n);
    } else if |b| < |a| {
      PathStep(next, a, n);
    } else {
      assert a[..n + 1] == a && b[..n + 1] == b;
    }
  }

  /** Any two chains that share a name are the same chain. */
  lemma ChainsDisjoint(next: map<string, string>, a: seq<string>, b: seq<string>, name: string)
    requires OneToOneMap(next) && IsChain(next, a) && IsChain(next, b) && name in a && name in b
    ensures a == b
  {
    var i :| 0 <= i < |a| && a[i] == name;
    var j :| 0 <= j < |b| && b[j] == name;
    PathMeets(next, a, i, b, j);
    ChainUnique(next, a, b);
  }

  ghost function Unwalked(next: map<string, string>, nodes: seq<string>): set<string>
    requires nodes != []
  {
    next.Keys - Elements(nodes[..|nodes| - 1])
  }

  lemma PathPush(next: map<string, string>, nodes: seq<string>)
    requires OneToOneMap(next) && IsPath(next, nodes) && nodes[0] !in next.Values && nodes[|nodes| - 1] in next
    ensures var last := nodes[|nodes| - 1]; var t := nodes + [next[last]];
            && IsPath(next, t) && last !in nodes[..|nodes| - 1]
            && Elements(t[..|t| - 1]) == Elements(nodes[..|nodes| - 1]) + {last}
  {
    var last := nodes[|nodes| - 1];
    var t := nodes + [next[last]];
    PathDistinct(next, nodes);
    assert t[..|t| - 1] == nodes && nodes == nodes[..|nodes| - 1] + [last];
    PushFacts(nodes[..|nodes| - 1], last);
    forall i | 0 <= i < |t| - 1 ensures StepAt(next, t, i) {
      if i < |nodes| - 1 { PathStep(next, nodes, i); }
    }
  }

  lemma PathExtends(next: map<string, string>, nodes: seq<string>)
    requires OneToOneMap(next) && IsPath(next, nodes) && nodes[0] !in next.Values && nodes[|nodes| - 1] in next
    ensures var t := nodes + [next[nodes[|nodes| - 1]]]; IsPath(next, t) && |Unwalked(next, t)| < |Unwalked(next, nodes)|
  {
    var last := nodes[|nodes| - 1];
    var t := nodes + [next[last]];
    PathPush(next, nodes);
    hide IsPath;
    assert last in Unwalked(next, nodes) && last !in Unwalked(next, t);
    SmallerSet(Unwalked(next, t), Unwalked(next, nodes));
  }

  lemma {:induction false} ChainExists(next: map<string, string>, nodes: seq<string>) returns (chain: seq<string>)
    requires OneToOneMap(next) && IsPath(next, nodes) && IsHead(next, nodes[0])
    ensures IsChain(next, chain) && chain[0] == nodes[0]
    decreases |Unwalked(next, nodes)|
  {
    if nodes[|nodes| - 1] !in next {
      chain := nodes;
    } else {
      PathExtends(next, nodes);
      chain := ChainExists(next, nodes + [next[nodes[|nodes| - 1]]]);
    }
  }

  ghost function ChainOf(next: map<string, string>, head: string): (nodes: seq<string>)
    requires OneToOneMap(next) && IsHead(next, head)
    ensures IsChain(next, nodes) && nodes[0] == head
  {
    assert exists nodes :: IsChain(next, nodes) && nodes[0] == head by {
      var nodes := ChainExists(next, [head]);
    }
    var nodes :| IsChain(next, nodes) && nodes[0] == head;
    nodes
  }

  /** The inner loop of compileMovedSpecs. */
  method WalkChain(next: map<string, string>, head: string) returns (nodes: seq<string>)
    requires OneToOneMap(next) && IsHead(next, head)
    ensures nodes == ChainOf(next, head)
  {
    hide IsPath, Unwalked;
    nodes := [head];
    HeadPath(next, head);
    var current := head;
    while current in next
      invariant IsPath(next, nodes) && nodes != [] && nodes[0] == head && nodes[|nodes| - 1] == current
      decreases |Unwalked(next, nodes)|
    {
      PathExtends(next, nodes);
      current := next[current];
      nodes := nodes + [current];
    }
    ChainUnique(next, nodes, ChainOf(next, head));
  }

  lemma HeadPath(next: map<string, string>, head: string)
    ensures IsPath(next, [head])
  {
  }

  // ---- What a chain emits ----

  datatype CompileError = Ambiguous(mounted: seq<string>)

  /** The positions of the chain's nodes that are mounted on this host. */
  function Mounted(nodes: seq<string>, components: set<string>): seq<nat>
  {
    if nodes == [] then []
    else
      var n := |nodes| - 1;
      Mounted(nodes[..n], components) + if nodes[n] in components then [n] else []
  }

  lemma {:induction false} MountedPositions(nodes: seq<string>, components: set<string>)
    ensures var m := Mounted(nodes, components);
            && (forall k :: k in m <==> 0 <= k < |nodes| && nodes[k] in components)
            && (forall i, j :: 0 <= i < j < |m| ==> m[i] < m[j])
  {
    if nodes != [] {
      var n := |nodes| - 1;
      MountedPositions(nodes[..n], components);
      var before := Mounted(nodes[..n], components);
      assert forall i :: 0 <= i < |before| ==> before[i] in before;
    }
  }

  function Specs(host: string, nodes: seq<string>, count: nat): seq<StateMoves.Move>
    requires count < |nodes|
  {
    seq(count, i requires 0 <= i < count => StateMoves.Move(Root(host, nodes[i]), Root(host, nodes[i + 1])))
  }

  function EmitChain(host: string, nodes: seq<string>,
                     components: set<string>): Result<seq<StateMoves.Move>, CompileError>
  {
    var m := Mounted(nodes, components);
    MountedPositions(nodes, components);
    assert forall i :: 0 <= i < |m| ==> m[i] in m;
    if |m| == 0 || (m[0] == 0 && |m| == 1) then Ok([])
    else if |m| > 1 then Err(Ambiguous(seq(|m|, i requires 0 <= i < |m| => nodes[m[i]])))
    else Ok(Specs(host, nodes, m[0]))
  }

  ghost predicate Heads(next: map<string, string>, heads: seq<string>)
  {
    forall h :: h in heads ==> IsHead(next, h)
  }

  ghost function EmitAll(host: string, next: map<string, string>, heads: seq<string>, components: set<string>)
    : Result<seq<StateMoves.Move>, CompileError>
    requires OneToOneMap(next) && Heads(next, heads)
  {
    if heads == [] then Ok([])
    else
      var n := |heads| - 1;
      var before := EmitAll(host, next, heads[..n], components);
      if before.Err? then before
      else
        var here := EmitChain(host, ChainOf(next, heads[n]), components);
        if here.Err? then here else Ok(before.value + here.value)
  }

  ghost function HeadSet(next: map<string, string>): set<string>
  {
    set h | h in next && IsHead(next, h)
  }

  lemma SortedHeads(next: map<string, string>)
    ensures Heads(next, SortedSeq(HeadSet(next)))
    ensures forall h :: IsHead(next, h) ==> h in SortedSeq(HeadSet(next))
  {
    var heads := SortedSeq(HeadSet(next));
    assert forall h :: h in heads <==> h in Elements(heads);
  }

  lemma MovesOneToOne(moves: seq<Declared>, next: map<string, string>)
    requires OneToOne(moves) && SameEdges(Edges(moves), next)
    ensures OneToOneMap(next)
  {
    forall x, y | x in next && y in next && next[x] == next[y] ensures x == y {
      assert (x, next[x]) in Edges(moves) && (y, next[y]) in Edges(moves);
      var a :| a in moves && (a.from, a.to) == (x, next[x]);
      var b :| b in moves && (b.from, b.to) == (y, next[y]);
      var i :| 0 <= i < |moves| && moves[i] == a;
      var j :| 0 <= j < |moves| && moves[j] == b;
    }
  }

  ghost predicate NextUpTo(moves: seq<Declared>, next: map<string, string>, targets: set<string>)
  {
    SameEdges(Edges(moves), next) && targets == next.Values
  }

  lemma NextPush(moves: seq<Declared>, i: nat, next: map<string, string>, targets: set<string>)
    requires OneToOne(moves) && i < |moves| && NextUpTo(moves[..i], next, targets)
    ensures NextUpTo(moves[..i + 1], next[moves[i].from := moves[i].to], targets + {moves[i].to})
  {
    var m, t := moves[i], next[moves[i].from := moves[i].to];
    TakeNext(moves, i);
    forall x | x in next ensures x != m.from {
      assert (x, next[x]) in Edges(moves[..i]);
      var a :| a in moves[..i] && (a.from, a.to) == (x, next[x]);
      var k :| 0 <= k < i && moves[k] == a;
    }
    assert Edges(moves[..i + 1]) == Edges(moves[..i]) + {(m.from, m.to)};
    assert t.Values == next.Values + {m.to} by {
      assert t[m.from] == m.to;
      forall x | x in next ensures x in t && t[x] == next[x] { }
    }
  }

  /** compileMovedSpecs. */
  method CompileMovedSpecs(moves: seq<Declared>, host: string, components: set<string>)
    returns (r: Result<seq<StateMoves.Move>, CompileError>, ghost next: map<string, string>)
    requires OneToOne(moves)
    ensures SameEdges(Edges(moves), next) && OneToOneMap(next) && Heads(next, SortedSeq(HeadSet(next)))
    ensures r == EmitAll(host, next, SortedSeq(HeadSet(next)), components)
  {
    hide *;
    var bySource: map<string, string> := map[];
    var targets: set<string> := {};
    NextNothing(moves);
    for i := 0 to |moves|
      invariant NextUpTo(moves[..i], bySource, targets)
    {
      NextPush(moves, i, bySource, targets);
      bySource := bySource[moves[i].from := moves[i].to];
      targets := targets + {moves[i].to};
    }
    next := bySource;
    NextDone(moves, bySource, targets);
    SortedHeads(bySource);
    var heads := SortedKeys(set h | h in bySource && h !in targets);
    HeadsAre(bySource, targets);
    var out: seq<StateMoves.Move> := [];
    EmitNothing(host, bySource, components);
    for i := 0 to |heads|
      invariant Heads(bySource, heads[..i]) && EmitAll(host, bySource, heads[..i], components) == Ok(out)
    {
      HeadAt(bySource, heads, i);
      var nodes := WalkChain(bySource, heads[i]);
      EmitNext(host, bySource, heads, i, components);
      var mounted := MountedAt(nodes, components);
      EmitChainCases(host, nodes, components);
      if |mounted| == 0 || (mounted[0] == 0 && |mounted| == 1) {
        assert out + [] == out;
        continue;
      }
      if |mounted| > 1 {
        var names := NamesAt(nodes, mounted);
        assert names == EmitChain(host, nodes, components).error.mounted;
        EmitStops(host, bySource, heads, i + 1, components);
        return Err(Ambiguous(names)), bySource;
      }
      var specs := SpecsUpTo(host, nodes, mounted[0]);
      out := out + specs;
    }
    assert heads[..|heads|] == heads;
    r := Ok(out);
  }

  method MountedAt(nodes: seq<string>, components: set<string>) returns (mounted: seq<nat>)
    ensures mounted == Mounted(nodes, components)
  {
    mounted := [];
    for i := 0 to |nodes|
      invariant mounted == Mounted(nodes[..i], components)
    {
      assert nodes[..i + 1][..i] == nodes[..i];
      if nodes[i] in components {
        mounted := mounted + [i];
      }
    }
    assert nodes[..|nodes|] == nodes;
  }

  method NamesAt(nodes: seq<string>, mounted: seq<nat>) returns (names: seq<string>)
    requires forall k :: 0 <= k < |mounted| ==> mounted[k] < |nodes|
    ensures |names| == |mounted| && forall k :: 0 <= k < |mounted| ==> names[k] == nodes[mounted[k]]
  {
    names := [];
    for i := 0 to |mounted|
      invariant |names| == i && forall k :: 0 <= k < i ==> names[k] == nodes[mounted[k]]
    {
      names := names + [nodes[mounted[i]]];
    }
  }

  method SpecsUpTo(host: string, nodes: seq<string>, count: nat) returns (specs: seq<StateMoves.Move>)
    requires count < |nodes|
    ensures specs == Specs(host, nodes, count)
  {
    specs := [];
    for i := 0 to count
      invariant |specs| == i
      invariant forall k :: 0 <= k < i ==> specs[k] == StateMoves.Move(Root(host, nodes[k]), Root(host, nodes[k + 1]))
    {
      specs := specs + [StateMoves.Move(Root(host, nodes[i]), Root(host, nodes[i + 1]))];
    }
  }

  lemma NextNothing(moves: seq<Declared>)
    ensures NextUpTo(moves[..0], map[], {})
  {
  }

  lemma NextDone(moves: seq<Declared>, next: map<string, string>, targets: set<string>)
    requires OneToOne(moves) && NextUpTo(moves[..|moves|], next, targets)
    ensures SameEdges(Edges(moves), next) && OneToOneMap(next) && targets == next.Values
  {
    assert moves[..|moves|] == moves;
    MovesOneToOne(moves, next);
  }

  lemma HeadsAre(next: map<string, string>, targets: set<string>)
    requires targets == next.Values
    ensures (set h | h in next && h !in targets) == HeadSet(next)
  {
  }

  lemma EmitNothing(host: string, next: map<string, string>, components: set<string>)
    requires OneToOneMap(next)
    ensures Heads(next, []) && EmitAll(host, next, [], components) == Ok([])
  {
  }

  lemma HeadAt(next: map<string, string>, heads: seq<string>, i: nat)
    requires Heads(next, heads) && i < |heads|
    ensures IsHead(next, heads[i]) && Heads(next, heads[..i]) && Heads(next, heads[..i + 1])
  {
  }

  lemma EmitNext(host: string, next: map<string, string>, heads: seq<string>, i: nat, components: set<string>)
    requires OneToOneMap(next) && Heads(next, heads) && i < |heads| && Heads(next, heads[..i]) && Heads(next, heads[..i + 1])
    requires IsHead(next, heads[i]) && EmitAll(host, next, heads[..i], components).Ok?
    ensures EmitAll(host, next, heads[..i + 1], components) ==
            var here := EmitChain(host, ChainOf(next, heads[i]), components);
            if here.Err? then here else Ok(EmitAll(host, next, heads[..i], components).value + here.value)
  {
    assert heads[..i + 1][..i] == heads[..i];
  }

  lemma {:induction false} EmitStops(host: string, next: map<string, string>, heads: seq<string>, i: nat,
                                     components: set<string>)
    requires OneToOneMap(next) && Heads(next, heads) && i <= |heads| && Heads(next, heads[..i])
    requires EmitAll(host, next, heads[..i], components).Err?
    ensures EmitAll(host, next, heads, components) == EmitAll(host, next, heads[..i], components)
    decreases |heads|
  {
    if i == |heads| {
      assert heads[..i] == heads;
    } else {
      var init := heads[..|heads| - 1];
      assert init[..i] == heads[..i];
      EmitStops(host, next, init, i, components);
    }
  }

  /** The three cases of the loop body. */
  lemma EmitChainCases(host: string, nodes: seq<string>, components: set<string>)
    ensures var m, here := Mounted(nodes, components), EmitChain(host, nodes, components);
            && (forall k :: 0 <= k < |m| ==> m[k] < |nodes|)
            && (|m| == 0 || (m[0] == 0 && |m| == 1) ==> here == Ok([]))
            && (|m| > 1 ==> here.Err? && |here.error.mounted| == |m| &&
                            forall k :: 0 <= k < |m| ==> here.error.mounted[k] == nodes[m[k]])
            && (|m| == 1 && m[0] != 0 ==> here == Ok(Specs(host, nodes, m[0])))
  {
    MountedPositions(nodes, components);
    var m := Mounted(nodes, components);
    assert forall k :: 0 <= k < |m| ==> m[k] in m;
  }

  // ---- Every move lies in exactly one chain ----

  lemma PathReaches(E: set<Edge>, next: map<string, string>, nodes: seq<string>, i: nat, j: nat)
    requires SameEdges(E, next) && IsPath(next, nodes) && i <= j < |nodes|
    ensures Reaches(E, nodes[i], nodes[j])
  {
    forall a, b | 0 <= a && b == a + 1 && b < |nodes| ensures (nodes[a], nodes[b]) in E {
      PathStep(next, nodes, a);
    }
    SubWalk(E, nodes, i, j);
  }

  lemma {:induction false} WalkFollowsPath(E: set<Edge>, next: map<string, string>, nodes: seq<string>, i: nat,
                                           p: seq<string>, k: nat)
    requires SameEdges(E, next) && IsPath(next, nodes) && nodes[|nodes| - 1] !in next && i < |nodes|
    requires IsWalk(E, p) && p[0] == nodes[i] && k < |p|
    ensures i + k < |nodes| && nodes[i + k] == p[k]
  {
    if k > 0 {
      WalkFollowsPath(E, next, nodes, i, p, k - 1);
      assert (p[k - 1], p[k]) in E;
      PathStep(next, nodes, i + k - 1);
    }
  }

  /** From a name on a chain, exactly the names after it are reached. */
  lemma ChainReach(E: set<Edge>, next: map<string, string>, nodes: seq<string>, i: nat, y: string) returns (j: nat)
    requires SameEdges(E, next) && IsChain(next, nodes) && i < |nodes| && Reaches(E, nodes[i], y)
    ensures i <= j < |nodes| && nodes[j] == y
  {
    var p :| WalkFromTo(E, p, nodes[i], y);
    WalkFollowsPath(E, next, nodes, i, p, |p| - 1);
    j := i + |p| - 1;
  }

  lemma PathPrepend(next: map<string, string>, nodes: seq<string>, before: string)
    requires IsPath(next, nodes) && before in next && next[before] == nodes[0]
    ensures IsPath(next, [before] + nodes)
  {
    var t := [before] + nodes;
    forall i | 0 <= i < |t| - 1 ensures StepAt(next, t, i) {
      if i > 0 { PathStep(next, nodes, i - 1); }
    }
  }

  lemma PathBack(E: set<Edge>, next: map<string, string>, nodes: seq<string>, before: string)
    requires SameEdges(E, next) && Acyclic(E) && IsPath(next, nodes) && before in next && next[before] == nodes[0]
    ensures IsPath(next, [before] + nodes)
    ensures |next.Keys - Elements([before] + nodes)| < |next.Keys - Elements(nodes)|
  {
    PathPrepend(next, nodes, before);
    forall k | 0 <= k < |nodes| ensures nodes[k] != before {
      PathReaches(E, next, nodes, 0, k);
      assert (before, nodes[0]) in E;
      assert !Reaches(E, (before, nodes[0]).1, (before, nodes[0]).0);
    }
    hide IsPath, Acyclic, Reaches;
    assert Elements([before] + nodes) == Elements(nodes) + {before};
    assert before in next.Keys - Elements(nodes);
    SmallerSet(next.Keys - Elements([before] + nodes), next.Keys - Elements(nodes));
  }

  lemma {:induction false} PathToHead(E: set<Edge>, next: map<string, string>,
                                      nodes: seq<string>) returns (path: seq<string>)
    requires SameEdges(E, next) && Acyclic(E) && IsPath(next, nodes) && nodes[|nodes| - 1] in next
    ensures IsPath(next, path) && IsHead(next, path[0]) && path[|path| - 1] == nodes[|nodes| - 1]
    decreases |next.Keys - Elements(nodes)|
  {
    if nodes[0] in next.Values {
      var before :| before in next && next[before] == nodes[0];
      PathBack(E, next, nodes, before);
      hide IsPath;
      path := PathToHead(E, next, [before] + nodes);
    } else {
      path := nodes;
      if |nodes| > 1 { PathStep(next, nodes, 0); }
    }
  }

  lemma ChainHoldsPath(next: map<string, string>, path: seq<string>, chain: seq<string>)
    requires IsPath(next, path) && path[|path| - 1] in next && IsChain(next, chain) && chain[0] == path[0]
    ensures |path| < |chain| && chain[|path| - 1] == path[|path| - 1]
  {
    var n := if |path| < |chain| then |path| - 1 else |chain| - 1;
    ChainsAgree(next, path, chain, n);
    assert path[..n + 1][n] == chain[..n + 1][n];
    if |chain| < |path| { PathStep(next, path, n); }
  }

  /** Every move is one step of the chain of exactly one head, at exactly one place. */
  lemma MoveInOneChain(E: set<Edge>, next: map<string, string>, from: string) returns (head: string, k: nat)
    requires SameEdges(E, next) && OneToOneMap(next) && Acyclic(E) && from in next
    ensures IsHead(next, head) && k + 1 < |ChainOf(next, head)|
    ensures ChainOf(next, head)[k] == from && ChainOf(next, head)[k + 1] == next[from]
    ensures forall h, i | IsHead(next, h) && 0 <= i < |ChainOf(next, h)| && ChainOf(next, h)[i] == from :: h == head && i == k
  {
    hide IsHead, OneToOneMap;
    SingletonPath(next, from);
    var path := PathToHead(E, next, [from]);
    head, k := path[0], |path| - 1;
    var chain := ChainOf(next, head);
    ChainHoldsPath(next, path, chain);
    PathStep(next, chain, k);
    forall h, i | IsHead(next, h) && 0 <= i < |ChainOf(next, h)| && ChainOf(next, h)[i] == from ensures h == head && i == k {
      SamePlace(next, ChainOf(next, h), i, chain, k);
    }
  }

  lemma SingletonPath(next: map<string, string>, name: string)
    ensures IsPath(next, [name])
  {
  }

  lemma SamePlace(next: map<string, string>, a: seq<string>, i: nat, b: seq<string>, j: nat)
    requires OneToOneMap(next) && IsChain(next, a) && IsChain(next, b) && i < |a| && j < |b| && a[i] == b[j]
    ensures i == j && a[0] == b[0]
  {
    PathMeets(next, a, i, b, j);
  }

  // ---- What is emitted, and when it is ambiguous ----

  ghost predicate TwoMounted(nodes: seq<string>, components: set<string>)
  {
    exists i, j :: 0 <= i < j < |nodes| && nodes[i] in components && nodes[j] in components
  }

  /** An ascending list of two or more holds two positions. */
  lemma TwoPositions(m: seq<nat>, i: nat, j: nat)
    requires i in m && j in m && i != j
    ensures |m| > 1
  {
    var a :| 0 <= a < |m| && m[a] == i;
    var b :| 0 <= b < |m| && m[b] == j;
    assert a != b;
  }

  lemma OnlyPosition(m: seq<nat>, k: nat)
    requires k in m && |m| <= 1
    ensures m == [k]
  {
  }

  lemma MountedTwo(nodes: seq<string>, components: set<string>)
    ensures |Mounted(nodes, components)| > 1 <==> TwoMounted(nodes, components)
  {
    MountedPositions(nodes, components);
    var m := Mounted(nodes, components);
    hide Mounted;
    if |m| > 1 {
      assert m[0] < m[1] && m[0] in m && m[1] in m;
      MountedAtBoth(nodes, components, m[0], m[1]);
    }
    if i, j :| 0 <= i < j < |nodes| && nodes[i] in components && nodes[j] in components {
      TwoPositions(m, i, j);
    }
  }

  lemma MountedAtBoth(nodes: seq<string>, components: set<string>, i: nat, j: nat)
    requires i < j < |nodes| && nodes[i] in components && nodes[j] in components
    ensures TwoMounted(nodes, components)
  {
  }

  lemma MountedCases(nodes: seq<string>, components: set<string>)
    ensures |Mounted(nodes, components)| > 1 <==> TwoMounted(nodes, components)
    ensures forall k :: 0 <= k < |nodes| && nodes[k] in components && !TwoMounted(nodes, components) ==> Mounted(nodes, components) == [k]
    ensures forall i :: 0 <= i < |Mounted(nodes, components)| ==>
              Mounted(nodes, components)[i] < |nodes| && nodes[Mounted(nodes, components)[i]] in components
  {
    MountedTwo(nodes, components);
    MountedPositions(nodes, components);
    var m := Mounted(nodes, components);
    hide Mounted, TwoMounted;
    assert forall i :: 0 <= i < |m| ==> m[i] in m;
    forall k | 0 <= k < |nodes| && nodes[k] in components && !TwoMounted(nodes, components) ensures m == [k] {
      OnlyPosition(m, k);
    }
  }

  /** The k-th move of a chain that leads to a later mounted node. */
  ghost predicate Upstream(nodes: seq<string>, components: set<string>, k: nat)
  {
    exists j :: k < j < |nodes| && nodes[j] in components
  }

  /** How many moves of the chain are emitted. */
  function Emits(nodes: seq<string>, components: set<string>): nat
  {
    var m := Mounted(nodes, components);
    if |m| == 1 then m[0] else 0
  }

  lemma ChainEmits(host: string, nodes: seq<string>, components: set<string>)
    requires nodes != []
    ensures EmitChain(host, nodes, components).Err? <==> TwoMounted(nodes, components)
    ensures !TwoMounted(nodes, components) ==>
              && EmitChain(host, nodes, components) == Ok(if Emits(nodes, components) < |nodes| then Specs(host, nodes, Emits(nodes, components)) else [])
              && Emits(nodes, components) < |nodes|
              && forall k :: 0 <= k < |nodes| ==> (Upstream(nodes, components, k) <==> k < Emits(nodes, components))
  {
    MountedCases(nodes, components);
    EmitChainCases(host, nodes, components);
    var m := Mounted(nodes, components);
    hide Mounted, EmitChain;
    if !TwoMounted(nodes, components) {
      assert Specs(host, nodes, 0) == [];
      forall k | 0 <= k < |nodes| ensures Upstream(nodes, components, k) <==> k < Emits(nodes, components) {
        if k < Emits(nodes, components) {
          assert nodes[m[0]] in components;
        }
      }
    }
  }

  /** A chain that would be ambiguous, among those of the given heads. */
  ghost predicate SomeTwoMounted(next: map<string, string>, heads: seq<string>, components: set<string>)
    requires OneToOneMap(next) && Heads(next, heads)
  {
    exists k :: 0 <= k < |heads| && TwoMounted(ChainOf(next, heads[k]), components)
  }

  lemma {:induction false} EmitAllFails(host: string, next: map<string, string>, heads: seq<string>,
                                        components: set<string>)
    requires OneToOneMap(next) && Heads(next, heads)
    ensures EmitAll(host, next, heads, components).Err? <==> SomeTwoMounted(next, heads, components)
    decreases |heads|
  {
    hide TwoMounted, EmitChain, IsHead, OneToOneMap;
    if heads != [] {
      var n := |heads| - 1;
      assert heads[n] in heads;
      EmitAllFails(host, next, heads[..n], components);
      ChainEmits(host, ChainOf(next, heads[n]), components);
      SomeOfLast(next, heads, components);
    }
  }

  lemma SomeOfLast(next: map<string, string>, heads: seq<string>, components: set<string>)
    requires OneToOneMap(next) && Heads(next, heads) && heads != [] && IsHead(next, heads[|heads| - 1])
    requires Heads(next, heads[..|heads| - 1])
    ensures SomeTwoMounted(next, heads, components) <==>
            SomeTwoMounted(next, heads[..|heads| - 1], components) || TwoMounted(ChainOf(next, heads[|heads| - 1]), components)
  {
    hide TwoMounted, IsHead, OneToOneMap;
    var init := heads[..|heads| - 1];
    if k :| 0 <= k < |init| && TwoMounted(ChainOf(next, init[k]), components) {
      assert init[k] == heads[k];
    }
    if k :| 0 <= k < |heads| && TwoMounted(ChainOf(next, heads[k]), components) {
      assert k < |init| ==> init[k] == heads[k];
    }
  }

  /** A spec of the k-th move of a chain that leads to a mounted node. */
  ghost predicate SpecAt(host: string, nodes: seq<string>, components: set<string>, k: nat, spec: StateMoves.Move)
  {
    k + 1 < |nodes| && Upstream(nodes, components, k) && spec == StateMoves.Move(Root(host, nodes[k]), Root(host, nodes[k + 1]))
  }

  ghost predicate SpecOfSome(host: string, next: map<string, string>, heads: seq<string>,
                             components: set<string>, spec: StateMoves.Move)
    requires OneToOneMap(next) && Heads(next, heads)
  {
    exists i, k :: 0 <= i < |heads| && k >= 0 && SpecAt(host, ChainOf(next, heads[i]), components, k, spec)
  }

  lemma SpecsHold(host: string, nodes: seq<string>, components: set<string>, count: nat, spec: StateMoves.Move)
    requires count < |nodes| && forall k :: 0 <= k < |nodes| ==> (Upstream(nodes, components, k) <==> k < count)
    ensures spec in Specs(host, nodes, count) <==> exists k :: k >= 0 && SpecAt(host, nodes, components, k, spec)
  {
    hide Upstream, Root;
    var here := Specs(host, nodes, count);
    if spec in here {
      var k :| 0 <= k < |here| && here[k] == spec;
      assert SpecAt(host, nodes, components, k, spec);
    }
    if k :| k >= 0 && SpecAt(host, nodes, components, k, spec) {
      assert here[k] == spec;
    }
  }

  lemma ChainSpecs(host: string, nodes: seq<string>, components: set<string>, spec: StateMoves.Move)
    requires nodes != [] && !TwoMounted(nodes, components)
    ensures EmitChain(host, nodes, components).Ok?
    ensures spec in EmitChain(host, nodes, components).value <==> exists k :: k >= 0 && SpecAt(host, nodes, components, k, spec)
  {
    hide *;
    ChainEmits(host, nodes, components);
    SpecsHold(host, nodes, components, Emits(nodes, components), spec);
  }

  lemma {:induction false} EmitAllHolds(host: string, next: map<string, string>, heads: seq<string>,
                                        components: set<string>, spec: StateMoves.Move)
    requires OneToOneMap(next) && Heads(next, heads) && EmitAll(host, next, heads, components).Ok?
    ensures spec in EmitAll(host, next, heads, components).value <==> SpecOfSome(host, next, heads, components, spec)
    decreases |heads|
  {
    hide TwoMounted, EmitChain, IsHead, OneToOneMap, SpecAt;
    if heads != [] {
      var n := |heads| - 1;
      assert heads[n] in heads;
      EmitAllHolds(host, next, heads[..n], components, spec);
      ChainEmits(host, ChainOf(next, heads[n]), components);
      ChainSpecs(host, ChainOf(next, heads[n]), components, spec);
      SomeOfPrefix(host, next, heads, components, spec);
    }
  }

  lemma SomeOfPrefix(host: string, next: map<string, string>, heads: seq<string>, components: set<string>,
                     spec: StateMoves.Move)
    requires OneToOneMap(next) && Heads(next, heads) && heads != [] && Heads(next, heads[..|heads| - 1])
    ensures var n := |heads| - 1;
            SpecOfSome(host, next, heads, components, spec) <==>
            SpecOfSome(host, next, heads[..n], components, spec) ||
            exists k :: k >= 0 && SpecAt(host, ChainOf(next, heads[n]), components, k, spec)
  {
    hide SpecAt, IsHead, OneToOneMap;
    var n := |heads| - 1;
    assert heads[n] in heads;
    if i, k :| 0 <= i < n && k >= 0 && SpecAt(host, ChainOf(next, heads[..n][i]), components, k, spec) {
      assert heads[..n][i] == heads[i];
    }
    if i, k :| 0 <= i < n && k >= 0 && SpecAt(host, ChainOf(next, heads[i]), components, k, spec) {
      assert heads[..n][i] == heads[i];
    }
  }
}
