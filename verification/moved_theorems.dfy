/** What compiling moves amounts to, said of the move relation itself. */
module MovedTheorems {
  import opened Addresses
  import opened Digraph
  import opened MovedValidation
  import opened MovedChains
  import opened StateMoves
  import opened MoveLineage
  import opened MoveOrder

  /** next is the move relation of a validated configuration, and heads its heads in order. */
  ghost predicate Relation(moves: seq<Declared>, next: map<string, string>, heads: seq<string>)
  {
    && ValidMoves(moves) && SameEdges(Edges(moves), next) && OneToOneMap(next)
    && heads == SortedSeq(HeadSet(next)) && Heads(next, heads)
  }

  /** The name leads, through no or more moves, to a component mounted on the host. */
  ghost predicate LeadsToMounted(E: set<Edge>, name: string, components: set<string>)
  {
    exists c :: c in components && Reaches(E, name, c)
  }

  lemma HeadListed(moves: seq<Declared>, next: map<string, string>, heads: seq<string>, head: string) returns (i: nat)
    requires Relation(moves, next, heads) && IsHead(next, head)
    ensures i < |heads| && heads[i] == head
  {
    SortedHeads(next);
    i :| 0 <= i < |heads| && heads[i] == head;
  }

  lemma ChainHead(moves: seq<Declared>, next: map<string, string>, heads: seq<string>, k: nat)
    requires Relation(moves, next, heads) && k < |heads|
    ensures IsHead(next, heads[k])
  {
    assert heads[k] in heads;
  }

  /** Compiling fails exactly when one mounted component has been moved, in some number of steps, to another. */
  lemma AmbiguousExactly(moves: seq<Declared>, next: map<string, string>, heads: seq<string>,
                         host: string, components: set<string>)
    requires Relation(moves, next, heads)
    ensures EmitAll(host, next, heads, components).Err? <==>
            exists a, b :: a in components && b in components && a != b && Reaches(Edges(moves), a, b)
  {
    var E := Edges(moves);
    EmitAllFails(host, next, heads, components);
    if SomeTwoMounted(next, heads, components) {
      var k :| 0 <= k < |heads| && TwoMounted(ChainOf(next, heads[k]), components);
      ChainHead(moves, next, heads, k);
      TwoReach(E, next, ChainOf(next, heads[k]), components);
    }
    forall a, b | a in components && b in components && a != b && Reaches(E, a, b)
      ensures SomeTwoMounted(next, heads, components)
    {
      ReachIsTwo(moves, next, heads, a, b, components);
    }
  }

  /** The names that the error lists are all the mounted components of one chain, in the order of its moves. */
  lemma AmbiguousNames(moves: seq<Declared>, next: map<string, string>, heads: seq<string>, host: string,
                       components: set<string>)
    requires Relation(moves, next, heads) && EmitAll(host, next, heads, components).Err?
    ensures var names, E := EmitAll(host, next, heads, components).error.mounted, Edges(moves);
            && |names| >= 2 && (forall i :: 0 <= i < |names| ==> names[i] in components)
            && (forall i, j :: 0 <= i < j < |names| ==> names[i] != names[j] && Reaches(E, names[i], names[j]))
            && (forall c :: c in components && (Reaches(E, c, names[0]) || Reaches(E, names[0], c)) ==> c in names)
  {
    var k := FailingChain(host, next, heads, components);
    ChainHead(moves, next, heads, k);
    var nodes, names, E := ChainOf(next, heads[k]), EmitAll(host, next, heads, components).error.mounted, Edges(moves);
    var at := ChainNames(host, nodes, components);
    PathDistinct(next, nodes);
    hide *;
    RelationParts(moves, next, heads);
    forall i, j | 0 <= i < j < |names| ensures names[i] != names[j] && Reaches(E, names[i], names[j]) {
      ChainParts(next, nodes);
      PathReaches(E, next, nodes, at[i], at[j]);
      DistinctAt(nodes, at[i], at[j]);
    }
    forall c | c in components && (Reaches(E, c, names[0]) || Reaches(E, names[0], c)) ensures c in names {
      if Reaches(E, names[0], c) {
        var n := ChainReach(E, next, nodes, at[0], c);
      } else if c != names[0] {
        ReachLeaves(E, next, c, names[0]);
        var head, m := MoveInOneChain(E, next, c);
        var n := ChainReach(E, next, ChainOf(next, head), m, names[0]);
        ChainsDisjoint(next, ChainOf(next, head), nodes, names[0]);
      }
    }
  }

  lemma DistinctAt(nodes: seq<string>, i: nat, j: nat)
    requires Distinct(nodes) && i < j < |nodes|
    ensures nodes[i] != nodes[j]
  {
  }

  lemma ChainParts(next: map<string, string>, nodes: seq<string>)
    requires IsChain(next, nodes)
    ensures IsPath(next, nodes)
  {
  }

  lemma RelationParts(moves: seq<Declared>, next: map<string, string>, heads: seq<string>)
    requires Relation(moves, next, heads)
    ensures SameEdges(Edges(moves), next) && OneToOneMap(next) && Acyclic(Edges(moves))
  {
  }

  lemma {:induction false} FailingChain(host: string, next: map<string, string>, heads: seq<string>, components: set<string>)
    returns (k: nat)
    requires OneToOneMap(next) && Heads(next, heads) && EmitAll(host, next, heads, components).Err?
    ensures k < |heads| && IsHead(next, heads[k])
    ensures EmitChain(host, ChainOf(next, heads[k]), components) == EmitAll(host, next, heads, components)
    decreases |heads|
  {
    hide EmitChain, IsHead, OneToOneMap;
    var n := |heads| - 1;
    assert heads[n] in heads;
    if EmitAll(host, next, heads[..n], components).Err? {
      k := FailingChain(host, next, heads[..n], components);
    } else {
      k := n;
    }
  }

  lemma ChainNames(host: string, nodes: seq<string>, components: set<string>) returns (at: seq<nat>)
    requires EmitChain(host, nodes, components).Err?
    ensures var names := EmitChain(host, nodes, components).error.mounted;
            && |at| == |names| >= 2
            && (forall i :: 0 <= i < |at| ==> at[i] < |nodes| && names[i] == nodes[at[i]] && names[i] in components)
            && (forall i, j :: 0 <= i < j < |at| ==> at[i] < at[j])
            && (forall n :: 0 <= n < |nodes| && nodes[n] in components ==> nodes[n] in names)
  {
    MountedPositions(nodes, components);
    at := Mounted(nodes, components);
    var names := EmitChain(host, nodes, components).error.mounted;
    hide Mounted;
    assert forall i :: 0 <= i < |at| ==> at[i] in at;
    forall n | 0 <= n < |nodes| && nodes[n] in components ensures nodes[n] in names {
      var i :| 0 <= i < |at| && at[i] == n;
      assert names[i] == nodes[n];
    }
  }

  lemma TwoReach(E: set<Edge>, next: map<string, string>, nodes: seq<string>, components: set<string>)
    requires SameEdges(E, next) && OneToOneMap(next) && IsChain(next, nodes) && TwoMounted(nodes, components)
    ensures exists a, b :: a in components && b in components && a != b && Reaches(E, a, b)
  {
    hide IsPath;
    var i, j :| 0 <= i < j < |nodes| && nodes[i] in components && nodes[j] in components;
    PathDistinct(next, nodes);
    PathReaches(E, next, nodes, i, j);
    assert nodes[i] != nodes[j];
  }

  lemma ReachLeaves(E: set<Edge>, next: map<string, string>, a: string, b: string)
    requires SameEdges(E, next) && Reaches(E, a, b) && a != b
    ensures a in next
  {
    var p :| WalkFromTo(E, p, a, b);
    assert (p[0], p[1]) in E;
  }

  lemma ReachIsTwo(moves: seq<Declared>, next: map<string, string>, heads: seq<string>, a: string,
                   b: string, components: set<string>)
    requires Relation(moves, next, heads) && a in components && b in components && a != b && Reaches(Edges(moves), a, b)
    ensures SomeTwoMounted(next, heads, components)
  {
    hide IsPath, IsHead, OneToOneMap, Acyclic, Reaches;
    var E := Edges(moves);
    ReachLeaves(E, next, a, b);
    var head, k := MoveInOneChain(E, next, a);
    var i := HeadListed(moves, next, heads, head);
    var j := ChainReach(E, next, ChainOf(next, head), k, b);
    assert TwoMounted(ChainOf(next, heads[i]), components);
  }

  /** What is emitted is exactly every move that leads to a mounted component, at the host's addresses. */
  lemma EmittedExactly(moves: seq<Declared>, next: map<string, string>, heads: seq<string>, host: string,
                       components: set<string>,
                       spec: Move)
    requires Relation(moves, next, heads) && EmitAll(host, next, heads, components).Ok?
    ensures spec in EmitAll(host, next, heads, components).value <==>
            exists m :: m in moves && spec == Move(Root(host, m.from), Root(host, m.to)) &&
                        LeadsToMounted(Edges(moves), m.to, components)
  {
    hide SpecAt, LeadsToMounted, EmitAll;
    EmitAllHolds(host, next, heads, components, spec);
    if SpecOfSome(host, next, heads, components, spec) {
      var i, k :| 0 <= i < |heads| && k >= 0 && SpecAt(host, ChainOf(next, heads[i]), components, k, spec);
      ChainHead(moves, next, heads, i);
      var m := SpecIsMove(moves, next, host, ChainOf(next, heads[i]), components, k, spec);
    }
    forall m | m in moves && LeadsToMounted(Edges(moves), m.to, components)
      ensures SpecOfSome(host, next, heads, components, Move(Root(host, m.from), Root(host, m.to)))
    {
      MoveIsSpec(moves, next, heads, host, components, m);
    }
  }

  lemma SpecIsMove(moves: seq<Declared>, next: map<string, string>, host: string, nodes: seq<string>,
                   components: set<string>, k: nat,
                   spec: Move) returns (m: Declared)
    requires SameEdges(Edges(moves), next) && IsChain(next, nodes) && SpecAt(host, nodes, components, k, spec)
    ensures m in moves && spec == Move(Root(host, m.from), Root(host, m.to))
    ensures LeadsToMounted(Edges(moves), m.to, components)
  {
    hide IsPath, Root;
    PathStep(next, nodes, k);
    assert (nodes[k], nodes[k + 1]) in Edges(moves);
    m :| m in moves && (m.from, m.to) == (nodes[k], nodes[k + 1]);
    var j :| k < j < |nodes| && nodes[j] in components;
    PathReaches(Edges(moves), next, nodes, k + 1, j);
  }

  lemma MoveIsSpec(moves: seq<Declared>, next: map<string, string>, heads: seq<string>, host: string,
                   components: set<string>, m: Declared)
    requires Relation(moves, next, heads) && m in moves && LeadsToMounted(Edges(moves), m.to, components)
    ensures SpecOfSome(host, next, heads, components, Move(Root(host, m.from), Root(host, m.to)))
  {
    hide IsPath, IsHead, OneToOneMap, Acyclic, Reaches, Root;
    var E := Edges(moves);
    assert (m.from, m.to) in E;
    var c :| c in components && Reaches(E, m.to, c);
    var head, k := MoveInOneChain(E, next, m.from);
    var i := HeadListed(moves, next, heads, head);
    var nodes := ChainOf(next, head);
    var j := ChainReach(E, next, nodes, k + 1, c);
    assert SpecAt(host, ChainOf(next, heads[i]), components, k, Move(Root(host, m.from), Root(host, m.to)));
  }

  // ---- The order of what is emitted ----

  ghost predicate FromChain(host: string, nodes: seq<string>, spec: Move)
  {
    exists x, y :: x in nodes && y in nodes && spec == Move(Root(host, x), Root(host, y))
  }

  ghost predicate FromChains(host: string, next: map<string, string>, heads: seq<string>, spec: Move)
    requires OneToOneMap(next) && Heads(next, heads)
  {
    exists i :: 0 <= i < |heads| && FromChain(host, ChainOf(next, heads[i]), spec)
  }

  lemma SpecsOrdered(host: string, nodes: seq<string>, count: nat)
    requires Distinct(nodes) && count < |nodes|
    ensures InChainOrder(Specs(host, nodes, count))
    ensures forall k :: 0 <= k < count ==> FromChain(host, nodes, Specs(host, nodes, count)[k])
  {
    hide Root;
    var specs := Specs(host, nodes, count);
    forall i, j | 0 <= i < count && 0 <= j < count
      ensures specs[i].from == specs[j].from ==> i == j
      ensures specs[i].to == specs[j].to ==> i == j
      ensures specs[i].to == specs[j].from ==> i < j
    {
      RootsDiffer(host, nodes[i], nodes[j]);
      RootsDiffer(host, nodes[i + 1], nodes[j + 1]);
      RootsDiffer(host, nodes[i + 1], nodes[j]);
    }
  }

  lemma RootsDiffer(host: string, a: string, b: string)
    ensures Root(host, a) == Root(host, b) ==> a == b
  {
    if Root(host, a) == Root(host, b) { RootInjective(host, a, b); }
  }

  lemma ChainsApart(host: string, next: map<string, string>, a: seq<string>, b: seq<string>, x: Move,
                    y: Move)
    requires OneToOneMap(next) && IsChain(next, a) && IsChain(next, b) && a != b
    requires FromChain(host, a, x) && FromChain(host, b, y)
    ensures x.from != y.from && x.to != y.to && x.to != y.from && x.from != y.to
  {
    hide Root, IsPath, OneToOneMap;
    var p, q :| p in a && q in a && x == Move(Root(host, p), Root(host, q));
    var r, s :| r in b && s in b && y == Move(Root(host, r), Root(host, s));
    forall u, v | u in a && v in b ensures Root(host, u) != Root(host, v) {
      RootsDiffer(host, u, v);
      if u in b { ChainsDisjoint(next, a, b, u); }
    }
  }

  lemma JoinChains(host: string, next: map<string, string>, heads: seq<string>, a: seq<Move>,
                   b: seq<Move>)
    requires OneToOneMap(next) && Heads(next, heads) && Distinct(heads) && heads != [] && Heads(next, heads[..|heads| - 1])
    requires InChainOrder(a) && InChainOrder(b)
    requires forall k :: 0 <= k < |a| ==> FromChains(host, next, heads[..|heads| - 1], a[k])
    requires IsHead(next, heads[|heads| - 1])
    requires forall k :: 0 <= k < |b| ==> FromChain(host, ChainOf(next, heads[|heads| - 1]), b[k])
    ensures InChainOrder(a + b)
    ensures forall k :: 0 <= k < |a + b| ==> FromChains(host, next, heads, (a + b)[k])
  {
    hide FromChain, IsChain, OneToOneMap, IsHead;
    var n := |heads| - 1;
    var last := ChainOf(next, heads[n]);
    var t := a + b;
    forall i, j | 0 <= i < |a| && 0 <= j < |b|
      ensures a[i].from != b[j].from && a[i].to != b[j].to && b[j].to != a[i].from
    {
      assert FromChains(host, next, heads[..n], a[i]);
      var h :| 0 <= h < n && FromChain(host, ChainOf(next, heads[..n][h]), a[i]);
      assert heads[h] != heads[n];
      ChainsApart(host, next, ChainOf(next, heads[..n][h]), last, a[i], b[j]);
    }
    assert forall k :: 0 <= k < |t| ==> t[k] == if k < |a| then a[k] else b[k - |a|];
    forall k | 0 <= k < |t| ensures FromChains(host, next, heads, t[k]) {
      if k < |a| {
        assert FromChains(host, next, heads[..n], a[k]);
        var h :| 0 <= h < n && FromChain(host, ChainOf(next, heads[..n][h]), a[k]);
        assert heads[..n][h] == heads[h];
        assert FromChain(host, ChainOf(next, heads[h]), t[k]);
      } else {
        assert FromChain(host, ChainOf(next, heads[n]), t[k]);
      }
    }
  }

  lemma ChainOrdered(host: string, next: map<string, string>, head: string, components: set<string>)
    requires OneToOneMap(next) && IsHead(next, head) && EmitChain(host, ChainOf(next, head), components).Ok?
    ensures var specs := EmitChain(host, ChainOf(next, head), components).value;
            InChainOrder(specs) && forall k :: 0 <= k < |specs| ==> FromChain(host, ChainOf(next, head), specs[k])
  {
    var nodes := ChainOf(next, head);
    PathDistinct(next, nodes);
    ChainEmits(host, nodes, components);
    SpecsOrdered(host, nodes, Emits(nodes, components));
  }

  lemma {:induction false} EmissionOrdered(host: string, next: map<string, string>, heads: seq<string>,
                                           components: set<string>)
    requires OneToOneMap(next) && Heads(next, heads) && Distinct(heads) && EmitAll(host, next, heads, components).Ok?
    ensures var specs := EmitAll(host, next, heads, components).value;
            InChainOrder(specs) && forall k :: 0 <= k < |specs| ==> FromChains(host, next, heads, specs[k])
    decreases |heads|
  {
    hide OneToOneMap, IsHead, EmitChain, InChainOrder, FromChains, FromChain;
    if heads == [] {
      NoHops();
    } else {
      var n := |heads| - 1;
      assert heads[n] in heads;
      EmissionOrdered(host, next, heads[..n], components);
      ChainOrdered(host, next, heads[n], components);
      JoinChains(host, next, heads, EmitAll(host, next, heads[..n], components).value,
                 EmitChain(host, ChainOf(next, heads[n]), components).value);
    }
  }

  /** The emitted moves are in chain order, so each chain collapses to one entry from its mounted end to its start. */
  lemma EmissionCollapses(moves: seq<Declared>, next: map<string, string>, heads: seq<string>,
                          host: string, components: set<string>)
    requires Relation(moves, next, heads) && EmitAll(host, next, heads, components).Ok?
    ensures var specs := EmitAll(host, next, heads, components).value;
            InChainOrder(specs) && Collapses(specs, Lineage(specs))
  {
    hide EmitAll, Collapses, Lineage;
    StrictlySortedIsDistinct(heads);
    EmissionOrdered(host, next, heads, components);
    LineageCollapses(EmitAll(host, next, heads, components).value);
  }

  /** Where the move from a name stands. */
  ghost function PlaceOf(moves: seq<Move>, name: string): (i: nat)
    ensures i <= |moves|
    ensures i < |moves| ==> moves[i].from == name
    ensures i == |moves| ==> forall m :: m in moves ==> m.from != name
  {
    if moves == [] then 0
    else
      var n := |moves| - 1;
      var before := PlaceOf(moves[..n], name);
      assert moves == moves[..n] + [moves[n]];
      if before < n then before else if moves[n].from == name then n else |moves|
  }

  lemma ChainOrderAcyclic(moves: seq<Move>)
    requires InChainOrder(moves)
    ensures Acyclic(MoveEdges(moves))
  {
    var rank: string -> int := x => PlaceOf(moves, x);
    forall e | e in MoveEdges(moves) ensures rank(e.0) < rank(e.1) {
      var m :| m in moves && e == (m.from, m.to);
      var i :| 0 <= i < |moves| && moves[i] == m;
      var j := PlaceOf(moves, m.from);
      assert moves[j].from == moves[i].from;
    }
    RankAcyclic(MoveEdges(moves), rank);
  }

  /** What a host compiles, the state package accepts: the roots lie apart, and the moves can be put in order. */
  lemma EmissionOrderable(moves: seq<Declared>, next: map<string, string>, heads: seq<string>,
                          host: string, components: set<string>)
    requires Relation(moves, next, heads) && EmitAll(host, next, heads, components).Ok?
    requires forall m :: m in moves ==> ValidName(m.from) && ValidName(m.to)
    ensures var specs := EmitAll(host, next, heads, components).value; Orderable(host, specs) && RootsApart(specs)
  {
    hide EmitAll, Collapses, Lineage, ValidName, LeadsToMounted, RootsApart, Heads, SameEdges, OneToOneMap;
    var specs := EmitAll(host, next, heads, components).value;
    EmissionCollapses(moves, next, heads, host, components);
    forall spec | spec in specs ensures RootMove(host, spec) {
      EmittedExactly(moves, next, heads, host, components, spec);
      var m :| m in moves && spec == Move(Root(host, m.from), Root(host, m.to));
      RootHasName(host, m.from);
      RootHasName(host, m.to);
      RootsDiffer(host, m.from, m.to);
    }
    ScreenedRootsApart(host, specs);
    ChainOrderAcyclic(specs);
  }
}
