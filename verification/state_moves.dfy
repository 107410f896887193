/** Moving a component root in the tracked state: addresses and recorded dependencies are rebased together. */
module StateMoves {
  import opened Addresses
  import opened Digraph
  import opened Model
  import opened Planning
  import opened PlanOrdering
  import opened RunInvariant

  datatype Move = Move(from: string, to: string)

  datatype MoveError =
    | BothTracked(move: Move)
    | BothDesired(move: Move)
    | TargetNotDesired(move: Move)
    | HalfTarget(address: string)

  predicate Under(address: string, root: string)
  {
    address == root || root + "." <= address
  }

  /** `replaceAddressPrefix`, applied only under the moved root. */
  function Rebase(address: string, from: string, to: string): string
  {
    if Under(address, from) then to + address[|from|..] else address
  }

  predicate Tracks(resources: Resources, root: string)
  {
    exists a :: a in resources && Under(a, root)
  }

  /** The desired digest that a rebased desired identity stands for. */
  function Retarget(digest: Digest, targets: map<string, (Digest, Digest)>, address: string): Digest
  {
    if address in targets && targets[address].0 != NoDigest && digest == targets[address].0
    then targets[address].1 else digest
  }

  function RebaseAll(deps: seq<string>, from: string, to: string): (r: seq<string>)
    ensures |r| == |deps| && forall i :: 0 <= i < |r| ==> r[i] == Rebase(deps[i], from, to)
  {
    seq(|deps|, i requires 0 <= i < |deps| => Rebase(deps[i], from, to))
  }

  ghost function MovedResource(resource: Resource, move: Move, address: string,
                               targets: map<string, (Digest, Digest)>): Resource
  {
    resource.(dependsOn := Canonical(RebaseAll(resource.dependsOn, move.from, move.to)),
              desiredDigest := if Under(address, move.from)
                               then Retarget(resource.desiredDigest, targets, Rebase(address, move.from, move.to))
                               else resource.desiredDigest)
  }

  /** moved is resources with every address and dependency under move.from rebased, and nothing else changed. */
  ghost predicate IsMoved(resources: Resources, move: Move, targets: map<string, (Digest, Digest)>, moved: Resources)
  {
    && (forall a :: a in resources ==>
          Rebase(a, move.from, move.to) in moved &&
          moved[Rebase(a, move.from, move.to)] == MovedResource(resources[a], move, a, targets))
    && (forall b :: b in moved ==> exists a :: a in resources && b == Rebase(a, move.from, move.to))
  }

  lemma RebasedIsUnder(a: string, from: string, to: string)
    requires Under(a, from)
    ensures Under(Rebase(a, from, to), to)
  {
    var rest := a[|from|..];
    if a != from {
      assert a[..|from + "."|] == from + ".";
      assert rest[0] == a[|from|] == '.';
      var b := to + rest;
      assert b[..|to + "."|] == to + ".";
    }
  }

  /** What lies under a root is the root itself, or the root, a dot and more; rebasing exchanges the root. */
  lemma RebaseExactly(from: string, to: string, rest: string, other: string)
    ensures Rebase(from + rest, from, to) == if rest == "" || rest[0] == '.' then to + rest else from + rest
    ensures (forall tail :: other != from + tail) ==> Rebase(other, from, to) == other
  {
    var a := from + rest;
    assert a[|from|..] == rest;
    if rest != "" {
      assert a[..|from + "."|] == from + [rest[0]];
      assert (from + ".")[|from|] == '.';
    }
    if Under(other, from) {
      FromPrefix(other, from);
    }
  }

  lemma RebaseInjective(resources: Resources, move: Move, a: string, b: string)
    requires !Tracks(resources, move.to) && a in resources && b in resources
    requires Rebase(a, move.from, move.to) == Rebase(b, move.from, move.to)
    ensures a == b
  {
    if Under(a, move.from) && Under(b, move.from) {
      assert (move.to + a[|move.from|..])[|move.to|..] == (move.to + b[|move.from|..])[|move.to|..];
      assert a == move.from + a[|move.from|..] by { FromPrefix(a, move.from); }
      assert b == move.from + b[|move.from|..] by { FromPrefix(b, move.from); }
    } else if Under(a, move.from) {
      RebasedIsUnder(a, move.from, move.to);
    } else if Under(b, move.from) {
      RebasedIsUnder(b, move.from, move.to);
    }
  }

  lemma FromPrefix(a: string, root: string)
    requires Under(a, root)
    ensures a == root + a[|root|..]
  {
    if a != root {
      assert a[..|root|] == a[..|root + "."|][..|root|] == (root + ".")[..|root|] == root;
    }
  }

  /** A moved record keeps everything but its dependencies, which are rebased and sorted, and its desired digest, which is
      exchanged for the target's just when it is the one that the target replaces. */
  lemma MovedRecord(resources: Resources, move: Move, targets: map<string, (Digest, Digest)>, moved: Resources, a: string)
    requires IsMoved(resources, move, targets, moved) && a in resources
    ensures var b := Rebase(a, move.from, move.to);
            b in moved &&
            var before, after := resources[a], moved[b];
            && after.(dependsOn := before.dependsOn, desiredDigest := before.desiredDigest) == before
            && StrictlySorted(after.dependsOn)
            && (forall d :: d in after.dependsOn <==> exists e :: e in before.dependsOn && d == Rebase(e, move.from, move.to))
            && after.desiredDigest ==
               if Under(a, move.from) && b in targets && targets[b].0 != NoDigest && before.desiredDigest == targets[b].0
               then targets[b].1 else before.desiredDigest
  {
    var rebased := RebaseAll(resources[a].dependsOn, move.from, move.to);
    CanonicalMembers(rebased);
    hide Rebase, Under, Canonical;
    forall e | e in resources[a].dependsOn ensures Rebase(e, move.from, move.to) in rebased {
      var i :| 0 <= i < |resources[a].dependsOn| && resources[a].dependsOn[i] == e;
      assert rebased[i] == Rebase(e, move.from, move.to);
    }
  }

  /** A move keeps a good state good: closed, acyclic, and no empty address. */
  lemma MoveKeepsGood(resources: Resources, move: Move, targets: map<string, (Digest, Digest)>, moved: Resources)
    requires GoodState(resources) && !Tracks(resources, move.to) && move.to != ""
    requires IsMoved(resources, move, targets, moved)
    ensures GoodState(moved)
  {
    hide *;
    var order := TrackedOrder(resources);
    var order' := RebaseAll(order, move.from, move.to);
    var rank: string -> int := x => if x in order' then IndexOf(order', x) else 0;
    forall b, e | b in moved && e in moved[b].dependsOn ensures e in moved && rank(b) < rank(e) {
      MovedEdge(resources, move, targets, moved, order, b, e);
    }
    NoEmptyAddress(resources, move, targets, moved);
    RankedState(moved, rank);
  }

  lemma NoEmptyAddress(resources: Resources, move: Move, targets: map<string, (Digest, Digest)>, moved: Resources)
    requires GoodState(resources) && move.to != "" && IsMoved(resources, move, targets, moved)
    ensures "" !in moved
  {
    forall b | b in moved ensures b != "" {
      var a :| a in resources && b == Rebase(a, move.from, move.to);
    }
  }

  lemma MovedEdge(resources: Resources, move: Move, targets: map<string, (Digest, Digest)>, moved: Resources,
                  order: seq<string>,
                  b: string, e: string)
    requires GoodState(resources) && !Tracks(resources, move.to) && IsMoved(resources, move, targets, moved)
    requires Distinct(order) && (forall a :: a in order <==> a in resources) && Topological(order, StateEdges(resources))
    requires b in moved && e in moved[b].dependsOn
    ensures e in moved
    ensures var order' := RebaseAll(order, move.from, move.to);
            b in order' && e in order' && IndexOf(order', b) < IndexOf(order', e)
  {
    var a :| a in resources && b == Rebase(a, move.from, move.to);
    var rebased := RebaseAll(resources[a].dependsOn, move.from, move.to);
    CanonicalMembers(rebased);
    var i :| 0 <= i < |rebased| && rebased[i] == e;
    var d := resources[a].dependsOn[i];
    assert d in resources[a].dependsOn && d in resources;
    assert (a, d) in StateEdges(resources);
    assert (order[IndexOf(order, a)], order[IndexOf(order, d)]) in StateEdges(resources);
    RebasedIndex(resources, move, order, a);
    RebasedIndex(resources, move, order, d);
  }

  lemma TrackedOrder(resources: Resources) returns (order: seq<string>)
    requires GoodState(resources)
    ensures Distinct(order) && (forall a :: a in order <==> a in resources) && Topological(order, StateEdges(resources))
  {
    var keys := SortedSeq(resources.Keys);
    StrictlySortedIsDistinct(keys);
    assert forall a :: a in keys <==> a in Elements(keys);
    forall e | e in StateEdges(resources) ensures e.0 in keys && e.1 in keys {
      var a, d :| a in resources && d in resources[a].dependsOn && e == (a, d);
    }
    LeastOrderComplete(keys, StateEdges(resources));
    order := LeastOrder(keys, StateEdges(resources));
  }

  lemma RebasedIndex(resources: Resources, move: Move, order: seq<string>, a: string)
    requires !Tracks(resources, move.to) && Distinct(order) && (forall a :: a in order <==> a in resources) && a in resources
    ensures var order' := RebaseAll(order, move.from, move.to); var b := Rebase(a, move.from, move.to);
            b in order' && IndexOf(order', b) == IndexOf(order, a)
  {
    var order', b := RebaseAll(order, move.from, move.to), Rebase(a, move.from, move.to);
    var i := IndexOf(order, a);
    assert order'[i] == b;
    var j := IndexOf(order', b);
    assert order[j] in order;
    RebaseInjective(resources, move, order[j], a);
    assert order[j] == order[i];
  }

  /** The moves of single resources that a root's move amounts to, in address order. */
  ghost function Hops(resources: Resources, move: Move): seq<Move>
  {
    var sources := SortedSeq(set a | a in resources && Under(a, move.from));
    seq(|sources|, i requires 0 <= i < |sources| => Move(sources[i], Rebase(sources[i], move.from, move.to)))
  }

  /** A move target that sets only one of its two digests. */
  predicate HalfSet(targets: map<string, (Digest, Digest)>, address: string)
  {
    address in targets && (targets[address].0 == NoDigest) != (targets[address].1 == NoDigest)
  }

  ghost predicate NoHalfSet(hops: seq<Move>, targets: map<string, (Digest, Digest)>)
  {
    forall k :: 0 <= k < |hops| ==> !HalfSet(targets, hops[k].to)
  }

  /** The first single move, in address order, whose target is half set. */
  ghost predicate FirstHalfSet(hops: seq<Move>, targets: map<string, (Digest, Digest)>, address: string)
  {
    exists k :: 0 <= k < |hops| && hops[k].to == address && HalfSet(targets, address) && NoHalfSet(hops[..k], targets)
  }

  /** The loop over a root's source addresses: it lists the single moves, or stops at a target that is half set. */
  method RootHops(resources: Resources, move: Move, targets: map<string, (Digest, Digest)>)
    returns (half: Option<string>, hops: seq<Move>)
    ensures half.None? ==> hops == Hops(resources, move) && NoHalfSet(hops, targets)
    ensures half.Some? ==> FirstHalfSet(Hops(resources, move), targets, half.value)
  {
    var sources := SortedKeys(set a | a in resources && Under(a, move.from));
    ghost var all := Hops(resources, move);
    hops := [];
    for i := 0 to |sources|
      invariant hops == all[..i] && NoHalfSet(hops, targets)
    {
      var to := Rebase(sources[i], move.from, move.to);
      if HalfSet(targets, to) {
        assert all[i].to == to;
        return Some(to), hops;
      }
      assert all[..i + 1] == all[..i] + [all[i]];
      hops := hops + [Move(sources[i], to)];
    }
    half := None;
  }

  /** Moving one root: the source addresses in sorted order, then every dependency list. */
  method MoveRoot(resources: Resources, move: Move, targets: map<string, (Digest, Digest)>)
    returns (r: Result<Resources, MoveError>, realized: seq<Move>)
    requires !Tracks(resources, move.to)
    ensures r.Ok? <==> NoHalfSet(Hops(resources, move), targets)
    ensures r.Ok? ==> forall a :: a in resources && Under(a, move.from) ==> BothOrNeither(targets, Rebase(a, move.from, move.to))
    ensures r.Err? ==> r.error.HalfTarget? && !BothOrNeither(targets, r.error.address)
    ensures r.Ok? ==> IsMoved(resources, move, targets, r.value) && realized == Hops(resources, move)
    ensures r.Err? ==> r.error.HalfTarget? && FirstHalfSet(Hops(resources, move), targets, r.error.address)
  {
    hide *;
    var half;
    half, realized := RootHops(resources, move, targets);
    if half.Some? {
      HalfSetIsSet(Hops(resources, move), targets, half.value);
      HalfExactly(targets, half.value);
      return Err(HalfTarget(half.value)), realized;
    }
    var moved := RebaseResources(resources, move, targets);
    AllBothOrNeither(resources, move, targets);
    r := Ok(moved);
  }

  /** A target gives both digests or neither. */
  predicate BothOrNeither(targets: map<string, (Digest, Digest)>, address: string)
  {
    address in targets ==> (targets[address].0 == NoDigest <==> targets[address].1 == NoDigest)
  }

  lemma HalfExactly(targets: map<string, (Digest, Digest)>, address: string)
    ensures HalfSet(targets, address) <==> !BothOrNeither(targets, address)
  {
  }

  lemma AllBothOrNeither(resources: Resources, move: Move, targets: map<string, (Digest, Digest)>)
    requires NoHalfSet(Hops(resources, move), targets)
    ensures forall a :: a in resources && Under(a, move.from) ==> BothOrNeither(targets, Rebase(a, move.from, move.to))
  {
    hide Under, Rebase, BothOrNeither, HalfSet;
    var sources := set a | a in resources && Under(a, move.from);
    SortedSeqMembers(sources);
    var hops := Hops(resources, move);
    forall a | a in sources ensures BothOrNeither(targets, Rebase(a, move.from, move.to)) {
      var i :| 0 <= i < |SortedSeq(sources)| && SortedSeq(sources)[i] == a;
      HalfExactly(targets, hops[i].to);
    }
  }

  lemma HalfSetIsSet(hops: seq<Move>, targets: map<string, (Digest, Digest)>, address: string)
    requires FirstHalfSet(hops, targets, address)
    ensures !NoHalfSet(hops, targets) && HalfSet(targets, address)
  {
  }

  method RebaseResources(resources: Resources, move: Move, targets: map<string, (Digest, Digest)>)
    returns (moved: Resources)
    requires !Tracks(resources, move.to)
    ensures IsMoved(resources, move, targets, moved)
  {
    moved := map[];
    var rest := resources.Keys;
    hide Rebase, Retarget, MovedResource, RebasedSoFar, IsMoved;
    NothingRebased(resources, move, targets);
    while rest != {}
      invariant rest <= resources.Keys && RebasedSoFar(resources, move, targets, rest, moved)
      decreases rest
    {
      var a :| a in rest;
      var b := Rebase(a, move.from, move.to);
      var dependencies := CanonicalAddresses(RebaseAll(resources[a].dependsOn, move.from, move.to));
      var digest := if Under(a, move.from) then Retarget(resources[a].desiredDigest, targets, b) else resources[a].desiredDigest;
      var resource := resources[a].(dependsOn := dependencies, desiredDigest := digest);
      MovedResourceIs(resources[a], move, a, targets, resource);
      RebaseOneMore(resources, move, targets, rest, moved, a);
      moved, rest := moved[b := resource], rest - {a};
    }
    AllRebased(resources, move, targets, moved);
  }

  /** All resources but those in rest have been rebased, and nothing else is there. */
  ghost predicate RebasedSoFar(resources: Resources, move: Move, targets: map<string, (Digest, Digest)>,
                               rest: set<string>, moved: Resources)
  {
    && (forall a :: a in resources && a !in rest ==>
          Rebase(a, move.from, move.to) in moved &&
          moved[Rebase(a, move.from, move.to)] == MovedResource(resources[a], move, a, targets))
    && (forall b :: b in moved ==> exists a :: a in resources && a !in rest && b == Rebase(a, move.from, move.to))
  }

  lemma NothingRebased(resources: Resources, move: Move, targets: map<string, (Digest, Digest)>)
    ensures RebasedSoFar(resources, move, targets, resources.Keys, map[])
  {
  }

  lemma AllRebased(resources: Resources, move: Move, targets: map<string, (Digest, Digest)>, moved: Resources)
    requires RebasedSoFar(resources, move, targets, {}, moved)
    ensures IsMoved(resources, move, targets, moved)
  {
    hide Rebase, MovedResource;
  }

  lemma MovedResourceIs(resource: Resource, move: Move, a: string, targets: map<string, (Digest, Digest)>, r: Resource)
    requires r == resource.(dependsOn := Canonical(RebaseAll(resource.dependsOn, move.from, move.to)),
                            desiredDigest := if Under(a, move.from)
                                             then Retarget(resource.desiredDigest, targets, Rebase(a, move.from, move.to))
                                             else resource.desiredDigest)
    ensures r == MovedResource(resource, move, a, targets)
  {
  }

  lemma RebaseOneMore(resources: Resources, move: Move, targets: map<string, (Digest, Digest)>, rest: set<string>,
                      moved: Resources, a: string)
    requires !Tracks(resources, move.to) && a in rest && rest <= resources.Keys
    requires RebasedSoFar(resources, move, targets, rest, moved)
    ensures RebasedSoFar(resources, move, targets, rest - {a},
                         moved[Rebase(a, move.from, move.to) := MovedResource(resources[a], move, a, targets)])
  {
    hide Rebase, MovedResource, Tracks;
    var b := Rebase(a, move.from, move.to);
    forall c | c in resources && Rebase(c, move.from, move.to) == b ensures c == a {
      RebaseInjective(resources, move, c, a);
    }
    forall e | e in moved ensures exists c :: c in resources && c !in rest - {a} && e == Rebase(c, move.from, move.to) {
      var c :| c in resources && c !in rest && e == Rebase(c, move.from, move.to);
    }
  }

  /** One step of a resolution: nothing happened, or one root was moved to where nothing was tracked. */
  ghost predicate MoveStep(resources: Resources, targets: map<string, (Digest, Digest)>, moved: Resources)
  {
    moved == resources || exists move: Move :: !Tracks(resources, move.to) && move.to != "" && IsMoved(resources, move, targets, moved)
  }

  ghost predicate MovesTo(resources: Resources, targets: map<string, (Digest, Digest)>, moved: Resources,
                          path: seq<Resources>)
  {
    && |path| >= 1 && path[0] == resources && path[|path| - 1] == moved
    && forall i, j :: 0 <= i && j == i + 1 && j < |path| ==> MoveStep(path[i], targets, path[j])
  }

  datatype Decision = Skip | Carry | Fail(error: MoveError)

  predicate Blocked(resources: Resources, move: Move)
  {
    Tracks(resources, move.from) && Tracks(resources, move.to)
  }

  /** What one declared move means for the state it meets. finalTarget is the end of the move's chain. */
  function Decide(resources: Resources, move: Move, finalTarget: string, desired: set<string>): Decision
  {
    if Blocked(resources, move) then Fail(BothTracked(move))
    else if !Tracks(resources, move.from) then Skip
    else if move.from in desired then if finalTarget in desired then Fail(BothDesired(move)) else Skip
    else if finalTarget !in desired then Fail(TargetNotDesired(move))
    else Carry
  }

  /** path holds the state before and after each of the moves resolved so far. */
  ghost predicate Resolves(moves: seq<Move>, finalTargets: map<string, string>, desired: set<string>,
                           targets: map<string, (Digest, Digest)>, path: seq<Resources>)
    requires forall m :: m in moves ==> m.from in finalTargets
  {
    && 1 <= |path| <= |moves| + 1
    && forall i :: 0 <= i < |path| - 1 ==>
         match Decide(path[i], moves[i], finalTargets[moves[i].from], desired)
         case Skip => path[i + 1] == path[i]
         case Carry => IsMoved(path[i], moves[i], targets, path[i + 1])
         case Fail(_) => false
  }

  /** The single-resource moves of every step that was carried out. */
  ghost function Realized(moves: seq<Move>, finalTargets: map<string, string>, desired: set<string>,
                          path: seq<Resources>): seq<Move>
    requires forall m :: m in moves ==> m.from in finalTargets
    requires 1 <= |path| <= |moves| + 1
  {
    if |path| == 1 then []
    else
      var n := |path| - 2;
      Realized(moves, finalTargets, desired, path[..n + 1]) +
      if Decide(path[n], moves[n], finalTargets[moves[n].from], desired) == Carry then Hops(path[n], moves[n]) else []
  }

  lemma SourcesTracked(resources: Resources, root: string, sources: set<string>)
    requires sources == set a | a in resources && Under(a, root)
    ensures sources != {} <==> Tracks(resources, root)
  {
    if Tracks(resources, root) {
      var a :| a in resources && Under(a, root);
      assert a in sources;
    }
  }

  lemma RealizedNothing(moves: seq<Move>, finalTargets: map<string, string>, desired: set<string>, resources: Resources)
    requires forall m :: m in moves ==> m.from in finalTargets
    ensures Realized(moves, finalTargets, desired, [resources]) == []
  {
  }

  lemma ResolvesNothing(moves: seq<Move>, finalTargets: map<string, string>, desired: set<string>,
                        targets: map<string, (Digest, Digest)>, resources: Resources)
    requires forall m :: m in moves ==> m.from in finalTargets
    ensures Resolves(moves, finalTargets, desired, targets, [resources])
  {
  }

  lemma ResolvesNext(moves: seq<Move>, finalTargets: map<string, string>, desired: set<string>,
                     targets: map<string, (Digest, Digest)>, path: seq<Resources>, next: Resources)
    requires forall m :: m in moves ==> m.from in finalTargets
    requires Resolves(moves, finalTargets, desired, targets, path) && |path| <= |moves|
    requires var n := |path| - 1;
             match Decide(path[n], moves[n], finalTargets[moves[n].from], desired)
             case Skip => next == path[n]
             case Carry => IsMoved(path[n], moves[n], targets, next)
             case Fail(_) => false
    ensures Resolves(moves, finalTargets, desired, targets, path + [next])
  {
    hide Decide, IsMoved;
    var t := path + [next];
    forall i | 0 <= i < |t| - 1
      ensures match Decide(t[i], moves[i], finalTargets[moves[i].from], desired)
              case Skip => t[i + 1] == t[i]
              case Carry => IsMoved(t[i], moves[i], targets, t[i + 1])
              case Fail(_) => false
    {
      if i < |path| - 1 { assert t[i] == path[i] && t[i + 1] == path[i + 1]; }
    }
  }

  lemma RealizedNext(moves: seq<Move>, finalTargets: map<string, string>, desired: set<string>,
                     path: seq<Resources>, next: Resources)
    requires forall m :: m in moves ==> m.from in finalTargets
    requires 1 <= |path| <= |moves|
    ensures var n := |path| - 1;
            Realized(moves, finalTargets, desired, path + [next]) ==
            Realized(moves, finalTargets, desired, path) +
            if Decide(path[n], moves[n], finalTargets[moves[n].from], desired) == Carry then Hops(path[n], moves[n]) else []
  {
    hide Decide, Hops;
    assert (path + [next])[..|path|] == path;
  }

  /** A resolution is made of move steps. */
  lemma ResolvedMovesTo(moves: seq<Move>, finalTargets: map<string, string>, desired: set<string>,
                        targets: map<string, (Digest, Digest)>, path: seq<Resources>)
    requires forall m :: m in moves ==> m.to != "" && m.from in finalTargets
    requires Resolves(moves, finalTargets, desired, targets, path)
    ensures MovesTo(path[0], targets, path[|path| - 1], path)
  {
    forall i, j | 0 <= i && j == i + 1 && j < |path| ensures MoveStep(path[i], targets, path[j]) {
      var move := moves[i];
      if Decide(path[i], move, finalTargets[move.from], desired).Carry? {
        assert !Tracks(path[i], move.to) && move in moves;
      }
    }
  }

  lemma MovesPrefix(resources: Resources, targets: map<string, (Digest, Digest)>, moved: Resources,
                    path: seq<Resources>)
    requires MovesTo(resources, targets, moved, path) && |path| > 1
    ensures MovesTo(resources, targets, path[|path| - 2], path[..|path| - 1])
    ensures MoveStep(path[|path| - 2], targets, path[|path| - 1])
  {
    hide MoveStep;
    var t := path[..|path| - 1];
    forall i, j | 0 <= i && j == i + 1 && j < |t| ensures MoveStep(t[i], targets, t[j]) {
      assert t[i] == path[i] && t[j] == path[j];
    }
  }

  lemma {:induction false} MovesKeepGood(resources: Resources, targets: map<string, (Digest, Digest)>,
                                         moved: Resources, path: seq<Resources>)
    requires MovesTo(resources, targets, moved, path) && GoodState(resources)
    ensures GoodState(moved)
    decreases |path|
  {
    hide GoodState, IsMoved, Tracks;
    if |path| > 1 {
      var n := |path| - 1;
      MovesPrefix(resources, targets, moved, path);
      hide MovesTo;
      MovesKeepGood(resources, targets, path[n - 1], path[..n]);
      if path[n] != path[n - 1] {
        var move: Move :| !Tracks(path[n - 1], move.to) && move.to != "" && IsMoved(path[n - 1], move, targets, path[n]);
        MoveKeepsGood(path[n - 1], move, targets, path[n]);
      }
    }
  }
}
