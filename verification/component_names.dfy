/** Component roots keep the physical name they were created under: the identities that moves carry along. */
module ComponentNames {
  import opened Addresses
  import opened Model
  import opened Planning
  import opened StateMoves
  import opened MoveLineage
  import opened MoveOrder

  type Names = map<string, string>

  /** `physicalComponentName`: the recorded name, or the logical one. */
  function Physical(host: string, names: Names, root: string): string
  {
    if root in names then names[root]
    else if NameOf(host, root).Some? then NameOf(host, root).value
    else ""
  }

  /** `pruneComponentIdentities`: overrides of roots that nothing is tracked under are dropped. */
  function Pruned(names: Names, resources: Resources): Names
  {
    map r | r in names && Tracks(resources, r) :: names[r]
  }

  /** What carrying one move does to the recorded names. */
  function Renamed(host: string, names: Names, move: Move): Names
  {
    var physical := Physical(host, names, move.from);
    var without := names - {move.from};
    if NameOf(host, move.to) == Some(physical) then without - {move.to} else without[move.to := physical]
  }

  lemma RenamedPhysical(host: string, names: Names, move: Move, root: string)
    requires RootMove(host, move)
    ensures Physical(host, Renamed(host, names, move), move.to) == Physical(host, names, move.from)
    ensures root != move.from && root != move.to ==> Physical(host, Renamed(host, names, move), root) == Physical(host, names, root)
  {
  }

  lemma PrunedPhysical(host: string, names: Names, resources: Resources, root: string)
    requires Tracks(resources, root)
    ensures Physical(host, Pruned(names, resources), root) == Physical(host, names, root)
  {
  }

  /** The declared moves that a resolution has carried out. */
  ghost function Carried(moves: seq<Move>, finalTargets: map<string, string>, desired: set<string>,
                         path: seq<Resources>): seq<Move>
    requires forall m :: m in moves ==> m.from in finalTargets
    requires 1 <= |path| <= |moves| + 1
  {
    if |path| == 1 then []
    else
      var n := |path| - 2;
      Carried(moves, finalTargets, desired, path[..n + 1]) +
      if Decide(path[n], moves[n], finalTargets[moves[n].from], desired) == Carry then [moves[n]] else []
  }

  ghost function NamesAlong(host: string, names: Names, moves: seq<Move>): Names
  {
    if moves == [] then names
    else Renamed(host, NamesAlong(host, names, moves[..|moves| - 1]), moves[|moves| - 1])
  }

  /** Where a root was before the moves. */
  function Origin(lineage: map<string, string>, root: string): string
  {
    if root in lineage then lineage[root] else root
  }

  /** After a move, nothing is tracked under its source, and other roots track what they did. */
  lemma MovedTracks(host: string, resources: Resources, move: Move, targets: map<string, (Digest, Digest)>,
                    moved: Resources, root: string)
    requires RootMove(host, move) && IsMoved(resources, move, targets, moved)
    requires NameOf(host, root).Some? && Tracks(moved, root) && root != move.to
    ensures Tracks(resources, root) && root != move.from
  {
    hide MovedResource, Rebase, Under, NameOf;
    var b :| b in moved && Under(b, root);
    var a :| a in resources && b == Rebase(a, move.from, move.to);
    NameOfRoot(host, root);
    NameOfRoot(host, move.to);
    NameOfRoot(host, move.from);
    StaysOrGoes(a, move);
    if Under(a, move.from) {
      RebasedIsUnder(a, move.from, move.to);
      RootsDisjoint(host, NameOf(host, root).value, NameOf(host, move.to).value, b);
    }
  }

  lemma StaysOrGoes(a: string, move: Move)
    ensures !Under(a, move.from) ==> Rebase(a, move.from, move.to) == a
  {
  }

  lemma CarriedLast(moves: seq<Move>, finalTargets: map<string, string>, desired: set<string>, path: seq<Resources>)
    requires forall m :: m in moves ==> m.from in finalTargets
    requires 2 <= |path| <= |moves| + 1
    ensures var n := |path| - 2;
            var before := Carried(moves, finalTargets, desired, path[..n + 1]);
            Carried(moves, finalTargets, desired, path) ==
            if Decide(path[n], moves[n], finalTargets[moves[n].from], desired) == Carry then before + [moves[n]] else before
  {
    hide Decide;
  }

  /** The root has the physical name, and stands for the place, of the root it came from. */
  ghost predicate KeepsName(host: string, names: Names, start: Resources, carried: seq<Move>, root: string)
  {
    var origin := Origin(Lineage(carried), root);
    Tracks(start, origin) && Physical(host, NamesAlong(host, names, carried), root) == Physical(host, names, origin)
  }

  lemma OneMore(host: string, names: Names, start: Resources, carried: seq<Move>, m: Move, root: string)
    requires RootMove(host, m) && root != m.from
    requires KeepsName(host, names, start, carried, if root == m.to then m.from else root)
    ensures KeepsName(host, names, start, carried + [m], root)
  {
    assert (carried + [m])[..|carried|] == carried;
    hide Physical, Renamed, RootMove, Tracks;
    RenamedPhysical(host, NamesAlong(host, names, carried), m, root);
  }

  lemma CarriedNothing(moves: seq<Move>, finalTargets: map<string, string>, desired: set<string>, path: seq<Resources>)
    requires (forall m :: m in moves ==> m.from in finalTargets) && |path| == 1
    ensures Carried(moves, finalTargets, desired, path) == []
  {
  }

  lemma NoneCarried(host: string, names: Names, start: Resources)
    ensures AllKeepNames(host, names, start, [], start)
  {
    hide Tracks, NameOf, Physical;
  }

  /** Where a root tracked after a carried move was tracked before it. */
  lemma PlaceBefore(host: string, resources: Resources, m: Move, finalTarget: string, desired: set<string>,
                    targets: map<string, (Digest, Digest)>, moved: Resources, root: string)
    requires RootMove(host, m) && Decide(resources, m, finalTarget, desired) == Carry && IsMoved(resources, m, targets, moved)
    requires NameOf(host, root).Some? && Tracks(moved, root)
    ensures root != m.from
    ensures var place := if root == m.to then m.from else root; NameOf(host, place).Some? && Tracks(resources, place)
  {
    hide IsMoved, Tracks, NameOf;
    CarriedTracks(resources, m, finalTarget, desired);
    RootMoveNames(host, m);
    if root != m.to { MovedTracks(host, resources, m, targets, moved, root); }
  }

  ghost predicate AllKeepNames(host: string, names: Names, start: Resources, carried: seq<Move>, resources: Resources)
  {
    forall root :: NameOf(host, root).Some? && Tracks(resources, root) ==> KeepsName(host, names, start, carried, root)
  }

  lemma CarryKeepsNames(host: string, names: Names, start: Resources, carried: seq<Move>, resources: Resources, m: Move,
                        finalTarget: string, desired: set<string>, targets: map<string, (Digest, Digest)>,
                        moved: Resources)
    requires RootMove(host, m) && Decide(resources, m, finalTarget, desired) == Carry && IsMoved(resources, m, targets, moved)
    requires AllKeepNames(host, names, start, carried, resources)
    ensures AllKeepNames(host, names, start, carried + [m], moved)
  {
    hide RootMove, Decide, IsMoved, NameOf, Tracks, KeepsName;
    forall root | NameOf(host, root).Some? && Tracks(moved, root) ensures KeepsName(host, names, start, carried + [m], root) {
      PlaceBefore(host, resources, m, finalTarget, desired, targets, moved, root);
      OneMore(host, names, start, carried, m, root);
    }
  }

  /** Along a resolution every tracked root keeps the physical name of the root it came from. */
  lemma {:induction false} NamesFollow(host: string, names: Names, moves: seq<Move>, finalTargets: map<string, string>,
                                       desired: set<string>, targets: map<string, (Digest, Digest)>,
                                       path: seq<Resources>)
    requires (forall m :: m in moves ==> m.from in finalTargets) && forall m :: m in moves ==> RootMove(host, m)
    requires Resolves(moves, finalTargets, desired, targets, path)
    ensures AllKeepNames(host, names, path[0], Carried(moves, finalTargets, desired, path), path[|path| - 1])
    decreases |path|
  {
    hide *;
    ResolvedBounds(moves, finalTargets, desired, targets, path);
    if |path| == 1 {
      NoneCarried(host, names, path[0]);
      CarriedNothing(moves, finalTargets, desired, path);
    } else {
      var n := |path| - 2;
      ResolvedPrefix(moves, finalTargets, desired, targets, path);
      ResolvedLast(moves, finalTargets, desired, targets, path, n);
      CarriedLast(moves, finalTargets, desired, path);
      NamesFollow(host, names, moves, finalTargets, desired, targets, path[..n + 1]);
      assert moves[n] in moves;
      if Decide(path[n], moves[n], finalTargets[moves[n].from], desired) == Carry {
        CarryKeepsNames(host, names, path[0], Carried(moves, finalTargets, desired, path[..n + 1]), path[n], moves[n],
                        finalTargets[moves[n].from], desired, targets, path[n + 1]);
      }
    }
  }

  lemma ResolvedBounds(moves: seq<Move>, finalTargets: map<string, string>, desired: set<string>,
                       targets: map<string, (Digest, Digest)>, path: seq<Resources>)
    requires forall m :: m in moves ==> m.from in finalTargets
    requires Resolves(moves, finalTargets, desired, targets, path)
    ensures 1 <= |path| <= |moves| + 1
  {
    hide Decide, IsMoved;
  }

  lemma RootMoveNames(host: string, m: Move)
    requires RootMove(host, m)
    ensures NameOf(host, m.from).Some? && m.from != m.to
  {
  }

  lemma CarriedTracks(resources: Resources, move: Move, finalTarget: string, desired: set<string>)
    requires Decide(resources, move, finalTarget, desired) == Carry
    ensures Tracks(resources, move.from) && !Tracks(resources, move.to)
  {
  }

  // ---- binding ----

  /** `componentRootFromAddress`. */
  function RootOf(host: string, address: string): Option<string>
  {
    var prefix := Root(host, "");
    if !(prefix <= address) then None
    else
      var name := UpToDot(address[|prefix|..]);
      if ValidName(name) then Some(prefix + name) else None
  }

  function UpToDot(s: string): (name: string)
    ensures name <= s && '.' !in name
    ensures |name| < |s| ==> s[|name|] == '.'
  {
    if s == "" || s[0] == '.' then "" else [s[0]] + UpToDot(s[1..])
  }

  /** It is the one component root that the address lies under. */
  lemma RootOfIs(host: string, address: string, root: string)
    ensures RootOf(host, address) == Some(root) <==> NameOf(host, root).Some? && Under(address, root)
  {
    hide *;
    if RootOf(host, address) == Some(root) { RootFound(host, address, root); }
    if NameOf(host, root).Some? && Under(address, root) { RootIsFound(host, address, root); }
  }

  lemma RootFound(host: string, address: string, root: string)
    requires RootOf(host, address) == Some(root)
    ensures NameOf(host, root).Some? && Under(address, root)
  {
    var prefix := Root(host, "");
    var rest := address[|prefix|..];
    var name := UpToDot(rest);
    assert address == prefix + rest && rest[..|name|] == name;
    RootHasName(host, name);
    assert prefix + name == Root(host, name);
    if |name| < |rest| {
      assert address[..|root + "."|] == root + ".";
    }
  }

  lemma RootIsFound(host: string, address: string, root: string)
    requires NameOf(host, root).Some? && Under(address, root)
    ensures RootOf(host, address) == Some(root)
  {
    var prefix := Root(host, "");
    var name := NameOf(host, root).value;
    NameOfRoot(host, root);
    FromPrefix(address, root);
    assert root == prefix + name;
    assert address[..|prefix|] == prefix;
    var rest := address[|prefix|..];
    assert rest[..|name|] == name;
    if |address| > |root| {
      DotAfter(address, root);
      assert rest[|name|] == '.';
    }
    NameUpToDot(rest, name, UpToDot(rest));
  }

  lemma NameUpToDot(rest: string, name: string, found: string)
    requires ValidName(name) && name <= rest && (|name| < |rest| ==> rest[|name|] == '.')
    requires found <= rest && '.' !in found && (|found| < |rest| ==> rest[|found|] == '.')
    ensures found == name
  {
    if |found| == |name| {
      assert found == rest[..|name|] == name;
    }
  }

  datatype BindError = NotDesirable(root: string) | Aliased(first: string, second: string, physical: string)

  ghost predicate Active(host: string, resources: Resources, desired: set<string>, root: string)
  {
    root in desired || (NameOf(host, root).Some? && Tracks(resources, root))
  }

  method ActiveRoots(host: string, resources: Resources, desired: set<string>) returns (roots: set<string>)
    ensures forall r :: r in roots <==> Active(host, resources, desired, r)
  {
    roots := desired;
    var rest := resources.Keys;
    while rest != {}
      invariant rest <= resources.Keys
      invariant forall r :: r in roots <==> r in desired || exists a :: a in resources && a !in rest && RootOf(host, a) == Some(r)
      decreases rest
    {
      var a :| a in rest;
      var root := RootOf(host, a);
      if root.Some? {
        roots := roots + {root.value};
      }
      rest := rest - {a};
    }
    forall r ensures r in roots <==> Active(host, resources, desired, r) {
      forall a | a in resources ensures RootOf(host, a) == Some(r) <==> NameOf(host, r).Some? && Under(a, r) {
        RootOfIs(host, a, r);
      }
    }
  }

  ghost predicate OwnNames(host: string, names: Names, resources: Resources, desired: set<string>)
  {
    forall a, b :: Active(host, resources, desired, a) && Active(host, resources, desired, b) && a != b ==>
      Physical(host, names, a) != Physical(host, names, b)
  }

  /** `bindComponentIdentities`: every desired root is bound to its physical name, unless two active roots share one. */
  method BindComponentIdentities(host: string, names: Names, resources: Resources, desired: set<string>)
    returns (r: Result<Names, BindError>)
    ensures r.Ok? <==> (forall d :: d in desired ==> NameOf(host, d).Some?) && OwnNames(host, names, resources, desired)
    ensures r.Ok? ==> r.value == map d | d in desired :: Physical(host, names, d)
    ensures r.Err? ==>
              match r.error
              case NotDesirable(root) => root in desired && NameOf(host, root).None?
              case Aliased(a, b, physical) =>
                Active(host, resources, desired, a) && Active(host, resources, desired, b) && Less(a, b) &&
                Physical(host, names, a) == Physical(host, names, b) == physical
  {
    hide Active, NameOf, Physical, Owners, OwnNames, Less;
    if d :| d in desired && NameOf(host, d).None? {
      return Err(NotDesirable(d));
    }
    var active := ActiveRoots(host, resources, desired);
    var roots := SortedKeys(active);
    SortedSeqMembers(active);
    var owners: map<string, string> := map[];
    NoOwners(host, names, roots);
    for i := 0 to |roots|
      invariant Owners(host, names, roots[..i], owners)
    {
      var root := roots[i];
      assert root in roots;
      var physical := Physical(host, names, root);
      if physical in owners {
        OwnedBefore(host, names, roots, i, owners, physical);
        SharedName(host, names, resources, desired, owners[physical], root);
        return Err(Aliased(owners[physical], root, physical));
      }
      AddOwner(host, names, roots, i, owners);
      owners := owners[physical := root];
    }
    assert roots[..|roots|] == roots;
    AllOwn(host, names, resources, desired, roots, owners);
    r := Ok(map d | d in desired :: Physical(host, names, d));
  }

  /** physicalOwners: each root so far owns its physical name. */
  ghost predicate Owners(host: string, names: Names, roots: seq<string>, owners: map<string, string>)
  {
    && (forall r :: r in roots ==> Physical(host, names, r) in owners && owners[Physical(host, names, r)] == r)
    && (forall p :: p in owners ==> owners[p] in roots && Physical(host, names, owners[p]) == p)
  }

  lemma NoOwners(host: string, names: Names, roots: seq<string>)
    ensures Owners(host, names, roots[..0], map[])
  {
  }

  lemma AddOwner(host: string, names: Names, roots: seq<string>, i: nat, owners: map<string, string>)
    requires i < |roots| && Owners(host, names, roots[..i], owners) && Physical(host, names, roots[i]) !in owners
    ensures Owners(host, names, roots[..i + 1], owners[Physical(host, names, roots[i]) := roots[i]])
  {
    hide Physical;
    TakeNext(roots, i);
  }

  lemma OwnedBefore(host: string, names: Names, roots: seq<string>, i: nat, owners: map<string, string>,
                    physical: string)
    requires StrictlySorted(roots) && i < |roots| && Owners(host, names, roots[..i], owners) && physical in owners
    ensures owners[physical] in roots && Physical(host, names, owners[physical]) == physical && Less(owners[physical], roots[i])
    ensures owners[physical] != roots[i]
  {
    hide Physical, Less;
    var k :| 0 <= k < i && roots[..i][k] == owners[physical];
    assert roots[k] == owners[physical];
    LessTrichotomy(roots[k], roots[i]);
  }

  lemma SharedName(host: string, names: Names, resources: Resources, desired: set<string>, a: string, b: string)
    requires Active(host, resources, desired, a) && Active(host, resources, desired, b) && a != b
    requires Physical(host, names, a) == Physical(host, names, b)
    ensures !OwnNames(host, names, resources, desired)
  {
    hide Physical, Active;
  }

  lemma AllOwn(host: string, names: Names, resources: Resources, desired: set<string>, roots: seq<string>,
               owners: map<string, string>)
    requires Owners(host, names, roots, owners) && forall r :: r in roots <==> Active(host, resources, desired, r)
    ensures OwnNames(host, names, resources, desired)
  {
    hide Physical, Active;
  }
}
