/** Resolving declared moves against a stored state: order them, carry out those that apply, keep the physical names. */
module MoveResolution {
  import opened Addresses
  import opened Model
  import opened Planning
  import opened StateMoves
  import opened MoveLineage
  import opened MoveOrder
  import opened ComponentNames

  type Targets = map<string, (Digest, Digest)>

  datatype Resolved = Resolved(resources: Resources, names: Names, moves: seq<Move>, bindings: Names)

  datatype ResolveError = Unorderable(roots: RootsError) | Conflict(move: MoveError) | Unbindable(bind: BindError)

  /** The move cannot be carried out in the state it meets. */
  ghost predicate Stops(resources: Resources, move: Move, finalTarget: string, desired: set<string>, targets: Targets,
                        error: MoveError)
  {
    match Decide(resources, move, finalTarget, desired)
    case Fail(e) => error == e
    case Carry => error.HalfTarget? && FirstHalfSet(Hops(resources, move), targets, error.address)
    case Skip => false
  }

  /** What became of a move that the resolution passed: not both of its roots were tracked; if its source was, exactly
      one of the source and the end of its chain is desired; and it was carried out, by targets that are not half set,
      just when its source was tracked and the end of its chain is desired. */
  ghost predicate Passed(before: Resources, move: Move, finalTarget: string, desired: set<string>, targets: Targets,
                         after: Resources)
  {
    && !(Tracks(before, move.from) && Tracks(before, move.to))
    && (Tracks(before, move.from) ==> (move.from in desired <==> finalTarget !in desired))
    && (if Tracks(before, move.from) && finalTarget in desired
        then IsMoved(before, move, targets, after) && NoHalfSet(Hops(before, move), targets)
        else after == before)
  }

  ghost predicate AllPassed(moves: seq<Move>, finalTargets: map<string, string>, desired: set<string>, targets: Targets,
                            path: seq<Resources>)
    requires (forall m :: m in moves ==> m.from in finalTargets) && |path| <= |moves| + 1
  {
    forall i :: 0 <= i < |path| - 1 ==> Passed(path[i], moves[i], finalTargets[moves[i].from], desired, targets, path[i + 1])
  }

  /** When each error is due; no two are due at once, and none for a move that can be passed. */
  ghost predicate Due(before: Resources, move: Move, finalTarget: string, desired: set<string>, targets: Targets,
                      error: MoveError)
  {
    && Tracks(before, move.from)
    && match error
       case BothTracked(m) => m == move && Tracks(before, move.to)
       case BothDesired(m) => m == move && !Tracks(before, move.to) && move.from in desired && finalTarget in desired
       case TargetNotDesired(m) => m == move && !Tracks(before, move.to) && move.from !in desired && finalTarget !in desired
       case HalfTarget(address) =>
         && !Tracks(before, move.to) && move.from !in desired && finalTarget in desired
         && FirstHalfSet(Hops(before, move), targets, address)
  }

  /** The realized moves are those of the single addresses under the source of a move that was carried out. */
  ghost predicate RealizedFrom(realized: seq<Move>, moves: seq<Move>, finalTargets: map<string, string>,
                               desired: set<string>, path: seq<Resources>)
    requires (forall m :: m in moves ==> m.from in finalTargets) && |path| <= |moves| + 1
  {
    forall m :: m in realized <==>
      exists i :: 0 <= i < |path| - 1 && finalTargets[moves[i].from] in desired && m in AddressMoves(path[i], moves[i])
  }

  ghost function AddressMoves(resources: Resources, move: Move): set<Move>
  {
    set a | a in resources && Under(a, move.from) :: Move(a, move.to + a[|move.from|..])
  }

  lemma PassNext(moves: seq<Move>, finalTargets: map<string, string>, desired: set<string>, targets: Targets,
                 path: seq<Resources>, next: Resources)
    requires (forall m :: m in moves ==> m.from in finalTargets) && 1 <= |path| <= |moves|
    requires AllPassed(moves, finalTargets, desired, targets, path)
    requires var n := |path| - 1; Passed(path[n], moves[n], finalTargets[moves[n].from], desired, targets, next)
    ensures AllPassed(moves, finalTargets, desired, targets, path + [next])
  {
    hide Passed;
    var t := path + [next];
    forall i | 0 <= i < |t| - 1
      ensures Passed(t[i], moves[i], finalTargets[moves[i].from], desired, targets, t[i + 1])
    {
      if i < |path| - 1 { assert t[i] == path[i] && t[i + 1] == path[i + 1]; }
    }
  }

  lemma RealizeNext(moves: seq<Move>, finalTargets: map<string, string>, desired: set<string>, targets: Targets,
                    path: seq<Resources>, next: Resources, realized: seq<Move>, steps: seq<Move>)
    requires (forall m :: m in moves ==> m.from in finalTargets) && 1 <= |path| <= |moves|
    requires RealizedFrom(realized, moves, finalTargets, desired, path)
    requires var n := |path| - 1;
             if Tracks(path[n], moves[n].from) && finalTargets[moves[n].from] in desired then steps == Hops(path[n], moves[n])
             else steps == []
    ensures RealizedFrom(realized + steps, moves, finalTargets, desired, path + [next])
  {
    hide Tracks, Under;
    var n, t := |path| - 1, path + [next];
    HopsAre(path[n], moves[n]);
    assert t[n] == path[n] && forall i :: 0 <= i < n ==> t[i] == path[i];
  }

  lemma HopsAre(resources: Resources, move: Move)
    ensures forall m :: m in Hops(resources, move) <==> m in AddressMoves(resources, move)
    ensures !Tracks(resources, move.from) ==> AddressMoves(resources, move) == {}
  {
    var sources := set a | a in resources && Under(a, move.from);
    SortedSeqMembers(sources);
    var hops := Hops(resources, move);
    forall m | m in AddressMoves(resources, move) ensures m in hops {
      var a :| a in sources && m == Move(a, move.to + a[|move.from|..]);
      var i :| 0 <= i < |SortedSeq(sources)| && SortedSeq(sources)[i] == a;
      assert hops[i] == m;
    }
    forall m | m in hops ensures m in AddressMoves(resources, move) {
      var i :| 0 <= i < |hops| && hops[i] == m;
      assert SortedSeq(sources)[i] in sources;
    }
  }

  /** Whether a move is carried out in the state it meets, or why it stops the resolution. */
  method MeetMove(resources: Resources, move: Move, finalTarget: string, desired: set<string>, ghost targets: Targets)
    returns (carry: Result<bool, MoveError>)
    ensures carry.Err? ==> Due(resources, move, finalTarget, desired, targets, carry.error)
    ensures carry.Err? ==> Decide(resources, move, finalTarget, desired) == Fail(carry.error)
    ensures carry.Ok? ==>
              && !(Tracks(resources, move.from) && Tracks(resources, move.to))
              && (Tracks(resources, move.from) ==> (move.from in desired <==> finalTarget !in desired))
              && (carry.value <==> Tracks(resources, move.from) && finalTarget in desired)
              && Decide(resources, move, finalTarget, desired) == if carry.value then Carry else Skip
  {
    hide Tracks, Under;
    var sources := set a | a in resources && Under(a, move.from);
    var occupied := set a | a in resources && Under(a, move.to);
    SourcesTracked(resources, move.from, sources);
    SourcesTracked(resources, move.to, occupied);
    if sources != {} && occupied != {} {
      return Err(BothTracked(move));
    }
    if sources == {} {
      return Ok(false);
    }
    if move.from in desired {
      if finalTarget in desired {
        return Err(BothDesired(move));
      }
      return Ok(false);
    }
    if finalTarget !in desired {
      return Err(TargetNotDesired(move));
    }
    return Ok(true);
  }

  /** The loop of `ResolveMoves`, over moves in execution order. */
  method CarryOut(host: string, resources: Resources, names: Names, moves: seq<Move>, finalTargets: map<string, string>,
                  desired: set<string>, targets: Targets)
    returns (r: Result<Resources, MoveError>, after: Names, realized: seq<Move>, ghost path: seq<Resources>)
    requires forall m :: m in moves ==> m.from in finalTargets
    ensures path != [] && path[0] == resources && Resolves(moves, finalTargets, desired, targets, path)
    ensures realized == Realized(moves, finalTargets, desired, path)
    ensures after == NamesAlong(host, names, Carried(moves, finalTargets, desired, path))
    ensures AllPassed(moves, finalTargets, desired, targets, path)
    ensures RealizedFrom(realized, moves, finalTargets, desired, path)
    ensures r.Ok? ==> |path| == |moves| + 1 && r.value == path[|moves|]
    ensures r.Err? ==>
              |path| <= |moves| &&
              var n := |path| - 1;
              Due(path[n], moves[n], finalTargets[moves[n].from], desired, targets, r.error) &&
              Stops(path[n], moves[n], finalTargets[moves[n].from], desired, targets, r.error)
  {
    hide Decide, Realized, Hops, IsMoved, Resolves, Tracks, Under, Rebase, Carried, NamesAlong, Renamed, FirstHalfSet, NoHalfSet,
      AllPassed, RealizedFrom;
    ResolvesNothing(moves, finalTargets, desired, targets, resources);
    var state := resources;
    after, realized, path := names, [], [resources];
    RealizedNothing(moves, finalTargets, desired, resources);
    NothingCarried(host, names, moves, finalTargets, desired, resources);
    NothingPassed(moves, finalTargets, desired, targets, resources);
    for i := 0 to |moves|
      invariant |path| == i + 1 && path[0] == resources && path[i] == state
      invariant Resolves(moves, finalTargets, desired, targets, path)
      invariant realized == Realized(moves, finalTargets, desired, path)
      invariant after == NamesAlong(host, names, Carried(moves, finalTargets, desired, path))
      invariant AllPassed(moves, finalTargets, desired, targets, path)
      invariant RealizedFrom(realized, moves, finalTargets, desired, path)
    {
      var move := moves[i];
      var carry := MeetMove(state, move, finalTargets[move.from], desired, targets);
      if carry.Err? {
        return Err(carry.error), after, realized, path;
      }
      if carry.value {
        var moved, steps := MoveRoot(state, move, targets);
        if moved.Err? {
          return Err(moved.error), after, realized, path;
        }
        RealizedNext(moves, finalTargets, desired, path, moved.value);
        ResolvesNext(moves, finalTargets, desired, targets, path, moved.value);
        CarriedNext(host, names, moves, finalTargets, desired, path, moved.value);
        PassNext(moves, finalTargets, desired, targets, path, moved.value);
        RealizeNext(moves, finalTargets, desired, targets, path, moved.value, realized, steps);
        state, realized, after := moved.value, realized + steps, Renamed(host, after, move);
      } else {
        RealizedNext(moves, finalTargets, desired, path, state);
        ResolvesNext(moves, finalTargets, desired, targets, path, state);
        CarriedNext(host, names, moves, finalTargets, desired, path, state);
        PassNext(moves, finalTargets, desired, targets, path, state);
        RealizeNext(moves, finalTargets, desired, targets, path, state, realized, []);
        assert realized + [] == realized;
      }
      path := path + [state];
    }
    r := Ok(state);
  }

  lemma NothingPassed(moves: seq<Move>, finalTargets: map<string, string>, desired: set<string>, targets: Targets,
                      resources: Resources)
    requires forall m :: m in moves ==> m.from in finalTargets
    ensures AllPassed(moves, finalTargets, desired, targets, [resources])
    ensures RealizedFrom([], moves, finalTargets, desired, [resources])
  {
  }

  lemma NothingCarried(host: string, names: Names, moves: seq<Move>, finalTargets: map<string, string>,
                       desired: set<string>,
                       resources: Resources)
    requires forall m :: m in moves ==> m.from in finalTargets
    ensures NamesAlong(host, names, Carried(moves, finalTargets, desired, [resources])) == names
  {
  }

  lemma CarriedNext(host: string, names: Names, moves: seq<Move>, finalTargets: map<string, string>,
                    desired: set<string>,
                    path: seq<Resources>, next: Resources)
    requires forall m :: m in moves ==> m.from in finalTargets
    requires 1 <= |path| <= |moves|
    ensures var n := |path| - 1;
            var before := NamesAlong(host, names, Carried(moves, finalTargets, desired, path));
            NamesAlong(host, names, Carried(moves, finalTargets, desired, path + [next])) ==
            if Decide(path[n], moves[n], finalTargets[moves[n].from], desired) == Carry then Renamed(host, before, moves[n]) else before
  {
    hide Decide, Renamed;
    assert (path + [next])[..|path|] == path;
    var carried := Carried(moves, finalTargets, desired, path);
    assert (carried + [moves[|path| - 1]])[..|carried|] == carried;
    assert carried + [] == carried;
  }

  /** How a resolution ran: its moves are the declared ones in execution order, along a path of states. */
  ghost predicate Ran(host: string, resources: Resources, declarations: seq<Move>, desired: set<string>,
                      targets: Targets,
                      moves: seq<Move>, finalTargets: map<string, string>, path: seq<Resources>)
  {
    && multiset(moves) == multiset(declarations) && InDepthOrder(moves) && Screened(host, moves) && FinalTargets(moves, finalTargets)
    && (forall m :: m in moves ==> m.from in finalTargets)
    && path != [] && path[0] == resources && Resolves(moves, finalTargets, desired, targets, path)
  }

  /** The physical names that a run leaves recorded. */
  ghost function NamesLeft(host: string, names: Names, desired: set<string>, moves: seq<Move>,
                           finalTargets: map<string, string>, path: seq<Resources>): Names
    requires (forall m :: m in moves ==> m.from in finalTargets) && |path| == |moves| + 1
  {
    Pruned(NamesAlong(host, Pruned(names, path[0]), Carried(moves, finalTargets, desired, path)), path[|moves|])
  }

  ghost predicate Bindable(host: string, names: Names, resources: Resources, desired: set<string>)
  {
    (forall d :: d in desired ==> NameOf(host, d).Some?) && OwnNames(host, names, resources, desired)
  }

  /** What a finished run leaves. */
  ghost predicate Leaves(host: string, names: Names, desired: set<string>, moves: seq<Move>, finalTargets: map<string,
                         string>,
                         path: seq<Resources>, result: Resolved)
    requires (forall m :: m in moves ==> m.from in finalTargets) && |path| == |moves| + 1
  {
    && result.resources == path[|moves|]
    && result.moves == Realized(moves, finalTargets, desired, path)
    && result.names == NamesLeft(host, names, desired, moves, finalTargets, path)
    && result.bindings == (map d | d in desired :: Physical(host, result.names, d))
    && Bindable(host, result.names, result.resources, desired)
  }

  /** `ResolveMoves`, for a normalised state. */
  method ResolveMoves(host: string, resources: Resources, names: Names, declarations: seq<Move>, desired: set<string>,
                      targets: Targets)
    returns (r: Result<Resolved, ResolveError>, ghost moves: seq<Move>, ghost finalTargets: map<string, string>,
             ghost path: seq<Resources>)
    ensures r.Err? && r.error.Unorderable? <==> !Orderable(host, declarations)
    ensures r.Err? && r.error.Unorderable? ==> Refuses(host, declarations, r.error.roots)
    ensures Orderable(host, declarations) ==> Ran(host, resources, declarations, desired, targets, moves, finalTargets, path)
    ensures Orderable(host, declarations) ==> AllPassed(moves, finalTargets, desired, targets, path)
    ensures r.Ok? ==> |path| == |moves| + 1 && Leaves(host, names, desired, moves, finalTargets, path, r.value)
    ensures r.Ok? ==> RealizedFrom(r.value.moves, moves, finalTargets, desired, path)
    ensures r.Err? && r.error.Conflict? ==>
              |path| <= |moves| &&
              var n := |path| - 1;
              Due(path[n], moves[n], finalTargets[moves[n].from], desired, targets, r.error.move) &&
              Stops(path[n], moves[n], finalTargets[moves[n].from], desired, targets, r.error.move)
    ensures r.Err? && r.error.Unbindable? ==>
              |path| == |moves| + 1 &&
              !Bindable(host, NamesLeft(host, names, desired, moves, finalTargets, path), path[|moves|], desired)
  {
    hide *;
    moves, finalTargets, path := [], map[], [];
    var ordered := ValidateAndOrderMoves(host, declarations);
    if ordered.Err? {
      return Err(Unorderable(ordered.error)), moves, finalTargets, path;
    }
    moves := ordered.value;
    SourcesApart(host, moves);
    var final := FinalMoveTargets(ordered.value);
    TargetsKnown(ordered.value, final);
    finalTargets := final;
    var state, after, realized;
    state, after, realized, path := CarryOut(host, resources, Pruned(names, resources), ordered.value, final, desired, targets);
    RanIs(host, resources, declarations, desired, targets, moves, finalTargets, path);
    if state.Err? {
      return Err(Conflict(state.error)), moves, finalTargets, path;
    }
    var kept := Pruned(after, state.value);
    NamesLeftIs(host, names, desired, moves, finalTargets, path, kept);
    var bound := BindComponentIdentities(host, kept, state.value, desired);
    BindableIs(host, kept, state.value, desired);
    if bound.Err? {
      return Err(Unbindable(bound.error)), moves, finalTargets, path;
    }
    r := Ok(Resolved(state.value, kept, realized, bound.value));
    LeavesIs(host, names, desired, moves, finalTargets, path, r.value);
  }

  lemma SourcesApart(host: string, moves: seq<Move>)
    requires Screened(host, moves)
    ensures forall i, j :: 0 <= i < j < |moves| ==> moves[i].from != moves[j].from
  {
  }

  lemma TargetsKnown(moves: seq<Move>, out: map<string, string>)
    requires FinalTargets(moves, out)
    ensures forall m :: m in moves ==> m.from in out
  {
  }

  lemma RanIs(host: string, resources: Resources, declarations: seq<Move>, desired: set<string>, targets: Targets,
              moves: seq<Move>, finalTargets: map<string, string>, path: seq<Resources>)
    requires multiset(moves) == multiset(declarations) && InDepthOrder(moves) && Screened(host, moves) && FinalTargets(moves, finalTargets)
    requires forall m :: m in moves ==> m.from in finalTargets
    requires path != [] && path[0] == resources && Resolves(moves, finalTargets, desired, targets, path)
    ensures Ran(host, resources, declarations, desired, targets, moves, finalTargets, path)
  {
    hide InDepthOrder, Screened, FinalTargets, Resolves;
  }

  lemma LeavesIs(host: string, names: Names, desired: set<string>, moves: seq<Move>, finalTargets: map<string, string>,
                 path: seq<Resources>, result: Resolved)
    requires (forall m :: m in moves ==> m.from in finalTargets) && |path| == |moves| + 1
    requires result.resources == path[|moves|] && result.moves == Realized(moves, finalTargets, desired, path)
    requires result.names == NamesLeft(host, names, desired, moves, finalTargets, path)
    requires result.bindings == map d | d in desired :: Physical(host, result.names, d)
    requires Bindable(host, result.names, result.resources, desired)
    ensures Leaves(host, names, desired, moves, finalTargets, path, result)
  {
    hide Realized, NamesLeft, Physical, Bindable;
  }

  lemma NamesLeftIs(host: string, names: Names, desired: set<string>, moves: seq<Move>, finalTargets: map<string, string>,
                    path: seq<Resources>, kept: Names)
    requires (forall m :: m in moves ==> m.from in finalTargets) && |path| == |moves| + 1
    requires kept == Pruned(NamesAlong(host, Pruned(names, path[0]), Carried(moves, finalTargets, desired, path)), path[|moves|])
    ensures kept == NamesLeft(host, names, desired, moves, finalTargets, path)
  {
  }

  lemma BindableIs(host: string, names: Names, resources: Resources, desired: set<string>)
    ensures Bindable(host, names, resources, desired) <==>
            (forall d :: d in desired ==> NameOf(host, d).Some?) && OwnNames(host, names, resources, desired)
  {
  }

  // ---- what resolutions guarantee ----

  lemma RanParts(host: string, resources: Resources, declarations: seq<Move>, desired: set<string>, targets: Targets,
                 moves: seq<Move>, finalTargets: map<string, string>, path: seq<Resources>)
    requires Ran(host, resources, declarations, desired, targets, moves, finalTargets, path)
    ensures forall m :: m in moves ==> m.from in finalTargets && RootMove(host, m) && m.to != ""
    ensures InDepthOrder(moves) && Screened(host, moves) && Resolves(moves, finalTargets, desired, targets, path)
    ensures InChainOrder(moves) && RootsApart(moves)
  {
    hide InDepthOrder, FinalTargets, Resolves, InChainOrder, RootsApart, Under;
    DepthIsChainOrder(host, moves);
    ScreenedRootsApart(host, moves);
  }

  /** Every step of a resolution moves a root to where nothing is tracked. */
  lemma ResolutionMovesTo(host: string, resources: Resources, declarations: seq<Move>, desired: set<string>,
                          targets: Targets,
                          moves: seq<Move>, finalTargets: map<string, string>, path: seq<Resources>)
    requires Ran(host, resources, declarations, desired, targets, moves, finalTargets, path)
    ensures MovesTo(resources, targets, path[|path| - 1], path)
  {
    RanParts(host, resources, declarations, desired, targets, moves, finalTargets, path);
    hide Resolves, MovesTo, InDepthOrder, Screened, RootsApart, InChainOrder;
    ResolvedMovesTo(moves, finalTargets, desired, targets, path);
  }

  /** Each entry of the lineage of what was moved leads from an address tracked afterwards to the one address it
      had before: nothing is required of the declared moves. */
  lemma ResolutionSpans(host: string, resources: Resources, declarations: seq<Move>, desired: set<string>,
                        targets: Targets,
                        moves: seq<Move>, finalTargets: map<string, string>, path: seq<Resources>)
    requires Ran(host, resources, declarations, desired, targets, moves, finalTargets, path)
    requires forall m :: m in moves ==> m.from in finalTargets
    requires 1 <= |path| <= |moves| + 1
    ensures var hops := Realized(moves, finalTargets, desired, path);
            && InChainOrder(hops) && Collapses(hops, Lineage(hops))
            && (forall e :: e in Lineage(hops) ==> e in path[|path| - 1] && Lineage(hops)[e] in resources)
  {
    RanParts(host, resources, declarations, desired, targets, moves, finalTargets, path);
    hide Ran, Resolves, InDepthOrder, Screened, RootsApart, InChainOrder, Lineage, Realized, Collapses;
    RealizedInChainOrder(moves, finalTargets, desired, path);
    LineageSpansResolution(moves, finalTargets, desired, targets, path);
    RanStart(host, resources, declarations, desired, targets, moves, finalTargets, path);
  }

  lemma RanStart(host: string, resources: Resources, declarations: seq<Move>, desired: set<string>, targets: Targets,
                 moves: seq<Move>, finalTargets: map<string, string>, path: seq<Resources>)
    requires Ran(host, resources, declarations, desired, targets, moves, finalTargets, path)
    ensures path != [] && path[0] == resources
  {
  }

  /** A component keeps its physical name: every root tracked after a resolution has the name that the root it
      came from had before. */
  lemma PhysicalNamesKept(host: string, resources: Resources, names: Names, declarations: seq<Move>,
                          desired: set<string>,
                          targets: Targets, moves: seq<Move>, finalTargets: map<string, string>, path: seq<Resources>,
                          result: Resolved, root: string)
    requires Ran(host, resources, declarations, desired, targets, moves, finalTargets, path)
    requires (forall m :: m in moves ==> m.from in finalTargets) && |path| == |moves| + 1
    requires Leaves(host, names, desired, moves, finalTargets, path, result)
    requires NameOf(host, root).Some? && Tracks(result.resources, root)
    ensures var origin := Origin(Lineage(Carried(moves, finalTargets, desired, path)), root);
            Tracks(resources, origin) && Physical(host, result.names, root) == Physical(host, names, origin)
  {
    RanParts(host, resources, declarations, desired, targets, moves, finalTargets, path);
    RanStart(host, resources, declarations, desired, targets, moves, finalTargets, path);
    hide Ran, Resolves, InDepthOrder, Screened, RootsApart, InChainOrder, Lineage, Carried, Tracks, Physical, Pruned, NamesAlong, NameOf,
      RootMove;
    var start := Pruned(names, resources);
    NamesFollow(host, start, moves, finalTargets, desired, targets, path);
    assert KeepsName(host, start, resources, Carried(moves, finalTargets, desired, path), root);
    PrunedPhysical(host, NamesAlong(host, start, Carried(moves, finalTargets, desired, path)), result.resources, root);
    PrunedPhysical(host, names, resources, Origin(Lineage(Carried(moves, finalTargets, desired, path)), root));
  }

  /** No root is recorded under the name that it would have anyway. */
  ghost predicate NoIdleNames(host: string, names: Names)
  {
    forall r :: r in names ==> NameOf(host, r) != Some(names[r])
  }

  lemma {:induction false} NamesAlongNotIdle(host: string, names: Names, moves: seq<Move>)
    requires NoIdleNames(host, names)
    ensures NoIdleNames(host, NamesAlong(host, names, moves))
    decreases |moves|
  {
    hide NameOf;
    if moves != [] {
      NamesAlongNotIdle(host, names, moves[..|moves| - 1]);
    }
  }

  /** A resolution leaves names recorded only of tracked roots, and none that says nothing. */
  lemma NamesAreTidy(host: string, names: Names, desired: set<string>, moves: seq<Move>, finalTargets: map<string,
                     string>,
                     path: seq<Resources>, result: Resolved)
    requires (forall m :: m in moves ==> m.from in finalTargets) && |path| == |moves| + 1
    requires Leaves(host, names, desired, moves, finalTargets, path, result) && NoIdleNames(host, names)
    ensures NoIdleNames(host, result.names) && forall r :: r in result.names ==> Tracks(result.resources, r)
  {
    hide NameOf, NamesAlong, Tracks, Carried, Realized, Bindable, Physical;
    NamesAlongNotIdle(host, Pruned(names, path[0]), Carried(moves, finalTargets, desired, path));
  }

  // ---- the digests of the targets decide nothing else ----

  ghost predicate SamePlaces(p: seq<Resources>, q: seq<Resources>)
  {
    |p| == |q| && forall i :: 0 <= i < |p| ==> p[i].Keys == q[i].Keys
  }

  lemma SameDecision(a: Resources, b: Resources, move: Move, finalTarget: string, desired: set<string>)
    requires a.Keys == b.Keys
    ensures Decide(a, move, finalTarget, desired) == Decide(b, move, finalTarget, desired)
    ensures Hops(a, move) == Hops(b, move)
  {
    hide Under, Rebase;
    assert Tracks(a, move.from) <==> Tracks(b, move.from);
    assert Tracks(a, move.to) <==> Tracks(b, move.to);
    assert (set x | x in a && Under(x, move.from)) == set x | x in b && Under(x, move.from);
  }

  lemma MovedPlaces(a: Resources, b: Resources, move: Move, t: Targets, u: Targets, a': Resources, b': Resources)
    requires a.Keys == b.Keys && IsMoved(a, move, t, a') && IsMoved(b, move, u, b')
    ensures a'.Keys == b'.Keys
  {
    hide Rebase, MovedResource;
  }

  /** Two resolutions of the same moves against the same state go through the same addresses, whatever digests
      their targets carry. */
  lemma {:induction false} SamePath(moves: seq<Move>, finalTargets: map<string, string>, desired: set<string>,
                                    t: Targets,
                                    u: Targets, p: seq<Resources>, q: seq<Resources>)
    requires forall m :: m in moves ==> m.from in finalTargets
    requires Resolves(moves, finalTargets, desired, t, p) && Resolves(moves, finalTargets, desired, u, q)
    requires |p| == |q| && p[0] == q[0]
    ensures SamePlaces(p, q)
    decreases |p|
  {
    hide IsMoved, Decide, Hops, Resolves;
    if |p| > 1 {
      var n := |p| - 2;
      ResolvedPrefix(moves, finalTargets, desired, t, p);
      ResolvedPrefix(moves, finalTargets, desired, u, q);
      SamePath(moves, finalTargets, desired, t, u, p[..n + 1], q[..n + 1]);
      assert p[..n + 1][n] == p[n] && q[..n + 1][n] == q[n];
      ResolvedBounds(moves, finalTargets, desired, t, p);
      ResolvedLast(moves, finalTargets, desired, t, p, n);
      ResolvedLast(moves, finalTargets, desired, u, q, n);
      SameDecision(p[n], q[n], moves[n], finalTargets[moves[n].from], desired);
      if Decide(p[n], moves[n], finalTargets[moves[n].from], desired) == Carry {
        MovedPlaces(p[n], q[n], moves[n], t, u, p[n + 1], q[n + 1]);
      }
      PlacesNext(p, q);
    }
  }

  lemma PlacesNext(p: seq<Resources>, q: seq<Resources>)
    requires |p| == |q| > 1 && SamePlaces(p[..|p| - 1], q[..|p| - 1]) && p[|p| - 1].Keys == q[|p| - 1].Keys
    ensures SamePlaces(p, q)
  {
    forall i | 0 <= i < |p| ensures p[i].Keys == q[i].Keys {
      if i < |p| - 1 { assert p[..|p| - 1][i] == p[i] && q[..|p| - 1][i] == q[i]; }
    }
  }

  lemma {:induction false} SameRealized(moves: seq<Move>, finalTargets: map<string, string>, desired: set<string>,
                                        p: seq<Resources>, q: seq<Resources>)
    requires (forall m :: m in moves ==> m.from in finalTargets) && 1 <= |p| <= |moves| + 1 && SamePlaces(p, q)
    ensures Realized(moves, finalTargets, desired, p) == Realized(moves, finalTargets, desired, q)
    decreases |p|
  {
    hide Decide, Hops;
    if |p| > 1 {
      var n := |p| - 2;
      SameRealized(moves, finalTargets, desired, p[..n + 1], q[..n + 1]);
      SameDecision(p[n], q[n], moves[n], finalTargets[moves[n].from], desired);
    }
  }

  lemma {:induction false} SameCarried(moves: seq<Move>, finalTargets: map<string, string>, desired: set<string>,
                                       p: seq<Resources>, q: seq<Resources>)
    requires (forall m :: m in moves ==> m.from in finalTargets) && 1 <= |p| <= |moves| + 1 && SamePlaces(p, q)
    ensures Carried(moves, finalTargets, desired, p) == Carried(moves, finalTargets, desired, q)
    decreases |p|
  {
    if |p| == 1 {
      CarriedNothing(moves, finalTargets, desired, p);
      CarriedNothing(moves, finalTargets, desired, q);
    } else {
      var n := |p| - 2;
      CarriedLast(moves, finalTargets, desired, p);
      CarriedLast(moves, finalTargets, desired, q);
      SameCarried(moves, finalTargets, desired, p[..n + 1], q[..n + 1]);
      hide Carried, Decide;
      SameDecision(p[n], q[n], moves[n], finalTargets[moves[n].from], desired);
    }
  }

  /** Resolving again with other target digests gives the same moves and the same bindings, so the complaint that
      the resolution changed in between is never made. */
  lemma RebasingChangesNothing(host: string, resources: Resources, names: Names, declarations: seq<Move>,
                               desired: set<string>,
                               t: Targets, u: Targets,
                               moves: seq<Move>, finalTargets: map<string, string>, path: seq<Resources>,
                               result: Resolved,
                               moves': seq<Move>, finalTargets': map<string, string>, path': seq<Resources>, result': Resolved)
    requires Ran(host, resources, declarations, desired, t, moves, finalTargets, path)
    requires Ran(host, resources, declarations, desired, u, moves', finalTargets', path')
    requires (forall m :: m in moves ==> m.from in finalTargets) && |path| == |moves| + 1
    requires (forall m :: m in moves' ==> m.from in finalTargets') && |path'| == |moves'| + 1
    requires Leaves(host, names, desired, moves, finalTargets, path, result)
    requires Leaves(host, names, desired, moves', finalTargets', path', result')
    ensures result.moves == result'.moves && result.names == result'.names && result.bindings == result'.bindings
  {
    hide InDepthOrder, FinalTargets, Resolves, Realized, Carried, NamesAlong, Physical, OwnNames, Screened, Pruned;
    DepthOrderUnique(moves, moves');
    FinalTargetsUnique(moves, finalTargets, finalTargets');
    SamePath(moves, finalTargets, desired, t, u, path, path');
    SameRealized(moves, finalTargets, desired, path, path');
    SameCarried(moves, finalTargets, desired, path, path');
    PrunedAlike(NamesAlong(host, Pruned(names, resources), Carried(moves, finalTargets, desired, path)),
                result.resources, result'.resources);
  }

  lemma PrunedAlike(names: Names, a: Resources, b: Resources)
    requires a.Keys == b.Keys
    ensures Pruned(names, a) == Pruned(names, b)
  {
    hide Under;
    forall r | r in names ensures Tracks(a, r) <==> Tracks(b, r) {
    }
  }

  // ---- resolving again finds nothing to do ----

  /** A carried move leaves other roots tracked or untracked as they were, and nothing under its source. */
  lemma CarryElsewhere(host: string, resources: Resources, move: Move, targets: Targets, moved: Resources, root: string)
    requires RootMove(host, move) && IsMoved(resources, move, targets, moved)
    requires NameOf(host, root).Some? && root != move.to
    ensures Tracks(moved, root) <==> Tracks(resources, root) && root != move.from
  {
    hide MovedResource, Rebase, Under, NameOf, RootMove;
    if Tracks(moved, root) { MovedTracks(host, resources, move, targets, moved, root); }
    if Tracks(resources, root) && root != move.from {
      var a :| a in resources && Under(a, root);
      NotUnderBoth(host, move, root, a);
      StaysOrGoes(a, move);
    }
  }

  lemma NotUnderBoth(host: string, move: Move, root: string, a: string)
    requires RootMove(host, move) && NameOf(host, root).Some? && root != move.from && Under(a, root)
    ensures !Under(a, move.from)
  {
    hide Under;
    NameOfRoot(host, root);
    NameOfRoot(host, move.from);
    if Under(a, move.from) { RootsDisjoint(host, NameOf(host, root).value, NameOf(host, move.from).value, a); }
  }

  /** A move that has nothing to do still has nothing to do after a later move of its chain, or one of another. */
  lemma SkipSurvives(host: string, resources: Resources, earlier: Move, finalTarget: string, desired: set<string>,
                     later: Move, targets: Targets, moved: Resources)
    requires RootMove(host, earlier) && RootMove(host, later) && IsMoved(resources, later, targets, moved)
    requires later.from != earlier.from && later.to != earlier.to && later.to != earlier.from
    requires Decide(resources, earlier, finalTarget, desired) == Skip
    ensures Decide(moved, earlier, finalTarget, desired) == Skip
  {
    CarryElsewhere(host, resources, later, targets, moved, earlier.from);
    CarryElsewhere(host, resources, later, targets, moved, earlier.to);
    hide IsMoved, Tracks;
  }

  /** A move that was carried has nothing left to move. */
  lemma CarriedIsDone(host: string, resources: Resources, move: Move, finalTarget: string, desired: set<string>,
                      targets: Targets, moved: Resources)
    requires RootMove(host, move) && IsMoved(resources, move, targets, moved)
    ensures Decide(moved, move, finalTarget, desired) == Skip
  {
    CarryElsewhere(host, resources, move, targets, moved, move.from);
    hide IsMoved, Tracks;
  }

  ghost predicate Done(resources: Resources, moves: seq<Move>, finalTargets: map<string, string>,
                       desired: set<string>, n: nat)
    requires n <= |moves| && forall m :: m in moves ==> m.from in finalTargets
  {
    forall j :: 0 <= j < n ==> Decide(resources, moves[j], finalTargets[moves[j].from], desired) == Skip
  }

  lemma OneMoreDone(host: string, resources: Resources, moves: seq<Move>, finalTargets: map<string, string>,
                    desired: set<string>, targets: Targets, n: nat, next: Resources)
    requires (forall m :: m in moves ==> m.from in finalTargets) && (forall m :: m in moves ==> RootMove(host, m))
    requires InChainOrder(moves) && n < |moves| && Done(resources, moves, finalTargets, desired, n)
    requires match Decide(resources, moves[n], finalTargets[moves[n].from], desired)
             case Skip => next == resources
             case Carry => IsMoved(resources, moves[n], targets, next)
             case Fail(_) => false
    ensures Done(next, moves, finalTargets, desired, n + 1)
  {
    hide RootMove, Decide, IsMoved;
    assert moves[n] in moves;
    if Decide(resources, moves[n], finalTargets[moves[n].from], desired) == Carry {
      CarriedIsDone(host, resources, moves[n], finalTargets[moves[n].from], desired, targets, next);
      forall j | 0 <= j < n ensures Decide(next, moves[j], finalTargets[moves[j].from], desired) == Skip {
        assert moves[j] in moves;
        SkipSurvives(host, resources, moves[j], finalTargets[moves[j].from], desired, moves[n], targets, next);
      }
    }
  }

  /** After a resolution, every move resolved so far has nothing to do. */
  lemma {:induction false} ResolutionIsDone(host: string, moves: seq<Move>, finalTargets: map<string, string>,
                                            desired: set<string>, targets: Targets, path: seq<Resources>)
    requires (forall m :: m in moves ==> m.from in finalTargets) && (forall m :: m in moves ==> RootMove(host, m))
    requires InChainOrder(moves) && Resolves(moves, finalTargets, desired, targets, path)
    ensures |path| <= |moves| + 1 && Done(path[|path| - 1], moves, finalTargets, desired, |path| - 1)
    decreases |path|
  {
    hide RootMove, Decide, IsMoved, InChainOrder;
    if |path| > 1 {
      var n := |path| - 2;
      ResolvedPrefix(moves, finalTargets, desired, targets, path);
      ResolvedLast(moves, finalTargets, desired, targets, path, n);
      ResolutionIsDone(host, moves, finalTargets, desired, targets, path[..n + 1]);
      OneMoreDone(host, path[n], moves, finalTargets, desired, targets, n, path[n + 1]);
    }
  }

  ghost predicate StaysAt(path: seq<Resources>, resources: Resources)
  {
    forall i :: 0 <= i < |path| ==> path[i] == resources
  }

  lemma {:induction false} NothingDone(moves: seq<Move>, finalTargets: map<string, string>, desired: set<string>,
                                       targets: Targets, resources: Resources, path: seq<Resources>)
    requires forall m :: m in moves ==> m.from in finalTargets
    requires Done(resources, moves, finalTargets, desired, |moves|)
    requires Resolves(moves, finalTargets, desired, targets, path) && path[0] == resources
    ensures StaysAt(path, resources)
    ensures Realized(moves, finalTargets, desired, path) == [] && Carried(moves, finalTargets, desired, path) == []
    decreases |path|
  {
    hide Decide, IsMoved, Hops;
    if |path| > 1 {
      var n := |path| - 2;
      ResolvedPrefix(moves, finalTargets, desired, targets, path);
      ResolvedLast(moves, finalTargets, desired, targets, path, n);
      CarriedLast(moves, finalTargets, desired, path);
      RealizedLast(moves, finalTargets, desired, path);
      hide Resolves, Realized, Carried;
      NothingDone(moves, finalTargets, desired, targets, resources, path[..n + 1]);
      assert path[n] == path[..n + 1][n];
      forall i | 0 <= i < |path| ensures path[i] == resources {
        if i <= n { assert path[i] == path[..n + 1][i]; }
      }
    } else {
      CarriedNothing(moves, finalTargets, desired, path);
    }
  }

  lemma RealizedLast(moves: seq<Move>, finalTargets: map<string, string>, desired: set<string>, path: seq<Resources>)
    requires forall m :: m in moves ==> m.from in finalTargets
    requires 2 <= |path| <= |moves| + 1
    ensures var n := |path| - 2;
            Realized(moves, finalTargets, desired, path) ==
            Realized(moves, finalTargets, desired, path[..n + 1]) +
            if Decide(path[n], moves[n], finalTargets[moves[n].from], desired) == Carry then Hops(path[n], moves[n]) else []
  {
    hide Decide, Hops;
  }

  lemma DoneAlike(a: Resources, b: Resources, moves: seq<Move>, finalTargets: map<string, string>, desired: set<string>)
    requires (forall m :: m in moves ==> m.from in finalTargets) && a.Keys == b.Keys
    requires Done(a, moves, finalTargets, desired, |moves|)
    ensures Done(b, moves, finalTargets, desired, |moves|)
  {
    hide Decide, Hops;
    forall j | 0 <= j < |moves| ensures Decide(b, moves[j], finalTargets[moves[j].from], desired) == Skip {
      SameDecision(a, b, moves[j], finalTargets[moves[j].from], desired);
    }
  }

  lemma BindableAlike(host: string, names: Names, a: Resources, b: Resources, desired: set<string>)
    requires a.Keys == b.Keys && Bindable(host, names, a, desired)
    ensures Bindable(host, names, b, desired)
  {
    hide Under, NameOf, Physical;
    assert forall r :: Tracks(a, r) <==> Tracks(b, r);
  }

  /** A run that stays at one state: it realizes no move, does not stop at one, and keeps the names, which can be bound. */
  ghost predicate MovesNothing(host: string, names: Names, desired: set<string>, targets: Targets, moves: seq<Move>,
                               finalTargets: map<string, string>, path: seq<Resources>, resources: Resources)
    requires (forall m :: m in moves ==> m.from in finalTargets) && 1 <= |path| <= |moves| + 1
  {
    && StaysAt(path, resources) && Realized(moves, finalTargets, desired, path) == []
    && (|path| <= |moves| ==>
          var n := |path| - 1;
          forall error :: !Stops(path[n], moves[n], finalTargets[moves[n].from], desired, targets, error))
    && (|path| == |moves| + 1 ==> NamesLeft(host, names, desired, moves, finalTargets, path) == names)
    && Bindable(host, names, resources, desired)
  }

  /** Resolving the same declared moves again, against any state with the addresses that a resolution left, moves
      nothing, cannot stop at a move, and leaves names and bindings as they are. */
  lemma ResolvedAgain(host: string, resources: Resources, names: Names, declarations: seq<Move>, desired: set<string>,
                      t: Targets, u: Targets,
                      moves: seq<Move>, finalTargets: map<string, string>, path: seq<Resources>, result: Resolved,
                      stored: Resources, moves': seq<Move>, finalTargets': map<string, string>, path': seq<Resources>)
    requires Ran(host, resources, declarations, desired, t, moves, finalTargets, path)
    requires (forall m :: m in moves ==> m.from in finalTargets) && |path| == |moves| + 1
    requires Leaves(host, names, desired, moves, finalTargets, path, result)
    requires stored.Keys == result.resources.Keys
    requires Ran(host, stored, declarations, desired, u, moves', finalTargets', path')
    requires (forall m :: m in moves' ==> m.from in finalTargets') && 1 <= |path'| <= |moves'| + 1
    ensures MovesNothing(host, result.names, desired, u, moves', finalTargets', path', stored)
  {
    RanParts(host, resources, declarations, desired, t, moves, finalTargets, path);
    RanParts(host, stored, declarations, desired, u, moves', finalTargets', path');
    RanStart(host, stored, declarations, desired, u, moves', finalTargets', path');
    SameMoves(host, resources, stored, declarations, desired, t, u, moves, finalTargets, path, moves', finalTargets',
              path');
    hide InDepthOrder, Screened, FinalTargets, Resolves, Realized, Carried, NamesAlong, Pruned, Physical, Bindable, InChainOrder,
      RootsApart, Done, Decide, Stops, Ran, RootMove;
    ResolutionIsDone(host, moves, finalTargets, desired, t, path);
    DoneAlike(result.resources, stored, moves, finalTargets, desired);
    NothingDone(moves, finalTargets, desired, u, stored, path');
    BindableAlike(host, result.names, result.resources, stored, desired);
    if |path'| <= |moves'| {
      DoneNeverStops(stored, moves, finalTargets, desired, u, |path'| - 1);
    } else {
      PrunedAgain(host, NamesAlong(host, Pruned(names, path[0]), Carried(moves, finalTargets, desired, path)),
                  result.resources, stored, result.names);
      NoneRenamed(host, Pruned(result.names, stored));
    }
  }

  lemma SameMoves(host: string, resources: Resources, stored: Resources, declarations: seq<Move>, desired: set<string>,
                  t: Targets, u: Targets,
                  moves: seq<Move>, finalTargets: map<string, string>, path: seq<Resources>,
                  moves': seq<Move>, finalTargets': map<string, string>, path': seq<Resources>)
    requires Ran(host, resources, declarations, desired, t, moves, finalTargets, path)
    requires Ran(host, stored, declarations, desired, u, moves', finalTargets', path')
    ensures moves == moves' && finalTargets == finalTargets'
  {
    hide InDepthOrder, FinalTargets, Resolves, Screened;
    DepthOrderUnique(moves, moves');
    FinalTargetsUnique(moves, finalTargets, finalTargets');
  }

  lemma DoneNeverStops(resources: Resources, moves: seq<Move>, finalTargets: map<string, string>, desired: set<string>,
                       targets: Targets, n: nat)
    requires (forall m :: m in moves ==> m.from in finalTargets) && n < |moves|
    requires Done(resources, moves, finalTargets, desired, |moves|)
    ensures forall error :: !Stops(resources, moves[n], finalTargets[moves[n].from], desired, targets, error)
  {
    hide Decide;
  }

  lemma PrunedAgain(host: string, along: Names, resources: Resources, stored: Resources, names: Names)
    requires names == Pruned(along, resources) && stored.Keys == resources.Keys
    ensures Pruned(names, stored) == names && Pruned(Pruned(names, stored), stored) == names
  {
    hide Under;
    forall r ensures Tracks(resources, r) <==> Tracks(stored, r) {
    }
  }

  lemma NoneRenamed(host: string, names: Names)
    ensures NamesAlong(host, names, []) == names
  {
  }

  /** And resolving them again against the same state with the same targets gives the same states throughout. */
  lemma {:induction false} SamePathExactly(moves: seq<Move>, finalTargets: map<string, string>, desired: set<string>,
                                           targets: Targets, p: seq<Resources>, q: seq<Resources>)
    requires forall m :: m in moves ==> m.from in finalTargets
    requires Resolves(moves, finalTargets, desired, targets, p) && Resolves(moves, finalTargets, desired, targets, q)
    requires |p| == |q| && p[0] == q[0]
    ensures p == q
    decreases |p|
  {
    hide IsMoved, Decide, Resolves;
    if |p| > 1 {
      var n := |p| - 2;
      ResolvedPrefix(moves, finalTargets, desired, targets, p);
      ResolvedPrefix(moves, finalTargets, desired, targets, q);
      SamePathExactly(moves, finalTargets, desired, targets, p[..n + 1], q[..n + 1]);
      assert p[..n + 1][n] == p[n] && q[..n + 1][n] == q[n];
      ResolvedBounds(moves, finalTargets, desired, targets, p);
      ResolvedLast(moves, finalTargets, desired, targets, p, n);
      ResolvedLast(moves, finalTargets, desired, targets, q, n);
      if Decide(p[n], moves[n], finalTargets[moves[n].from], desired) == Carry {
        MovedOnce(p[n], moves[n], targets, p[n + 1], q[n + 1]);
      }
      assert p == p[..n + 1] + [p[n + 1]] && q == q[..n + 1] + [q[n + 1]];
    }
  }

  lemma MovedOnce(resources: Resources, move: Move, targets: Targets, a: Resources, b: Resources)
    requires IsMoved(resources, move, targets, a) && IsMoved(resources, move, targets, b)
    ensures a == b
  {
    MovedPlaces(resources, resources, move, targets, targets, a, b);
    hide Rebase, MovedResource;
    forall x | x in a ensures a[x] == b[x] {
      var y :| y in resources && x == Rebase(y, move.from, move.to);
    }
  }
}
