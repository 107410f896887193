/** The bounded worker pool as a transition system: one sender, its workers and the surrounding context, under
    every schedule and every outcome of the work. */
module WorkerPool {
  import opened Model

  datatype Error = Error(text: string)

  /** What one call of the work function returned. */
  type Outcome = Option<Error>

  datatype Worker = Receiving | Working(index: nat) | Reporting(error: Error) | Exited

  datatype PoolResult = Success | WorkFailed(error: Error) | ContextDone

  /** started and returned record the calls of the work function; they steer nothing. */
  datatype State = State(
    count: nat,
    next: nat,
    sending: bool,
    workers: seq<Worker>,
    firstError: Option<Error>,
    parentDone: bool,
    workDone: bool,
    result: Option<PoolResult>,
    started: seq<nat>,
    returned: map<nat, Outcome>)

  datatype Event =
    | CancelParent
    | HandOff(worker: nat)
    | StopSending
    | CloseJobs
    | WorkReturns(worker: nat, outcome: Outcome)
    | Report(worker: nat)
    | Exit(worker: nat)
    | Finish

  /** The state after the workers are spawned; without jobs the pool returns at once, whatever the context. */
  function Start(count: nat, parallel: int, parentDone: bool): State
  {
    var size := if parallel > count then count else if parallel < 0 then 0 else parallel;
    State(count, 0, count > 0, if count == 0 then [] else seq(size, _ => Receiving), None, parentDone, parentDone,
          if count == 0 then Some(Success) else None, [], map[])
  }

  predicate Enabled(s: State, e: Event)
  {
    s.result.None? &&
    match e
    case CancelParent => !s.parentDone
    case HandOff(w) => s.sending && s.next < s.count && w < |s.workers| && s.workers[w].Receiving?
    case StopSending => s.sending && s.next < s.count && s.workDone
    case CloseJobs => s.sending && s.next >= s.count
    case WorkReturns(w, _) => w < |s.workers| && s.workers[w].Working?
    case Report(w) => w < |s.workers| && s.workers[w].Reporting?
    case Exit(w) => !s.sending && w < |s.workers| && s.workers[w].Receiving?
    case Finish => !s.sending && forall w :: 0 <= w < |s.workers| ==> s.workers[w].Exited?
  }

  function Next(s: State, e: Event): State
    requires Enabled(s, e)
  {
    match e
    case CancelParent => s.(parentDone := true, workDone := true)
    case HandOff(w) => s.(next := s.next + 1, workers := s.workers[w := Working(s.next)], started := s.started + [s.next])
    case StopSending => s.(sending := false)
    case CloseJobs => s.(sending := false)
    case WorkReturns(w, outcome) =>
      s.(workers := s.workers[w := if outcome.Some? then Reporting(outcome.value) else Receiving],
         returned := s.returned[s.workers[w].index := outcome])
    case Report(w) =>
      s.(workers := s.workers[w := Receiving],
         firstError := if s.firstError.None? then Some(s.workers[w].error) else s.firstError,
         workDone := true)
    case Exit(w) => s.(workers := s.workers[w := Exited])
    case Finish =>
      s.(result := Some(if s.firstError.Some? then WorkFailed(s.firstError.value)
                        else if s.parentDone then ContextDone else Success))
  }

  predicate Run(s: State, events: seq<Event>)
    decreases |events|
  {
    events == [] || (Enabled(s, events[0]) && Run(Next(s, events[0]), events[1..]))
  }

  function After(s: State, events: seq<Event>): State
    requires Run(s, events)
    decreases |events|
  {
    if events == [] then s else After(Next(s, events[0]), events[1..])
  }

  /** The indices whose work is under way. */
  function Running(s: State): set<nat>
  {
    set i | i in s.started && i !in s.returned
  }

  predicate Failed(s: State, error: Error)
  {
    exists i :: i in s.returned && s.returned[i] == Some(error)
  }

  predicate Sent(s: State)
  {
    && s.next <= s.count
    && |s.started| == s.next
    && (forall k :: 0 <= k < s.next ==> s.started[k] == k)
    && (!s.sending && s.next < s.count ==> s.workDone)
    && (s.workDone <==> s.parentDone || s.firstError.Some?)
    && (s.sending ==> Exited !in s.workers)
  }

  predicate Tracked(s: State)
  {
    && (forall w :: 0 <= w < |s.workers| && s.workers[w].Working? ==>
          s.workers[w].index < s.next && s.workers[w].index !in s.returned)
    && (forall v, w :: 0 <= v < w < |s.workers| && s.workers[v].Working? && s.workers[w].Working? ==>
          s.workers[v].index != s.workers[w].index)
    && (forall i :: i in s.returned ==> i < s.next)
    && (forall i :: 0 <= i < s.next && i !in s.returned ==> Working(i) in s.workers)
  }

  predicate Reported(s: State)
  {
    && (s.firstError.Some? ==> Failed(s, s.firstError.value))
    && (forall w :: 0 <= w < |s.workers| && s.workers[w].Reporting? ==> Failed(s, s.workers[w].error))
    && (forall i :: i in s.returned && s.returned[i].Some? ==>
          s.firstError.Some? || exists w :: 0 <= w < |s.workers| && s.workers[w].Reporting?)
  }

  /** Nobody is left, and the verdict is the one the pool's last lines compute. */
  predicate Ended(s: State)
  {
    s.result.Some? && s.count > 0 ==>
      && !s.sending
      && (forall w :: 0 <= w < |s.workers| ==> s.workers[w].Exited?)
      && s.result.value == (if s.firstError.Some? then WorkFailed(s.firstError.value)
                            else if s.parentDone then ContextDone else Success)
  }

  predicate Inv(s: State)
  {
    && Sent(s) && Tracked(s) && Reported(s) && Ended(s)
    && (s.count == 0 ==> s.result == Some(Success))
  }

  lemma SentNext(s: State, e: Event)
    requires Inv(s) && Enabled(s, e)
    ensures Sent(Next(s, e))
  {
  }

  lemma TrackedNext(s: State, e: Event)
    requires Inv(s) && Enabled(s, e)
    ensures Tracked(Next(s, e))
  {
    match e
    case HandOff(_) => TrackedHandOff(s, e);
    case WorkReturns(_, _) => TrackedReturn(s, e);
    case Report(_) => TrackedElsewhere(s, e);
    case Exit(_) => TrackedElsewhere(s, e);
    case _ =>
  }

  lemma TrackedHandOff(s: State, e: Event)
    requires Tracked(s) && Sent(s) && e.HandOff? && Enabled(s, e)
    ensures Tracked(Next(s, e))
  {
    var t := Next(s, e);
    assert t.workers[e.worker] == Working(s.next);
    forall i | 0 <= i < s.next && i !in t.returned ensures Working(i) in t.workers {
      var w :| 0 <= w < |s.workers| && s.workers[w] == Working(i);
      assert t.workers[w] == Working(i);
    }
  }

  lemma TrackedReturn(s: State, e: Event)
    requires Tracked(s) && e.WorkReturns? && Enabled(s, e)
    ensures Tracked(Next(s, e))
  {
    var t := Next(s, e);
    forall i | 0 <= i < t.next && i !in t.returned ensures Working(i) in t.workers {
      var w :| 0 <= w < |s.workers| && s.workers[w] == Working(i);
      assert t.workers[w] == Working(i);
    }
  }

  lemma TrackedElsewhere(s: State, e: Event)
    requires Tracked(s) && (e.Report? || e.Exit?) && Enabled(s, e)
    ensures Tracked(Next(s, e))
  {
    var t := Next(s, e);
    forall i | 0 <= i < t.next && i !in t.returned ensures Working(i) in t.workers {
      var w :| 0 <= w < |s.workers| && s.workers[w] == Working(i);
      assert t.workers[w] == Working(i);
    }
  }

  lemma ReportedNext(s: State, e: Event)
    requires Inv(s) && Enabled(s, e)
    ensures Reported(Next(s, e))
  {
    var t := Next(s, e);
    forall error | Failed(s, error) ensures Failed(t, error) {
      var i :| i in s.returned && s.returned[i] == Some(error);
      assert t.returned[i] == Some(error);
    }
    if e.WorkReturns? && e.outcome.Some? {
      var i := s.workers[e.worker].index;
      assert t.returned[i] == Some(e.outcome.value);
      assert t.workers[e.worker].Reporting?;
    }
    forall i | i in t.returned && t.returned[i].Some? && t.firstError.None?
      ensures exists w :: 0 <= w < |t.workers| && t.workers[w].Reporting?
    {
      if i in s.returned && s.returned[i] == t.returned[i] {
        var w :| 0 <= w < |s.workers| && s.workers[w].Reporting?;
        assert t.workers[w].Reporting?;
      }
    }
  }

  lemma NextInv(s: State, e: Event)
    requires Inv(s) && Enabled(s, e)
    ensures Inv(Next(s, e))
  {
    SentNext(s, e);
    TrackedNext(s, e);
    ReportedNext(s, e);
  }

  lemma {:induction false} RunInv(s: State, events: seq<Event>)
    requires Inv(s) && Run(s, events)
    ensures var t := After(s, events); Inv(t) && t.count == s.count && |t.workers| == |s.workers| && (s.parentDone ==> t.parentDone)
    decreases |events|
  {
    hide Inv;
    if events != [] {
      NextInv(s, events[0]);
      RunInv(Next(s, events[0]), events[1..]);
    }
  }

  lemma StartInv(count: nat, parallel: int, parentDone: bool)
    ensures Inv(Start(count, parallel, parentDone))
  {
  }

  predicate NoDuplicates(s: seq<nat>)
  {
    forall i, j :: 0 <= i < j < |s| ==> s[i] != s[j]
  }

  /** Each index is handed to the work function at most once, in order, and never one the caller did not ask for. */
  lemma EachIndexOnce(count: nat, parallel: int, parentDone: bool, events: seq<Event>)
    requires Run(Start(count, parallel, parentDone), events)
    ensures var s := After(Start(count, parallel, parentDone), events);
            && NoDuplicates(s.started) && |s.started| <= count && (forall k :: 0 <= k < |s.started| ==> s.started[k] == k)
            && (forall i :: i in s.started ==> i < count)
            && (forall i :: i in s.returned ==> i in s.started)
  {
    StartInv(count, parallel, parentDone);
    RunInv(Start(count, parallel, parentDone), events);
    var s := After(Start(count, parallel, parentDone), events);
    forall i | i in s.returned ensures i in s.started {
      assert s.started[i] == i;
    }
  }

  function Indices(workers: seq<Worker>): (r: set<nat>)
    ensures forall i :: i in r <==> Working(i) in workers
    ensures |r| <= |workers|
  {
    if workers == [] then {}
    else
      var rest := Indices(workers[1..]);
      assert workers == [workers[0]] + workers[1..];
      if workers[0].Working? then rest + {workers[0].index} else rest
  }

  /** No more than the requested number of calls are ever under way at the same time. */
  lemma AtMostParallel(count: nat, parallel: int, parentDone: bool, events: seq<Event>)
    requires Run(Start(count, parallel, parentDone), events)
    ensures var s := After(Start(count, parallel, parentDone), events);
            |Running(s)| <= (if parallel < 0 then 0 else parallel) && |Running(s)| <= count
  {
    StartInv(count, parallel, parentDone);
    RunInv(Start(count, parallel, parentDone), events);
    var s := After(Start(count, parallel, parentDone), events);
    assert Running(s) == Indices(s.workers) by {
      forall i | i in Running(s) ensures i in Indices(s.workers) {
        assert s.started[i] == i;
      }
      forall i | i in Indices(s.workers) ensures i in Running(s) {
        assert s.started[i] == i;
      }
    }
  }

  /** A nil result means exactly that every index ran and returned nil, and the context was still alive. */
  lemma SuccessMeansAllSucceeded(count: nat, parallel: int, parentDone: bool, events: seq<Event>)
    requires Run(Start(count, parallel, parentDone), events)
    requires After(Start(count, parallel, parentDone), events).result.Some?
    ensures var s := After(Start(count, parallel, parentDone), events);
            s.result.value == Success <==>
              (forall i :: 0 <= i < count ==> i in s.returned && s.returned[i] == None) && (count == 0 || !s.parentDone)
  {
    StartInv(count, parallel, parentDone);
    RunInv(Start(count, parallel, parentDone), events);
    var s := After(Start(count, parallel, parentDone), events);
    if s.firstError.Some? {
      assert Failed(s, s.firstError.value);
    }
  }

  /** Once any work failed, the result is an error some work returned; and a work error is never invented. */
  lemma FailureIsReported(count: nat, parallel: int, parentDone: bool, events: seq<Event>)
    requires Run(Start(count, parallel, parentDone), events)
    requires After(Start(count, parallel, parentDone), events).result.Some?
    ensures var s := After(Start(count, parallel, parentDone), events);
            && (s.result.value.WorkFailed? <==> exists i :: i in s.returned && s.returned[i].Some?)
            && (s.result.value.WorkFailed? ==> Failed(s, s.result.value.error))
            && (s.result.value == ContextDone ==> s.parentDone)
  {
    StartInv(count, parallel, parentDone);
    RunInv(Start(count, parallel, parentDone), events);
    var s := After(Start(count, parallel, parentDone), events);
    if s.firstError.Some? {
      var i :| i in s.returned && s.returned[i] == s.firstError;
    }
  }

  lemma {:induction false} RunSplit(s: State, a: seq<Event>, b: seq<Event>)
    requires Run(s, a + b)
    ensures Run(s, a) && Run(After(s, a), b) && After(s, a + b) == After(After(s, a), b)
    decreases |a|
  {
    hide Enabled, Next;
    if a == [] {
      assert a + b == b;
    } else {
      assert (a + b)[1..] == a[1..] + b;
      RunSplit(Next(s, a[0]), a[1..], b);
    }
  }

  lemma {:induction false} FirstErrorStays(s: State, events: seq<Event>)
    requires Run(s, events) && s.firstError.Some?
    ensures After(s, events).firstError == s.firstError
    ensures After(s, events).result.Some? && s.result.None? ==> After(s, events).result == Some(WorkFailed(s.firstError.value))
    decreases |events|
  {
    if events != [] {
      if events[0].Finish? {
        FinishedIsLast(Next(s, events[0]), events[1..]);
      } else {
        FirstErrorStays(Next(s, events[0]), events[1..]);
      }
    }
  }

  lemma FinishedIsLast(s: State, events: seq<Event>)
    requires Run(s, events) && s.result.Some?
    ensures events == []
  {
  }

  lemma {:induction false} NoErrorYet(s: State, events: seq<Event>)
    requires Run(s, events) && s.firstError.None? && forall e :: e in events ==> !e.Report?
    ensures After(s, events).firstError.None?
    decreases |events|
  {
    if events != [] {
      NoErrorYet(Next(s, events[0]), events[1..]);
    }
  }

  /** The error that counts is the first one reported: whatever happens afterwards, it is the result. */
  lemma FirstReportWins(s: State, before: seq<Event>, worker: nat, after: seq<Event>)
    requires Run(s, before + ([Report(worker)] + after)) && s.firstError.None?
    requires forall e :: e in before ==> !e.Report?
    ensures Run(s, before) && worker < |After(s, before).workers| && After(s, before).workers[worker].Reporting?
    ensures var t, error := After(s, before + ([Report(worker)] + after)), After(s, before).workers[worker].error;
            t.firstError == Some(error) && (t.result.Some? ==> t.result == Some(WorkFailed(error)))
  {
    RunSplit(s, before, [Report(worker)] + after);
    NoErrorYet(s, before);
    var mid := After(s, before);
    RunSplit(mid, [Report(worker)], after);
    assert ([Report(worker)] + after)[1..] == after;
    FirstErrorStays(Next(mid, Report(worker)), after);
  }

  lemma {:induction false} RunExtend(s: State, events: seq<Event>, e: Event)
    requires Run(s, events) && Enabled(After(s, events), e)
    ensures Run(s, events + [e]) && After(s, events + [e]) == Next(After(s, events), e)
    decreases |events|
  {
    hide Enabled, Next;
    if events == [] {
      assert events + [e] == [e];
    } else {
      RunExtend(Next(s, events[0]), events[1..], e);
      assert (events + [e])[1..] == events[1..] + [e];
    }
  }

  /** The first k workers hold the first k indices, and nothing else has happened. */
  predicate HandedOut(s: State, count: nat, k: nat)
  {
    && s.result.None? && s.sending && s.count == count && s.next == k && k <= |s.workers| && s.returned == map[]
    && |s.started| == k && (forall i :: 0 <= i < k ==> s.started[i] == i)
    && forall w :: 0 <= w < |s.workers| ==> s.workers[w] == if w < k then Working(w) else Receiving
  }

  lemma {:induction false} HandOut(count: nat, parallel: int, k: nat) returns (events: seq<Event>)
    requires 0 < count && k <= count && k <= parallel
    ensures Run(Start(count, parallel, false), events)
    ensures HandedOut(After(Start(count, parallel, false), events), count, k)
    ensures |After(Start(count, parallel, false), events).workers| == if parallel < count then parallel else count
    decreases k
  {
    var s := Start(count, parallel, false);
    if k == 0 {
      events := [];
    } else {
      events := HandOut(count, parallel, k - 1);
      RunExtend(s, events, HandOff(k - 1));
      hide Run, After, Start;
      events := events + [HandOff(k - 1)];
    }
  }

  /** The bound is reached: as many calls can be under way as workers were asked for, or as there are indices. */
  lemma FullyParallel(count: nat, parallel: int) returns (events: seq<Event>)
    requires count > 0 && parallel > 0
    ensures Run(Start(count, parallel, false), events)
    ensures |Running(After(Start(count, parallel, false), events))| == if parallel < count then parallel else count
  {
    var k := if parallel < count then parallel else count;
    events := HandOut(count, parallel, k);
    var s := After(Start(count, parallel, false), events);
    hide Run, After, Start;
    forall i | i in UpTo(k) ensures i in Running(s) {
      assert s.started[i] == i;
    }
    assert Running(s) == UpTo(k);
  }

  function UpTo(k: nat): (r: set<nat>)
    ensures |r| == k && forall i: nat :: i in r <==> i < k
  {
    if k == 0 then {} else UpTo(k - 1) + {k - 1}
  }

  /** Nothing can happen any more short of the caller cancelling, and the pool has not returned. */
  ghost predicate Stuck(s: State)
  {
    s.result.None? && forall e: Event :: Enabled(s, e) ==> e.CancelParent?
  }

  ghost predicate GetsStuck(s: State, events: seq<Event>)
  {
    Run(s, events) && Stuck(After(s, events))
  }

  lemma Moves(s: State) returns (e: Event)
    requires Inv(s) && s.result.None? && (|s.workers| > 0 || s.workDone)
    ensures Enabled(s, e) && !e.CancelParent?
  {
    if w: nat :| w < |s.workers| && s.workers[w].Working? {
      return WorkReturns(w, None);
    }
    if w: nat :| w < |s.workers| && s.workers[w].Reporting? {
      return Report(w);
    }
    if w: nat :| w < |s.workers| && s.workers[w].Receiving? {
      return if !s.sending then Exit(w) else if s.next < s.count then HandOff(w) else CloseJobs;
    }
    forall w | 0 <= w < |s.workers| ensures s.workers[w] == Exited {
    }
    if s.sending {
      assert |s.workers| > 0 ==> s.workers[0] == Exited;
      return if s.next < s.count then StopSending else CloseJobs;
    }
    return Finish;
  }

  /** The pool can deadlock exactly when it is given work but no worker and the context is alive. */
  lemma StuckOnlyWithoutWorkers(count: nat, parallel: int, parentDone: bool)
    ensures (exists events :: GetsStuck(Start(count, parallel, parentDone), events))
            <==> count > 0 && parallel <= 0 && !parentDone
  {
    var s := Start(count, parallel, parentDone);
    if count > 0 && parallel <= 0 && !parentDone {
      assert GetsStuck(s, []);
    } else {
      StartInv(count, parallel, parentDone);
      forall events | Run(s, events) ensures !GetsStuck(s, events) {
        RunInv(s, events);
        if After(s, events).result.None? {
          var e := Moves(After(s, events));
        }
      }
    }
  }

  /** parallelism: the number of workers asked for, or the engine's, or one. validate has refused a negative
      engine setting, and a negative override is an error. */
  function Parallelism(override: int, configured: nat): Option<int>
  {
    if override < 0 then None
    else if override > 0 then Some(override)
    else if configured > 0 then Some(configured)
    else Some(1)
  }

  /** As the engine calls it, the pool never deadlocks. */
  lemma EngineNeverStuck(override: int, configured: nat, count: nat, parentDone: bool, events: seq<Event>)
    requires Parallelism(override, configured).Some?
    requires Run(Start(count, Parallelism(override, configured).value, parentDone), events)
    ensures !Stuck(After(Start(count, Parallelism(override, configured).value, parentDone), events))
    ensures override >= 0 &&
            Parallelism(override, configured).value == if override > 0 then override else if configured > 0 then configured else 1
  {
    var s := Start(count, Parallelism(override, configured).value, parentDone);
    StuckOnlyWithoutWorkers(count, Parallelism(override, configured).value, parentDone);
    assert !GetsStuck(s, events);
  }

  function Weight(worker: Worker): nat
  {
    match worker
    case Working(_) => 3
    case Reporting(_) => 2
    case Receiving => 1
    case Exited => 0
  }

  function Weights(workers: seq<Worker>): nat
  {
    if workers == [] then 0 else Weights(workers[..|workers| - 1]) + Weight(workers[|workers| - 1])
  }

  lemma {:induction false} WeightsUpdate(workers: seq<Worker>, w: nat, worker: Worker)
    requires w < |workers|
    ensures Weights(workers[w := worker]) + Weight(workers[w]) == Weights(workers) + Weight(worker)
  {
    var last := |workers| - 1;
    if w == last {
      assert workers[w := worker][..last] == workers[..last];
    } else {
      WeightsUpdate(workers[..last], w, worker);
      assert workers[w := worker][..last] == workers[..last][w := worker];
    }
  }

  lemma {:induction false} WeightsReceiving(workers: seq<Worker>)
    requires forall w :: 0 <= w < |workers| ==> workers[w].Receiving?
    ensures Weights(workers) == |workers|
  {
    if workers != [] {
      WeightsReceiving(workers[..|workers| - 1]);
    }
  }

  /** Every event uses some of this up. */
  function Remaining(s: State): int
  {
    3 * (s.count - s.next) + Weights(s.workers) + (if s.sending then 1 else 0) + (if s.parentDone then 0 else 1)
    + (if s.result.None? then 1 else 0)
  }

  lemma RemainingShrinks(s: State, e: Event)
    requires Enabled(s, e)
    ensures Remaining(Next(s, e)) < Remaining(s)
  {
    match e {
      case HandOff(w) => WeightsUpdate(s.workers, w, Working(s.next));
      case WorkReturns(w, outcome) =>
        WeightsUpdate(s.workers, w, if outcome.Some? then Reporting(outcome.value) else Receiving);
      case Report(w) => WeightsUpdate(s.workers, w, Receiving);
      case Exit(w) => WeightsUpdate(s.workers, w, Exited);
      case _ =>
    }
  }

  lemma {:induction false} RunShrinks(s: State, events: seq<Event>)
    requires Inv(s) && Run(s, events)
    ensures |events| + Remaining(After(s, events)) <= Remaining(s)
    decreases |events|
  {
    hide Inv, Remaining;
    if events != [] {
      NextInv(s, events[0]);
      RemainingShrinks(s, events[0]);
      RunShrinks(Next(s, events[0]), events[1..]);
    }
  }

  /** No schedule goes on for ever: if every call of the work function returns, the pool does. */
  lemma SchedulesEnd(count: nat, parallel: int, parentDone: bool, events: seq<Event>)
    requires Run(Start(count, parallel, parentDone), events)
    ensures |events| <= 4 * count + 3
  {
    var s := Start(count, parallel, parentDone);
    StartInv(count, parallel, parentDone);
    RunShrinks(s, events);
    RunInv(s, events);
    WeightsReceiving(s.workers);
  }
}
