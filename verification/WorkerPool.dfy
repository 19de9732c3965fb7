/**
 The bounded worker pool: workers share a claim counter, an error flag, the first error and the results.

 One event is one stretch of code between two awaits: a worker's start, or the settling of its task together
 with everything the worker does until it awaits its next task or returns. Runs are arbitrary interleavings.
 */
module WorkerPool {
  import opened Prelude

  datatype ErrorMode = ContinueMode | StopMode

  datatype Outcome<T, E> = Fulfilled(value: T) | Rejected(error: E)

  /** `Died`: the error callback threw inside the worker. */
  datatype Worker = NotStarted | Busy(index: nat) | Returned | Died

  datatype Finish<T, E> = Finish(index: nat, outcome: Outcome<T, E>)

  /** `claimed` and `finished` record, in order of time, the tasks started and the tasks settled. */
  datatype Pool<T, E> = Pool(
    next: nat,
    hasError: bool,
    firstError: Option<E>,
    results: seq<Option<T>>,
    workers: seq<Worker>,
    claimed: seq<nat>,
    finished: seq<Finish<T, E>>
  )

  datatype Event<T, E> = Begin(w: nat) | Settle(w: nat, outcome: Outcome<T, E>, callbackThrows: bool)

  /** `Math.max(1, Math.min(limit, tasks.length))` */
  function ResolvedLimit(limit: int, tasks: nat): (r: nat)
    requires tasks > 0
    ensures 1 <= r <= tasks
    ensures 1 <= limit <= tasks ==> r == limit
    ensures limit > tasks ==> r == tasks
    ensures limit < 1 ==> r == 1
  {
    var smaller := if limit < tasks then limit else tasks;
    if smaller < 1 then 1 else smaller
  }

  function Initial<T, E>(tasks: nat, limit: int): Pool<T, E>
    requires tasks > 0
  {
    Pool(0, false, None, seq(tasks, _ => None), seq(ResolvedLimit(limit, tasks), _ => NotStarted), [], [])
  }

  predicate Enabled<T, E>(p: Pool<T, E>, e: Event<T, E>) {
    && e.w < |p.workers|
    && match e
       case Begin(w) => p.workers[w].NotStarted?
       case Settle(w, _, _) => p.workers[w].Busy? && p.workers[w].index < |p.results|
  }

  /** The top of the worker's loop: stop on error, else claim the next index, if there is one. */
  function TopOfLoop<T, E>(p: Pool<T, E>, w: nat, mode: ErrorMode): Pool<T, E>
    requires w < |p.workers|
  {
    if mode.StopMode? && p.hasError then p.(workers := p.workers[w := Returned])
    else if p.next >= |p.results| then p.(next := p.next + 1, workers := p.workers[w := Returned])
    else p.(next := p.next + 1, workers := p.workers[w := Busy(p.next)], claimed := p.claimed + [p.next])
  }

  function Step<T, E>(p: Pool<T, E>, e: Event<T, E>, mode: ErrorMode): Pool<T, E>
    requires Enabled(p, e)
  {
    match e
    case Begin(w) => TopOfLoop(p, w, mode)
    case Settle(w, outcome, callbackThrows) =>
      var index := p.workers[w].index;
      var logged := p.(finished := p.finished + [Finish(index, outcome)]);
      match outcome
      case Fulfilled(value) => TopOfLoop(logged.(results := p.results[index := Some(value)]), w, mode)
      case Rejected(error) =>
        var flagged := if p.hasError then logged else logged.(hasError := true, firstError := Some(error));
        if callbackThrows then flagged.(workers := p.workers[w := Died])
        else if mode.StopMode? then flagged.(workers := p.workers[w := Returned])
        else TopOfLoop(flagged, w, mode)
  }

  /** The variables shared by the workers of one `runWithConcurrency` call. */
  class Runner<T, E> {
    const mode: ErrorMode
    var next: nat
    var hasError: bool
    var firstError: Option<E>
    var results: seq<Option<T>>
    var workers: seq<Worker>
    ghost var claimed: seq<nat>
    ghost var finished: seq<Finish<T, E>>

    ghost function Current(): Pool<T, E>
      reads this
    {
      Pool(next, hasError, firstError, results, workers, claimed, finished)
    }

    constructor (tasks: nat, limit: int, mode: ErrorMode)
      requires tasks > 0
      ensures this.mode == mode && Current() == Initial(tasks, limit)
    {
      this.mode := mode;
      next, hasError, firstError := 0, false, None;
      results := seq(tasks, _ => None);
      workers := seq(ResolvedLimit(limit, tasks), _ => NotStarted);
      claimed, finished := [], [];
    }

    method ContinueLoop(w: nat)
      requires w < |workers|
      modifies this`next, this`workers, this`claimed
      ensures Current() == TopOfLoop(old(Current()), w, mode)
    {
      if mode == StopMode && hasError {
        workers := workers[w := Returned];
        return;
      }
      var index := next;
      next := next + 1;
      if index >= |results| {
        workers := workers[w := Returned];
        return;
      }
      workers := workers[w := Busy(index)];
      claimed := claimed + [index];
    }

    method BeginWorker(w: nat)
      requires Enabled(Current(), Begin(w))
      modifies this`next, this`workers, this`claimed
      ensures Current() == Step(old(Current()), Begin(w), mode)
    {
      ContinueLoop(w);
    }

    method SettleTask(w: nat, outcome: Outcome<T, E>, callbackThrows: bool)
      requires Enabled(Current(), Settle(w, outcome, callbackThrows))
      modifies this
      ensures Current() == Step(old(Current()), Settle(w, outcome, callbackThrows), mode)
    {
      var index := workers[w].index;
      finished := finished + [Finish(index, outcome)];
      match outcome {
        case Fulfilled(value) =>
          results := results[index := Some(value)];
        case Rejected(error) =>
          if !hasError {
            firstError := Some(error);
            hasError := true;
          }
          if callbackThrows {
            workers := workers[w := Died];
            return;
          }
          if mode == StopMode {
            workers := workers[w := Returned];
            return;
          }
      }
      ContinueLoop(w);
    }
  }

  // ------------------------------------------------------------------ runs

  function After<T, E>(tasks: nat, limit: int, mode: ErrorMode, events: seq<Event<T, E>>): Option<Pool<T, E>>
    requires tasks > 0
  {
    if events == [] then Some(Initial(tasks, limit))
    else
      match After(tasks, limit, mode, events[..|events| - 1])
      case None => None
      case Some(p) =>
        if Enabled(p, events[|events| - 1]) then Some(Step(p, events[|events| - 1], mode)) else None
  }

  // ------------------------------------------------------------------ the invariant

  /** The claimed indices are 0, 1, 2, ... in order, up to the counter or the number of tasks. */
  ghost predicate ClaimsInOrder<T, E>(p: Pool<T, E>) {
    && |p.claimed| == (if p.next <= |p.results| then p.next else |p.results|)
    && forall k :: 0 <= k < |p.claimed| ==> p.claimed[k] == k
  }

  ghost predicate IsFinished<T, E>(p: Pool<T, E>, i: int) {
    exists k :: 0 <= k < |p.finished| && p.finished[k].index == i
  }

  ghost predicate InFlight<T, E>(p: Pool<T, E>, i: int) {
    exists w :: 0 <= w < |p.workers| && p.workers[w].Busy? && p.workers[w].index == i
  }

  /** Busy workers hold different claimed tasks. */
  ghost predicate BusyApart<T, E>(p: Pool<T, E>) {
    && (forall w :: 0 <= w < |p.workers| && p.workers[w].Busy? ==> p.workers[w].index < |p.claimed|)
    && forall v, w :: 0 <= v < w < |p.workers| && p.workers[v].Busy? && p.workers[w].Busy? ==>
         p.workers[v].index != p.workers[w].index
  }

  /** Each finished task finished once, and is no longer in flight. */
  ghost predicate FinishedOnce<T, E>(p: Pool<T, E>) {
    && (forall k :: 0 <= k < |p.finished| ==> p.finished[k].index < |p.claimed|)
    && (forall j, k :: 0 <= j < k < |p.finished| ==> p.finished[j].index != p.finished[k].index)
    && forall k, w :: 0 <= k < |p.finished| && 0 <= w < |p.workers| && p.workers[w].Busy? ==>
         p.finished[k].index != p.workers[w].index
  }

  /** Each claimed task is in flight or finished. */
  ghost predicate NoneLost<T, E>(p: Pool<T, E>) {
    forall i :: 0 <= i < |p.claimed| ==> InFlight(p, i) || IsFinished(p, i)
  }

  /** Each success is stored at its own index, and nothing else is stored. */
  ghost predicate ResultsInPlace<T, E>(p: Pool<T, E>) {
    && (forall k :: 0 <= k < |p.finished| && p.finished[k].index < |p.results| ==>
          p.results[p.finished[k].index] ==
          match p.finished[k].outcome case Fulfilled(v) => Some(v) case Rejected(_) => None)
    && forall i :: 0 <= i < |p.results| && p.results[i].Some? ==> IsFinished(p, i)
  }

  /** The error of the earliest failure in time. */
  ghost function EarliestFailure<T, E>(finished: seq<Finish<T, E>>): Option<E> {
    if finished == [] then None
    else
      var init, last := finished[..|finished| - 1], finished[|finished| - 1].outcome;
      if EarliestFailure(init).Some? then EarliestFailure(init)
      else if last.Rejected? then Some(last.error) else None
  }

  ghost predicate FirstErrorOk<T, E>(p: Pool<T, E>) {
    p.firstError == EarliestFailure(p.finished) && p.hasError == p.firstError.Some?
  }

  /** A worker that returned found the tasks used up, or in stop mode an error. */
  ghost predicate ReturnsForAReason<T, E>(p: Pool<T, E>, mode: ErrorMode) {
    forall w :: 0 <= w < |p.workers| && p.workers[w].Returned? ==>
      p.next > |p.results| || (mode.StopMode? && p.hasError)
  }

  ghost predicate Inv<T, E>(p: Pool<T, E>, mode: ErrorMode) {
    && ClaimsInOrder(p) && BusyApart(p) && FinishedOnce(p) && NoneLost(p)
    && ResultsInPlace(p) && FirstErrorOk(p) && ReturnsForAReason(p, mode)
  }

  /** The invariant of a pool whose worker w is between tasks. */
  ghost predicate InvAtTop<T, E>(p: Pool<T, E>, w: nat, mode: ErrorMode) {
    w < |p.workers| && Inv(p.(workers := p.workers[w := NotStarted]), mode)
  }

  lemma TopOfLoopKeepsInv<T, E>(p: Pool<T, E>, w: nat, mode: ErrorMode)
    requires InvAtTop(p, w, mode)
    ensures Inv(TopOfLoop(p, w, mode), mode)
  {
    var idle, after := p.(workers := p.workers[w := NotStarted]), TopOfLoop(p, w, mode);
    assert forall v :: 0 <= v < |after.workers| && v != w ==> after.workers[v] == idle.workers[v];
    forall i | 0 <= i < |after.claimed|
      ensures InFlight(after, i) || IsFinished(after, i)
    {
      if i == |idle.claimed| {
        assert after.workers[w] == Busy(i);
      } else if InFlight(idle, i) {
        var v :| 0 <= v < |idle.workers| && idle.workers[v].Busy? && idle.workers[v].index == i;
        assert after.workers[v] == Busy(i);
      } else {
        assert IsFinished(idle, i);
      }
    }
    assert forall i :: IsFinished(after, i) <==> IsFinished(idle, i);
  }

  /** What settling worker w's task records: the outcome in the log, the result or the error, and the worker's
      new status. */
  function Logged<T, E>(p: Pool<T, E>, w: nat, outcome: Outcome<T, E>, free: Worker): Pool<T, E>
    requires Enabled(p, Settle(w, outcome, false))
  {
    var index := p.workers[w].index;
    var logged := p.(finished := p.finished + [Finish(index, outcome)], workers := p.workers[w := free]);
    match outcome
    case Fulfilled(v) => logged.(results := p.results[index := Some(v)])
    case Rejected(e) => if p.hasError then logged else logged.(hasError := true, firstError := Some(e))
  }

  lemma LoggingKeepsFinishedOnce<T, E>(p: Pool<T, E>, w: nat, outcome: Outcome<T, E>, free: Worker)
    requires Enabled(p, Settle(w, outcome, false)) && BusyApart(p) && FinishedOnce(p) && !free.Busy?
    ensures BusyApart(Logged(p, w, outcome, free)) && FinishedOnce(Logged(p, w, outcome, free))
  {
    var after := Logged(p, w, outcome, free);
    assert forall v :: 0 <= v < |p.workers| && v != w ==> after.workers[v] == p.workers[v];
    assert forall k :: 0 <= k < |p.finished| ==> after.finished[k] == p.finished[k];
    assert after.finished[|p.finished|].index == p.workers[w].index;
  }

  lemma LoggingLosesNone<T, E>(p: Pool<T, E>, w: nat, outcome: Outcome<T, E>, free: Worker)
    requires Enabled(p, Settle(w, outcome, false)) && NoneLost(p)
    ensures NoneLost(Logged(p, w, outcome, free))
  {
    var after := Logged(p, w, outcome, free);
    assert after.finished[|p.finished|].index == p.workers[w].index;
    assert IsFinished(after, p.workers[w].index);
    forall i | 0 <= i < |after.claimed|
      ensures InFlight(after, i) || IsFinished(after, i)
    {
      StillAccountedFor(p, after, w, i);
    }
  }

  lemma LoggingKeepsResultsInPlace<T, E>(p: Pool<T, E>, w: nat, outcome: Outcome<T, E>, free: Worker)
    requires Enabled(p, Settle(w, outcome, false)) && FinishedOnce(p) && ResultsInPlace(p)
    ensures ResultsInPlace(Logged(p, w, outcome, free))
  {
    var after, index := Logged(p, w, outcome, free), p.workers[w].index;
    assert !IsFinished(p, index);
    forall k | 0 <= k < |after.finished| && after.finished[k].index < |after.results|
      ensures after.results[after.finished[k].index] ==
              match after.finished[k].outcome case Fulfilled(v) => Some(v) case Rejected(_) => None
    {
      if k < |p.finished| {
        assert after.finished[k] == p.finished[k];
        assert IsFinished(p, p.finished[k].index);
      }
    }
    forall i | 0 <= i < |after.results| && after.results[i].Some?
      ensures IsFinished(after, i)
    {
      if i == index {
        assert after.finished[|p.finished|].index == index;
      } else {
        assert IsFinished(p, i);
        var k :| 0 <= k < |p.finished| && p.finished[k].index == i;
        assert after.finished[k].index == i;
      }
    }
  }

  lemma LoggingKeepsInv<T, E>(p: Pool<T, E>, w: nat, outcome: Outcome<T, E>, mode: ErrorMode, free: Worker)
    requires Inv(p, mode) && Enabled(p, Settle(w, outcome, false))
    requires free.NotStarted? || free.Died? || (free.Returned? && mode.StopMode? && outcome.Rejected?)
    ensures Inv(Logged(p, w, outcome, free), mode)
  {
    var after := Logged(p, w, outcome, free);
    LoggingKeepsFinishedOnce(p, w, outcome, free);
    LoggingLosesNone(p, w, outcome, free);
    LoggingKeepsResultsInPlace(p, w, outcome, free);
    assert after.finished[..|after.finished| - 1] == p.finished;
    assert forall v :: 0 <= v < |p.workers| && v != w ==> after.workers[v] == p.workers[v];
  }

  lemma StillAccountedFor<T, E>(p: Pool<T, E>, after: Pool<T, E>, w: nat, i: int)
    requires w < |p.workers| && |p.workers| == |after.workers| && p.workers[w].Busy?
    requires forall v :: 0 <= v < |p.workers| && v != w ==> p.workers[v] == after.workers[v]
    requires p.finished <= after.finished && IsFinished(after, p.workers[w].index)
    requires InFlight(p, i) || IsFinished(p, i)
    ensures InFlight(after, i) || IsFinished(after, i)
  {
    if IsFinished(p, i) {
      var k :| 0 <= k < |p.finished| && p.finished[k].index == i;
      assert after.finished[k].index == i;
    } else {
      var v :| 0 <= v < |p.workers| && p.workers[v].Busy? && p.workers[v].index == i;
      if v != w {
        assert after.workers[v] == Busy(i);
      }
    }
  }

  lemma StepKeepsInv<T, E>(p: Pool<T, E>, e: Event<T, E>, mode: ErrorMode)
    requires Inv(p, mode) && Enabled(p, e)
    ensures Inv(Step(p, e, mode), mode)
  {
    match e
    case Begin(w) =>
      assert p.workers[w := NotStarted] == p.workers;
      TopOfLoopKeepsInv(p, w, mode);
    case Settle(w, outcome, callbackThrows) =>
      var index := p.workers[w].index;
      var logged := p.(finished := p.finished + [Finish(index, outcome)]);
      match outcome {
        case Fulfilled(value) =>
          LoggingKeepsInv(p, w, outcome, mode, NotStarted);
          TopOfLoopKeepsInv(logged.(results := p.results[index := Some(value)]), w, mode);
        case Rejected(error) =>
          var flagged := if p.hasError then logged else logged.(hasError := true, firstError := Some(error));
          if callbackThrows {
            LoggingKeepsInv(p, w, outcome, mode, Died);
          } else if mode.StopMode? {
            LoggingKeepsInv(p, w, outcome, mode, Returned);
          } else {
            LoggingKeepsInv(p, w, outcome, mode, NotStarted);
            TopOfLoopKeepsInv(flagged, w, mode);
          }
      }
  }

  lemma {:induction false} Reachable<T, E>(tasks: nat, limit: int, mode: ErrorMode, events: seq<Event<T, E>>)
    requires tasks > 0 && After(tasks, limit, mode, events).Some?
    ensures var p := After(tasks, limit, mode, events).value;
            Inv(p, mode) && |p.results| == tasks && |p.workers| == ResolvedLimit(limit, tasks)
  {
    if events != [] {
      Reachable(tasks, limit, mode, events[..|events| - 1]);
      StepKeepsInv(After(tasks, limit, mode, events[..|events| - 1]).value, events[|events| - 1], mode);
    }
  }

  // ------------------------------------------------------------------ main results

  /** In every schedule the claimed indices are exactly 0, 1, 2, ..., each claimed once; no two workers hold the
      same task, and there are never more workers than the resolved limit. */
  lemma ClaimsAreConsecutive<T, E>(tasks: nat, limit: int, mode: ErrorMode, events: seq<Event<T, E>>)
    requires tasks > 0 && After(tasks, limit, mode, events).Some?
    ensures var p := After(tasks, limit, mode, events).value;
            && (forall k :: 0 <= k < |p.claimed| ==> p.claimed[k] == k)
            && |p.claimed| <= tasks && BusyApart(p)
            && |p.workers| == ResolvedLimit(limit, tasks)
  {
    Reachable(tasks, limit, mode, events);
  }

  ghost predicate AllDone<T, E>(p: Pool<T, E>) {
    forall w :: 0 <= w < |p.workers| ==> p.workers[w].Returned? || p.workers[w].Died?
  }

  /** Every task ran and settled exactly once; each success is at its own index and each failure left no result. */
  ghost predicate AllRanOnce<T, E>(p: Pool<T, E>) {
    && |p.claimed| == |p.results|
    && (forall i :: 0 <= i < |p.results| ==> IsFinished(p, i))
    && (forall j, k :: 0 <= j < k < |p.finished| ==> p.finished[j].index != p.finished[k].index)
    && forall k :: 0 <= k < |p.finished| ==>
         && p.finished[k].index < |p.results|
         && p.results[p.finished[k].index] ==
            match p.finished[k].outcome case Fulfilled(v) => Some(v) case Rejected(_) => None
  }

  /** When the pool is done and at least one worker was not killed by the error callback, every task has run
      once, in continue mode always and in stop mode if there was no error. */
  lemma EveryTaskRunsOnce<T, E>(tasks: nat, limit: int, mode: ErrorMode, events: seq<Event<T, E>>)
    requires tasks > 0 && After(tasks, limit, mode, events).Some?
    requires AllDone(After(tasks, limit, mode, events).value)
    requires exists w :: 0 <= w < |After(tasks, limit, mode, events).value.workers|
                         && After(tasks, limit, mode, events).value.workers[w].Returned?
    requires mode.ContinueMode? || !After(tasks, limit, mode, events).value.hasError
    ensures AllRanOnce(After(tasks, limit, mode, events).value)
  {
    Reachable(tasks, limit, mode, events);
    var p := After(tasks, limit, mode, events).value;
    forall i | 0 <= i < |p.results|
      ensures IsFinished(p, i)
    {
      assert !InFlight(p, i);
    }
  }

  /** Worker w's task was rejected and the error callback threw on it. */
  ghost predicate Throws<T, E>(e: Event<T, E>, w: nat) {
    e.Settle? && e.w == w && e.outcome.Rejected? && e.callbackThrows
  }

  ghost predicate ThrewFor<T, E>(events: seq<Event<T, E>>, w: nat) {
    exists k :: 0 <= k < |events| && Throws(events[k], w)
  }

  lemma ThrewForAppend<T, E>(events: seq<Event<T, E>>, w: nat)
    requires events != []
    ensures ThrewFor(events, w) <==> ThrewFor(events[..|events| - 1], w) || Throws(events[|events| - 1], w)
  {
    var init := events[..|events| - 1];
    if ThrewFor(events, w) && !Throws(events[|events| - 1], w) {
      var k :| 0 <= k < |events| && Throws(events[k], w);
      assert init[k] == events[k];
    }
    if ThrewFor(init, w) {
      var k :| 0 <= k < |init| && Throws(init[k], w);
      assert events[k] == init[k];
    }
  }

  lemma StepKillsExactly<T, E>(p: Pool<T, E>, e: Event<T, E>, mode: ErrorMode, w: nat)
    requires Enabled(p, e) && w < |p.workers|
    ensures |Step(p, e, mode).workers| == |p.workers|
    ensures Step(p, e, mode).workers[w].Died? <==> p.workers[w].Died? || Throws(e, w)
  {
  }

  /** In every schedule a worker has died exactly if the error callback threw on a rejection of one of its tasks. */
  lemma {:induction false} WorkersDieExactlyByThrowing<T, E>(
      tasks: nat, limit: int, mode: ErrorMode, events: seq<Event<T, E>>, w: nat)
    requires tasks > 0 && After(tasks, limit, mode, events).Some?
    requires w < ResolvedLimit(limit, tasks)
    ensures var p := After(tasks, limit, mode, events).value;
            && |p.workers| == ResolvedLimit(limit, tasks)
            && (p.workers[w].Died? <==> ThrewFor(events, w))
  {
    if events != [] {
      var init, e := events[..|events| - 1], events[|events| - 1];
      WorkersDieExactlyByThrowing(tasks, limit, mode, init, w);
      ThrewForAppend(events, w);
      StepKillsExactly(After(tasks, limit, mode, init).value, e, mode, w);
    }
  }

  /** If the error callback does not throw, a pool that is done has run every task once: in continue mode always, and in
      stop mode if there was no error. */
  lemma WithoutThrowingEveryTaskRunsOnce<T, E>(tasks: nat, limit: int, mode: ErrorMode, events: seq<Event<T, E>>)
    requires tasks > 0 && After(tasks, limit, mode, events).Some?
    requires AllDone(After(tasks, limit, mode, events).value)
    requires forall w :: !ThrewFor(events, w)
    requires mode.ContinueMode? || !After(tasks, limit, mode, events).value.hasError
    ensures AllRanOnce(After(tasks, limit, mode, events).value)
  {
    WorkersDieExactlyByThrowing(tasks, limit, mode, events, 0);
    assert After(tasks, limit, mode, events).value.workers[0].Returned?;
    EveryTaskRunsOnce(tasks, limit, mode, events);
  }

  /** The outcomes of the settle events, in order of time. */
  function OutcomesOf<T, E>(events: seq<Event<T, E>>): seq<Outcome<T, E>> {
    if events == [] then []
    else
      var last := events[|events| - 1];
      OutcomesOf(events[..|events| - 1]) + (if last.Settle? then [last.outcome] else [])
  }

  /** What the pool has recorded as settled is what settled, in that order. */
  lemma {:induction false} RecordsTheOutcomes<T, E>(tasks: nat, limit: int, mode: ErrorMode, events: seq<Event<T, E>>)
    requires tasks > 0 && After(tasks, limit, mode, events).Some?
    ensures var finished := After(tasks, limit, mode, events).value.finished;
            && |finished| == |OutcomesOf(events)|
            && forall k :: 0 <= k < |finished| ==> finished[k].outcome == OutcomesOf(events)[k]
  {
    if events != [] {
      RecordsTheOutcomes(tasks, limit, mode, events[..|events| - 1]);
    }
  }

  /** The reported first error is the earliest failure in time, and there is one exactly when some task failed. */
  lemma FirstErrorIsEarliest<T, E>(tasks: nat, limit: int, mode: ErrorMode, events: seq<Event<T, E>>)
    requires tasks > 0 && After(tasks, limit, mode, events).Some?
    ensures var p := After(tasks, limit, mode, events).value;
            p.firstError == EarliestFailure(p.finished) && p.hasError == p.firstError.Some?
  {
    Reachable(tasks, limit, mode, events);
  }

  /** What "earliest failure" means: all tasks that settled before it succeeded. */
  lemma {:induction false} EarliestFailureIsFirst<T, E>(finished: seq<Finish<T, E>>)
    ensures match EarliestFailure(finished)
            case None => forall k :: 0 <= k < |finished| ==> finished[k].outcome.Fulfilled?
            case Some(e) => exists k :: 0 <= k < |finished| && finished[k].outcome == Rejected(e)
                              && forall j :: 0 <= j < k ==> finished[j].outcome.Fulfilled?
  {
    if finished != [] {
      var init := finished[..|finished| - 1];
      EarliestFailureIsFirst(init);
      if EarliestFailure(init).Some? {
        var k :| 0 <= k < |init| && init[k].outcome == Rejected(EarliestFailure(init).value)
                 && forall j :: 0 <= j < k ==> init[j].outcome.Fulfilled?;
        assert finished[k] == init[k] && forall j :: 0 <= j < k ==> finished[j] == init[j];
      } else {
        assert forall j :: 0 <= j < |init| ==> finished[j] == init[j];
      }
    }
  }

  /** In stop mode nothing is claimed once an error has occurred, whatever happens afterwards. */
  lemma {:induction false} NothingClaimedAfterTheFirstError<T, E>(
      tasks: nat, limit: int, events: seq<Event<T, E>>, later: seq<Event<T, E>>)
    requires tasks > 0 && After(tasks, limit, StopMode, events).Some?
    requires After(tasks, limit, StopMode, events).value.hasError
    requires After(tasks, limit, StopMode, events + later).Some?
    ensures After(tasks, limit, StopMode, events + later).value.claimed == After(tasks, limit, StopMode, events).value.claimed
    ensures After(tasks, limit, StopMode, events + later).value.firstError == After(tasks, limit, StopMode, events).value.firstError
    ensures After(tasks, limit, StopMode, events + later).value.hasError
    decreases |later|
  {
    if later == [] {
      assert events + later == events;
    } else {
      var init := later[..|later| - 1];
      assert (events + later)[..|events + later| - 1] == events + init;
      NothingClaimedAfterTheFirstError(tasks, limit, events, init);
    }
  }
}
