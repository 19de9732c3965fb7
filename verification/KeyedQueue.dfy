/**
 The keyed task queue: work is serialised per key by chaining each task behind the tail promise that the
 map holds for its key.

 Promises become tickets. One event is one piece of code that runs without interruption: a call of
 `enqueue`, the start of a task once its predecessor's tail has resolved, the settling of a task, and the
 cleanup callback of its tail. Runs are arbitrary interleavings of these events.
 */
module KeyedQueue {
  import opened Prelude

  type Ticket = nat

  datatype Phase = Waiting | Running | Settled(fulfilled: bool)

  datatype Job<K> = Job(key: K, previous: Option<Ticket>, phase: Phase, cleaned: bool)

  datatype State<K> = State(tails: map<K, Ticket>, jobs: seq<Job<K>>)

  datatype Event<K> = Enqueue(key: K) | Start(t: Ticket) | Settle(t: Ticket, fulfilled: bool) | Cleanup(t: Ticket)

  predicate Enabled<K(==)>(s: State<K>, e: Event<K>) {
    match e
    case Enqueue(_) => true
    case Start(t) =>
      && t < |s.jobs| && s.jobs[t].phase.Waiting?
      && (s.jobs[t].previous.Some? ==> s.jobs[t].previous.value < |s.jobs| && s.jobs[s.jobs[t].previous.value].phase.Settled?)
    case Settle(t, _) => t < |s.jobs| && s.jobs[t].phase.Running?
    case Cleanup(t) => t < |s.jobs| && s.jobs[t].phase.Settled? && !s.jobs[t].cleaned
  }

  function Step<K(==)>(s: State<K>, e: Event<K>): State<K>
    requires Enabled(s, e)
  {
    match e
    case Enqueue(key) =>
      var previous := if key in s.tails then Some(s.tails[key]) else None;
      State(s.tails[key := |s.jobs|], s.jobs + [Job(key, previous, Waiting, false)])
    case Start(t) => s.(jobs := s.jobs[t := s.jobs[t].(phase := Running)])
    case Settle(t, fulfilled) => s.(jobs := s.jobs[t := s.jobs[t].(phase := Settled(fulfilled))])
    case Cleanup(t) =>
      var key := s.jobs[t].key;
      State(if key in s.tails && s.tails[key] == t then s.tails - {key} else s.tails,
            s.jobs[t := s.jobs[t].(cleaned := true)])
  }

  /** The queue and the callbacks its promises run. */
  class KeyedAsyncQueue<K(==)> {
    var tails: map<K, Ticket>
    var jobs: seq<Job<K>>

    ghost function Current(): State<K>
      reads this
    {
      State(tails, jobs)
    }

    constructor ()
      ensures Current() == State(map[], [])
    {
      tails, jobs := map[], [];
    }

    /** `enqueueKeyedTask` */
    method EnqueueKeyedTask(key: K) returns (ticket: Ticket)
      modifies this
      ensures Current() == Step(old(Current()), Enqueue(key)) && ticket == |old(jobs)|
    {
      var previous := if key in tails then Some(tails[key]) else None;
      ticket := |jobs|;
      jobs := jobs + [Job(key, previous, Waiting, false)];
      tails := tails[key := ticket];
    }

    method StartTask(t: Ticket)
      requires Enabled(Current(), Start(t))
      modifies this`jobs
      ensures Current() == Step(old(Current()), Start(t))
    {
      jobs := jobs[t := jobs[t].(phase := Running)];
    }

    method SettleTask(t: Ticket, fulfilled: bool)
      requires Enabled(Current(), Settle(t, fulfilled))
      modifies this`jobs
      ensures Current() == Step(old(Current()), Settle(t, fulfilled))
    {
      jobs := jobs[t := jobs[t].(phase := Settled(fulfilled))];
    }

    /** `cleanup`: the map entry goes only if it is still this task's tail. */
    method CleanupTail(t: Ticket)
      requires Enabled(Current(), Cleanup(t))
      modifies this
      ensures Current() == Step(old(Current()), Cleanup(t))
    {
      var key := jobs[t].key;
      if key in tails && tails[key] == t {
        tails := tails - {key};
      }
      jobs := jobs[t := jobs[t].(cleaned := true)];
    }
  }

  // ------------------------------------------------------------------ runs

  /** The state after the events, if each was possible when it happened. */
  function After<K(==)>(events: seq<Event<K>>): Option<State<K>> {
    if events == [] then Some(State(map[], []))
    else
      match After(events[..|events| - 1])
      case None => None
      case Some(s) =>
        if Enabled(s, events[|events| - 1]) then Some(Step(s, events[|events| - 1])) else None
  }

  // ------------------------------------------------------------------ the invariant

  ghost predicate Earlier<K>(s: State<K>, u: int, t: int) {
    0 <= u < t < |s.jobs| && s.jobs[u].key == s.jobs[t].key
  }

  ghost predicate Newest<K>(s: State<K>, t: int) {
    0 <= t < |s.jobs| && forall u :: t < u < |s.jobs| ==> s.jobs[u].key != s.jobs[t].key
  }

  /** A job waits for the job of its key enqueued just before it, unless all earlier ones had settled. */
  ghost predicate Chained<K>(s: State<K>) {
    forall t, u :: Earlier(s, u, t) ==>
      match s.jobs[t].previous
      case None => s.jobs[u].phase.Settled?
      case Some(p) => u <= p && Earlier(s, p, t)
  }

  /** A job that has left the waiting phase found all earlier jobs of its key settled. */
  ghost predicate Serial<K>(s: State<K>) {
    forall t, u :: Earlier(s, u, t) && !s.jobs[t].phase.Waiting? ==> s.jobs[u].phase.Settled?
  }

  /** The map holds, for each key, the newest job's ticket, until that job is cleaned up. */
  ghost predicate TailsAreNewest<K>(s: State<K>) {
    && (forall k :: k in s.tails ==> Newest(s, s.tails[k]) && s.jobs[s.tails[k]].key == k)
    && (forall t :: Newest(s, t) ==> (s.jobs[t].key in s.tails <==> !s.jobs[t].cleaned))
  }

  ghost predicate CleanedAreSettled<K>(s: State<K>) {
    forall t :: 0 <= t < |s.jobs| && s.jobs[t].cleaned ==> s.jobs[t].phase.Settled?
  }

  ghost predicate LinkedBack<K>(s: State<K>) {
    forall t :: 0 <= t < |s.jobs| && s.jobs[t].previous.Some? ==> Earlier(s, s.jobs[t].previous.value, t)
  }

  ghost predicate Inv<K>(s: State<K>) {
    LinkedBack(s) && Chained(s) && Serial(s) && TailsAreNewest(s) && CleanedAreSettled(s)
  }

  /** At an enqueue, the earlier tasks of the key are all settled or at most as new as the tail in the map. */
  lemma EnqueueChains<K>(s: State<K>, u: nat, key: K)
    requires Serial(s) && TailsAreNewest(s) && CleanedAreSettled(s) && u < |s.jobs| && s.jobs[u].key == key
    ensures key !in s.tails ==> s.jobs[u].phase.Settled?
    ensures key in s.tails ==> u <= s.tails[key]
  {
    var n := NewestOfKey(s, u);
    if n != u {
      assert Earlier(s, u, n);
    }
  }

  lemma EnqueueKeepsChained<K>(s: State<K>, key: K)
    requires Inv(s)
    ensures Chained(Step(s, Enqueue(key))) && LinkedBack(Step(s, Enqueue(key))) && Serial(Step(s, Enqueue(key)))
  {
    var next := Step(s, Enqueue(key));
    assert forall t :: 0 <= t < |s.jobs| ==> next.jobs[t] == s.jobs[t];
    if key in s.tails {
      assert Earlier(next, s.tails[key], |s.jobs|);
    }
    forall t, u | Earlier(next, u, t)
      ensures t < |s.jobs| ==> Earlier(s, u, t)
      ensures match next.jobs[t].previous
              case None => next.jobs[u].phase.Settled?
              case Some(p) => u <= p && Earlier(next, p, t)
    {
      if t == |s.jobs| {
        EnqueueChains(s, u, key);
      } else {
        assert Earlier(s, u, t);
      }
    }
  }

  lemma EnqueueKeepsInv<K>(s: State<K>, key: K)
    requires Inv(s)
    ensures Inv(Step(s, Enqueue(key)))
  {
    var next := Step(s, Enqueue(key));
    EnqueueKeepsChained(s, key);
    forall t | Newest(next, t)
      ensures t < |s.jobs| ==> Newest(s, t) && s.jobs[t].key != key
    {
      assert next.jobs[|s.jobs|].key == key;
      assert forall u :: t < u < |s.jobs| ==> next.jobs[u] == s.jobs[u];
    }
  }

  lemma NewestOfKey<K>(s: State<K>, u: nat) returns (n: nat)
    requires u < |s.jobs|
    ensures u <= n < |s.jobs| && Newest(s, n) && s.jobs[n].key == s.jobs[u].key
  {
    n := |s.jobs| - 1;
    while s.jobs[n].key != s.jobs[u].key
      invariant u <= n < |s.jobs|
      invariant forall v :: n < v < |s.jobs| ==> s.jobs[v].key != s.jobs[u].key
      decreases n
    {
      n := n - 1;
    }
  }

  /** The two states have the same jobs but for phases and cleanup marks. */
  ghost predicate SameJobs<K>(s: State<K>, next: State<K>) {
    && |s.jobs| == |next.jobs|
    && forall t :: 0 <= t < |s.jobs| ==> s.jobs[t].key == next.jobs[t].key && s.jobs[t].previous == next.jobs[t].previous
  }

  lemma SameJobsSameOrder<K>(s: State<K>, next: State<K>)
    requires SameJobs(s, next)
    ensures forall t, u :: Earlier(next, u, t) <==> Earlier(s, u, t)
    ensures forall t :: Newest(next, t) <==> Newest(s, t)
    ensures LinkedBack(s) ==> LinkedBack(next)
  {
    forall t | 0 <= t < |next.jobs| && next.jobs[t].previous.Some? && LinkedBack(s)
      ensures Earlier(next, next.jobs[t].previous.value, t)
    {
      assert Earlier(s, s.jobs[t].previous.value, t);
    }
  }

  /** What starting a task needs: its predecessor's tail has resolved, so all earlier tasks have settled. */
  lemma StartableMeansEarlierSettled<K>(s: State<K>, t: Ticket, u: int)
    requires Chained(s) && Serial(s) && Enabled(s, Start(t)) && Earlier(s, u, t)
    ensures s.jobs[u].phase.Settled?
  {
    if s.jobs[t].previous.Some? {
      var p := s.jobs[t].previous.value;
      assert u <= p && Earlier(s, p, t);
      if u < p {
        assert Earlier(s, u, p) && !s.jobs[p].phase.Waiting?;
      }
    }
  }

  lemma PhaseChangeKeepsChained<K>(s: State<K>, next: State<K>)
    requires Chained(s) && SameJobs(s, next)
    requires forall t :: 0 <= t < |s.jobs| && s.jobs[t].phase.Settled? ==> next.jobs[t].phase.Settled?
    ensures Chained(next)
  {
    SameJobsSameOrder(s, next);
    forall t, u | Earlier(next, u, t)
      ensures match next.jobs[t].previous
              case None => next.jobs[u].phase.Settled?
              case Some(p) => u <= p && Earlier(next, p, t)
    {
      assert Earlier(s, u, t);
    }
  }

  lemma StartKeepsInv<K>(s: State<K>, t: Ticket)
    requires Inv(s) && Enabled(s, Start(t))
    ensures Inv(Step(s, Start(t)))
  {
    var next := Step(s, Start(t));
    SameJobsSameOrder(s, next);
    PhaseChangeKeepsChained(s, next);
    forall v, u | Earlier(next, u, v) && !next.jobs[v].phase.Waiting?
      ensures next.jobs[u].phase.Settled?
    {
      assert Earlier(s, u, v);
      if v == t {
        StartableMeansEarlierSettled(s, t, u);
      }
    }
  }

  lemma SettleKeepsInv<K>(s: State<K>, t: Ticket, fulfilled: bool)
    requires Inv(s) && Enabled(s, Settle(t, fulfilled))
    ensures Inv(Step(s, Settle(t, fulfilled)))
  {
    var next := Step(s, Settle(t, fulfilled));
    SameJobsSameOrder(s, next);
    PhaseChangeKeepsChained(s, next);
    forall v, u | Earlier(next, u, v) && !next.jobs[v].phase.Waiting?
      ensures next.jobs[u].phase.Settled?
    {
      assert Earlier(s, u, v);
    }
  }

  lemma CleanupKeepsInv<K>(s: State<K>, t: Ticket)
    requires Inv(s) && Enabled(s, Cleanup(t))
    ensures Inv(Step(s, Cleanup(t)))
  {
    var next := Step(s, Cleanup(t));
    SameJobsSameOrder(s, next);
    PhaseChangeKeepsChained(s, next);
    forall v, u | Earlier(next, u, v) && !next.jobs[v].phase.Waiting?
      ensures next.jobs[u].phase.Settled?
    {
      assert Earlier(s, u, v);
    }
    forall v | Newest(next, v)
      ensures next.jobs[v].key in next.tails <==> !next.jobs[v].cleaned
    {
      assert Newest(s, v);
      if s.jobs[v].key == s.jobs[t].key && s.jobs[v].key in s.tails {
        NewestIsUnique(s, v, s.tails[s.jobs[v].key]);
      }
    }
  }

  lemma NewestIsUnique<K>(s: State<K>, t: int, u: int)
    requires Newest(s, t) && Newest(s, u) && s.jobs[t].key == s.jobs[u].key
    ensures t == u
  {
  }

  /** Every reachable state satisfies the invariant. */
  lemma {:induction false} Reachable<K>(events: seq<Event<K>>)
    requires After(events).Some?
    ensures Inv(After(events).value)
  {
    if events != [] {
      var before, e := After(events[..|events| - 1]).value, events[|events| - 1];
      Reachable(events[..|events| - 1]);
      match e
      case Enqueue(key) => EnqueueKeepsInv(before, key);
      case Cleanup(t) => CleanupKeepsInv(before, t);
      case Start(t) => StartKeepsInv(before, t);
      case Settle(t, fulfilled) => SettleKeepsInv(before, t, fulfilled);
    }
  }

  // ------------------------------------------------------------------ what the jobs record

  /** The keys of the enqueue events, in order. */
  function EnqueuedKeys<K>(events: seq<Event<K>>): seq<K> {
    if events == [] then []
    else
      var last := events[|events| - 1];
      EnqueuedKeys(events[..|events| - 1]) + (if last.Enqueue? then [last.key] else [])
  }

  function TicketOf<K>(e: Event<K>): Option<Ticket> {
    match e
    case Enqueue(_) => None
    case Start(t) => Some(t)
    case Settle(t, _) => Some(t)
    case Cleanup(t) => Some(t)
  }

  lemma {:induction false} EventsNameJobs<K>(events: seq<Event<K>>, e: Event<K>)
    requires After(events).Some? && e in events && TicketOf(e).Some?
    ensures TicketOf(e).value < |After(events).value.jobs|
  {
    var init := events[..|events| - 1];
    assert e == events[|events| - 1] || e in init;
    if e in init {
      EventsNameJobs(init, e);
    }
  }

  /** A job's phase and mark say which of its events have happened. */
  ghost predicate RecordsEvents<K>(job: Job<K>, t: Ticket, events: seq<Event<K>>) {
    && (job.phase.Waiting? <==> Start(t) !in events)
    && (forall fulfilled :: job.phase == Settled(fulfilled) <==> Settle(t, fulfilled) in events)
    && (job.cleaned <==> Cleanup(t) in events)
  }

  lemma InAppended<K>(events: seq<Event<K>>, x: Event<K>)
    requires events != []
    ensures x in events <==> x in events[..|events| - 1] || x == events[|events| - 1]
  {
    assert events == events[..|events| - 1] + [events[|events| - 1]];
  }

  lemma MembersOfAppended<K>(events: seq<Event<K>>, t: Ticket)
    requires events != []
    ensures var init, e := events[..|events| - 1], events[|events| - 1];
            && (Start(t) in events <==> Start(t) in init || e == Start(t))
            && (forall b :: Settle(t, b) in events <==> Settle(t, b) in init || e == Settle(t, b))
            && (Cleanup(t) in events <==> Cleanup(t) in init || e == Cleanup(t))
  {
    InAppended(events, Start(t));
    InAppended(events, Settle(t, true));
    InAppended(events, Settle(t, false));
    InAppended(events, Cleanup(t));
  }

  /** In every run, job t is the t-th enqueued one, has its key, and records exactly its own events: it waits until its
      start, is settled as its settle event says, and is marked at its cleanup. */
  lemma {:induction false} JobsRecordTheirEvents<K(!new)>(events: seq<Event<K>>, t: Ticket)
    requires After(events).Some? && t < |After(events).value.jobs|
    ensures var jobs := After(events).value.jobs;
            && |jobs| == |EnqueuedKeys(events)| && jobs[t].key == EnqueuedKeys(events)[t]
            && RecordsEvents(jobs[t], t, events)
  {
    var init, e := events[..|events| - 1], events[|events| - 1];
    var before := After(init).value;
    MembersOfAppended(events, t);
    JobsAreEnqueued(init);
    if t < |before.jobs| {
      JobsRecordTheirEvents(init, t);
    } else {
      forall x | x in init && TicketOf(x).Some?
        ensures TicketOf(x).value < t
      {
        EventsNameJobs(init, x);
      }
      assert forall b :: TicketOf(Event<K>.Settle(t, b)) == Some(t);
      assert TicketOf(Event<K>.Start(t)) == Some(t) && TicketOf(Event<K>.Cleanup(t)) == Some(t);
    }
  }

  lemma {:induction false} JobsAreEnqueued<K>(events: seq<Event<K>>)
    requires After(events).Some?
    ensures |After(events).value.jobs| == |EnqueuedKeys(events)|
  {
    if events != [] {
      JobsAreEnqueued(events[..|events| - 1]);
    }
  }

  // ------------------------------------------------------------------ main results

  /** Tasks of one key never overlap. */
  lemma NeverOverlap<K>(events: seq<Event<K>>, t: Ticket, u: Ticket)
    requires After(events).Some?
    requires t < |After(events).value.jobs| && u < |After(events).value.jobs|
    requires After(events).value.jobs[t].phase.Running? && After(events).value.jobs[u].phase.Running?
    requires After(events).value.jobs[t].key == After(events).value.jobs[u].key
    ensures t == u
  {
    Reachable(events);
    var s := After(events).value;
    assert u < t ==> Earlier(s, u, t);
    assert t < u ==> Earlier(s, t, u);
  }

  /** Tasks of one key run in enqueue order: when one starts, every earlier task of its key has settled,
      fulfilled or rejected. */
  lemma StartsInEnqueueOrder<K>(events: seq<Event<K>>, t: Ticket, u: Ticket)
    requires After(events + [Start(t)]).Some?
    requires var jobs := After(events + [Start(t)]).value.jobs; u < t < |jobs| && jobs[u].key == jobs[t].key
    ensures Settle(u, true) in events || Settle(u, false) in events
  {
    assert (events + [Start(t)])[..|events|] == events;
    Reachable(events + [Start(t)]);
    var s := After(events + [Start(t)]).value;
    assert Earlier(s, u, t);
    SettledByAnEvent(events, u);
  }

  lemma {:induction false} SettledByAnEvent<K>(events: seq<Event<K>>, u: Ticket)
    requires After(events).Some? && u < |After(events).value.jobs| && After(events).value.jobs[u].phase.Settled?
    ensures Settle(u, true) in events || Settle(u, false) in events
  {
    var init, e := events[..|events| - 1], events[|events| - 1];
    if e != Settle(u, true) && e != Settle(u, false) {
      SettledByAnEvent(init, u);
    }
  }

  /** While any task of a key is unsettled, the map holds that key's newest tail. */
  lemma UnsettledKeysHaveTheirTail<K>(events: seq<Event<K>>, t: Ticket)
    requires After(events).Some? && t < |After(events).value.jobs| && !After(events).value.jobs[t].phase.Settled?
    ensures var s := After(events).value;
            s.jobs[t].key in s.tails && Newest(s, s.tails[s.jobs[t].key]) && t <= s.tails[s.jobs[t].key]
  {
    Reachable(events);
    var s := After(events).value;
    var n := NewestOfKey(s, t);
    if n != t {
      assert Earlier(s, t, n);
    }
  }

  /** A cleanup that runs late never removes a newer tail; the newest task's own cleanup removes the entry. */
  lemma CleanupRemovesOnlyItsOwnTail<K>(events: seq<Event<K>>, t: Ticket)
    requires After(events + [Cleanup(t)]).Some?
    ensures After(events).Some? && t < |After(events).value.jobs|
    ensures var before, after := After(events).value, After(events + [Cleanup(t)]).value;
            after.tails == if Newest(before, t) then before.tails - {before.jobs[t].key} else before.tails
  {
    assert (events + [Cleanup(t)])[..|events|] == events;
    Reachable(events);
  }

  /** A key is in the map exactly as long as its newest task has not been cleaned up; so a drained key is absent. */
  lemma DrainedKeysAreAbsent<K(!new)>(events: seq<Event<K>>, key: K)
    requires After(events).Some?
    ensures var s := After(events).value;
            key in s.tails <==> exists t :: Newest(s, t) && s.jobs[t].key == key && !s.jobs[t].cleaned
    ensures var s := After(events).value;
            (forall t :: 0 <= t < |s.jobs| && s.jobs[t].key == key ==> s.jobs[t].cleaned) ==> key !in s.tails
  {
    Reachable(events);
  }

  /** No deadlock: as long as a task is unsettled, some task of its key is running or can start. */
  lemma {:induction false} UnsettledTasksCanProgress<K>(events: seq<Event<K>>, t: Ticket) returns (u: Ticket)
    requires After(events).Some? && t < |After(events).value.jobs| && !After(events).value.jobs[t].phase.Settled?
    ensures var s := After(events).value;
            && u <= t && s.jobs[u].key == s.jobs[t].key
            && (s.jobs[u].phase.Running? || Enabled(s, Start(u)))
    decreases t
  {
    Reachable(events);
    var s := After(events).value;
    u := t;
    if s.jobs[t].phase.Waiting? && !Enabled(s, Start(t)) {
      var p := s.jobs[t].previous.value;
      assert Earlier(s, p, t);
      u := UnsettledTasksCanProgress(events, p);
    }
  }
}
