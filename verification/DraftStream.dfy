/**
 The draft stream loop: a sender that keeps at most one message in flight and always sends the newest text.

 One event is one stretch of code between two awaits: a call of the loop's interface or of the finalizable
 controls around it, the timer firing, a send settling, or one of the concurrently active flushes resuming after the promise it awaited.
 Runs are arbitrary interleavings of these events.
 */
module DraftStream {
  import opened Prelude

  /** How a send ended: it resolved to false, to anything else, or it rejected. */
  datatype SendStatus = Open | Delivered | Refused | Failed

  datatype Send = Send(text: string, status: SendStatus)

  /** Where an active flush is suspended: at another flush's send, or at its own. */
  datatype Flush = AwaitsOther(send: nat) | AwaitsOwn(send: nat, text: string)

  /** `sends` lists every send ever begun and `latest` the newest accepted update; both are history. */
  datatype State = State(
    throttleMs: int,
    lastSentAt: int,
    pending: string,
    inFlight: Option<nat>,
    timer: Option<int>,
    stopped: bool,
    final: bool,
    flushes: map<nat, Flush>,
    nextFlush: nat,
    sends: seq<Send>,
    latest: string
  )

  datatype Event =
    | Update(text: string, now: int)
    | ControlUpdate(text: string, now: int)
    | CallFlush
    | TimerFires(now: int)
    | Settle(send: nat, outcome: SendStatus)
    | Resume(flush: nat, now: int)
    | StopLoop
    | ResetPending
    | ResetThrottleWindow
    | MarkStopped
    | MarkFinal

  function Initial(throttleMs: int): State {
    State(throttleMs, 0, "", None, None, false, false, map[], 0, [], "")
  }

  predicate Enabled(s: State, e: Event) {
    match e
    case TimerFires(now) => s.timer.Some? && s.timer.value <= now
    case Settle(send, outcome) => send < |s.sends| && s.sends[send].status.Open? && !outcome.Open?
    case Resume(f, _) => f in s.flushes && s.flushes[f].send < |s.sends| && !s.sends[s.flushes[f].send].status.Open?
    case _ => true
  }

  /** The top of the loop inside `flush`, for the flush numbered f. */
  function TopOfFlush(s: State, f: nat): State {
    if s.stopped then s.(flushes := s.flushes - {f})
    else if s.inFlight.Some? then s.(flushes := s.flushes[f := AwaitsOther(s.inFlight.value)])
    else if IsBlank(s.pending) then s.(pending := "", flushes := s.flushes - {f})
    else
      s.(pending := "",
         sends := s.sends + [Send(s.pending, Open)],
         inFlight := Some(|s.sends|),
         flushes := s.flushes[f := AwaitsOwn(|s.sends|, s.pending)])
  }

  /** `flush`, up to its first await. */
  function StartFlush(s: State): State {
    TopOfFlush(s.(timer := None, nextFlush := s.nextFlush + 1), s.nextFlush)
  }

  function Schedule(s: State, now: int): State {
    if s.timer.Some? then s
    else
      var remaining := s.throttleMs - (now - s.lastSentAt);
      s.(timer := Some(now + if remaining > 0 then remaining else 0))
  }

  function DoUpdate(s: State, text: string, now: int): State {
    if s.stopped then s
    else
      var updated := s.(pending := text, latest := text);
      if s.inFlight.Some? then Schedule(updated, now)
      else if s.timer.None? && now - s.lastSentAt >= s.throttleMs then StartFlush(updated)
      else Schedule(updated, now)
  }

  /** `update` of the controls: nothing is accepted once the stream is stopped or final. */
  function DoControlUpdate(s: State, text: string, now: int): State {
    if s.stopped || s.final then s else DoUpdate(s, text, now)
  }

  /** A flush resumes after the promise it awaited; a rejection ends it. */
  function DoResume(s: State, f: nat, now: int): State
    requires Enabled(s, Resume(f, now))
  {
    match (s.flushes[f], s.sends[s.flushes[f].send].status)
    case (_, Failed) => s.(flushes := s.flushes - {f})
    case (AwaitsOther(_), _) => TopOfFlush(s, f)
    case (AwaitsOwn(_, text), Refused) => s.(pending := text, flushes := s.flushes - {f})
    case (AwaitsOwn(_, _), _) =>
      if s.pending == "" then s.(lastSentAt := now, flushes := s.flushes - {f})
      else TopOfFlush(s.(lastSentAt := now), f)
  }

  function Step(s: State, e: Event): State
    requires Enabled(s, e)
  {
    match e
    case Update(text, now) => DoUpdate(s, text, now)
    case ControlUpdate(text, now) => DoControlUpdate(s, text, now)
    case CallFlush => StartFlush(s)
    case TimerFires(_) => StartFlush(s)
    case Settle(send, outcome) =>
      s.(sends := s.sends[send := s.sends[send].(status := outcome)],
         inFlight := if s.inFlight == Some(send) then None else s.inFlight)
    case Resume(f, now) => DoResume(s, f, now)
    case StopLoop => s.(pending := "", timer := None)
    case ResetPending => s.(pending := "")
    case ResetThrottleWindow => s.(lastSentAt := 0, timer := None)
    case MarkStopped => s.(stopped := true)
    case MarkFinal => s.(final := true)
  }

  // ------------------------------------------------------------------ the loop as an object

  /** The closure variables of `createDraftStreamLoop`. */
  class DraftStreamLoop {
    const throttleMs: int
    var lastSentAt: int
    var pending: string
    var inFlight: Option<nat>
    var timer: Option<int>
    var stopped: bool
    var final: bool
    var flushes: map<nat, Flush>
    var nextFlush: nat
    var sends: seq<Send>
    ghost var latest: string

    ghost function Current(): State
      reads this
    {
      State(throttleMs, lastSentAt, pending, inFlight, timer, stopped, final, flushes, nextFlush, sends, latest)
    }

    constructor (throttleMs: int)
      ensures Current() == Initial(throttleMs)
    {
      this.throttleMs := throttleMs;
      lastSentAt, pending, inFlight, timer, stopped, final := 0, "", None, None, false, false;
      flushes, nextFlush, sends, latest := map[], 0, [], "";
    }

    method LoopTop(f: nat)
      modifies this
      ensures Current() == TopOfFlush(old(Current()), f)
    {
      if stopped {
        flushes := flushes - {f};
        return;
      }
      if inFlight.Some? {
        flushes := flushes[f := AwaitsOther(inFlight.value)];
        return;
      }
      var text := pending;
      pending := "";
      if IsBlank(text) {
        flushes := flushes - {f};
        return;
      }
      inFlight := Some(|sends|);
      flushes := flushes[f := AwaitsOwn(|sends|, text)];
      sends := sends + [Send(text, Open)];
    }

    method BeginFlush()
      modifies this
      ensures Current() == StartFlush(old(Current()))
    {
      timer := None;
      var f := nextFlush;
      nextFlush := nextFlush + 1;
      LoopTop(f);
    }

    method ScheduleTimer(now: int)
      modifies this`timer
      ensures Current() == Schedule(old(Current()), now)
    {
      if timer.Some? { return; }
      var remaining := throttleMs - (now - lastSentAt);
      timer := Some(now + if remaining > 0 then remaining else 0);
    }

    method AcceptUpdate(text: string, now: int)
      modifies this
      ensures Current() == Step(old(Current()), Update(text, now))
    {
      if stopped { return; }
      pending, latest := text, text;
      if inFlight.Some? {
        ScheduleTimer(now);
        return;
      }
      if timer.None? && now - lastSentAt >= throttleMs {
        BeginFlush();
        return;
      }
      ScheduleTimer(now);
    }

    method AcceptControlUpdate(text: string, now: int)
      modifies this
      ensures Current() == Step(old(Current()), ControlUpdate(text, now))
    {
      if stopped || final { return; }
      AcceptUpdate(text, now);
    }

    method SettleSend(send: nat, outcome: SendStatus)
      requires Enabled(Current(), Settle(send, outcome))
      modifies this`sends, this`inFlight
      ensures Current() == Step(old(Current()), Settle(send, outcome))
    {
      sends := sends[send := sends[send].(status := outcome)];
      if inFlight == Some(send) {
        inFlight := None;
      }
    }

    method ResumeFlush(f: nat, now: int)
      requires Enabled(Current(), Resume(f, now))
      modifies this
      ensures Current() == Step(old(Current()), Resume(f, now))
    {
      var status := sends[flushes[f].send].status;
      if status.Failed? {
        flushes := flushes - {f};
        return;
      }
      match flushes[f] {
        case AwaitsOther(_) =>
          LoopTop(f);
        case AwaitsOwn(_, text) =>
          if status.Refused? {
            pending := text;
            flushes := flushes - {f};
            return;
          }
          lastSentAt := now;
          if pending == "" {
            flushes := flushes - {f};
            return;
          }
          LoopTop(f);
      }
    }

    method Stop()
      modifies this`pending, this`timer
      ensures Current() == Step(old(Current()), StopLoop)
    {
      pending, timer := "", None;
    }

    /** `stop` of the controls: no further updates, and one last flush. */
    method Finish()
      modifies this
      ensures Current() == Step(Step(old(Current()), MarkFinal), CallFlush)
    {
      final := true;
      BeginFlush();
    }

    /** `seal`, up to its wait for the send in flight. */
    method Seal()
      modifies this`final, this`pending, this`timer
      ensures Current() == Step(Step(old(Current()), MarkFinal), StopLoop)
      ensures final && pending == "" && timer.None?
    {
      final := true;
      Stop();
    }

    /** `stopForClear`, up to its wait for the send in flight. */
    method StopForClear()
      modifies this`stopped, this`pending, this`timer
      ensures Current() == Step(Step(old(Current()), MarkStopped), StopLoop)
      ensures stopped && pending == "" && timer.None?
    {
      stopped := true;
      Stop();
    }
  }

  // ------------------------------------------------------------------ runs

  function After(throttleMs: int, events: seq<Event>): Option<State> {
    if events == [] then Some(Initial(throttleMs))
    else
      match After(throttleMs, events[..|events| - 1])
      case None => None
      case Some(s) => if Enabled(s, events[|events| - 1]) then Some(Step(s, events[|events| - 1])) else None
  }

  lemma {:induction false} PrefixExists(throttleMs: int, events: seq<Event>, k: nat)
    requires After(throttleMs, events).Some? && k <= |events|
    ensures After(throttleMs, events[..k]).Some?
    decreases |events|
  {
    if k == |events| {
      assert events[..k] == events;
    } else {
      var init := events[..|events| - 1];
      assert init[..k] == events[..k];
      PrefixExists(throttleMs, init, k);
    }
  }

  /** The state of a run after its first k events. */
  ghost function StateAt(throttleMs: int, events: seq<Event>, k: nat): State
    requires After(throttleMs, events).Some? && k <= |events|
  {
    PrefixExists(throttleMs, events, k);
    After(throttleMs, events[..k]).value
  }

  lemma StateAtSteps(throttleMs: int, events: seq<Event>, k: nat)
    requires After(throttleMs, events).Some? && k < |events|
    ensures Enabled(StateAt(throttleMs, events, k), events[k])
    ensures StateAt(throttleMs, events, k + 1) == Step(StateAt(throttleMs, events, k), events[k])
  {
    PrefixExists(throttleMs, events, k + 1);
    assert events[..k + 1][..k] == events[..k];
  }

  // ------------------------------------------------------------------ what a state records of its run

  /** The text of the last accepted update: one made before the stream was stopped, and if through the controls also
      before it was final. */
  ghost function LastAccepted(throttleMs: int, events: seq<Event>): string {
    if events == [] then ""
    else
      var init := events[..|events| - 1];
      match events[|events| - 1]
      case Update(text, _) => if MarkStopped in init then LastAccepted(throttleMs, init) else text
      case ControlUpdate(text, _) =>
        if MarkStopped in init || MarkFinal in init then LastAccepted(throttleMs, init) else text
      case _ => LastAccepted(throttleMs, init)
  }

  lemma {:induction false} MarksAreRecorded(throttleMs: int, events: seq<Event>)
    requires After(throttleMs, events).Some?
    ensures var s := After(throttleMs, events).value;
            && (s.stopped <==> MarkStopped in events) && (s.final <==> MarkFinal in events)
            && s.latest == LastAccepted(throttleMs, events)
  {
    if events != [] {
      var init, e := events[..|events| - 1], events[|events| - 1];
      assert events == init + [e];
      MarksAreRecorded(throttleMs, init);
      StepRecordsMarks(After(throttleMs, init).value, e);
    }
  }

  lemma StepRecordsMarks(s: State, e: Event)
    requires Enabled(s, e)
    ensures Step(s, e).stopped <==> s.stopped || e == MarkStopped
    ensures Step(s, e).final <==> s.final || e == MarkFinal
    ensures Step(s, e).latest ==
            match e
            case Update(text, _) => if s.stopped then s.latest else text
            case ControlUpdate(text, _) => if s.stopped || s.final then s.latest else text
            case _ => s.latest
  {
    assert forall t: State, f: nat :: TopOfFlush(t, f).stopped == t.stopped && TopOfFlush(t, f).final == t.final
                                      && TopOfFlush(t, f).latest == t.latest;
  }

  /** Every send ends as its settle event says, and only by one. */
  lemma {:induction false} SendsRecordTheirSettling(throttleMs: int, events: seq<Event>, i: nat, outcome: SendStatus)
    requires After(throttleMs, events).Some? && !outcome.Open?
    ensures var sends := After(throttleMs, events).value.sends;
            i < |sends| && sends[i].status == outcome <==> Settle(i, outcome) in events
  {
    if events != [] {
      var init, e := events[..|events| - 1], events[|events| - 1];
      assert events == init + [e];
      SendsRecordTheirSettling(throttleMs, init, i, outcome);
      StepSettlesExactly(After(throttleMs, init).value, e, i, outcome);
    }
  }

  lemma StepSettlesExactly(s: State, e: Event, i: nat, outcome: SendStatus)
    requires Enabled(s, e) && !outcome.Open?
    ensures (i < |Step(s, e).sends| && Step(s, e).sends[i].status == outcome)
            <==> (i < |s.sends| && s.sends[i].status == outcome) || e == Settle(i, outcome)
  {
    assert forall t: State, f: nat :: TopOfFlush(t, f).sends == t.sends
                                      || TopOfFlush(t, f).sends == t.sends + [Send(t.pending, Open)];
  }

  // ------------------------------------------------------------------ one send at a time

  /** The variable `inFlightPromise` names the only unsettled send, and each active flush awaits a send that
      was begun; an unsettled send is awaited by the flush that began it. */
  ghost predicate SingleFlight(s: State) {
    && (forall i :: 0 <= i < |s.sends| ==> (s.sends[i].status.Open? <==> s.inFlight == Some(i)))
    && (s.inFlight.Some? ==> s.inFlight.value < |s.sends|)
    && (forall f :: f in s.flushes ==> s.flushes[f].send < |s.sends| && f < s.nextFlush)
    && (s.inFlight.Some? ==> exists f :: f in s.flushes && s.flushes[f].AwaitsOwn? && s.flushes[f].send == s.inFlight.value)
  }

  lemma TopOfFlushKeepsSingleFlight(s: State, f: nat)
    requires SingleFlight(s) && f < s.nextFlush
    requires f in s.flushes && s.inFlight.Some? ==> s.flushes[f].send != s.inFlight.value
    ensures SingleFlight(TopOfFlush(s, f))
  {
    var next := TopOfFlush(s, f);
    if s.inFlight.Some? {
      var g :| g in s.flushes && s.flushes[g].AwaitsOwn? && s.flushes[g].send == s.inFlight.value;
      assert g in next.flushes && next.flushes[g] == s.flushes[g];
    } else if next.inFlight.Some? {
      assert f in next.flushes && next.flushes[f].send == |s.sends|;
    }
  }

  lemma StartFlushKeepsSingleFlight(s: State)
    requires SingleFlight(s)
    ensures SingleFlight(StartFlush(s))
  {
    TopOfFlushKeepsSingleFlight(s.(timer := None, nextFlush := s.nextFlush + 1), s.nextFlush);
  }

  lemma UpdateKeepsSingleFlight(s: State, text: string, now: int)
    requires SingleFlight(s)
    ensures SingleFlight(DoUpdate(s, text, now))
  {
    StartFlushKeepsSingleFlight(s.(pending := text, latest := text));
  }

  lemma SettleKeepsSingleFlight(s: State, send: nat, outcome: SendStatus)
    requires SingleFlight(s) && Enabled(s, Settle(send, outcome))
    ensures SingleFlight(Step(s, Settle(send, outcome)))
  {
    assert s.inFlight == Some(send);
  }

  /** The resuming flush does not own the open send, so removing or moving it leaves the owner. */
  lemma ResumeKeepsSingleFlight(s: State, f: nat, now: int)
    requires SingleFlight(s) && Enabled(s, Resume(f, now))
    ensures SingleFlight(DoResume(s, f, now))
  {
    TopOfFlushKeepsSingleFlight(s, f);
    TopOfFlushKeepsSingleFlight(s.(lastSentAt := now), f);
    if s.inFlight.Some? {
      var g :| g in s.flushes && s.flushes[g].AwaitsOwn? && s.flushes[g].send == s.inFlight.value;
      assert g in s.flushes - {f};
    }
  }

  lemma StepKeepsSingleFlight(s: State, e: Event)
    requires SingleFlight(s) && Enabled(s, e)
    ensures SingleFlight(Step(s, e))
  {
    match e
    case Update(text, now) => UpdateKeepsSingleFlight(s, text, now);
    case ControlUpdate(text, now) => UpdateKeepsSingleFlight(s, text, now);
    case CallFlush => StartFlushKeepsSingleFlight(s);
    case TimerFires(_) => StartFlushKeepsSingleFlight(s);
    case Settle(send, outcome) => SettleKeepsSingleFlight(s, send, outcome);
    case Resume(f, now) => ResumeKeepsSingleFlight(s, f, now);
    case _ =>
  }

  lemma {:induction false} ReachableSingleFlight(throttleMs: int, events: seq<Event>)
    requires After(throttleMs, events).Some?
    ensures SingleFlight(After(throttleMs, events).value)
  {
    if events != [] {
      ReachableSingleFlight(throttleMs, events[..|events| - 1]);
      StepKeepsSingleFlight(After(throttleMs, events[..|events| - 1]).value, events[|events| - 1]);
    }
  }

  /** In every run at most one send is unsettled. */
  lemma AtMostOneInFlight(throttleMs: int, events: seq<Event>, i: nat, j: nat)
    requires After(throttleMs, events).Some?
    requires i < |After(throttleMs, events).value.sends| && After(throttleMs, events).value.sends[i].status.Open?
    requires j < |After(throttleMs, events).value.sends| && After(throttleMs, events).value.sends[j].status.Open?
    ensures i == j
  {
    ReachableSingleFlight(throttleMs, events);
  }

  /** No flush waits for nothing: while flushes are active, a send is unsettled or some flush can resume. */
  lemma ActiveFlushesProgress(throttleMs: int, events: seq<Event>, now: int)
    requires After(throttleMs, events).Some? && After(throttleMs, events).value.flushes != map[]
    ensures var s := After(throttleMs, events).value;
            s.inFlight.Some? || exists f :: f in s.flushes && Enabled(s, Resume(f, now))
  {
    ReachableSingleFlight(throttleMs, events);
    var s := After(throttleMs, events).value;
    var f :| f in s.flushes;
    assert s.inFlight.None? ==> Enabled(s, Resume(f, now));
  }

  // ------------------------------------------------------------------ newest text wins

  /** The pending text is none, or the newest update. Otherwise it is stale. */
  ghost predicate PendingIsNewest(s: State) {
    s.pending == "" || s.pending == s.latest
  }

  /** A flush resumes after its own send was refused, and puts back a text that is no longer the newest. */
  predicate PutsBackStale(s: State, e: Event)
    requires Enabled(s, e)
  {
    && e.Resume? && s.flushes[e.flush].AwaitsOwn? && s.sends[s.flushes[e.flush].send].status.Refused?
    && s.flushes[e.flush].text != "" && s.flushes[e.flush].text != s.latest
  }

  /** No event of the run puts back a stale text. */
  ghost predicate NeverPutsBackStale(throttleMs: int, events: seq<Event>)
    requires After(throttleMs, events).Some?
  {
    forall k :: 0 <= k < |events| ==> NotPutBackAt(throttleMs, events, k)
  }

  ghost predicate NotPutBackAt(throttleMs: int, events: seq<Event>, k: nat)
    requires After(throttleMs, events).Some? && k < |events|
  {
    StateAtSteps(throttleMs, events, k);
    !PutsBackStale(StateAt(throttleMs, events, k), events[k])
  }

  ghost predicate AlwaysNewest(throttleMs: int, events: seq<Event>)
    requires After(throttleMs, events).Some?
  {
    forall k :: 0 <= k <= |events| ==> PendingIsNewest(StateAt(throttleMs, events, k))
  }

  lemma StepMakesStaleExactly(s: State, e: Event)
    requires PendingIsNewest(s) && Enabled(s, e)
    ensures PendingIsNewest(Step(s, e)) <==> !PutsBackStale(s, e)
  {
    assert forall t: State, f: nat :: PendingIsNewest(t) ==> PendingIsNewest(TopOfFlush(t, f));
  }

  lemma {:induction false} NewestUpTo(throttleMs: int, events: seq<Event>, k: nat)
    requires After(throttleMs, events).Some? && NeverPutsBackStale(throttleMs, events) && k <= |events|
    ensures PendingIsNewest(StateAt(throttleMs, events, k))
    decreases k
  {
    if k > 0 {
      NewestUpTo(throttleMs, events, k - 1);
      StateAtSteps(throttleMs, events, k - 1);
      assert NotPutBackAt(throttleMs, events, k - 1);
      StepMakesStaleExactly(StateAt(throttleMs, events, k - 1), events[k - 1]);
    }
  }

  /** In every run, rejections, resets and discards included, the pending text is never stale exactly when no refused
      send puts back a text that is no longer the newest. */
  lemma PendingTurnsStaleExactlyByRefusal(throttleMs: int, events: seq<Event>)
    requires After(throttleMs, events).Some?
    ensures AlwaysNewest(throttleMs, events) <==> NeverPutsBackStale(throttleMs, events)
  {
    if NeverPutsBackStale(throttleMs, events) {
      forall k | 0 <= k <= |events|
        ensures PendingIsNewest(StateAt(throttleMs, events, k))
      {
        NewestUpTo(throttleMs, events, k);
      }
    }
    if AlwaysNewest(throttleMs, events) {
      forall k | 0 <= k < |events|
        ensures NotPutBackAt(throttleMs, events, k)
      {
        StateAtSteps(throttleMs, events, k);
        assert PendingIsNewest(StateAt(throttleMs, events, k)) && PendingIsNewest(StateAt(throttleMs, events, k + 1));
        StepMakesStaleExactly(StateAt(throttleMs, events, k), events[k]);
      }
    }
  }

  lemma NewestAtTheEnd(throttleMs: int, events: seq<Event>)
    requires After(throttleMs, events).Some? && NeverPutsBackStale(throttleMs, events)
    ensures PendingIsNewest(After(throttleMs, events).value)
  {
    NewestUpTo(throttleMs, events, |events|);
    assert events[..|events|] == events;
  }

  /** What an event sends, if it begins a send. */
  ghost predicate SendsNewest(before: State, after: State) {
    && |before.sends| <= |after.sends| <= |before.sends| + 1
    && (|after.sends| > |before.sends| ==> after.sends[|before.sends|] == Send(after.latest, Open) && !IsBlank(after.latest))
  }

  lemma StepSendsNewest(s: State, e: Event)
    requires Enabled(s, e) && PendingIsNewest(s)
    ensures SendsNewest(s, Step(s, e))
  {
  }

  /** In every run that has put back no stale text, a send that an event begins carries the newest update accepted
      so far. */
  lemma SendsCarryTheNewestUpdate(throttleMs: int, events: seq<Event>, e: Event)
    requires After(throttleMs, events).Some? && Enabled(After(throttleMs, events).value, e)
    requires NeverPutsBackStale(throttleMs, events)
    ensures var before := After(throttleMs, events).value; SendsNewest(before, Step(before, e))
  {
    NewestAtTheEnd(throttleMs, events);
    StepSendsNewest(After(throttleMs, events).value, e);
  }

  // ------------------------------------------------------------------ runs without refusals

  ghost predicate NothingRefused(events: seq<Event>) {
    forall k :: 0 <= k < |events| ==> !(events[k].Settle? && events[k].outcome.Refused?)
  }

  lemma {:induction false} NoSendRefused(throttleMs: int, events: seq<Event>)
    requires After(throttleMs, events).Some? && NothingRefused(events)
    ensures forall i :: 0 <= i < |After(throttleMs, events).value.sends| ==>
              !After(throttleMs, events).value.sends[i].status.Refused?
  {
    if events != [] {
      NoSendRefused(throttleMs, events[..|events| - 1]);
      assert !(events[|events| - 1].Settle? && events[|events| - 1].outcome.Refused?);
      StepRefusesNothing(After(throttleMs, events[..|events| - 1]).value, events[|events| - 1]);
    }
  }

  lemma StepRefusesNothing(s: State, e: Event)
    requires Enabled(s, e) && !(e.Settle? && e.outcome.Refused?)
    requires forall i :: 0 <= i < |s.sends| ==> !s.sends[i].status.Refused?
    ensures forall i :: 0 <= i < |Step(s, e).sends| ==> !Step(s, e).sends[i].status.Refused?
  {
  }

  /** If no send is refused, none is put back: every send carries the newest update, whatever is rejected, reset or
      discarded. */
  lemma WithoutRefusalsNothingIsStale(throttleMs: int, events: seq<Event>)
    requires After(throttleMs, events).Some? && NothingRefused(events)
    ensures NeverPutsBackStale(throttleMs, events)
  {
    forall k | 0 <= k < |events|
      ensures NotPutBackAt(throttleMs, events, k)
    {
      StateAtSteps(throttleMs, events, k);
      PrefixExists(throttleMs, events, k);
      NoSendRefused(throttleMs, events[..k]);
    }
  }

  // ------------------------------------------------------------------ nothing is left behind

  /** A text waits to be sent, and neither a timer nor a flush will send it. */
  predicate Stranded(s: State) {
    !IsBlank(s.pending) && !s.stopped && s.timer.None? && s.flushes == map[]
  }

  /** The timer is dropped while a text waits for it; or the last active flush ends by a rejection while a text waits,
      or by putting back its own text, and no timer is set. */
  predicate Strands(s: State, e: Event)
    requires Enabled(s, e)
  {
    match e
    case ResetThrottleWindow => !IsBlank(s.pending) && !s.stopped && s.flushes == map[]
    case Resume(f, _) =>
      var status := s.sends[s.flushes[f].send].status;
      && !s.stopped && s.timer.None? && s.flushes - {f} == map[]
      && ((status.Failed? && !IsBlank(s.pending))
          || (status.Refused? && s.flushes[f].AwaitsOwn? && !IsBlank(s.flushes[f].text)))
    case _ => false
  }

  ghost predicate NotStrandedAt(throttleMs: int, events: seq<Event>, k: nat)
    requires After(throttleMs, events).Some? && k < |events|
  {
    StateAtSteps(throttleMs, events, k);
    !Strands(StateAt(throttleMs, events, k), events[k])
  }

  lemma TopOfFlushStrandsNothing(s: State, f: nat)
    ensures !Stranded(TopOfFlush(s, f))
  {
    assert s.inFlight.Some? && !s.stopped ==> f in TopOfFlush(s, f).flushes;
    assert !s.stopped && s.inFlight.None? && !IsBlank(s.pending) ==> f in TopOfFlush(s, f).flushes;
    assert IsBlank("");
  }

  lemma StepStrandsExactly(s: State, e: Event)
    requires !Stranded(s) && Enabled(s, e)
    ensures Stranded(Step(s, e)) <==> Strands(s, e)
  {
    match e
    case Update(text, now) => UpdateStrandsNothing(s, text, now);
    case ControlUpdate(text, now) => UpdateStrandsNothing(s, text, now);
    case CallFlush => StartFlushStrandsNothing(s);
    case TimerFires(_) => StartFlushStrandsNothing(s);
    case Resume(f, now) =>
      TopOfFlushStrandsNothing(s, f);
      TopOfFlushStrandsNothing(s.(lastSentAt := now), f);
    case _ =>
  }

  lemma StartFlushStrandsNothing(s: State)
    ensures !Stranded(StartFlush(s))
  {
    TopOfFlushStrandsNothing(s.(timer := None, nextFlush := s.nextFlush + 1), s.nextFlush);
  }

  lemma UpdateStrandsNothing(s: State, text: string, now: int)
    requires !Stranded(s)
    ensures !Stranded(DoUpdate(s, text, now))
  {
    StartFlushStrandsNothing(s.(pending := text, latest := text));
  }

  lemma {:induction false} NotStrandedUpTo(throttleMs: int, events: seq<Event>, k: nat)
    requires After(throttleMs, events).Some? && k <= |events|
    requires forall j :: 0 <= j < |events| ==> NotStrandedAt(throttleMs, events, j)
    ensures !Stranded(StateAt(throttleMs, events, k))
    decreases k
  {
    if k > 0 {
      NotStrandedUpTo(throttleMs, events, k - 1);
      StateAtSteps(throttleMs, events, k - 1);
      assert NotStrandedAt(throttleMs, events, k - 1);
      StepStrandsExactly(StateAt(throttleMs, events, k - 1), events[k - 1]);
    }
  }

  /** In every run, a pending text that is not blank always has a timer or an active flush, unless the stream was
      stopped, exactly when no event of the run strands one. */
  lemma TextIsStrandedExactly(throttleMs: int, events: seq<Event>)
    requires After(throttleMs, events).Some?
    ensures (forall k :: 0 <= k <= |events| ==> !Stranded(StateAt(throttleMs, events, k)))
            <==> forall k :: 0 <= k < |events| ==> NotStrandedAt(throttleMs, events, k)
  {
    if forall k :: 0 <= k < |events| ==> NotStrandedAt(throttleMs, events, k) {
      forall k | 0 <= k <= |events|
        ensures !Stranded(StateAt(throttleMs, events, k))
      {
        NotStrandedUpTo(throttleMs, events, k);
      }
    }
    if forall k :: 0 <= k <= |events| ==> !Stranded(StateAt(throttleMs, events, k)) {
      forall k | 0 <= k < |events|
        ensures NotStrandedAt(throttleMs, events, k)
      {
        StateAtSteps(throttleMs, events, k);
        assert !Stranded(StateAt(throttleMs, events, k)) && !Stranded(StateAt(throttleMs, events, k + 1));
        StepStrandsExactly(StateAt(throttleMs, events, k), events[k]);
      }
    }
  }

  /** No send was refused or rejected, and the throttle window is not reset. */
  predicate IsClean(e: Event) {
    && (e.Settle? ==> e.outcome.Delivered?)
    && !e.ResetThrottleWindow?
  }

  ghost predicate Clean(events: seq<Event>) {
    forall k :: 0 <= k < |events| ==> IsClean(events[k])
  }

  ghost predicate NoneFailed(s: State) {
    forall i :: 0 <= i < |s.sends| ==> s.sends[i].status.Open? || s.sends[i].status.Delivered?
  }

  lemma {:induction false} CleanRunsFailNothing(throttleMs: int, events: seq<Event>)
    requires After(throttleMs, events).Some? && Clean(events)
    ensures NoneFailed(After(throttleMs, events).value)
  {
    if events != [] {
      CleanRunsFailNothing(throttleMs, events[..|events| - 1]);
      assert IsClean(events[|events| - 1]);
      CleanStepFailsNothing(After(throttleMs, events[..|events| - 1]).value, events[|events| - 1]);
    }
  }

  lemma CleanStepFailsNothing(s: State, e: Event)
    requires Enabled(s, e) && IsClean(e) && NoneFailed(s)
    ensures NoneFailed(Step(s, e))
  {
  }

  /** In a clean run, a pending text that is not blank has a timer or an active flush, unless the stream was stopped. */
  lemma PendingTextIsNeverStranded(throttleMs: int, events: seq<Event>)
    requires Clean(events) && After(throttleMs, events).Some?
    ensures var s := After(throttleMs, events).value;
            !IsBlank(s.pending) && !s.stopped ==> s.timer.Some? || s.flushes != map[]
  {
    forall k | 0 <= k < |events|
      ensures NotStrandedAt(throttleMs, events, k)
    {
      assert IsClean(events[k]);
      StateAtSteps(throttleMs, events, k);
      PrefixExists(throttleMs, events, k);
      CleanRunsFailNothing(throttleMs, events[..k]);
    }
    NotStrandedUpTo(throttleMs, events, |events|);
    assert events[..|events|] == events;
  }

  // ------------------------------------------------------------------ what becomes of the newest text

  /** No text was thrown away on purpose. */
  ghost predicate NothingDiscarded(events: seq<Event>) {
    forall k :: 0 <= k < |events| ==> !events[k].StopLoop? && !events[k].ResetPending?
  }

  /** A flush that awaits its own send remembers the text of that send, which is not blank. */
  ghost predicate OwnTexts(s: State) {
    forall f :: f in s.flushes && s.flushes[f].AwaitsOwn? ==>
      s.flushes[f].send < |s.sends| && s.flushes[f].text == s.sends[s.flushes[f].send].text && !IsBlank(s.flushes[f].text)
  }

  /** The newest update is blank, still pending, or the text of the last send begun; and if that was refused, its
      flush is still to put the text back. */
  ghost predicate NewestAccountedFor(s: State) {
    || IsBlank(s.latest)
    || s.pending == s.latest
    || (s.sends != [] && s.sends[|s.sends| - 1].text == s.latest && (s.sends[|s.sends| - 1].status.Refused? ==> PutsBackLast(s)))
  }

  ghost predicate PutsBackLast(s: State) {
    s.sends != [] && exists f :: f in s.flushes && s.flushes[f] == AwaitsOwn(|s.sends| - 1, s.latest)
  }

  lemma TopOfFlushAccountsForNewest(s: State, f: nat)
    requires NewestAccountedFor(s) && PendingIsNewest(s)
    requires f in s.flushes && s.flushes[f].AwaitsOwn? && s.flushes[f].send < |s.sends| ==>
               !s.sends[s.flushes[f].send].status.Refused?
    ensures NewestAccountedFor(TopOfFlush(s, f))
  {
    if PutsBackLast(s) && s.sends[|s.sends| - 1].status.Refused? {
      var g :| g in s.flushes && s.flushes[g] == AwaitsOwn(|s.sends| - 1, s.latest);
      assert g != f;
      assert |TopOfFlush(s, f).sends| == |s.sends| ==>
        g in TopOfFlush(s, f).flushes && TopOfFlush(s, f).flushes[g] == s.flushes[g];
    }
  }

  lemma StartFlushAccountsForNewest(s: State)
    requires NewestAccountedFor(s) && PendingIsNewest(s) && s.nextFlush !in s.flushes
    ensures NewestAccountedFor(StartFlush(s))
  {
    var t := s.(timer := None, nextFlush := s.nextFlush + 1);
    assert PutsBackLast(s) ==> PutsBackLast(t);
    TopOfFlushAccountsForNewest(t, s.nextFlush);
  }

  lemma ResumeAccountsForNewest(s: State, f: nat, now: int)
    requires NewestAccountedFor(s) && PendingIsNewest(s) && OwnTexts(s) && Enabled(s, Resume(f, now))
    requires !PutsBackStale(s, Resume(f, now))
    ensures NewestAccountedFor(DoResume(s, f, now))
  {
    var flush, status := s.flushes[f], s.sends[s.flushes[f].send].status;
    if flush.AwaitsOwn? && status.Refused? {
      assert IsBlank("");
      assert DoResume(s, f, now).pending == s.latest;
    } else {
      var t := s.(lastSentAt := now);
      assert PutsBackLast(s) ==> PutsBackLast(t);
      TopOfFlushAccountsForNewest(s, f);
      TopOfFlushAccountsForNewest(t, f);
      if PutsBackLast(s) && s.sends[|s.sends| - 1].status.Refused? {
        var g :| g in s.flushes && s.flushes[g] == AwaitsOwn(|s.sends| - 1, s.latest);
        assert g in s.flushes - {f};
      }
    }
  }

  lemma SettleAccountsForNewest(s: State, send: nat, outcome: SendStatus)
    requires NewestAccountedFor(s) && OwnTexts(s) && SingleFlight(s) && Enabled(s, Settle(send, outcome))
    ensures NewestAccountedFor(Step(s, Settle(send, outcome)))
  {
    var next := Step(s, Settle(send, outcome));
    assert s.inFlight == Some(send);
    var g :| g in s.flushes && s.flushes[g].AwaitsOwn? && s.flushes[g].send == send;
    if send == |s.sends| - 1 {
      assert s.sends[send].text == s.latest ==> next.flushes[g] == AwaitsOwn(|next.sends| - 1, next.latest);
    } else {
      assert next.sends[|s.sends| - 1] == s.sends[|s.sends| - 1];
      assert PutsBackLast(s) ==> PutsBackLast(next);
    }
  }

  lemma StepAccountsForNewest(s: State, e: Event)
    requires NewestAccountedFor(s) && PendingIsNewest(s) && OwnTexts(s) && SingleFlight(s) && Enabled(s, e)
    requires !PutsBackStale(s, e) && !e.StopLoop? && !e.ResetPending?
    ensures NewestAccountedFor(Step(s, e))
  {
    assert s.nextFlush !in s.flushes;
    match e
    case Update(text, now) => StartFlushAccountsForNewest(s.(pending := text, latest := text));
    case ControlUpdate(text, now) => StartFlushAccountsForNewest(s.(pending := text, latest := text));
    case CallFlush => StartFlushAccountsForNewest(s);
    case TimerFires(_) => StartFlushAccountsForNewest(s);
    case Resume(f, now) => ResumeAccountsForNewest(s, f, now);
    case Settle(send, outcome) => SettleAccountsForNewest(s, send, outcome);
    case ResetThrottleWindow => assert PutsBackLast(s) ==> PutsBackLast(Step(s, ResetThrottleWindow));
    case MarkStopped => assert PutsBackLast(s) ==> PutsBackLast(Step(s, MarkStopped));
    case MarkFinal => assert PutsBackLast(s) ==> PutsBackLast(Step(s, MarkFinal));
    case _ =>
  }

  lemma TopOfFlushKeepsOwnTexts(s: State, f: nat)
    requires OwnTexts(s)
    ensures OwnTexts(TopOfFlush(s, f))
  {
  }

  lemma UpdateKeepsOwnTexts(s: State, text: string, now: int)
    requires OwnTexts(s)
    ensures OwnTexts(DoUpdate(s, text, now))
  {
    TopOfFlushKeepsOwnTexts(s.(pending := text, latest := text, timer := None, nextFlush := s.nextFlush + 1), s.nextFlush);
  }

  lemma ResumeKeepsOwnTexts(s: State, f: nat, now: int)
    requires OwnTexts(s) && Enabled(s, Resume(f, now))
    ensures OwnTexts(DoResume(s, f, now))
  {
    TopOfFlushKeepsOwnTexts(s, f);
    TopOfFlushKeepsOwnTexts(s.(lastSentAt := now), f);
  }

  lemma SettleKeepsOwnTexts(s: State, send: nat, outcome: SendStatus)
    requires OwnTexts(s) && Enabled(s, Settle(send, outcome))
    ensures OwnTexts(Step(s, Settle(send, outcome)))
  {
  }

  lemma StepKeepsOwnTexts(s: State, e: Event)
    requires OwnTexts(s) && Enabled(s, e)
    ensures OwnTexts(Step(s, e))
  {
    match e
    case Update(text, now) => UpdateKeepsOwnTexts(s, text, now);
    case ControlUpdate(text, now) => UpdateKeepsOwnTexts(s, text, now);
    case CallFlush => TopOfFlushKeepsOwnTexts(s.(timer := None, nextFlush := s.nextFlush + 1), s.nextFlush);
    case TimerFires(_) => TopOfFlushKeepsOwnTexts(s.(timer := None, nextFlush := s.nextFlush + 1), s.nextFlush);
    case Resume(f, now) => ResumeKeepsOwnTexts(s, f, now);
    case Settle(send, outcome) => SettleKeepsOwnTexts(s, send, outcome);
    case _ =>
  }

  lemma {:induction false} AccountedUpTo(throttleMs: int, events: seq<Event>, k: nat)
    requires After(throttleMs, events).Some? && NeverPutsBackStale(throttleMs, events) && NothingDiscarded(events)
    requires k <= |events|
    ensures NewestAccountedFor(StateAt(throttleMs, events, k)) && OwnTexts(StateAt(throttleMs, events, k))
    decreases k
  {
    if k == 0 {
      assert IsBlank("");
    } else {
      var s, e := StateAt(throttleMs, events, k - 1), events[k - 1];
      AccountedUpTo(throttleMs, events, k - 1);
      StateAtSteps(throttleMs, events, k - 1);
      NewestUpTo(throttleMs, events, k - 1);
      PrefixExists(throttleMs, events, k - 1);
      ReachableSingleFlight(throttleMs, events[..k - 1]);
      assert NotPutBackAt(throttleMs, events, k - 1) && !e.StopLoop? && !e.ResetPending?;
      StepAccountsForNewest(s, e);
      StepKeepsOwnTexts(s, e);
    }
  }

  /** The newest update is blank, still pending, delivered by the last send, or lost because that send rejected. */
  ghost predicate NewestSettled(s: State) {
    || IsBlank(s.latest)
    || s.pending == s.latest
    || (s.sends != [] && (s.sends[|s.sends| - 1] == Send(s.latest, Delivered) || s.sends[|s.sends| - 1] == Send(s.latest, Failed)))
  }

  lemma WithoutFlushesNewestIsSettled(s: State)
    requires NewestAccountedFor(s) && SingleFlight(s) && s.flushes == map[]
    ensures NewestSettled(s)
  {
  }

  /** What has become of the newest update once no flush is active, in any run that has discarded nothing and put back
      nothing stale: only a rejected send can have lost it. */
  lemma AtRestTheNewestIsAccountedFor(throttleMs: int, events: seq<Event>)
    requires After(throttleMs, events).Some? && NeverPutsBackStale(throttleMs, events) && NothingDiscarded(events)
    requires After(throttleMs, events).value.flushes == map[]
    ensures NewestSettled(After(throttleMs, events).value)
  {
    AccountedUpTo(throttleMs, events, |events|);
    ReachableSingleFlight(throttleMs, events);
    assert events[..|events|] == events;
    WithoutFlushesNewestIsSettled(After(throttleMs, events).value);
  }

  /** When a clean run comes to rest, with no timer, no active flush, nothing discarded and the stream not
      stopped, the newest update has been delivered by the last send, unless it was blank. */
  lemma AtRestTheNewestIsDelivered(throttleMs: int, events: seq<Event>)
    requires After(throttleMs, events).Some? && Clean(events) && NothingDiscarded(events)
    requires var s := After(throttleMs, events).value; s.timer.None? && s.flushes == map[] && !s.stopped
    ensures var s := After(throttleMs, events).value;
            IsBlank(s.latest) || (s.sends != [] && s.sends[|s.sends| - 1] == Send(s.latest, Delivered))
  {
    assert NothingRefused(events) by {
      assert forall k :: 0 <= k < |events| ==> IsClean(events[k]);
    }
    WithoutRefusalsNothingIsStale(throttleMs, events);
    AtRestTheNewestIsAccountedFor(throttleMs, events);
    PendingTextIsNeverStranded(throttleMs, events);
    CleanRunsFailNothing(throttleMs, events);
  }

  // ------------------------------------------------------------------ the throttle

  /** A flush finds that its own send was delivered. */
  predicate Delivers(s: State, e: Event)
    requires Enabled(s, e)
  {
    e.Resume? && s.flushes[e.flush].AwaitsOwn? && s.sends[s.flushes[e.flush].send].status.Delivered?
  }

  /** The time of the last delivery found in a run since its last throttle reset, or 0. */
  ghost function LastDelivery(throttleMs: int, events: seq<Event>): int
    requires After(throttleMs, events).Some?
  {
    if events == [] then 0
    else
      var init, e := events[..|events| - 1], events[|events| - 1];
      if Delivers(After(throttleMs, init).value, e) then e.now
      else if e.ResetThrottleWindow? then 0
      else LastDelivery(throttleMs, init)
  }

  lemma StepSetsLastSent(s: State, e: Event)
    requires Enabled(s, e)
    ensures Step(s, e).lastSentAt == if Delivers(s, e) then e.now else if e.ResetThrottleWindow? then 0 else s.lastSentAt
  {
    assert forall t: State, f: nat :: TopOfFlush(t, f).lastSentAt == t.lastSentAt;
  }

  lemma {:induction false} LastSentIsLastDelivery(throttleMs: int, events: seq<Event>)
    requires After(throttleMs, events).Some?
    ensures After(throttleMs, events).value.lastSentAt == LastDelivery(throttleMs, events)
    ensures After(throttleMs, events).value.throttleMs == throttleMs
  {
    if events != [] {
      var s, e := After(throttleMs, events[..|events| - 1]).value, events[|events| - 1];
      LastSentIsLastDelivery(throttleMs, events[..|events| - 1]);
      StepSetsLastSent(s, e);
      StepKeepsThrottle(s, e);
    }
  }

  lemma StepKeepsThrottle(s: State, e: Event)
    requires Enabled(s, e)
    ensures Step(s, e).throttleMs == s.throttleMs
  {
    assert forall t: State, f: nat :: TopOfFlush(t, f).throttleMs == t.throttleMs;
  }

  ghost predicate SomeSendIsOpen(s: State) {
    exists i :: 0 <= i < |s.sends| && s.sends[i].status.Open?
  }

  function Later(a: int, b: int): int {
    if a >= b then a else b
  }

  /** What an update does to a stream that is not stopped and whose last delivery was at the given time: it is sent at
      once exactly if it is not blank, no send is open, no timer is set and the throttle time has passed; otherwise a
      text that is not blank waits, and there is a timer: the one that was set, or one due when the throttle allows. */
  ghost predicate UpdatedByTheThrottle(s: State, after: State, delivery: int, text: string, now: int) {
    var sends := !IsBlank(text) && !SomeSendIsOpen(s) && s.timer.None? && now - delivery >= s.throttleMs;
    && after.sends == (if sends then s.sends + [Send(text, Open)] else s.sends)
    && (!sends && !IsBlank(text) ==> after.pending == text && after.timer.Some?)
    && (s.timer.Some? ==> after.timer == s.timer)
    && (s.timer.None? && after.timer.Some? ==> after.timer.value == Later(now, delivery + s.throttleMs))
  }

  lemma UpdateFollowsTheThrottle(s: State, text: string, now: int)
    requires SingleFlight(s) && !s.stopped
    ensures UpdatedByTheThrottle(s, DoUpdate(s, text, now), s.lastSentAt, text, now)
  {
    assert s.inFlight.Some? ==> s.sends[s.inFlight.value].status.Open?;
  }

  /** In every run updates follow the throttle, counted from the last delivery; once the stream is stopped, and through the
      controls once it is final, they do nothing. */
  lemma UpdatesFollowTheThrottle(throttleMs: int, events: seq<Event>, text: string, now: int)
    requires After(throttleMs, events).Some?
    ensures var s, delivery := After(throttleMs, events).value, LastDelivery(throttleMs, events);
            && s.throttleMs == throttleMs
            && (!s.stopped ==> UpdatedByTheThrottle(s, Step(s, Update(text, now)), delivery, text, now))
            && (s.stopped ==> Step(s, Update(text, now)) == s)
            && Step(s, ControlUpdate(text, now)) == if s.final then s else Step(s, Update(text, now))
  {
    ReachableSingleFlight(throttleMs, events);
    LastSentIsLastDelivery(throttleMs, events);
    if !After(throttleMs, events).value.stopped {
      UpdateFollowsTheThrottle(After(throttleMs, events).value, text, now);
    }
  }

  /** Which other events begin a send: a flush that is called, started by the timer, or resumed after another's send or
      its own delivery, if the stream is not stopped, no send is open and the pending text is not blank. */
  ghost predicate FlushSends(s: State, e: Event)
    requires Enabled(s, e)
  {
    && !s.stopped && !SomeSendIsOpen(s) && !IsBlank(s.pending)
    && (e.CallFlush? || e.TimerFires?
        || (e.Resume? && !s.sends[s.flushes[e.flush].send].status.Failed?
            && (s.flushes[e.flush].AwaitsOther? || s.sends[s.flushes[e.flush].send].status.Delivered?)))
  }

  lemma StepSendsExactly(s: State, e: Event)
    requires SingleFlight(s) && Enabled(s, e) && !e.Update? && !e.ControlUpdate?
    ensures |Step(s, e).sends| == |s.sends| + (if FlushSends(s, e) then 1 else 0)
    ensures FlushSends(s, e) ==> Step(s, e).sends == s.sends + [Send(s.pending, Open)]
  {
    assert s.inFlight.Some? ==> s.sends[s.inFlight.value].status.Open?;
    assert IsBlank("");
  }

  /** In every run, an event that is not an update begins a send exactly in these cases, and sends the pending text. */
  lemma FlushesSendExactly(throttleMs: int, events: seq<Event>, e: Event)
    requires After(throttleMs, events).Some? && Enabled(After(throttleMs, events).value, e)
    requires !e.Update? && !e.ControlUpdate?
    ensures var s := After(throttleMs, events).value;
            && |Step(s, e).sends| == |s.sends| + (if FlushSends(s, e) then 1 else 0)
            && (FlushSends(s, e) ==> Step(s, e).sends == s.sends + [Send(s.pending, Open)])
  {
    ReachableSingleFlight(throttleMs, events);
    StepSendsExactly(After(throttleMs, events).value, e);
  }

  // ------------------------------------------------------------------ timers and the throttle

  function TimeOf(e: Event): Option<int> {
    match e
    case Update(_, now) => Some(now)
    case ControlUpdate(_, now) => Some(now)
    case TimerFires(now) => Some(now)
    case Resume(_, now) => Some(now)
    case _ => None
  }

  /** The last time read, from 0. */
  function Clock(events: seq<Event>): int {
    if events == [] then 0
    else
      match TimeOf(events[|events| - 1])
      case Some(now) => now
      case None => Clock(events[..|events| - 1])
  }

  /** The clock does not run backwards. */
  ghost predicate InTime(events: seq<Event>) {
    events != [] ==>
      && InTime(events[..|events| - 1])
      && (TimeOf(events[|events| - 1]).Some? ==> Clock(events[..|events| - 1]) <= TimeOf(events[|events| - 1]).value)
  }

  /** When the timer that is set was set, and the last delivery at that time. */
  datatype Arming = Arming(at: int, delivery: int)

  ghost function LastArming(throttleMs: int, events: seq<Event>): Arming
    requires After(throttleMs, events).Some?
  {
    if events == [] then Arming(0, 0)
    else
      var init, e := events[..|events| - 1], events[|events| - 1];
      if After(throttleMs, init).value.timer.None? && After(throttleMs, events).value.timer.Some?
      then Arming(Clock(events), LastDelivery(throttleMs, init))
      else LastArming(throttleMs, init)
  }

  /** The timer that is set is due when the throttle allows a send after the delivery known when it was set; and since
      then either no delivery was found, or one no earlier than that moment. */
  ghost predicate TimerIsArmed(s: State, arming: Arming, delivery: int, clock: int) {
    && 0 <= delivery <= clock
    && (s.timer.Some? ==>
          && s.timer.value == Later(arming.at, arming.delivery + s.throttleMs)
          && arming.delivery <= arming.at <= clock
          && (delivery == arming.delivery || arming.at <= delivery))
  }

  lemma StepKeepsOrSetsTimer(s: State, e: Event)
    requires Enabled(s, e)
    ensures s.timer.Some? && Step(s, e).timer.Some? ==> Step(s, e).timer == s.timer && !e.ResetThrottleWindow?
    ensures s.timer.None? && Step(s, e).timer.Some? ==>
              && (e.Update? || e.ControlUpdate?)
              && Step(s, e).timer.value == Later(TimeOf(e).value, s.lastSentAt + s.throttleMs)
  {
    assert forall t: State, f: nat :: TopOfFlush(t, f).timer == t.timer;
  }

  lemma {:induction false} TimersAreArmed(throttleMs: int, events: seq<Event>)
    requires After(throttleMs, events).Some? && InTime(events)
    ensures TimerIsArmed(After(throttleMs, events).value, LastArming(throttleMs, events), LastDelivery(throttleMs, events), Clock(events))
  {
    if events != [] {
      var init, e := events[..|events| - 1], events[|events| - 1];
      var s := After(throttleMs, init).value;
      TimersAreArmed(throttleMs, init);
      LastSentIsLastDelivery(throttleMs, init);
      StepKeepsOrSetsTimer(s, e);
      StepKeepsThrottle(s, e);
    }
  }

  /** A timer keeps the throttle, whenever it fires from now on, exactly if no delivery was found since it was set or the
      throttle time after that delivery has passed already. */
  lemma TimerKeepsTheThrottleExactly(throttleMs: int, events: seq<Event>)
    requires After(throttleMs, events).Some? && InTime(events) && After(throttleMs, events).value.timer.Some?
    ensures var s, delivery := After(throttleMs, events).value, LastDelivery(throttleMs, events);
            (forall now :: Clock(events) <= now && Enabled(s, TimerFires(now)) ==> now - delivery >= throttleMs)
            <==> delivery == LastArming(throttleMs, events).delivery || Clock(events) - delivery >= throttleMs
  {
    TimersAreArmed(throttleMs, events);
    LastSentIsLastDelivery(throttleMs, events);
    var s, delivery, clock := After(throttleMs, events).value, LastDelivery(throttleMs, events), Clock(events);
    assert Enabled(s, TimerFires(Later(s.timer.value, clock)));
  }

  // ------------------------------------------------------------------ stopping

  lemma StoppedStepSendsNothing(s: State, e: Event)
    requires s.stopped && Enabled(s, e)
    ensures Step(s, e).stopped && |Step(s, e).sends| == |s.sends|
    ensures s.inFlight.None? ==> Step(s, e).inFlight.None?
  {
    assert forall f: nat, t: State :: t.stopped ==> TopOfFlush(t, f) == t.(flushes := t.flushes - {f});
  }

  /** Once the stream is marked stopped, no later event begins a send. */
  lemma {:induction false} NoSendAfterStop(throttleMs: int, events: seq<Event>, later: seq<Event>)
    requires After(throttleMs, events).Some? && After(throttleMs, events).value.stopped
    requires After(throttleMs, events + later).Some?
    ensures var before, after := After(throttleMs, events).value, After(throttleMs, events + later).value;
            && after.stopped && |after.sends| == |before.sends|
            && (before.inFlight.None? ==> after.inFlight.None?)
    decreases |later|
  {
    if later == [] {
      assert events + later == events;
    } else {
      assert (events + later)[..|events + later| - 1] == events + later[..|later| - 1];
      NoSendAfterStop(throttleMs, events, later[..|later| - 1]);
      StoppedStepSendsNothing(After(throttleMs, events + later[..|later| - 1]).value, later[|later| - 1]);
    }
  }

  /** Once the stream is final, updates through the controls change nothing, so what the last flush delivers is the
      newest update accepted before. */
  lemma {:induction false} NoUpdateAfterFinal(throttleMs: int, events: seq<Event>, later: seq<Event>)
    requires After(throttleMs, events).Some? && After(throttleMs, events).value.final
    requires After(throttleMs, events + later).Some?
    requires forall k :: 0 <= k < |later| ==> !later[k].Update?
    ensures var before, after := After(throttleMs, events).value, After(throttleMs, events + later).value;
            after.final && after.latest == before.latest
    decreases |later|
  {
    if later == [] {
      assert events + later == events;
    } else {
      var init, e := later[..|later| - 1], later[|later| - 1];
      assert (events + later)[..|events + later| - 1] == events + init;
      NoUpdateAfterFinal(throttleMs, events, init);
      FinalStepKeepsLatest(After(throttleMs, events + init).value, e);
    }
  }

  lemma FinalStepKeepsLatest(s: State, e: Event)
    requires s.final && Enabled(s, e) && !e.Update?
    ensures Step(s, e).final && Step(s, e).latest == s.latest
  {
    assert forall f: nat, t: State :: TopOfFlush(t, f).final == t.final && TopOfFlush(t, f).latest == t.latest;
  }

  // ------------------------------------------------------------------ runs that lose a text

  lemma AfterAppend(throttleMs: int, events: seq<Event>, e: Event)
    requires After(throttleMs, events).Some? && Enabled(After(throttleMs, events).value, e)
    ensures After(throttleMs, events + [e]) == Some(Step(After(throttleMs, events).value, e))
  {
    assert (events + [e])[..|events|] == events;
  }

  /** A run in which an old text is sent again after a newer update was accepted. */
  lemma RefusalLosesANewerUpdate()
    ensures var events := [] + [Update("a", 0)] + [Update("b", 1)] + [Settle(0, Refused)] + [Resume(0, 2)] + [TimerFires(9)];
            var end := After(0, events);
            end.Some? && end.value.latest == "b" && end.value.sends == [Send("a", Refused), Send("a", Open)]
  {
    RefusalPutsBack();
    var put := [] + [Update("a", 0)] + [Update("b", 1)] + [Settle(0, Refused)] + [Resume(0, 2)];
    assert "a"[0] == 'a' && !IsSpace('a');
    AfterAppend(0, put, TimerFires(9));
  }

  lemma RefusalPutsBack()
    ensures After(0, [] + [Update("a", 0)] + [Update("b", 1)] + [Settle(0, Refused)] + [Resume(0, 2)])
            == Some(State(0, 0, "a", None, Some(1), false, false, map[], 1, [Send("a", Refused)], "b"))
  {
    var e0: seq<Event> := [];
    var e1 := e0 + [Update("a", 0)];
    var e2 := e1 + [Update("b", 1)];
    var e3 := e2 + [Settle(0, Refused)];
    assert "a"[0] == 'a' && !IsSpace('a');
    AfterAppend(0, e0, Update("a", 0));
    assert After(0, e1).value.sends == [Send("a", Open)] && After(0, e1).value.flushes == map[0 := AwaitsOwn(0, "a")];
    AfterAppend(0, e1, Update("b", 1));
    AfterAppend(0, e2, Settle(0, Refused));
    assert After(0, e3).value.sends == [Send("a", Refused)];
    AfterAppend(0, e3, Resume(0, 2));
    assert After(0, e3 + [Resume(0, 2)]).value.flushes == map[];
  }

  /** A run in which the only text is lost because its send rejects: nothing is pending and nothing will send it. */
  lemma RejectionLosesTheNewestText()
    ensures var events := [] + [Update("a", 0)] + [Settle(0, Failed)] + [Resume(0, 2)];
            var end := After(0, events);
            && end.Some? && end.value.latest == "a" && end.value.sends == [Send("a", Failed)]
            && end.value.pending == "" && end.value.timer.None? && end.value.flushes == map[] && !end.value.stopped
  {
    var e0: seq<Event> := [];
    var e1 := e0 + [Update("a", 0)];
    var e2 := e1 + [Settle(0, Failed)];
    assert "a"[0] == 'a' && !IsSpace('a');
    AfterAppend(0, e0, Update("a", 0));
    assert After(0, e1).value.sends == [Send("a", Open)] && After(0, e1).value.flushes == map[0 := AwaitsOwn(0, "a")];
    AfterAppend(0, e1, Settle(0, Failed));
    AfterAppend(0, e2, Resume(0, 2));
    assert map[0 := AwaitsOwn(0, "a")] - {0} == map[];
  }

  // ------------------------------------------------------------------ a timer that sends too early

  function EarlyEvent(k: nat): Event {
    match k
    case 0 => Update("a", 0)
    case 1 => CallFlush
    case 2 => Update("b", 1)
    case 3 => Settle(0, Delivered)
    case 4 => Resume(0, 2)
    case 5 => Settle(1, Delivered)
    case 6 => Resume(0, 3)
    case 7 => Update("c", 4)
    case _ => TimerFires(1000)
  }

  function EarlyRun(k: nat): seq<Event> {
    if k == 0 then [] else EarlyRun(k - 1) + [EarlyEvent(k - 1)]
  }

  /** The state after k of the events, with throttle 1000. */
  function EarlyState(k: nat): State {
    var a, b := Send("a", Delivered), Send("b", Delivered);
    match k
    case 0 => Initial(1000)
    case 1 => State(1000, 0, "a", None, Some(1000), false, false, map[], 0, [], "a")
    case 2 => State(1000, 0, "", Some(0), None, false, false, map[0 := AwaitsOwn(0, "a")], 1, [Send("a", Open)], "a")
    case 3 => State(1000, 0, "b", Some(0), Some(1000), false, false, map[0 := AwaitsOwn(0, "a")], 1, [Send("a", Open)], "b")
    case 4 => State(1000, 0, "b", None, Some(1000), false, false, map[0 := AwaitsOwn(0, "a")], 1, [a], "b")
    case 5 => State(1000, 2, "", Some(1), Some(1000), false, false, map[0 := AwaitsOwn(1, "b")], 1, [a, Send("b", Open)], "b")
    case 6 => State(1000, 2, "", None, Some(1000), false, false, map[0 := AwaitsOwn(1, "b")], 1, [a, b], "b")
    case 7 => State(1000, 3, "", None, Some(1000), false, false, map[], 1, [a, b], "b")
    case 8 => State(1000, 3, "c", None, Some(1000), false, false, map[], 1, [a, b], "c")
    case _ => State(1000, 3, "", Some(2), None, false, false, map[1 := AwaitsOwn(2, "c")], 2, [a, b, Send("c", Open)], "c")
  }

  lemma NotBlank(text: string)
    requires text != "" && !IsSpace(text[0])
    ensures !IsBlank(text)
  {
  }

  lemma EarlyStep(k: nat)
    requires k < 9
    ensures Enabled(EarlyState(k), EarlyEvent(k)) && Step(EarlyState(k), EarlyEvent(k)) == EarlyState(k + 1)
  {
    if k < 4 {
      FirstEarlyStep(k);
    } else {
      LaterEarlyStep(k);
    }
  }

  lemma FirstEarlyStep(k: nat)
    requires k < 4
    ensures Enabled(EarlyState(k), EarlyEvent(k)) && Step(EarlyState(k), EarlyEvent(k)) == EarlyState(k + 1)
  {
    NotBlank("a");
  }

  lemma LaterEarlyStep(k: nat)
    requires 4 <= k < 9
    ensures Enabled(EarlyState(k), EarlyEvent(k)) && Step(EarlyState(k), EarlyEvent(k)) == EarlyState(k + 1)
  {
    NotBlank("b");
    NotBlank("c");
    var s := EarlyState(k);
    assert k == 4 ==> s.sends + [Send("b", Open)] == EarlyState(5).sends;
    assert k == 6 ==> s.flushes - {0} == map[];
    assert k == 8 ==> s.sends + [Send("c", Open)] == EarlyState(9).sends;
  }

  lemma {:induction false} EarlyRunReaches(k: nat)
    requires k <= 9
    ensures After(1000, EarlyRun(k)) == Some(EarlyState(k))
  {
    if k > 0 {
      EarlyRunReaches(k - 1);
      EarlyStep(k - 1);
      AfterAppend(1000, EarlyRun(k - 1), EarlyEvent(k - 1));
    }
  }

  /** A run in which a timer, fired on time, sends too early. It is set while "b" waits for a send that a called flush has
      begun; "b" is sent and delivered without it, but it stays; so "c", which comes right after that delivery at 3,
      is sent at 1000 instead of 1003. */
  lemma TimerSendsTooEarly()
    ensures After(1000, EarlyRun(8)).Some? && LastDelivery(1000, EarlyRun(8)) == 3
    ensures Enabled(After(1000, EarlyRun(8)).value, TimerFires(1000))
    ensures After(1000, EarlyRun(8) + [TimerFires(1000)]).Some?
    ensures After(1000, EarlyRun(8) + [TimerFires(1000)]).value.sends
            == After(1000, EarlyRun(8)).value.sends + [Send("c", Open)]
  {
    EarlyRunReaches(8);
    EarlyRunReaches(9);
    LastSentIsLastDelivery(1000, EarlyRun(8));
    assert EarlyRun(9) == EarlyRun(8) + [TimerFires(1000)];
    assert EarlyState(9).sends == EarlyState(8).sends + [Send("c", Open)];
  }
}
