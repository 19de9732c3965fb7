/** The sliding-window reply limiter, one list of recent hits per conversation. */
module RateLimiter {

  /** The timestamps later than `start`. */
  function Recent(times: seq<int>, start: int): seq<int> {
    if times == [] then []
    else
      var init, last := times[..|times| - 1], times[|times| - 1];
      Recent(init, start) + (if last > start then [last] else [])
  }

  /** The effect of one request on a conversation's hits, and whether it is allowed. */
  function AllowStep(windowMs: int, maxReplies: int, hits: seq<int>, now: int): (seq<int>, bool) {
    var current := Recent(hits, now - windowMs);
    if |current| >= maxReplies then (current, false) else (current + [now], true)
  }

  class ReplyRateLimiter {
    const windowMs: int
    const maxReplies: int
    var hits: map<string, seq<int>>

    constructor (windowMs: int, maxReplies: int)
      ensures this.windowMs == windowMs && this.maxReplies == maxReplies && hits == map[]
    {
      this.windowMs, this.maxReplies, hits := windowMs, maxReplies, map[];
    }

    function HitsOf(conversationId: string): seq<int>
      reads this
    {
      if conversationId in hits then hits[conversationId] else []
    }

    method Allow(conversationId: string, now: int) returns (allowed: bool)
      modifies this
      ensures (HitsOf(conversationId), allowed) == AllowStep(windowMs, maxReplies, old(HitsOf(conversationId)), now)
      ensures forall other :: other != conversationId ==> HitsOf(other) == old(HitsOf(other))
    {
      var windowStart := now - windowMs;
      var stored, current := HitsOf(conversationId), [];
      for i := 0 to |stored|
        invariant current == Recent(stored[..i], windowStart)
      {
        assert stored[..i + 1][..i] == stored[..i];
        if stored[i] > windowStart {
          current := current + [stored[i]];
        }
      }
      assert stored[..|stored|] == stored;
      if |current| >= maxReplies {
        hits := hits[conversationId := current];
        return false;
      }
      current := current + [now];
      hits := hits[conversationId := current];
      return true;
    }

    method Reset(conversationId: string)
      modifies this
      ensures conversationId == "" ==> hits == map[]
      ensures conversationId != "" ==> HitsOf(conversationId) == []
      ensures conversationId != "" ==> forall other :: other != conversationId ==> HitsOf(other) == old(HitsOf(other))
    {
      if conversationId != "" {
        hits := hits - {conversationId};
      } else {
        hits := map[];
      }
    }
  }

  // ------------------------------------------------------------------ one conversation's history

  /** The stored hits and, beside them, every accepted request, after requests at the given times. */
  datatype History = History(hits: seq<int>, accepted: seq<int>)

  function Next(windowMs: int, maxReplies: int, h: History, now: int): History {
    var step := AllowStep(windowMs, maxReplies, h.hits, now);
    History(step.0, if step.1 then h.accepted + [now] else h.accepted)
  }

  function After(windowMs: int, maxReplies: int, times: seq<int>): History {
    if times == [] then History([], [])
    else Next(windowMs, maxReplies, After(windowMs, maxReplies, times[..|times| - 1]), times[|times| - 1])
  }

  ghost predicate NonDecreasing(times: seq<int>) {
    times == [] || (NonDecreasing(times[..|times| - 1]) && (|times| > 1 ==> times[|times| - 2] <= times[|times| - 1]))
  }

  /** How many of the times lie in the half-open window (low, high]. */
  function CountIn(times: seq<int>, low: int, high: int): nat {
    if times == [] then 0
    else CountIn(times[..|times| - 1], low, high) + (if low < times[|times| - 1] <= high then 1 else 0)
  }

  lemma {:induction false} RecentAgain(times: seq<int>, a: int, b: int)
    requires a <= b
    ensures Recent(Recent(times, a), b) == Recent(times, b)
  {
    if times != [] {
      var init, last := times[..|times| - 1], times[|times| - 1];
      RecentAgain(init, a, b);
      assert Recent(init, a) + [] == Recent(init, a) && Recent(init, b) + [] == Recent(init, b);
      if last > a {
        assert (Recent(init, a) + [last])[..|Recent(init, a)|] == Recent(init, a);
      }
    }
  }

  lemma RecentAppend(times: seq<int>, x: int, start: int)
    ensures Recent(times + [x], start) == Recent(times, start) + (if x > start then [x] else [])
  {
    assert (times + [x])[..|times|] == times;
  }

  lemma CountAppend(times: seq<int>, x: int, low: int, high: int)
    ensures CountIn(times + [x], low, high) == CountIn(times, low, high) + (if low < x <= high then 1 else 0)
  {
    assert (times + [x])[..|times|] == times;
  }

  /** No time later than `high` means counting the window is counting what is recent. */
  lemma {:induction false} RecentCountsTheWindow(times: seq<int>, low: int, high: int)
    requires forall i :: 0 <= i < |times| ==> times[i] <= high
    ensures |Recent(times, low)| == CountIn(times, low, high)
  {
    if times != [] {
      RecentCountsTheWindow(times[..|times| - 1], low, high);
    }
  }

  lemma {:induction false} NarrowerWindowCountsLess(times: seq<int>, low: int, low': int, high: int, high': int)
    requires low' <= low && high <= high'
    ensures CountIn(times, low, high) <= CountIn(times, low', high')
  {
    if times != [] {
      NarrowerWindowCountsLess(times[..|times| - 1], low, low', high, high');
    }
  }

  /** The stored hits stand for the whole history: they differ from it only by what no later window reaches. */
  ghost predicate StandsFor(windowMs: int, h: History, clock: int) {
    && (forall i :: 0 <= i < |h.accepted| ==> h.accepted[i] <= clock)
    && forall start :: clock - windowMs <= start ==> Recent(h.hits, start) == Recent(h.accepted, start)
  }

  lemma RecentAfterNext(windowMs: int, maxReplies: int, h: History, now: int, start: int)
    requires now - windowMs <= start && Recent(h.hits, start) == Recent(h.accepted, start)
    ensures var next := Next(windowMs, maxReplies, h, now); Recent(next.hits, start) == Recent(next.accepted, start)
  {
    RecentAgain(h.hits, now - windowMs, start);
    RecentAppend(Recent(h.hits, now - windowMs), now, start);
    RecentAppend(h.accepted, now, start);
  }

  lemma NextStandsFor(windowMs: int, maxReplies: int, h: History, clock: int, now: int)
    requires StandsFor(windowMs, h, clock) && clock <= now
    ensures StandsFor(windowMs, Next(windowMs, maxReplies, h, now), now)
  {
    forall start | now - windowMs <= start
      ensures var next := Next(windowMs, maxReplies, h, now); Recent(next.hits, start) == Recent(next.accepted, start)
    {
      RecentAfterNext(windowMs, maxReplies, h, now, start);
    }
  }

  lemma {:induction false} AfterStandsFor(windowMs: int, maxReplies: int, times: seq<int>, clock: int)
    requires NonDecreasing(times) && (times != [] ==> times[|times| - 1] <= clock)
    ensures StandsFor(windowMs, After(windowMs, maxReplies, times), clock)
  {
    if times != [] {
      var init, last := times[..|times| - 1], times[|times| - 1];
      AfterStandsFor(windowMs, maxReplies, init, last);
      NextStandsFor(windowMs, maxReplies, After(windowMs, maxReplies, init), last, last);
    }
  }

  lemma FullExactly(windowMs: int, maxReplies: int, h: History, clock: int, now: int)
    requires StandsFor(windowMs, h, clock) && clock <= now
    ensures AllowStep(windowMs, maxReplies, h.hits, now).1 <==> CountIn(h.accepted, now - windowMs, now) < maxReplies
  {
    RecentCountsTheWindow(h.accepted, now - windowMs, now);
  }

  /** A request is denied exactly when the full history of accepted requests already has `maxReplies` in the
      window that ends now: forgetting old hits loses nothing. */
  lemma DeniedExactlyWhenTheWindowIsFull(windowMs: int, maxReplies: int, times: seq<int>, now: int)
    requires NonDecreasing(times) && (times != [] ==> times[|times| - 1] <= now)
    ensures var h := After(windowMs, maxReplies, times);
            AllowStep(windowMs, maxReplies, h.hits, now).1 <==> CountIn(h.accepted, now - windowMs, now) < maxReplies
  {
    AfterStandsFor(windowMs, maxReplies, times, now);
    FullExactly(windowMs, maxReplies, After(windowMs, maxReplies, times), now, now);
  }

  function Bound(maxReplies: int): nat {
    if maxReplies > 0 then maxReplies else 0
  }

  lemma NextKeepsTheBound(windowMs: int, maxReplies: int, h: History, now: int, t: int)
    requires StandsFor(windowMs, h, now)
    requires CountIn(h.accepted, t - windowMs, t) <= Bound(maxReplies)
    ensures CountIn(Next(windowMs, maxReplies, h, now).accepted, t - windowMs, t) <= Bound(maxReplies)
  {
    CountAppend(h.accepted, now, t - windowMs, t);
    FullExactly(windowMs, maxReplies, h, now, now);
    if now <= t {
      RecentCountsTheWindow(h.accepted, t - windowMs, t);
      RecentCountsTheWindow(h.accepted, t - windowMs, now);
      NarrowerWindowCountsLess(h.accepted, t - windowMs, now - windowMs, now, now);
    }
  }

  /** With a clock that does not run backwards, no window (t - windowMs, t] ever holds more than `maxReplies`
      accepted requests. */
  lemma {:induction false} NoWindowIsOverfull(windowMs: int, maxReplies: int, times: seq<int>, t: int)
    requires NonDecreasing(times)
    ensures CountIn(After(windowMs, maxReplies, times).accepted, t - windowMs, t) <= Bound(maxReplies)
  {
    if times != [] {
      var init, now := times[..|times| - 1], times[|times| - 1];
      NoWindowIsOverfull(windowMs, maxReplies, init, t);
      AfterStandsFor(windowMs, maxReplies, init, now);
      NextKeepsTheBound(windowMs, maxReplies, After(windowMs, maxReplies, init), now, t);
    }
  }

  lemma AfterAppend(windowMs: int, maxReplies: int, times: seq<int>, now: int)
    ensures After(windowMs, maxReplies, times + [now]) == Next(windowMs, maxReplies, After(windowMs, maxReplies, times), now)
  {
    assert (times + [now])[..|times|] == times;
  }

  lemma RecentOfOne(x: int, start: int)
    ensures Recent([x], start) == if x > start then [x] else []
  {
    RecentAppend([], x, start);
    assert [] + [x] == [x];
  }

  // ------------------------------------------------------------------ clocks that run backwards

  /** No request times at all, in whatever order, overfill a window. */
  ghost predicate BoundHolds(windowMs: int, maxReplies: int) {
    forall times, t :: WindowFits(windowMs, maxReplies, times, t)
  }

  ghost predicate WindowFits(windowMs: int, maxReplies: int, times: seq<int>, t: int) {
    CountIn(After(windowMs, maxReplies, times).accepted, t - windowMs, t) <= Bound(maxReplies)
  }

  lemma {:induction false} EmptyWindowCountsNothing(times: seq<int>, low: int, high: int)
    requires high <= low
    ensures CountIn(times, low, high) == 0
  {
    if times != [] {
      EmptyWindowCountsNothing(times[..|times| - 1], low, high);
    }
  }

  lemma {:induction false} NothingAcceptedWithoutReplies(windowMs: int, maxReplies: int, times: seq<int>)
    requires maxReplies <= 0
    ensures After(windowMs, maxReplies, times).accepted == []
  {
    if times != [] {
      NothingAcceptedWithoutReplies(windowMs, maxReplies, times[..|times| - 1]);
    }
  }

  /** The held hits are just the last accepted request, and each was accepted a window after the one before. */
  ghost predicate LastOnly(windowMs: int, h: History) {
    && h.hits == (if h.accepted == [] then [] else [h.accepted[|h.accepted| - 1]])
    && forall i :: 0 < i < |h.accepted| ==> h.accepted[i - 1] + windowMs <= h.accepted[i]
  }

  lemma NextKeepsTheLast(windowMs: int, h: History, now: int)
    requires LastOnly(windowMs, h)
    ensures LastOnly(windowMs, Next(windowMs, 1, h, now))
  {
    if h.accepted == [] {
      assert Recent(h.hits, now - windowMs) == [];
      assert Next(windowMs, 1, h, now) == History([now], [now]);
    } else {
      var last := h.accepted[|h.accepted| - 1];
      RecentOfOne(last, now - windowMs);
      assert Next(windowMs, 1, h, now) == if last > now - windowMs then h else History([now], h.accepted + [now]);
    }
  }

  lemma {:induction false} SingleReplyKeepsTheLast(windowMs: int, times: seq<int>)
    ensures LastOnly(windowMs, After(windowMs, 1, times))
  {
    if times != [] {
      SingleReplyKeepsTheLast(windowMs, times[..|times| - 1]);
      NextKeepsTheLast(windowMs, After(windowMs, 1, times[..|times| - 1]), times[|times| - 1]);
    }
  }

  /** Times a window apart: at most one is in a window, and none if the last is before it. */
  lemma {:induction false} SpacedTimesCountOnce(windowMs: int, times: seq<int>, t: int)
    requires windowMs > 0 && forall i :: 0 < i < |times| ==> times[i - 1] + windowMs <= times[i]
    ensures CountIn(times, t - windowMs, t) <= 1
    ensures times != [] && times[|times| - 1] <= t - windowMs ==> CountIn(times, t - windowMs, t) == 0
  {
    if times != [] {
      var init := times[..|times| - 1];
      SpacedTimesCountOnce(windowMs, init, t);
      assert init != [] ==> init[|init| - 1] == times[|times| - 2];
    }
  }

  function Zeros(n: nat): seq<int> {
    if n == 0 then [] else Zeros(n - 1) + [0]
  }

  /** The zeros fill the window up to `windowMs - 1`, and none of them is in a window that starts at 0. */
  lemma {:induction false} ZerosInWindows(windowMs: int, n: nat)
    requires windowMs >= 1
    ensures Recent(Zeros(n), 0) == []
    ensures CountIn(Zeros(n), -1, windowMs - 1) == n
  {
    if n > 0 {
      var fewer := Zeros(n - 1);
      ZerosInWindows(windowMs, n - 1);
      RecentAppend(fewer, 0, 0);
      CountAppend(fewer, 0, -1, windowMs - 1);
    }
  }

  lemma {:induction false} ZerosAreRecent(windowMs: int, n: nat)
    requires windowMs >= 1
    ensures |Zeros(n)| == n && Recent(Zeros(n), -windowMs) == Zeros(n)
  {
    if n > 0 {
      ZerosAreRecent(windowMs, n - 1);
      RecentAppend(Zeros(n - 1), 0, -windowMs);
    }
  }

  ghost predicate Reaches(windowMs: int, maxReplies: int, times: seq<int>, h: History) {
    After(windowMs, maxReplies, times) == h
  }

  /** A request with room left is accepted and held. */
  lemma Accepts(windowMs: int, maxReplies: int, times: seq<int>, h: History, now: int, recent: seq<int>)
    requires Reaches(windowMs, maxReplies, times, h)
    requires recent == Recent(h.hits, now - windowMs) && |recent| < maxReplies
    ensures Reaches(windowMs, maxReplies, times + [now], History(recent + [now], h.accepted + [now]))
  {
    AfterAppend(windowMs, maxReplies, times, now);
  }

  /** All requests so far were accepted and are still held. */
  ghost predicate AllHeld(windowMs: int, maxReplies: int, times: seq<int>) {
    Reaches(windowMs, maxReplies, times, History(times, times))
  }

  lemma NothingHeldYet(windowMs: int, maxReplies: int)
    ensures AllHeld(windowMs, maxReplies, [])
  {
  }

  lemma OneMoreHeld(windowMs: int, maxReplies: int, times: seq<int>, now: int, start: int)
    requires AllHeld(windowMs, maxReplies, times) && |times| < maxReplies
    requires start == now - windowMs && Recent(times, start) == times
    ensures AllHeld(windowMs, maxReplies, times + [now])
  {
    Accepts(windowMs, maxReplies, times, History(times, times), now, times);
  }

  /** Up to `maxReplies` requests at one time are all accepted, and all held. */
  lemma {:induction false} BurstIsAccepted(windowMs: int, maxReplies: int, n: nat)
    requires windowMs >= 1 && n <= maxReplies
    ensures AllHeld(windowMs, maxReplies, Zeros(n))
  {
    if n == 0 {
      NothingHeldYet(windowMs, maxReplies);
    } else {
      BurstIsAccepted(windowMs, maxReplies, n - 1);
      ZerosAreRecent(windowMs, n - 1);
      OneMoreHeld(windowMs, maxReplies, Zeros(n - 1), 0, -windowMs);
    }
  }

  /** A full burst at 0, a request at the end of its window, and one more a moment earlier: the hits dropped for the
      later window are missed by the earlier one, which ends up with one request too many. */
  lemma ClockRunningBackOverfillsAWindow(windowMs: int, maxReplies: int)
    requires windowMs >= 1 && maxReplies >= 2
    ensures var times := Zeros(maxReplies) + [windowMs] + [windowMs - 1];
            && After(windowMs, maxReplies, times).accepted == times
            && CountIn(times, -1, windowMs - 1) == maxReplies + 1
  {
    var burst := Zeros(maxReplies);
    ZerosInWindows(windowMs, maxReplies);
    BurstIsAccepted(windowMs, maxReplies, maxReplies);
    OneMoreAndOneBack(windowMs, maxReplies, burst);
    CountAppend(burst, windowMs, -1, windowMs - 1);
    CountAppend(burst + [windowMs], windowMs - 1, -1, windowMs - 1);
  }

  lemma OneMoreAndOneBack(windowMs: int, maxReplies: int, burst: seq<int>)
    requires windowMs >= 1 && maxReplies >= 2
    requires AllHeld(windowMs, maxReplies, burst) && Recent(burst, 0) == []
    ensures var times := burst + [windowMs] + [windowMs - 1];
            Reaches(windowMs, maxReplies, times, History([windowMs] + [windowMs - 1], times))
  {
    var longer := burst + [windowMs];
    Accepts(windowMs, maxReplies, burst, History(burst, burst), windowMs, []);
    assert [] + [windowMs] == [windowMs];
    RecentOfOne(windowMs, -1);
    Accepts(windowMs, maxReplies, longer, History([windowMs], longer), windowMs - 1, [windowMs]);
  }

  /** Whatever the clock does, the bound holds exactly for an empty window or at most one reply per window. */
  lemma BoundHoldsForEveryClockExactly(windowMs: int, maxReplies: int)
    ensures BoundHolds(windowMs, maxReplies) <==> windowMs <= 0 || maxReplies <= 1
  {
    if windowMs <= 0 || maxReplies <= 1 {
      forall times, t
        ensures WindowFits(windowMs, maxReplies, times, t)
      {
        if windowMs <= 0 {
          EmptyWindowCountsNothing(After(windowMs, maxReplies, times).accepted, t - windowMs, t);
        } else if maxReplies <= 0 {
          NothingAcceptedWithoutReplies(windowMs, maxReplies, times);
        } else {
          SingleReplyKeepsTheLast(windowMs, times);
          SpacedTimesCountOnce(windowMs, After(windowMs, 1, times).accepted, t);
        }
      }
    } else {
      ClockRunningBackOverfillsAWindow(windowMs, maxReplies);
      assert !WindowFits(windowMs, maxReplies, Zeros(maxReplies) + [windowMs] + [windowMs - 1], windowMs - 1);
    }
  }
}
