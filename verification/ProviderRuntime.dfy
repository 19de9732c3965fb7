/** Provider calls: error classification, exponential backoff, the circuit breaker and the retry loop that
    ties them together. */
module ProviderRuntime {
  import opened Prelude

  // ------------------------------------------------------------------ errors

  datatype ErrorCode = Timeout | RateLimited | Unavailable | CircuitOpen | Unknown

  /** A thrown value: an Error with optional code, status and retryable flag, or something else. */
  datatype Thrown =
    | ErrorObject(code: Option<ErrorCode>, status: Option<int>, retryable: Option<bool>, isAbort: bool)
    | OtherValue

  /** `classifyProviderError` */
  function ClassifyProviderError(e: Thrown): ErrorCode {
    match e
    case OtherValue => Unknown
    case ErrorObject(code, status, _, isAbort) =>
      if code.Some? then code.value
      else if status == Some(429) then RateLimited
      else if status.Some? && status.value >= 500 then Unavailable
      else if isAbort then Timeout
      else Unknown
  }

  /** `isRetryableProviderError` */
  predicate IsRetryable(code: ErrorCode, e: Thrown) {
    if e.ErrorObject? && e.retryable.Some? then e.retryable.value
    else code == Timeout || code == RateLimited || code == Unavailable
  }

  // ------------------------------------------------------------------ backoff

  datatype RetryStrategy = RetryStrategy(
    maxAttempts: real, baseDelayMs: real, maxDelayMs: Option<real>, jitterMs: Option<real>)

  datatype Retry = Retry(maxAttempts: nat, baseDelayMs: real, maxDelayMs: Option<real>, jitterMs: Option<real>)

  function MaxReal(a: real, b: real): real { if a >= b then a else b }

  function MinReal(a: real, b: real): real { if a <= b then a else b }

  /** `normalizeRetry`: whole attempts, at least one, and no negative base delay; cap and jitter as given. */
  function NormalizeRetry(strategy: Option<RetryStrategy>): (r: Retry)
    ensures r.maxAttempts >= 1 && r.baseDelayMs >= 0.0
    ensures strategy.None? ==> r == Retry(1, 0.0, None, None)
    ensures strategy.Some? ==>
              var s := strategy.value;
              && (if s.maxAttempts < 1.0 then r.maxAttempts == 1
                  else r.maxAttempts as real <= s.maxAttempts < r.maxAttempts as real + 1.0)
              && (r.baseDelayMs == s.baseDelayMs || (r.baseDelayMs == 0.0 && s.baseDelayMs < 0.0))
              && r.maxDelayMs == s.maxDelayMs && r.jitterMs == s.jitterMs
  {
    match strategy
    case None => Retry(1, 0.0, None, None)
    case Some(s) =>
      Retry(if s.maxAttempts.Floor >= 1 then s.maxAttempts.Floor else 1,
            MaxReal(0.0, s.baseDelayMs), s.maxDelayMs, s.jitterMs)
  }

  /** base * 2 ** n */
  function Doubled(base: real, n: nat): real {
    if n == 0 then base else 2.0 * Doubled(base, n - 1)
  }

  function Jitter(r: Retry): (j: real)
    ensures j >= 0.0
  {
    MaxReal(0.0, if r.jitterMs.Some? then r.jitterMs.value else 0.0)
  }

  /** `calculateRetryDelayMs` */
  function CalculateRetryDelayMs(r: Retry, attempt: nat): real {
    var exponential := Doubled(r.baseDelayMs, if attempt >= 1 then attempt - 1 else 0);
    MinReal(exponential, if r.maxDelayMs.Some? then r.maxDelayMs.value else exponential) + Jitter(r)
  }

  /** The time slept between the first k attempts. */
  function SleptAfter(r: Retry, k: nat): real {
    if k <= 1 then 0.0 else SleptAfter(r, k - 1) + CalculateRetryDelayMs(r, k - 1)
  }

  function Times(n: nat, x: real): real {
    if n == 0 then 0.0 else Times(n - 1, x) + x
  }

  function Pow2(n: nat): real {
    if n == 0 then 1.0 else 2.0 * Pow2(n - 1)
  }

  lemma {:induction false} DoubledIsPower(base: real, n: nat)
    ensures Doubled(base, n) == base * Pow2(n)
  {
    if n > 0 {
      DoubledIsPower(base, n - 1);
    }
  }

  lemma {:induction false} TimesIsProduct(n: nat, x: real)
    ensures Times(n, x) == n as real * x
  {
    if n > 0 {
      TimesIsProduct(n - 1, x);
    }
  }

  /** After k attempts the loop has slept at most base * 2^(k-1) - base for the doubling delays, and one jitter for
      each of the k-1 gaps; exactly that if there is no cap. */
  lemma {:induction false} SleptGeometric(r: Retry, k: nat)
    requires k >= 1
    ensures SleptAfter(r, k) <= Doubled(r.baseDelayMs, k - 1) - r.baseDelayMs + Times(k - 1, Jitter(r))
    ensures r.maxDelayMs.None? ==>
              SleptAfter(r, k) == Doubled(r.baseDelayMs, k - 1) - r.baseDelayMs + Times(k - 1, Jitter(r))
  {
    if k > 1 {
      SleptGeometric(r, k - 1);
    }
  }

  /** With a cap it has also slept at most (k-1) times the cap and one jitter. */
  lemma {:induction false} SleptCapped(r: Retry, k: nat)
    requires k >= 1 && r.maxDelayMs.Some?
    ensures SleptAfter(r, k) <= Times(k - 1, r.maxDelayMs.value + Jitter(r))
  {
    if k > 1 {
      SleptCapped(r, k - 1);
    }
  }

  /** base * (2^(k-1) - 1) for the doubling delays, and one jitter for each of the k-1 gaps. */
  function GeometricSleep(r: Retry, k: nat): real
    requires k >= 1
  {
    r.baseDelayMs * (Pow2(k - 1) - 1.0) + (k - 1) as real * Jitter(r)
  }

  /** The bounds on the time slept between k attempts: the geometric sleep, reached exactly without a cap; and with a
      cap also cap and jitter for each gap. */
  ghost predicate SleptWithinBounds(r: Retry, k: nat, slept: real) {
    k >= 1 ==>
      && slept <= GeometricSleep(r, k)
      && (r.maxDelayMs.None? ==> slept == GeometricSleep(r, k))
      && (r.maxDelayMs.Some? ==> slept <= (k - 1) as real * (r.maxDelayMs.value + Jitter(r)))
  }

  lemma GeometricSleepIs(r: Retry, k: nat)
    requires k >= 1
    ensures GeometricSleep(r, k) == Doubled(r.baseDelayMs, k - 1) - r.baseDelayMs + Times(k - 1, Jitter(r))
  {
    DoubledIsPower(r.baseDelayMs, k - 1);
    TimesIsProduct(k - 1, Jitter(r));
    MinusOnce(r.baseDelayMs, Pow2(k - 1));
  }

  lemma MinusOnce(x: real, y: real)
    ensures x * (y - 1.0) == x * y - x
  {
  }

  /** The time slept between the first k attempts stays within the bounds. */
  lemma SleepIsBounded(r: Retry, k: nat)
    ensures SleptWithinBounds(r, k, SleptAfter(r, k))
  {
    if k >= 1 {
      SleptGeometric(r, k);
      GeometricSleepIs(r, k);
      if r.maxDelayMs.Some? {
        SleptCapped(r, k);
        TimesIsProduct(k - 1, r.maxDelayMs.value + Jitter(r));
      }
    }
  }

  /** What is slept between one attempt and the next: the doubled base delay, or the cap if that is less; and the jitter
      unless it is negative. */
  lemma GapIsExact(r: Retry, k: nat)
    requires k >= 1
    ensures SleptAfter(r, 1) == 0.0
    ensures var doubled := r.baseDelayMs * Pow2(k - 1);
            SleptAfter(r, k + 1) ==
            SleptAfter(r, k)
            + (if r.maxDelayMs.Some? && r.maxDelayMs.value < doubled then r.maxDelayMs.value else doubled)
            + (if r.jitterMs.Some? && r.jitterMs.value > 0.0 then r.jitterMs.value else 0.0)
  {
    DoubledIsPower(r.baseDelayMs, k - 1);
  }

  // ------------------------------------------------------------------ the circuit breaker

  datatype Policy = Policy(failureThreshold: int, resetAfterMs: int)

  datatype Status = Closed | OpenStatus | HalfOpen

  /** What executions have reported to the breaker. */
  datatype Report = Success | Failure(at: int)

  /** How many executions failed since the last success. */
  function FailuresSinceSuccess(reports: seq<Report>): nat {
    if reports == [] || reports[|reports| - 1].Success? then 0
    else FailuresSinceSuccess(reports[..|reports| - 1]) + 1
  }

  /** The breaker is open from the latest failure on, if at least the threshold failed since the last success. */
  function OpenedAt(policy: Policy, reports: seq<Report>): Option<int> {
    if FailuresSinceSuccess(reports) >= 1 && FailuresSinceSuccess(reports) >= policy.failureThreshold
    then Some(reports[|reports| - 1].at)
    else None
  }

  class CircuitBreaker {
    const policy: Policy
    var failures: nat
    var openedAtMs: Option<int>
    ghost var reports: seq<Report>

    ghost predicate Valid()
      reads this
    {
      failures == FailuresSinceSuccess(reports) && openedAtMs == OpenedAt(policy, reports)
    }

    constructor (policy: Policy)
      ensures Valid() && this.policy == policy && reports == []
    {
      this.policy := policy;
      failures, openedAtMs, reports := 0, None, [];
    }

    function ReadStatus(now: int): Status
      reads this
    {
      if openedAtMs.None? then Closed
      else if now - openedAtMs.value >= policy.resetAfterMs then HalfOpen
      else OpenStatus
    }

    predicate CanAttempt(now: int)
      reads this
    {
      ReadStatus(now) != OpenStatus
    }

    method RecordSuccess()
      requires Valid()
      modifies this
      ensures Valid() && reports == old(reports) + [Success]
    {
      failures, openedAtMs, reports := 0, None, reports + [Success];
    }

    method RecordFailure(now: int)
      requires Valid()
      modifies this
      ensures Valid() && reports == old(reports) + [Failure(now)]
    {
      assert (reports + [Failure(now)])[..|reports|] == reports;
      reports := reports + [Failure(now)];
      failures := failures + 1;
      if failures >= policy.failureThreshold {
        openedAtMs := Some(now);
      } else {
        StillClosed(policy, old(reports), now);
      }
    }
  }

  lemma StillClosed(policy: Policy, reports: seq<Report>, now: int)
    requires FailuresSinceSuccess(reports) + 1 < policy.failureThreshold
    ensures OpenedAt(policy, reports) == None == OpenedAt(policy, reports + [Failure(now)])
  {
    assert (reports + [Failure(now)])[..|reports|] == reports;
  }

  // ------------------------------------------------------------------ the retry loop

  /** What one attempt does. */
  datatype Attempt<T> = Value(value: T) | Throws(error: Thrown)

  datatype ExecuteError = CircuitIsOpen | OperationFailed(error: Thrown)

  predicate RetryableAttempt<T>(classify: Option<Thrown -> ErrorCode>, a: Attempt<T>) {
    a.Throws? && IsRetryable(if classify.Some? then classify.value(a.error) else ClassifyProviderError(a.error), a.error)
  }

  predicate IsTransient(code: ErrorCode) {
    code in {Timeout, RateLimited, Unavailable}
  }

  /** Which thrown errors are retried: an error's own flag decides; without one the code does, which is the caller's, else
      the error's own, else read from its status or its being an abort. What is not an error has no flag and no code. */
  lemma RetriedExactly<T>(classify: Option<Thrown -> ErrorCode>, e: Thrown)
    ensures RetryableAttempt(classify, Attempt<T>.Throws(e)) <==>
            if e.ErrorObject? && e.retryable.Some? then e.retryable.value
            else if classify.Some? then IsTransient(classify.value(e))
            else e.ErrorObject? &&
                 if e.code.Some? then IsTransient(e.code.value)
                 else e.status == Some(429) || (e.status.Some? && e.status.value >= 500) || e.isAbort
    ensures forall v: T :: !RetryableAttempt(classify, Value(v))
  {
  }

  ghost predicate Admitted(breaker: CircuitBreaker?, now: int)
    reads breaker
  {
    breaker != null ==> breaker.CanAttempt(now)
  }

  /** `executeProviderOperation`. `attempts(k)` is what the k-th run of the operation does; `startedAt` and `failedAt`
      are the clock readings of the admission check and of a reported failure. */
  method ExecuteProviderOperation<T>(
      strategy: Option<RetryStrategy>, classify: Option<Thrown -> ErrorCode>, attempts: nat -> Attempt<T>,
      breaker: CircuitBreaker?, startedAt: int, failedAt: int)
    returns (result: Result<T, ExecuteError>, runs: nat, slept: real)
    requires breaker != null ==> breaker.Valid()
    modifies breaker
    ensures breaker != null ==> breaker.Valid()
    // not admitted: the operation does not run and nothing is reported
    ensures result == Err(CircuitIsOpen) <==> !old(Admitted(breaker, startedAt))
    ensures !old(Admitted(breaker, startedAt)) ==> runs == 0 && slept == 0.0 && breaker.reports == old(breaker.reports)
    // admitted: every run before the last threw a retryable error, and the last one decides
    ensures old(Admitted(breaker, startedAt)) ==> 1 <= runs <= NormalizeRetry(strategy).maxAttempts
    ensures forall k :: 1 <= k < runs ==> RetryableAttempt(classify, attempts(k))
    ensures old(Admitted(breaker, startedAt)) ==>
              match attempts(runs)
              case Value(v) => result == Ok(v)
              case Throws(e) => result == Err(OperationFailed(e))
                                && (RetryableAttempt(classify, attempts(runs)) ==> runs == NormalizeRetry(strategy).maxAttempts)
    // exactly one outcome is reported
    ensures old(Admitted(breaker, startedAt)) && breaker != null ==>
              breaker.reports == old(breaker.reports) + [if result.Ok? then Success else Failure(failedAt)]
    ensures slept == SleptAfter(NormalizeRetry(strategy), runs)
    ensures SleptWithinBounds(NormalizeRetry(strategy), runs, slept)
  {
    var retry := NormalizeRetry(strategy);
    slept := 0.0;
    if breaker != null && !breaker.CanAttempt(startedAt) {
      return Err(CircuitIsOpen), 0, 0.0;
    }

    var attempt := 1;
    while true
      invariant 1 <= attempt <= retry.maxAttempts
      invariant breaker != null ==> breaker.Valid() && breaker.reports == old(breaker.reports)
      invariant forall k :: 1 <= k < attempt ==> RetryableAttempt(classify, attempts(k))
      invariant slept == SleptAfter(retry, attempt)
      decreases retry.maxAttempts - attempt
    {
      SleepIsBounded(retry, attempt);
      match attempts(attempt) {
        case Value(value) =>
          if breaker != null {
            breaker.RecordSuccess();
          }
          return Ok(value), attempt, slept;
        case Throws(error) =>
          var code := if classify.Some? then classify.value(error) else ClassifyProviderError(error);
          var retryable := IsRetryable(code, error);
          if !retryable || attempt >= retry.maxAttempts {
            if breaker != null {
              breaker.RecordFailure(failedAt);
            }
            return Err(OperationFailed(error)), attempt, slept;
          }
          slept := slept + CalculateRetryDelayMs(retry, attempt);
          attempt := attempt + 1;
      }
    }
  }

  // ------------------------------------------------------------------ the breaker over a history of executions

  /** The last n reports are failures, and before them is a success or nothing. */
  lemma {:induction false} FailuresAreTheLatest(reports: seq<Report>)
    ensures var n := FailuresSinceSuccess(reports);
            && n <= |reports|
            && (forall k :: |reports| - n <= k < |reports| ==> reports[k].Failure?)
            && (n < |reports| ==> reports[|reports| - n - 1].Success?)
  {
    if reports != [] && reports[|reports| - 1].Failure? {
      FailuresAreTheLatest(reports[..|reports| - 1]);
    }
  }

  /** The breaker has an open time exactly when at least the threshold of executions failed since the last
      success, and then it is the time of the latest failure. */
  lemma OpenExactlyAfterThresholdFailures(policy: Policy, reports: seq<Report>)
    requires policy.failureThreshold >= 1
    ensures OpenedAt(policy, reports).Some? <==>
            && policy.failureThreshold <= |reports|
            && forall k :: |reports| - policy.failureThreshold <= k < |reports| ==> reports[k].Failure?
    ensures OpenedAt(policy, reports).Some? ==> OpenedAt(policy, reports).value == reports[|reports| - 1].at
  {
    FailuresAreTheLatest(reports);
  }

  /** One execution against the breaker's history: at which time it asked, and, if admitted, what it reported. */
  datatype Execution = Execution(startedAt: int, outcome: Report)

  predicate Admits(policy: Policy, reports: seq<Report>, now: int) {
    OpenedAt(policy, reports).None? || now - OpenedAt(policy, reports).value >= policy.resetAfterMs
  }

  /** A request is refused exactly if the last threshold reports are all failures and the reset delay since the last of them
      has not passed. */
  lemma RefusedExactly(policy: Policy, reports: seq<Report>, now: int)
    requires policy.failureThreshold >= 1
    ensures !Admits(policy, reports, now) <==>
            && policy.failureThreshold <= |reports|
            && (forall k :: |reports| - policy.failureThreshold <= k < |reports| ==> reports[k].Failure?)
            && now < reports[|reports| - 1].at + policy.resetAfterMs
  {
    OpenExactlyAfterThresholdFailures(policy, reports);
  }

  /** A breaker admits exactly what its history of reports admits. */
  lemma AdmissionFollowsTheHistory(b: CircuitBreaker, now: int)
    requires b.Valid()
    ensures Admitted(b, now) <==> Admits(b.policy, b.reports, now)
  {
  }

  function ReportsAfter(policy: Policy, executions: seq<Execution>): seq<Report> {
    if executions == [] then []
    else
      var before, last := ReportsAfter(policy, executions[..|executions| - 1]), executions[|executions| - 1];
      if Admits(policy, before, last.startedAt) then before + [last.outcome] else before
  }

  /** Once the breaker opens at time t, executions that ask before t + reset are all refused, however many there
      are, and leave it open at t. */
  lemma {:induction false} OpenRefusesUntilReset(policy: Policy, executions: seq<Execution>, later: seq<Execution>, t: int)
    requires OpenedAt(policy, ReportsAfter(policy, executions)) == Some(t)
    requires forall k :: 0 <= k < |later| ==> later[k].startedAt < t + policy.resetAfterMs
    ensures ReportsAfter(policy, executions + later) == ReportsAfter(policy, executions)
    ensures forall now :: now < t + policy.resetAfterMs ==> !Admits(policy, ReportsAfter(policy, executions + later), now)
    decreases |later|
  {
    if later == [] {
      assert executions + later == executions;
    } else {
      var init := later[..|later| - 1];
      assert (executions + later)[..|executions + later| - 1] == executions + init;
      OpenRefusesUntilReset(policy, executions, init, t);
      assert (executions + later)[|executions + later| - 1] == later[|later| - 1];
    }
  }
}
