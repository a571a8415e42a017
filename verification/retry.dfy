/**
 * Retry with exponential backoff. The operation is called; a transient failure is retried after a
 * delay that doubles on each attempt, a permanent failure or the last allowed failure is
 * rethrown, and a success is returned at once. The operation's outcomes are given up front as a
 * function of the attempt number, and the sleeps are recorded instead of performed.
 *
 * The loop is stated for any classifier `transient` of errors; `RetryWithBackoff` plugs in the
 * categorizer's `IsTransientError`, as the source does.
 */
module Retry {
  import opened ErrorCategorizer

  /** What the operation does when called for the `attempt`-th time (counting from 0). */
  datatype Attempt<T> = Succeeds(value: T) | Throws(error: ErrorRec)

  /** How `retryWithBackoff` settles: with a value, by rethrowing an error, or by throwing `undefined`. */
  datatype Outcome<T> = Returned(value: T) | Thrown(error: ErrorRec) | ThrownUndefined

  /** The outcome, how many times the operation was called, and the delays slept, in order. */
  datatype RetryRun<T> = RetryRun(outcome: Outcome<T>, calls: nat, delays: seq<int>)

  const DefaultMaxRetries: int := 3
  const DefaultBaseDelay: int := 1000

  function Pow2(n: nat): (r: nat)
    ensures r >= 1
  {
    if n == 0 then 1 else 2 * Pow2(n - 1)
  }

  /** The delay slept after the failed attempt `attempt`: `baseDelay * 2^attempt`. */
  function Backoff(baseDelay: int, attempt: nat): int {
    baseDelay * Pow2(attempt)
  }

  type Classifier = ErrorRec -> bool

  /** An attempt that failed with an error the classifier says is worth retrying. */
  predicate FailedTransiently<T>(transient: Classifier, a: Attempt<T>) {
    a.Throws? && transient(a.error)
  }

  /** The loop of `retryWithBackoff` from attempt number `attempt` on. */
  function RunFrom<T>(op: nat -> Attempt<T>, transient: Classifier, attempt: nat, maxRetries: int, baseDelay: int): (r: RetryRun<T>)
    ensures r.calls == 0 <==> attempt > maxRetries
    ensures r.calls == 0 <==> r.outcome == ThrownUndefined
    ensures attempt <= maxRetries ==> r.calls <= maxRetries - attempt + 1 && |r.delays| == r.calls - 1
    ensures attempt > maxRetries ==> r.delays == []
    ensures forall i :: 0 <= i < |r.delays| ==> r.delays[i] == Backoff(baseDelay, attempt + i)
    ensures forall j :: attempt <= j < attempt + r.calls - 1 ==> FailedTransiently(transient, op(j))
    ensures r.outcome.Returned? ==> op(attempt + r.calls - 1) == Succeeds(r.outcome.value)
    ensures r.outcome.Thrown? ==> op(attempt + r.calls - 1) == Throws(r.outcome.error)
    ensures r.outcome.Thrown? ==> !transient(r.outcome.error) || attempt + r.calls - 1 == maxRetries
    decreases if attempt > maxRetries then 0 else maxRetries - attempt + 1
  {
    if attempt > maxRetries then RetryRun(ThrownUndefined, 0, [])
    else
      match op(attempt)
      case Succeeds(v) => RetryRun(Returned(v), 1, [])
      case Throws(error) =>
        if !transient(error) then RetryRun(Thrown(error), 1, [])
        else if attempt == maxRetries then RetryRun(Thrown(error), 1, [])
        else
          var rest := RunFrom(op, transient, attempt + 1, maxRetries, baseDelay);
          RetryRun(rest.outcome, rest.calls + 1, [Backoff(baseDelay, attempt)] + rest.delays)
  }

  /** The whole loop, from attempt 0. */
  function Run<T>(op: nat -> Attempt<T>, transient: Classifier, maxRetries: int, baseDelay: int): (r: RetryRun<T>)
    ensures r.calls <= (if maxRetries < 0 then 0 else maxRetries + 1)
    ensures r.calls == 0 <==> maxRetries < 0
    ensures maxRetries < 0 ==> r.outcome == ThrownUndefined
    ensures r.calls > 0 ==> |r.delays| == r.calls - 1
    ensures forall i :: 0 <= i < |r.delays| ==> r.delays[i] == baseDelay * Pow2(i)
  {
    RunFrom(op, transient, 0, maxRetries, baseDelay)
  }

  /** `retryWithBackoff(fn, maxRetries, baseDelay)`, which retries what the categorizer calls transient. */
  function RetryWithBackoff<T>(op: nat -> Attempt<T>, maxRetries: int, baseDelay: int): (r: RetryRun<T>)
    ensures r == Run(op, IsTransientError, maxRetries, baseDelay)
    ensures r.calls <= (if maxRetries < 0 then 0 else maxRetries + 1)
    ensures forall j :: 0 <= j < r.calls - 1 ==> op(j).Throws? && IsTransientError(op(j).error)
    ensures r.outcome.Returned? ==> op(r.calls - 1) == Succeeds(r.outcome.value)
    ensures r.outcome.Thrown? ==> op(r.calls - 1) == Throws(r.outcome.error)
    ensures r.outcome.Thrown? ==> !IsTransientError(r.outcome.error) || r.calls == maxRetries + 1
  {
    Run(op, IsTransientError, maxRetries, baseDelay)
  }

  /**
   * An error the categorizer files as permanent (auth, not found, config, unknown) on the first
   * call is rethrown at once: one call and no sleep, whatever the retry budget.
   */
  lemma PermanentCategoryFailsFast<T>(op: nat -> Attempt<T>, maxRetries: int, baseDelay: int)
    requires maxRetries >= 0
    requires op(0).Throws? && Categorize(op(0).error).errorType == Permanent
    ensures RetryWithBackoff(op, maxRetries, baseDelay) == RetryRun(Thrown(op(0).error), 1, [])
  {
    PermanentErrorRethrown(op, IsTransientError, maxRetries, baseDelay, 0);
  }

  /**
   * While the categorizer files every failure as transient and budget remains, the failure of
   * attempt `k` is followed by a sleep of `baseDelay * 2^k` and another call.
   */
  lemma TransientCategoryRetried<T>(op: nat -> Attempt<T>, maxRetries: int, baseDelay: int, k: nat)
    requires k < maxRetries
    requires forall j :: 0 <= j <= k ==> op(j).Throws? && Categorize(op(j).error).errorType == Transient
    ensures var r := RetryWithBackoff(op, maxRetries, baseDelay);
      r.calls >= k + 2 && |r.delays| > k && r.delays[k] == Backoff(baseDelay, k)
  {
  }

  /** `retryWithBackoff(fn)` with the default three retries and one-second base delay. */
  function RetryWithDefaults<T>(op: nat -> Attempt<T>): (r: RetryRun<T>)
    ensures r == Run(op, IsTransientError, DefaultMaxRetries, DefaultBaseDelay)
    ensures 1 <= r.calls <= 4
  {
    RetryWithBackoff(op, DefaultMaxRetries, DefaultBaseDelay)
  }

  /**
   * When attempts before `k` fail transiently and attempt `k` (within the budget) succeeds,
   * its value is returned after `k + 1` calls and `k` doubling sleeps.
   */
  lemma FirstSuccessReturned<T>(op: nat -> Attempt<T>, transient: Classifier, maxRetries: int, baseDelay: int, k: nat)
    requires k <= maxRetries
    requires forall j :: 0 <= j < k ==> FailedTransiently(transient, op(j))
    requires op(k).Succeeds?
    ensures var r := Run(op, transient, maxRetries, baseDelay);
      r.outcome == Returned(op(k).value) && r.calls == k + 1 && |r.delays| == k
  {
    StopsAtFirstNonTransient(op, transient, maxRetries, baseDelay, k);
  }

  /** A permanent failure at attempt `k` is rethrown at once: no further call and no further sleep. */
  lemma PermanentErrorRethrown<T>(op: nat -> Attempt<T>, transient: Classifier, maxRetries: int, baseDelay: int, k: nat)
    requires k <= maxRetries
    requires forall j :: 0 <= j < k ==> FailedTransiently(transient, op(j))
    requires op(k).Throws? && !transient(op(k).error)
    ensures var r := Run(op, transient, maxRetries, baseDelay);
      r.outcome == Thrown(op(k).error) && r.calls == k + 1 && |r.delays| == k
  {
    StopsAtFirstNonTransient(op, transient, maxRetries, baseDelay, k);
  }

  /** The run stops exactly at the first attempt that does not fail transiently. */
  lemma StopsAtFirstNonTransient<T>(op: nat -> Attempt<T>, transient: Classifier, maxRetries: int, baseDelay: int, k: nat)
    requires k <= maxRetries
    requires forall j :: 0 <= j < k ==> FailedTransiently(transient, op(j))
    requires !FailedTransiently(transient, op(k))
    ensures Run(op, transient, maxRetries, baseDelay).calls == k + 1
  {
  }

  /**
   * When every allowed attempt fails transiently, the operation is called `maxRetries + 1`
   * times, sleeps `maxRetries` times, and the last error is rethrown.
   */
  lemma ExhaustedRethrowsLast<T>(op: nat -> Attempt<T>, transient: Classifier, maxRetries: nat, baseDelay: int)
    requires forall j :: 0 <= j <= maxRetries ==> FailedTransiently(transient, op(j))
    ensures var r := Run(op, transient, maxRetries, baseDelay);
      && FailedTransiently(transient, op(maxRetries))
      && r.outcome == Thrown(op(maxRetries).error) && r.calls == maxRetries + 1 && |r.delays| == maxRetries
  {
  }

  /** With the defaults, an operation that always fails transiently is called four times, sleeping 1, 2 and 4 seconds. */
  lemma DefaultBackoffSchedule<T>(op: nat -> Attempt<T>, transient: Classifier)
    requires forall j :: 0 <= j <= 3 ==> FailedTransiently(transient, op(j))
    ensures FailedTransiently(transient, op(3))
    ensures Run(op, transient, DefaultMaxRetries, DefaultBaseDelay) == RetryRun(Thrown(op(3).error), 4, [1000, 2000, 4000])
  {
    ExhaustedRethrowsLast(op, transient, 3, DefaultBaseDelay);
    var r := Run(op, transient, DefaultMaxRetries, DefaultBaseDelay);
    assert r.delays[0] == 1000 && r.delays[1] == 2000 && r.delays[2] == 4000 by {
      assert Pow2(2) == 4;
    }
  }

  /** A negative retry budget skips the loop: the operation is never called and `undefined` is thrown. */
  lemma NegativeBudgetThrowsUndefined<T>(op: nat -> Attempt<T>, transient: Classifier, maxRetries: int, baseDelay: int)
    requires maxRetries < 0
    ensures Run(op, transient, maxRetries, baseDelay) == RetryRun(ThrownUndefined, 0, [])
  {
  }

  /**
   * Once attempts before `k` have failed transiently with the doubling sleeps `delays`, and
   * attempt `k` either does not fail transiently or is the last one allowed, the run settles
   * with attempt `k`'s value or error.
   */
  lemma SettlesAt<T>(op: nat -> Attempt<T>, transient: Classifier, maxRetries: int, baseDelay: int, k: nat, delays: seq<int>)
    requires k <= maxRetries
    requires forall j :: 0 <= j < k ==> FailedTransiently(transient, op(j))
    requires !FailedTransiently(transient, op(k)) || k == maxRetries
    requires |delays| == k && forall i :: 0 <= i < k ==> delays[i] == Backoff(baseDelay, i)
    ensures Run(op, transient, maxRetries, baseDelay) ==
      RetryRun(if op(k).Succeeds? then Returned(op(k).value) else Thrown(op(k).error), k + 1, delays)
  {
    var r := Run(op, transient, maxRetries, baseDelay);
    if FailedTransiently(transient, op(k)) {
      ExhaustedRethrowsLast(op, transient, k, baseDelay);
    } else {
      StopsAtFirstNonTransient(op, transient, maxRetries, baseDelay, k);
    }
    assert r.delays == delays;
  }

  /** The `for` loop of the source, with each `sleep` recorded. */
  method RetryLoop<T>(op: nat -> Attempt<T>, transient: Classifier, maxRetries: int, baseDelay: int) returns (r: RetryRun<T>)
    ensures r == Run(op, transient, maxRetries, baseDelay)
  {
    var delays: seq<int> := [];
    var attempt: nat := 0;
    while attempt <= maxRetries
      invariant attempt == 0 || attempt <= maxRetries
      invariant |delays| == attempt && forall i :: 0 <= i < attempt ==> delays[i] == Backoff(baseDelay, i)
      invariant forall j :: 0 <= j < attempt ==> FailedTransiently(transient, op(j))
      decreases maxRetries + 1 - attempt
    {
      var a := op(attempt);
      if a.Succeeds? {
        SettlesAt(op, transient, maxRetries, baseDelay, attempt, delays);
        return RetryRun(Returned(a.value), attempt + 1, delays);
      }
      if !transient(a.error) || attempt == maxRetries {
        SettlesAt(op, transient, maxRetries, baseDelay, attempt, delays);
        return RetryRun(Thrown(a.error), attempt + 1, delays);
      }
      var delay := baseDelay * Pow2(attempt);
      delays := delays + [delay];
      attempt := attempt + 1;
    }
    NegativeBudgetThrowsUndefined(op, transient, maxRetries, baseDelay);
    r := RetryRun(ThrownUndefined, 0, []);
  }
}
