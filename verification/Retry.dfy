/**
  The retry loops of block submission and validator registration. Elapsed time
  is measured anew in every attempt, so it is the growing backoff that ends them.
 */
module Retry {
  import opened Wrappers
  import opened PbsErrors

  /** What the network and the timer do in one attempt: the request, and by how much a sleep after it is too long. */
  datatype Attempt<T> = Attempt(result: Result<T, PbsError>, latencyMs: nat, oversleptMs: nat)

  type Environment<T> = nat -> Attempt<T>

  const BACKOFF_STEP: nat := 250

  /** The sleep after attempt k: one step more after each attempt. */
  function Slept<T>(env: Environment<T>, k: nat): nat {
    BACKOFF_STEP * (k + 1) + env(k).oversleptMs
  }

  /** The time that attempt k takes with the sleep after it. */
  function Elapsed<T>(env: Environment<T>, k: nat): nat {
    env(k).latencyMs + Slept(env, k)
  }

  predicate Retryable<T>(a: Attempt<T>) {
    a.result.Err? && ShouldRetry(a.result.error)
  }

  /** Exactly timeouts, failed connections and the statuses from 500 to 508 are retried. */
  lemma RetryableIff<T>(a: Attempt<T>)
    ensures Retryable(a) <==>
            || (exists connectFailed :: a.result == Err(Reqwest(true, connectFailed)))
            || (exists timedOut :: a.result == Err(Reqwest(timedOut, true)))
            || (exists code :: 500 <= code <= 508 && a.result == Err(RelayResponse(code)))
  {
  }

  /** The loop may not go on after n attempts, however they end. */
  predicate Exhausted(retryLimit: Option<nat>, n: nat) {
    retryLimit.Some? && n >= retryLimit.value
  }

  /** The loop goes on after attempt k. */
  predicate GoesOn<T>(timeoutMs: nat, retryLimit: Option<nat>, env: Environment<T>, k: nat) {
    Retryable(env(k)) && !Exhausted(retryLimit, k + 1) && Elapsed(env, k) < timeoutMs
  }

  /** The loop makes exactly n attempts. */
  ghost predicate EndsAfter<T>(timeoutMs: nat, retryLimit: Option<nat>, env: Environment<T>, n: nat) {
    && n >= 1
    && (forall k :: 0 <= k < n - 1 ==> GoesOn(timeoutMs, retryLimit, env, k))
    && !GoesOn(timeoutMs, retryLimit, env, n - 1)
  }

  /** A whole run of the loop: how many attempts, and the timeout given to each request. */
  ghost predicate IsRun<T>(timeoutMs: nat, retryLimit: Option<nat>, env: Environment<T>, timeouts: seq<nat>) {
    && EndsAfter(timeoutMs, retryLimit, env, |timeouts|)
    && timeouts[0] == timeoutMs
    && (forall k :: 0 <= k < |timeouts| - 1 ==> timeouts[k + 1] == timeoutMs - Elapsed(env, k))
  }

  /** `submit_block_with_timeout`. */
  method SubmitWithTimeout<T(!new)>(timeoutMs: nat, env: Environment<T>)
    returns (res: Result<T, PbsError>, timeouts: seq<nat>)
    ensures IsRun(timeoutMs, None, env, timeouts)
    ensures res == env(|timeouts| - 1).result
  {
    var remaining: nat, retry: nat, backoff: nat := timeoutMs, 0, BACKOFF_STEP;
    timeouts := [];
    while true
      invariant |timeouts| == retry && backoff == BACKOFF_STEP * (retry + 1)
      invariant retry == 0 ==> remaining == timeoutMs
      invariant retry > 0 ==> timeouts[0] == timeoutMs
      invariant forall k :: 0 <= k < retry ==> GoesOn(timeoutMs, None, env, k)
      invariant forall k :: 0 <= k < retry ==>
                  (if k + 1 < retry then timeouts[k + 1] else remaining) ==
                  timeoutMs - Elapsed(env, k)
      decreases timeoutMs - backoff
    {
      var attempt := env(retry);
      timeouts := timeouts + [remaining];
      if attempt.result.Ok? {
        return attempt.result, timeouts;
      }
      if !ShouldRetry(attempt.result.error) {
        return attempt.result, timeouts;
      }
      var elapsed := attempt.latencyMs + backoff + attempt.oversleptMs;
      backoff := backoff + BACKOFF_STEP;
      remaining := if timeoutMs >= elapsed then timeoutMs - elapsed else 0;
      if remaining == 0 {
        return attempt.result, timeouts;
      }
      retry := retry + 1;
    }
  }

  /** `send_register_validator_with_timeout`, which also counts its attempts. */
  method RegisterWithTimeout<T(!new)>(timeoutMs: nat, retryLimit: nat, env: Environment<T>)
    returns (res: Result<T, PbsError>, timeouts: seq<nat>)
    ensures IsRun(timeoutMs, Some(retryLimit), env, timeouts)
    ensures res == env(|timeouts| - 1).result
  {
    var remaining: nat, retry: nat, backoff: nat := timeoutMs, 0, BACKOFF_STEP;
    timeouts := [];
    while true
      invariant |timeouts| == retry && backoff == BACKOFF_STEP * (retry + 1)
      invariant retry == 0 ==> remaining == timeoutMs
      invariant retry > 0 ==> timeouts[0] == timeoutMs
      invariant forall k :: 0 <= k < retry ==> GoesOn(timeoutMs, Some(retryLimit), env, k)
      invariant forall k :: 0 <= k < retry ==>
                  (if k + 1 < retry then timeouts[k + 1] else remaining) ==
                  timeoutMs - Elapsed(env, k)
      decreases timeoutMs - backoff
    {
      var attempt := env(retry);
      timeouts := timeouts + [remaining];
      if attempt.result.Ok? {
        return attempt.result, timeouts;
      }
      if !ShouldRetry(attempt.result.error) {
        return attempt.result, timeouts;
      }
      retry := retry + 1;
      if retry >= retryLimit {
        return attempt.result, timeouts;
      }
      var elapsed := attempt.latencyMs + backoff + attempt.oversleptMs;
      backoff := backoff + BACKOFF_STEP;
      remaining := if timeoutMs >= elapsed then timeoutMs - elapsed else 0;
      if remaining == 0 {
        return attempt.result, timeouts;
      }
    }
  }

  /** The time spent sleeping before attempt k. */
  function SleptBefore<T>(env: Environment<T>, k: nat): nat {
    if k == 0 then 0 else SleptBefore(env, k - 1) + Slept(env, k - 1)
  }

  lemma {:induction false} BackoffGrows<T(!new)>(env: Environment<T>, k: nat)
    ensures 2 * SleptBefore(env, k) >= BACKOFF_STEP * (k * (k + 1))
  {
    if k > 0 {
      BackoffGrows(env, k - 1);
      Triangle(k);
    }
  }

  lemma Triangle(k: nat)
    ensures k * (k + 1) == (k - 1) * k + 2 * k
  {
  }

  function MaxAttempts(timeoutMs: nat): nat {
    if timeoutMs <= BACKOFF_STEP then 1 else (timeoutMs + BACKOFF_STEP - 1) / BACKOFF_STEP
  }

  /**
    Every run ends within one attempt per started 250 ms of the timeout, and
    within the retry limit; the k-th retry gets at most timeout - 250k ms and
    comes after at least 250k(k+1)/2 ms of sleep.
   */
  lemma RetryBounds<T(!new)>(timeoutMs: nat, retryLimit: Option<nat>, env: Environment<T>, timeouts: seq<nat>)
    requires IsRun(timeoutMs, retryLimit, env, timeouts)
    ensures |timeouts| <= MaxAttempts(timeoutMs)
    ensures retryLimit.Some? ==> |timeouts| <= 1 || |timeouts| <= retryLimit.value
    ensures forall k :: 0 <= k < |timeouts| ==> timeouts[k] <= timeoutMs - BACKOFF_STEP * k
    ensures forall k :: 0 <= k < |timeouts| ==> 2 * SleptBefore(env, k) >= BACKOFF_STEP * (k * (k + 1))
  {
    forall k | 0 <= k < |timeouts|
      ensures timeouts[k] <= timeoutMs - BACKOFF_STEP * k
      ensures 2 * SleptBefore(env, k) >= BACKOFF_STEP * (k * (k + 1))
    {
      BackoffGrows(env, k);
      if k > 0 {
        assert GoesOn(timeoutMs, retryLimit, env, k - 1);
        assert Slept(env, k - 1) >= BACKOFF_STEP * k;
      }
    }
    if |timeouts| > 1 {
      assert GoesOn(timeoutMs, retryLimit, env, |timeouts| - 2);
      assert Slept(env, |timeouts| - 2) >= BACKOFF_STEP * (|timeouts| - 1);
    }
  }

  // ----- the time a run takes

  /** The time spent on the first k attempts, each with its sleep. */
  function SpentBefore<T>(env: Environment<T>, k: nat): nat {
    if k == 0 then 0 else SpentBefore(env, k - 1) + Elapsed(env, k - 1)
  }

  /** The time spent on n attempts: the last one sleeps too if it failed retryably within the limit. */
  function TimeSpent<T>(retryLimit: Option<nat>, env: Environment<T>, n: nat): nat
    requires n >= 1
  {
    var last := env(n - 1);
    SpentBefore(env, n - 1) + last.latencyMs +
    if Retryable(last) && !Exhausted(retryLimit, n) then Slept(env, n - 1) else 0
  }

  lemma {:induction false} SpentCoversSleep<T>(env: Environment<T>, k: nat)
    ensures SpentBefore(env, k) >= SleptBefore(env, k)
  {
    if k > 0 {
      SpentCoversSleep(env, k - 1);
    }
  }

  /**
    On every run that gives up on a retryable error, in every environment: either
    the attempts were used up, or no less than the whole timeout has been spent,
    and exactly the timeout if and only if there was one attempt and it filled it.
   */
  lemma TimeSpentIff<T(!new)>(timeoutMs: nat, retryLimit: Option<nat>, env: Environment<T>, n: nat)
    requires EndsAfter(timeoutMs, retryLimit, env, n) && Retryable(env(n - 1))
    ensures 2 * TimeSpent(retryLimit, env, n) >= BACKOFF_STEP * ((n - 1) * n)
    ensures !Exhausted(retryLimit, n) ==>
              && TimeSpent(retryLimit, env, n) >= timeoutMs
              && (TimeSpent(retryLimit, env, n) == timeoutMs <==>
                  n == 1 && Elapsed(env, 0) == timeoutMs)
  {
    SpentCoversSleep(env, n - 1);
    BackoffGrows(env, n - 1);
    if n > 1 {
      assert SpentBefore(env, n - 1) >= Slept(env, n - 2) >= BACKOFF_STEP * (n - 1);
    }
  }

  /** Sleeps last exactly as long as asked. */
  ghost predicate SleepsExactly<T(!new)>(env: Environment<T>) {
    forall k: nat :: env(k).oversleptMs == 0
  }

  /** While the loop goes on, each attempt takes less than the timeout. */
  lemma {:induction false} SpentBelow<T>(timeoutMs: nat, retryLimit: Option<nat>, env: Environment<T>, k: nat)
    requires forall j :: 0 <= j < k ==> GoesOn(timeoutMs, retryLimit, env, j)
    ensures SpentBefore(env, k) <= k * timeoutMs
  {
    if k > 0 {
      SpentBelow(timeoutMs, retryLimit, env, k - 1);
      assert GoesOn(timeoutMs, retryLimit, env, k - 1);
      assert k * timeoutMs == (k - 1) * timeoutMs + timeoutMs;
    }
  }

  /**
    With requests that keep their timeouts and exact sleeps, a run takes at most
    one timeout per attempt and 250 ms more: how far past its timeout it can go.
   */
  lemma TimeSpentAtMost<T(!new)>(timeoutMs: nat, retryLimit: Option<nat>, env: Environment<T>, timeouts: seq<nat>)
    requires SleepsExactly(env) && IsRun(timeoutMs, retryLimit, env, timeouts)
    requires forall k :: 0 <= k < |timeouts| ==> env(k).latencyMs <= timeouts[k]
    ensures TimeSpent(retryLimit, env, |timeouts|) <= |timeouts| * timeoutMs + BACKOFF_STEP
    ensures TimeSpent(retryLimit, env, |timeouts|) <= MaxAttempts(timeoutMs) * timeoutMs + BACKOFF_STEP
  {
    var n := |timeouts|;
    RetryBounds(timeoutMs, retryLimit, env, timeouts);
    SpentBelow(timeoutMs, retryLimit, env, n - 1);
    assert timeouts[n - 1] <= timeoutMs - BACKOFF_STEP * (n - 1);
    assert Slept(env, n - 1) == BACKOFF_STEP * n;
    OneTimeoutMore(n, MaxAttempts(timeoutMs), timeoutMs);
  }

  lemma OneTimeoutMore(n: nat, most: nat, timeoutMs: nat)
    requires n <= most
    ensures (n - 1) * timeoutMs + timeoutMs == n * timeoutMs <= most * timeoutMs
  {
    assert most * timeoutMs == n * timeoutMs + (most - n) * timeoutMs;
  }

  /** A registration that gives up before its timeout has used up its attempts. */
  lemma EarlyOnlyByCount<T(!new)>(timeoutMs: nat, retryLimit: nat, env: Environment<T>, n: nat)
    requires EndsAfter(timeoutMs, Some(retryLimit), env, n) && Retryable(env(n - 1))
    requires TimeSpent(Some(retryLimit), env, n) < timeoutMs
    ensures n == if retryLimit == 0 then 1 else retryLimit
  {
    TimeSpentIff(timeoutMs, Some(retryLimit), env, n);
    if n > 1 {
      assert GoesOn(timeoutMs, Some(retryLimit), env, n - 2);
    }
  }

  /** A relay that refuses at once, and a timer that is exact. */
  function RefusesAtOnce(): Environment<()> {
    (k: nat) => Attempt(Err(RelayResponse(500)), 0, 0)
  }

  lemma {:induction false} ExactSleep(k: nat)
    ensures 2 * SleptBefore(RefusesAtOnce(), k) == BACKOFF_STEP * (k * (k + 1))
    ensures SpentBefore(RefusesAtOnce(), k) == SleptBefore(RefusesAtOnce(), k)
  {
    if k > 0 {
      ExactSleep(k - 1);
      Triangle(k);
    }
  }

  /**
    The bound on attempts is reached by a relay that refuses at once, and the
    loop then outlasts its timeout, unless that is exactly 250 ms: retrying does
    not stop when the given timeout has passed.
   */
  lemma LoopOutlastsTimeoutIff(timeoutMs: nat, n: nat)
    requires EndsAfter(timeoutMs, None, RefusesAtOnce(), n)
    ensures n == MaxAttempts(timeoutMs)
    ensures TimeSpent(None, RefusesAtOnce(), n) > timeoutMs <==> timeoutMs != BACKOFF_STEP
  {
    var env := RefusesAtOnce();
    assert Slept(env, n - 1) == BACKOFF_STEP * n;
    assert !GoesOn(timeoutMs, None, env, n - 1);
    TimeSpentIff(timeoutMs, None, env, n);
    if n > 1 {
      assert GoesOn(timeoutMs, None, env, n - 2);
      assert Slept(env, n - 2) == BACKOFF_STEP * (n - 1);
    }
  }

  /** Such a relay with a limit of one attempt: registration gives up with all its time left. */
  lemma CountEndsEarly(timeoutMs: nat)
    ensures EndsAfter(timeoutMs, Some(1), RefusesAtOnce(), 1)
    ensures TimeSpent(Some(1), RefusesAtOnce(), 1) == 0
  {
  }
}
