/** RetryGRPC: the bounded retry loop with exponential backoff that the
    Fibonacci service wraps around its fire-and-forget stats report.
    Sleeping is replaced by recording each delay. */
module Retry {
  import opened Wrappers
  import opened Grpc

  /** 2^k. */
  function Pow2(k: nat): (p: nat)
    ensures p >= 1
  {
    if k == 0 then 1 else 2 * Pow2(k - 1)
  }

  /** What one call of the retried function returned: `None` for nil. */
  type Reply = Option<CallError>

  /** A reply that asks for another attempt. */
  predicate Transient(reply: Reply)
  {
    reply.Some? && Retryable(reply.value)
  }

  /** The observable outcome of a retry run: the error returned, how many
      times the function was called, and the delays slept, in order. */
  datatype RetryRun = RetryRun(err: Reply, calls: nat, sleeps: seq<int>)

  /** The run from attempt `i` on, `delay` being the next sleep and `last`
      the error of the previous attempt. `call(j)` is the reply of the
      j-th call (0-based). */
  function RetryFrom(call: nat -> Reply, i: nat, maxRetries: int, delay: int, last: Reply): RetryRun
    decreases if i <= maxRetries then maxRetries + 1 - i else 0
  {
    if maxRetries < i then RetryRun(last, i, [])
    else
      var reply := call(i);
      if !Transient(reply) then RetryRun(reply, i + 1, [])
      else
        var rest := RetryFrom(call, i + 1, maxRetries, 2 * delay, reply);
        RetryRun(rest.err, rest.calls, [delay] + rest.sleeps)
  }

  /** The whole run: nothing attempted yet, the error variable still nil. */
  function Retry(call: nat -> Reply, maxRetries: int, baseDelay: int): RetryRun
  {
    RetryFrom(call, 0, maxRetries, baseDelay, None)
  }

  /** A run with `prefix` slept before it. */
  function After(prefix: seq<int>, run: RetryRun): RetryRun
  {
    RetryRun(run.err, run.calls, prefix + run.sleeps)
  }

  /** The retry loop. */
  method RetryGRPC(maxRetries: int, baseDelay: int, call: nat -> Reply)
    returns (err: Reply, calls: nat, sleeps: seq<int>)
    ensures RetryRun(err, calls, sleeps) == Retry(call, maxRetries, baseDelay)
  {
    err := None;
    var delay := baseDelay;
    calls, sleeps := 0, [];
    var i := 0;
    while i <= maxRetries
      invariant 0 <= i && (0 <= maxRetries ==> i <= maxRetries + 1)
      invariant calls == i
      invariant Retry(call, maxRetries, baseDelay) == After(sleeps, RetryFrom(call, i, maxRetries, delay, err))
      decreases maxRetries + 1 - i
    {
      err := call(i);
      calls := calls + 1;
      if err == None {
        return;
      }
      if !Retryable(err.value) {
        return;
      }
      sleeps := sleeps + [delay];
      delay := delay * 2;
      i := i + 1;
    }
  }

  /** What a run from attempt `i` does: between one and all remaining
      attempts; every attempt but the last was transient; it returns the
      last reply (nil on success); it stops early only on a reply that is
      not transient; it sleeps after each transient reply, the k-th sleep
      being delay * 2^k. */
  lemma {:induction false} RetryFromFacts(call: nat -> Reply, i: nat, maxRetries: int, delay: int, last: Reply)
    requires i <= maxRetries
    ensures var r := RetryFrom(call, i, maxRetries, delay, last);
      && i + 1 <= r.calls <= maxRetries + 1
      && (forall j :: i <= j < r.calls - 1 ==> Transient(call(j)))
      && r.err == call(r.calls - 1)
      && (r.calls <= maxRetries ==> !Transient(call(r.calls - 1)))
      && |r.sleeps| == (if Transient(call(r.calls - 1)) then r.calls - i else r.calls - 1 - i)
      && (forall k :: 0 <= k < |r.sleeps| ==> r.sleeps[k] == delay * Pow2(k))
    decreases maxRetries - i
  {
    var reply := call(i);
    if Transient(reply) && i + 1 <= maxRetries {
      RetryFromFacts(call, i + 1, maxRetries, 2 * delay, reply);
      var rest := RetryFrom(call, i + 1, maxRetries, 2 * delay, reply);
      forall k | 0 <= k < |rest.sleeps|
        ensures rest.sleeps[k] == delay * Pow2(k + 1)
      {
        assert rest.sleeps[k] == (2 * delay) * Pow2(k);
        assert Pow2(k + 1) == 2 * Pow2(k);
      }
    }
  }

  /** RetryGRPC's promises about a whole run. With no retry budget at all
      (maxRetries < 0) the function is never called and nil is returned.
      Otherwise it is called at least once and at most maxRetries + 1
      times, nil comes back exactly when the last call succeeded, and the
      k-th sleep is baseDelay * 2^k. */
  lemma RetryBounded(call: nat -> Reply, maxRetries: int, baseDelay: int)
    ensures var r := Retry(call, maxRetries, baseDelay);
      && (maxRetries < 0 ==> r == RetryRun(None, 0, []))
      && (0 <= maxRetries ==>
            && 1 <= r.calls <= maxRetries + 1
            && (forall j :: 0 <= j < r.calls - 1 ==> Transient(call(j)))
            && r.err == call(r.calls - 1)
            && (r.err == None <==> call(r.calls - 1) == None)
            && (r.calls <= maxRetries ==> !Transient(call(r.calls - 1)))
            && |r.sleeps| == (if Transient(call(r.calls - 1)) then r.calls else r.calls - 1)
            && (forall k :: 0 <= k < |r.sleeps| ==> r.sleeps[k] == baseDelay * Pow2(k)))
  {
    if 0 <= maxRetries {
      RetryFromFacts(call, 0, maxRetries, baseDelay, None);
    }
  }

  /** A reply that is not transient ends the run at that attempt, with no
      sleep after it, and is returned as is. */
  lemma RetryStopsAtFirstNonTransient(call: nat -> Reply, maxRetries: int, baseDelay: int, j: nat)
    requires j <= maxRetries
    requires !Transient(call(j))
    requires forall k :: 0 <= k < j ==> Transient(call(k))
    ensures Retry(call, maxRetries, baseDelay).calls == j + 1
    ensures Retry(call, maxRetries, baseDelay).err == call(j)
    ensures |Retry(call, maxRetries, baseDelay).sleeps| == j
  {
    RetryBounded(call, maxRetries, baseDelay);
  }

  /** When every attempt is transient, all maxRetries + 1 attempts run,
      each is followed by a sleep (the last one too), and the last error
      is returned. */
  lemma RetryAllTransient(call: nat -> Reply, maxRetries: int, baseDelay: int)
    requires 0 <= maxRetries
    requires forall j :: Transient(call(j))
    ensures Retry(call, maxRetries, baseDelay).calls == maxRetries + 1
    ensures |Retry(call, maxRetries, baseDelay).sleeps| == maxRetries + 1
    ensures Retry(call, maxRetries, baseDelay).err == call(maxRetries)
  {
    RetryBounded(call, maxRetries, baseDelay);
  }

  /** The stats report's policy: 3 retries, first delay 100 ms (in
      nanoseconds, the unit of Go's time.Duration). */
  const ReportRetries: int := 3
  const ReportBaseDelay: int := 100 * 1_000_000

  /** Four transient failures in a row: four attempts, sleeps of 100, 200,
      400 and 800 ms, and the fourth error is returned (and only logged). */
  lemma ReportGivesUpAfterFourAttempts(call: nat -> Reply)
    requires forall j :: Transient(call(j))
    ensures Retry(call, ReportRetries, ReportBaseDelay) ==
            RetryRun(call(3), 4, [100_000_000, 200_000_000, 400_000_000, 800_000_000])
  {
    RetryAllTransient(call, ReportRetries, ReportBaseDelay);
    RetryBounded(call, ReportRetries, ReportBaseDelay);
    var r := Retry(call, ReportRetries, ReportBaseDelay);
    assert Pow2(1) == 2 && Pow2(2) == 4 && Pow2(3) == 8;
    assert r.sleeps == [100_000_000, 200_000_000, 400_000_000, 800_000_000];
  }

  /** A permanent failure on the first attempt: one attempt, no sleep. */
  lemma ReportPermanentFailureOnce(call: nat -> Reply)
    requires call(0).Some? && !Retryable(call(0).value)
    ensures Retry(call, ReportRetries, ReportBaseDelay) == RetryRun(call(0), 1, [])
  {
    RetryStopsAtFirstNonTransient(call, ReportRetries, ReportBaseDelay, 0);
  }
}
