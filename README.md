# Fibonacci-gRPC: a verified model of the evaluator, the retry helper and the stats aggregator

The system answers Fibonacci queries over gRPC. The Fibonacci service computes
Fib(n) with a linear loop, memoises results in a Redis cache, refuses `n > 92`
(the largest index whose value fits a signed 64-bit integer), and reports each
computation, fire-and-forget, to a stats service through a bounded retry loop
with exponential backoff. The stats service counts requests per `n`, sums their
durations, and returns a snapshot sorted by `n`.

This project models those two cores in Dafny:

- `common.dfy` — `Wrappers` (Option, Result) and `Grpc` (the status codes the
  services inspect, status errors, and which of them are retryable).
- `fibonacci.dfy` — module `Fibonacci`: the recursive reference `FibSlow`; Go's
  64-bit `int` with explicit wrap-around (`Wrap64`); the loop of `Fib` as
  `FibLoop`; the Redis store as a class `RedisStore` holding a
  `map<int, Stored>`, where a stored text either parses or does not; `Fib`
  with its hit / miss / read-error / parse-failure / write-failure paths; and
  the `GetFib` handler with its guard.
- `retry.dfy` — module `Retry`: `RetryGRPC` as a loop driven by the replies of
  successive calls (`call(j)` is what the j-th call returns), recording the
  delays it would sleep; the recursive specification `Retry` it is proved
  against; and the properties of a run, including the report's own policy
  (3 retries, 100 ms first delay).
- `stats.dfy` — module `StatsService`: the aggregator's state as a value
  (`StatsState`) with `Record` and its invariant `Consistent`; the class
  `Stats` whose `RecordNo` updates its three fields in place and whose
  `GetStats` collects the keys, sorts them and builds the per-`n` entries.

Where the system's documented design and its code differ, the model follows the
code:

- On a miss the code always iterates from the base cases and stores only the
  final value under key `n`. It does not start from the nearest cached lower
  entry and does not store intermediate results.
- The handler refuses only `n > 92`; a negative `n` reaches `Fib`, which returns
  1 for it and caches that value (see Findings). Only the HTTP gateway
  (api-gateway/main.go:44) refuses negative input.
- With every attempt transient, the retry loop sleeps after the last attempt
  too. So the report sleeps 100, 200, 400 and 800 ms, and gives up only after
  the 800 ms sleep.

## Model

| member | source | states |
|---|---|---|
| `Fibonacci.FibSlow` | fibonacci-service/main.go:116-124 | the reference definition: 0, 1, then the sum of the two predecessors, on non-negative indices |
| `Fibonacci.FibSlow64` | fibonacci-service/main.go:116-124 | Go's recursion as written, each addition wrapped to int64; equal to `Wrap64(FibSlow(n))` for every n (proved by `FibSlow64Wraps`) |
| `Fibonacci.FibSlow64Wraps` | fibonacci-service/main.go:116-124 | Go's FibSlow, whose additions wrap in 64-bit `int`, equals the exact Fibonacci number wrapped once into int64, for every n >= 0 |
| `Fibonacci.FibSlow64At93` | fibonacci-service/main.go:116-124 | Go's FibSlow(93) is -6246583658587674878, the first wrapped value |
| `Fibonacci.FibSlowMonotone` | fibonacci-service/main.go:116-124 | the reference sequence never decreases |
| `Fibonacci.FibSlowAtBoundary` | fibonacci-service/main.go:80-86 | Fib(92) = 7540113804746346429 and Fib(93) = 12200160415121876738 |
| `Fibonacci.FibSlowFitsInt64` | fibonacci-service/main.go:80-86 | Fib(n) fits a signed 64-bit integer exactly when n <= 92, which is the reason for the guard |
| `Fibonacci.Wrap64` | fibonacci-service/main.go:155 | Go's `int` addition: the result is the unique int64 congruent to the exact sum modulo 2^64, and the exact sum itself when that fits |
| `Fibonacci.FibLoopStep` | fibonacci-service/main.go:153-156 | one iteration keeps `a = Fib(i-1)` and `b = Fib(i)` in wrapped arithmetic |
| `Fibonacci.FibLoopOverflow` | fibonacci-service/main.go:153-156 | for 2 <= i <= 93, the loop's addition for index i stays in the int64 range exactly when i <= 92 (beyond 93 the wrapped operands can sum into range again) |
| `Fibonacci.FibLoop` | fibonacci-service/main.go:153-156 | the loop returns the wrapped Fib(n) for n >= 1 and its starting value 1 otherwise; some addition overflows if and only if n >= 93 |
| `Fibonacci.WrappedFibAgrees` | fibonacci-service/main.go:127-161 | the production path's computed value equals `FibSlow(n)` for 0 <= n <= 92 and differs from it for every larger n |
| `Fibonacci.FibKeepsConsistent` | fibonacci-service/main.go:127-163 | on a cache whose parseable entries all hold the computed value, Fib answers the computed value and the cache keeps that property, whatever the read and write faults |
| `Fibonacci.FibRepeatHits` | fibonacci-service/main.go:127-163 | two fault-free calls for the same index return the same value; the second finds it in the cache and writes nothing |
| `Fibonacci.Fib` | fibonacci-service/main.go:127-163 | the answer is `FibAnswer` and the new cache `FibStore` of the old cache: 0 and 1 are returned without touching the cache; a hit whose text parses returns that value and writes nothing; a miss, a read error or a parse failure computes the value and writes it under `n` unless the SET does not take effect, and the answer is the same either way. A consistent cache stays consistent, and then the answer is the computed value |
| `Fibonacci.GetFib` | fibonacci-service/main.go:82-113 | n > 92 gives InvalidArgument with the source's message, emits no report and leaves the cache unchanged. Otherwise the answer is Fib's answer for the old cache (`FibAnswer`), the new cache is Fib's (`FibStore`), and one observation (n, elapsed) is emitted. On a consistent cache with 0 <= n <= 92 the answer is `FibSlow(n)` |
| `Fibonacci.NegativeIndexAdmitted` | fibonacci-service/main.go:84-87 | the guard as written admits n = -2, and the production path then answers 1 |
| `Fibonacci.GetFibChecked` | fibonacci-service/main.go:82-113 | with a lower bound added, the handler succeeds exactly on 0 <= n <= 92; a failure leaves the cache unchanged; a success answers Fib's answer with Fib's new cache, and on a consistent cache is `FibSlow(n)` |
| `Retry.RetryGRPC` | fibonacci-service/main.go:53-78 | the loop's error, call count and sleeps are those of the recursive specification `Retry` |
| `Retry.RetryFromFacts` | fibonacci-service/main.go:57-77 | from any attempt on, every attempt but the last was transient, the last reply is returned, an early stop happens only on a non-transient reply, and the k-th sleep doubles k times |
| `Retry.RetryBounded` | fibonacci-service/main.go:53-78 | with maxRetries < 0 nothing is called and nil is returned. Otherwise there are 1 to maxRetries+1 calls, nil is returned exactly when the last call succeeded, and the k-th sleep is baseDelay * 2^k |
| `Retry.RetryStopsAtFirstNonTransient` | fibonacci-service/main.go:62-70 | a success, a non-gRPC error or a non-retryable code ends the run at that attempt, with no sleep after it, and that reply is returned |
| `Retry.RetryAllTransient` | fibonacci-service/main.go:57-77 | if every reply is transient there are exactly maxRetries+1 attempts and maxRetries+1 sleeps, and the last error is returned |
| `Retry.ReportGivesUpAfterFourAttempts` | fibonacci-service/main.go:96-105 | the stats report under constant transient failure makes 4 attempts, sleeps 100, 200, 400 and 800 ms, and returns the fourth error |
| `Retry.ReportPermanentFailureOnce` | fibonacci-service/main.go:96-105 | a permanent failure of the report makes exactly one attempt and no sleep |
| `StatsService.Record` | stats-service/main.go:40-42 | one observation adds 1 to the count of n, dur to its total time and 1 to the global counter, and leaves every other index unchanged |
| `StatsService.InitialConsistent` | stats-service/main.go:88-91 | the empty starting state satisfies the invariant |
| `StatsService.RecordKeepsConsistent` | stats-service/main.go:40-42 | recording preserves the invariant: same key sets, every count >= 1, and the global counter equal to the sum of the counts |
| `StatsService.RecordAllAccumulates` | stats-service/main.go:40-42 | k observations of n add k to its count, their durations to its total and k to the global counter, and change no other index |
| `StatsService.RecordAllFresh` | stats-service/main.go:40-42 | from an index not yet seen, k observations leave count k and total d1+...+dk |
| `StatsService.Milliseconds` | stats-service/main.go:68 | total time in whole milliseconds, truncated toward zero for either sign |
| `StatsService.CollectKeys` | stats-service/main.go:56-59 | every key of the count map, each exactly once |
| `StatsService.InsertSorted` | stats-service/main.go:60 | inserting into an ascending sequence keeps it ascending and adds exactly that element |
| `StatsService.SortInts` | stats-service/main.go:60 | the sorted keys are ascending and a permutation of the collected ones |
| `StatsService.SortedDistinctKeys` | stats-service/main.go:56-60 | sorting distinct keys gives a strictly ascending sequence with the same members |
| `StatsService.Stats.constructor` | stats-service/main.go:88-91 | the service starts from empty maps and a zero counter, which satisfy the invariant |
| `StatsService.Stats.RecordNo` | stats-service/main.go:33-46 | the new state is `Record` of the old one, the invariant is kept, and success is always reported |
| `StatsService.Stats.GetStats` | stats-service/main.go:49-77 | the entries are strictly ascending in n and their n are exactly the keys of the count map. Each carries its count and total milliseconds, and every count is >= 1 under the invariant, so the average's divisor is never zero. The total is the field's value, and nothing is modified |
| `StatsService.InitialSnapshot` | stats-service/main.go:88-91 | the snapshot of a fresh service has total 0 and no entries |

## Left out

- The HTTP gateway (api-gateway/main.go): query parsing, JSON encoding and client calls. Its `n < 0` check appears only as the lower bound of `Fibonacci.GetFibChecked`.
- Process wiring: every `main`, flag parsing, listeners, gRPC server and client setup, and `InitRedis` with its ping.
- The Redis client, the `fib:%d` key formatting and `strconv.ParseInt`. The store is a map keyed by the index itself; a read error is a boolean parameter of `Fib`, and so is whether the SET took effect (`writeLost`): the SET's error reply is only logged, and a SET whose reply was lost may or may not have been applied, so both outcomes are covered. A stored text is either a decimal integer or malformed, and it parses only if it is decimal and within int64.
- Concurrency: the goroutine of `GetFib` and the stats mutex. Each call is modelled as atomic and sequential, and `GetFib` returns the observation it hands to the reporter instead of starting the reporter.
- Time: `time.Now`/`time.Since` become the `elapsed` parameter, `time.Sleep` becomes the recorded `sleeps` sequence, and the per-attempt 2-second timeout appears only as one of the reply kinds (DeadlineExceeded).
- The stats RPC made by each retry attempt: its replies are the `call` function of `Retry.RetryGRPC`.
- Retry.RetryGRPC: does not model 64-bit overflow of `delay *= 2`, because with the report's 3 retries the delay never exceeds 800 ms.
- `AverageTimeMs` as a `float64` division: each entry carries its integer numerator (whole milliseconds of the total) and its divisor (the count).
- The `int32` narrowing of `n`, of the counts and of the total in requests and responses.
- StatsService.Record: does not model int or int64 overflow of a count or a total; counters and durations are unbounded integers.
- `FibSlow` on a negative index: the Go recursion never reaches a base case there, so it is defined on natural numbers only. `Fibonacci.FibSlow` is the unbounded sequence used as the reference; Go's own function, which wraps for n >= 93, is `Fibonacci.FibSlow64`, proved equal to the wrapped reference.
- `sort.Ints` is a library routine; it is modelled by an insertion sort with the library's contract (ascending permutation), not by its own algorithm.
- Logging (`log.Printf`) and the logging of a failed cache write or a dropped report.

## Findings

| source | as written | input that shows it | evidently intended | confidence | as-written member | corrected member |
|---|---|---|---|---|---|---|
| fibonacci-service/main.go:84-87 | the handler refuses only `n > 92`; for a negative `n` the loop of `Fib` does not run, so the handler answers 1 and caches it | a request with n = -2 sent straight to the Fibonacci service answers 1 | refuse `n < 0` with InvalidArgument, as the gateway does and as the service's contract states | medium, not executed | `Fibonacci.NegativeIndexAdmitted` | `Fibonacci.GetFibChecked` |
