/** The Fibonacci service's evaluator: the recursive reference definition,
    the cached iterative production path over Go's 64-bit `int`, and the
    `n > 92` guard of the GetFib handler. */
module Fibonacci {
  import opened Wrappers
  import opened Grpc

  // ---------------------------------------------------------------------
  // Go's 64-bit signed `int`
  // ---------------------------------------------------------------------

  const Int64Min: int := -0x8000_0000_0000_0000
  const Int64Max: int := 0x7fff_ffff_ffff_ffff
  const Modulus: int := 0x1_0000_0000_0000_0000

  predicate InInt64(x: int)
  {
    Int64Min <= x <= Int64Max
  }

  /** The value Go's wrap-around arithmetic leaves for the exact result `x`:
      the unique int64 congruent to `x` modulo 2^64. */
  function Wrap64(x: int): (r: int)
    ensures InInt64(r)
    ensures (x - r) % Modulus == 0
    ensures InInt64(x) ==> r == x
  {
    if InInt64(x) then x else (x - Int64Min) % Modulus + Int64Min
  }

  /** Two exact results that agree modulo 2^64 wrap to the same int64. */
  lemma WrapCongruent(x: int, y: int)
    requires (x - y) % Modulus == 0
    ensures Wrap64(x) == Wrap64(y)
  {
    var k := (x - y) / Modulus;
    assert x - Int64Min == (y - Int64Min) + Modulus * k;
    var q := (y - Int64Min) / Modulus;
    var m := (y - Int64Min) % Modulus;
    assert x - Int64Min == Modulus * (q + k) + m;
  }

  /** Wrapping after every addition gives the same int64 as wrapping once. */
  lemma WrapAdd(x: int, y: int)
    ensures Wrap64(Wrap64(x) + Wrap64(y)) == Wrap64(x + y)
  {
    var wx, wy := Wrap64(x), Wrap64(y);
    var qx, qy := (x - wx) / Modulus, (y - wy) / Modulus;
    assert x - wx == Modulus * qx;
    assert y - wy == Modulus * qy;
    assert (x + y) - (wx + wy) == Modulus * (qx + qy);
    WrapCongruent(x + y, wx + wy);
  }

  // ---------------------------------------------------------------------
  // The reference definition
  // ---------------------------------------------------------------------

  /** FibSlow: the plain recursive definition, kept by the service as a
      benchmark. Defined on natural numbers: on a negative index the Go
      recursion never reaches a base case. */
  function FibSlow(n: nat): nat
  {
    if n == 0 then 0
    else if n == 1 then 1
    else FibSlow(n - 1) + FibSlow(n - 2)
  }

  /** FibSlow as Go computes it: the same recursion, each addition in
      Go's wrapping 64-bit `int`. */
  function FibSlow64(n: nat): int
  {
    if n == 0 then 0
    else if n == 1 then 1
    else Wrap64(FibSlow64(n - 1) + FibSlow64(n - 2))
  }

  /** Go's FibSlow is the exact Fibonacci number wrapped once into int64,
      so it agrees with the reference exactly up to index 92. */
  lemma {:induction false} FibSlow64Wraps(n: nat)
    ensures FibSlow64(n) == Wrap64(FibSlow(n))
    decreases n
  {
    if n >= 2 {
      FibSlow64Wraps(n - 1);
      FibSlow64Wraps(n - 2);
      WrapAdd(FibSlow(n - 1), FibSlow(n - 2));
    }
  }

  /** The first index at which Go's FibSlow has wrapped: a negative value. */
  lemma FibSlow64At93()
    ensures FibSlow64(93) == -6246583658587674878
  {
    FibSlow64Wraps(93);
    FibSlowAtBoundary();
    WrapFib93();
  }

  /** Fib(93) wraps to a negative int64. */
  lemma WrapFib93()
    ensures Wrap64(12200160415121876738) == -6246583658587674878
  {
    var x := 12200160415121876738;
    assert x - Int64Min == Modulus + 2976788378267100930;
  }

  /** The sequence never decreases. */
  lemma {:induction false} FibSlowMonotone(i: nat, j: nat)
    requires i <= j
    ensures FibSlow(i) <= FibSlow(j)
    decreases j
  {
    if i < j {
      FibSlowMonotone(i, j - 1);
      assert FibSlow(j - 1) <= FibSlow(j);
    }
  }

  /** `k` more steps of the pair recurrence, starting from (a, b). */
  ghost function FibFrom(a: int, b: int, k: nat): int
    decreases k
  {
    if k == 0 then a else FibFrom(b, a + b, k - 1)
  }

  lemma {:induction false} FibFromIsFibSlow(i: nat, k: nat)
    ensures FibFrom(FibSlow(i), FibSlow(i + 1), k) == FibSlow(i + k)
    decreases k
  {
    if k > 0 {
      FibFromIsFibSlow(i + 1, k - 1);
    }
  }

  /** Ten and eleven indices further on, from two consecutive values. */
  lemma FibSlowJump(i: nat, a: int, b: int)
    requires FibSlow(i) == a && FibSlow(i + 1) == b
    ensures FibSlow(i + 10) == FibFrom(a, b, 10) && FibSlow(i + 11) == FibFrom(a, b, 11)
  {
    FibFromIsFibSlow(i, 10);
    FibFromIsFibSlow(i, 11);
  }

  /** The two values around the int64 boundary. */
  lemma FibSlowAtBoundary()
    ensures FibSlow(92) == 7540113804746346429
    ensures FibSlow(93) == 12200160415121876738
  {
    FibSlowJump(0, 0, 1);
    FibSlowJump(10, 55, 89);
    FibSlowJump(20, 6765, 10946);
    FibSlowJump(30, 832040, 1346269);
    FibSlowJump(40, 102334155, 165580141);
    FibSlowJump(50, 12586269025, 20365011074);
    FibSlowJump(60, 1548008755920, 2504730781961);
    FibSlowJump(70, 190392490709135, 308061521170129);
    FibSlowJump(80, 23416728348467685, 37889062373143906);
    assert FibSlow(90) == 2880067194370816120 && FibSlow(91) == 4660046610375530309;
  }

  /** One step of the loop: from the wrapped predecessors, the wrapped sum
      is the wrapped successor. */
  lemma FibLoopStep(i: nat, a: int, b: int)
    requires 2 <= i
    requires a == Wrap64(FibSlow(i - 2)) && b == Wrap64(FibSlow(i - 1))
    ensures Wrap64(a + b) == Wrap64(FibSlow(i))
  {
    var x, y := FibSlow(i - 2), FibSlow(i - 1);
    assert FibSlow(i) == x + y;
    WrapAdd(x, y);
  }

  /** The loop's exact sum leaves the int64 range at index 93 and not
      before. */
  lemma FibLoopOverflow(i: nat, a: int, b: int)
    requires 2 <= i <= 93
    requires a == Wrap64(FibSlow(i - 2)) && b == Wrap64(FibSlow(i - 1))
    ensures InInt64(a + b) <==> i <= 92
  {
    var x, y := FibSlow(i - 2), FibSlow(i - 1);
    assert FibSlow(i) == x + y;
    FibSlowFitsInt64(i - 2);
    FibSlowFitsInt64(i - 1);
    FibSlowFitsInt64(i);
    assert a == x && b == y;
  }

  /** Fib(n) fits a signed 64-bit integer exactly when n <= 92: the reason
      for the handler's guard. */
  lemma FibSlowFitsInt64(n: nat)
    ensures FibSlow(n) <= Int64Max <==> n <= 92
  {
    FibSlowAtBoundary();
    if n <= 92 {
      FibSlowMonotone(n, 92);
    } else {
      FibSlowMonotone(93, n);
    }
  }

  // ---------------------------------------------------------------------
  // The production path
  // ---------------------------------------------------------------------

  /** The value the production path computes for `n` whenever it does not
      take a cached value: the base cases for 0 and 1, the 64-bit
      wrapped Fibonacci number above them, and the loop's starting `b`
      (1) for a negative index, on which the loop does not run. */
  function WrappedFib(n: int): int
  {
    if n < 0 then 1 else Wrap64(FibSlow(n))
  }

  /** On the indices the guard admits and the gateway lets through, the
      production path equals the reference definition; above them it
      never does. */
  lemma WrappedFibAgrees(n: int)
    requires 0 <= n
    ensures InInt64(WrappedFib(n))
    ensures WrappedFib(n) == FibSlow(n) <==> n <= 92
  {
    FibSlowFitsInt64(n);
  }

  /** The two-variable loop of Fib, in Go's wrapping `int` arithmetic.
      `overflowed` records whether any addition left the int64 range. */
  method FibLoop(n: int) returns (b: int, ghost overflowed: bool)
    ensures b == if n >= 1 then WrappedFib(n) else 1
    ensures overflowed <==> n >= 93
  {
    var a := 0;
    b := 1;
    overflowed := false;
    var i := 2;
    while i <= n
      invariant 2 <= i && (n >= 1 ==> i <= n + 1) && (n < 2 ==> i == 2)
      invariant a == Wrap64(FibSlow(i - 2)) && b == Wrap64(FibSlow(i - 1))
      invariant overflowed <==> i >= 94
    {
      FibLoopStep(i, a, b);
      if i <= 93 {
        FibLoopOverflow(i, a, b);
      }
      overflowed := overflowed || !InInt64(a + b);
      a, b := b, Wrap64(a + b);
      i := i + 1;
    }
  }

  // ---------------------------------------------------------------------
  // The cache
  // ---------------------------------------------------------------------

  /** The text stored under a key: the decimal form of an integer, or text
      that the parser rejects. */
  datatype Stored = Decimal(value: int) | Malformed

  /** What a GET returns: the stored text, "no such key", or a transport
      error. */
  datatype GetReply = Hit(text: Stored) | Nil | GetError

  /** The parse of stored text as a base-10 int64: fails on malformed
      text and on values outside the int64 range. */
  function ParseInt64(s: Stored): Option<int>
  {
    if s.Decimal? && InInt64(s.value) then Some(s.value) else None
  }

  /** The key-value store that holds the cache, one entry per index. */
  class RedisStore {
    var entries: map<int, Stored>

    constructor ()
      ensures entries == map[]
    {
      entries := map[];
    }
  }

  /** The reply a GET for index `n` receives, `fault` standing for a
      connection error. */
  function Read(entries: map<int, Stored>, n: int, fault: bool): GetReply
  {
    if fault then GetError else if n in entries then Hit(entries[n]) else Nil
  }

  /** The value Fib may return without computing: present only on a hit
      whose text parses. */
  function CachedValue(entries: map<int, Stored>, n: int, fault: bool): Option<int>
  {
    match Read(entries, n, fault)
    case Hit(text) => ParseInt64(text)
    case _ => None
  }

  /** No entry holds a parseable value other than the one the production
      path computes for its key. */
  ghost predicate CacheConsistent(entries: map<int, Stored>)
  {
    forall k :: k in entries && ParseInt64(entries[k]).Some? ==> ParseInt64(entries[k]).value == WrappedFib(k)
  }

  /** The value Fib returns: 0 and 1 for the base cases, a cached value
      whose text parses, and otherwise the loop's value. */
  function FibAnswer(entries: map<int, Stored>, n: int, readFault: bool): int
  {
    if n == 0 then 0
    else if n == 1 then 1
    else match CachedValue(entries, n, readFault)
      case Some(v) => v
      case None => WrappedFib(n)
  }

  /** The cache after Fib: unchanged for the base cases and for a usable
      hit; otherwise the computed value is written under `n`, unless the
      SET did not take effect (`writeLost`). */
  function FibStore(entries: map<int, Stored>, n: int, readFault: bool, writeLost: bool): map<int, Stored>
  {
    if n == 0 || n == 1 || CachedValue(entries, n, readFault).Some? || writeLost then entries
    else entries[n := Decimal(WrappedFib(n))]
  }

  /** On a consistent cache Fib always answers the computed value, and the
      cache stays consistent whatever the faults. */
  lemma FibKeepsConsistent(entries: map<int, Stored>, n: int, readFault: bool, writeLost: bool)
    requires CacheConsistent(entries)
    ensures FibAnswer(entries, n, readFault) == WrappedFib(n)
    ensures CacheConsistent(FibStore(entries, n, readFault, writeLost))
  {
  }

  /** Two fault-free calls for the same index: the second returns what the
      first returned, from the cache, and writes nothing. */
  lemma FibRepeatHits(entries: map<int, Stored>, n: int)
    ensures var after := FibStore(entries, n, false, false);
      && FibAnswer(after, n, false) == FibAnswer(entries, n, false)
      && FibStore(after, n, false, false) == after
      && (n != 0 && n != 1 ==> CachedValue(after, n, false) == Some(FibAnswer(entries, n, false)))
  {
    if n != 0 && n != 1 && CachedValue(entries, n, false).None? {
      assert InInt64(WrappedFib(n));
    }
  }

  /** Fib: base cases first, then the cache; on a miss, a read error or an
      unparsable entry, the loop, whose result is written back. A failed
      write is only logged; `writeLost` says whether the SET took effect. */
  method Fib(store: RedisStore, n: int, readFault: bool, writeLost: bool) returns (r: int)
    modifies store
    ensures r == FibAnswer(old(store.entries), n, readFault)
    ensures store.entries == FibStore(old(store.entries), n, readFault, writeLost)
    ensures CacheConsistent(old(store.entries)) ==> CacheConsistent(store.entries) && r == WrappedFib(n)
  {
    if CacheConsistent(store.entries) {
      FibKeepsConsistent(store.entries, n, readFault, writeLost);
    }
    if n == 0 {
      return 0;
    }
    if n == 1 {
      return 1;
    }
    var reply := Read(store.entries, n, readFault);
    match reply {
      case Hit(text) =>
        var parsed := ParseInt64(text);
        if parsed.Some? {
          return parsed.value;
        }
      case Nil =>
      case GetError =>
    }
    ghost var overflowed;
    r, overflowed := FibLoop(n);
    if !writeLost {
      store.entries := store.entries[n := Decimal(r)];
    }
  }

  // ---------------------------------------------------------------------
  // The GetFib handler
  // ---------------------------------------------------------------------

  /** The largest index whose Fibonacci number fits an int64. */
  const MaxN: int := 92

  /** A (index, elapsed time) measurement handed to the stats reporter. */
  datatype Observation = Observation(n: int, duration: int)

  /** The handler's input check, as written: only an index above 92 is
      refused. */
  function CheckN(n: int): Option<Status>
  {
    if n > MaxN then Some(Status(InvalidArgument, "n too large (max 92)")) else None
  }

  /** GetFib: refuse an index above 92 without touching the cache;
      otherwise answer Fib(n) and hand (n, elapsed) to the stats
      reporter. `elapsed` is the measured duration of the Fib call. */
  method GetFib(store: RedisStore, n: int, readFault: bool, writeLost: bool, elapsed: int)
    returns (res: Result<int, Status>, report: Option<Observation>)
    modifies store
    ensures n > MaxN ==> res == Failure(Status(InvalidArgument, "n too large (max 92)")) &&
                         report == None && store.entries == old(store.entries)
    ensures n <= MaxN ==> res == Success(FibAnswer(old(store.entries), n, readFault)) &&
                          report == Some(Observation(n, elapsed)) &&
                          store.entries == FibStore(old(store.entries), n, readFault, writeLost)
    ensures n <= MaxN && CacheConsistent(old(store.entries)) ==>
              res.value == WrappedFib(n) && CacheConsistent(store.entries)
    ensures 0 <= n <= MaxN && CacheConsistent(old(store.entries)) ==> res == Success(FibSlow(n))
  {
    var rejected := CheckN(n);
    if rejected.Some? {
      return Failure(rejected.value), None;
    }
    var x := Fib(store, n, readFault, writeLost);
    if 0 <= n {
      WrappedFibAgrees(n);
    }
    res := Success(x);
    report := Some(Observation(n, elapsed));
  }

  /** The guard as written admits a negative index, and the production
      path then answers 1 for -2, which is no Fibonacci number of a
      non-negative index and not the negafibonacci value -1 either. */
  lemma NegativeIndexAdmitted()
    ensures CheckN(-2) == None
    ensures WrappedFib(-2) == 1
  {
  }

  /** GetFib with the missing lower bound: a negative index is refused
      like the gateway refuses it, before GetFib runs. */
  method GetFibChecked(store: RedisStore, n: int, readFault: bool, writeLost: bool, elapsed: int)
    returns (res: Result<int, Status>, report: Option<Observation>)
    modifies store
    ensures res.Success? <==> 0 <= n <= MaxN
    ensures res.Failure? ==> res.error.code == InvalidArgument && report == None &&
                             store.entries == old(store.entries)
    ensures res.Success? ==> res.value == FibAnswer(old(store.entries), n, readFault) &&
                             report == Some(Observation(n, elapsed)) &&
                             store.entries == FibStore(old(store.entries), n, readFault, writeLost)
    ensures res.Success? && CacheConsistent(old(store.entries)) ==>
              res.value == FibSlow(n) && CacheConsistent(store.entries)
  {
    if n < 0 {
      return Failure(Status(InvalidArgument, "n must be non-negative")), None;
    }
    res, report := GetFib(store, n, readFault, writeLost, elapsed);
  }
}
