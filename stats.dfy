/** The stats service: an aggregator of (n, duration) observations, with a
    per-n request count, a per-n total duration and a global request
    counter, and a snapshot sorted by n. Each call is modelled as atomic,
    which is what the service's mutex provides. */
module StatsService {

  // ---------------------------------------------------------------------
  // The accumulated state as a value, and what one record does to it
  // ---------------------------------------------------------------------

  /** The three fields of the aggregator. */
  datatype StatsState = StatsState(requestCount: map<int, int>, totalRequests: int, totalTime: map<int, int>)

  /** The empty state the service starts with. */
  const Initial: StatsState := StatsState(map[], 0, map[])

  /** Reading a Go map: the zero value for a missing key. */
  function Get(m: map<int, int>, k: int): int
  {
    if k in m then m[k] else 0
  }

  /** One observation of index `n` taking `dur` nanoseconds: its count
      goes up by one, its total time by `dur`, the global counter by one,
      and no other index changes. */
  function Record(s: StatsState, n: int, dur: int): (r: StatsState)
    ensures r.requestCount.Keys == s.requestCount.Keys + {n}
    ensures r.totalTime.Keys == s.totalTime.Keys + {n}
    ensures Get(r.requestCount, n) == Get(s.requestCount, n) + 1
    ensures Get(r.totalTime, n) == Get(s.totalTime, n) + dur
    ensures forall k :: k != n ==> Get(r.requestCount, k) == Get(s.requestCount, k)
    ensures forall k :: k != n ==> Get(r.totalTime, k) == Get(s.totalTime, k)
    ensures r.totalRequests == s.totalRequests + 1
  {
    StatsState(s.requestCount[n := Get(s.requestCount, n) + 1],
               s.totalRequests + 1,
               s.totalTime[n := Get(s.totalTime, n) + dur])
  }

  /** Several observations of the same index, in order. */
  function RecordAll(s: StatsState, n: int, durs: seq<int>): StatsState
    decreases |durs|
  {
    if durs == [] then s else RecordAll(Record(s, n, durs[0]), n, durs[1..])
  }

  function SumSeq(xs: seq<int>): int
    decreases |xs|
  {
    if xs == [] then 0 else xs[0] + SumSeq(xs[1..])
  }

  // ---------------------------------------------------------------------
  // The aggregator's invariant
  // ---------------------------------------------------------------------

  /** A non-empty set has a member. */
  lemma NonEmptyHasMember(s: set<int>)
    requires s != {}
    ensures exists x :: x in s
  {
    if forall x :: x !in s {
      assert false;
    }
  }

  /** The sum of the values of a map. */
  ghost function SumValues(m: map<int, int>): int
    decreases |m|
  {
    if m.Keys == {} then 0
    else
      NonEmptyHasMember(m.Keys);
      var k :| k in m.Keys;
      m[k] + SumValues(m - {k})
  }

  /** The sum does not depend on which key is taken out first. */
  lemma {:induction false} SumValuesRemove(m: map<int, int>, k: int)
    requires k in m
    ensures SumValues(m) == m[k] + SumValues(m - {k})
    decreases |m|
  {
    var j :| j in m && SumValues(m) == m[j] + SumValues(m - {j});
    if j != k {
      var mj, mk := m - {j}, m - {k};
      assert k in mj && j in mk;
      SumValuesRemove(mj, k);
      SumValuesRemove(mk, j);
      assert mj - {k} == mk - {j};
    }
  }

  /** Overwriting one entry changes the sum by the difference. */
  lemma SumValuesUpdate(m: map<int, int>, n: int, v: int)
    ensures SumValues(m[n := v]) == SumValues(m) - Get(m, n) + v
  {
    var m' := m[n := v];
    SumValuesRemove(m', n);
    assert m' - {n} == m - {n};
    if n in m {
      SumValuesRemove(m, n);
    } else {
      assert m - {n} == m;
    }
  }

  /** The aggregator's invariant: both maps have the same keys, every
      count is at least one, and the global counter is the sum of the
      counts. */
  ghost predicate Consistent(s: StatsState)
  {
    && s.requestCount.Keys == s.totalTime.Keys
    && (forall k :: k in s.requestCount ==> s.requestCount[k] >= 1)
    && s.totalRequests == SumValues(s.requestCount)
  }

  /** The empty state is consistent. */
  lemma InitialConsistent()
    ensures Consistent(Initial)
  {
  }

  /** Recording keeps the invariant. */
  lemma RecordKeepsConsistent(s: StatsState, n: int, dur: int)
    requires Consistent(s)
    ensures Consistent(Record(s, n, dur))
  {
    SumValuesUpdate(s.requestCount, n, Get(s.requestCount, n) + 1);
  }

  /** k observations of `n` add k to its count and their durations to its
      total, and leave every other index alone. */
  lemma {:induction false} RecordAllAccumulates(s: StatsState, n: int, durs: seq<int>)
    ensures var r := RecordAll(s, n, durs);
      && Get(r.requestCount, n) == Get(s.requestCount, n) + |durs|
      && Get(r.totalTime, n) == Get(s.totalTime, n) + SumSeq(durs)
      && r.totalRequests == s.totalRequests + |durs|
      && (forall k :: k != n ==> Get(r.requestCount, k) == Get(s.requestCount, k) && Get(r.totalTime, k) == Get(s.totalTime, k))
    decreases |durs|
  {
    if durs != [] {
      RecordAllAccumulates(Record(s, n, durs[0]), n, durs[1..]);
    }
  }

  /** From an index never seen before: the count is the number of
      observations and the total is the sum of their durations. */
  lemma RecordAllFresh(s: StatsState, n: int, durs: seq<int>)
    requires n !in s.requestCount && n !in s.totalTime
    ensures Get(RecordAll(s, n, durs).requestCount, n) == |durs|
    ensures Get(RecordAll(s, n, durs).totalTime, n) == SumSeq(durs)
  {
    RecordAllAccumulates(s, n, durs);
  }

  // ---------------------------------------------------------------------
  // Snapshot entries
  // ---------------------------------------------------------------------

  const NanosPerMilli: int := 1_000_000

  /** Go's Duration.Milliseconds: nanoseconds divided by 10^6, truncated
      toward zero. */
  function Milliseconds(d: int): (ms: int)
    ensures 0 <= d ==> 0 <= ms * NanosPerMilli <= d < (ms + 1) * NanosPerMilli
    ensures d < 0 ==> (ms - 1) * NanosPerMilli < d <= ms * NanosPerMilli <= 0
  {
    if d >= 0 then d / NanosPerMilli else -((-d) / NanosPerMilli)
  }

  /** One per-index entry of the snapshot: the index, its request count
      (the divisor of the average) and the whole milliseconds of its total
      time (the numerator). */
  datatype FibonacciStat = FibonacciStat(n: int, requestCount: int, totalTimeMs: int)

  datatype StatsResponse = StatsResponse(totalRequests: int, stats: seq<FibonacciStat>)

  // ---------------------------------------------------------------------
  // Sorting the keys
  // ---------------------------------------------------------------------

  predicate Ascending(xs: seq<int>)
  {
    forall i, j :: 0 <= i < j < |xs| ==> xs[i] <= xs[j]
  }

  predicate NoDuplicates(xs: seq<int>)
  {
    forall i, j :: 0 <= i < j < |xs| ==> xs[i] != xs[j]
  }

  /** A sequence without duplicates holds each value at most once. */
  lemma {:induction false} NoDuplicatesCounts(xs: seq<int>, v: int)
    requires NoDuplicates(xs)
    ensures multiset(xs)[v] <= 1
    decreases |xs|
  {
    if xs != [] {
      var init := xs[..|xs| - 1];
      assert xs == init + [xs[|xs| - 1]];
      NoDuplicatesCounts(init, v);
      if xs[|xs| - 1] == v {
        assert v !in init;
      }
    }
  }

  /** Rearranging a sequence without duplicates gives one without
      duplicates. */
  lemma NoDuplicatesPermutation(xs: seq<int>, ys: seq<int>)
    requires NoDuplicates(xs)
    requires multiset(ys) == multiset(xs)
    ensures NoDuplicates(ys)
  {
    forall i, j | 0 <= i < j < |ys|
      ensures ys[i] != ys[j]
    {
      if ys[i] == ys[j] {
        var v := ys[i];
        assert ys == ys[..i] + [v] + ys[i + 1..j] + [v] + ys[j + 1..];
        assert multiset(ys)[v] >= 2;
        NoDuplicatesCounts(xs, v);
        assert false;
      }
    }
  }

  /** One insertion step: `x` goes in front of the first element not
      below it. */
  method InsertSorted(ys: seq<int>, x: int) returns (zs: seq<int>)
    requires Ascending(ys)
    ensures Ascending(zs)
    ensures multiset(zs) == multiset(ys) + multiset{x}
  {
    var p := 0;
    while p < |ys| && ys[p] < x
      invariant 0 <= p <= |ys|
      invariant forall q :: 0 <= q < p ==> ys[q] < x
    {
      p := p + 1;
    }
    assert ys == ys[..p] + ys[p..];
    zs := ys[..p] + [x] + ys[p..];
  }

  /** sort.Ints, as an insertion sort: the result is ascending and a
      rearrangement of the input. */
  method SortInts(xs: seq<int>) returns (ys: seq<int>)
    ensures Ascending(ys)
    ensures multiset(ys) == multiset(xs)
  {
    ys := [];
    for i := 0 to |xs|
      invariant Ascending(ys)
      invariant multiset(ys) == multiset(xs[..i])
    {
      ys := InsertSorted(ys, xs[i]);
      assert xs[..i + 1] == xs[..i] + [xs[i]];
    }
    assert xs[..|xs|] == xs;
  }

  /** Every key of the map, each once, in whatever order the map yields
      them. */
  method CollectKeys(m: map<int, int>) returns (keys: seq<int>)
    ensures NoDuplicates(keys)
    ensures forall k :: k in keys <==> k in m
    ensures |keys| == |m|
  {
    keys := [];
    var rest := m.Keys;
    while rest != {}
      invariant rest <= m.Keys
      invariant forall k :: k in keys <==> k in m && k !in rest
      invariant NoDuplicates(keys)
      invariant |keys| + |rest| == |m|
      decreases |rest|
    {
      NonEmptyHasMember(rest);
      var k :| k in rest;
      keys := keys + [k];
      rest := rest - {k};
    }
  }

  /** Sorting keys that are all different orders them strictly. */
  lemma SortedDistinctKeys(keys: seq<int>, sorted: seq<int>)
    requires NoDuplicates(keys)
    requires Ascending(sorted) && multiset(sorted) == multiset(keys)
    ensures forall i, j :: 0 <= i < j < |sorted| ==> sorted[i] < sorted[j]
    ensures forall k :: k in sorted <==> k in keys
  {
    NoDuplicatesPermutation(keys, sorted);
    assert forall k :: k in sorted <==> k in multiset(sorted);
    assert forall k :: k in keys <==> k in multiset(keys);
  }

  // ---------------------------------------------------------------------
  // The aggregator
  // ---------------------------------------------------------------------

  /** The aggregator's fields. */
  class Stats {
    var requestCount: map<int, int>
    var totalRequests: int
    var totalTime: map<int, int>

    function State(): StatsState
      reads this
    {
      StatsState(requestCount, totalRequests, totalTime)
    }

    ghost predicate Valid()
      reads this
    {
      Consistent(State())
    }

    /** The service starts from empty maps and a zero counter. */
    constructor ()
      ensures State() == Initial
      ensures Valid()
    {
      requestCount, totalRequests, totalTime := map[], 0, map[];
      InitialConsistent();
    }

    /** RecordNo: one observation; always reports success. */
    method RecordNo(n: int, dur: int) returns (success: bool)
      modifies this
      ensures State() == Record(old(State()), n, dur)
      ensures old(Valid()) ==> Valid()
      ensures success
    {
      requestCount := requestCount[n := Get(requestCount, n) + 1];
      totalRequests := totalRequests + 1;
      totalTime := totalTime[n := Get(totalTime, n) + dur];
      if old(Valid()) {
        RecordKeepsConsistent(old(State()), n, dur);
      }
      success := true;
    }

    /** GetStats: the keys of the count map, sorted, each with its count
        and total time; the global counter alongside. Changes nothing. */
    method GetStats() returns (resp: StatsResponse)
      ensures resp.totalRequests == totalRequests
      ensures forall i, j :: 0 <= i < j < |resp.stats| ==> resp.stats[i].n < resp.stats[j].n
      ensures forall i :: 0 <= i < |resp.stats| ==>
                resp.stats[i].n in requestCount &&
                resp.stats[i].requestCount == requestCount[resp.stats[i].n] &&
                resp.stats[i].totalTimeMs == Milliseconds(Get(totalTime, resp.stats[i].n))
      ensures forall k :: k in requestCount ==> exists i :: 0 <= i < |resp.stats| && resp.stats[i].n == k
      ensures |resp.stats| == |requestCount|
      ensures Valid() ==> forall i :: 0 <= i < |resp.stats| ==> resp.stats[i].requestCount >= 1
    {
      var keys := CollectKeys(requestCount);
      var sorted := SortInts(keys);
      SortedDistinctKeys(keys, sorted);
      assert |sorted| == |multiset(sorted)| == |multiset(keys)| == |keys|;

      // Build the response in key order.
      var res: seq<FibonacciStat> := [];
      for idx := 0 to |sorted|
        invariant |res| == idx
        invariant forall i :: 0 <= i < idx ==>
                    res[i] == FibonacciStat(sorted[i], Get(requestCount, sorted[i]), Milliseconds(Get(totalTime, sorted[i])))
      {
        var n := sorted[idx];
        var count := Get(requestCount, n);
        res := res + [FibonacciStat(n, count, Milliseconds(Get(totalTime, n)))];
      }

      forall k | k in requestCount
        ensures exists i :: 0 <= i < |res| && res[i].n == k
      {
        var i :| 0 <= i < |sorted| && sorted[i] == k;
        assert res[i].n == k;
      }
      resp := StatsResponse(totalRequests, res);
    }
  }

  /** The snapshot of a freshly started service: no requests, no entries. */
  method InitialSnapshot() returns (resp: StatsResponse)
    ensures resp == StatsResponse(0, [])
  {
    var stats := new Stats();
    resp := stats.GetStats();
  }
}
