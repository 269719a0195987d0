/** src/telemetry/log2_histogram.h: latencies counted by power-of-two magnitude.

    The class keeps the source's array of counters; the functions below describe
    the array by the list of recorded values, and the lemmas compare the answers
    with that list. Quantiles are exact reals and counters do not overflow. */
module Histogram {
  import opened Types

  function Pow2(n: nat): (r: nat)
    ensures r >= 1
  {
    if n == 0 then 1 else 2 * Pow2(n - 1)
  }

  /** Position of the highest set bit: 63 - clz of a non-zero word. */
  function HighestBit(v: nat): nat
    requires v > 0
  {
    if v == 1 then 0 else 1 + HighestBit(v / 2)
  }

  /** The bucket of a value when there are `n` buckets; setting the lowest bit first
      sends zero to bucket zero, and what is too large goes to the last bucket. */
  function BucketOf(n: nat, v: nat): nat
    requires n >= 1
  {
    var raw := HighestBit(if v % 2 == 0 then v + 1 else v);
    if raw <= n - 1 then raw else n - 1
  }

  function BucketLowerBound(index: nat): nat {
    if index == 0 then 0 else Pow2(index)
  }

  function BucketUpperBound(index: nat): nat {
    if index >= 63 then U64_MAX else Pow2(index + 1) - 1
  }

  lemma {:induction false} Pow2Monotone(m: nat, n: nat)
    requires m <= n
    ensures Pow2(m) <= Pow2(n)
    decreases n
  {
    if m < n {
      Pow2Monotone(m, n - 1);
    }
  }

  lemma {:induction false} HighestBitBounds(v: nat)
    requires v > 0
    ensures Pow2(HighestBit(v)) <= v < 2 * Pow2(HighestBit(v))
  {
    if v > 1 {
      HighestBitBounds(v / 2);
    }
  }

  lemma {:induction false} HighestBitMonotone(v: nat, w: nat)
    requires 0 < v <= w
    ensures HighestBit(v) <= HighestBit(w)
  {
    if v > 1 {
      HighestBitMonotone(v / 2, w / 2);
    }
  }

  lemma BucketMonotone(n: nat, v: nat, w: nat)
    requires n >= 1 && v <= w
    ensures BucketOf(n, v) <= BucketOf(n, w)
  {
    HighestBitMonotone(if v % 2 == 0 then v + 1 else v, if w % 2 == 0 then w + 1 else w);
  }

  lemma Pow2Of64()
    ensures Pow2(64) == U64_MAX + 1
  {
    assert Pow2(8) == 256;
    assert Pow2(16) == 65536;
    assert Pow2(24) == 0x100_0000;
    assert Pow2(32) == 0x1_0000_0000;
    assert Pow2(40) == 0x100_0000_0000;
    assert Pow2(48) == 0x1_0000_0000_0000;
    assert Pow2(56) == 0x100_0000_0000_0000;
  }

  /** A bucket brackets its values within a factor of two. What does not fit below
      2^n lands in the last of n buckets, whose upper bound it exceeds. */
  lemma BucketBrackets(n: nat, v: nat)
    requires 1 <= n <= 64 && v <= U64_MAX
    ensures BucketLowerBound(BucketOf(n, v)) <= v
    ensures v <= BucketUpperBound(BucketOf(n, v)) <==> v < Pow2(n)
    ensures v < Pow2(n) ==> BucketUpperBound(BucketOf(n, v)) <= (if v == 0 then 1 else 2 * v - 1)
    ensures BucketUpperBound(BucketOf(n, v)) < Pow2(n)
  {
    var odd := if v % 2 == 0 then v + 1 else v;
    UpperBoundFits(n, BucketOf(n, v));
    if HighestBit(odd) <= n - 1 {
      FitsItsBucket(n, v, odd);
    } else {
      OverflowsItsBucket(n, v, odd);
    }
  }

  lemma UpperBoundFits(n: nat, index: nat)
    requires index < n <= 64
    ensures BucketUpperBound(index) < Pow2(n)
  {
    Pow2Of64();
    Pow2Monotone(index + 1, n);
  }

  /** What is too large for n buckets is counted in the last one. */
  lemma OverflowsItsBucket(n: nat, v: nat, odd: nat)
    requires 1 <= n && odd == (if v % 2 == 0 then v + 1 else v) && HighestBit(odd) >= n
    ensures BucketLowerBound(BucketOf(n, v)) <= v && Pow2(n) <= v
  {
    HighestBitBounds(odd);
    Pow2Monotone(n, HighestBit(odd));
    EvenAbovePow2(n, HighestBit(odd), v, odd);
    Pow2Monotone(n - 1, n);
  }

  /** v and v | 1 share the highest bit, except that zero becomes one. */
  lemma FitsItsBucket(n: nat, v: nat, odd: nat)
    requires 1 <= n <= 64 && v <= U64_MAX && odd == (if v % 2 == 0 then v + 1 else v)
    requires HighestBit(odd) <= n - 1
    ensures BucketLowerBound(BucketOf(n, v)) <= v <= BucketUpperBound(BucketOf(n, v)) && v < Pow2(n)
    ensures BucketUpperBound(BucketOf(n, v)) <= (if v == 0 then 1 else 2 * v - 1)
  {
    var raw := HighestBit(odd);
    assert BucketOf(n, v) == raw;
    HighestBitBounds(odd);
    Pow2Of64();
    Pow2Monotone(raw + 1, n);
    assert Pow2(raw + 1) == 2 * Pow2(raw);
    if v > 0 {
      EvenBelowPow2(raw, v, odd);
    }
  }

  lemma EvenBelowPow2(raw: nat, v: nat, odd: nat)
    requires v > 0 && odd == (if v % 2 == 0 then v + 1 else v)
    requires Pow2(raw) <= odd < 2 * Pow2(raw)
    ensures Pow2(raw) <= v
  {
    if raw > 0 {
      assert Pow2(raw) == 2 * Pow2(raw - 1);
    }
  }

  lemma EvenAbovePow2(n: nat, raw: nat, v: nat, odd: nat)
    requires 1 <= n <= raw && odd == (if v % 2 == 0 then v + 1 else v)
    requires Pow2(n) <= Pow2(raw) <= odd
    ensures Pow2(n) <= v
  {
    assert Pow2(n) == 2 * Pow2(n - 1);
  }

  // ---------------------------------------------------------------------------
  // Counter arrays as sequences

  function Cum(h: seq<nat>, k: nat): nat
    requires k <= |h|
  {
    if k == 0 then 0 else Cum(h, k - 1) + h[k - 1]
  }

  function Total(h: seq<nat>): nat {
    Cum(h, |h|)
  }

  function Ceil(x: real): int {
    -((-x).Floor)
  }

  function Clamp(p: real): real {
    if p < 0.0 then 0.0 else if p > 1.0 then 1.0 else p
  }

  /** The rank Percentile looks for among `total` values. */
  function Target(p: real, total: nat): (t: nat)
    requires total > 0
    ensures 1 <= t <= total
  {
    var raw := Ceil(Clamp(p) * total as real);
    var atLeastOne := if raw < 1 then 1 else raw;
    if atLeastOne > total then total else atLeastOne
  }

  /** The first bucket at which the running count reaches `target`. */
  function FirstReach(h: seq<nat>, target: nat, from: nat): (i: nat)
    requires from < |h| && Cum(h, from) < target <= Total(h)
    ensures from <= i < |h| && Cum(h, i) < target <= Cum(h, i + 1)
    decreases |h| - from
  {
    if Cum(h, from + 1) >= target then from else FirstReach(h, target, from + 1)
  }

  function PercentileIndex(h: seq<nat>, p: real): (i: nat)
    requires Total(h) > 0
    ensures i < |h|
    ensures Cum(h, i) < Target(p, Total(h)) <= Cum(h, i + 1)
  {
    FirstReach(h, Target(p, Total(h)), 0)
  }

  function PercentileOf(h: seq<nat>, p: real): nat {
    if Total(h) == 0 then 0 else BucketUpperBound(PercentileIndex(h, p))
  }

  lemma {:induction false} CumMonotone(h: seq<nat>, j: nat, k: nat)
    requires j <= k <= |h|
    ensures Cum(h, j) <= Cum(h, k)
    decreases k
  {
    if j < k {
      CumMonotone(h, j, k - 1);
    }
  }

  lemma ReachUnique(h: seq<nat>, target: nat, i: nat, j: nat)
    requires i < |h| && j < |h|
    requires Cum(h, i) < target <= Cum(h, i + 1) && Cum(h, j) < target <= Cum(h, j + 1)
    ensures i == j
  {
    if i < j {
      CumMonotone(h, i + 1, j);
    } else if j < i {
      CumMonotone(h, j + 1, i);
    }
  }

  // ---------------------------------------------------------------------------
  // The histogram of a list of values

  /** How many of the values fall below bucket `k`. */
  function Below(n: nat, values: seq<nat>, k: nat): nat
    requires n >= 1
  {
    if values == [] then 0
    else Below(n, values[..|values| - 1], k) + if BucketOf(n, values[|values| - 1]) < k then 1 else 0
  }

  function CountIn(n: nat, values: seq<nat>, i: nat): nat
    requires n >= 1
  {
    if values == [] then 0
    else CountIn(n, values[..|values| - 1], i) + if BucketOf(n, values[|values| - 1]) == i then 1 else 0
  }

  function HistOf(n: nat, values: seq<nat>): (h: seq<nat>)
    requires n >= 1
    ensures |h| == n && forall i :: 0 <= i < n ==> h[i] == CountIn(n, values, i)
  {
    seq(n, i requires 0 <= i < n => CountIn(n, values, i))
  }

  lemma {:induction false} BelowStep(n: nat, values: seq<nat>, k: nat)
    requires n >= 1
    ensures Below(n, values, k + 1) == Below(n, values, k) + CountIn(n, values, k)
    ensures Below(n, values, 0) == 0
    ensures k >= n ==> Below(n, values, k) == |values|
  {
    if values != [] {
      BelowStep(n, values[..|values| - 1], k);
    }
  }

  /** The running count of the array counts the values below a bucket; the total counts all. */
  lemma {:induction false} CumCountsValues(n: nat, values: seq<nat>, k: nat)
    requires 1 <= n && k <= n
    ensures Cum(HistOf(n, values), k) == Below(n, values, k)
    ensures k == n ==> Total(HistOf(n, values)) == |values|
    decreases k
  {
    BelowStep(n, values, k);
    if k > 0 {
      CumCountsValues(n, values, k - 1);
      BelowStep(n, values, k - 1);
    }
  }

  lemma {:induction false} BelowAppend(n: nat, a: seq<nat>, b: seq<nat>, k: nat)
    requires n >= 1
    ensures Below(n, a + b, k) == Below(n, a, k) + Below(n, b, k)
    decreases |b|
  {
    if b == [] {
      assert a + b == a;
    } else {
      BelowAppend(n, a, b[..|b| - 1], k);
      assert (a + b)[..|a + b| - 1] == a + b[..|b| - 1];
    }
  }

  lemma {:induction false} BelowBounds(n: nat, values: seq<nat>, k: nat)
    requires n >= 1
    ensures Below(n, values, k) <= |values|
    ensures (forall v :: v in values ==> BucketOf(n, v) < k) ==> Below(n, values, k) == |values|
    ensures (forall v :: v in values ==> BucketOf(n, v) >= k) ==> Below(n, values, k) == 0
  {
    if values != [] {
      BelowBounds(n, values[..|values| - 1], k);
      assert values[|values| - 1] in values;
    }
  }

  lemma {:induction false} BelowOfPermutation(n: nat, a: seq<nat>, b: seq<nat>, k: nat)
    requires n >= 1 && multiset(a) == multiset(b)
    ensures Below(n, a, k) == Below(n, b, k)
    decreases |a|
  {
    if a == [] {
      assert |b| == |multiset(b)| == |multiset(a)| == 0;
    } else {
      var x := a[|a| - 1];
      var front := a[..|a| - 1];
      var j := TakenOut(a, b);
      BelowOfPermutation(n, front, b[..j] + b[j + 1..], k);
      BelowAppend(n, b[..j], [x] + b[j + 1..], k);
      BelowAppend(n, [x], b[j + 1..], k);
      BelowAppend(n, b[..j], b[j + 1..], k);
      BelowAppend(n, front, [x], k);
    }
  }

  /** Where b has the last element of its permutation a; without it both remain permutations. */
  lemma TakenOut(a: seq<nat>, b: seq<nat>) returns (j: nat)
    requires a != [] && multiset(a) == multiset(b)
    ensures j < |b| && b == b[..j] + ([a[|a| - 1]] + b[j + 1..]) && a == a[..|a| - 1] + [a[|a| - 1]]
    ensures multiset(a[..|a| - 1]) == multiset(b[..j] + b[j + 1..])
  {
    var x := a[|a| - 1];
    var front := a[..|a| - 1];
    assert a == front + [x];
    assert x in multiset(b);
    j :| 0 <= j < |b| && b[j] == x;
    assert b == b[..j] + ([x] + b[j + 1..]);
    assert multiset(a) == multiset(front) + multiset{x};
    assert multiset(b) == multiset(b[..j] + b[j + 1..]) + multiset{x};
    assert multiset(front) == multiset(a) - multiset{x} == multiset(b) - multiset{x};
  }

  ghost predicate SortedOf(sorted: seq<nat>, values: seq<nat>) {
    && multiset(sorted) == multiset(values)
    && forall i, j :: 0 <= i < j < |sorted| ==> sorted[i] <= sorted[j]
  }

  /** If the first `m` values lie below bucket `k` and the others do not, then exactly `m` lie below it. */
  lemma BelowSplit(n: nat, s: seq<nat>, m: nat, k: nat)
    requires n >= 1 && m <= |s|
    ensures (forall i :: 0 <= i < m ==> BucketOf(n, s[i]) < k) ==> Below(n, s, k) >= m
    ensures (forall i :: m <= i < |s| ==> BucketOf(n, s[i]) >= k) ==> Below(n, s, k) <= m
  {
    assert s == s[..m] + s[m..];
    BelowAppend(n, s[..m], s[m..], k);
    BelowBounds(n, s[..m], k);
    BelowBounds(n, s[m..], k);
  }

  lemma SortedBelow(n: nat, s: seq<nat>, rank: nat)
    requires n >= 1 && 1 <= rank <= |s|
    requires forall i, j :: 0 <= i < j < |s| ==> s[i] <= s[j]
    ensures Below(n, s, BucketOf(n, s[rank - 1])) < rank <= Below(n, s, BucketOf(n, s[rank - 1]) + 1)
  {
    forall i | 0 <= i < rank ensures BucketOf(n, s[i]) <= BucketOf(n, s[rank - 1]) {
      BucketMonotone(n, s[i], s[rank - 1]);
    }
    forall i | rank - 1 <= i < |s| ensures BucketOf(n, s[i]) >= BucketOf(n, s[rank - 1]) {
      BucketMonotone(n, s[rank - 1], s[i]);
    }
    BelowSplit(n, s, rank, BucketOf(n, s[rank - 1]) + 1);
    BelowSplit(n, s, rank - 1, BucketOf(n, s[rank - 1]));
  }

  /** Percentile finds the bucket of the order statistic: for every list of values and
      its sorted form, the bucket reached is that of the element of rank
      max(1, ceil(p * n)). */
  lemma PercentileFindsOrderStatistic(n: nat, values: seq<nat>, sorted: seq<nat>, p: real)
    requires 1 <= n <= 64 && values != [] && SortedOf(sorted, values)
    ensures |sorted| == |values| && Total(HistOf(n, values)) == |values|
    ensures PercentileIndex(HistOf(n, values), p) == BucketOf(n, sorted[Target(p, |values|) - 1])
  {
    SortedSize(values, sorted);
    CumCountsValues(n, values, n);
    var rank := Target(p, |values|);
    var b := BucketOf(n, sorted[rank - 1]);
    assert b < n;
    SortedBelow(n, sorted, rank);
    hide BucketOf, Below, CountIn, Target, HistOf, SortedOf;
    CumIsBelowSorted(n, values, sorted, b);
    CumIsBelowSorted(n, values, sorted, b + 1);
    ReachUnique(HistOf(n, values), rank, PercentileIndex(HistOf(n, values), p), b);
  }

  lemma SortedSize(values: seq<nat>, sorted: seq<nat>)
    requires SortedOf(sorted, values)
    ensures |sorted| == |values|
  {
    assert |sorted| == |multiset(sorted)| == |multiset(values)| == |values|;
  }

  lemma CumIsBelowSorted(n: nat, values: seq<nat>, sorted: seq<nat>, k: nat)
    requires n >= 1 && k <= n && SortedOf(sorted, values)
    ensures Cum(HistOf(n, values), k) == Below(n, sorted, k)
  {
    CumCountsValues(n, values, k);
    BelowOfPermutation(n, sorted, values, k);
  }

  /** Percentile is never below the exact order statistic q and overshoots it by less
      than a factor of two -- provided q fits below 2^n; otherwise it reports the
      largest value the buckets can hold, which is too small. With 64 buckets every
      64-bit value fits. */
  lemma PercentileBracketsOrderStatistic(n: nat, values: seq<nat>, sorted: seq<nat>, p: real)
    requires 1 <= n <= 64 && values != [] && SortedOf(sorted, values)
    requires forall v :: v in values ==> v <= U64_MAX
    ensures |sorted| == |values|
    ensures var q := sorted[Target(p, |values|) - 1];
      var r := PercentileOf(HistOf(n, values), p);
      && (q <= r <==> q < Pow2(n))
      && (q < Pow2(n) ==> r <= (if q == 0 then 1 else 2 * q - 1))
    ensures n == 64 ==> sorted[Target(p, |values|) - 1] < Pow2(n)
  {
    PercentileFindsOrderStatistic(n, values, sorted, p);
    var q := sorted[Target(p, |values|) - 1];
    assert q in multiset(sorted);
    assert q in values;
    BucketBrackets(n, q);
    Pow2Of64();
  }

  // ---------------------------------------------------------------------------
  // Order of the reported values

  lemma TargetMonotone(p: real, q: real, total: nat)
    requires p <= q && total > 0
    ensures Target(p, total) <= Target(q, total)
  {
    var t := total as real;
    RealProduct(Clamp(q) - Clamp(p), t);
    assert Clamp(q) * t - Clamp(p) * t == (Clamp(q) - Clamp(p)) * t;
  }

  lemma RealProduct(x: real, y: real)
    requires x >= 0.0 && y >= 0.0
    ensures x * y >= 0.0
    ensures x > 0.0 && y > 0.0 ==> x * y > 0.0
  {
  }

  lemma UpperBoundMonotone(i: nat, j: nat)
    requires i <= j
    ensures BucketUpperBound(i) <= BucketUpperBound(j)
    ensures i <= 63 ==> BucketLowerBound(i) <= BucketUpperBound(i)
  {
    Pow2Of64();
    assert Pow2(i + 1) == 2 * Pow2(i);
    if j < 63 {
      Pow2Monotone(i + 1, j + 1);
    } else if i < 63 {
      Pow2Monotone(i + 1, 64);
    } else {
      assert Pow2(63) * 2 == Pow2(64);
    }
  }

  lemma PercentileMonotone(h: seq<nat>, p: real, q: real)
    requires p <= q
    ensures PercentileOf(h, p) <= PercentileOf(h, q)
  {
    if Total(h) > 0 {
      TargetMonotone(p, q, Total(h));
      var i, j := PercentileIndex(h, p), PercentileIndex(h, q);
      if j < i {
        CumMonotone(h, j + 1, i);
      }
      UpperBoundMonotone(i, j);
    }
  }

  /** First non-empty bucket at or after `from`, or |h|. */
  function FirstUsed(h: seq<nat>, from: nat): (i: nat)
    requires from <= |h|
    ensures from <= i <= |h| && (i < |h| ==> h[i] != 0)
    ensures forall k :: from <= k < i ==> h[k] == 0
    decreases |h| - from
  {
    if from == |h| || h[from] != 0 then from else FirstUsed(h, from + 1)
  }

  /** One past the last non-empty bucket before `to`, or zero. */
  function LastUsed(h: seq<nat>, to: nat): (i: nat)
    requires to <= |h|
    ensures i <= to && (i > 0 ==> h[i - 1] != 0)
    ensures forall k :: i <= k < to ==> h[k] == 0
  {
    if to == 0 || h[to - 1] != 0 then to else LastUsed(h, to - 1)
  }

  function MinOf(h: seq<nat>): nat {
    var i := FirstUsed(h, 0);
    if i < |h| then BucketLowerBound(i) else 0
  }

  function MaxOf(h: seq<nat>): nat {
    var i := LastUsed(h, |h|);
    if i > 0 then BucketUpperBound(i - 1) else 0
  }

  /** lat_min <= p50 <= p95 <= p99 <= lat_max, for any quantiles. */
  lemma PercentileBetweenMinAndMax(h: seq<nat>, p: real)
    requires |h| <= 64
    ensures MinOf(h) <= PercentileOf(h, p) <= MaxOf(h)
  {
    if Total(h) > 0 {
      var i := PercentileIndex(h, p);
      assert h[i] > 0;
      UpperBoundMonotone(FirstUsed(h, 0), i);
      UpperBoundMonotone(i, LastUsed(h, |h|) - 1);
    } else if FirstUsed(h, 0) < |h| {
      CumMonotone(h, FirstUsed(h, 0) + 1, |h|);
    }
  }

  /** MinValue and MaxValue bracket the smallest and the largest recorded value. */
  lemma MinMaxBracketValues(values: seq<nat>, v: nat)
    requires v in values && forall w :: w in values ==> w <= U64_MAX
    ensures MinOf(HistOf(64, values)) <= v <= MaxOf(HistOf(64, values))
  {
    var h := HistOf(64, values);
    var b := BucketOf(64, v);
    CountOfMember(64, values, v);
    BucketBrackets(64, v);
    Pow2Of64();
    assert h[b] > 0;
    var first, last := FirstUsed(h, 0), LastUsed(h, 64);
    assert first <= b < last;
    UpperBoundMonotone(b, last - 1);
    if first > 0 {
      Pow2Monotone(first, b);
    }
  }

  lemma {:induction false} CountOfMember(n: nat, values: seq<nat>, v: nat)
    requires n >= 1 && v in values
    ensures CountIn(n, values, BucketOf(n, v)) > 0
  {
    var last := |values| - 1;
    if values[last] != v {
      assert values == values[..last] + [values[last]];
      CountOfMember(n, values[..last], v);
    }
  }

  /** The answers for a histogram without values. */
  lemma EmptyAnswers()
    ensures MinOf(HistOf(64, [])) == MaxOf(HistOf(64, [])) == 0
    ensures forall p {:trigger PercentileOf(HistOf(64, []), p)} :: PercentileOf(HistOf(64, []), p) == 0
  {
    CumCountsValues(64, [], 64);
  }

  /** `upper` is at least `lower` and less than twice as large, but for zero and one. */
  predicate AtMostDouble(lower: nat, upper: nat) {
    lower <= upper <= if lower == 0 then 1 else 2 * lower - 1
  }

  /** The rank of the p-th percentile, p in percent: max(1, ceil(p * n / 100)). */
  function CeilRank(n: nat, percent: nat): (r: nat)
    requires n > 0 && percent <= 100
    ensures 1 <= r <= n
  {
    var c := (percent * n + 99) / 100;
    if c < 1 then 1 else c
  }

  lemma RankInPercent(n: nat, percent: nat)
    requires n > 0 && percent in {50, 95, 99}
    ensures CeilRank(n, percent) == Target(if percent == 50 then 0.50 else if percent == 95 then 0.95 else 0.99, n)
  {
    var p := if percent == 50 then 0.50 else if percent == 95 then 0.95 else 0.99;
    TargetIsCeiling(p, n, CeilRank(n, percent));
    TargetIsCeiling(p, n, CeilRank(n, percent) - 1);
  }

  /** MinValue and MaxValue are within a factor of two of the smallest and the largest value. */
  lemma MinMaxAreClose(values: seq<nat>, sorted: seq<nat>)
    requires values != [] && SortedOf(sorted, values) && forall v :: v in values ==> v <= U64_MAX
    ensures |sorted| == |values|
    ensures AtMostDouble(MinOf(HistOf(64, values)), sorted[0])
    ensures AtMostDouble(sorted[|sorted| - 1], MaxOf(HistOf(64, values)))
  {
    SortedSize(values, sorted);
    var least, most := sorted[0], sorted[|sorted| - 1];
    forall v | v in values ensures least <= v <= most && v <= U64_MAX {
      assert v in multiset(sorted);
    }
    assert least in multiset(sorted) && most in multiset(sorted);
    hide HistOf, AtMostDouble, MinOf, MaxOf;
    MinIsClose(values, least);
    MaxIsClose(values, most);
  }

  lemma MinIsClose(values: seq<nat>, least: nat)
    requires least in values && forall v :: v in values ==> least <= v <= U64_MAX
    ensures AtMostDouble(MinOf(HistOf(64, values)), least)
  {
    var h := HistOf(64, values);
    CountOfMember(64, values, least);
    var i := FirstUsed(h, 0);
    var v := MemberOfBucket(64, values, i);
    BucketMonotone(64, least, v);
    assert i == BucketOf(64, least);
    hide HistOf, BucketOf;
    WithinDouble(least);
  }

  lemma MaxIsClose(values: seq<nat>, most: nat)
    requires most in values && forall v :: v in values ==> v <= most <= U64_MAX
    ensures AtMostDouble(most, MaxOf(HistOf(64, values)))
  {
    var h := HistOf(64, values);
    CountOfMember(64, values, most);
    var j := LastUsed(h, 64);
    var w := MemberOfBucket(64, values, j - 1);
    BucketMonotone(64, w, most);
    assert j - 1 == BucketOf(64, most);
    hide HistOf, BucketOf;
    WithinDouble(most);
  }

  /** The bounds of a 64-bit value's bucket are within a factor of two of it. */
  lemma WithinDouble(v: nat)
    requires v <= U64_MAX
    ensures BucketOf(64, v) < 64
    ensures AtMostDouble(BucketLowerBound(BucketOf(64, v)), v)
    ensures AtMostDouble(v, BucketUpperBound(BucketOf(64, v)))
  {
    Pow2Of64();
    BucketBrackets(64, v);
    var i := BucketOf(64, v);
    assert Pow2(i + 1) == 2 * Pow2(i);
  }

  lemma {:induction false} MemberOfBucket(n: nat, values: seq<nat>, i: nat) returns (v: nat)
    requires n >= 1 && CountIn(n, values, i) > 0
    ensures v in values && BucketOf(n, v) == i
  {
    var k := |values| - 1;
    if BucketOf(n, values[k]) == i {
      v := values[k];
    } else {
      v := MemberOfBucket(n, values[..k], i);
    }
  }

  // ---------------------------------------------------------------------------
  // Merging

  function Added(h: seq<nat>, g: seq<nat>): (r: seq<nat>)
    requires |h| == |g|
    ensures |r| == |h| && forall i :: 0 <= i < |r| ==> r[i] == h[i] + g[i]
  {
    seq(|h|, i requires 0 <= i < |h| => h[i] + g[i])
  }

  lemma {:induction false} CountAppend(n: nat, a: seq<nat>, b: seq<nat>, i: nat)
    requires n >= 1
    ensures CountIn(n, a + b, i) == CountIn(n, a, i) + CountIn(n, b, i)
    decreases |b|
  {
    if b == [] {
      assert a + b == a;
    } else {
      CountAppend(n, a, b[..|b| - 1], i);
      assert (a + b)[..|a + b| - 1] == a + b[..|b| - 1];
    }
  }

  /** Merging two histograms is the histogram of all their values. */
  lemma MergeIsUnion(n: nat, a: seq<nat>, b: seq<nat>)
    requires n >= 1
    ensures Added(HistOf(n, a), HistOf(n, b)) == HistOf(n, a + b)
  {
    forall i | 0 <= i < n
      ensures CountIn(n, a + b, i) == CountIn(n, a, i) + CountIn(n, b, i)
    {
      CountAppend(n, a, b, i);
    }
  }

  /** The global histogram of a snapshot: all parts merged into an empty one. */
  function MergeAll(n: nat, parts: seq<seq<nat>>): (h: seq<nat>)
    requires forall i :: 0 <= i < |parts| ==> |parts[i]| == n
    ensures |h| == n
  {
    if parts == [] then seq(n, _ => 0)
    else Added(MergeAll(n, parts[..|parts| - 1]), parts[|parts| - 1])
  }

  lemma EmptyMerge(n: nat)
    requires n >= 1
    ensures HistOf(n, []) == MergeAll(n, [])
  {
  }

  lemma {:induction false} CumAdded(h: seq<nat>, g: seq<nat>, k: nat)
    requires |h| == |g| && k <= |h|
    ensures Cum(Added(h, g), k) == Cum(h, k) + Cum(g, k)
  {
    if k > 0 {
      CumAdded(h, g, k - 1);
    }
  }

  lemma {:induction false} CumZeros(n: nat, k: nat)
    requires k <= n
    ensures Cum(seq(n, _ => 0), k) == 0
  {
    if k > 0 {
      CumZeros(n, k - 1);
    }
  }

  predicate Reaches(p: real, total: nat, c: nat)
    requires total > 0
  {
    c >= Target(p, total)
  }

  /** `share` is multiplication by the quantile, seen through the three facts the
      merge needs: it is additive, never negative, and a count reaches the target
      exactly when it is positive and no less than its share. */
  ghost predicate Shares(p: real, share: nat -> real) {
    && share(0) == 0.0
    && (forall t: nat :: share(t) >= 0.0)
    && (forall s: nat, t: nat :: share(s + t) == share(s) + share(t))
    && (forall t: nat, c: nat {:trigger Reaches(p, t, c)} ::
          t > 0 ==> (Reaches(p, t, c) <==> c >= 1 && c as real >= share(t)))
  }

  lemma TargetIsCeiling(p: real, total: nat, c: nat)
    requires total > 0
    ensures Clamp(p) * total as real >= 0.0
    ensures Reaches(p, total, c) <==> c >= 1 && c as real >= Clamp(p) * total as real
  {
    var t := total as real;
    var x := Clamp(p) * t;
    RealProduct(Clamp(p), t);
    RealProduct(1.0 - Clamp(p), t);
    assert t - x == (1.0 - Clamp(p)) * t;
    assert x <= Ceil(x) as real < x + 1.0;
  }

  lemma ShareExists(p: real) returns (share: nat -> real)
    ensures Shares(p, share)
  {
    share := (t: nat) => Clamp(p) * t as real;
    forall t: nat, c: nat {:trigger Reaches(p, t, c)} | t > 0
      ensures share(t) >= 0.0
      ensures Reaches(p, t, c) <==> c >= 1 && c as real >= share(t)
    {
      TargetIsCeiling(p, t, c);
    }
    forall t: nat ensures share(t) >= 0.0 {
      RealProduct(Clamp(p), t as real);
    }
    forall s: nat, t: nat ensures share(s + t) == share(s) + share(t) {
      ProductOfSum(Clamp(p), s, t);
    }
  }

  lemma ProductOfSum(p: real, s: nat, t: nat)
    ensures p * (s + t) as real == p * s as real + p * t as real
  {
  }

  /** If every non-empty part reaches its target within the first m buckets, so does the merge. */
  lemma {:induction false} MergedReaches(n: nat, parts: seq<seq<nat>>, p: real, share: nat -> real, m: nat)
    requires forall i :: 0 <= i < |parts| ==> |parts[i]| == n
    requires m <= n && Shares(p, share)
    requires forall i :: 0 <= i < |parts| && Total(parts[i]) > 0 ==> Reaches(p, Total(parts[i]), Cum(parts[i], m))
    ensures var h := MergeAll(n, parts); Total(h) > 0 ==> Reaches(p, Total(h), Cum(h, m))
  {
    if parts == [] {
      CumZeros(n, n);
    } else {
      var front, part := parts[..|parts| - 1], parts[|parts| - 1];
      var h, g := MergeAll(n, front), MergeAll(n, parts);
      MergedReaches(n, front, p, share, m);
      CumAdded(h, part, m);
      CumAdded(h, part, n);
      SumReaches(p, share, Total(h), Cum(h, m), Total(part), Cum(part, m));
      assert Total(g) == Total(h) + Total(part) && Cum(g, m) == Cum(h, m) + Cum(part, m);
    }
  }

  lemma SumReaches(p: real, share: nat -> real, t1: nat, c1: nat, t2: nat, c2: nat)
    requires Shares(p, share)
    ensures (t1 > 0 ==> Reaches(p, t1, c1)) && (t2 > 0 ==> Reaches(p, t2, c2)) && t1 + t2 > 0
        ==> Reaches(p, t1 + t2, c1 + c2)
    ensures (t1 > 0 ==> !Reaches(p, t1, c1)) && (t2 > 0 ==> !Reaches(p, t2, c2)) && t1 + t2 > 0
            && c1 <= t1 && c2 <= t2
        ==> !Reaches(p, t1 + t2, c1 + c2)
  {
    assert share(t1 + t2) == share(t1) + share(t2);
  }

  /** If no non-empty part reaches its target there, neither does the merge. */
  lemma {:induction false} MergedMisses(n: nat, parts: seq<seq<nat>>, p: real, share: nat -> real, m: nat)
    requires forall i :: 0 <= i < |parts| ==> |parts[i]| == n
    requires m <= n && Shares(p, share)
    requires forall i :: 0 <= i < |parts| && Total(parts[i]) > 0 ==> !Reaches(p, Total(parts[i]), Cum(parts[i], m))
    ensures var h := MergeAll(n, parts); Total(h) > 0 ==> !Reaches(p, Total(h), Cum(h, m))
  {
    if parts == [] {
      CumZeros(n, n);
    } else {
      var front, part := parts[..|parts| - 1], parts[|parts| - 1];
      var h, g := MergeAll(n, front), MergeAll(n, parts);
      MergedMisses(n, front, p, share, m);
      CumAdded(h, part, m);
      CumAdded(h, part, n);
      CumMonotone(part, m, n);
      CumMonotone(h, m, n);
      SumReaches(p, share, Total(h), Cum(h, m), Total(part), Cum(part, m));
      assert Total(g) == Total(h) + Total(part) && Cum(g, m) == Cum(h, m) + Cum(part, m);
    }
  }

  /** Comparing a percentile with a bucket bound, through bucket indices. */
  lemma IndexFromValue(h: seq<nat>, p: real, m: nat)
    requires Total(h) > 0
    ensures BucketUpperBound(PercentileIndex(h, p)) < BucketUpperBound(m) && m <= |h|
        ==> Reaches(p, Total(h), Cum(h, m))
    ensures BucketUpperBound(m) < BucketUpperBound(PercentileIndex(h, p))
        ==> m + 1 <= |h| && !Reaches(p, Total(h), Cum(h, m + 1))
  {
    var k := PercentileIndex(h, p);
    if BucketUpperBound(k) < BucketUpperBound(m) && m <= |h| {
      if m <= k { UpperBoundMonotone(m, k); }
      CumMonotone(h, k + 1, m);
    }
    if BucketUpperBound(m) < BucketUpperBound(k) {
      if k <= m { UpperBoundMonotone(k, m); }
      CumMonotone(h, m + 1, k);
    }
  }

  /** The percentile of a merge is at most the largest percentile of its non-empty
      parts, for any number of parts ... */
  lemma MergedPercentileAtMost(n: nat, parts: seq<seq<nat>>, p: real, hi: nat)
    requires forall i :: 0 <= i < |parts| ==> |parts[i]| == n
    requires Total(MergeAll(n, parts)) > 0
    requires forall i :: 0 <= i < |parts| && Total(parts[i]) > 0 ==> PercentileOf(parts[i], p) <= hi
    ensures PercentileOf(MergeAll(n, parts), p) <= hi
  {
    var h := MergeAll(n, parts);
    var m := PercentileIndex(h, p);
    if BucketUpperBound(m) > hi {
      forall i | 0 <= i < |parts| && Total(parts[i]) > 0
        ensures Reaches(p, Total(parts[i]), Cum(parts[i], m))
      {
        IndexFromValue(parts[i], p, m);
      }
      var share := ShareExists(p);
      MergedReaches(n, parts, p, share, m);
    }
  }

  /** ... and at least the smallest. */
  lemma MergedPercentileAtLeast(n: nat, parts: seq<seq<nat>>, p: real, lo: nat)
    requires forall i :: 0 <= i < |parts| ==> |parts[i]| == n
    requires Total(MergeAll(n, parts)) > 0
    requires forall i :: 0 <= i < |parts| && Total(parts[i]) > 0 ==> lo <= PercentileOf(parts[i], p)
    ensures lo <= PercentileOf(MergeAll(n, parts), p)
  {
    var h := MergeAll(n, parts);
    var m := PercentileIndex(h, p);
    if BucketUpperBound(m) < lo {
      forall i | 0 <= i < |parts| && Total(parts[i]) > 0
        ensures !Reaches(p, Total(parts[i]), Cum(parts[i], m + 1))
      {
        IndexFromValue(parts[i], p, m);
      }
      var share := ShareExists(p);
      MergedMisses(n, parts, p, share, m + 1);
    }
  }

  // ---------------------------------------------------------------------------
  // Reading while the worker records

  lemma {:induction false} CumPointwise(a: seq<nat>, b: seq<nat>, k: nat)
    requires |a| == |b| && k <= |a| && forall i :: 0 <= i < k ==> a[i] <= b[i]
    ensures Cum(a, k) <= Cum(b, k)
  {
    if k > 0 {
      CumPointwise(a, b, k - 1);
    }
  }

  lemma {:induction false} CumPrefix(a: seq<nat>, b: seq<nat>, k: nat)
    requires k <= |a| && k <= |b| && forall i :: 0 <= i < k ==> a[i] == b[i]
    ensures Cum(a, k) == Cum(b, k)
  {
    if k > 0 {
      CumPrefix(a, b, k - 1);
    }
  }

  ghost predicate Pointwise(a: seq<nat>, b: seq<nat>) {
    |a| == |b| && forall k :: 0 <= k < |a| ==> a[k] <= b[k]
  }

  /** r is an upper bound for at least `count` of the values counted in h. */
  ghost predicate BoundsAtLeast(h: seq<nat>, count: nat, r: nat) {
    exists i :: 0 <= i < |h| && r == BucketUpperBound(i) && count <= Cum(h, i + 1)
  }

  /** An answer of Percentile while the counters went from `a` to `b`: the first scan saw
      counts in between; the answer bounds the target number of values recorded by the
      end, and is no larger than the percentile of what the first scan saw. */
  ghost predicate RacingAnswer(a: seq<nat>, seen: seq<nat>, p: real, r: nat, b: seq<nat>) {
    && Pointwise(a, seen) && Pointwise(seen, b)
    && (Total(seen) == 0 ==> r == 0)
    && (Total(seen) > 0 ==> r <= PercentileOf(seen, p) && BoundsAtLeast(b, Target(p, Total(seen)), r))
  }

  ghost predicate QuantileDuring(a: seq<nat>, p: real, r: nat, b: seq<nat>) {
    exists seen :: RacingAnswer(a, seen, p, r, b)
  }

  lemma QuantileWidens(a': seq<nat>, a: seq<nat>, p: real, r: nat, b: seq<nat>, b': seq<nat>)
    requires Pointwise(a', a) && QuantileDuring(a, p, r, b) && Pointwise(b, b')
    ensures QuantileDuring(a', p, r, b')
  {
    var seen :| RacingAnswer(a, seen, p, r, b);
    if Total(seen) > 0 {
      var i :| 0 <= i < |b| && r == BucketUpperBound(i) && Target(p, Total(seen)) <= Cum(b, i + 1);
      CumPointwise(b, b', i + 1);
      assert BoundsAtLeast(b', Target(p, Total(seen)), r);
    }
    assert RacingAnswer(a', seen, p, r, b');
  }

  /** The exact percentile is an answer, and the only one when nothing is recorded meanwhile. */
  lemma QuietQuantile(h: seq<nat>, p: real, r: nat)
    ensures QuantileDuring(h, p, r, h) <==> r == PercentileOf(h, p)
  {
    if QuantileDuring(h, p, r, h) {
      var seen :| RacingAnswer(h, seen, p, r, h);
      assert seen == h;
      if Total(h) > 0 {
        var i :| 0 <= i < |h| && r == BucketUpperBound(i) && Target(p, Total(h)) <= Cum(h, i + 1);
        ReachedBy(h, Target(p, Total(h)), PercentileIndex(h, p), i);
        UpperBoundMonotone(PercentileIndex(h, p), i);
      }
    }
    if Total(h) > 0 {
      assert BoundsAtLeast(h, Target(p, Total(h)), BucketUpperBound(PercentileIndex(h, p)));
    }
    assert RacingAnswer(h, h, p, PercentileOf(h, p), h);
  }

  lemma {:induction false} CumUpdated(h: seq<nat>, i: nat, x: nat, k: nat)
    requires i < |h| && k <= |h|
    ensures Cum(h[i := h[i] + x], k) == Cum(h, k) + if i < k then x else 0
  {
    if k > 0 {
      CumUpdated(h, i, x, k - 1);
    }
  }

  /** The median of counts of which bucket 1 alone has more than half is not in bucket 0. */
  lemma MedianAboveFirstBucket(h: seq<nat>, t: nat)
    requires 2 <= |h| && h[0] <= t && Total(h) == 2 * t + 1
    ensures PercentileOf(h, 0.50) >= 3
  {
    TargetIsCeiling(0.50, 2 * t + 1, t);
    assert Cum(h, 1) == Cum(h, 0) + h[0];
    assert PercentileIndex(h, 0.50) >= 1;
    assert Pow2(1) == 2 && Pow2(2) == 2 * Pow2(1);
    UpperBoundMonotone(1, PercentileIndex(h, 0.50));
  }

  /** When 100 of 101 values are in bucket 0, so is the 95th percentile. */
  lemma MostInFirstBucket(h: seq<nat>, n: nat)
    requires 1 <= |h| && n >= 1 && h[0] >= 100 * n && Total(h) == 101 * n
    ensures PercentileOf(h, 0.95) == 1
  {
    TargetIsCeiling(0.95, 101 * n, 100 * n);
    assert Cum(h, 1) == Cum(h, 0) + h[0];
    ReachedBy(h, Target(0.95, 101 * n), PercentileIndex(h, 0.95), 0);
    assert Pow2(1) == 2;
  }

  /** From any counts a worker can go on so that p95 is read smaller than p50 was before:
      values just large enough to move the median out of bucket 0, and after its reading a
      hundred times as many in bucket 0. */
  lemma QuantilesCanCross(h: seq<nat>) returns (end: seq<nat>, p50: nat, p95: nat)
    requires 2 <= |h| <= 64
    ensures Pointwise(h, end) && p95 < p50
    ensures QuantileDuring(h, 0.50, p50, end) && QuantileDuring(h, 0.95, p95, end)
  {
    var t := Total(h);
    CumPositive(h);
    var mid := h[1 := h[1] + (t + 1)];
    end := mid[0 := mid[0] + 100 * (2 * t + 1)];
    CumUpdated(h, 1, t + 1, |h|);
    CumUpdated(mid, 0, 100 * (2 * t + 1), |h|);
    MedianAboveFirstBucket(mid, t);
    MostInFirstBucket(end, 2 * t + 1);
    p50, p95 := PercentileOf(mid, 0.50), PercentileOf(end, 0.95);
    hide PercentileOf, QuantileDuring, Cum;
    QuietQuantile(mid, 0.50, p50);
    QuietQuantile(end, 0.95, p95);
    QuantileWidens(h, mid, 0.50, p50, mid, end);
    QuantileWidens(h, end, 0.95, p95, end, end);
  }

  lemma CumPositive(h: seq<nat>)
    requires 1 <= |h|
    ensures h[0] <= Total(h)
  {
    CumMonotone(h, 1, |h|);
    assert Cum(h, 1) == Cum(h, 0) + h[0];
  }

  lemma BucketOfLowerBound(n: nat, k: nat)
    requires 1 <= n <= 64 && k < n
    ensures BucketLowerBound(k) <= U64_MAX && BucketOf(n, BucketLowerBound(k)) == k
  {
    Pow2Of64();
    Pow2Monotone(k + 1, n);
    Pow2Monotone(n, 64);
    assert Pow2(k + 1) == 2 * Pow2(k);
    if k > 0 {
      var j := BucketOf(n, Pow2(k));
      BucketBrackets(n, Pow2(k));
      if j < k {
        Pow2Monotone(j + 1, k);
      } else if k < j {
        Pow2Monotone(k + 1, j);
      }
    }
  }

  lemma {:induction false} CountRepeated(n: nat, v: nat, c: nat, i: nat)
    requires n >= 1
    ensures CountIn(n, seq(c, _ => v), i) == if i == BucketOf(n, v) then c else 0
    decreases c
  {
    if c > 0 {
      assert seq(c, _ => v)[..c - 1] == seq(c - 1, _ => v);
      CountRepeated(n, v, c - 1, i);
    }
  }

  /** Every counter array is the histogram of some values, so what a reader loads
      between two Record calls is a histogram too. */
  lemma {:induction false} EveryArrayIsAHistogram(h: seq<nat>, k: nat) returns (values: seq<nat>)
    requires 1 <= |h| <= 64 && k <= |h|
    ensures forall v :: v in values ==> v <= U64_MAX
    ensures forall i :: 0 <= i < |h| ==> CountIn(|h|, values, i) == if i < k then h[i] else 0
    ensures k == |h| ==> HistOf(|h|, values) == h
  {
    if k == 0 {
      values := [];
    } else {
      var below := EveryArrayIsAHistogram(h, k - 1);
      var v := BucketLowerBound(k - 1);
      BucketOfLowerBound(|h|, k - 1);
      values := below + seq(h[k - 1], _ => v);
      forall i | 0 <= i < |h|
        ensures CountIn(|h|, values, i) == if i < k then h[i] else 0
      {
        CountAppend(|h|, below, seq(h[k - 1], _ => v), i);
        CountRepeated(|h|, v, h[k - 1], i);
      }
    }
  }

  class Log2Histogram {
    const n: nat                 // BucketCount
    const buckets: array<nat>
    ghost var values: seq<nat>   // everything recorded, in order

    ghost predicate Valid()
      reads this, buckets
    {
      && 1 <= n <= 64
      && buckets.Length == n
      && buckets[..] == HistOf(n, values)
      && forall v :: v in values ==> v <= U64_MAX
    }

    constructor (n: nat)
      requires 1 <= n <= 64
      ensures Valid() && this.n == n && values == [] && fresh(buckets)
    {
      this.n := n;
      buckets := new nat[n](_ => 0);
      values := [];
    }

    method Record(value: nat)
      requires Valid() && value <= U64_MAX
      modifies this`values, buckets
      ensures Valid() && values == old(values) + [value]
      ensures forall i :: 0 <= i < n ==> old(buckets[i]) <= buckets[i]
    {
      var index := BucketOf(n, value);
      buckets[index] := buckets[index] + 1;
      values := values + [value];
      assert values[..|values| - 1] == old(values);
      assert forall i :: 0 <= i < n ==> buckets[..][i] == HistOf(n, values)[i];
    }

    method TotalCount() returns (total: nat)
      requires Valid()
      ensures total == Total(buckets[..]) == |values|
    {
      total := 0;
      for i := 0 to n
        invariant total == Cum(buckets[..], i)
      {
        total := total + buckets[i];
      }
      CumCountsValues(n, values, n);
    }

    method Percentile(p: real) returns (r: nat)
      requires Valid()
      ensures r == PercentileOf(buckets[..], p)
    {
      ghost var h := buckets[..];
      var total := TotalCount();
      if total == 0 {
        return 0;
      }
      var target := Target(p, total);
      var cumulative := 0;
      for i := 0 to n
        invariant cumulative == Cum(h, i) < target
      {
        cumulative := cumulative + buckets[i];
        if cumulative >= target {
          ReachUnique(h, target, i, PercentileIndex(h, p));
          return BucketUpperBound(i);
        }
      }
      assert false; // falling through would need fewer values than were counted
    }

    method MinValue() returns (r: nat)
      requires Valid()
      ensures r == MinOf(buckets[..])
    {
      for i := 0 to n
        invariant forall k :: 0 <= k < i ==> buckets[k] == 0
      {
        if buckets[i] != 0 {
          return BucketLowerBound(i);
        }
      }
      r := 0;
    }

    method MaxValue() returns (r: nat)
      requires Valid()
      ensures r == MaxOf(buckets[..])
    {
      var i := n;
      while i > 0
        invariant 0 <= i <= n
        invariant forall k :: i <= k < n ==> buckets[k] == 0
      {
        if buckets[i - 1] != 0 {
          return BucketUpperBound(i - 1);
        }
        i := i - 1;
      }
      r := 0;
    }

    method Merge(other: Log2Histogram)
      requires Valid() && other.Valid() && n == other.n && buckets != other.buckets
      modifies this`values, buckets
      ensures Valid() && values == old(values) + old(other.values)
      ensures buckets[..] == Added(old(buckets[..]), old(other.buckets[..]))
    {
      for i := 0 to n
        invariant forall k :: 0 <= k < i ==> buckets[k] == old(buckets[k]) + old(other.buckets[k])
        invariant forall k :: i <= k < n ==> buckets[k] == old(buckets[k])
        invariant values == old(values)
      {
        buckets[i] := buckets[i] + other.buckets[i];
      }
      values := values + old(other.values);
      MergeIsUnion(n, old(values), old(other.values));
      assert buckets[..] == Added(old(buckets[..]), old(other.buckets[..]));
    }

    /** Merge while the other histogram's worker keeps recording: before every load its
        counters may grow. `seen` is what was loaded. */
    method RacingMerge(other: Log2Histogram) returns (seen: seq<nat>)
      requires Valid() && other.Valid() && n == other.n && this != other && buckets != other.buckets
      modifies this`values, buckets, other`values, other.buckets
      ensures Valid() && other.Valid()
      ensures |seen| == n && forall i :: 0 <= i < n ==> old(other.buckets[i]) <= seen[i] <= other.buckets[i]
      ensures buckets[..] == Added(old(buckets[..]), seen)
    {
      seen := [];
      for i := 0 to n
        invariant other.Valid()
        invariant |seen| == i && forall k :: 0 <= k < i ==> old(other.buckets[k]) <= seen[k] <= other.buckets[k]
        invariant forall k :: 0 <= k < n ==> old(other.buckets[k]) <= other.buckets[k]
        invariant forall k :: 0 <= k < i ==> buckets[k] == old(buckets[k]) + seen[k]
        invariant forall k :: i <= k < n ==> buckets[k] == old(buckets[k])
        invariant values == old(values)
      {
        other.OtherThreadRecords();
        seen := seen + [other.buckets[i]];
        buckets[i] := buckets[i] + other.buckets[i];
      }
      ghost var loaded := EveryArrayIsAHistogram(seen, n);
      values := values + loaded;
      MergeIsUnion(n, old(values), loaded);
      assert buckets[..] == Added(old(buckets[..]), seen);
    }

    method Reset()
      requires Valid()
      modifies this`values, buckets
      ensures Valid() && values == []
    {
      for i := 0 to n
        invariant forall k :: 0 <= k < i ==> buckets[k] == 0
      {
        buckets[i] := 0;
      }
      values := [];
    }

    /** Any number of Record calls by the owning worker, between two loads of a reader. */
    method OtherThreadRecords()
      requires Valid()
      modifies this`values, buckets
      ensures Valid()
      ensures forall i :: 0 <= i < n ==> old(buckets[i]) <= buckets[i]
    {
      var calls: int := *;
      while calls > 0
        invariant Valid()
        invariant forall i :: 0 <= i < n ==> old(buckets[i]) <= buckets[i]
      {
        var value: int := *;
        if 0 <= value <= U64_MAX {
          assert buckets[..][BucketOf(n, value)] == buckets[BucketOf(n, value)];
          RecordGrows(n, values, value);
          ghost var before := buckets[..];
          Record(value);
          assert forall i :: 0 <= i < n ==> before[i] <= buckets[..][i];
        }
        calls := calls - 1;
      }
    }

    /** Percentile while the worker keeps recording: before every load the counters may
        grow. `seen` is what the first scan loaded. The second scan always finds its
        target, so the return after the loop is never taken; the answer is an upper
        bound for at least the targeted number of values recorded by then, and no
        larger than the percentile of the counts the first scan saw. */
    method RacingPercentile(p: real) returns (r: nat, ghost seen: seq<nat>)
      requires Valid()
      modifies this`values, buckets
      ensures Valid() && RacingAnswer(old(buckets[..]), seen, p, r, buckets[..])
    {
      var total;
      total, seen := RacingTotal();
      if total == 0 {
        return 0, seen;
      }
      ghost var index;
      r, index := RacingScan(Target(p, total), seen);
      ReachedBy(seen, Target(p, total), index, PercentileIndex(seen, p));
      UpperBoundMonotone(index, PercentileIndex(seen, p));
      assert BoundsAtLeast(buckets[..], Target(p, total), r);
    }

    method RacingTotal() returns (total: nat, ghost seen: seq<nat>)
      requires Valid()
      modifies this`values, buckets
      ensures Valid()
      ensures |seen| == n && total == Total(seen)
      ensures forall i :: 0 <= i < n ==> old(buckets[i]) <= seen[i] <= buckets[i]
    {
      total, seen := 0, [];
      for i := 0 to n
        invariant Valid()
        invariant |seen| == i && total == Cum(seen, i)
        invariant forall k :: 0 <= k < i ==> old(buckets[k]) <= seen[k] <= buckets[k]
        invariant forall k :: 0 <= k < n ==> old(buckets[k]) <= buckets[k]
      {
        OtherThreadRecords();
        ghost var longer := seen + [buckets[i]];
        CumPrefix(seen, longer, i);
        seen, total := longer, total + buckets[i];
      }
    }

    method RacingScan(target: nat, ghost seen: seq<nat>) returns (r: nat, ghost index: nat)
      requires Valid() && |seen| == n && 1 <= target <= Total(seen)
      requires forall i :: 0 <= i < n ==> seen[i] <= buckets[i]
      modifies this`values, buckets
      ensures Valid() && forall i :: 0 <= i < n ==> old(buckets[i]) <= buckets[i]
      ensures index < n && r == BucketUpperBound(index)
      ensures Cum(seen, index) < target <= Cum(buckets[..], index + 1)
    {
      hide HistOf, BucketOf, BucketUpperBound;
      var cumulative := 0;
      ghost var loads: seq<nat> := [];
      for i := 0 to n
        invariant Valid() && forall k :: 0 <= k < n ==> old(buckets[k]) <= buckets[k]
        invariant |loads| == i && cumulative == Cum(loads, i)
        invariant forall k :: 0 <= k < i ==> seen[k] <= loads[k] <= buckets[k]
        invariant Cum(seen, i) <= cumulative < target
      {
        OtherThreadRecords();
        ghost var longer := loads + [buckets[i]];
        CumPrefix(loads, longer, i);
        loads, cumulative := longer, cumulative + buckets[i];
        CumOfLoads(loads, buckets[..]);
        if cumulative >= target {
          return BucketUpperBound(i), i;
        }
      }
      assert false; // the whole scan would have seen fewer values than the first one
    }
  }

  /** Loads that the counters have reached or passed add up to no more than they do now. */
  lemma CumOfLoads(loads: seq<nat>, h: seq<nat>)
    requires |loads| <= |h| && forall k :: 0 <= k < |loads| ==> loads[k] <= h[k]
    ensures Cum(loads, |loads|) <= Cum(h, |loads|)
  {
    CumPointwise(loads, h[..|loads|], |loads|);
    CumPrefix(h[..|loads|], h, |loads|);
  }

  lemma ReachedBy(h: seq<nat>, target: nat, i: nat, j: nat)
    requires i < |h| && j < |h| && Cum(h, i) < target <= Cum(h, j + 1)
    ensures i <= j
  {
    if j < i {
      CumMonotone(h, j + 1, i);
    }
  }

  /** Recording never lowers a counter. */
  lemma RecordGrows(n: nat, values: seq<nat>, v: nat)
    requires n >= 1
    ensures forall i :: 0 <= i < n ==> HistOf(n, values)[i] <= HistOf(n, values + [v])[i]
  {
    assert (values + [v])[..|values|] == values;
  }
}
