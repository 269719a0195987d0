/** What src/telemetry/metrics_aggregator.cpp computes from the counters it has read.

    A sample is one pass over the workers; only a recording sample moves the basis
    from which the next differences are taken. Rates and times are exact reals. */
module Series {
  import opened Types
  import opened Histogram

  /** What one pass loads from one worker; `counts` is what Merge saw of its histogram. */
  datatype Reading = Reading(
    iops: nat, bytes: nat, readErrors: nat, writeErrors: nat,
    p50: nat, p95: nat, p99: nat, counts: seq<nat>)

  /** Everything the aggregator can read of a worker. */
  datatype MeterState = MeterState(
    iops: nat, bytes: nat, readErrors: nat, writeErrors: nat, counts: seq<nat>, ended: bool)

  /** Counters never go down, and an ended worker changes nothing. */
  ghost predicate Later(a: MeterState, b: MeterState) {
    && a.iops <= b.iops && a.bytes <= b.bytes
    && a.readErrors <= b.readErrors && a.writeErrors <= b.writeErrors
    && Pointwise(a.counts, b.counts)
    && a.ended == b.ended && (a.ended ==> a == b)
  }

  lemma LaterAtOnce(a: MeterState)
    ensures Later(a, a)
  {
  }

  lemma LaterTransitive(a: MeterState, b: MeterState, c: MeterState)
    requires Later(a, b) && Later(b, c)
    ensures Later(a, c)
  {
  }

  /** What a pass over a worker reads when nothing moves. */
  function AtRest(w: MeterState): Reading {
    Reading(w.iops, w.bytes, w.readErrors, w.writeErrors,
            PercentileOf(w.counts, 0.50), PercentileOf(w.counts, 0.95), PercentileOf(w.counts, 0.99), w.counts)
  }

  /** A reading taken while the worker went from `a` to `b`: every load lies in between,
      and the percentiles are answers of the racing scan. */
  ghost predicate ReadDuring(a: MeterState, r: Reading, b: MeterState) {
    && Later(a, b)
    && a.iops <= r.iops <= b.iops && a.bytes <= r.bytes <= b.bytes
    && a.readErrors <= r.readErrors <= b.readErrors && a.writeErrors <= r.writeErrors <= b.writeErrors
    && Pointwise(a.counts, r.counts) && Pointwise(r.counts, b.counts)
    && QuantileDuring(a.counts, 0.50, r.p50, b.counts)
    && QuantileDuring(a.counts, 0.95, r.p95, b.counts)
    && QuantileDuring(a.counts, 0.99, r.p99, b.counts)
    && (b.ended ==> r == AtRest(b))
  }

  lemma ReadDuringEarlier(a': MeterState, a: MeterState, r: Reading, b: MeterState)
    requires Later(a', a) && ReadDuring(a, r, b)
    ensures ReadDuring(a', r, b)
  {
    hide QuantileDuring, AtRest;
    QuantileWidens(a'.counts, a.counts, 0.50, r.p50, b.counts, b.counts);
    QuantileWidens(a'.counts, a.counts, 0.95, r.p95, b.counts, b.counts);
    QuantileWidens(a'.counts, a.counts, 0.99, r.p99, b.counts, b.counts);
  }

  /** Percentiles of one pass are ordered unless the worker recorded something meanwhile. */
  lemma CrossedOnlyWhileRecording(a: MeterState, r: Reading, b: MeterState)
    requires ReadDuring(a, r, b) && !(r.p50 <= r.p95 <= r.p99)
    ensures !b.ended && a.counts != b.counts
  {
    if a.counts == b.counts {
      QuietQuantile(b.counts, 0.50, r.p50);
      QuietQuantile(b.counts, 0.95, r.p95);
      QuietQuantile(b.counts, 0.99, r.p99);
      PercentileMonotone(b.counts, 0.50, 0.95);
      PercentileMonotone(b.counts, 0.95, 0.99);
      assert false;
    }
  }

  /** A pass over any running worker can read p95 below p50. */
  lemma PassCanCross(a: MeterState) returns (r: Reading, b: MeterState)
    requires |a.counts| == 64 && !a.ended
    ensures ReadDuring(a, r, b) && r.p95 < r.p50
  {
    var end, p50, p95 := QuantilesCanCross(a.counts);
    CumPointwise(a.counts, end, 64);
    b := a.(counts := end, iops := a.iops + Histogram.Total(end) - Histogram.Total(a.counts));
    var p99 := PercentileOf(end, 0.99);
    hide QuantileDuring;
    QuietQuantile(end, 0.99, p99);
    QuantileWidens(a.counts, end, 0.99, p99, end, end);
    r := Reading(a.iops, a.bytes, a.readErrors, a.writeErrors, p50, p95, p99, end);
  }

  /** The percentiles of a pass are certain to be ordered if and only if the worker's thread
      has ended before it. */
  lemma OrderedExactlyWhenEnded(a: MeterState)
    requires |a.counts| == 64
    ensures (forall r, b :: ReadDuring(a, r, b) ==> r.p50 <= r.p95 <= r.p99) <==> a.ended
  {
    if a.ended {
      forall r, b | ReadDuring(a, r, b) ensures r.p50 <= r.p95 <= r.p99 {
        ReportedLatenciesAreOrdered(b.counts);
      }
    } else {
      var r, b := PassCanCross(a);
    }
  }

  datatype Metrics = Metrics(
    iopsInstant: nat, iopsCumulative: nat, bwInstant: nat, bwCumulative: nat,
    p50: nat, p95: nat, p99: nat, readErrors: nat, writeErrors: nat)

  datatype Snapshot = Snapshot(time: int, elapsed: real, jobs: seq<Metrics>, total: Metrics)

  datatype Sample = Sample(record: bool, time: int, readings: seq<Reading>)

  const NO_METRICS := Metrics(0, 0, 0, 0, 0, 0, 0, 0, 0)

  /** Times are nanoseconds of the steady clock. */
  function ElapsedSeconds(begin: int, end: int): (r: real)
    ensures r >= 0.000_000_001
    ensures r == if end > begin then (end - begin) as real / 1_000_000_000.0 else 0.000_000_001
  {
    var span := (end - begin) as real / 1_000_000_000.0;
    assert end > begin ==> span >= 0.000_000_001;
    if span < 0.000_000_001 then 0.000_000_001 else span
  }

  /** llround: to the nearest integer, halves away from zero. */
  function RoundRate(x: real): nat {
    if x <= 0.0 then 0 else (x + 0.5).Floor
  }

  /** uint64_t subtraction. */
  function Sub64(a: nat, b: nat): nat {
    (a - b) % (U64_MAX + 1)
  }

  function JobOf(r: Reading, prevIops: nat, prevBytes: nat, sincePrev: real, sinceStart: real): Metrics
    requires sincePrev > 0.0 && sinceStart > 0.0
  {
    Metrics(
      RoundRate(Sub64(r.iops, prevIops) as real / sincePrev),
      RoundRate(r.iops as real / sinceStart),
      RoundRate(Sub64(r.bytes, prevBytes) as real / sincePrev),
      RoundRate(r.bytes as real / sinceStart),
      r.p50, r.p95, r.p99, r.readErrors, r.writeErrors)
  }

  /** The running TOTAL: every counter is added, percentiles are not. */
  function Plus(t: Metrics, m: Metrics): Metrics {
    t.(iopsInstant := t.iopsInstant + m.iopsInstant,
       iopsCumulative := t.iopsCumulative + m.iopsCumulative,
       bwInstant := t.bwInstant + m.bwInstant,
       bwCumulative := t.bwCumulative + m.bwCumulative,
       readErrors := t.readErrors + m.readErrors,
       writeErrors := t.writeErrors + m.writeErrors)
  }

  function Summed(jobs: seq<Metrics>): Metrics {
    if jobs == [] then NO_METRICS else Plus(Summed(jobs[..|jobs| - 1]), jobs[|jobs| - 1])
  }

  function WithPercentiles(t: Metrics, counts: seq<nat>): Metrics {
    t.(p50 := PercentileOf(counts, 0.50), p95 := PercentileOf(counts, 0.95), p99 := PercentileOf(counts, 0.99))
  }

  function Parts(readings: seq<Reading>): (parts: seq<seq<nat>>)
    ensures |parts| == |readings| && forall i :: 0 <= i < |parts| ==> parts[i] == readings[i].counts
  {
    seq(|readings|, i requires 0 <= i < |readings| => readings[i].counts)
  }

  ghost predicate WellRead(readings: seq<Reading>) {
    forall i :: 0 <= i < |readings| ==> |readings[i].counts| == 64
  }

  function JobsOf(readings: seq<Reading>, prevIops: seq<nat>, prevBytes: seq<nat>,
                  sincePrev: real, sinceStart: real): (jobs: seq<Metrics>)
    requires |readings| <= |prevIops| && |readings| <= |prevBytes| && sincePrev > 0.0 && sinceStart > 0.0
  {
    seq(|readings|, i requires 0 <= i < |readings| =>
      JobOf(readings[i], prevIops[i], prevBytes[i], sincePrev, sinceStart))
  }

  function SnapshotOf(readings: seq<Reading>, prevIops: seq<nat>, prevBytes: seq<nat>,
                      prevTime: int, start: int, now: int): Snapshot
    requires WellRead(readings) && |readings| <= |prevIops| && |readings| <= |prevBytes|
  {
    var jobs := JobsOf(readings, prevIops, prevBytes, ElapsedSeconds(prevTime, now), ElapsedSeconds(start, now));
    Snapshot(now, ElapsedSeconds(start, now), jobs, WithPercentiles(Summed(jobs), MergeAll(64, Parts(readings))))
  }

  /** A vector of previous counters after the first |readings| workers of a pass. */
  function Advanced(record: bool, readings: seq<Reading>, f: Reading -> nat, prev: seq<nat>): (r: seq<nat>)
    requires |readings| <= |prev|
    ensures |r| == |prev|
  {
    if record then Counters(readings, f) + prev[|readings|..] else prev
  }

  lemma NothingRead(record: bool, prevIops: seq<nat>, prevBytes: seq<nat>, sincePrev: real, sinceStart: real)
    requires sincePrev > 0.0 && sinceStart > 0.0
    ensures Parts([]) == [] && Summed([]) == NO_METRICS && JobsOf([], prevIops, prevBytes, sincePrev, sinceStart) == []
    ensures Advanced(record, [], IopsOf, prevIops) == prevIops && Advanced(record, [], BytesOf, prevBytes) == prevBytes
  {
  }

  lemma EveryoneRead(record: bool, readings: seq<Reading>, prevIops: seq<nat>, prevBytes: seq<nat>)
    requires |readings| == |prevIops| == |prevBytes|
    ensures Advanced(record, readings, IopsOf, prevIops) == if record then Counters(readings, IopsOf) else prevIops
    ensures Advanced(record, readings, BytesOf, prevBytes) == if record then Counters(readings, BytesOf) else prevBytes
  {
  }

  /** Reading one more worker, for everything a pass accumulates. */
  lemma ReadOneMore(record: bool, readings: seq<Reading>, r: Reading, prevIops: seq<nat>, prevBytes: seq<nat>,
                    sincePrev: real, sinceStart: real)
    requires WellRead(readings) && |r.counts| == 64
    requires |readings| < |prevIops| && |readings| < |prevBytes| && sincePrev > 0.0 && sinceStart > 0.0
    ensures WellRead(readings + [r])
    ensures MergeAll(64, Parts(readings + [r])) == Added(MergeAll(64, Parts(readings)), r.counts)
    ensures var i := |readings|;
      var jobs := JobsOf(readings, prevIops, prevBytes, sincePrev, sinceStart);
      var metrics := JobOf(r, prevIops[i], prevBytes[i], sincePrev, sinceStart);
      && JobsOf(readings + [r], prevIops, prevBytes, sincePrev, sinceStart) == jobs + [metrics]
      && Summed(jobs + [metrics]) == Plus(Summed(jobs), metrics)
    ensures OneMoreAdvanced(record, readings, r, IopsOf, prevIops)
    ensures OneMoreAdvanced(record, readings, r, BytesOf, prevBytes)
  {
    hide JobOf, Plus, Advanced;
    var i := |readings|;
    var jobs := JobsOf(readings, prevIops, prevBytes, sincePrev, sinceStart);
    var metrics := JobOf(r, prevIops[i], prevBytes[i], sincePrev, sinceStart);
    assert (jobs + [metrics])[..i] == jobs;
    assert JobsOf(readings + [r], prevIops, prevBytes, sincePrev, sinceStart) == jobs + [metrics];
    AdvanceOneMore(record, readings, r, IopsOf, prevIops);
    AdvanceOneMore(record, readings, r, BytesOf, prevBytes);
    assert Parts(readings + [r]) == Parts(readings) + [r.counts];
    assert Parts(readings + [r])[..i] == Parts(readings);
  }

  ghost predicate OneMoreAdvanced(record: bool, readings: seq<Reading>, r: Reading, f: Reading -> nat, prev: seq<nat>)
    requires |readings| < |prev|
  {
    var i := |readings|;
    && Advanced(record, readings, f, prev)[i] == prev[i]
    && Advanced(record, readings + [r], f, prev)
       == (if record then Advanced(record, readings, f, prev)[i := f(r)] else Advanced(record, readings, f, prev))
  }

  lemma AdvanceOneMore(record: bool, readings: seq<Reading>, r: Reading, f: Reading -> nat, prev: seq<nat>)
    requires |readings| < |prev|
    ensures OneMoreAdvanced(record, readings, r, f, prev)
  {
    assert Counters(readings + [r], f) == Counters(readings, f) + [f(r)];
  }

  /** A snapshot field by field: rates are rounded growth over the time since the last row, and
      rounded counters over the time since the start; the rest is what was read. */
  lemma SnapshotFields(readings: seq<Reading>, prevIops: seq<nat>, prevBytes: seq<nat>,
                       prevTime: int, start: int, now: int, i: nat)
    requires WellRead(readings) && i < |readings| <= |prevIops| && |readings| <= |prevBytes|
    requires prevIops[i] <= readings[i].iops <= U64_MAX && prevBytes[i] <= readings[i].bytes <= U64_MAX
    ensures var s, r := SnapshotOf(readings, prevIops, prevBytes, prevTime, start, now), readings[i];
      var sincePrev, sinceStart := ElapsedSeconds(prevTime, now), ElapsedSeconds(start, now);
      && s.time == now && s.elapsed == sinceStart && |s.jobs| == |readings|
      && Rounds(s.jobs[i].iopsInstant, (r.iops - prevIops[i]) as real / sincePrev)
      && Rounds(s.jobs[i].bwInstant, (r.bytes - prevBytes[i]) as real / sincePrev)
      && Rounds(s.jobs[i].iopsCumulative, r.iops as real / sinceStart)
      && Rounds(s.jobs[i].bwCumulative, r.bytes as real / sinceStart)
      && s.jobs[i].p50 == r.p50 && s.jobs[i].p95 == r.p95 && s.jobs[i].p99 == r.p99
      && s.jobs[i].readErrors == r.readErrors && s.jobs[i].writeErrors == r.writeErrors
      && s.total.p50 == PercentileOf(MergeAll(64, Parts(readings)), 0.50)
      && s.total.p95 == PercentileOf(MergeAll(64, Parts(readings)), 0.95)
      && s.total.p99 == PercentileOf(MergeAll(64, Parts(readings)), 0.99)
      && s.total.readErrors == SumBy(s.jobs, (m: Metrics) => m.readErrors)
      && s.total.writeErrors == SumBy(s.jobs, (m: Metrics) => m.writeErrors)
  {
    hide MergeAll, PercentileOf, Summed, ElapsedSeconds, RoundRate, Rounds;
    var r := readings[i];
    var sincePrev, sinceStart := ElapsedSeconds(prevTime, now), ElapsedSeconds(start, now);
    SummedByField(SnapshotOf(readings, prevIops, prevBytes, prevTime, start, now).jobs);
    RatesRound(r.iops, prevIops[i], sincePrev);
    RatesRound(r.bytes, prevBytes[i], sincePrev);
    RatesRound(r.iops, 0, sinceStart);
    RatesRound(r.bytes, 0, sinceStart);
    Sub64Exact(r.iops, 0);
    Sub64Exact(r.bytes, 0);
  }

  lemma RatesRound(counter: nat, basis: nat, since: real)
    requires basis <= counter <= U64_MAX && since > 0.0
    ensures Rounds(RoundRate(Sub64(counter, basis) as real / since), (counter - basis) as real / since)
  {
    Sub64Exact(counter, basis);
    QuotientOfSum(counter - basis, 0, since);
    RoundRateNearest((counter - basis) as real / since);
  }

  // ---------------------------------------------------------------------------
  // Differences: the basis, the recorded deltas, and their sum

  function IopsOf(r: Reading): nat { r.iops }
  function BytesOf(r: Reading): nat { r.bytes }

  /** Every sample reads `n` workers, and counters never go down. */
  ghost predicate Monotone(n: nat, samples: seq<Sample>)
    decreases |samples|
  {
    samples != [] ==>
      var k := |samples| - 1;
      && Monotone(n, samples[..k])
      && |samples[k].readings| == n && WellRead(samples[k].readings)
      && forall i :: 0 <= i < n ==>
           && Last(n, samples[..k], i, IopsOf) <= samples[k].readings[i].iops <= U64_MAX
           && Last(n, samples[..k], i, BytesOf) <= samples[k].readings[i].bytes <= U64_MAX
  }

  /** The counter of worker i as the newest sample read it. */
  ghost function Last(n: nat, samples: seq<Sample>, i: nat, f: Reading -> nat): nat {
    if samples == [] || i >= |samples[|samples| - 1].readings| then 0
    else f(samples[|samples| - 1].readings[i])
  }

  /** ... as the newest recording sample read it. */
  ghost function Basis(samples: seq<Sample>, i: nat, f: Reading -> nat): nat {
    if samples == [] then 0 else
      var k := |samples| - 1;
      if samples[k].record && i < |samples[k].readings| then f(samples[k].readings[i]) else Basis(samples[..k], i, f)
  }

  ghost function BasisTime(start: int, samples: seq<Sample>): int {
    if samples == [] then start else
      var k := |samples| - 1;
      if samples[k].record then samples[k].time else BasisTime(start, samples[..k])
  }

  /** The sum of the differences of all recording samples, each taken modulo 2^64. */
  ghost function RecordedDeltas(samples: seq<Sample>, i: nat, f: Reading -> nat): nat {
    if samples == [] then 0 else
      var k := |samples| - 1;
      RecordedDeltas(samples[..k], i, f) +
      if samples[k].record && i < |samples[k].readings|
      then Sub64(f(samples[k].readings[i]), Basis(samples[..k], i, f)) else 0
  }

  ghost predicate IsCounter(f: Reading -> nat) {
    f == IopsOf || f == BytesOf
  }

  lemma {:induction false} BasisAtMostLast(n: nat, samples: seq<Sample>, i: nat, f: Reading -> nat)
    requires Monotone(n, samples) && i < n && IsCounter(f)
    ensures Basis(samples, i, f) <= Last(n, samples, i, f) <= U64_MAX
  {
    if samples != [] {
      BasisAtMostLast(n, samples[..|samples| - 1], i, f);
    }
  }

  /** No difference wraps: each is the true growth since the basis. */
  lemma NoUnderflow(n: nat, samples: seq<Sample>, k: nat, i: nat, f: Reading -> nat)
    requires Monotone(n, samples) && k < |samples| && i < n && IsCounter(f)
    ensures |samples[k].readings| == n
    ensures Basis(samples[..k], i, f) <= f(samples[k].readings[i])
    ensures Sub64(f(samples[k].readings[i]), Basis(samples[..k], i, f))
            == f(samples[k].readings[i]) - Basis(samples[..k], i, f)
  {
    MonotonePrefix(n, samples, k + 1);
    assert samples[..k + 1][..k] == samples[..k];
    BasisAtMostLast(n, samples[..k], i, f);
  }

  lemma {:induction false} MonotonePrefix(n: nat, samples: seq<Sample>, k: nat)
    requires Monotone(n, samples) && k <= |samples|
    ensures Monotone(n, samples[..k])
    decreases |samples|
  {
    if k < |samples| {
      MonotonePrefix(n, samples[..|samples| - 1], k);
      assert samples[..|samples| - 1][..k] == samples[..k];
    } else {
      assert samples[..k] == samples;
    }
  }

  /** For any mix of recording and non-recording samples: the recorded differences and
      the still open one add up to the worker's counter. */
  lemma {:induction false} DifferencesTelescope(n: nat, samples: seq<Sample>, i: nat, f: Reading -> nat, now: nat)
    requires Monotone(n, samples) && i < n && IsCounter(f)
    requires Last(n, samples, i, f) <= now <= U64_MAX
    ensures RecordedDeltas(samples, i, f) + Sub64(now, Basis(samples, i, f)) == now
  {
    hide Sub64, Monotone;
    BasisAtMostLast(n, samples, i, f);
    Sub64Exact(now, Basis(samples, i, f));
    if samples != [] {
      var k := |samples| - 1;
      LastGrows(n, samples, i, f);
      NoUnderflow(n, samples, k, i, f);
      DifferencesTelescope(n, samples[..k], i, f, Last(n, samples, i, f));
    }
  }

  lemma Sub64Exact(a: nat, b: nat)
    requires b <= a <= U64_MAX
    ensures Sub64(a, b) == a - b
  {
  }

  lemma LastGrows(n: nat, samples: seq<Sample>, i: nat, f: Reading -> nat)
    requires Monotone(n, samples) && samples != [] && i < n && IsCounter(f)
    ensures Monotone(n, samples[..|samples| - 1]) && |samples[|samples| - 1].readings| == n
    ensures Last(n, samples[..|samples| - 1], i, f) <= Last(n, samples, i, f) <= U64_MAX
  {
  }

  // ---------------------------------------------------------------------------
  // Rounding

  /** r is the integer nearest to x, the upper one of two. */
  ghost predicate Rounds(r: nat, x: real) {
    r as real - 0.5 <= x < r as real + 0.5
  }

  lemma RoundRateNearest(x: real)
    requires x >= 0.0
    ensures Rounds(RoundRate(x), x)
  {
  }

  function Sum(xs: seq<nat>): nat {
    if xs == [] then 0 else Sum(xs[..|xs| - 1]) + xs[|xs| - 1]
  }

  function SumBy(jobs: seq<Metrics>, g: Metrics -> nat): nat {
    if jobs == [] then 0 else SumBy(jobs[..|jobs| - 1], g) + g(jobs[|jobs| - 1])
  }

  lemma {:induction false} SummedByField(jobs: seq<Metrics>)
    ensures Summed(jobs).iopsInstant == SumBy(jobs, (m: Metrics) => m.iopsInstant)
    ensures Summed(jobs).iopsCumulative == SumBy(jobs, (m: Metrics) => m.iopsCumulative)
    ensures Summed(jobs).bwInstant == SumBy(jobs, (m: Metrics) => m.bwInstant)
    ensures Summed(jobs).bwCumulative == SumBy(jobs, (m: Metrics) => m.bwCumulative)
    ensures Summed(jobs).readErrors == SumBy(jobs, (m: Metrics) => m.readErrors)
    ensures Summed(jobs).writeErrors == SumBy(jobs, (m: Metrics) => m.writeErrors)
  {
    if jobs != [] {
      SummedByField(jobs[..|jobs| - 1]);
    }
  }

  lemma QuotientOfSum(x: nat, y: nat, d: real)
    requires d > 0.0
    ensures (x + y) as real / d == x as real / d + y as real / d
    ensures x as real / d >= 0.0
  {
  }

  lemma {:induction false} RoundedSum(jobs: seq<Metrics>, amounts: seq<nat>, since: real, g: Metrics -> nat)
    requires since > 0.0 && |jobs| == |amounts|
    requires forall i :: 0 <= i < |jobs| ==> g(jobs[i]) == RoundRate(amounts[i] as real / since)
    ensures Within(SumBy(jobs, g), Sum(amounts) as real / since, |jobs| as real / 2.0)
    decreases |jobs|
  {
    var k := |jobs| - 1;
    if k >= 0 {
      RoundedSum(jobs[..k], amounts[..k], since, g);
      QuotientOfSum(Sum(amounts[..k]), amounts[k], since);
      QuotientOfSum(amounts[k], 0, since);
      RoundRateNearest(amounts[k] as real / since);
    }
  }

  predicate Within(x: nat, y: real, e: real) {
    y - e <= x as real <= y + e
  }

  function Growth(readings: seq<Reading>, prev: seq<nat>, f: Reading -> nat): seq<nat>
    requires |readings| <= |prev|
  {
    seq(|readings|, i requires 0 <= i < |readings| => Sub64(f(readings[i]), prev[i]))
  }

  function Counters(readings: seq<Reading>, f: Reading -> nat): seq<nat> {
    seq(|readings|, i requires 0 <= i < |readings| => f(readings[i]))
  }

  /** TOTAL is the sum of rounded rates, so it is within half an operation (or byte) per
      second and job of the true total rate. */
  lemma TotalRateWithinHalfPerJob(readings: seq<Reading>, prevIops: seq<nat>, prevBytes: seq<nat>,
                                  prevTime: int, start: int, now: int)
    requires WellRead(readings) && |readings| <= |prevIops| && |readings| <= |prevBytes|
    ensures var total := SnapshotOf(readings, prevIops, prevBytes, prevTime, start, now).total;
      var half := |readings| as real / 2.0;
      && Within(total.iopsInstant, Sum(Growth(readings, prevIops, IopsOf)) as real / ElapsedSeconds(prevTime,
         now), half)
      && Within(total.bwInstant, Sum(Growth(readings, prevBytes, BytesOf)) as real / ElapsedSeconds(prevTime,
         now), half)
      && Within(total.iopsCumulative, Sum(Counters(readings, IopsOf)) as real / ElapsedSeconds(start, now), half)
      && Within(total.bwCumulative, Sum(Counters(readings, BytesOf)) as real / ElapsedSeconds(start, now), half)
  {
    var sincePrev, sinceStart := ElapsedSeconds(prevTime, now), ElapsedSeconds(start, now);
    var jobs := JobsOf(readings, prevIops, prevBytes, sincePrev, sinceStart);
    SummedByField(jobs);
    RoundedSum(jobs, Growth(readings, prevIops, IopsOf), sincePrev, (m: Metrics) => m.iopsInstant);
    RoundedSum(jobs, Growth(readings, prevBytes, BytesOf), sincePrev, (m: Metrics) => m.bwInstant);
    RoundedSum(jobs, Counters(readings, IopsOf), sinceStart, (m: Metrics) => m.iopsCumulative);
    RoundedSum(jobs, Counters(readings, BytesOf), sinceStart, (m: Metrics) => m.bwCumulative);
  }

  // ---------------------------------------------------------------------------
  // Rates times windows, sample by sample

  /** The seconds covered by the recorded samples, and rate times window summed over them. */
  ghost function Windows(start: int, samples: seq<Sample>): real {
    if samples == [] then 0.0 else
      var k := |samples| - 1;
      Windows(start, samples[..k]) +
      if samples[k].record then ElapsedSeconds(BasisTime(start, samples[..k]), samples[k].time) else 0.0
  }

  ghost function Integral(start: int, samples: seq<Sample>, i: nat, f: Reading -> nat): real {
    if samples == [] then 0.0 else
      var k := |samples| - 1;
      Integral(start, samples[..k], i, f) +
      if samples[k].record && i < |samples[k].readings| then
        Volume(Sub64(f(samples[k].readings[i]), Basis(samples[..k], i, f)),
               ElapsedSeconds(BasisTime(start, samples[..k]), samples[k].time))
      else 0.0
  }

  function Product(x: real, y: real): real {
    x * y
  }

  /** The reported rate of `d` units in a window, times that window. */
  function Volume(d: nat, window: real): real
    requires window > 0.0
  {
    Product(RoundRate(d as real / window) as real, window)
  }

  lemma RateTimesWindow(d: nat, w: real)
    requires w > 0.0
    ensures -(w / 2.0) <= Volume(d, w) - d as real <= w / 2.0
  {
    hide Product, RoundRate;
    QuotientOfSum(d, 0, w);
    RoundRateNearest(d as real / w);
    ScaledError(RoundRate(d as real / w) as real, d as real / w, w);
    QuotientTimes(d as real, w);
  }

  lemma QuotientTimes(x: real, w: real)
    requires w > 0.0
    ensures Product(x / w, w) == x
  {
  }

  lemma ScaledError(r: real, x: real, w: real)
    requires -0.5 <= r - x <= 0.5 && w > 0.0
    ensures -(w / 2.0) <= Product(r, w) - Product(x, w) <= w / 2.0
  {
    var e := r - x;
    RealProduct(0.5 - e, w);
    RealProduct(e + 0.5, w);
    assert (0.5 - e) * w == 0.5 * w - e * w && (e + 0.5) * w == e * w + 0.5 * w;
    assert e * w == r * w - x * w;
  }

  lemma {:induction false} IntegralNearBasis(n: nat, start: int, samples: seq<Sample>, i: nat, f: Reading -> nat)
    requires Monotone(n, samples) && i < n && IsCounter(f)
    ensures Near(Integral(start, samples, i, f), Basis(samples, i, f), Windows(start, samples) / 2.0)
  {
    hide Volume, ElapsedSeconds;
    if samples != [] {
      var k := |samples| - 1;
      IntegralNearBasis(n, start, samples[..k], i, f);
      NoUnderflow(n, samples, k, i, f);
      RateTimesWindow(Sub64(f(samples[k].readings[i]), Basis(samples[..k], i, f)),
                      ElapsedSeconds(BasisTime(start, samples[..k]), samples[k].time));
    }
  }

  predicate Near(x: real, y: nat, e: real) {
    -e <= x - y as real <= e
  }

  // ---------------------------------------------------------------------------
  // The log of recorded snapshots

  ghost predicate Sampled(n: nat, samples: seq<Sample>) {
    forall k :: 0 <= k < |samples| ==> |samples[k].readings| == n && WellRead(samples[k].readings)
  }

  /** The per-worker basis values as the vectors the aggregator keeps. */
  ghost function BasisSeq(n: nat, samples: seq<Sample>, f: Reading -> nat): (r: seq<nat>)
    ensures |r| == n
  {
    seq(n, i requires 0 <= i < n => Basis(samples, i, f))
  }

  /** What TakeSnapshot returns for a sample taken after `before`. */
  ghost function Taken(n: nat, start: int, before: seq<Sample>, s: Sample): Snapshot
    requires |s.readings| == n && WellRead(s.readings)
  {
    SnapshotOf(s.readings, BasisSeq(n, before, IopsOf), BasisSeq(n, before, BytesOf),
               BasisTime(start, before), start, s.time)
  }

  /** One more pass keeps what the aggregator knows about its basis. */
  lemma SampleAppended(n: nat, start: int, before: seq<Sample>, s: Sample)
    requires Sampled(n, before) && Monotone(n, before) && |s.readings| == n && WellRead(s.readings)
    requires forall i :: 0 <= i < n ==>
      && Last(n, before, i, IopsOf) <= s.readings[i].iops <= U64_MAX
      && Last(n, before, i, BytesOf) <= s.readings[i].bytes <= U64_MAX
    ensures Sampled(n, before + [s]) && Monotone(n, before + [s])
    ensures forall f :: BasisSeq(n, before + [s], f) == if s.record then Counters(s.readings, f)
      else BasisSeq(n, before, f)
    ensures BasisTime(start, before + [s]) == if s.record then s.time else BasisTime(start, before)
    ensures forall i, f :: 0 <= i < n ==> Last(n, before + [s], i, f) == f(s.readings[i])
    ensures Recorded(n, start, before + [s])
            == Recorded(n, start, before) + if s.record then [Taken(n, start, before, s)] else []
  {
    hide Taken;
    assert (before + [s])[..|before|] == before;
  }

  /** The snapshots of the recording samples, oldest first. */
  ghost function Recorded(n: nat, start: int, samples: seq<Sample>): seq<Snapshot>
    requires Sampled(n, samples)
  {
    if samples == [] then [] else
      var k := |samples| - 1;
      Recorded(n, start, samples[..k]) +
      if samples[k].record then [Taken(n, start, samples[..k], samples[k])] else []
  }

  /** The newest `capacity` elements. */
  function Newest<T>(log: seq<T>, capacity: nat): (r: seq<T>)
    ensures |r| == if |log| <= capacity then |log| else capacity
  {
    if |log| <= capacity then log else log[|log| - capacity..]
  }

  // ---------------------------------------------------------------------------
  // The time series integrates to the counters

  function IopsRate(m: Metrics): nat { m.iopsInstant }
  function BwRate(m: Metrics): nat { m.bwInstant }

  function RowTime(start: int, rows: seq<Snapshot>): int {
    if rows == [] then start else rows[|rows| - 1].time
  }

  /** The seconds between the start and the rows, window by window. */
  function RowSeconds(start: int, rows: seq<Snapshot>): real {
    if rows == [] then 0.0 else
      var k := |rows| - 1;
      RowSeconds(start, rows[..k]) + ElapsedSeconds(RowTime(start, rows[..k]), rows[k].time)
  }

  /** What a reader of the rows gets by adding up reported rate times window for one job. */
  function RowIntegral(start: int, rows: seq<Snapshot>, i: nat, rate: Metrics -> nat): real {
    if rows == [] then 0.0 else
      var k := |rows| - 1;
      RowIntegral(start, rows[..k], i, rate) +
      if i < |rows[k].jobs|
      then Product(rate(rows[k].jobs[i]) as real, ElapsedSeconds(RowTime(start, rows[..k]), rows[k].time))
      else 0.0
  }

  lemma TakenRates(n: nat, start: int, before: seq<Sample>, s: Sample, i: nat)
    requires |s.readings| == n && WellRead(s.readings) && i < n
    ensures var row := Taken(n, start, before, s);
      var window := ElapsedSeconds(BasisTime(start, before), s.time);
      && row.time == s.time && |row.jobs| == n
      && Product(row.jobs[i].iopsInstant as real, window)
         == Volume(Sub64(s.readings[i].iops, Basis(before, i, IopsOf)), window)
      && Product(row.jobs[i].bwInstant as real, window)
         == Volume(Sub64(s.readings[i].bytes, Basis(before, i, BytesOf)), window)
  {
    hide Product, RoundRate, Sub64, ElapsedSeconds, Basis, BasisTime, Summed, MergeAll;
  }

  /** The rows carry exactly the windows and rates of the recording samples. */
  lemma {:induction false} RowsOfSamples(n: nat, start: int, samples: seq<Sample>, i: nat)
    requires Sampled(n, samples) && i < n
    ensures var rows := Recorded(n, start, samples);
      && RowTime(start, rows) == BasisTime(start, samples)
      && RowSeconds(start, rows) == Windows(start, samples)
      && RowIntegral(start, rows, i, IopsRate) == Integral(start, samples, i, IopsOf)
      && RowIntegral(start, rows, i, BwRate) == Integral(start, samples, i, BytesOf)
  {
    hide Product, Volume, Taken, ElapsedSeconds;
    if samples != [] {
      var k := |samples| - 1;
      RowsOfSamples(n, start, samples[..k], i);
      if samples[k].record {
        TakenRates(n, start, samples[..k], samples[k], i);
        var rows := Recorded(n, start, samples);
        assert rows[..|rows| - 1] == Recorded(n, start, samples[..k]);
      } else {
        assert Recorded(n, start, samples) == Recorded(n, start, samples[..k]);
      }
    }
  }

  /** Adding up reported rate times window over the recorded rows gives each counter at the
      last row, with an error of at most half a unit per second covered. */
  lemma SeriesIntegratesToCounter(n: nat, start: int, samples: seq<Sample>, i: nat)
    requires Monotone(n, samples) && Sampled(n, samples) && i < n
    ensures var rows := Recorded(n, start, samples);
      && Near(RowIntegral(start, rows, i, IopsRate), Basis(samples, i, IopsOf), RowSeconds(start, rows) / 2.0)
      && Near(RowIntegral(start, rows, i, BwRate), Basis(samples, i, BytesOf), RowSeconds(start, rows) / 2.0)
  {
    hide Recorded, RowTime, RowSeconds, RowIntegral, Basis, Windows, Integral, Monotone;
    RowsOfSamples(n, start, samples, i);
    IntegralNearBasis(n, start, samples, i, IopsOf);
    IntegralNearBasis(n, start, samples, i, BytesOf);
  }

  /** When no two rows share a nanosecond, the windows tile the time from the start to the
      last row. */
  lemma {:induction false} WindowsTile(start: int, rows: seq<Snapshot>)
    requires forall k :: 0 <= k < |rows| ==> RowTime(start, rows[..k]) < rows[k].time
    ensures RowSeconds(start, rows) == (RowTime(start, rows) - start) as real / 1_000_000_000.0
  {
    if rows != [] {
      var last := |rows| - 1;
      forall j | 0 <= j < last ensures RowTime(start, rows[..last][..j]) < rows[..last][j].time {
        assert rows[..last][..j] == rows[..j];
      }
      WindowsTile(start, rows[..last]);
    }
  }

  // ---------------------------------------------------------------------------
  // TOTAL percentiles

  /** Each percentile of the merged counts lies between the smallest and the largest of the
      workers that recorded anything, whenever those counts were read. */
  lemma MergedCountsInterpolate(readings: seq<Reading>, p: real, lo: nat, hi: nat)
    requires WellRead(readings)
    requires exists i :: 0 <= i < |readings| && Histogram.Total(readings[i].counts) > 0
    requires forall i :: 0 <= i < |readings| && Histogram.Total(readings[i].counts) > 0 ==>
               lo <= PercentileOf(readings[i].counts, p) <= hi
    ensures lo <= PercentileOf(MergeAll(64, Parts(readings)), p) <= hi
  {
    TotalOfParts(Parts(readings));
    MergedPercentileAtLeast(64, Parts(readings), p, lo);
    MergedPercentileAtMost(64, Parts(readings), p, hi);
  }

  datatype Quantile = P50 | P95 | P99

  function Fraction(q: Quantile): real {
    match q case P50 => 0.50 case P95 => 0.95 case P99 => 0.99
  }

  function Reported(q: Quantile, m: Metrics): nat {
    match q case P50 => m.p50 case P95 => m.p95 case P99 => m.p99
  }

  /** In a snapshot of workers at rest, such as the last one after the workers were joined,
      every reported TOTAL percentile lies between the smallest and the largest reported
      job percentile of the jobs that recorded anything. */
  lemma TotalPercentilesInterpolate(states: seq<MeterState>, prevIops: seq<nat>, prevBytes: seq<nat>,
                                    prevTime: int, start: int, now: int, q: Quantile, lo: nat, hi: nat)
    requires forall i :: 0 <= i < |states| ==> |states[i].counts| == 64
    requires |states| <= |prevIops| && |states| <= |prevBytes|
    requires exists i :: 0 <= i < |states| && Histogram.Total(states[i].counts) > 0
    requires var s := SnapshotOf(AllAtRest(states), prevIops, prevBytes, prevTime, start, now);
      forall i :: 0 <= i < |states| && Histogram.Total(states[i].counts) > 0 ==> lo <= Reported(q, s.jobs[i]) <= hi
    ensures var s := SnapshotOf(AllAtRest(states), prevIops, prevBytes, prevTime, start, now);
      lo <= Reported(q, s.total) <= hi
  {
    hide MergeAll, PercentileOf, Summed, ElapsedSeconds, RoundRate, Sub64;
    var readings := AllAtRest(states);
    var s := SnapshotOf(readings, prevIops, prevBytes, prevTime, start, now);
    forall i | 0 <= i < |readings| && Histogram.Total(readings[i].counts) > 0
      ensures lo <= PercentileOf(readings[i].counts, Fraction(q)) <= hi
    {
      assert Reported(q, s.jobs[i]) == PercentileOf(readings[i].counts, Fraction(q));
    }
    var i :| 0 <= i < |states| && Histogram.Total(states[i].counts) > 0;
    assert Histogram.Total(readings[i].counts) > 0;
    MergedCountsInterpolate(readings, Fraction(q), lo, hi);
  }

  function AllAtRest(states: seq<MeterState>): (r: seq<Reading>)
    ensures |r| == |states| && forall i :: 0 <= i < |r| ==> r[i] == AtRest(states[i])
  {
    seq(|states|, i requires 0 <= i < |states| => AtRest(states[i]))
  }

  lemma {:induction false} TotalOfParts(parts: seq<seq<nat>>)
    requires forall i :: 0 <= i < |parts| ==> |parts[i]| == 64
    ensures forall i :: 0 <= i < |parts| ==> Histogram.Total(parts[i]) <= Histogram.Total(MergeAll(64, parts))
    decreases |parts|
  {
    var k := |parts| - 1;
    if k >= 0 {
      TotalOfParts(parts[..k]);
      CumAdded(MergeAll(64, parts[..k]), parts[k], 64);
      forall i | 0 <= i < |parts|
        ensures Histogram.Total(parts[i]) <= Histogram.Total(MergeAll(64, parts))
      {
        if i < k {
          assert parts[i] == parts[..k][i];
        }
      }
    }
  }

  /** The latencies reported for a job are ordered. */
  lemma ReportedLatenciesAreOrdered(counts: seq<nat>)
    requires |counts| <= 64
    ensures MinOf(counts) <= PercentileOf(counts, 0.50) <= PercentileOf(counts, 0.95)
    ensures PercentileOf(counts, 0.95) <= PercentileOf(counts, 0.99) <= MaxOf(counts)
  {
    PercentileBetweenMinAndMax(counts, 0.50);
    PercentileBetweenMinAndMax(counts, 0.99);
    PercentileMonotone(counts, 0.50, 0.95);
    PercentileMonotone(counts, 0.95, 0.99);
  }
}
