/** src/telemetry/metrics_aggregator.cpp: reads the workers' counters while they run,
    takes differences, and keeps the recorded snapshots in a ring.

    A Meter is what the aggregator sees of a worker. Before every load the worker may
    have done any amount of work, unless its thread has ended. */
module Aggregator {
  import opened Types
  import opened Histogram
  import opened Series
  import opened Arithmetic
  import Kernel

  const TICKS_PER_RECORD := 2
  const MIN_FINAL_RECORD_SECONDS := 0.5

  const NO_SNAPSHOT := Snapshot(0, 0.0, [], NO_METRICS)

  /** Every second tick records. */
  predicate Records(tick: nat) {
    tick % TICKS_PER_RECORD == 0
  }

  lemma HalfASecond(begin: int, end: int)
    ensures ElapsedSeconds(begin, end) >= MIN_FINAL_RECORD_SECONDS <==> end - begin >= 500_000_000
  {
  }

  lemma EverySecondTick(tick: nat)
    ensures Records(tick) <==> tick % 2 == 0
  {
  }

  class Meter {
    var iops: nat
    var bytes: nat
    var readErrors: nat
    var writeErrors: nat
    const hist: Log2Histogram
    var ended: bool

    constructor ()
      ensures Valid() && fresh(hist) && fresh(hist.buckets) && !ended
      ensures iops == bytes == readErrors == writeErrors == 0 && hist.values == []
    {
      iops, bytes, readErrors, writeErrors := 0, 0, 0, 0;
      hist := new Log2Histogram(64);
      ended := false;
    }

    ghost predicate Valid()
      reads this, hist, hist.buckets
    {
      hist.Valid() && hist.n == 64 && iops <= U64_MAX && bytes <= U64_MAX
    }

    ghost function State(): MeterState
      reads this, hist, hist.buckets
    {
      MeterState(iops, bytes, readErrors, writeErrors, hist.buckets[..], ended)
    }

    /** Anything the worker does between two loads of the aggregator. */
    method Works()
      requires Valid()
      modifies this`iops, this`bytes, this`readErrors, this`writeErrors, hist`values, hist.buckets
      ensures Valid() && Later(old(State()), State())
    {
      if !ended {
        var operations: int := *;
        var transferred: int := *;
        var readFailures: int := *;
        var writeFailures: int := *;
        if operations >= 0 && iops + operations <= U64_MAX { iops := iops + operations; }
        if transferred >= 0 && bytes + transferred <= U64_MAX { bytes := bytes + transferred; }
        if readFailures >= 0 { readErrors := readErrors + readFailures; }
        if writeFailures >= 0 { writeErrors := writeErrors + writeFailures; }
        hist.OtherThreadRecords();
      }
    }

    method Percentile(p: real) returns (r: nat)
      requires Valid()
      modifies hist`values, hist.buckets
      ensures Valid() && Later(old(State()), State())
      ensures QuantileDuring(old(hist.buckets[..]), p, r, hist.buckets[..])
    {
      if ended {
        r := hist.Percentile(p);
        QuietQuantile(hist.buckets[..], p, r);
      } else {
        ghost var seen;
        r, seen := hist.RacingPercentile(p);
      }
    }

    method MergeInto(global: Log2Histogram) returns (seen: seq<nat>)
      requires Valid() && global.Valid() && global.n == 64 && global != hist && global.buckets != hist.buckets
      modifies global`values, global.buckets, hist`values, hist.buckets
      ensures Valid() && Later(old(State()), State()) && global.Valid()
      ensures Pointwise(old(hist.buckets[..]), seen) && Pointwise(seen, hist.buckets[..])
      ensures global.buckets[..] == Added(old(global.buckets[..]), seen)
    {
      if ended {
        seen := hist.buckets[..];
        global.Merge(hist);
      } else {
        seen := global.RacingMerge(hist);
      }
    }

    /** The loads of one worker, in the order of the source. */
    method Read(global: Log2Histogram) returns (r: Reading)
      requires Valid() && global.Valid() && global.n == 64 && global != hist && global.buckets != hist.buckets
      modifies this`iops, this`bytes, this`readErrors, this`writeErrors, hist`values, hist.buckets
      modifies global`values, global.buckets
      ensures Valid() && global.Valid() && ReadDuring(old(State()), r, State())
      ensures |r.counts| == 64 && global.buckets[..] == Added(old(global.buckets[..]), r.counts)
    {
      hide Later, Pointwise, QuantileDuring, ReadDuring, HistOf;
      ghost var s0 := State();
      Works();
      var curIops := iops;
      ghost var s1 := State();
      Works();
      var curBytes := bytes;
      ghost var s2 := State();
      var p50, p95, p99 := Percentiles();
      ghost var s3 := State();
      Works();
      var curReadErrors := readErrors;
      ghost var s4 := State();
      Works();
      var curWriteErrors := writeErrors;
      ghost var s5 := State();
      var seen := MergeInto(global);
      r := Reading(curIops, curBytes, curReadErrors, curWriteErrors, p50, p95, p99, seen);
      LoadsMakeReading(s0, s1, s2, s3, s4, s5, State(), r);
    }

    method Percentiles() returns (p50: nat, p95: nat, p99: nat)
      requires Valid()
      modifies hist`values, hist.buckets
      ensures Valid() && Later(old(State()), State())
      ensures QuantileDuring(old(hist.buckets[..]), 0.50, p50, hist.buckets[..])
      ensures QuantileDuring(old(hist.buckets[..]), 0.95, p95, hist.buckets[..])
      ensures QuantileDuring(old(hist.buckets[..]), 0.99, p99, hist.buckets[..])
    {
      hide QuantileDuring, HistOf;
      ghost var h0 := hist.buckets[..];
      p50 := Percentile(0.50);
      ghost var h1 := hist.buckets[..];
      p95 := Percentile(0.95);
      ghost var h2 := hist.buckets[..];
      p99 := Percentile(0.99);
      ghost var h3 := hist.buckets[..];
      QuantileWidens(h0, h0, 0.50, p50, h1, h3);
      QuantileWidens(h0, h1, 0.95, p95, h2, h3);
      QuantileWidens(h0, h2, 0.99, p99, h3, h3);
    }
  }

  /** Loads at successive states of a worker make a reading of the whole time. */
  lemma LoadsMakeReading(s0: MeterState, s1: MeterState, s2: MeterState, s3: MeterState,
                         s4: MeterState, s5: MeterState, s6: MeterState, r: Reading)
    requires Later(s0, s1) && Later(s1, s2) && Later(s2, s3) && Later(s3, s4) && Later(s4, s5) && Later(s5, s6)
    requires r.iops == s1.iops && r.bytes == s2.bytes && r.readErrors == s4.readErrors
      && r.writeErrors == s5.writeErrors
    requires QuantileDuring(s2.counts, 0.50, r.p50, s3.counts)
    requires QuantileDuring(s2.counts, 0.95, r.p95, s3.counts)
    requires QuantileDuring(s2.counts, 0.99, r.p99, s3.counts)
    requires Pointwise(s5.counts, r.counts) && Pointwise(r.counts, s6.counts)
    ensures ReadDuring(s0, r, s6)
  {
    hide QuantileDuring, PercentileOf;
    LaterTransitive(s0, s1, s2);
    LaterTransitive(s3, s4, s5);
    LaterTransitive(s3, s5, s6);
    QuantilesWiden(s0, s2, r, s3, s6);
    if s6.ended {
      assert s0 == s6 && r.counts == s6.counts;
    }
  }

  /** Percentiles read in the middle of a pass are answers for the whole pass. */
  lemma QuantilesWiden(a: MeterState, mid: MeterState, r: Reading, mid': MeterState, b: MeterState)
    requires Later(a, mid) && Later(mid, mid') && Later(mid', b)
    requires QuantileDuring(mid.counts, 0.50, r.p50, mid'.counts)
    requires QuantileDuring(mid.counts, 0.95, r.p95, mid'.counts)
    requires QuantileDuring(mid.counts, 0.99, r.p99, mid'.counts)
    ensures QuantileDuring(a.counts, 0.50, r.p50, b.counts)
    ensures QuantileDuring(a.counts, 0.95, r.p95, b.counts)
    ensures QuantileDuring(a.counts, 0.99, r.p99, b.counts)
    ensures b.ended ==>
      && r.p50 == PercentileOf(b.counts, 0.50) && r.p95 == PercentileOf(b.counts, 0.95)
      && r.p99 == PercentileOf(b.counts, 0.99)
  {
    hide QuantileDuring;
    QuantileWidens(a.counts, mid.counts, 0.50, r.p50, mid'.counts, b.counts);
    QuantileWidens(a.counts, mid.counts, 0.95, r.p95, mid'.counts, b.counts);
    QuantileWidens(a.counts, mid.counts, 0.99, r.p99, mid'.counts, b.counts);
    if b.ended {
      QuietQuantile(b.counts, 0.50, r.p50);
      QuietQuantile(b.counts, 0.95, r.p95);
      QuietQuantile(b.counts, 0.99, r.p99);
    }
  }

  datatype JobResults = JobResults(
    iopsAvg: nat, bwAvg: nat, latMin: nat, latMax: nat, p50: nat, p95: nat, p99: nat,
    totalIos: nat, totalBytes: nat, readErrors: nat, writeErrors: nat)

  ghost predicate NotBehind(samples: seq<Sample>, states: seq<MeterState>) {
    var n := |states|;
    forall i :: 0 <= i < n ==>
      Last(n, samples, i, IopsOf) <= states[i].iops && Last(n, samples, i, BytesOf) <= states[i].bytes
  }

  /** A pass over all workers. */
  ghost predicate PassedOver(before: seq<MeterState>, readings: seq<Reading>, after: seq<MeterState>) {
    && |before| == |after| && |readings| <= |after|
    && (forall k :: 0 <= k < |readings| ==> ReadDuring(before[k], readings[k], after[k]))
    && (forall k :: 0 <= k < |after| ==> Later(before[k], after[k]))
  }

  class MetricsAggregator {
    const os: Kernel.System
    const workers: seq<Meter>
    const tsCapacity: nat
    const timeSeries: array<Snapshot>
    var tsWriteIndex: nat
    var tsCount: nat
    var prevIops: seq<nat>
    var prevBytes: seq<nat>
    var startTime: int
    var prevSampleTime: int
    var endTime: int
    var stopped: bool
    var latest: Snapshot
    ghost var samples: seq<Sample>   // every pass so far
    ghost var log: seq<Snapshot>     // everything RecordTimeSeries was given

    ghost function Hists(): set<Log2Histogram> {
      set m | m in workers :: m.hist
    }

    ghost function Buckets(): set<array<nat>> {
      set m | m in workers :: m.hist.buckets
    }

    /** Workers share nothing. */
    ghost predicate Apart() {
      forall i, j :: 0 <= i < j < |workers| ==>
        && workers[i] != workers[j] && workers[i].hist != workers[j].hist
        && workers[i].hist.buckets != workers[j].hist.buckets
    }

    ghost predicate AllValid()
      reads workers, Hists(), Buckets()
    {
      Apart() && forall i :: 0 <= i < |workers| ==> workers[i].Valid()
    }

    ghost function States(): (r: seq<MeterState>)
      reads workers, Hists(), Buckets()
      ensures |r| == |workers| && forall i :: 0 <= i < |r| ==> r[i] == workers[i].State()
    {
      seq(|workers|, i requires 0 <= i < |workers| reads workers, Hists(), Buckets() => workers[i].State())
    }

    lemma InRange()
      requires AllValid()
      ensures forall i :: 0 <= i < |workers| ==> States()[i].iops <= U64_MAX && States()[i].bytes <= U64_MAX
      ensures forall i :: 0 <= i < |workers| ==> |States()[i].counts| == 64
    {
    }

    /** The basis vectors describe the newest recording sample, and no counter is behind
        what was last read from it. */
    ghost predicate Sampling()
      reads this, workers, Hists(), Buckets()
    {
      var n := |workers|;
      && AllValid()
      && Sampled(n, samples) && Monotone(n, samples)
      && prevIops == BasisSeq(n, samples, IopsOf) && prevBytes == BasisSeq(n, samples, BytesOf)
      && prevSampleTime == BasisTime(startTime, samples)
      && NotBehind(samples, States())
    }

    ghost predicate Ring()
      reads this, timeSeries
    {
      && tsCapacity >= 1 && timeSeries.Length == tsCapacity
      && tsCount == |log| && tsWriteIndex == |log| % tsCapacity
      && (forall k :: 0 <= k < |log| && |log| - tsCapacity <= k ==> timeSeries[k % tsCapacity] == log[k])
    }

    ghost predicate Valid()
      reads this, timeSeries, workers, Hists(), Buckets()
    {
      Sampling() && Ring() && log == Recorded(|workers|, startTime, samples)
    }

    constructor (os: Kernel.System, workers: seq<Meter>, runtimeSeconds: int)
      requires forall i :: 0 <= i < |workers| ==> workers[i].Valid()
      requires forall i, j :: 0 <= i < j < |workers| ==>
                 && workers[i] != workers[j] && workers[i].hist != workers[j].hist
                 && workers[i].hist.buckets != workers[j].hist.buckets
      ensures Valid() && this.workers == workers && fresh(timeSeries) && this.os == os
      ensures samples == [] && log == [] && tsCapacity == if runtimeSeconds < 1 then 1 else runtimeSeconds
    {
      this.os, this.workers := os, workers;
      var capacity := if runtimeSeconds < 1 then 1 else runtimeSeconds;
      tsCapacity := capacity;
      timeSeries := new Snapshot[capacity](_ => NO_SNAPSHOT);
      tsWriteIndex, tsCount := 0, 0;
      prevIops, prevBytes := seq(|workers|, _ => 0), seq(|workers|, _ => 0);
      startTime, prevSampleTime, endTime := 0, 0, 0;
      stopped, latest := false, NO_SNAPSHOT;
      samples, log := [], [];
    }

    /** The clock part of Start; the sampling thread is Run. */
    method Start()
      requires Valid() && samples == []
      modifies os, this`startTime, this`prevSampleTime
      ensures Valid() && prevSampleTime == startTime && os.journal == old(os.journal) + [Kernel.Clock(startTime)]
    {
      var now := os.Now();
      startTime, prevSampleTime := now, now;
    }

    method Stop()
      requires Valid()
      modifies os, this`endTime, this`stopped
      ensures Valid() && stopped && (old(stopped) ==> endTime == old(endTime))
      ensures os.journal == old(os.journal) + if old(stopped) then [] else [Kernel.Clock(endTime)]
    {
      if stopped {
        return;
      }
      endTime := os.Now();
      stopped := true;
    }

    method RecordTimeSeries(snapshot: Snapshot)
      requires Ring()
      modifies this`tsWriteIndex, this`tsCount, this`log, timeSeries
      ensures Ring() && log == old(log) + [snapshot]
    {
      forall k | |log| - tsCapacity < k < |log| && 0 <= k ensures k % tsCapacity != |log| % tsCapacity {
        RemaindersDiffer(k, |log|, tsCapacity);
      }
      NextRemainder(|log|, tsCapacity);
      timeSeries[tsWriteIndex] := snapshot;
      tsWriteIndex := (tsWriteIndex + 1) % tsCapacity;
      tsCount := tsCount + 1;
      log := log + [snapshot];
    }

    /** The ring is exactly the newest `tsCapacity` recorded snapshots, oldest first. */
    method TimeSeries() returns (result: seq<Snapshot>)
      requires Ring()
      ensures result == Newest(log, tsCapacity)
    {
      result := [];
      if tsCount == 0 {
        return;
      }
      if tsCount <= tsCapacity {
        for i := 0 to tsCount
          invariant result == log[..i]
        {
          SmallRemainder(i, tsCapacity);
          result := result + [timeSeries[i]];
        }
        return;
      }
      var oldest := tsCount - tsCapacity;
      for k := 0 to tsCapacity
        invariant result == log[oldest..oldest + k]
      {
        var idx := (tsWriteIndex + k) % tsCapacity;
        WrappedRemainder(|log|, k, tsCapacity);
        assert timeSeries[(oldest + k) % tsCapacity] == log[oldest + k];
        result := result + [timeSeries[idx]];
      }
    }

    /** Reading one worker leaves the others alone. */
    method ReadWorker(i: nat, global: Log2Histogram) returns (r: Reading)
      requires i < |workers| && AllValid() && Global(global)
      modifies workers, Hists(), Buckets(), global`values, global.buckets
      ensures AllValid() && Global(global)
      ensures States() == old(States())[i := States()[i]]
      ensures ReadDuring(old(States())[i], r, States()[i])
      ensures |r.counts| == 64 && global.buckets[..] == Added(old(global.buckets[..]), r.counts)
    {
      hide ReadDuring, PercentileOf, HistOf;
      r := workers[i].Read(global);
    }

    /** A histogram of the aggregator's own. */
    ghost predicate Global(global: Log2Histogram)
      reads global, global.buckets
    {
      && global.Valid() && global.n == 64
      && forall k :: 0 <= k < |workers| ==> global != workers[k].hist && global.buckets != workers[k].hist.buckets
    }

    /** The loop of TakeSnapshot over the workers. */
    method Pass(record: bool, sincePrev: real, sinceStart: real, global: Log2Histogram)
      returns (jobs: seq<Metrics>, aggregate: Metrics, ghost readings: seq<Reading>)
      requires AllValid() && Global(global) && global.buckets[..] == MergeAll(64, [])
      requires |prevIops| == |prevBytes| == |workers| && sincePrev > 0.0 && sinceStart > 0.0
      modifies workers, Hists(), Buckets(), this`prevIops, this`prevBytes, global`values, global.buckets
      ensures AllValid() && Global(global) && |readings| == |workers| && WellRead(readings)
      ensures PassedOver(old(States()), readings, States())
      ensures jobs == JobsOf(readings, old(prevIops), old(prevBytes), sincePrev, sinceStart)
      ensures aggregate == Summed(jobs)
      ensures global.buckets[..] == MergeAll(64, Parts(readings))
      ensures prevIops == if record then Counters(readings, IopsOf) else old(prevIops)
      ensures prevBytes == if record then Counters(readings, BytesOf) else old(prevBytes)
    {
      hide JobOf, JobsOf, Plus, Summed, Parts, MergeAll, Advanced, PercentileOf;
      hide ReadDuring, PassedOver, AllValid, Global;
      aggregate, jobs, readings := NO_METRICS, [], [];
      NothingRead(record, prevIops, prevBytes, sincePrev, sinceStart);
      NothingPassed(States());
      for i := 0 to |workers|
        invariant AllValid() && Global(global) && |readings| == |jobs| == i && WellRead(readings)
        invariant PassedOver(old(States()), readings, States())
        invariant global.buckets[..] == MergeAll(64, Parts(readings))
        invariant jobs == JobsOf(readings, old(prevIops), old(prevBytes), sincePrev, sinceStart)
        invariant aggregate == Summed(jobs)
        invariant prevIops == Advanced(record, readings, IopsOf, old(prevIops))
        invariant prevBytes == Advanced(record, readings, BytesOf, old(prevBytes))
      {
        ghost var between := States();
        var r := ReadWorker(i, global);
        ghost var after := States();
        OneMorePassed(old(States()), readings, between, r, after);
        ReadOneMore(record, readings, r, old(prevIops), old(prevBytes), sincePrev, sinceStart);
        var metrics := JobOf(r, prevIops[i], prevBytes[i], sincePrev, sinceStart);
        aggregate := Plus(aggregate, metrics);
        jobs := jobs + [metrics];
        readings := readings + [r];
        if record {
          prevIops, prevBytes := prevIops[i := r.iops], prevBytes[i := r.bytes];
        }
        assert States() == after;
      }
      EveryoneRead(record, readings, old(prevIops), old(prevBytes));
    }

    method TakeSnapshot(record: bool) returns (snapshot: Snapshot, ghost sample: Sample)
      requires Sampling()
      modifies os, workers, Hists(), Buckets()
      modifies this`prevIops, this`prevBytes, this`prevSampleTime, this`samples
      ensures Sampling() && samples == old(samples) + [sample]
      ensures os.journal == old(os.journal) + [Kernel.Clock(snapshot.time)] && sample.time == snapshot.time
      ensures sample.record == record && |sample.readings| == |workers| && WellRead(sample.readings)
      ensures snapshot == Taken(|workers|, startTime, old(samples), sample)
      ensures Recorded(|workers|, startTime, samples)
              == old(Recorded(|workers|, startTime, samples)) + if record then [snapshot] else []
      ensures PassedOver(old(States()), sample.readings, States())
    {
      hide Monotone, Sampled, BasisSeq, BasisTime, NotBehind, PassedOver, AllValid, WellRead;
      hide PercentileOf, MergeAll, Parts, Summed, JobsOf, ElapsedSeconds, Recorded, Counters;
      var now := os.Now();
      var sinceStart := ElapsedSeconds(startTime, now);
      var sincePrev := ElapsedSeconds(prevSampleTime, now);
      ghost var before := States();
      var jobs, aggregate;
      ghost var readings;
      jobs, aggregate, readings := PassAll(record, sincePrev, sinceStart);
      ghost var after := States();
      InRange();
      snapshot := Snapshot(now, sinceStart, jobs, aggregate);
      sample := Sample(record, now, readings);
      MoveBasisTime(record, now, sample);
      PassIsASample(|workers|, startTime, old(samples), before, sample, after);
    }

    /** The pass with the global histogram around it. */
    method PassAll(record: bool, sincePrev: real, sinceStart: real)
      returns (jobs: seq<Metrics>, aggregate: Metrics, ghost readings: seq<Reading>)
      requires AllValid() && |prevIops| == |prevBytes| == |workers| && sincePrev > 0.0 && sinceStart > 0.0
      modifies workers, Hists(), Buckets(), this`prevIops, this`prevBytes
      ensures AllValid() && |readings| == |workers| && WellRead(readings)
      ensures PassedOver(old(States()), readings, States())
      ensures jobs == JobsOf(readings, old(prevIops), old(prevBytes), sincePrev, sinceStart)
      ensures aggregate == WithPercentiles(Summed(jobs), MergeAll(64, Parts(readings)))
      ensures prevIops == if record then Counters(readings, IopsOf) else old(prevIops)
      ensures prevBytes == if record then Counters(readings, BytesOf) else old(prevBytes)
    {
      hide PassedOver, AllValid, WellRead, PercentileOf, MergeAll, Parts, Summed, JobsOf;
      ghost var before := States();
      var global := new Log2Histogram(64);
      EmptyMerge(64);
      assert AllValid() && States() == before;
      jobs, aggregate, readings := Pass(record, sincePrev, sinceStart, global);
      ghost var after := States();
      var p50, p95, p99 := Percentiles(global);
      aggregate := aggregate.(p50 := p50, p95 := p95, p99 := p99);
      assert AllValid() && States() == after;
    }

    method Percentiles(global: Log2Histogram) returns (p50: nat, p95: nat, p99: nat)
      requires global.Valid()
      ensures p50 == PercentileOf(global.buckets[..], 0.50)
      ensures p95 == PercentileOf(global.buckets[..], 0.95)
      ensures p99 == PercentileOf(global.buckets[..], 0.99)
    {
      p50 := global.Percentile(0.50);
      p95 := global.Percentile(0.95);
      p99 := global.Percentile(0.99);
    }

    method MoveBasisTime(record: bool, now: int, ghost sample: Sample)
      requires AllValid()
      modifies this`prevSampleTime, this`samples
      ensures AllValid() && States() == old(States()) && samples == old(samples) + [sample]
      ensures prevSampleTime == if record then now else old(prevSampleTime)
    {
      if record {
        prevSampleTime := now;
      }
      samples := samples + [sample];
    }

    /** One tick of the sampling thread, and the tail of TakeFinalSnapshot: the snapshot
        becomes the latest one and, if it records, the next row of the time series. */
    method Publish(record: bool) returns (ghost sample: Sample)
      requires Valid()
      modifies os, workers, Hists(), Buckets(), timeSeries
      modifies this`prevIops, this`prevBytes, this`prevSampleTime, this`samples
      modifies this`tsWriteIndex, this`tsCount, this`log, this`latest
      ensures Valid() && samples == old(samples) + [sample] && sample.record == record
      ensures os.journal == old(os.journal) + [Kernel.Clock(sample.time)]
      ensures |sample.readings| == |workers| && WellRead(sample.readings)
      ensures latest == Taken(|workers|, startTime, old(samples), sample)
      ensures PassedOver(old(States()), sample.readings, States())
    {
      hide NotBehind, Monotone, BasisSeq, AllValid, PassedOver, Recorded, Taken, Sampling;
      var snapshot;
      snapshot, sample := TakeSnapshot(record);
      Keep(record, snapshot);
    }

    method Keep(record: bool, snapshot: Snapshot)
      requires Sampling() && Ring()
      requires Recorded(|workers|, startTime, samples) == log + if record then [snapshot] else []
      modifies this`tsWriteIndex, this`tsCount, this`log, this`latest, timeSeries
      ensures Valid() && latest == snapshot && States() == old(States())
    {
      hide NotBehind, Monotone, BasisSeq, Recorded;
      latest := snapshot;
      if record {
        RecordTimeSeries(snapshot);
      } else {
        assert log + [] == log;
      }
      assert AllValid() && States() == old(States());
      assert NotBehind(samples, States());
    }

    /** The sampling thread, stopped by the flag or a stop request after `ticks` ticks. */
    method Run(ticks: nat)
      requires Valid()
      modifies os, workers, Hists(), Buckets(), timeSeries
      modifies this`prevIops, this`prevBytes, this`prevSampleTime, this`samples
      modifies this`tsWriteIndex, this`tsCount, this`log, this`latest
      ensures Valid() && |samples| == |old(samples)| + ticks && old(samples) <= samples
      ensures forall k :: |old(samples)| <= k < |samples| ==>
        (samples[k].record <==> (k - |old(samples)| + 1) % 2 == 0)
    {
      hide Valid, Records, WellRead, PassedOver, Taken;
      var tick := 0;
      while tick < ticks
        invariant tick <= ticks && Valid() && |samples| == |old(samples)| + tick && old(samples) <= samples
        invariant forall k :: |old(samples)| <= k < |samples| ==>
          (samples[k].record <==> Records(k - |old(samples)| + 1))
      {
        tick := tick + 1;
        ghost var sample := Publish(Records(tick));
      }
      forall k | |old(samples)| <= k < |samples|
        ensures samples[k].record <==> (k - |old(samples)| + 1) % 2 == 0
      {
        EverySecondTick(k - |old(samples)| + 1);
      }
    }

    /** The last snapshot records exactly when at least half a second, half a record interval,
        has passed since the last row by a clock reading after the stop. */
    method TakeFinalSnapshot() returns (ghost at: int)
      requires Valid()
      modifies os, workers, Hists(), Buckets(), timeSeries
      modifies this`prevIops, this`prevBytes, this`prevSampleTime, this`samples
      modifies this`tsWriteIndex, this`tsCount, this`log, this`latest, this`endTime, this`stopped
      ensures Valid() && stopped && |samples| == |old(samples)| + 1 && old(samples) <= samples
      ensures os.journal == old(os.journal) + (if old(stopped) then [] else [Kernel.Clock(endTime)])
                            + [Kernel.Clock(at), Kernel.Clock(samples[|old(samples)|].time)]
      ensures samples[|old(samples)|].record <==> at - old(prevSampleTime) >= 500_000_000
      ensures forall i :: 0 <= i < |workers| && States()[i].ended ==>
        i < |samples[|old(samples)|].readings| && samples[|old(samples)|].readings[i] == AtRest(States()[i])
    {
      hide Valid, AtRest, PassedOver, Taken, WellRead;
      var record;
      record, at := StopAndDecide();
      ghost var before := States();
      ghost var sample := Publish(record);
      EndedAtRest(before, sample.readings, States());
      assert samples[|old(samples)|] == sample;
    }

    method StopAndDecide() returns (record: bool, ghost at: int)
      requires Valid()
      modifies os, this`endTime, this`stopped
      ensures Valid() && stopped && States() == old(States())
      ensures var before := old(os.journal) + (if old(stopped) then [] else [Kernel.Clock(endTime)]);
        os.journal == before + [Kernel.Clock(at)]
      ensures record <==> at - prevSampleTime >= 500_000_000
    {
      hide ElapsedSeconds;
      Stop();
      var now := os.Now();
      at := now;
      record := ElapsedSeconds(prevSampleTime, now) >= MIN_FINAL_RECORD_SECONDS;
      HalfASecond(prevSampleTime, now);
      assert AllValid() && States() == old(States());
    }

    /** At any time: the recorded differences and the open one add up to the counter. */
    lemma CountersAreConserved(i: nat)
      requires Valid() && i < |workers|
      ensures RecordedDeltas(samples, i, IopsOf) + Sub64(States()[i].iops, prevIops[i]) == States()[i].iops
      ensures RecordedDeltas(samples, i, BytesOf) + Sub64(States()[i].bytes, prevBytes[i]) == States()[i].bytes
      ensures prevIops[i] <= States()[i].iops && prevBytes[i] <= States()[i].bytes
    {
      InRange();
      DifferencesTelescope(|workers|, samples, i, IopsOf, States()[i].iops);
      DifferencesTelescope(|workers|, samples, i, BytesOf, States()[i].bytes);
      BasisAtMostLast(|workers|, samples, i, IopsOf);
      BasisAtMostLast(|workers|, samples, i, BytesOf);
    }

    /** The final report, built after the workers have been joined. */
    method BuildResults() returns (elapsed: real, jobs: seq<JobResults>, series: seq<Snapshot>)
      requires Valid() && forall i :: 0 <= i < |workers| ==> workers[i].ended
      modifies os
      ensures elapsed > 0.0
      ensures endTime > startTime ==>
        elapsed == (endTime - startTime) as real / 1_000_000_000.0 && os.journal == old(os.journal)
      ensures |jobs| == |workers| && forall i :: 0 <= i < |jobs| ==> Reports(jobs[i], States()[i], elapsed)
      ensures series == Newest(Recorded(|workers|, startTime, samples), tsCapacity)
    {
      hide Valid, Recorded, Reports, ElapsedSeconds;
      var end := EndOfRun();
      elapsed := ElapsedSeconds(startTime, end);
      InNanoseconds(startTime, end);
      series := ReportSeries();
      jobs := ReportJobs(elapsed);
    }

    /** The time of Stop, or of now if that was never taken. */
    method EndOfRun() returns (end: int)
      requires Valid()
      modifies os
      ensures Valid() && States() == old(States()) && log == old(log)
      ensures endTime > startTime ==> end == endTime && os.journal == old(os.journal)
      ensures endTime <= startTime ==> os.journal == old(os.journal) + [Kernel.Clock(end)]
    {
      end := endTime;
      if end <= startTime {
        end := os.Now();
      }
    }

    method ReportSeries() returns (series: seq<Snapshot>)
      requires Valid()
      ensures series == Newest(Recorded(|workers|, startTime, samples), tsCapacity) && Valid()
      ensures forall i :: 0 <= i < |workers| ==> workers[i].ended == old(workers[i].ended)
    {
      hide Monotone, Sampled, BasisSeq, NotBehind, Recorded;
      series := TimeSeries();
      assert AllValid() && States() == old(States());
      assert NotBehind(samples, States());
    }

    method ReportJobs(elapsed: real) returns (jobs: seq<JobResults>)
      requires elapsed > 0.0 && Valid() && forall i :: 0 <= i < |workers| ==> workers[i].ended
      ensures |jobs| == |workers| && forall i :: 0 <= i < |jobs| ==> Reports(jobs[i], States()[i], elapsed)
    {
      hide PercentileOf, MinOf, MaxOf, Reports;
      jobs := [];
      for i := 0 to |workers|
        invariant |jobs| == i && forall k :: 0 <= k < i ==> Reports(jobs[k], States()[k], elapsed)
      {
        var w := workers[i];
        var latMin := w.hist.MinValue();
        var latMax := w.hist.MaxValue();
        var p50 := w.hist.Percentile(0.50);
        var p95 := w.hist.Percentile(0.95);
        var p99 := w.hist.Percentile(0.99);
        var job := JobResults(
          RoundRate(w.iops as real / elapsed), RoundRate(w.bytes as real / elapsed),
          latMin, latMax, p50, p95, p99, w.iops, w.bytes, w.readErrors, w.writeErrors);
        ItReports(job, w.State(), elapsed);
        jobs := jobs + [job];
      }
    }
  }

  lemma InNanoseconds(begin: int, end: int)
    ensures ElapsedSeconds(begin, end) > 0.0
    ensures end > begin ==> ElapsedSeconds(begin, end) == (end - begin) as real / 1_000_000_000.0
  {
  }

  /** A report of a worker at rest, field by field. */
  ghost predicate Reports(j: JobResults, w: MeterState, elapsed: real)
    requires elapsed > 0.0
  {
    && Rounds(j.iopsAvg, w.iops as real / elapsed)
    && Rounds(j.bwAvg, w.bytes as real / elapsed)
    && j.latMin == MinOf(w.counts) && j.latMax == MaxOf(w.counts)
    && j.p50 == PercentileOf(w.counts, 0.50)
    && j.p95 == PercentileOf(w.counts, 0.95)
    && j.p99 == PercentileOf(w.counts, 0.99)
    && j.totalIos == w.iops && j.totalBytes == w.bytes
    && j.readErrors == w.readErrors && j.writeErrors == w.writeErrors
  }

  lemma ItReports(j: JobResults, w: MeterState, elapsed: real)
    requires elapsed > 0.0
    requires j == JobResults(
      RoundRate(w.iops as real / elapsed), RoundRate(w.bytes as real / elapsed),
      MinOf(w.counts), MaxOf(w.counts),
      PercentileOf(w.counts, 0.50), PercentileOf(w.counts, 0.95), PercentileOf(w.counts, 0.99),
      w.iops, w.bytes, w.readErrors, w.writeErrors)
    ensures Reports(j, w, elapsed)
  {
    hide MinOf, MaxOf, PercentileOf, RoundRate;
    QuotientOfSum(w.iops, 0, elapsed);
    QuotientOfSum(w.bytes, 0, elapsed);
    RoundRateNearest(w.iops as real / elapsed);
    RoundRateNearest(w.bytes as real / elapsed);
  }

  /** The latencies of a report against the sorted list of what the worker recorded. */
  lemma ReportedLatencies(j: JobResults, w: MeterState, elapsed: real, values: seq<nat>, sorted: seq<nat>)
    requires elapsed > 0.0 && Reports(j, w, elapsed) && w.counts == HistOf(64, values)
    requires SortedOf(sorted, values) && forall v :: v in values ==> v <= U64_MAX
    ensures values == [] ==> j.latMin == j.latMax == j.p50 == j.p95 == j.p99 == 0
    ensures values != [] ==>
      && |sorted| == |values|
      && AtMostDouble(sorted[CeilRank(|values|, 50) - 1], j.p50)
      && AtMostDouble(sorted[CeilRank(|values|, 95) - 1], j.p95)
      && AtMostDouble(sorted[CeilRank(|values|, 99) - 1], j.p99)
      && AtMostDouble(sorted[|values| - 1], j.latMax) && AtMostDouble(j.latMin, sorted[0])
  {
    hide HistOf, SortedOf, MinOf, MaxOf, PercentileOf, Target;
    if values == [] {
      EmptyAnswers();
    } else {
      Pow2Of64();
      RankInPercent(|values|, 50);
      RankInPercent(|values|, 95);
      RankInPercent(|values|, 99);
      PercentileBracketsOrderStatistic(64, values, sorted, 0.50);
      PercentileBracketsOrderStatistic(64, values, sorted, 0.95);
      PercentileBracketsOrderStatistic(64, values, sorted, 0.99);
      MinMaxAreClose(values, sorted);
    }
  }

  /** Workers that have ended are read exactly. */
  lemma EndedAtRest(before: seq<MeterState>, readings: seq<Reading>, after: seq<MeterState>)
    requires PassedOver(before, readings, after) && |readings| == |after|
    ensures forall i :: 0 <= i < |after| && after[i].ended ==> readings[i] == AtRest(after[i])
  {
    hide AtRest;
    forall i | 0 <= i < |after| && after[i].ended ensures readings[i] == AtRest(after[i]) {
      assert ReadDuring(before[i], readings[i], after[i]);
    }
  }

  lemma NothingPassed(states: seq<MeterState>)
    ensures PassedOver(states, [], states)
  {
  }

  lemma OneMorePassed(before: seq<MeterState>, readings: seq<Reading>, between: seq<MeterState>,
                      r: Reading, after: seq<MeterState>)
    requires PassedOver(before, readings, between) && |readings| < |between|
    requires |after| == |between| && after == between[|readings| := after[|readings|]]
    requires ReadDuring(between[|readings|], r, after[|readings|])
    ensures PassedOver(before, readings + [r], after)
  {
    var i := |readings|;
    ReadDuringEarlier(before[i], between[i], r, after[i]);
    LaterTransitive(before[i], between[i], after[i]);
    hide ReadDuring, Later;
    forall k | 0 <= k < |readings| + 1 ensures ReadDuring(before[k], (readings + [r])[k], after[k]) {
    }
  }

  /** A pass appends a sample and keeps what the aggregator knows about its basis. */
  lemma PassIsASample(n: nat, start: int, samples: seq<Sample>, before: seq<MeterState>, s: Sample,
      after: seq<MeterState>)
    requires Sampled(n, samples) && Monotone(n, samples) && |before| == n && NotBehind(samples, before)
    requires |s.readings| == n && WellRead(s.readings) && PassedOver(before, s.readings, after)
    requires forall i :: 0 <= i < n ==> after[i].iops <= U64_MAX && after[i].bytes <= U64_MAX
    ensures Sampled(n, samples + [s]) && Monotone(n, samples + [s]) && NotBehind(samples + [s], after)
    ensures BasisSeq(n, samples + [s], IopsOf)
            == if s.record then Counters(s.readings, IopsOf) else BasisSeq(n, samples, IopsOf)
    ensures BasisSeq(n, samples + [s], BytesOf)
            == if s.record then Counters(s.readings, BytesOf) else BasisSeq(n, samples, BytesOf)
    ensures BasisTime(start, samples + [s]) == if s.record then s.time else BasisTime(start, samples)
    ensures Recorded(n, start, samples + [s])
            == Recorded(n, start, samples) + if s.record then [Taken(n, start, samples, s)] else []
  {
    hide Taken, Recorded;
    hide Monotone, Later, AtRest, Last;
    forall i | 0 <= i < n
      ensures Last(n, samples, i, IopsOf) <= s.readings[i].iops <= U64_MAX
      ensures Last(n, samples, i, BytesOf) <= s.readings[i].bytes <= U64_MAX
    {
      assert ReadDuring(before[i], s.readings[i], after[i]);
    }
    SampleAppended(n, start, samples, s);
    forall i | 0 <= i < n
      ensures Last(n, samples + [s], i, IopsOf) <= after[i].iops && Last(n, samples + [s], i, BytesOf) <= after[i].bytes
    {
      assert ReadDuring(before[i], s.readings[i], after[i]);
    }
  }

  lemma RemaindersDiffer(a: nat, b: nat, c: nat)
    requires a < b < a + c
    ensures a % c != b % c
  {
    var q, r := a / c, a % c;
    assert a == c * q + r;
    if r + (b - a) < c {
      DivModUnique(b, c, q, r + (b - a));
    } else {
      assert c * (q + 1) == c * q + c;
      DivModUnique(b, c, q + 1, r + (b - a) - c);
    }
  }

  lemma NextRemainder(a: nat, c: nat)
    requires c > 0
    ensures (a % c + 1) % c == (a + 1) % c
  {
    var q, r := a / c, a % c;
    assert a == c * q + r;
    if r + 1 == c {
      assert c * (q + 1) == c * q + c;
      DivModUnique(a + 1, c, q + 1, 0);
      DivModUnique(r + 1, c, 1, 0);
    } else {
      DivModUnique(a + 1, c, q, r + 1);
      DivModUnique(r + 1, c, 0, r + 1);
    }
  }

  lemma SmallRemainder(a: nat, c: nat)
    requires a < c
    ensures a % c == a
  {
  }

  lemma WrappedRemainder(a: nat, k: nat, c: nat)
    requires c <= a && k < c
    ensures (a % c + k) % c == (a - c + k) % c
  {
    var q, r := a / c, a % c;
    assert q >= 1 && a == c * q + r;
    if r + k < c {
      DivModUnique(r + k, c, 0, r + k);
      assert a - c + k == c * (q - 1) + (r + k);
      DivModUnique(a - c + k, c, q - 1, r + k);
    } else {
      DivModUnique(r + k, c, 1, r + k - c);
      assert a - c + k == c * q + (r + k - c);
      DivModUnique(a - c + k, c, q, r + k - c);
    }
  }
}
