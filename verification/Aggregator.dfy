/** The incremental result aggregator (scripts/perf_loadgen.py): dictionaries and running sums that
    always equal the specification on everything recorded so far. */
module Aggregator {
  import opened Common
  import opened Sums
  import opened LoadStats
  import opened Reservoirs
  import opened Percentiles

  /** The per-bucket sampler, by value. */
  datatype Held = Held(samples: seq<real>, seen: nat)

  datatype Latency = Latency(min: real, max: real, mean: real, sampleCount: nat, samplesSeen: nat)

  /** The figures that do not depend on which samples were kept. */
  datatype Snapshot = Snapshot(totals: Totals, latency: Latency, rows: seq<Row>)

  /** All that is reported: those, and the percentiles of the run and of each row's bucket. */
  datatype Report = Report(exact: Snapshot, pcts: Pcts, rowPcts: seq<Pcts>)

  function OrZero(x: Option<real>): real {
    if x.Some? then x.value else 0.0
  }

  /** The headline latency figures, in milliseconds, for a reservoir of the given capacity. */
  function LatencyOf(obs: seq<Observation>, capacity: nat): Latency {
    Latency(OrZero(MinLatency(obs)) * 1000.0, OrZero(MaxLatency(obs)) * 1000.0,
            Ratio(SumReals(Latencies(obs)), |obs| as real) * 1000.0,
            if |obs| < capacity then |obs| else capacity, |obs|)
  }

  /** The run-wide running figures. */
  datatype Figures = Figures(sums: Bucket, statuses: map<int, nat>, min: Option<real>, max: Option<real>)

  function FiguresOf(obs: seq<Observation>): Figures {
    Figures(BucketOf(obs), Tally(Statuses(obs)), MinLatency(obs), MaxLatency(obs))
  }

  function Lower(m: Option<real>, x: real): Option<real> {
    if m.Some? && m.value <= x then m else Some(x)
  }

  function Higher(m: Option<real>, x: real): Option<real> {
    if m.Some? && m.value >= x then m else Some(x)
  }

  function BumpFigures(f: Figures, o: Outcome): Figures {
    Figures(Bump(f.sums, o), f.statuses[o.status := Count(f.statuses, o.status) + 1],
            Lower(f.min, o.latency), Higher(f.max, o.latency))
  }

  lemma FiguresOfSnoc(obs: seq<Observation>, o: Observation)
    ensures FiguresOf(obs + [o]) == BumpFigures(FiguresOf(obs), o.outcome)
  {
    assert (obs + [o])[..|obs|] == obs;
    BucketOfSnoc(obs, o);
    assert Statuses(obs + [o]) == Statuses(obs) + [o.outcome.status];
    TallySnoc(Statuses(obs), o.outcome.status);
  }

  const NO_FIGURES := Figures(EMPTY_BUCKET, map[], None, None)

  /** The running figures after recording the observations one by one. */
  ghost function Running(obs: seq<Observation>): Figures {
    if obs == [] then NO_FIGURES
    else BumpFigures(Running(obs[..|obs| - 1]), obs[|obs| - 1].outcome)
  }

  /** The incremental figures are the specified ones. */
  lemma {:induction false} RunningIsExact(obs: seq<Observation>)
    ensures Running(obs) == FiguresOf(obs)
  {
    if obs == [] {
      BucketOfNone();
      assert Tally(Statuses([])) == map[];
    } else {
      var front, last := obs[..|obs| - 1], obs[|obs| - 1];
      RunningIsExact(front);
      FiguresOfSnoc(front, last);
      assert obs == front + [last];
    }
  }

  /** The bucket dictionary the code keeps is the grouped view of what was recorded. */
  ghost function BucketMap(obs: seq<Observation>, width: real): map<int, Bucket>
    requires width > 0.0
  {
    map b | b in Indices(obs, width) :: BucketOf(InBucket(obs, width, b))
  }

  lemma InBucketSnoc(obs: seq<Observation>, o: Observation, width: real, i: int)
    requires width > 0.0
    ensures BucketOf(InBucket(obs + [o], width, i)) ==
            if Index(o, width) == i then Bump(BucketOf(InBucket(obs, width, i)), o.outcome)
            else BucketOf(InBucket(obs, width, i))
  {
    assert (obs + [o])[..|obs|] == obs;
    if Index(o, width) == i {
      BucketOfSnoc(InBucket(obs, width, i), o);
    } else {
      assert InBucket(obs, width, i) + [] == InBucket(obs, width, i);
    }
  }

  lemma IndicesSnoc(obs: seq<Observation>, o: Observation, width: real)
    requires width > 0.0
    ensures Indices(obs + [o], width) == Indices(obs, width) + {Index(o, width)}
  {
    IndicesAppend(obs, [o], width);
    assert Indices([o], width) == {Index(o, width)};
  }

  /** What setdefault finds for a time bucket. */
  function BucketOr(buckets: map<int, Bucket>, b: int): Bucket {
    if b in buckets then buckets[b] else EMPTY_BUCKET
  }

  lemma BucketMapSnoc(obs: seq<Observation>, o: Observation, width: real)
    requires width > 0.0
    ensures var b := Index(o, width);
            BucketMap(obs + [o], width) ==
            BucketMap(obs, width)[b := Bump(BucketOr(BucketMap(obs, width), b), o.outcome)]
  {
    var b := Index(o, width);
    var old_, new_ := BucketMap(obs, width), BucketMap(obs + [o], width);
    IndicesSnoc(obs, o, width);
    var bumped := old_[b := Bump(BucketOr(old_, b), o.outcome)];
    assert new_.Keys == bumped.Keys;
    forall i | i in new_.Keys ensures new_[i] == bumped[i] {
      InBucketSnoc(obs, o, width, i);
      if i == b {
        MapHoldsOrEmpty(obs, width, b);
      }
    }
    assert new_ == bumped;
  }

  /** The bucket dictionary after recording the observations one by one. */
  ghost function Grouped(obs: seq<Observation>, width: real): map<int, Bucket>
    requires width > 0.0
  {
    if obs == [] then map[]
    else
      var m, last := Grouped(obs[..|obs| - 1], width), obs[|obs| - 1];
      m[Index(last, width) := Bump(BucketOr(m, Index(last, width)), last.outcome)]
  }

  /** The incremental dictionary is the grouped view. */
  lemma {:induction false} GroupedIsExact(obs: seq<Observation>, width: real)
    requires width > 0.0
    ensures Grouped(obs, width) == BucketMap(obs, width)
  {
    if obs != [] {
      var front, last := obs[..|obs| - 1], obs[|obs| - 1];
      GroupedIsExact(front, width);
      BucketMapSnoc(front, last, width);
      assert obs == front + [last];
    }
  }

  lemma MapHoldsOrEmpty(obs: seq<Observation>, width: real, b: int)
    requires width > 0.0
    ensures BucketOr(BucketMap(obs, width), b) == BucketOf(InBucket(obs, width, b))
  {
    ListedIffOccupied(obs, width, b);
    BucketOfNone();
  }

  /** The rows of the listed buckets, read off the bucket dictionary. */
  function RowsIn(buckets: map<int, Bucket>, width: real, bs: seq<int>): seq<Row>
    requires width > 0.0
  {
    if bs == [] then []
    else
      var b := bs[|bs| - 1];
      RowsIn(buckets, width, bs[..|bs| - 1]) + [RowFrom(b, width, BucketOr(buckets, b))]
  }

  lemma RowsInSnoc(buckets: map<int, Bucket>, width: real, order: seq<int>, k: nat)
    requires width > 0.0 && k < |order|
    ensures RowsIn(buckets, width, order[..k + 1]) == RowsIn(buckets, width, order[..k]) +
              [RowFrom(order[k], width, BucketOr(buckets, order[k]))]
  {
    var bs := order[..k + 1];
    assert bs[..|bs| - 1] == order[..k];
    var b := bs[|bs| - 1];
    assert RowsIn(buckets, width, bs) ==
           RowsIn(buckets, width, bs[..|bs| - 1]) + [RowFrom(b, width, BucketOr(buckets, b))];
  }

  method ListRows(buckets: map<int, Bucket>, width: real, order: seq<int>) returns (rows: seq<Row>)
    requires width > 0.0
    ensures rows == RowsIn(buckets, width, order)
  {
    rows := [];
    for k := 0 to |order|
      invariant rows == RowsIn(buckets, width, order[..k])
    {
      RowsInSnoc(buckets, width, order, k);
      rows := rows + [RowFrom(order[k], width, BucketOr(buckets, order[k]))];
    }
    assert order[..|order|] == order;
  }

  /** Reading the rows off the bucket dictionary gives the specified rows. */
  lemma {:induction false} RowsOfMap(obs: seq<Observation>, buckets: map<int, Bucket>, width: real, bs: seq<int>)
    requires width > 0.0
    requires forall k :: 0 <= k < |bs| ==> BucketOr(buckets, bs[k]) == BucketOf(InBucket(obs, width, bs[k]))
    ensures RowsIn(buckets, width, bs) == RowsAt(obs, width, bs)
  {
    if bs != [] {
      var front := bs[..|bs| - 1];
      assert forall k :: 0 <= k < |front| ==> front[k] == bs[k];
      RowsOfMap(obs, buckets, width, front);
    }
  }

  lemma SeriesOfMap(obs: seq<Observation>, buckets: map<int, Bucket>, width: real, order: seq<int>)
    requires width > 0.0 && buckets == BucketMap(obs, width) && order == SortedIndices(obs, width)
    ensures RowsIn(buckets, width, order) == Series(obs, width)
  {
    forall k | 0 <= k < |order|
      ensures BucketOr(buckets, order[k]) == BucketOf(InBucket(obs, width, order[k]))
    {
      MapHoldsOrEmpty(obs, width, order[k]);
    }
    RowsOfMap(obs, buckets, width, order);
  }

  /** The sampler lookups of the listing loop. */
  method AllFound(order: seq<int>, samplers: map<int, Held>) returns (found: bool)
    ensures found <==> forall k :: 0 <= k < |order| ==> order[k] in samplers
  {
    for k := 0 to |order|
      invariant forall i :: 0 <= i < k ==> order[i] in samplers
    {
      if order[k] !in samplers {
        return false;
      }
    }
    found := true;
  }

  ghost predicate PctsOfAll(ps: seq<Pcts>, order: seq<int>, samplers: map<int, Held>) {
    |ps| == |order| &&
      forall k :: 0 <= k < |order| ==> order[k] in samplers && ps[k] == PctsOf(samplers[order[k]].samples)
  }

  /** The percentiles of the listed buckets. */
  method ListPcts(order: seq<int>, samplers: map<int, Held>) returns (ps: seq<Pcts>)
    requires forall k :: 0 <= k < |order| ==> order[k] in samplers
    ensures PctsOfAll(ps, order, samplers)
  {
    ps := [];
    for k := 0 to |order|
      invariant |ps| == k && forall i :: 0 <= i < k ==> ps[i] == PctsOf(samplers[order[i]].samples)
    {
      ps := ps + [PctsOf(samplers[order[k]].samples)];
    }
  }

  lemma OccupiedIff(obs: seq<Observation>, width: real, order: seq<int>)
    requires width > 0.0 && Elems(order) == BucketMap(obs, width).Keys
    ensures order != [] <==> obs != []
    ensures forall k :: 0 <= k < |order| ==> order[k] in BucketMap(obs, width)
  {
    forall k | 0 <= k < |order| ensures order[k] in BucketMap(obs, width) {
      assert order[k] in Elems(order);
    }
    if obs != [] {
      assert obs[0] in obs;
      assert Index(obs[0], width) in Elems(order);
    }
    assert |order| > 0 ==> order[0] in Indices(obs, width);
  }

  // ---------------------------------------------------------------- the samplers of the time buckets

  /** A sampler of the given capacity that was offered the latencies of the observations, in order. */
  ghost predicate SamplesOf(held: Held, capacity: nat, obs: seq<Observation>) {
    held.seen == |obs| &&
      exists draws :: DrawsFor(capacity, |obs|, draws) && held.samples == Sample(capacity, Latencies(obs), draws)
  }

  /** One sampler per occupied bucket, on the latencies of that bucket's own observations. */
  ghost predicate Sampled(samplers: map<int, Held>, obs: seq<Observation>, width: real, capacity: int)
    requires width > 0.0
  {
    && samplers.Keys == (if capacity >= 1 then Indices(obs, width) else {})
    && forall b :: b in samplers ==> capacity >= 1 && SamplesOf(samplers[b], capacity, InBucket(obs, width, b))
  }

  /** What setdefault finds for a time bucket. */
  function SamplerOr(samplers: map<int, Held>, b: int): Held {
    if b in samplers then samplers[b] else Held([], 0)
  }

  lemma OfferToSampler(held: Held, capacity: nat, obs: seq<Observation>, o: Observation, draw: int)
    requires SamplesOf(held, capacity, obs) && 0 <= draw <= held.seen
    ensures SamplesOf(Held(Offered(capacity, held.samples, o.outcome.latency, draw), held.seen + 1), capacity,
                      obs + [o])
  {
    var draws :| DrawsFor(capacity, |obs|, draws) && held.samples == Sample(capacity, Latencies(obs), draws);
    var more := if |obs| < capacity then draws else draws + [draw];
    ColumnsSnoc(obs, o);
    OfferExtendsSample(capacity, Latencies(obs), draws, o.outcome.latency, draw);
    assert DrawsFor(capacity, |obs + [o]|, more);
  }

  lemma SamplerHoldsOrEmpty(samplers: map<int, Held>, obs: seq<Observation>, width: real, capacity: int, b: int)
    requires width > 0.0 && capacity >= 1 && Sampled(samplers, obs, width, capacity)
    ensures SamplesOf(SamplerOr(samplers, b), capacity, InBucket(obs, width, b))
  {
    ListedIffOccupied(obs, width, b);
    if b !in samplers {
      assert DrawsFor(capacity, 0, []);
    }
  }

  lemma InBucketOfSnoc(obs: seq<Observation>, o: Observation, width: real, b: int)
    requires width > 0.0
    ensures InBucket(obs + [o], width, b) ==
            if Index(o, width) == b then InBucket(obs, width, b) + [o] else InBucket(obs, width, b)
  {
    assert (obs + [o])[..|obs|] == obs;
  }

  /** Offering an observation's latency to its own bucket's sampler keeps them all as they should be. */
  lemma SampledSnoc(samplers: map<int, Held>, more: map<int, Held>, obs: seq<Observation>, o: Observation,
                    width: real, capacity: int, draw: int)
    requires width > 0.0 && capacity >= 1 && Sampled(samplers, obs, width, capacity)
    requires 0 <= draw <= SamplerOr(samplers, Index(o, width)).seen
    requires var b := Index(o, width);
             var held := SamplerOr(samplers, b);
             more == samplers[b := Held(Offered(capacity, held.samples, o.outcome.latency, draw), held.seen + 1)]
    ensures Sampled(more, obs + [o], width, capacity)
  {
    var b := Index(o, width);
    IndicesSnoc(obs, o, width);
    SamplerHoldsOrEmpty(samplers, obs, width, capacity, b);
    OfferToSampler(SamplerOr(samplers, b), capacity, InBucket(obs, width, b), o, draw);
    forall i | i in more ensures SamplesOf(more[i], capacity, InBucket(obs + [o], width, i)) {
      InBucketOfSnoc(obs, o, width, i);
    }
  }

  /** A sample's percentiles are in order and between the least and the greatest latency it was drawn
      from, whichever of them were kept; and they are the percentiles of all of them as long as they fit. */
  lemma SampleHangsTogether(capacity: nat, obs: seq<Observation>, draws: seq<int>)
    requires capacity >= 1 && obs != [] && DrawsFor(capacity, |obs|, draws)
    ensures var p, l := PctsOf(Sample(capacity, Latencies(obs), draws)), LatencyOf(obs, capacity);
            l.min <= p.p50 <= p.p90 <= p.p99 <= l.max
    ensures |obs| <= capacity ==> PctsOf(Sample(capacity, Latencies(obs), draws)) == PctsOf(Latencies(obs))
  {
    var stream := Latencies(obs);
    var samples := Sample(capacity, stream, draws);
    var low, high := OrZero(MinLatency(obs)), OrZero(MaxLatency(obs));
    ExtremesMeaning(obs);
    SampleSize(capacity, stream, draws);
    forall i | 0 <= i < |samples| ensures low <= samples[i] <= high {
      SampleIsFromStream(capacity, stream, draws, i);
      var k :| 0 <= k < |stream| && stream[k] == samples[i];
      assert stream[k] == obs[k].outcome.latency;
    }
    PctsAreInOrder(samples, low, high);
  }

  class ResultsAggregator {
    const width: real
    const perBucket: int
    const global: Reservoir
    var latencyMin: Option<real>
    var latencyMax: Option<real>
    var latencySum: real
    var statusCounts: map<int, nat>
    var kindTotals: map<string, nat>
    var totalRequests: nat
    var totalRecords: int
    var totalErrors: int
    var buckets: map<int, Bucket>
    var bucketReservoirs: map<int, Held>
    ghost var log: seq<Observation>

    /** Every running figure is the specified figure of the log. */
    ghost predicate Valid() reads this, global {
      && width > 0.0 && global.Valid() && global.stream == Latencies(log)
      && Current() == Running(log)
      && buckets == Grouped(log, width) && Sampled(bucketReservoirs, log, width, perBucket)
    }

    function Current(): Figures reads this {
      Figures(Bucket(totalRequests, totalRecords, totalErrors, latencySum, kindTotals), statusCounts,
              latencyMin, latencyMax)
    }

    /** How many values the observation's bucket sampler has seen. */
    ghost function SeenIn(o: Observation): nat reads this
      requires width > 0.0
    {
      SamplerOr(bucketReservoirs, Index(o, width)).seen
    }

    constructor Init(width: real, sampler: Reservoir, perBucket: int)
      requires width > 0.0 && sampler.Valid() && sampler.seen == 0
      ensures Valid() && log == [] && this.width == width && this.perBucket == perBucket && global == sampler
    {
      this.width, this.perBucket, this.global := width, perBucket, sampler;
      latencyMin, latencyMax, latencySum := None, None, 0.0;
      statusCounts, kindTotals := map[], map[];
      totalRequests, totalRecords, totalErrors := 0, 0, 0;
      buckets, bucketReservoirs := map[], map[];
      log := [];
    }

    /** A bucket width that is not positive or a sampler capacity below 1 is refused. */
    static method Create(width: real, maxSamples: int, perBucket: int) returns (r: Option<ResultsAggregator>)
      ensures r.None? <==> width <= 0.0 || maxSamples < 1
      ensures r.Some? ==> fresh(r.value) && fresh(r.value.global) && r.value.Valid() && r.value.log == []
                          && r.value.width == width && r.value.perBucket == perBucket
                          && r.value.global.capacity == maxSamples
    {
      if width <= 0.0 {
        return None;
      }
      var sampler := Reservoir.Create(maxSamples);
      if sampler.None? {
        return None;
      }
      var made := new ResultsAggregator.Init(width, sampler.value, perBucket);
      r := Some(made);
    }

    /** Fold one completed request into the state. The draws are what the random source yields for the
        two samplers. With a per-bucket capacity below 1 the sampler cannot be built and the call raises,
        after every count has been updated. */
    method Record(outcome: Outcome, elapsed: real, globalDraw: int, bucketDraw: int) returns (raised: bool)
      requires Valid() && 0 <= globalDraw <= global.seen
      requires 0 <= bucketDraw <= SeenIn(Observation(outcome, elapsed))
      modifies this, global
      ensures Valid() && log == old(log) + [Observation(outcome, elapsed)]
      ensures raised <==> perBucket < 1
      ensures global.samples == Offered(global.capacity, old(global.samples), outcome.latency, globalDraw)
      ensures SamplerOffered(old(bucketReservoirs), Observation(outcome, elapsed), bucketDraw)
    {
      ghost var o := Observation(outcome, elapsed);
      assert (log + [o])[..|log|] == log;
      ColumnsSnoc(log, o);
      raised := RecordFields(outcome, elapsed, globalDraw, bucketDraw);
      if perBucket >= 1 {
        SampledSnoc(old(bucketReservoirs), bucketReservoirs, log, o, width, perBucket, bucketDraw);
      }
      log := log + [o];
    }

    /** All the fields, in terms of their old values. */
    method RecordFields(outcome: Outcome, elapsed: real, globalDraw: int, bucketDraw: int) returns (raised: bool)
      requires width > 0.0 && global.Valid() && 0 <= globalDraw <= global.seen
      modifies this`latencyMin, this`latencyMax, this`latencySum, this`statusCounts, this`kindTotals,
               this`totalRequests, this`totalRecords, this`totalErrors, this`buckets, this`bucketReservoirs, global
      ensures Current() == BumpFigures(old(Current()), outcome)
      ensures global.Valid() && global.stream == old(global.stream) + [outcome.latency]
      ensures global.samples == Offered(global.capacity, old(global.samples), outcome.latency, globalDraw)
      ensures var b := Index(Observation(outcome, elapsed), width);
              buckets == old(buckets)[b := Bump(BucketOr(old(buckets), b), outcome)]
      ensures SamplerOffered(old(bucketReservoirs), Observation(outcome, elapsed), bucketDraw)
      ensures raised <==> perBucket < 1
    {
      RecordTotals(outcome);
      global.Offer(outcome.latency, globalDraw);
      raised := RecordBucket(outcome, elapsed, bucketDraw);
    }

    /** The samplers are the given ones after one offer to the observation's bucket, if they can be built. */
    ghost predicate SamplerOffered(samplers: map<int, Held>, o: Observation, draw: int) reads this
      requires width > 0.0
    {
      var b := Index(o, width);
      var held := SamplerOr(samplers, b);
      bucketReservoirs ==
        if perBucket < 1 then samplers
        else samplers[b := Held(Offered(perBucket, held.samples, o.outcome.latency, draw), held.seen + 1)]
    }

    /** The run-wide counters. */
    method RecordTotals(outcome: Outcome)
      modifies this`latencyMin, this`latencyMax, this`latencySum, this`statusCounts, this`kindTotals,
               this`totalRequests, this`totalRecords, this`totalErrors
      ensures Current() == BumpFigures(old(Current()), outcome)
    {
      totalRequests := totalRequests + 1;
      totalRecords := totalRecords + outcome.records;
      if outcome.error.Some? {
        totalErrors := totalErrors + 1;
      }
      statusCounts := statusCounts[outcome.status := Count(statusCounts, outcome.status) + 1];
      kindTotals := kindTotals[outcome.kind := Count(kindTotals, outcome.kind) + 1];
      latencySum := latencySum + outcome.latency;
      latencyMin := Lower(latencyMin, outcome.latency);
      latencyMax := Higher(latencyMax, outcome.latency);
    }

    /** The time bucket's counters and sampler. */
    method RecordBucket(outcome: Outcome, elapsed: real, draw: int) returns (raised: bool)
      requires width > 0.0
      modifies this`buckets, this`bucketReservoirs
      ensures var b := Index(Observation(outcome, elapsed), width);
              buckets == old(buckets)[b := Bump(BucketOr(old(buckets), b), outcome)]
      ensures SamplerOffered(old(bucketReservoirs), Observation(outcome, elapsed), draw)
      ensures raised <==> perBucket < 1
    {
      var i := (elapsed / width).Floor;
      var index := if i < 0 then 0 else i;
      var bucket := BucketOr(buckets, index);
      bucket := bucket.(requests := bucket.requests + 1, records := bucket.records + outcome.records,
                        latencySum := bucket.latencySum + outcome.latency,
                        byKind := bucket.byKind[outcome.kind := Count(bucket.byKind, outcome.kind) + 1]);
      if outcome.error.Some? {
        bucket := bucket.(errors := bucket.errors + 1);
      }
      buckets := buckets[index := bucket];
      raised := perBucket < 1;
      if !raised {
        var held := SamplerOr(bucketReservoirs, index);
        bucketReservoirs := bucketReservoirs[index :=
          Held(Offered(perBucket, held.samples, outcome.latency, draw), held.seen + 1)];
      }
    }

    /** The reported figures are the specified ones for everything recorded. Once something is recorded
        without a bucket sampler, looking the sampler up fails. */
    method TakeSnapshot() returns (r: Option<Report>)
      requires Valid()
      ensures r.None? <==> perBucket < 1 && log != []
      ensures r.Some? ==>
                && r.value.exact == Snapshot(TotalsOf(log), LatencyOf(log, global.capacity), Series(log, width))
                && r.value.pcts == PctsOf(global.samples)
                && PctsOfAll(r.value.rowPcts, SortedIndices(log, width), bucketReservoirs)
    {
      GroupedIsExact(log, width);
      var order := SortInts(buckets.Keys);
      TheOnlyListing(log, width, order);
      var found := AllFound(order, bucketReservoirs);
      OccupiedIff(log, width, order);
      if !found {
        return None;
      }
      var totals, latency := RunFigures();
      var rows := BucketRows(order);
      var rowPcts := ListPcts(order, bucketReservoirs);
      r := Some(Report(Snapshot(totals, latency, rows), PctsOf(global.samples), rowPcts));
    }

    /** What is reported hangs together: the run's percentiles are in order and lie between the least and
        the greatest latency of the run, whichever samples were kept; and they are exact while all fit. */
    lemma ReportHangsTogether()
      requires Valid() && log != []
      ensures var p, l := PctsOf(global.samples), LatencyOf(log, global.capacity);
              l.min <= p.p50 <= p.p90 <= p.p99 <= l.max
      ensures |log| <= global.capacity ==> PctsOf(global.samples) == PctsOf(Latencies(log))
    {
      SampleHangsTogether(global.capacity, log, global.draws);
    }

    /** So does every row: its percentiles are in order and lie between the least and the greatest latency
        of the row's own bucket, and they are exact while all of these fit. */
    lemma RowHangsTogether(b: int)
      requires Valid() && b in bucketReservoirs
      ensures var p, l := PctsOf(bucketReservoirs[b].samples), LatencyOf(InBucket(log, width, b), perBucket);
              l.min <= p.p50 <= p.p90 <= p.p99 <= l.max
      ensures |InBucket(log, width, b)| <= perBucket ==>
                PctsOf(bucketReservoirs[b].samples) == PctsOf(Latencies(InBucket(log, width, b)))
      ensures InBucket(log, width, b) != []
    {
      var obs := InBucket(log, width, b);
      ListedIffOccupied(log, width, b);
      var draws :| DrawsFor(perBucket, |obs|, draws) &&
                   bucketReservoirs[b].samples == Sample(perBucket, Latencies(obs), draws);
      SampleHangsTogether(perBucket, obs, draws);
    }

    method BucketRows(order: seq<int>) returns (rows: seq<Row>)
      requires Valid() && order == SortedIndices(log, width)
      ensures rows == Series(log, width)
    {
      GroupedIsExact(log, width);
      rows := ListRows(buckets, width, order);
      SeriesOfMap(log, buckets, width, order);
    }

    /** The run-wide part of a snapshot. */
    method RunFigures() returns (totals: Totals, latency: Latency)
      requires Valid()
      ensures totals == TotalsOf(log) && latency == LatencyOf(log, global.capacity)
    {
      RunningIsExact(log);
      SampleSize(global.capacity, global.stream, global.draws);
      totals := TotalsFrom(Bucket(totalRequests, totalRecords, totalErrors, latencySum, kindTotals), statusCounts);
      latency := Latency(OrZero(latencyMin) * 1000.0, OrZero(latencyMax) * 1000.0,
                         Ratio(latencySum, totalRequests as real) * 1000.0, |global.samples|, global.seen);
    }
  }
}
