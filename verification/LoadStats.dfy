/** What a collection of request outcomes amounts to: the specification of the load driver's exact
    result fields, stated on the outcomes themselves (scripts/perf_loadgen.py). */
module LoadStats {
  import opened Common
  import opened Sums

  datatype Outcome = Outcome(session: nat, kind: string, latency: real, status: int, records: int,
                             error: Option<string>)

  /** An outcome and when it was observed, in seconds since the run began. */
  datatype Observation = Observation(outcome: Outcome, elapsed: real)

  // ---------------------------------------------------------------- columns

  function Latencies(obs: seq<Observation>): seq<real> {
    seq(|obs|, i requires 0 <= i < |obs| => obs[i].outcome.latency)
  }

  function Records(obs: seq<Observation>): seq<int> {
    seq(|obs|, i requires 0 <= i < |obs| => obs[i].outcome.records)
  }

  function ErrorFlags(obs: seq<Observation>): seq<int> {
    seq(|obs|, i requires 0 <= i < |obs| => if obs[i].outcome.error.Some? then 1 else 0)
  }

  function Kinds(obs: seq<Observation>): seq<string> {
    seq(|obs|, i requires 0 <= i < |obs| => obs[i].outcome.kind)
  }

  function Statuses(obs: seq<Observation>): seq<int> {
    seq(|obs|, i requires 0 <= i < |obs| => obs[i].outcome.status)
  }

  // ---------------------------------------------------------------- accumulators

  datatype Bucket = Bucket(requests: nat, records: int, errors: int, latencySum: real, byKind: map<string, nat>)

  /** What a group of observations adds up to. */
  function BucketOf(obs: seq<Observation>): Bucket {
    Bucket(|obs|, SumInts(Records(obs)), SumInts(ErrorFlags(obs)), SumReals(Latencies(obs)), Tally(Kinds(obs)))
  }

  function AddBuckets(a: Bucket, b: Bucket): Bucket {
    Bucket(a.requests + b.requests, a.records + b.records, a.errors + b.errors, a.latencySum + b.latencySum,
           AddCounts(a.byKind, b.byKind))
  }

  /** Observations taken together add up to the sum of the parts. */
  lemma BucketOfAppend(a: seq<Observation>, b: seq<Observation>)
    ensures BucketOf(a + b) == AddBuckets(BucketOf(a), BucketOf(b))
  {
    assert Latencies(a + b) == Latencies(a) + Latencies(b);
    assert Records(a + b) == Records(a) + Records(b);
    assert ErrorFlags(a + b) == ErrorFlags(a) + ErrorFlags(b);
    assert Kinds(a + b) == Kinds(a) + Kinds(b);
    SumRealsAppend(Latencies(a), Latencies(b));
    SumIntsAppend(Records(a), Records(b));
    SumIntsAppend(ErrorFlags(a), ErrorFlags(b));
    TallyAppend(Kinds(a), Kinds(b));
  }

  lemma StatusesAppend(a: seq<Observation>, b: seq<Observation>)
    ensures Tally(Statuses(a + b)) == AddCounts(Tally(Statuses(a)), Tally(Statuses(b)))
  {
    assert Statuses(a + b) == Statuses(a) + Statuses(b);
    TallyAppend(Statuses(a), Statuses(b));
  }

  /** One more observation. */
  function Bump(b: Bucket, o: Outcome): Bucket {
    Bucket(b.requests + 1, b.records + o.records, b.errors + (if o.error.Some? then 1 else 0),
           b.latencySum + o.latency, b.byKind[o.kind := Count(b.byKind, o.kind) + 1])
  }

  const EMPTY_BUCKET := Bucket(0, 0, 0, 0.0, map[])

  lemma ColumnsSnoc(obs: seq<Observation>, o: Observation)
    ensures Latencies(obs + [o]) == Latencies(obs) + [o.outcome.latency]
    ensures Records(obs + [o]) == Records(obs) + [o.outcome.records]
    ensures ErrorFlags(obs + [o]) == ErrorFlags(obs) + [if o.outcome.error.Some? then 1 else 0]
    ensures Kinds(obs + [o]) == Kinds(obs) + [o.outcome.kind]
  {
  }

  lemma SumsSnoc(ints: seq<int>, n: int, reals: seq<real>, x: real)
    ensures SumInts(ints + [n]) == SumInts(ints) + n && SumReals(reals + [x]) == SumReals(reals) + x
  {
    assert (ints + [n])[..|ints|] == ints && (reals + [x])[..|reals|] == reals;
  }

  lemma BucketOfSnoc(obs: seq<Observation>, o: Observation)
    ensures BucketOf(obs + [o]) == Bump(BucketOf(obs), o.outcome)
  {
    ColumnsSnoc(obs, o);
    SumsSnoc(Records(obs), o.outcome.records, Latencies(obs), o.outcome.latency);
    SumsSnoc(ErrorFlags(obs), if o.outcome.error.Some? then 1 else 0, Latencies(obs), o.outcome.latency);
    TallySnoc(Kinds(obs), o.outcome.kind);
  }

  lemma BucketOfNone()
    ensures BucketOf([]) == EMPTY_BUCKET
  {
    assert Tally(Kinds([])) == map[];
  }

  // ---------------------------------------------------------------- time buckets

  /** The time bucket of an observation: never below 0. */
  function Index(o: Observation, width: real): int
    requires width > 0.0
  {
    var i := (o.elapsed / width).Floor;
    if i < 0 then 0 else i
  }

  /** The observations of one time bucket, in order. */
  function InBucket(obs: seq<Observation>, width: real, b: int): seq<Observation>
    requires width > 0.0
  {
    if obs == [] then []
    else
      var front, last := obs[..|obs| - 1], obs[|obs| - 1];
      InBucket(front, width, b) + if Index(last, width) == b then [last] else []
  }

  /** The time buckets that hold at least one observation. */
  function Indices(obs: seq<Observation>, width: real): set<int>
    requires width > 0.0
  {
    set o | o in obs :: Index(o, width)
  }

  lemma {:induction false} InBucketAppend(a: seq<Observation>, b: seq<Observation>, width: real, i: int)
    requires width > 0.0
    ensures InBucket(a + b, width, i) == InBucket(a, width, i) + InBucket(b, width, i)
  {
    if b == [] {
      assert a + b == a;
    } else {
      assert (a + b)[..|a + b| - 1] == a + b[..|b| - 1];
      InBucketAppend(a, b[..|b| - 1], width, i);
    }
  }

  lemma IndicesAppend(a: seq<Observation>, b: seq<Observation>, width: real)
    requires width > 0.0
    ensures Indices(a + b, width) == Indices(a, width) + Indices(b, width)
  {
    assert forall o :: o in a + b <==> o in a || o in b;
  }

  /** A time bucket without observations is not listed, and one that is listed is not empty. */
  lemma {:induction false} ListedIffOccupied(obs: seq<Observation>, width: real, b: int)
    requires width > 0.0
    ensures b in Indices(obs, width) <==> InBucket(obs, width, b) != []
  {
    if obs != [] {
      var front, last := obs[..|obs| - 1], obs[|obs| - 1];
      ListedIffOccupied(front, width, b);
      assert obs == front + [last];
      IndicesAppend(front, [last], width);
      assert Indices([last], width) == {Index(last, width)};
    }
  }

  /** One row of the reported time series. */
  datatype Row = Row(start: real, requests: nat, records: int, errors: int, requestRate: real, recordRate: real,
                     errorRate: real, avgLatencyMs: real, byKind: map<string, nat>)

  function Ratio(a: real, b: real): real {
    if b == 0.0 then 0.0 else a / b
  }

  function StartOf(i: int, width: real): real {
    i as real * width
  }

  /** The report of time bucket i with the given sums. */
  function RowFrom(i: int, width: real, b: Bucket): Row
    requires width > 0.0
  {
    Row(StartOf(i, width), b.requests, b.records, b.errors, b.requests as real / width, b.records as real / width,
        Ratio(b.errors as real, b.requests as real), Ratio(b.latencySum, b.requests as real) * 1000.0, b.byKind)
  }

  function RowOf(obs: seq<Observation>, width: real, b: int): Row
    requires width > 0.0
  {
    RowFrom(b, width, BucketOf(InBucket(obs, width, b)))
  }

  lemma IntsAreOrdered()
    ensures TotalOrder(LeInt)
  {
  }

  lemma RealsAreOrdered()
    ensures TotalOrder(LeReal)
  {
  }

  ghost function SortedIndices(obs: seq<Observation>, width: real): (bs: seq<int>)
    requires width > 0.0
    ensures Elems(bs) == Indices(obs, width) && forall i, j :: 0 <= i < j < |bs| ==> bs[i] < bs[j]
  {
    IntsAreOrdered();
    Sorted(Indices(obs, width), LeInt)
  }

  /** sorted() on bucket indices. */
  method SortInts(S: set<int>) returns (s: seq<int>)
    ensures Elems(s) == S && forall i, j :: 0 <= i < j < |s| ==> s[i] < s[j]
  {
    IntsAreOrdered();
    s := SortSet(S, LeInt);
  }

  lemma TheOnlyListing(obs: seq<Observation>, width: real, s: seq<int>)
    requires width > 0.0 && Elems(s) == Indices(obs, width) && forall i, j :: 0 <= i < j < |s| ==> s[i] < s[j]
    ensures s == SortedIndices(obs, width)
  {
    IntsAreOrdered();
    SortedIsUnique(s, SortedIndices(obs, width), LeInt);
  }

  /** A row for each of the listed buckets. */
  function RowsAt(obs: seq<Observation>, width: real, bs: seq<int>): (rows: seq<Row>)
    requires width > 0.0
    ensures |rows| == |bs|
  {
    if bs == [] then []
    else RowsAt(obs, width, bs[..|bs| - 1]) + [RowOf(obs, width, bs[|bs| - 1])]
  }

  /** The time series: one row per occupied bucket, in time order. */
  ghost function Series(obs: seq<Observation>, width: real): seq<Row>
    requires width > 0.0
  {
    RowsAt(obs, width, SortedIndices(obs, width))
  }

  // ---------------------------------------------------------------- totals

  datatype Totals = Totals(requests: nat, records: int, errors: int, errorRate: real,
                           statusCounts: map<int, nat>, byKind: map<string, nat>)

  function TotalsFrom(b: Bucket, statusCounts: map<int, nat>): Totals {
    Totals(b.requests, b.records, b.errors, Ratio(b.errors as real, b.requests as real), statusCounts, b.byKind)
  }

  function TotalsOf(obs: seq<Observation>): Totals {
    TotalsFrom(BucketOf(obs), Tally(Statuses(obs)))
  }

  /** The least latency, if there is any observation. */
  function MinLatency(obs: seq<Observation>): Option<real> {
    if obs == [] then None
    else
      var last := obs[|obs| - 1].outcome.latency;
      match MinLatency(obs[..|obs| - 1])
      case None => Some(last)
      case Some(m) => Some(if last < m then last else m)
  }

  function MaxLatency(obs: seq<Observation>): Option<real> {
    if obs == [] then None
    else
      var last := obs[|obs| - 1].outcome.latency;
      match MaxLatency(obs[..|obs| - 1])
      case None => Some(last)
      case Some(m) => Some(if last > m then last else m)
  }

  /** min(...) is the least latency and max(...) the greatest: attained, and bounding all. */
  lemma {:induction false} ExtremesMeaning(obs: seq<Observation>)
    requires obs != []
    ensures MinLatency(obs).Some? && MaxLatency(obs).Some?
    ensures exists i :: 0 <= i < |obs| && obs[i].outcome.latency == MinLatency(obs).value
    ensures exists i :: 0 <= i < |obs| && obs[i].outcome.latency == MaxLatency(obs).value
    ensures forall i :: 0 <= i < |obs| ==>
              MinLatency(obs).value <= obs[i].outcome.latency <= MaxLatency(obs).value
  {
    var front, last := obs[..|obs| - 1], obs[|obs| - 1];
    if front != [] {
      ExtremesMeaning(front);
      var i :| 0 <= i < |front| && front[i].outcome.latency == MinLatency(front).value;
      var j :| 0 <= j < |front| && front[j].outcome.latency == MaxLatency(front).value;
      assert obs[i] == front[i] && obs[j] == front[j];
    }
    assert obs[|obs| - 1].outcome.latency == last.outcome.latency;
  }
}
