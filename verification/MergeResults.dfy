/** Folding the shards' result files into one (scripts/perf_merge_results.py). */
module MergeResults {
  import opened Common
  import opened Sums
  import opened LoadStats
  import opened Aggregator

  // ---------------------------------------------------------------- weighted means

  function Dot(values: seq<real>, weights: seq<real>): real
    requires |values| == |weights|
  {
    if values == [] then 0.0
    else
      var n := |values| - 1;
      Dot(values[..n], weights[..n]) + Mul(values[n], weights[n])
  }

  function Mul(x: real, y: real): real {
    x * y
  }

  function WeightedMean(values: seq<real>, weights: seq<real>): real
    requires |values| == |weights|
  {
    MeanFrom(Dot(values, weights), SumReals(weights))
  }

  /** The mean from the weighted sum and the total weight. */
  function MeanFrom(weighted: real, weight: real): real {
    if weight <= 0.0 then 0.0 else weighted / weight
  }

  // ---------------------------------------------------------------- counts

  function SumCounts<K(==)>(ds: seq<map<K, nat>>): map<K, nat> {
    if ds == [] then map[] else AddCounts(SumCounts(ds[..|ds| - 1]), ds[|ds| - 1])
  }

  /** The keys of `rest` have not been added yet. */
  ghost predicate Adding<K>(out: map<K, nat>, d: map<K, nat>, rest: set<K>, r: map<K, nat>) {
    && rest <= d.Keys && r.Keys == out.Keys + (d.Keys - rest)
    && forall k :: k in r.Keys ==> r[k] == Count(out, k) + if k in rest then 0 else Count(d, k)
  }

  lemma AddOneKey<K>(out: map<K, nat>, d: map<K, nat>, rest: set<K>, r: map<K, nat>, k: K)
    requires Adding(out, d, rest, r) && k in rest
    ensures Adding(out, d, rest - {k}, r[k := Count(r, k) + d[k]])
  {
    assert r[k := Count(r, k) + d[k]].Keys == r.Keys + {k};
  }

  /** out[key] = out.get(key, 0) + value, over one dictionary in any order. */
  method AddInto<K(==)>(out: map<K, nat>, d: map<K, nat>) returns (r: map<K, nat>)
    ensures r == AddCounts(out, d)
  {
    r := out;
    var rest := d.Keys;
    while rest != {}
      invariant Adding(out, d, rest, r)
      decreases |rest|
    {
      var k :| k in rest;
      AddOneKey(out, d, rest, r, k);
      r := r[k := Count(r, k) + d[k]];
      rest := rest - {k};
    }
    AddedAll(out, d, r);
  }

  lemma AddedAll<K>(out: map<K, nat>, d: map<K, nat>, r: map<K, nat>)
    requires Adding(out, d, {}, r)
    ensures r == AddCounts(out, d)
  {
    assert r.Keys == AddCounts(out, d).Keys;
  }

  method MergeCounts<K(==)>(ds: seq<map<K, nat>>) returns (out: map<K, nat>)
    ensures out == SumCounts(ds)
  {
    out := map[];
    for i := 0 to |ds|
      invariant out == SumCounts(ds[..i])
    {
      assert ds[..i + 1][..i] == ds[..i];
      out := AddInto(out, ds[i]);
    }
    assert ds[..|ds|] == ds;
  }

  // ---------------------------------------------------------------- totals

  /** Counts added, the error rate recomputed. */
  function AddTotals(a: Totals, b: Totals): Totals {
    var requests, errors := a.requests + b.requests, a.errors + b.errors;
    Totals(requests, a.records + b.records, errors, Ratio(errors as real, requests as real),
           AddCounts(a.statusCounts, b.statusCounts), AddCounts(a.byKind, b.byKind))
  }

  function TotalsColumns(ts: seq<Totals>): Totals {
    if ts == [] then Totals(0, 0, 0, 0.0, map[], map[])
    else AddTotals(TotalsColumns(ts[..|ts| - 1]), ts[|ts| - 1])
  }

  method MergeTotals(ts: seq<Totals>) returns (r: Totals)
    ensures r == TotalsColumns(ts)
  {
    var requests: nat, records, errors := 0, 0, 0;
    var statuses: seq<map<int, nat>>, kinds: seq<map<string, nat>> := [], [];
    for i := 0 to |ts|
      invariant |statuses| == |kinds| == i
      invariant TotalsColumns(ts[..i]) ==
                Totals(requests, records, errors, Ratio(errors as real, requests as real), SumCounts(statuses),
                       SumCounts(kinds))
    {
      assert ts[..i + 1][..i] == ts[..i];
      requests, records, errors := requests + ts[i].requests, records + ts[i].records, errors + ts[i].errors;
      assert (statuses + [ts[i].statusCounts])[..i] == statuses;
      assert (kinds + [ts[i].byKind])[..i] == kinds;
      statuses, kinds := statuses + [ts[i].statusCounts], kinds + [ts[i].byKind];
    }
    assert ts[..|ts|] == ts;
    var s := MergeCounts(statuses);
    var k := MergeCounts(kinds);
    r := Totals(requests, records, errors, Ratio(errors as real, requests as real), s, k);
  }

  // ---------------------------------------------------------------- time series

  /** The rows that report the bucket starting at `start`, in input order. */
  function GroupAt(rows: seq<Row>, start: real): seq<Row> {
    if rows == [] then []
    else
      var front, last := GroupAt(rows[..|rows| - 1], start), rows[|rows| - 1];
      front + if last.start == start then [last] else []
  }

  function Starts(rows: seq<Row>): set<real> {
    set r | r in rows :: r.start
  }

  /** The columns of a group: everything added up, the latencies weighted by their requests. */
  datatype GroupSums = GroupSums(requests: nat, records: int, errors: int, requestRate: real, recordRate: real,
                                 weight: real, weighted: real, kinds: map<string, nat>)

  function SumGroup(group: seq<Row>): GroupSums {
    if group == [] then GroupSums(0, 0, 0, 0.0, 0.0, 0.0, 0.0, map[])
    else AddRow(SumGroup(group[..|group| - 1]), group[|group| - 1])
  }

  function AddRow(g: GroupSums, b: Row): GroupSums {
    GroupSums(g.requests + b.requests, g.records + b.records, g.errors + b.errors,
              g.requestRate + b.requestRate, g.recordRate + b.recordRate,
              g.weight + b.requests as real, g.weighted + b.avgLatencyMs * b.requests as real,
              AddCounts(g.kinds, b.byKind))
  }

  function MergedRow(start: real, group: seq<Row>): Row {
    var g := SumGroup(group);
    Row(start, g.requests, g.records, g.errors, g.requestRate, g.recordRate,
        Ratio(g.errors as real, g.requests as real), MeanFrom(g.weighted, g.weight), g.kinds)
  }

  function MergedRowsAt(rows: seq<Row>, starts: seq<real>): seq<Row> {
    if starts == [] then []
    else
      var start := starts[|starts| - 1];
      MergedRowsAt(rows, starts[..|starts| - 1]) + [MergedRow(start, GroupAt(rows, start))]
  }

  ghost function SortedStarts(rows: seq<Row>): (s: seq<real>)
    ensures Elems(s) == Starts(rows) && forall i, j :: 0 <= i < j < |s| ==> s[i] < s[j]
  {
    RealsAreOrdered();
    Sorted(Starts(rows), LeReal)
  }

  /** The merged series: one row per start that any shard reports, in time order. */
  ghost function MergedRows(results: seq<seq<Row>>): seq<Row> {
    MergedRowsAt(Flatten(results), SortedStarts(Flatten(results)))
  }

  /** by_start: each start with the rows that report it. */
  ghost predicate GroupedBy(byStart: map<real, seq<Row>>, rows: seq<Row>) {
    byStart.Keys == Starts(rows) && forall s :: s in byStart ==> byStart[s] == GroupAt(rows, s)
  }

  lemma GroupedBySnoc(byStart: map<real, seq<Row>>, rows: seq<Row>, b: Row)
    requires GroupedBy(byStart, rows)
    ensures GroupedBy(byStart[b.start := (if b.start in byStart then byStart[b.start] else []) + [b]], rows + [b])
  {
    assert (rows + [b])[..|rows|] == rows;
    assert Starts(rows + [b]) == Starts(rows) + {b.start} by {
      assert forall r :: r in rows + [b] <==> r in rows || r == b;
    }
    NotStarted(rows, b.start);
  }

  lemma {:induction false} NotStarted(rows: seq<Row>, start: real)
    ensures start !in Starts(rows) ==> GroupAt(rows, start) == []
  {
    if rows != [] {
      var front, last := rows[..|rows| - 1], rows[|rows| - 1];
      NotStarted(front, start);
      assert rows == front + [last];
      assert last in rows && last.start in Starts(rows);
      assert Starts(front) <= Starts(rows);
    }
  }

  method GroupRows(results: seq<seq<Row>>) returns (byStart: map<real, seq<Row>>)
    ensures GroupedBy(byStart, Flatten(results))
  {
    byStart := map[];
    for i := 0 to |results|
      invariant GroupedBy(byStart, Flatten(results[..i]))
    {
      ghost var done := Flatten(results[..i]);
      assert results[..i + 1] == results[..i] + [results[i]];
      FlattenSnoc(results[..i], results[i]);
      assert done + results[i][..0] == done;
      for j := 0 to |results[i]|
        invariant GroupedBy(byStart, done + results[i][..j])
      {
        var b := results[i][j];
        GroupedBySnoc(byStart, done + results[i][..j], b);
        assert done + results[i][..j + 1] == done + results[i][..j] + [b];
        byStart := byStart[b.start := (if b.start in byStart then byStart[b.start] else []) + [b]];
      }
      assert results[i][..|results[i]|] == results[i];
    }
    assert results[..|results|] == results;
  }

  method SortReals(S: set<real>) returns (s: seq<real>)
    ensures Elems(s) == S && forall i, j :: 0 <= i < j < |s| ==> s[i] < s[j]
  {
    RealsAreOrdered();
    s := SortSet(S, LeReal);
  }

  lemma TheOnlyStarts(rows: seq<Row>, s: seq<real>)
    requires Elems(s) == Starts(rows) && forall i, j :: 0 <= i < j < |s| ==> s[i] < s[j]
    ensures s == SortedStarts(rows)
  {
    RealsAreOrdered();
    SortedIsUnique(s, SortedStarts(rows), LeReal);
  }

  method MergeBuckets(results: seq<seq<Row>>) returns (merged: seq<Row>)
    ensures merged == MergedRows(results)
  {
    ghost var rows := Flatten(results);
    var byStart := GroupRows(results);
    var order := SortReals(byStart.Keys);
    TheOnlyStarts(rows, order);
    merged := [];
    for k := 0 to |order|
      invariant merged == MergedRowsAt(rows, order[..k])
    {
      assert order[k] in Elems(order);
      assert order[..k + 1][..k] == order[..k];
      assert order[..k + 1][k] == order[k];
      merged := merged + [MergedRow(order[k], byStart[order[k]])];
    }
    assert order[..|order|] == order;
  }

  // ---------------------------------------------------------------- headline latency

  /** The least of the truthy values: a value of exactly zero is skipped. */
  function MinTruthy(xs: seq<real>): Option<real> {
    if xs == [] then None
    else
      var front, x := MinTruthy(xs[..|xs| - 1]), xs[|xs| - 1];
      if x == 0.0 then front else Lower(front, x)
  }

  function MaxTruthy(xs: seq<real>): Option<real> {
    if xs == [] then None
    else
      var front, x := MaxTruthy(xs[..|xs| - 1]), xs[|xs| - 1];
      if x == 0.0 then front else Higher(front, x)
  }

  function Mins(ls: seq<Latency>): (r: seq<real>)
    ensures |r| == |ls|
  {
    seq(|ls|, i requires 0 <= i < |ls| => ls[i].min)
  }

  function Maxes(ls: seq<Latency>): (r: seq<real>)
    ensures |r| == |ls|
  {
    seq(|ls|, i requires 0 <= i < |ls| => ls[i].max)
  }

  function Means(ls: seq<Latency>): (r: seq<real>)
    ensures |r| == |ls|
  {
    seq(|ls|, i requires 0 <= i < |ls| => ls[i].mean)
  }

  function SampleCounts(ls: seq<Latency>): (r: seq<real>)
    ensures |r| == |ls|
  {
    seq(|ls|, i requires 0 <= i < |ls| => ls[i].sampleCount as real)
  }

  function TotalSamples(ls: seq<Latency>): nat {
    if ls == [] then 0 else TotalSamples(ls[..|ls| - 1]) + ls[|ls| - 1].sampleCount
  }

  function TotalSeen(ls: seq<Latency>): nat {
    if ls == [] then 0 else TotalSeen(ls[..|ls| - 1]) + ls[|ls| - 1].samplesSeen
  }

  function MergedLatency(ls: seq<Latency>): Latency {
    Latency(OrZero(MinTruthy(Mins(ls))), OrZero(MaxTruthy(Maxes(ls))), WeightedMean(Means(ls), SampleCounts(ls)),
            TotalSamples(ls), TotalSeen(ls))
  }

  method MergeLatency(ls: seq<Latency>) returns (r: Latency)
    ensures r == MergedLatency(ls)
  {
    var min: Option<real>, max: Option<real> := None, None;
    var samples: nat, seen: nat := 0, 0;
    for i := 0 to |ls|
      invariant min == MinTruthy(Mins(ls[..i])) && max == MaxTruthy(Maxes(ls[..i]))
      invariant samples == TotalSamples(ls[..i]) && seen == TotalSeen(ls[..i])
    {
      assert ls[..i + 1][..i] == ls[..i];
      assert Mins(ls[..i + 1])[..i] == Mins(ls[..i]) && Maxes(ls[..i + 1])[..i] == Maxes(ls[..i]);
      if ls[i].min != 0.0 {
        min := Lower(min, ls[i].min);
      }
      if ls[i].max != 0.0 {
        max := Higher(max, ls[i].max);
      }
      samples, seen := samples + ls[i].sampleCount, seen + ls[i].samplesSeen;
    }
    assert ls[..|ls|] == ls;
    r := Latency(OrZero(min), OrZero(max), WeightedMean(Means(ls), SampleCounts(ls)), samples, seen);
  }

  // ---------------------------------------------------------------- whole results

  function AllTotals(ss: seq<Snapshot>): seq<Totals> {
    seq(|ss|, i requires 0 <= i < |ss| => ss[i].totals)
  }

  function AllLatencies(ss: seq<Snapshot>): (r: seq<Latency>)
    ensures |r| == |ss|
  {
    seq(|ss|, i requires 0 <= i < |ss| => ss[i].latency)
  }

  function AllRows(ss: seq<Snapshot>): seq<seq<Row>> {
    seq(|ss|, i requires 0 <= i < |ss| => ss[i].rows)
  }

  ghost function Merged(ss: seq<Snapshot>): Snapshot {
    Snapshot(TotalsColumns(AllTotals(ss)), MergedLatency(AllLatencies(ss)), MergedRows(AllRows(ss)))
  }

  /** At least one shard result is required. */
  method Merge(ss: seq<Snapshot>) returns (r: Option<Snapshot>)
    ensures r == if ss == [] then None else Some(Merged(ss))
  {
    if ss == [] {
      return None;
    }
    var totals := MergeTotals(AllTotals(ss));
    var latency := MergeLatency(AllLatencies(ss));
    var rows := MergeBuckets(AllRows(ss));
    r := Some(Snapshot(totals, latency, rows));
  }
}
