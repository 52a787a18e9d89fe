/** Merging shard results is exact: what is reported for the shards together is what one aggregator
    would have reported, and the cases in which it is not (scripts/perf_merge_results.py). */
module MergeLaws {
  import opened Common
  import opened Sums
  import opened LoadStats
  import opened Aggregator
  import opened MergeResults

  /** The exact fields of the result are those of one aggregator fed these observations. */
  ghost predicate Represents(s: Snapshot, obs: seq<Observation>, width: real)
    requires width > 0.0
  {
    s.totals == TotalsOf(obs) && s.rows == Series(obs, width) && s.latency.samplesSeen == |obs|
  }

  ghost predicate AllRepresent(ss: seq<Snapshot>, shards: seq<seq<Observation>>, width: real)
    requires width > 0.0
  {
    |ss| == |shards| && forall k :: 0 <= k < |ss| ==> Represents(ss[k], shards[k], width)
  }

  // ---------------------------------------------------------------- totals

  lemma NoTotals()
    ensures TotalsOf([]) == Totals(0, 0, 0, 0.0, map[], map[])
  {
    BucketOfNone();
    assert Tally(Statuses([])) == map[];
  }

  /** All the shards' observations, shard after shard. */
  function ObsOfAll(shards: seq<seq<Observation>>): seq<Observation> {
    if shards == [] then [] else ObsOfAll(shards[..|shards| - 1]) + shards[|shards| - 1]
  }

  lemma {:induction false} ObsOfAllIsFlatten(shards: seq<seq<Observation>>)
    ensures ObsOfAll(shards) == Flatten(shards)
  {
    if shards != [] {
      var n := |shards| - 1;
      ObsOfAllIsFlatten(shards[..n]);
      assert shards == shards[..n] + [shards[n]];
      FlattenSnoc(shards[..n], shards[n]);
    }
  }

  ghost function TotalsEach(shards: seq<seq<Observation>>): (ts: seq<Totals>)
    ensures |ts| == |shards| && forall k :: 0 <= k < |shards| ==> ts[k] == TotalsOf(shards[k])
  {
    if shards == [] then [] else TotalsEach(shards[..|shards| - 1]) + [TotalsOf(shards[|shards| - 1])]
  }

  lemma {:induction false} TotalsAddUp(shards: seq<seq<Observation>>)
    ensures TotalsColumns(TotalsEach(shards)) == TotalsOf(ObsOfAll(shards))
  {
    if shards == [] {
      NoTotals();
    } else {
      var n := |shards| - 1;
      TotalsAddUp(shards[..n]);
      var ts := TotalsEach(shards);
      assert ts[..n] == TotalsEach(shards[..n]);
      TotalsOfAppend(ObsOfAll(shards[..n]), shards[n]);
    }
  }

  lemma TotalsOfAppend(a: seq<Observation>, b: seq<Observation>)
    ensures TotalsOf(a + b) == AddTotals(TotalsOf(a), TotalsOf(b))
  {
    BucketOfAppend(a, b);
    StatusesAppend(a, b);
  }

  // ---------------------------------------------------------------- one time bucket

  /** A group's columns are those of a bucket: counts, rates, and latency weighted by requests. */
  ghost predicate Adds(g: GroupSums, width: real, b: Bucket)
    requires width > 0.0
  {
    && g.requests == b.requests && g.records == b.records && g.errors == b.errors && g.kinds == b.byKind
    && g.requestRate == b.requests as real / width && g.recordRate == b.records as real / width
    && g.weight == b.requests as real && g.weighted == b.latencySum * 1000.0
  }

  lemma Rates(a: int, b: int, width: real)
    requires width > 0.0
    ensures a as real / width + b as real / width == (a + b) as real / width
  {
  }

  lemma AverageTimesRequests(b: Bucket)
    requires b.requests == 0 ==> b.latencySum == 0.0
    ensures Ratio(b.latencySum, b.requests as real) * 1000.0 * b.requests as real == b.latencySum * 1000.0
  {
    if b.requests > 0 {
      var q, r := b.latencySum / b.requests as real, b.requests as real;
      assert q * r == b.latencySum;
      assert q * 1000.0 * r == (q * r) * 1000.0;
    }
  }

  lemma AddsRow(g: GroupSums, width: real, b: Bucket, row: Row, c: Bucket)
    requires width > 0.0 && Adds(g, width, b)
    requires row.requests == c.requests && row.records == c.records && row.errors == c.errors && row.byKind == c.byKind
    requires row.requestRate == c.requests as real / width && row.recordRate == c.records as real / width
    requires row.avgLatencyMs * c.requests as real == c.latencySum * 1000.0
    ensures Adds(AddRow(g, row), width, AddBuckets(b, c))
  {
    Rates(b.requests, c.requests, width);
    Rates(b.records, c.records, width);
  }

  lemma AddsSnoc(group: seq<Row>, width: real, i: int, b: Bucket, c: Bucket)
    requires width > 0.0 && Adds(SumGroup(group), width, b) && (c.requests == 0 ==> c.latencySum == 0.0)
    ensures Adds(SumGroup(group + [RowFrom(i, width, c)]), width, AddBuckets(b, c))
  {
    var row := RowFrom(i, width, c);
    SumGroupSnoc(group, row);
    AverageTimesRequests(c);
    AddsRow(SumGroup(group), width, b, row, c);
  }

  lemma SumGroupSnoc(group: seq<Row>, row: Row)
    ensures SumGroup(group + [row]) == AddRow(SumGroup(group), row)
  {
    assert (group + [row])[..|group|] == group;
  }

  lemma MeanOfGroup(latencySum: real, requests: nat)
    requires requests > 0
    ensures (latencySum * 1000.0) / requests as real == latencySum / requests as real * 1000.0
  {
  }

  /** A group that adds up to a bucket merges to that bucket's row. */
  lemma MergedRowIsExact(group: seq<Row>, width: real, i: int, b: Bucket)
    requires width > 0.0 && Adds(SumGroup(group), width, b) && (b.requests == 0 ==> b.latencySum == 0.0)
    ensures MergedRow(StartOf(i, width), group) == RowFrom(i, width, b)
  {
    if b.requests > 0 {
      MeanOfGroup(b.latencySum, b.requests);
    }
  }

  lemma NoRequestsNoLatency(obs: seq<Observation>)
    ensures BucketOf(obs).requests == 0 ==> BucketOf(obs).latencySum == 0.0
  {
  }

  // ---------------------------------------------------------------- the shards' rows for one bucket

  lemma StartsAreDistinct(i: int, j: int, width: real)
    requires width > 0.0
    ensures StartOf(i, width) == StartOf(j, width) <==> i == j
    ensures i < j ==> StartOf(i, width) < StartOf(j, width)
  {
    assert StartOf(j, width) - StartOf(i, width) == (j - i) as real * width;
    if i < j {
      assert (j - i) as real * width >= 1.0 * width;
    } else if j < i {
      assert (i - j) as real * width >= 1.0 * width;
      assert StartOf(i, width) - StartOf(j, width) == (i - j) as real * width;
    }
  }

  lemma {:induction false} GroupAppend(a: seq<Row>, b: seq<Row>, start: real)
    ensures GroupAt(a + b, start) == GroupAt(a, start) + GroupAt(b, start)
  {
    if b == [] {
      assert a + b == a;
    } else {
      assert (a + b)[..|a + b| - 1] == a + b[..|b| - 1];
      GroupAppend(a, b[..|b| - 1], start);
    }
  }

  /** A series reports each of its buckets in one row, and no other bucket. */
  lemma {:induction false} OneRowEach(obs: seq<Observation>, width: real, bs: seq<int>, i: int)
    requires width > 0.0 && NoDup(bs)
    ensures GroupAt(RowsAt(obs, width, bs), StartOf(i, width)) == if i in bs then [RowOf(obs, width, i)] else []
  {
    if bs != [] {
      var front, last := bs[..|bs| - 1], bs[|bs| - 1];
      OneRowEach(obs, width, front, i);
      assert bs == front + [last];
      assert last !in front;
      OneMoreRow(obs, width, front, last, i);
    }
  }

  lemma OneMoreRow(obs: seq<Observation>, width: real, front: seq<int>, last: int, i: int)
    requires width > 0.0 && last !in front
    requires GroupAt(RowsAt(obs, width, front), StartOf(i, width)) == if i in front then [RowOf(obs, width, i)] else []
    ensures GroupAt(RowsAt(obs, width, front + [last]), StartOf(i, width)) ==
            if i in front + [last] then [RowOf(obs, width, i)] else []
  {
    var row := RowOf(obs, width, last);
    RowsAtSnoc(obs, width, front, last);
    StartsAreDistinct(last, i, width);
    GroupSnoc(RowsAt(obs, width, front), row, StartOf(i, width));
  }

  lemma RowsAtSnoc(obs: seq<Observation>, width: real, bs: seq<int>, b: int)
    requires width > 0.0
    ensures RowsAt(obs, width, bs + [b]) == RowsAt(obs, width, bs) + [RowOf(obs, width, b)]
    ensures RowOf(obs, width, b).start == StartOf(b, width)
  {
    assert (bs + [b])[..|bs|] == bs;
  }

  lemma GroupSnoc(rows: seq<Row>, row: Row, start: real)
    ensures GroupAt(rows + [row], start) ==
            if row.start == start then GroupAt(rows, start) + [row] else GroupAt(rows, start)
  {
    assert (rows + [row])[..|rows|] == rows;
  }

  /** All the shards' rows, shard after shard. */
  ghost function RowsOfAll(shards: seq<seq<Observation>>, width: real): seq<Row>
    requires width > 0.0
  {
    if shards == [] then [] else RowsOfAll(shards[..|shards| - 1], width) + Series(shards[|shards| - 1], width)
  }

  /** What one shard contributes to one bucket. */
  ghost function RowIfAny(shard: seq<Observation>, width: real, i: int): seq<Row>
    requires width > 0.0
  {
    if i in Indices(shard, width) then [RowOf(shard, width, i)] else []
  }

  lemma GroupOfSeries(shard: seq<Observation>, width: real, i: int)
    requires width > 0.0
    ensures GroupAt(Series(shard, width), StartOf(i, width)) == RowIfAny(shard, width, i)
  {
    var bs := SortedIndices(shard, width);
    OneRowEach(shard, width, bs, i);
    assert i in bs <==> i in Elems(bs);
  }

  lemma AddOneShard(group: seq<Row>, before: seq<Observation>, shard: seq<Observation>, width: real, i: int)
    requires width > 0.0 && Adds(SumGroup(group), width, BucketOf(before))
    ensures Adds(SumGroup(group + RowIfAny(shard, width, i)), width, BucketOf(before + InBucket(shard, width, i)))
  {
    var here := InBucket(shard, width, i);
    ListedIffOccupied(shard, width, i);
    if i in Indices(shard, width) {
      NoRequestsNoLatency(here);
      BucketOfAppend(before, here);
      AddsSnoc(group, width, i, BucketOf(before), BucketOf(here));
    } else {
      assert group + [] == group;
      assert before + here == before;
    }
  }

  /** Over all shards, the rows of one bucket add up to that bucket of all the observations. */
  lemma {:induction false} ShardsAddUp(shards: seq<seq<Observation>>, width: real, i: int)
    requires width > 0.0
    ensures Adds(SumGroup(GroupAt(RowsOfAll(shards, width), StartOf(i, width))), width,
                 BucketOf(InBucket(ObsOfAll(shards), width, i)))
  {
    if shards == [] {
      BucketOfNone();
    } else {
      var front, last := shards[..|shards| - 1], shards[|shards| - 1];
      ShardsAddUp(front, width, i);
      GroupAppend(RowsOfAll(front, width), Series(last, width), StartOf(i, width));
      GroupOfSeries(last, width, i);
      InBucketAppend(ObsOfAll(front), last, width, i);
      AddOneShard(GroupAt(RowsOfAll(front, width), StartOf(i, width)), InBucket(ObsOfAll(front), width, i), last,
                  width, i);
    }
  }

  // ---------------------------------------------------------------- the whole series

  lemma {:induction false} StartsOfRows(obs: seq<Observation>, width: real, bs: seq<int>, s: real)
    requires width > 0.0
    ensures s in Starts(RowsAt(obs, width, bs)) <==> exists i :: i in bs && s == StartOf(i, width)
  {
    if bs != [] {
      var front, last := bs[..|bs| - 1], bs[|bs| - 1];
      StartsOfRows(obs, width, front, s);
      assert bs == front + [last];
      var row := RowOf(obs, width, last);
      StartsAppend(RowsAt(obs, width, front), [row]);
      assert Starts([row]) == {row.start};
    }
  }

  /** s is the start of a listed bucket. */
  ghost predicate StartsABucket(s: real, bs: set<int>, width: real) {
    exists i :: i in bs && s == StartOf(i, width)
  }

  lemma StartsOfSeries(obs: seq<Observation>, width: real, s: real)
    requires width > 0.0
    ensures s in Starts(Series(obs, width)) <==> StartsABucket(s, Indices(obs, width), width)
  {
    var bs := SortedIndices(obs, width);
    StartsOfRows(obs, width, bs, s);
    assert forall i :: i in bs <==> i in Elems(bs);
  }

  lemma StartsAppend(a: seq<Row>, b: seq<Row>)
    ensures Starts(a + b) == Starts(a) + Starts(b)
  {
    assert forall r :: r in a + b <==> r in a || r in b;
  }

  lemma {:induction false} StartsOfShards(shards: seq<seq<Observation>>, width: real, s: real)
    requires width > 0.0
    ensures s in Starts(RowsOfAll(shards, width)) <==> StartsABucket(s, Indices(ObsOfAll(shards), width), width)
  {
    if shards != [] {
      var front, last := shards[..|shards| - 1], shards[|shards| - 1];
      StartsOfShards(front, width, s);
      IndicesAppend(ObsOfAll(front), last, width);
      StartsOfSeries(last, width, s);
      StartsAppend(RowsOfAll(front, width), Series(last, width));
      assert StartsABucket(s, Indices(ObsOfAll(front), width) + Indices(last, width), width) <==>
             StartsABucket(s, Indices(ObsOfAll(front), width), width) || StartsABucket(s, Indices(last, width), width);
    }
  }

  function StartsAt(bs: seq<int>, width: real): (s: seq<real>)
    ensures |s| == |bs|
  {
    seq(|bs|, k requires 0 <= k < |bs| => StartOf(bs[k], width))
  }

  lemma StartsInOrder(shards: seq<seq<Observation>>, width: real)
    requires width > 0.0
    ensures SortedStarts(RowsOfAll(shards, width)) == StartsAt(SortedIndices(ObsOfAll(shards), width), width)
  {
    var bs := SortedIndices(ObsOfAll(shards), width);
    var s := StartsAt(bs, width);
    forall i, j | 0 <= i < j < |s| ensures s[i] < s[j] {
      StartsAreDistinct(bs[i], bs[j], width);
    }
    forall x ensures x in Elems(s) <==> x in Starts(RowsOfAll(shards, width)) {
      StartsOfShards(shards, width, x);
      InStartsAt(bs, width, x);
    }
    TheOnlyStarts(RowsOfAll(shards, width), s);
  }

  lemma InStartsAt(bs: seq<int>, width: real, x: real)
    ensures x in StartsAt(bs, width) <==> StartsABucket(x, Elems(bs), width)
  {
    var s := StartsAt(bs, width);
    if x in s {
      var k :| 0 <= k < |s| && s[k] == x;
      assert bs[k] in Elems(bs);
    }
    if StartsABucket(x, Elems(bs), width) {
      var i :| i in Elems(bs) && x == StartOf(i, width);
      var k :| 0 <= k < |bs| && bs[k] == i;
      assert s[k] == x;
    }
  }

  lemma {:induction false} RowsAreExact(shards: seq<seq<Observation>>, width: real, bs: seq<int>)
    requires width > 0.0
    ensures MergedRowsAt(RowsOfAll(shards, width), StartsAt(bs, width)) == RowsAt(ObsOfAll(shards), width, bs)
  {
    if bs != [] {
      var n := |bs| - 1;
      var starts := StartsAt(bs, width);
      RowsAreExact(shards, width, bs[..n]);
      assert starts[..n] == StartsAt(bs[..n], width);
      BucketIsExact(shards, width, bs[n]);
    }
  }

  lemma BucketIsExact(shards: seq<seq<Observation>>, width: real, i: int)
    requires width > 0.0
    ensures MergedRow(StartOf(i, width), GroupAt(RowsOfAll(shards, width), StartOf(i, width))) ==
            RowOf(ObsOfAll(shards), width, i)
  {
    ShardsAddUp(shards, width, i);
    var here := InBucket(ObsOfAll(shards), width, i);
    NoRequestsNoLatency(here);
    MergedRowIsExact(GroupAt(RowsOfAll(shards, width), StartOf(i, width)), width, i, BucketOf(here));
  }

  ghost function SeriesEach(shards: seq<seq<Observation>>, width: real): (r: seq<seq<Row>>)
    requires width > 0.0
    ensures |r| == |shards| && forall k :: 0 <= k < |shards| ==> r[k] == Series(shards[k], width)
  {
    if shards == [] then [] else SeriesEach(shards[..|shards| - 1], width) + [Series(shards[|shards| - 1], width)]
  }

  lemma {:induction false} FlattenIsRowsOfAll(shards: seq<seq<Observation>>, width: real)
    requires width > 0.0
    ensures Flatten(SeriesEach(shards, width)) == RowsOfAll(shards, width)
  {
    if shards != [] {
      var front, last := shards[..|shards| - 1], shards[|shards| - 1];
      FlattenIsRowsOfAll(front, width);
      FlattenSnoc(SeriesEach(front, width), Series(last, width));
    }
  }

  lemma SeriesIsExact(shards: seq<seq<Observation>>, width: real)
    requires width > 0.0
    ensures MergedRows(SeriesEach(shards, width)) == Series(ObsOfAll(shards), width)
  {
    FlattenIsRowsOfAll(shards, width);
    StartsInOrder(shards, width);
    RowsAreExact(shards, width, SortedIndices(ObsOfAll(shards), width));
  }

  lemma {:induction false} SeenAddsUp(ls: seq<Latency>, shards: seq<seq<Observation>>)
    requires |ls| == |shards| && forall k :: 0 <= k < |ls| ==> ls[k].samplesSeen == |shards[k]|
    ensures TotalSeen(ls) == |Flatten(shards)|
  {
    if ls != [] {
      var n := |ls| - 1;
      SeenAddsUp(ls[..n], shards[..n]);
      assert shards == shards[..n] + [shards[n]];
      FlattenSnoc(shards[..n], shards[n]);
    }
  }

  lemma Columns(ss: seq<Snapshot>, shards: seq<seq<Observation>>, width: real)
    requires width > 0.0 && AllRepresent(ss, shards, width)
    ensures AllTotals(ss) == TotalsEach(shards) && AllRows(ss) == SeriesEach(shards, width)
    ensures forall k :: 0 <= k < |ss| ==> AllLatencies(ss)[k].samplesSeen == |shards[k]|
  {
    assert forall k :: 0 <= k < |ss| ==> Represents(ss[k], shards[k], width);
  }

  /** Merge is a homomorphism: if each shard's exact fields are those of one aggregator fed its
      observations, then the merged exact fields - totals, status and kind counts, and for every time
      bucket its counts, rates, error rate and average latency - are those of one aggregator fed all
      the shards' observations. */
  lemma MergeIsExact(ss: seq<Snapshot>, shards: seq<seq<Observation>>, width: real)
    requires width > 0.0 && AllRepresent(ss, shards, width)
    ensures Represents(Merged(ss), Flatten(shards), width)
  {
    ObsOfAllIsFlatten(shards);
    Columns(ss, shards, width);
    TotalsAddUp(shards);
    SeriesIsExact(shards, width);
    SeenAddsUp(AllLatencies(ss), shards);
  }

  ghost function MergedEach(groups: seq<seq<Snapshot>>): (r: seq<Snapshot>)
    ensures |r| == |groups| && forall g :: 0 <= g < |groups| ==> r[g] == Merged(groups[g])
  {
    if groups == [] then [] else [Merged(groups[0])] + MergedEach(groups[1..])
  }

  ghost function FlattenEach<T>(sss: seq<seq<seq<T>>>): (r: seq<seq<T>>)
    ensures |r| == |sss| && forall g :: 0 <= g < |sss| ==> r[g] == Flatten(sss[g])
  {
    if sss == [] then [] else [Flatten(sss[0])] + FlattenEach(sss[1..])
  }

  /** Merging in stages: merging each group of shards and then the group results gives the same exact
      fields as merging all shards at once. */
  lemma MergeInStages(groups: seq<seq<Snapshot>>, shards: seq<seq<seq<Observation>>>, width: real)
    requires width > 0.0 && |groups| == |shards|
    requires forall g :: 0 <= g < |groups| ==> AllRepresent(groups[g], shards[g], width)
    ensures var once := Merged(Flatten(groups));
            var staged := Merged(MergedEach(groups));
            once.totals == staged.totals && once.rows == staged.rows
            && once.latency.samplesSeen == staged.latency.samplesSeen
  {
    var stage, seen := MergedEach(groups), FlattenEach(shards);
    forall g | 0 <= g < |groups| ensures Represents(stage[g], seen[g], width) {
      MergeIsExact(groups[g], shards[g], width);
    }
    MergeIsExact(stage, seen, width);
    FlattenRepresents(groups, shards, width);
    MergeIsExact(Flatten(groups), Flatten(shards), width);
    FlattenTwice(shards, seen);
  }

  lemma {:induction false} FlattenTwice<T>(sss: seq<seq<seq<T>>>, ss: seq<seq<T>>)
    requires |sss| == |ss| && forall g :: 0 <= g < |sss| ==> ss[g] == Flatten(sss[g])
    ensures Flatten(Flatten(sss)) == Flatten(ss)
  {
    if sss != [] {
      FlattenTwice(sss[1..], ss[1..]);
      FlattenAppend(sss[0], Flatten(sss[1..]));
    }
  }

  /** A relation that holds pointwise in every group holds pointwise in the concatenation. */
  lemma {:induction false} FlattenPointwise<A, B>(as_: seq<seq<A>>, bs: seq<seq<B>>, rel: (A, B) -> bool)
    requires |as_| == |bs| && forall g :: 0 <= g < |as_| ==> |as_[g]| == |bs[g]|
    requires forall g, k :: 0 <= g < |as_| && 0 <= k < |as_[g]| ==> rel(as_[g][k], bs[g][k])
    ensures |Flatten(as_)| == |Flatten(bs)|
    ensures forall k :: 0 <= k < |Flatten(as_)| ==> rel(Flatten(as_)[k], Flatten(bs)[k])
  {
    if as_ != [] {
      var p, q := as_[1..], bs[1..];
      forall g, k | 0 <= g < |p| && 0 <= k < |p[g]| ensures rel(p[g][k], q[g][k]) {
        assert p[g] == as_[g + 1] && q[g] == bs[g + 1];
      }
      FlattenPointwise(p, q, rel);
      forall k | 0 <= k < |as_[0]| ensures rel(as_[0][k], bs[0][k]) {
      }
    }
  }

  lemma FlattenRepresents(groups: seq<seq<Snapshot>>, shards: seq<seq<seq<Observation>>>, width: real)
    requires width > 0.0 && |groups| == |shards|
    requires forall g :: 0 <= g < |groups| ==> AllRepresent(groups[g], shards[g], width)
    ensures AllRepresent(Flatten(groups), Flatten(shards), width)
  {
    var rel := (s, obs) => Represents(s, obs, width);
    forall g, k | 0 <= g < |groups| && 0 <= k < |groups[g]| ensures rel(groups[g][k], shards[g][k]) {
      assert AllRepresent(groups[g], shards[g], width);
    }
    FlattenPointwise(groups, shards, rel);
    forall k | 0 <= k < |Flatten(groups)| ensures Represents(Flatten(groups)[k], Flatten(shards)[k], width) {
      assert rel(Flatten(groups)[k], Flatten(shards)[k]);
    }
  }
}
