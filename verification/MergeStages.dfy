/** Merging in stages gives the same result, field by field, as merging all shards at once
    (scripts/perf_merge_results.py). */
module MergeStages {
  import opened Common
  import opened Sums
  import opened LoadStats
  import opened Aggregator
  import opened MergeResults
  import opened MergeLaws
  import opened MergeLatencyLaws

  // ---------------------------------------------------------------- extremes

  lemma {:induction false} MinTruthyAppend(a: seq<real>, b: seq<real>)
    ensures MinTruthy(a + b) ==
            if MinTruthy(b).None? then MinTruthy(a) else Lower(MinTruthy(a), MinTruthy(b).value)
  {
    if b == [] {
      assert a + b == a;
    } else {
      assert (a + b)[..|a + b| - 1] == a + b[..|b| - 1];
      MinTruthyAppend(a, b[..|b| - 1]);
    }
  }

  lemma {:induction false} MaxTruthyAppend(a: seq<real>, b: seq<real>)
    ensures MaxTruthy(a + b) ==
            if MaxTruthy(b).None? then MaxTruthy(a) else Higher(MaxTruthy(a), MaxTruthy(b).value)
  {
    if b == [] {
      assert a + b == a;
    } else {
      assert (a + b)[..|a + b| - 1] == a + b[..|b| - 1];
      MaxTruthyAppend(a, b[..|b| - 1]);
    }
  }

  lemma ExtremesSnoc(ys: seq<real>, x: real)
    ensures MinTruthy(ys + [x]) == if x == 0.0 then MinTruthy(ys) else Lower(MinTruthy(ys), x)
    ensures MaxTruthy(ys + [x]) == if x == 0.0 then MaxTruthy(ys) else Higher(MaxTruthy(ys), x)
  {
    assert (ys + [x])[..|ys|] == ys;
  }

  /** A group's merged extremes stand for those of its shards: a hidden zero is skipped again. */
  lemma ExtremesOfGroup(ys: seq<real>, a: seq<real>, b: seq<real>)
    ensures MinTruthy(ys) == MinTruthy(a) ==> MinTruthy(ys + [OrZero(MinTruthy(b))]) == MinTruthy(a + b)
    ensures MaxTruthy(ys) == MaxTruthy(a) ==> MaxTruthy(ys + [OrZero(MaxTruthy(b))]) == MaxTruthy(a + b)
  {
    MinTruthyAppend(a, b);
    MaxTruthyAppend(a, b);
    MinTruthyMeaning(b);
    MaxTruthyMeaning(b);
    ExtremesSnoc(ys, OrZero(MinTruthy(b)));
    ExtremesSnoc(ys, OrZero(MaxTruthy(b)));
  }

  // ---------------------------------------------------------------- weighted sums

  lemma {:induction false} DotAppend(a: seq<real>, v: seq<real>, b: seq<real>, w: seq<real>)
    requires |a| == |v| && |b| == |w|
    ensures Dot(a + b, v + w) == Dot(a, v) + Dot(b, w)
  {
    if b == [] {
      assert a + b == a && v + w == v;
    } else {
      var n := |b| - 1;
      assert (a + b)[..|a| + n] == a + b[..n] && (v + w)[..|v| + n] == v + w[..n];
      DotAppend(a, v, b[..n], w[..n]);
      DotLast(a + b, v + w, |a| + n);
      DotLast(b, w, n);
    }
  }

  lemma {:induction false} NoWeightNoSum(ls: seq<Latency>)
    ensures SumReals(SampleCounts(ls)) == TotalSamples(ls) as real
    ensures TotalSamples(ls) == 0 ==> Dot(Means(ls), SampleCounts(ls)) == 0.0
  {
    if ls != [] {
      var n := |ls| - 1;
      NoWeightNoSum(ls[..n]);
      assert SampleCounts(ls)[..n] == SampleCounts(ls[..n]) && Means(ls)[..n] == Means(ls[..n]);
      DotLast(Means(ls), SampleCounts(ls), n);
    }
  }

  /** A group's mean times its weight is its weighted sum. */
  lemma MeanTimesWeight(ls: seq<Latency>)
    ensures Mul(WeightedMean(Means(ls), SampleCounts(ls)), TotalSamples(ls) as real) == Dot(Means(ls), SampleCounts(ls))
  {
    NoWeightNoSum(ls);
    if TotalSamples(ls) > 0 {
      Restore(Dot(Means(ls), SampleCounts(ls)), TotalSamples(ls) as real);
    }
  }

  lemma Restore(x: real, w: real)
    requires w > 0.0
    ensures Mul(x / w, w) == x
  {
  }

  // ---------------------------------------------------------------- the latency block

  function LatencyEach(lss: seq<seq<Latency>>): (r: seq<Latency>)
    ensures |r| == |lss| && forall k :: 0 <= k < |lss| ==> r[k] == MergedLatency(lss[k])
  {
    if lss == [] then [] else LatencyEach(lss[..|lss| - 1]) + [MergedLatency(lss[|lss| - 1])]
  }

  lemma ColumnsAppend(a: seq<Latency>, b: seq<Latency>)
    ensures Mins(a + b) == Mins(a) + Mins(b) && Maxes(a + b) == Maxes(a) + Maxes(b)
    ensures Means(a + b) == Means(a) + Means(b) && SampleCounts(a + b) == SampleCounts(a) + SampleCounts(b)
  {
  }

  lemma {:induction false} TotalsAppend(a: seq<Latency>, b: seq<Latency>)
    ensures TotalSamples(a + b) == TotalSamples(a) + TotalSamples(b)
    ensures TotalSeen(a + b) == TotalSeen(a) + TotalSeen(b)
  {
    if b == [] {
      assert a + b == a;
    } else {
      assert (a + b)[..|a + b| - 1] == a + b[..|b| - 1];
      TotalsAppend(a, b[..|b| - 1]);
    }
  }

  /** The same extremes, weighted sum and counts. */
  ghost predicate Equivalent(ys: seq<Latency>, xs: seq<Latency>) {
    && MinTruthy(Mins(ys)) == MinTruthy(Mins(xs)) && MaxTruthy(Maxes(ys)) == MaxTruthy(Maxes(xs))
    && Dot(Means(ys), SampleCounts(ys)) == Dot(Means(xs), SampleCounts(xs))
    && TotalSamples(ys) == TotalSamples(xs) && TotalSeen(ys) == TotalSeen(xs)
  }

  lemma EquivalentMerge(ys: seq<Latency>, xs: seq<Latency>)
    requires Equivalent(ys, xs)
    ensures MergedLatency(ys) == MergedLatency(xs)
  {
    NoWeightNoSum(ys);
    NoWeightNoSum(xs);
  }

  lemma ExtremesOfOneMore(ys: seq<Latency>, xs: seq<Latency>, group: seq<Latency>)
    requires Equivalent(ys, xs)
    ensures MinTruthy(Mins(ys + [MergedLatency(group)])) == MinTruthy(Mins(xs + group))
    ensures MaxTruthy(Maxes(ys + [MergedLatency(group)])) == MaxTruthy(Maxes(xs + group))
  {
    var g := MergedLatency(group);
    ColumnsAppend(ys, [g]);
    ColumnsAppend(xs, group);
    assert Mins([g]) == [g.min] && Maxes([g]) == [g.max];
    ExtremesOfGroup(Mins(ys), Mins(xs), Mins(group));
    ExtremesOfGroup(Maxes(ys), Maxes(xs), Maxes(group));
  }

  lemma SumsOfOneMore(ys: seq<Latency>, xs: seq<Latency>, group: seq<Latency>)
    requires Equivalent(ys, xs)
    ensures var g := [MergedLatency(group)];
            Dot(Means(ys + g), SampleCounts(ys + g)) == Dot(Means(xs + group), SampleCounts(xs + group))
  {
    var g := MergedLatency(group);
    ColumnsAppend(ys, [g]);
    ColumnsAppend(xs, group);
    DotAppend(Means(ys), SampleCounts(ys), Means([g]), SampleCounts([g]));
    DotAppend(Means(xs), SampleCounts(xs), Means(group), SampleCounts(group));
    DotOfOne(g);
    MeanTimesWeight(group);
  }

  lemma DotOfOne(g: Latency)
    ensures Dot(Means([g]), SampleCounts([g])) == Mul(g.mean, g.sampleCount as real)
  {
    assert Means([g])[..0] == [] && SampleCounts([g])[..0] == [];
    DotLast(Means([g]), SampleCounts([g]), 0);
  }

  lemma OneMoreGroup(ys: seq<Latency>, xs: seq<Latency>, group: seq<Latency>)
    requires Equivalent(ys, xs)
    ensures Equivalent(ys + [MergedLatency(group)], xs + group)
  {
    var g := MergedLatency(group);
    ExtremesOfOneMore(ys, xs, group);
    SumsOfOneMore(ys, xs, group);
    TotalsAppend(ys, [g]);
    TotalsAppend(xs, group);
    assert [g][..0] == [];
  }

  lemma {:induction false} LatencyInStages(lss: seq<seq<Latency>>)
    ensures Equivalent(LatencyEach(lss), Flatten(lss))
  {
    if lss != [] {
      var front, last := lss[..|lss| - 1], lss[|lss| - 1];
      LatencyInStages(front);
      OneMoreGroup(LatencyEach(front), Flatten(front), last);
      assert lss == front + [last];
      FlattenSnoc(front, last);
    }
  }

  // ---------------------------------------------------------------- whole results

  function LatenciesEach(groups: seq<seq<Snapshot>>): (r: seq<seq<Latency>>)
    ensures |r| == |groups| && forall k :: 0 <= k < |groups| ==> r[k] == AllLatencies(groups[k])
  {
    if groups == [] then [] else LatenciesEach(groups[..|groups| - 1]) + [AllLatencies(groups[|groups| - 1])]
  }

  lemma {:induction false} LatenciesOfGroups(groups: seq<seq<Snapshot>>)
    ensures AllLatencies(Flatten(groups)) == Flatten(LatenciesEach(groups))
  {
    if groups != [] {
      var front, last := groups[..|groups| - 1], groups[|groups| - 1];
      LatenciesOfGroups(front);
      assert groups == front + [last];
      FlattenSnoc(front, last);
      FlattenSnoc(LatenciesEach(front), AllLatencies(last));
      assert AllLatencies(Flatten(front) + last) == AllLatencies(Flatten(front)) + AllLatencies(last);
    }
  }

  lemma LatencyOfMerged(ss: seq<Snapshot>)
    ensures Merged(ss).latency == MergedLatency(AllLatencies(ss))
  {
  }

  lemma LatenciesOfMerged(groups: seq<seq<Snapshot>>)
    ensures AllLatencies(MergedEach(groups)) == LatencyEach(LatenciesEach(groups))
  {
    var a, b := AllLatencies(MergedEach(groups)), LatencyEach(LatenciesEach(groups));
    forall k | 0 <= k < |groups| ensures a[k] == b[k] {
      LatencyOfMerged(groups[k]);
    }
  }

  /** Merging each group of shards and then the group results is merging all shards at once: the whole
      result is the same, the inexact figures included. */
  lemma StagesDoNotMatter(groups: seq<seq<Snapshot>>, shards: seq<seq<seq<Observation>>>, width: real)
    requires width > 0.0 && |groups| == |shards|
    requires forall g :: 0 <= g < |groups| ==> AllRepresent(groups[g], shards[g], width)
    ensures Merged(MergedEach(groups)) == Merged(Flatten(groups))
  {
    MergeInStages(groups, shards, width);
    LatenciesOfGroups(groups);
    LatenciesOfMerged(groups);
    LatencyInStages(LatenciesEach(groups));
    EquivalentMerge(AllLatencies(MergedEach(groups)), AllLatencies(Flatten(groups)));
  }
}
