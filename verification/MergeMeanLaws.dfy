/** When the merged mean of real shard reports is the mean of all requests
    (scripts/perf_merge_results.py). */
module MergeMeanLaws {
  import opened Common
  import opened Sums
  import opened LoadStats
  import opened Aggregator
  import opened MergeResults
  import opened MergeLaws
  import opened MergeLatencyLaws

  /** The latency blocks that the shards report. */
  function Reports(shards: seq<seq<Observation>>, capacity: nat): (ls: seq<Latency>)
    ensures |ls| == |shards|
  {
    seq(|shards|, k requires 0 <= k < |shards| => LatencyOf(shards[k], capacity))
  }

  /** How many samples a reservoir of the capacity keeps of each size. */
  function KeptCounts(sizes: seq<nat>, capacity: nat): (r: seq<real>)
    ensures |r| == |sizes|
  {
    seq(|sizes|, k requires 0 <= k < |sizes| => (if sizes[k] < capacity then sizes[k] else capacity) as real)
  }

  function SeenCounts(sizes: seq<nat>): (r: seq<real>)
    ensures |r| == |sizes|
  {
    seq(|sizes|, k requires 0 <= k < |sizes| => sizes[k] as real)
  }

  ghost predicate HasSizes(shards: seq<seq<Observation>>, sizes: seq<nat>) {
    |shards| == |sizes| && forall k :: 0 <= k < |shards| ==> |shards[k]| == sizes[k]
  }

  ghost predicate ExactFor(shards: seq<seq<Observation>>, capacity: nat) {
    MergedLatency(Reports(shards, capacity)).mean == MeanMs(ObsOfAll(shards))
  }

  /** The merged mean is right whatever the latencies are. */
  ghost predicate AlwaysExact(sizes: seq<nat>, capacity: nat) {
    forall shards :: HasSizes(shards, sizes) ==> ExactFor(shards, capacity)
  }

  /** Both means, as weighted means of the shards' means. */
  lemma TwoWeightings(shards: seq<seq<Observation>>, sizes: seq<nat>, capacity: nat)
    requires HasSizes(shards, sizes)
    ensures MergedLatency(Reports(shards, capacity)).mean ==
            WeightedMean(MeanColumn(shards), KeptCounts(sizes, capacity))
    ensures MeanMs(ObsOfAll(shards)) == WeightedMean(MeanColumn(shards), SeenCounts(sizes))
  {
    var ls := Reports(shards, capacity);
    assert Means(ls) == MeanColumn(shards);
    assert SampleCounts(ls) == KeptCounts(sizes, capacity);
    assert SizeColumn(shards) == SeenCounts(sizes);
    MeanWeightedByRequestsIsExact(shards);
  }

  // ---------------------------------------------------------------- sums of counts

  lemma {:induction false} SumSign(s: seq<real>)
    requires forall i :: 0 <= i < |s| ==> s[i] >= 0.0
    ensures SumReals(s) >= 0.0
    ensures forall i :: 0 <= i < |s| && s[i] > 0.0 ==> SumReals(s) > 0.0
    ensures (forall i :: 0 <= i < |s| ==> s[i] == 0.0) ==> SumReals(s) == 0.0
  {
    if s != [] {
      SumSign(s[..|s| - 1]);
      assert forall i :: 0 <= i < |s| - 1 ==> s[..|s| - 1][i] == s[i];
    }
  }

  lemma CountSums(sizes: seq<nat>, capacity: nat)
    requires capacity >= 1
    ensures SumReals(KeptCounts(sizes, capacity)) > 0.0 <==> exists k :: 0 <= k < |sizes| && sizes[k] > 0
    ensures SumReals(SeenCounts(sizes)) > 0.0 <==> exists k :: 0 <= k < |sizes| && sizes[k] > 0
  {
    var kept, seen := KeptCounts(sizes, capacity), SeenCounts(sizes);
    SumSign(kept);
    SumSign(seen);
    if exists k :: 0 <= k < |sizes| && sizes[k] > 0 {
      var k :| 0 <= k < |sizes| && sizes[k] > 0;
      assert kept[k] > 0.0 && seen[k] > 0.0;
    }
  }

  // ---------------------------------------------------------------- telling shards

  function Steady(size: nat, latency: real): (obs: seq<Observation>)
    ensures |obs| == size
  {
    seq(size, i => Observation(Outcome(0, "metrics", latency, 200, 1, None), 0.0))
  }

  lemma {:induction false} SteadySum(size: nat, latency: real)
    ensures SumReals(Latencies(Steady(size, latency))) == size as real * latency
  {
    if size > 0 {
      SteadySum(size - 1, latency);
      var all := Latencies(Steady(size, latency));
      assert all[..size - 1] == Latencies(Steady(size - 1, latency));
    }
  }

  lemma SteadyMean(size: nat, latency: real)
    ensures MeanMs(Steady(size, latency)) == if size == 0 then 0.0 else latency * 1000.0
  {
    SteadySum(size, latency);
    if size > 0 {
      Quotient(size as real, latency);
    }
  }

  lemma Quotient(n: real, x: real)
    requires n > 0.0
    ensures n * x / n == x
  {
  }

  /** Shards of the given sizes in which only shard k takes any time: one millisecond a request. */
  function Telling(sizes: seq<nat>, k: nat): (shards: seq<seq<Observation>>)
    ensures |shards| == |sizes|
  {
    seq(|sizes|, i requires 0 <= i < |sizes| => Steady(sizes[i], if i == k then 0.001 else 0.0))
  }

  lemma TellingMeans(sizes: seq<nat>, k: nat)
    requires k < |sizes| && sizes[k] > 0
    ensures HasSizes(Telling(sizes, k), sizes) && MeanColumn(Telling(sizes, k)) == Unit(|sizes|, k)
  {
    forall i | 0 <= i < |sizes| ensures MeanColumn(Telling(sizes, k))[i] == Unit(|sizes|, k)[i] {
      SteadyMean(sizes[i], if i == k then 0.001 else 0.0);
    }
  }

  lemma ShareOfOne(sizes: seq<nat>, capacity: nat, k: nat)
    requires capacity >= 1 && k < |sizes| && AlwaysExact(sizes, capacity)
    ensures SameShare(KeptCounts(sizes, capacity), SeenCounts(sizes), k)
  {
    var kept, seen := KeptCounts(sizes, capacity), SeenCounts(sizes);
    if sizes[k] > 0 {
      var shards := Telling(sizes, k);
      TellingMeans(sizes, k);
      assert ExactFor(shards, capacity);
      TwoWeightings(shards, sizes, capacity);
      CountSums(sizes, capacity);
      FractionOfOne(kept, seen, k);
    } else {
      assert kept[k] == 0.0 && seen[k] == 0.0;
      NothingTimes(SumReals(seen), SumReals(kept));
    }
  }

  lemma NothingTimes(x: real, y: real)
    ensures Mul(0.0, x) == 0.0 == Mul(0.0, y)
  {
  }

  // ---------------------------------------------------------------- the exact condition

  lemma ExactIfSameFraction(shards: seq<seq<Observation>>, sizes: seq<nat>, capacity: nat)
    requires capacity >= 1 && HasSizes(shards, sizes) && SameFraction(KeptCounts(sizes, capacity), SeenCounts(sizes))
    ensures ExactFor(shards, capacity)
  {
    TwoWeightings(shards, sizes, capacity);
    CountSums(sizes, capacity);
    if SumReals(SeenCounts(sizes)) > 0.0 {
      SameFractionSameMean(MeanColumn(shards), KeptCounts(sizes, capacity), SeenCounts(sizes));
    }
  }

  /** For shards of given sizes and reservoirs of a given capacity, the merged mean is the mean of all
      requests, whatever the latencies, if and only if every shard kept the same fraction of its requests. */
  lemma MergedMeanIsExactIff(sizes: seq<nat>, capacity: nat)
    requires capacity >= 1
    ensures AlwaysExact(sizes, capacity) <==> SameFraction(KeptCounts(sizes, capacity), SeenCounts(sizes))
  {
    if SameFraction(KeptCounts(sizes, capacity), SeenCounts(sizes)) {
      forall shards | HasSizes(shards, sizes) ensures ExactFor(shards, capacity) {
        ExactIfSameFraction(shards, sizes, capacity);
      }
    }
    if AlwaysExact(sizes, capacity) {
      forall k | 0 <= k < |sizes| ensures SameShare(KeptCounts(sizes, capacity), SeenCounts(sizes), k) {
        ShareOfOne(sizes, capacity, k);
      }
    }
  }

  /** So it is when no reservoir overflowed, and when all shards are of one size. */
  lemma ExactWhenUnsaturatedOrEqual(sizes: seq<nat>, capacity: nat)
    requires capacity >= 1
    requires (forall k :: 0 <= k < |sizes| ==> sizes[k] <= capacity)
             || forall k :: 0 <= k < |sizes| ==> sizes[k] == sizes[0]
    ensures AlwaysExact(sizes, capacity)
  {
    var kept, seen := KeptCounts(sizes, capacity), SeenCounts(sizes);
    forall k | 0 <= k < |sizes| ensures SameShare(kept, seen, k) {
      if forall k :: 0 <= k < |sizes| ==> sizes[k] <= capacity {
        assert kept == seen;
      } else {
        EqualShares(kept, seen, k);
      }
    }
    MergedMeanIsExactIff(sizes, capacity);
  }

  lemma EqualShares(kept: seq<real>, seen: seq<real>, k: nat)
    requires k < |kept| == |seen|
    requires forall i :: 0 <= i < |kept| ==> kept[i] == kept[0] && seen[i] == seen[0]
    ensures SameShare(kept, seen, k)
  {
    ConstantSum(kept);
    ConstantSum(seen);
    Swap(kept[0], seen[0], |kept| as real);
  }

  lemma {:induction false} ConstantSum(s: seq<real>)
    requires forall i :: 0 <= i < |s| ==> s[i] == s[0]
    ensures s != [] ==> SumReals(s) == |s| as real * s[0]
  {
    if |s| > 1 {
      ConstantSum(s[..|s| - 1]);
    } else if |s| == 1 {
      assert SumReals(s[..0]) == 0.0;
    }
  }

  lemma Swap(x: real, y: real, n: real)
    ensures Mul(x, n * y) == Mul(y, n * x)
  {
  }

  /** The merged headline figures of real shard reports: the minimum and the maximum are the true ones if
      and only if no zero is hidden; the mean is the true one if every shard kept the same fraction, and
      otherwise is wrong for some shards of the same sizes. */
  lemma HeadlineFigures(shards: seq<seq<Observation>>, sizes: seq<nat>, capacity: nat)
    requires capacity >= 1 && HasSizes(shards, sizes)
    ensures var merged := MergedLatency(Reports(shards, capacity));
            && (merged.min == MinMs(ObsOfAll(shards)) <==> !ZeroIsHidden(shards))
            && (merged.max == MaxMs(ObsOfAll(shards)) <==> !ZeroMaxIsHidden(shards))
    ensures SameFraction(KeptCounts(sizes, capacity), SeenCounts(sizes)) ==> ExactFor(shards, capacity)
    ensures !SameFraction(KeptCounts(sizes, capacity), SeenCounts(sizes)) ==>
              exists other :: HasSizes(other, sizes) && !ExactFor(other, capacity)
  {
    ExtremeColumns(shards, capacity);
    MinIsExactIff(shards);
    MaxIsExactIff(shards);
    MergedMeanIsExactIff(sizes, capacity);
  }

  lemma ExtremeColumns(shards: seq<seq<Observation>>, capacity: nat)
    ensures Mins(Reports(shards, capacity)) == MinColumn(shards)
    ensures Maxes(Reports(shards, capacity)) == MaxColumn(shards)
  {
  }

  /** The input that shows the loss: reservoirs of one sample, one request in one shard and two in the
      other. The merged mean weighs both shards alike. */
  lemma WrongMeanExample()
    ensures var shards := [Steady(1, 0.0), Steady(2, 0.3)];
            MergedLatency(Reports(shards, 1)).mean == 150.0 && MeanMs(ObsOfAll(shards)) == 200.0
  {
    var shards, sizes := [Steady(1, 0.0), Steady(2, 0.3)], [1, 2];
    TwoWeightings(shards, sizes, 1);
    ExampleColumns();
    ExampleMeans();
  }

  lemma ExampleMeans()
    ensures WeightedMean([0.0, 300.0], [1.0, 1.0]) == 150.0 && WeightedMean([0.0, 300.0], [1.0, 2.0]) == 200.0
  {
    TwoTerms(0.0, 300.0, 1.0, 1.0);
    TwoTerms(0.0, 300.0, 1.0, 2.0);
  }

  lemma ExampleColumns()
    ensures MeanColumn([Steady(1, 0.0), Steady(2, 0.3)]) == [0.0, 300.0]
    ensures KeptCounts([1, 2], 1) == [1.0, 1.0] && SeenCounts([1, 2]) == [1.0, 2.0]
  {
    SteadyMean(1, 0.0);
    SteadyMean(2, 0.3);
  }

  lemma TwoTerms(x: real, y: real, v: real, w: real)
    ensures Dot([x, y], [v, w]) == x * v + y * w && SumReals([v, w]) == v + w
  {
    assert [x, y][..1] == [x] && [v, w][..1] == [v] && [x][..0] == [] && [v][..0] == [];
    assert Dot([x], [v]) == x * v && SumReals([v]) == v;
  }
}
