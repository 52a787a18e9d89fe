/** When the merged headline latency figures are exact (scripts/perf_merge_results.py): exactly when
    no zero minimum is hidden, and exactly when every shard sampled the same fraction. */
module MergeLatencyLaws {
  import opened Common
  import opened Sums
  import opened LoadStats
  import opened LoadStatsLaws
  import opened Aggregator
  import opened MergeResults
  import opened MergeLaws

  // ---------------------------------------------------------------- minimum

  /** The minimum a shard reports: zero when it has no observation. */
  function MinMs(obs: seq<Observation>): real {
    OrZero(MinLatency(obs)) * 1000.0
  }

  function MinColumn(shards: seq<seq<Observation>>): (r: seq<real>)
    ensures |r| == |shards|
  {
    seq(|shards|, k requires 0 <= k < |shards| => MinMs(shards[k]))
  }

  lemma {:induction false} MinTruthyMeaning(xs: seq<real>)
    ensures MinTruthy(xs).None? <==> forall i :: 0 <= i < |xs| ==> xs[i] == 0.0
    ensures MinTruthy(xs).Some? ==>
              && MinTruthy(xs).value != 0.0 && MinTruthy(xs).value in xs
              && forall i :: 0 <= i < |xs| && xs[i] != 0.0 ==> MinTruthy(xs).value <= xs[i]
  {
    if xs != [] {
      var front := xs[..|xs| - 1];
      MinTruthyMeaning(front);
      assert xs == front + [xs[|xs| - 1]];
      assert forall i :: 0 <= i < |front| ==> xs[i] == front[i];
    }
  }

  lemma {:induction false} InSomeShard(shards: seq<seq<Observation>>, o: Observation)
    ensures o in ObsOfAll(shards) <==> exists k :: 0 <= k < |shards| && o in shards[k]
  {
    if shards != [] {
      var n := |shards| - 1;
      InSomeShard(shards[..n], o);
      if k :| 0 <= k < n && o in shards[..n][k] {
        assert o in shards[k];
      }
      if k :| 0 <= k < |shards| && o in shards[k] {
        assert k < n ==> o in shards[..n][k];
      }
    }
  }

  /** The extremes of an occupied shard lie between those of all. */
  lemma ExtremesOfOne(shards: seq<seq<Observation>>, k: nat)
    requires k < |shards| && shards[k] != []
    ensures ObsOfAll(shards) != []
    ensures MinLatency(ObsOfAll(shards)).Some? && MinLatency(shards[k]).Some?
    ensures MaxLatency(ObsOfAll(shards)).Some? && MaxLatency(shards[k]).Some?
    ensures MinLatency(ObsOfAll(shards)).value <= MinLatency(shards[k]).value
    ensures MaxLatency(ObsOfAll(shards)).value >= MaxLatency(shards[k]).value
  {
    forall o | o in shards[k] ensures o in ObsOfAll(shards) {
      InSomeShard(shards, o);
    }
    assert shards[k][0] in shards[k];
    ExtremesOfSubset(shards[k], ObsOfAll(shards));
  }

  lemma SomeShard(shards: seq<seq<Observation>>, o: Observation) returns (k: nat)
    requires o in ObsOfAll(shards)
    ensures k < |shards| && o in shards[k]
  {
    InSomeShard(shards, o);
    k :| 0 <= k < |shards| && o in shards[k];
  }

  lemma LeastIsInAShard(shards: seq<seq<Observation>>) returns (k: nat)
    requires ObsOfAll(shards) != []
    ensures k < |shards| && shards[k] != [] && MinLatency(shards[k]) == MinLatency(ObsOfAll(shards))
  {
    var all := ObsOfAll(shards);
    ExtremesMeaning(all);
    var i :| 0 <= i < |all| && all[i].outcome.latency == MinLatency(all).value;
    k := SomeShard(shards, all[i]);
    ExtremesOfOne(shards, k);
    ExtremesMeaning(shards[k]);
  }

  lemma GreatestIsInAShard(shards: seq<seq<Observation>>) returns (k: nat)
    requires ObsOfAll(shards) != []
    ensures k < |shards| && shards[k] != [] && MaxLatency(shards[k]) == MaxLatency(ObsOfAll(shards))
  {
    var all := ObsOfAll(shards);
    ExtremesMeaning(all);
    var i :| 0 <= i < |all| && all[i].outcome.latency == MaxLatency(all).value;
    k := SomeShard(shards, all[i]);
    ExtremesOfOne(shards, k);
    ExtremesMeaning(shards[k]);
  }

  /** Some shard saw a zero latency, no shard a negative one, and another shard reports a positive
      minimum, so the zero is dropped. */
  ghost predicate ZeroIsHidden(shards: seq<seq<Observation>>) {
    && (exists k :: 0 <= k < |shards| && shards[k] != [] && MinMs(shards[k]) == 0.0)
    && (exists k :: 0 <= k < |shards| && MinMs(shards[k]) > 0.0)
    && (forall k :: 0 <= k < |shards| ==> MinMs(shards[k]) >= 0.0)
  }

  /** The documentation calls the merged minimum exact. It is, if and only if no zero is hidden. */
  lemma MinIsExactIff(shards: seq<seq<Observation>>)
    ensures OrZero(MinTruthy(MinColumn(shards))) == MinMs(ObsOfAll(shards)) <==> !ZeroIsHidden(shards)
  {
    var xs, m := MinColumn(shards), MinLatency(ObsOfAll(shards));
    MinTruthyMeaning(xs);
    forall k | 0 <= k < |shards| && shards[k] != [] ensures m.Some? && m.value * 1000.0 <= xs[k] {
      ExtremesOfOne(shards, k);
    }
    assert forall k :: 0 <= k < |shards| && shards[k] == [] ==> xs[k] == 0.0;
    if ObsOfAll(shards) != [] {
      var a := LeastIsInAShard(shards);
      assert xs[a] == MinMs(ObsOfAll(shards));
    }
    if MinTruthy(xs).Some? {
      var t :| 0 <= t < |xs| && xs[t] == MinTruthy(xs).value;
    }
  }

  // ---------------------------------------------------------------- maximum

  function MaxMs(obs: seq<Observation>): real {
    OrZero(MaxLatency(obs)) * 1000.0
  }

  function MaxColumn(shards: seq<seq<Observation>>): (r: seq<real>)
    ensures |r| == |shards|
  {
    seq(|shards|, k requires 0 <= k < |shards| => MaxMs(shards[k]))
  }

  lemma {:induction false} MaxTruthyMeaning(xs: seq<real>)
    ensures MaxTruthy(xs).None? <==> forall i :: 0 <= i < |xs| ==> xs[i] == 0.0
    ensures MaxTruthy(xs).Some? ==>
              && MaxTruthy(xs).value != 0.0 && MaxTruthy(xs).value in xs
              && forall i :: 0 <= i < |xs| && xs[i] != 0.0 ==> MaxTruthy(xs).value >= xs[i]
  {
    if xs != [] {
      var front := xs[..|xs| - 1];
      MaxTruthyMeaning(front);
      assert xs == front + [xs[|xs| - 1]];
      assert forall i :: 0 <= i < |front| ==> xs[i] == front[i];
    }
  }

  /** The mirror image, which needs a negative latency: a zero maximum beside a negative one and no
      positive one. */
  ghost predicate ZeroMaxIsHidden(shards: seq<seq<Observation>>) {
    && (exists k :: 0 <= k < |shards| && shards[k] != [] && MaxMs(shards[k]) == 0.0)
    && (exists k :: 0 <= k < |shards| && MaxMs(shards[k]) < 0.0)
    && (forall k :: 0 <= k < |shards| ==> MaxMs(shards[k]) <= 0.0)
  }

  /** The merged maximum is exact if and only if that does not happen; so always, for latencies that are
      not negative. */
  lemma MaxIsExactIff(shards: seq<seq<Observation>>)
    ensures OrZero(MaxTruthy(MaxColumn(shards))) == MaxMs(ObsOfAll(shards)) <==> !ZeroMaxIsHidden(shards)
  {
    var xs, m := MaxColumn(shards), MaxLatency(ObsOfAll(shards));
    MaxTruthyMeaning(xs);
    forall k | 0 <= k < |shards| && shards[k] != [] ensures m.Some? && m.value * 1000.0 >= xs[k] {
      ExtremesOfOne(shards, k);
    }
    assert forall k :: 0 <= k < |shards| && shards[k] == [] ==> xs[k] == 0.0;
    if ObsOfAll(shards) != [] {
      var a := GreatestIsInAShard(shards);
      assert xs[a] == MaxMs(ObsOfAll(shards));
    }
    if MaxTruthy(xs).Some? {
      var t :| 0 <= t < |xs| && xs[t] == MaxTruthy(xs).value;
    }
  }

  /** The input that shows the loss: an internal error recorded with latency 0.0 in one shard. */
  lemma HiddenZeroExample()
    ensures var failed := Observation(Outcome(0, "metrics", 0.0, 0, 0, Some("internal-error")), 1.0);
            var served := Observation(Outcome(1, "metrics", 0.2, 200, 1, None), 1.0);
            ZeroIsHidden([[failed], [served]])
  {
    var failed := Observation(Outcome(0, "metrics", 0.0, 0, 0, Some("internal-error")), 1.0);
    var served := Observation(Outcome(1, "metrics", 0.2, 200, 1, None), 1.0);
    assert MinLatency([failed][..0]).None? && MinLatency([served][..0]).None?;
    assert MinMs([failed]) == 0.0 && MinMs([served]) == 0.2 * 1000.0;
    var shards := [[failed], [served]];
    assert shards[0] == [failed] && shards[1] == [served];
  }

  // ---------------------------------------------------------------- mean

  lemma {:induction false} DotScale(m: seq<real>, w: seq<real>, v: seq<real>, s: real, t: real)
    requires |m| == |w| == |v| && forall k :: 0 <= k < |w| ==> w[k] * t == v[k] * s
    ensures Dot(m, w) * t == Dot(m, v) * s
  {
    if m != [] {
      var n := |m| - 1;
      DotScale(m[..n], w[..n], v[..n], s, t);
      assert (m[n] * w[n]) * t == m[n] * (w[n] * t) == m[n] * (v[n] * s) == (m[n] * v[n]) * s;
      assert Dot(m, w) * t == Dot(m[..n], w[..n]) * t + (m[n] * w[n]) * t;
      assert Dot(m, v) * s == Dot(m[..n], v[..n]) * s + (m[n] * v[n]) * s;
    }
  }

  /** Weight one on shard k, zero elsewhere. */
  function Unit(n: nat, k: nat): (u: seq<real>)
    ensures |u| == n
  {
    seq(n, i => if i == k then 1.0 else 0.0)
  }

  lemma {:induction false} DotUnit(w: seq<real>, k: nat)
    ensures Dot(Unit(|w|, k), w) == if k < |w| then w[k] else 0.0
  {
    if w != [] {
      var n := |w| - 1;
      DotUnit(w[..n], k);
      assert Unit(|w|, k)[..n] == Unit(n, k);
    }
  }

  lemma CrossMultiply(a: real, s: real, b: real, t: real)
    requires s > 0.0 && t > 0.0
    ensures a / s == b / t <==> a * t == b * s
  {
    assert (a / s) * s == a && (b / t) * t == b;
    if a / s == b / t {
      var q := a / s;
      assert a * t == (q * s) * t == (q * t) * s == b * s;
    }
    if a * t == b * s {
      assert ((a / s) * s) * t == ((b / t) * t) * s;
      assert (a / s) * (s * t) == (b / t) * (s * t);
      assert s * t > 0.0;
    }
  }

  /** Every shard kept the same fraction of what it saw. */
  ghost predicate SameFraction(kept: seq<real>, seen: seq<real>)
    requires |kept| == |seen|
  {
    forall k :: 0 <= k < |kept| ==> SameShare(kept, seen, k)
  }

  /** Shard k's share of the samples is its share of the requests. */
  ghost predicate SameShare(kept: seq<real>, seen: seq<real>, k: nat)
    requires k < |kept| == |seen|
  {
    Mul(kept[k], SumReals(seen)) == Mul(seen[k], SumReals(kept))
  }

  lemma SameFractionSameMean(means: seq<real>, kept: seq<real>, seen: seq<real>)
    requires |means| == |kept| == |seen| && SumReals(kept) > 0.0 && SumReals(seen) > 0.0
    requires SameFraction(kept, seen)
    ensures WeightedMean(means, kept) == WeightedMean(means, seen)
  {
    forall k | 0 <= k < |kept| ensures kept[k] * SumReals(seen) == seen[k] * SumReals(kept) {
      assert SameShare(kept, seen, k);
    }
    DotScale(means, kept, seen, SumReals(kept), SumReals(seen));
    CrossMultiply(Dot(means, kept), SumReals(kept), Dot(means, seen), SumReals(seen));
  }

  lemma FractionOfOne(kept: seq<real>, seen: seq<real>, k: nat)
    requires k < |kept| == |seen| && SumReals(kept) > 0.0 && SumReals(seen) > 0.0
    requires WeightedMean(Unit(|kept|, k), kept) == WeightedMean(Unit(|kept|, k), seen)
    ensures SameShare(kept, seen, k)
  {
    DotUnit(kept, k);
    DotUnit(seen, k);
    CrossMultiply(kept[k], SumReals(kept), seen[k], SumReals(seen));
  }

  function MeanMs(obs: seq<Observation>): real {
    Ratio(SumReals(Latencies(obs)), |obs| as real) * 1000.0
  }

  function MeanColumn(shards: seq<seq<Observation>>): (r: seq<real>)
    ensures |r| == |shards|
  {
    seq(|shards|, k requires 0 <= k < |shards| => MeanMs(shards[k]))
  }

  function SizeColumn(shards: seq<seq<Observation>>): (r: seq<real>)
    ensures |r| == |shards|
  {
    seq(|shards|, k requires 0 <= k < |shards| => |shards[k]| as real)
  }

  lemma MeanTimesSize(obs: seq<Observation>)
    ensures Mul(MeanMs(obs), |obs| as real) == SumReals(Latencies(obs)) * 1000.0
  {
    if |obs| > 0 {
      var sum, n := SumReals(Latencies(obs)), |obs| as real;
      assert (sum / n) * n == sum;
      assert (sum / n) * 1000.0 * n == ((sum / n) * n) * 1000.0;
    }
  }

  lemma DotLast(values: seq<real>, weights: seq<real>, n: nat)
    requires |values| == |weights| == n + 1
    ensures Dot(values, weights) == Dot(values[..n], weights[..n]) + Mul(values[n], weights[n])
  {
  }

  lemma {:induction false} SizesOfShards(shards: seq<seq<Observation>>)
    ensures SumReals(SizeColumn(shards)) == |ObsOfAll(shards)| as real
  {
    if shards != [] {
      var n := |shards| - 1;
      SizesOfShards(shards[..n]);
      assert SizeColumn(shards)[..n] == SizeColumn(shards[..n]);
    }
  }

  lemma {:induction false} SumsOfShards(shards: seq<seq<Observation>>)
    ensures Dot(MeanColumn(shards), SizeColumn(shards)) == SumReals(Latencies(ObsOfAll(shards))) * 1000.0
  {
    if shards != [] {
      var n := |shards| - 1;
      var front, last := ObsOfAll(shards[..n]), shards[n];
      SumsOfShards(shards[..n]);
      var values, weights := MeanColumn(shards), SizeColumn(shards);
      assert weights[..n] == SizeColumn(shards[..n]);
      assert values[..n] == MeanColumn(shards[..n]);
      DotLast(values, weights, n);
      MeanTimesSize(last);
      LatenciesAppend(front, last);
    }
  }

  lemma LatenciesAppend(a: seq<Observation>, b: seq<Observation>)
    ensures SumReals(Latencies(a + b)) == SumReals(Latencies(a)) + SumReals(Latencies(b))
  {
    assert Latencies(a + b) == Latencies(a) + Latencies(b);
    SumRealsAppend(Latencies(a), Latencies(b));
  }

  /** The mean of all requests is the shard means weighted by requests; so the merged mean is the true
      one whenever the sample counts are the request counts, that is, while no reservoir overflowed. */
  lemma MeanWeightedByRequestsIsExact(shards: seq<seq<Observation>>)
    ensures WeightedMean(MeanColumn(shards), SizeColumn(shards)) == MeanMs(ObsOfAll(shards))
  {
    SizesOfShards(shards);
    SumsOfShards(shards);
    var sum, n := SumReals(Latencies(ObsOfAll(shards))), |ObsOfAll(shards)| as real;
    if n > 0.0 {
      ScaleQuotient(sum, n);
    }
  }

  lemma ScaleQuotient(sum: real, n: real)
    requires n > 0.0
    ensures (sum * 1000.0) / n == sum / n * 1000.0
  {
  }
}
