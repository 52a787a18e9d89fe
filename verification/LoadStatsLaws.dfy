/** Conservation and order independence of the exact result fields. */
module LoadStatsLaws {
  import opened Common
  import opened Sums
  import opened LoadStats

  // ---------------------------------------------------------------- order independence

  lemma AddBucketsCommutes(a: Bucket, b: Bucket)
    ensures AddBuckets(a, b) == AddBuckets(b, a)
  {
    assert AddCounts(a.byKind, b.byKind) == AddCounts(b.byKind, a.byKind);
  }

  lemma AddCountsAssociates<K>(a: map<K, nat>, b: map<K, nat>, c: map<K, nat>)
    ensures AddCounts(AddCounts(a, b), c) == AddCounts(a, AddCounts(b, c))
  {
    var ab, bc := AddCounts(a, b), AddCounts(b, c);
    assert AddCounts(ab, c).Keys == AddCounts(a, bc).Keys;
    assert forall k :: Count(ab, k) == Count(a, k) + Count(b, k);
    assert forall k :: Count(bc, k) == Count(b, k) + Count(c, k);
  }

  lemma AddBucketsAssociates(a: Bucket, b: Bucket, c: Bucket)
    ensures AddBuckets(AddBuckets(a, b), c) == AddBuckets(a, AddBuckets(b, c))
  {
    AddCountsAssociates(a.byKind, b.byKind, c.byKind);
  }

  lemma BucketTakeOut(s: seq<Observation>, i: nat)
    requires i < |s|
    ensures BucketOf(s) == AddBuckets(BucketOf(s[..i] + s[i + 1..]), BucketOf([s[i]]))
  {
    var a, x, b := s[..i], [s[i]], s[i + 1..];
    assert s == a + (x + b);
    BucketOfAppend(a, x + b);
    BucketOfAppend(x, b);
    BucketOfAppend(a, b);
    AddBucketsCommutes(BucketOf(x), BucketOf(b));
    AddBucketsAssociates(BucketOf(a), BucketOf(b), BucketOf(x));
  }

  lemma StatusTakeOut(s: seq<Observation>, i: nat)
    requires i < |s|
    ensures Tally(Statuses(s)) == AddCounts(Tally(Statuses(s[..i] + s[i + 1..])), Tally(Statuses([s[i]])))
  {
    var a, x, b := s[..i], [s[i]], s[i + 1..];
    assert s == a + (x + b);
    StatusesAppend(a, x + b);
    StatusesAppend(x, b);
    StatusesAppend(a, b);
    assert AddCounts(Tally(Statuses(x)), Tally(Statuses(b))) == AddCounts(Tally(Statuses(b)), Tally(Statuses(x)));
    AddCountsAssociates(Tally(Statuses(a)), Tally(Statuses(b)), Tally(Statuses(x)));
  }

  lemma {:induction false} BucketOfPermutation(a: seq<Observation>, b: seq<Observation>)
    requires multiset(a) == multiset(b)
    ensures BucketOf(a) == BucketOf(b) && Tally(Statuses(a)) == Tally(Statuses(b))
  {
    if a == [] {
      assert |multiset(b)| == 0;
    } else {
      var k := |a| - 1;
      var i := FindLast(a, b);
      BucketOfPermutation(a[..k], b[..i] + b[i + 1..]);
      BucketTakeOut(b, i);
      StatusTakeOut(b, i);
      BucketTakeOut(a, k);
      StatusTakeOut(a, k);
      assert a[..k] + a[k + 1..] == a[..k];
    }
  }

  lemma {:induction false} InBucketCounts(obs: seq<Observation>, width: real, b: int, o: Observation)
    requires width > 0.0
    ensures multiset(InBucket(obs, width, b))[o] == if Index(o, width) == b then multiset(obs)[o] else 0
  {
    if obs != [] {
      var front, last := obs[..|obs| - 1], obs[|obs| - 1];
      InBucketCounts(front, width, b, o);
      assert obs == front + [last];
    }
  }

  lemma ExtremesOfSubset(a: seq<Observation>, b: seq<Observation>)
    requires a != [] && b != [] && AllIn(a, b)
    ensures MinLatency(a).Some? && MinLatency(b).Some? && MinLatency(b).value <= MinLatency(a).value
    ensures MaxLatency(a).Some? && MaxLatency(b).Some? && MaxLatency(b).value >= MaxLatency(a).value
  {
    ExtremesMeaning(a);
    ExtremesMeaning(b);
    var i :| 0 <= i < |a| && a[i].outcome.latency == MinLatency(a).value;
    var j :| 0 <= j < |a| && a[j].outcome.latency == MaxLatency(a).value;
    assert a[i] in b && a[j] in b;
  }

  lemma SameElements<T>(a: seq<T>, b: seq<T>)
    requires multiset(a) == multiset(b)
    ensures AllIn(a, b) && AllIn(b, a) && |a| == |b|
  {
    assert forall x :: x in a <==> x in multiset(a);
    assert forall x :: x in b <==> x in multiset(b);
    assert |multiset(a)| == |a| && |multiset(b)| == |b|;
  }

  lemma SameRow(a: seq<Observation>, b: seq<Observation>, width: real, i: int)
    requires width > 0.0 && multiset(a) == multiset(b)
    ensures RowOf(a, width, i) == RowOf(b, width, i)
  {
    forall o ensures multiset(InBucket(a, width, i))[o] == multiset(InBucket(b, width, i))[o] {
      InBucketCounts(a, width, i, o);
      InBucketCounts(b, width, i, o);
    }
    assert multiset(InBucket(a, width, i)) == multiset(InBucket(b, width, i));
    BucketOfPermutation(InBucket(a, width, i), InBucket(b, width, i));
  }

  lemma {:induction false} SameRows(a: seq<Observation>, b: seq<Observation>, width: real, bs: seq<int>)
    requires width > 0.0 && multiset(a) == multiset(b)
    ensures RowsAt(a, width, bs) == RowsAt(b, width, bs)
  {
    if bs != [] {
      SameRows(a, b, width, bs[..|bs| - 1]);
      SameRow(a, b, width, bs[|bs| - 1]);
    }
  }

  /** Order independence: however the same outcomes are interleaved by the workers, every exact field
      is the same - totals, status and kind counts, the whole time series, latency sum, min and max. */
  lemma OrderDoesNotMatter(a: seq<Observation>, b: seq<Observation>, width: real)
    requires width > 0.0 && multiset(a) == multiset(b)
    ensures TotalsOf(a) == TotalsOf(b)
    ensures Series(a, width) == Series(b, width)
    ensures SumReals(Latencies(a)) == SumReals(Latencies(b))
    ensures MinLatency(a) == MinLatency(b) && MaxLatency(a) == MaxLatency(b)
  {
    BucketOfPermutation(a, b);
    SameElements(a, b);
    if a != [] {
      ExtremesOfSubset(a, b);
      ExtremesOfSubset(b, a);
    }
    assert Indices(a, width) == Indices(b, width);
    SameRows(a, b, width, SortedIndices(a, width));
  }

  // ---------------------------------------------------------------- conservation

  /** The sum of a list of accumulators. */
  function AddAll(bs: seq<Bucket>): Bucket {
    if bs == [] then EMPTY_BUCKET else AddBuckets(bs[0], AddAll(bs[1..]))
  }

  ghost function BucketsAt(obs: seq<Observation>, width: real, at: seq<int>): seq<Bucket>
    requires width > 0.0
  {
    seq(|at|, k requires 0 <= k < |at| => BucketOf(InBucket(obs, width, at[k])))
  }

  /** The observations of every other time bucket. */
  ghost function OutOfBucket(obs: seq<Observation>, width: real, b: int): seq<Observation>
    requires width > 0.0
  {
    if obs == [] then []
    else
      var front, last := obs[..|obs| - 1], obs[|obs| - 1];
      OutOfBucket(front, width, b) + if Index(last, width) != b then [last] else []
  }

  lemma Rearrange(a: Bucket, b: Bucket, x: Bucket)
    ensures AddBuckets(AddBuckets(a, b), x) == AddBuckets(AddBuckets(a, x), b)
    ensures AddBuckets(AddBuckets(a, b), x) == AddBuckets(a, AddBuckets(b, x))
  {
    AddBucketsAssociates(a, b, x);
    AddBucketsAssociates(a, x, b);
    AddBucketsCommutes(x, b);
  }

  lemma {:induction false} SplitByBucket(obs: seq<Observation>, width: real, b: int)
    requires width > 0.0
    ensures BucketOf(obs) == AddBuckets(BucketOf(InBucket(obs, width, b)), BucketOf(OutOfBucket(obs, width, b)))
  {
    if obs == [] {
      SplitNone();
    } else {
      var front, last := obs[..|obs| - 1], obs[|obs| - 1];
      SplitByBucket(front, width, b);
      assert obs == front + [last];
      InOrOut(obs, width, b);
      SplitOne(obs, front, last, InBucket(front, width, b), OutOfBucket(front, width, b), InBucket(obs, width, b),
               OutOfBucket(obs, width, b));
    }
  }

  lemma SplitNone()
    ensures BucketOf([]) == AddBuckets(BucketOf([]), BucketOf([]))
  {
    BucketOfNone();
    var none: map<string, nat> := map[];
    AddNoCounts(none);
  }

  lemma AddNoCounts<K>(m: map<K, nat>)
    requires m.Keys == {}
    ensures AddCounts(m, m) == m
  {
    assert AddCounts(m, m).Keys == {};
  }

  /** The last observation goes to one side, and the other stays as it was. */
  lemma InOrOut(obs: seq<Observation>, width: real, b: int)
    requires width > 0.0 && obs != []
    ensures var front, last := obs[..|obs| - 1], obs[|obs| - 1];
            var inside, outside := InBucket(front, width, b), OutOfBucket(front, width, b);
            || (InBucket(obs, width, b) == inside + [last] && OutOfBucket(obs, width, b) == outside)
            || (InBucket(obs, width, b) == inside && OutOfBucket(obs, width, b) == outside + [last])
  {
  }

  lemma SplitOne(obs: seq<Observation>, front: seq<Observation>, last: Observation, inside: seq<Observation>,
                 outside: seq<Observation>, inside': seq<Observation>, outside': seq<Observation>)
    requires obs == front + [last] && BucketOf(front) == AddBuckets(BucketOf(inside), BucketOf(outside))
    requires (inside' == inside + [last] && outside' == outside) || (inside' == inside && outside' == outside + [last])
    ensures BucketOf(obs) == AddBuckets(BucketOf(inside'), BucketOf(outside'))
  {
    SplitEither(front, last, inside, outside);
  }

  lemma SplitEither(front: seq<Observation>, last: Observation, inside: seq<Observation>, outside: seq<Observation>)
    requires BucketOf(front) == AddBuckets(BucketOf(inside), BucketOf(outside))
    ensures BucketOf(front + [last]) == AddBuckets(BucketOf(inside + [last]), BucketOf(outside))
    ensures BucketOf(front + [last]) == AddBuckets(BucketOf(inside), BucketOf(outside + [last]))
  {
    BucketOfAppend(front, [last]);
    BucketOfAppend(inside, [last]);
    BucketOfAppend(outside, [last]);
    Rearrange(BucketOf(inside), BucketOf(outside), BucketOf([last]));
  }

  lemma {:induction false} OutOfBucketKeepsOthers(obs: seq<Observation>, width: real, b: int, i: int)
    requires width > 0.0 && i != b
    ensures InBucket(OutOfBucket(obs, width, b), width, i) == InBucket(obs, width, i)
  {
    if obs != [] {
      var front, last := obs[..|obs| - 1], obs[|obs| - 1];
      var out := OutOfBucket(front, width, b);
      OutOfBucketKeepsOthers(front, width, b, i);
      if Index(last, width) == b {
        assert OutOfBucket(obs, width, b) == out;
      } else {
        assert (out + [last])[..|out|] == out;
      }
    }
  }

  lemma OutOfBucketIndices(obs: seq<Observation>, width: real, b: int)
    requires width > 0.0
    ensures Indices(OutOfBucket(obs, width, b), width) == Indices(obs, width) - {b}
  {
    var out := OutOfBucket(obs, width, b);
    forall i ensures i in Indices(out, width) <==> i in Indices(obs, width) - {b} {
      ListedIffOccupied(out, width, i);
      ListedIffOccupied(obs, width, i);
      if i == b {
        NoneLeft(obs, width, b);
      } else {
        OutOfBucketKeepsOthers(obs, width, b, i);
      }
    }
  }

  lemma {:induction false} NoneLeft(obs: seq<Observation>, width: real, b: int)
    requires width > 0.0
    ensures InBucket(OutOfBucket(obs, width, b), width, b) == []
  {
    if obs != [] {
      var front, last := obs[..|obs| - 1], obs[|obs| - 1];
      var out := OutOfBucket(front, width, b);
      NoneLeft(front, width, b);
      if Index(last, width) == b {
        assert OutOfBucket(obs, width, b) == out;
      } else {
        assert (out + [last])[..|out|] == out;
      }
    }
  }

  lemma SomeIndex(obs: seq<Observation>, width: real)
    requires width > 0.0
    ensures obs != [] ==> Indices(obs, width) != {}
  {
    if obs != [] {
      assert Index(obs[0], width) in Indices(obs, width);
    }
  }

  lemma {:induction false} BucketsAddUp(obs: seq<Observation>, width: real, at: seq<int>)
    requires width > 0.0 && NoDup(at) && Indices(obs, width) == Elems(at)
    ensures AddAll(BucketsAt(obs, width, at)) == BucketOf(obs)
    decreases |at|
  {
    if at == [] {
      SomeIndex(obs, width);
      BucketOfNone();
    } else {
      var b, tail := at[0], at[1..];
      var out := OutOfBucket(obs, width, b);
      assert at == [b] + tail;
      OutOfBucketIndices(obs, width, b);
      BucketsAddUp(out, width, tail);
      forall k | 0 <= k < |tail| ensures BucketsAt(out, width, tail)[k] == BucketsAt(obs, width, at)[k + 1] {
        OutOfBucketKeepsOthers(obs, width, b, tail[k]);
      }
      assert BucketsAt(out, width, tail) == BucketsAt(obs, width, at)[1..];
      SplitByBucket(obs, width, b);
    }
  }

  /** Conservation: the time buckets add up, field by field, to the totals, and the status counts and
      kind counts each add up to the number of requests. */
  lemma Conservation(obs: seq<Observation>, width: real)
    requires width > 0.0
    ensures AddAll(BucketsAt(obs, width, SortedIndices(obs, width))) == BucketOf(obs)
    ensures var t := TotalsOf(obs);
            && SumOver(t.statusCounts.Keys, s => Count(t.statusCounts, s)) == t.requests == |obs|
            && SumOver(t.byKind.Keys, k => Count(t.byKind, k)) == t.requests
  {
    BucketsAddUp(obs, width, SortedIndices(obs, width));
    TallyTotal(Statuses(obs));
    TallyTotal(Kinds(obs));
  }

  lemma {:induction false} SumBounds(s: seq<real>, lo: real, hi: real)
    requires forall i :: 0 <= i < |s| ==> lo <= s[i] <= hi
    ensures |s| as real * lo <= SumReals(s) <= |s| as real * hi
  {
    if s != [] {
      SumBounds(s[..|s| - 1], lo, hi);
      assert |s| as real * lo == (|s| - 1) as real * lo + lo;
      assert |s| as real * hi == (|s| - 1) as real * hi + hi;
    }
  }

  lemma QuotientIsBetween(lo: real, hi: real, n: real, sum: real)
    requires n > 0.0 && n * lo <= sum <= n * hi
    ensures lo <= sum / n <= hi
  {
    assert n * (sum / n) == sum;
  }

  lemma MeanBounds(s: seq<real>, lo: real, hi: real)
    requires s != [] && forall i :: 0 <= i < |s| ==> lo <= s[i] <= hi
    ensures lo <= SumReals(s) / |s| as real <= hi
  {
    SumBounds(s, lo, hi);
    QuotientIsBetween(lo, hi, |s| as real, SumReals(s));
  }

  /** The mean lies between the reported extremes. */
  lemma MeanIsBetween(obs: seq<Observation>)
    requires obs != []
    ensures MinLatency(obs).Some? && MaxLatency(obs).Some?
    ensures MinLatency(obs).value <= SumReals(Latencies(obs)) / |obs| as real <= MaxLatency(obs).value
  {
    ExtremesMeaning(obs);
    MeanBounds(Latencies(obs), MinLatency(obs).value, MaxLatency(obs).value);
  }

  lemma ScaleBetween(low: real, q: real, width: real, start: real, elapsed: real)
    requires low <= q < low + 1.0 && width > 0.0 && start == low * width && elapsed == q * width
    ensures start <= elapsed < start + width
  {
    var up, down := q - low, low + 1.0 - q;
    assert up * width >= 0.0 && down * width > 0.0;
    assert up * width == elapsed - start;
    assert down * width == start + width - elapsed;
  }

  lemma Quotient(a: real, b: real)
    requires b > 0.0
    ensures (a / b) * b == a && (a >= 0.0 ==> a / b >= 0.0)
  {
  }

  /** A time bucket holds what was observed in its interval. */
  lemma TimeOfBucket(o: Observation, width: real)
    requires width > 0.0 && o.elapsed >= 0.0
    ensures var start := StartOf(Index(o, width), width); start <= o.elapsed < start + width
  {
    var q := o.elapsed / width;
    Quotient(o.elapsed, width);
    ScaleBetween(q.Floor as real, q, width, StartOf(q.Floor, width), o.elapsed);
  }

  lemma {:induction false} InBucketIndex(obs: seq<Observation>, width: real, b: int, k: nat)
    requires width > 0.0 && k < |InBucket(obs, width, b)|
    ensures InBucket(obs, width, b)[k] in obs && Index(InBucket(obs, width, b)[k], width) == b
    decreases |obs|
  {
    var front := obs[..|obs| - 1];
    assert obs == front + [obs[|obs| - 1]];
    if k < |InBucket(front, width, b)| {
      InBucketIndex(front, width, b, k);
    }
  }

  /** A row says what the sums say: its counts are theirs, and its rates per second and per request give
      them back. */
  ghost predicate SaysOf(row: Row, width: real, sums: Bucket) {
    && row.requests == sums.requests && row.records == sums.records && row.errors == sums.errors
    && row.byKind == sums.byKind
    && row.requestRate * width == sums.requests as real && row.recordRate * width == sums.records as real
    && row.errorRate * sums.requests as real == sums.errors as real
  }

  lemma RowOfSums(b: int, width: real, sums: Bucket)
    requires width > 0.0 && sums.requests > 0
    ensures SaysOf(RowFrom(b, width, sums), width, sums)
  {
    Quotient(sums.requests as real, width);
    Quotient(sums.records as real, width);
    Quotient(sums.errors as real, sums.requests as real);
  }

  lemma RowMeanIsBetween(b: int, width: real, mine: seq<Observation>)
    requires width > 0.0 && mine != []
    ensures MinLatency(mine).Some? && MaxLatency(mine).Some?
    ensures MinLatency(mine).value * 1000.0 <= RowFrom(b, width, BucketOf(mine)).avgLatencyMs
            <= MaxLatency(mine).value * 1000.0
  {
    MeanIsBetween(mine);
  }

  /** What a row of the time series says of its bucket: as many requests, records and errors as were observed
      in its interval, and a mean latency between the bucket's own extremes. */
  lemma RowSpeaksForItsBucket(obs: seq<Observation>, width: real, b: int)
    requires width > 0.0 && b in Indices(obs, width)
    ensures var row, mine := RowOf(obs, width, b), InBucket(obs, width, b);
            && mine != [] && SaysOf(row, width, BucketOf(mine))
            && MinLatency(mine).Some? && MaxLatency(mine).Some?
            && MinLatency(mine).value * 1000.0 <= row.avgLatencyMs <= MaxLatency(mine).value * 1000.0
    ensures var row, mine := RowOf(obs, width, b), InBucket(obs, width, b);
            forall k :: 0 <= k < |mine| && mine[k].elapsed >= 0.0 ==>
              row.start <= mine[k].elapsed < row.start + width
  {
    var mine := InBucket(obs, width, b);
    ListedIffOccupied(obs, width, b);
    RowMeanIsBetween(b, width, mine);
    RowOfSums(b, width, BucketOf(mine));
    forall k | 0 <= k < |mine| && mine[k].elapsed >= 0.0
      ensures StartOf(b, width) <= mine[k].elapsed < StartOf(b, width) + width
    {
      InBucketIndex(obs, width, b, k);
      TimeOfBucket(mine[k], width);
    }
  }
}
