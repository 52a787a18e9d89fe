/** Linear-interpolated percentiles of the latency samples (scripts/perf_loadgen.py). */
module Percentiles {

  // ---------------------------------------------------------------- sorting

  predicate Ascending(s: seq<real>) {
    forall i, j :: 0 <= i < j < |s| ==> s[i] <= s[j]
  }

  function Insert(x: real, s: seq<real>): seq<real> {
    if s == [] || x <= s[0] then [x] + s else [s[0]] + Insert(x, s[1..])
  }

  /** sorted() on the samples. */
  function Sort(s: seq<real>): seq<real> {
    if s == [] then [] else Insert(s[0], Sort(s[1..]))
  }

  predicate Below(y: real, s: seq<real>) {
    forall i :: 0 <= i < |s| ==> y <= s[i]
  }

  lemma AscendingCons(x: real, s: seq<real>)
    requires Below(x, s) && Ascending(s)
    ensures Ascending([x] + s)
  {
  }

  lemma {:induction false} InsertStaysAbove(y: real, x: real, s: seq<real>)
    requires Below(y, s) && y <= x
    ensures Below(y, Insert(x, s))
  {
    if !(s == [] || x <= s[0]) {
      InsertStaysAbove(y, x, s[1..]);
    }
  }

  lemma {:induction false} InsertIsSorted(x: real, s: seq<real>)
    requires Ascending(s)
    ensures Ascending(Insert(x, s))
  {
    if s == [] || x <= s[0] {
      AscendingCons(x, s);
    } else {
      InsertIsSorted(x, s[1..]);
      InsertStaysAbove(s[0], x, s[1..]);
      AscendingCons(s[0], Insert(x, s[1..]));
    }
  }

  lemma {:induction false} InsertAdds(x: real, s: seq<real>)
    ensures multiset(Insert(x, s)) == multiset(s) + multiset{x}
  {
    if !(s == [] || x <= s[0]) {
      InsertAdds(x, s[1..]);
      assert s == [s[0]] + s[1..];
    }
  }

  lemma {:induction false} SortIsSorted(s: seq<real>)
    ensures Ascending(Sort(s)) && multiset(Sort(s)) == multiset(s)
  {
    if s != [] {
      SortIsSorted(s[1..]);
      InsertIsSorted(s[0], Sort(s[1..]));
      InsertAdds(s[0], Sort(s[1..]));
      assert s == [s[0]] + s[1..];
    }
  }

  lemma FirstIsLeast(a: seq<real>, b: seq<real>)
    requires Ascending(a) && a != [] && b != [] && multiset(a) == multiset(b)
    ensures a[0] <= b[0]
  {
    assert b[0] in multiset(b);
    assert b[0] in a;
    var i :| 0 <= i < |a| && a[i] == b[0];
  }

  lemma TailsAgree(a: seq<real>, b: seq<real>)
    requires a != [] && b != [] && a[0] == b[0] && multiset(a) == multiset(b)
    ensures multiset(a[1..]) == multiset(b[1..])
  {
    assert a == [a[0]] + a[1..] && b == [b[0]] + b[1..];
    assert multiset(a[1..]) == multiset(a) - multiset{a[0]};
    assert multiset(b[1..]) == multiset(b) - multiset{b[0]};
  }

  /** There is one ascending listing. */
  lemma {:induction false} SortedOnce(a: seq<real>, b: seq<real>)
    requires Ascending(a) && Ascending(b) && multiset(a) == multiset(b)
    ensures a == b
  {
    assert |multiset(a)| == |a| && |multiset(b)| == |b|;
    if a != [] {
      FirstIsLeast(a, b);
      FirstIsLeast(b, a);
      TailsAgree(a, b);
      SortedOnce(a[1..], b[1..]);
      assert a == [a[0]] + a[1..] && b == [b[0]] + b[1..];
    }
  }

  // ---------------------------------------------------------------- one percentile

  function Rank(n: nat, pct: real): real {
    (n - 1) as real * (pct / 100.0)
  }

  function Interpolate(low: real, high: real, part: real): real {
    low * (1.0 - part) + high * part
  }

  /** The value at a fractional rank: between the samples below and above it. */
  function AtRank(s: seq<real>, rank: real): real
    requires 0.0 <= rank && rank.Floor < |s| && (rank.Floor as real < rank ==> rank.Floor + 1 < |s|)
  {
    var lower := rank.Floor;
    if lower as real == rank then s[lower] else Interpolate(s[lower], s[lower + 1], rank - lower as real)
  }

  function Percentile(s: seq<real>, pct: real): real
    requires 0.0 <= pct <= 100.0
  {
    if s == [] then 0.0
    else if |s| == 1 then s[0]
    else
      RankInRange(|s|, pct);
      AtRank(s, Rank(|s|, pct))
  }

  lemma NotNegative(x: real, y: real)
    requires x >= 0.0 && y >= 0.0
    ensures x * y >= 0.0
  {
  }

  lemma PartIsBelow(m: real, q: real)
    requires m > 0.0 && q < 1.0
    ensures m * q < m
  {
    var rest := 1.0 - q;
    assert m * rest > 0.0;
    assert m * rest == m - m * q;
  }

  lemma RankInRange(n: nat, pct: real)
    requires n >= 1 && 0.0 <= pct <= 100.0
    ensures 0.0 <= Rank(n, pct) <= (n - 1) as real
    ensures Rank(n, pct).Floor < n && (Rank(n, pct).Floor as real < Rank(n, pct) ==> Rank(n, pct).Floor + 1 < n)
  {
    var q, m := pct / 100.0, (n - 1) as real;
    NotNegative(m, q);
    NotNegative(m, 1.0 - q);
    assert m * (1.0 - q) == m - m * q;
  }

  lemma RankFollows(n: nat, a: real, b: real)
    requires n >= 1 && a <= b
    ensures Rank(n, a) <= Rank(n, b)
  {
    var m, p, q := (n - 1) as real, a / 100.0, b / 100.0;
    NotNegative(m, q - p);
    assert m * (q - p) == m * q - m * p;
  }

  lemma InterpolateSlope(low: real, high: real, part: real)
    ensures Interpolate(low, high, part) == low + (high - low) * part
  {
  }

  lemma InterpolateBetween(low: real, high: real, part: real)
    requires low <= high && 0.0 <= part <= 1.0
    ensures low <= Interpolate(low, high, part) <= high
  {
    var d := high - low;
    InterpolateSlope(low, high, part);
    NotNegative(d, part);
    NotNegative(d, 1.0 - part);
    assert d * (1.0 - part) == d - d * part;
  }

  lemma InterpolateGrows(low: real, high: real, a: real, b: real)
    requires low <= high && a <= b
    ensures Interpolate(low, high, a) <= Interpolate(low, high, b)
  {
    var d := high - low;
    InterpolateSlope(low, high, a);
    InterpolateSlope(low, high, b);
    NotNegative(d, b - a);
    assert d * (b - a) == d * b - d * a;
  }

  ghost predicate ValidRank(s: seq<real>, rank: real) {
    0.0 <= rank && rank.Floor < |s| && (rank.Floor as real < rank ==> rank.Floor + 1 < |s|)
  }

  lemma BetweenNeighbours(s: seq<real>, rank: real)
    requires Ascending(s) && ValidRank(s, rank)
    ensures s[rank.Floor] <= AtRank(s, rank)
    ensures rank.Floor + 1 < |s| ==> AtRank(s, rank) <= s[rank.Floor + 1]
    ensures AtRank(s, rank) <= s[|s| - 1]
  {
    var lower := rank.Floor;
    if lower as real < rank {
      InterpolateBetween(s[lower], s[lower + 1], rank - lower as real);
    }
  }

  lemma RankGrows(s: seq<real>, a: real, b: real)
    requires Ascending(s) && ValidRank(s, a) && ValidRank(s, b) && a <= b
    ensures AtRank(s, a) <= AtRank(s, b)
  {
    var i, j := a.Floor, b.Floor;
    assert i <= j;
    if i < j {
      BetweenNeighbours(s, a);
      BetweenNeighbours(s, b);
    } else if i as real < a {
      InterpolateGrows(s[i], s[i + 1], a - i as real, b - i as real);
    } else {
      BetweenNeighbours(s, b);
    }
  }

  /** The three percentiles that are reported, in milliseconds. */
  datatype Pcts = Pcts(p50: real, p90: real, p99: real)

  function PctsOf(samples: seq<real>): Pcts {
    var s := Sort(samples);
    Pcts(Percentile(s, 50.0) * 1000.0, Percentile(s, 90.0) * 1000.0, Percentile(s, 99.0) * 1000.0)
  }

  // ---------------------------------------------------------------- laws

  /** A percentile lies between the least and the greatest sample. */
  lemma PercentileIsBetween(s: seq<real>, pct: real)
    requires Ascending(s) && s != [] && 0.0 <= pct <= 100.0
    ensures s[0] <= Percentile(s, pct) <= s[|s| - 1]
  {
    if |s| > 1 {
      RankInRange(|s|, pct);
      BetweenNeighbours(s, Rank(|s|, pct));
      assert Rank(|s|, pct).Floor > 0 ==> s[0] <= s[Rank(|s|, pct).Floor];
    }
  }

  /** It grows with the percentage. */
  lemma PercentileGrows(s: seq<real>, a: real, b: real)
    requires Ascending(s) && 0.0 <= a <= b <= 100.0
    ensures Percentile(s, a) <= Percentile(s, b)
  {
    if |s| > 1 {
      RankInRange(|s|, a);
      RankInRange(|s|, b);
      RankFollows(|s|, a, b);
      RankGrows(s, Rank(|s|, a), Rank(|s|, b));
    }
  }

  /** It is the least sample at 0 and the greatest at 100. */
  lemma PercentileEnds(s: seq<real>)
    requires s != []
    ensures Percentile(s, 0.0) == s[0] && Percentile(s, 100.0) == s[|s| - 1]
  {
    if |s| > 1 {
      assert Rank(|s|, 0.0) == 0.0 && Rank(|s|, 100.0) == (|s| - 1) as real;
    }
  }

  /** v is what the samples give at the rank that is pct percent of the way from the first to the last: the
      part of the way from sample k to the next that the rank is past k. */
  ghost predicate SitsAt(s: seq<real>, v: real, pct: real, k: nat) {
    && k + 1 < |s|
    && var past := (|s| - 1) as real * pct / 100.0 - k as real;
       0.0 <= past <= 1.0 && v == s[k] + (s[k + 1] - s[k]) * past
  }

  /** Linear between neighbouring samples, and nothing else: whichever neighbours enclose the rank, the
      percentile is the value there. */
  lemma PercentileIsLinear(s: seq<real>, pct: real, k: nat, v: real)
    requires 0.0 <= pct <= 100.0 && SitsAt(s, v, pct, k)
    ensures Percentile(s, pct) == v
  {
    var rank := Rank(|s|, pct);
    var past := rank - k as real;
    RankInRange(|s|, pct);
    InterpolateSlope(s[k], s[k + 1], past);
    if past == 1.0 {
      assert rank.Floor == k + 1;
    } else {
      assert rank.Floor == k;
    }
  }

  lemma PercentileSits(s: seq<real>, pct: real) returns (k: nat)
    requires |s| >= 2 && 0.0 <= pct < 100.0
    ensures SitsAt(s, Percentile(s, pct), pct, k)
  {
    var m, rank := (|s| - 1) as real, Rank(|s|, pct);
    RankInRange(|s|, pct);
    PartIsBelow(m, pct / 100.0);
    k := rank.Floor;
    InterpolateSlope(s[k], s[k + 1], rank - k as real);
  }

  /** The three figures are the 50th, 90th and 99th percentile of the sorted samples, in milliseconds. */
  lemma PctsSit(samples: seq<real>) returns (i: nat, j: nat, k: nat)
    requires |samples| >= 2
    ensures var s, p := Sort(samples), PctsOf(samples);
            && SitsAt(s, p.p50 / 1000.0, 50.0, i) && SitsAt(s, p.p90 / 1000.0, 90.0, j)
            && SitsAt(s, p.p99 / 1000.0, 99.0, k)
  {
    SortIsSorted(samples);
    assert |multiset(samples)| == |multiset(Sort(samples))|;
    i := PercentileSits(Sort(samples), 50.0);
    j := PercentileSits(Sort(samples), 90.0);
    k := PercentileSits(Sort(samples), 99.0);
  }

  /** The order in which the samples are held does not matter. */
  lemma PercentileOfPermutation(a: seq<real>, b: seq<real>, pct: real)
    requires multiset(a) == multiset(b) && 0.0 <= pct <= 100.0
    ensures Percentile(Sort(a), pct) == Percentile(Sort(b), pct)
  {
    SortIsSorted(a);
    SortIsSorted(b);
    SortedOnce(Sort(a), Sort(b));
  }

  /** The reported percentiles are in order and within any bounds of the samples. */
  lemma PctsAreInOrder(samples: seq<real>, low: real, high: real)
    requires samples != [] && forall i :: 0 <= i < |samples| ==> low <= samples[i] <= high
    ensures var p := PctsOf(samples); low * 1000.0 <= p.p50 <= p.p90 <= p.p99 <= high * 1000.0
  {
    var s := Sort(samples);
    SortIsSorted(samples);
    assert |multiset(s)| == |s| && |multiset(samples)| == |samples|;
    forall x | x in s ensures low <= x <= high {
      assert x in multiset(s);
      assert x in samples;
    }
    assert s[0] in s && s[|s| - 1] in s;
    PercentileIsBetween(s, 50.0);
    PercentileIsBetween(s, 99.0);
    PercentileGrows(s, 50.0, 90.0);
    PercentileGrows(s, 90.0, 99.0);
  }
}
