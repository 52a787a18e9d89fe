/** The fixed-capacity latency sampler, Algorithm R (scripts/perf_loadgen.py), and the proof that it
    is a uniform sample: every subset of the stream is kept by equally many draw sequences. */
module Reservoirs {
  import opened Common

  // ---------------------------------------------------------------- the sampler

  /** One offer to a reservoir that has seen `seen` values; `draw` is the random index in [0, seen]. */
  function Offered<T>(capacity: nat, samples: seq<T>, value: T, draw: int): seq<T> {
    if |samples| < capacity then samples + [value]
    else if 0 <= draw < capacity && draw < |samples| then samples[draw := value]
    else samples
  }

  class Reservoir {
    const capacity: nat
    var samples: seq<real>
    var seen: nat
    ghost var stream: seq<real>  // the values offered
    ghost var draws: seq<int>    // the random indices that were consulted

    /** The samples are those of the stream so far under the draws so far. */
    ghost predicate Valid() reads this {
      && capacity >= 1 && seen == |stream| && DrawsFor(capacity, seen, draws)
      && samples == Sample(capacity, stream, draws)
    }

    constructor Init(capacity: nat)
      requires capacity >= 1
      ensures Valid() && this.capacity == capacity && samples == [] && seen == 0
    {
      this.capacity := capacity;
      samples, seen, stream, draws := [], 0, [], [];
    }

    /** A capacity below 1 is refused. */
    static method Create(capacity: int) returns (r: Option<Reservoir>)
      ensures r.None? <==> capacity < 1
      ensures r.Some? ==> fresh(r.value) && r.value.Valid() && r.value.capacity == capacity
                          && r.value.samples == [] && r.value.seen == 0
    {
      if capacity < 1 {
        return None;
      }
      var made := new Reservoir.Init(capacity);
      r := Some(made);
    }

    /** `draw` is what randint(0, seen) yields; it is consulted only when the reservoir is full. */
    method Offer(value: real, draw: int)
      requires Valid() && 0 <= draw <= seen
      modifies this
      ensures Valid() && seen == old(seen) + 1 && stream == old(stream) + [value]
      ensures draws == if old(seen) < capacity then old(draws) else old(draws) + [draw]
      ensures samples == Offered(capacity, old(samples), value, draw)
    {
      SampleSize(capacity, stream, draws);
      OfferExtendsSample(capacity, stream, draws, value, draw);
      stream, draws := stream + [value], if seen < capacity then draws else draws + [draw];
      seen := seen + 1;
      if |samples| < capacity {
        samples := samples + [value];
        return;
      }
      if draw < capacity {
        samples := samples[draw := value];
      }
    }

    /** A full reservoir holds the offered values at the positions that the uniformity laws count, for a
        draw sequence among those they range over. */
    lemma HoldsKeptPositions()
      requires Valid() && capacity <= seen
      ensures draws in AllDraws(capacity, seen) && |samples| == capacity
      ensures var kept := Kept(capacity, seen, draws);
              forall s :: 0 <= s < capacity ==> 0 <= kept[s] < seen && samples[s] == stream[kept[s]]
    {
      SampleIsKept(capacity, stream, draws);
    }
  }

  // ---------------------------------------------------------------- whole streams

  /** The draws consulted for a stream of n values: one for every value after the first `capacity`, the
      one for position i being in [0, i]. */
  ghost predicate DrawsFor(capacity: nat, n: nat, draws: seq<int>) {
    && |draws| == (if n < capacity then 0 else n - capacity)
    && forall k :: 0 <= k < |draws| ==> 0 <= draws[k] <= capacity + k
  }

  /** The reservoir after a whole stream; draws[k] is the draw for stream position capacity + k. */
  function Sample<T>(capacity: nat, stream: seq<T>, draws: seq<int>): seq<T>
    requires |draws| == if |stream| < capacity then 0 else |stream| - capacity
  {
    if |stream| <= capacity then stream
    else
      var last := |stream| - 1;
      Offered(capacity, Sample(capacity, stream[..last], draws[..|draws| - 1]), stream[last], draws[|draws| - 1])
  }

  /** Offering one more value is sampling the longer stream. */
  lemma OfferExtendsSample<T>(capacity: nat, stream: seq<T>, draws: seq<int>, value: T, draw: int)
    requires |draws| == if |stream| < capacity then 0 else |stream| - capacity
    ensures Offered(capacity, Sample(capacity, stream, draws), value, draw) ==
            Sample(capacity, stream + [value], if |stream| < capacity then draws else draws + [draw])
  {
    assert (stream + [value])[..|stream|] == stream;
    assert (draws + [draw])[..|draws|] == draws;
    if |stream| >= capacity {
      SampleSize(capacity, stream, draws);
    }
  }

  lemma {:induction false} SampleSize<T>(capacity: nat, stream: seq<T>, draws: seq<int>)
    requires |draws| == if |stream| < capacity then 0 else |stream| - capacity
    ensures |Sample(capacity, stream, draws)| == if |stream| < capacity then |stream| else capacity
  {
    if |stream| > capacity {
      SampleSize(capacity, stream[..|stream| - 1], draws[..|draws| - 1]);
    }
  }

  lemma {:induction false} SampleIsFromStream<T>(capacity: nat, stream: seq<T>, draws: seq<int>, i: nat)
    requires |draws| == if |stream| < capacity then 0 else |stream| - capacity
    requires i < |Sample(capacity, stream, draws)|
    ensures Sample(capacity, stream, draws)[i] in stream
  {
    if |stream| > capacity {
      var n := |stream| - 1;
      var front := stream[..n];
      var samples := Sample(capacity, front, draws[..|draws| - 1]);
      SampleSize(capacity, front, draws[..|draws| - 1]);
      assert stream == front + [stream[n]];
      if i < |samples| {
        SampleIsFromStream(capacity, front, draws[..|draws| - 1], i);
      }
    }
  }

  /** The stream positions in the reservoir after n offers, slot by slot. */
  function Kept(capacity: nat, n: nat, draws: seq<int>): (kept: seq<int>)
    requires capacity <= n && |draws| == n - capacity
    ensures |kept| == capacity
    decreases n
  {
    if n == capacity then Iota(n)
    else Offered(capacity, Kept(capacity, n - 1, draws[..|draws| - 1]), n - 1, draws[|draws| - 1])
  }

  /** The values held are the values at the positions held. */
  lemma {:induction false} SampleIsKept<T(!new)>(capacity: nat, stream: seq<T>, draws: seq<int>)
    requires capacity <= |stream| && |draws| == |stream| - capacity
    ensures At(stream, Sample(capacity, stream, draws), Kept(capacity, |stream|, draws))
  {
    if |stream| > capacity {
      var last := |stream| - 1;
      var earlier, r := draws[..|draws| - 1], draws[|draws| - 1];
      SampleIsKept(capacity, stream[..last], earlier);
      OfferSideBySide(capacity, stream, Sample(capacity, stream[..last], earlier), Kept(capacity, last, earlier), r);
    }
  }

  /** The samples are the values at the given positions. */
  ghost predicate At<T(!new)>(stream: seq<T>, samples: seq<T>, kept: seq<int>) {
    |samples| == |kept| && forall s :: 0 <= s < |kept| ==> 0 <= kept[s] < |stream| && samples[s] == stream[kept[s]]
  }

  /** Offering the last value to the samples and its position to the positions. */
  lemma OfferSideBySide<T(!new)>(capacity: nat, stream: seq<T>, samples: seq<T>, kept: seq<int>, r: int)
    requires stream != [] && |kept| == capacity && At(stream[..|stream| - 1], samples, kept)
    ensures var last := |stream| - 1;
            At(stream, Offered(capacity, samples, stream[last], r), Offered(capacity, kept, last, r))
  {
  }

  /** A reservoir holds `capacity` different stream positions. */
  lemma {:induction false} KeptAreDistinct(capacity: nat, n: nat, draws: seq<int>)
    requires capacity <= n && |draws| == n - capacity
    ensures NoDup(Kept(capacity, n, draws))
    ensures forall s :: 0 <= s < capacity ==> 0 <= Kept(capacity, n, draws)[s] < n
    decreases n
  {
    if n > capacity {
      var earlier, r := draws[..|draws| - 1], draws[|draws| - 1];
      KeptAreDistinct(capacity, n - 1, earlier);
      assert Kept(capacity, n, draws) == Offered(capacity, Kept(capacity, n - 1, earlier), n - 1, r);
    }
  }

  lemma {:induction false} DistinctSize(s: seq<int>)
    requires NoDup(s)
    ensures |Elems(s)| == |s|
  {
    if s != [] {
      DistinctSize(s[1..]);
      assert s == [s[0]] + s[1..];
      assert Elems(s) == Elems(s[1..]) + {s[0]};
    }
  }

  /** The positions held, as a set. */
  ghost function KeptSet(capacity: nat, n: nat, draws: seq<int>): (held: set<int>)
    requires capacity <= n && |draws| == n - capacity
    ensures |held| == capacity && held <= Range(n)
  {
    KeptAreDistinct(capacity, n, draws);
    DistinctSize(Kept(capacity, n, draws));
    Elems(Kept(capacity, n, draws))
  }

  lemma OverwriteElems(s: seq<int>, r: nat, v: int)
    requires r < |s| && NoDup(s) && v !in s
    ensures Elems(s[r := v]) == Elems(s) - {s[r]} + {v}
  {
    var t := s[r := v];
    assert t[r] == v;
    forall x | x in Elems(s) - {s[r]} ensures x in t {
      var k :| 0 <= k < |s| && s[k] == x;
      assert t[k] == x;
    }
  }

  /** What one offer does to the positions held: a draw below the capacity evicts that slot. */
  lemma OfferOnKept(capacity: nat, n: nat, d: seq<int>, r: int)
    requires 1 <= capacity < n && |d| == n - 1 - capacity && 0 <= r < n
    ensures KeptSet(capacity, n, d + [r]) ==
            if r < capacity then KeptSet(capacity, n - 1, d) - {Kept(capacity, n - 1, d)[r]} + {n - 1}
            else KeptSet(capacity, n - 1, d)
  {
    assert (d + [r])[..|d|] == d;
    KeptAreDistinct(capacity, n - 1, d);
    if r < capacity {
      OverwriteElems(Kept(capacity, n - 1, d), r, n - 1);
    }
  }

  // ---------------------------------------------------------------- counting draw sequences

  /** Every sequence of S, followed by every draw the options allow after it. */
  ghost function Extend(S: set<seq<int>>, options: seq<int> -> set<int>): set<seq<int>> {
    set d, r | d in S && r in options(d) :: d + [r]
  }

  lemma InExtend(S: set<seq<int>>, options: seq<int> -> set<int>, e: seq<int>)
    ensures e in Extend(S, options) <==>
            |e| > 0 && e[..|e| - 1] in S && e[|e| - 1] in options(e[..|e| - 1])
  {
    if e in Extend(S, options) {
      var d, r :| d in S && r in options(d) && e == d + [r];
      assert e[..|e| - 1] == d;
    }
    if |e| > 0 && e[..|e| - 1] in S && e[|e| - 1] in options(e[..|e| - 1]) {
      var d, r := e[..|e| - 1], e[|e| - 1];
      assert e == d + [r];
    }
  }

  /** A possible outcome of the random source over a stream of n values: draw k is in [0, capacity + k]. */
  ghost predicate IsDraws(capacity: nat, n: nat, e: seq<int>) {
    |e| == n - capacity && forall k :: 0 <= k < |e| ==> 0 <= e[k] <= capacity + k
  }

  lemma {:induction false} DrawsAreFinite(capacity: nat, n: nat) returns (all: set<seq<int>>)
    requires capacity <= n
    ensures forall e :: e in all <==> IsDraws(capacity, n, e)
    decreases n
  {
    if n == capacity {
      all := {[]};
    } else {
      var shorter := DrawsAreFinite(capacity, n - 1);
      all := Extend(shorter, d => Range(n));
      forall e ensures e in all <==> IsDraws(capacity, n, e) {
        InExtend(shorter, d => Range(n), e);
        if |e| > 0 {
          assert e == e[..|e| - 1] + [e[|e| - 1]];
        }
      }
    }
  }

  /** All of them. */
  ghost function AllDraws(capacity: nat, n: nat): (all: set<seq<int>>)
    requires capacity <= n
    ensures forall e :: e in all <==> IsDraws(capacity, n, e)
  {
    assert exists s :: Exhaustive(capacity, n, s) by {
      var s := DrawsAreFinite(capacity, n);
      assert Exhaustive(capacity, n, s);
    }
    var s :| Exhaustive(capacity, n, s);
    s
  }

  ghost predicate Exhaustive(capacity: nat, n: nat, all: set<seq<int>>) {
    forall e :: e in all <==> IsDraws(capacity, n, e)
  }

  /** One more offer: any earlier draws, then any index below n. */
  lemma LastDraw(capacity: nat, n: nat, d: seq<int>, r: int)
    requires capacity < n
    ensures IsDraws(capacity, n, d + [r]) <==> IsDraws(capacity, n - 1, d) && 0 <= r < n
  {
    assert forall k :: 0 <= k < |d| ==> (d + [r])[k] == d[k];
    if |d| == n - 1 - capacity {
      assert (d + [r])[|d|] == r;
    }
  }

  lemma {:induction false} ImageSize(d: seq<int>, rs: set<int>)
    ensures |set r | r in rs :: d + [r]| == |rs|
  {
    if rs == {} {
      assert (set r | r in rs :: d + [r]) == {};
    } else {
      var r0 := Pick(rs);
      ImageSize(d, rs - {r0});
      var rest := set r | r in rs - {r0} :: d + [r];
      assert d + [r0] !in rest by {
        assert forall r :: (d + [r])[|d|] == r;
      }
      assert (set r | r in rs :: d + [r]) == rest + {d + [r0]};
    }
  }

  lemma ExtendSplit(S: set<seq<int>>, options: seq<int> -> set<int>, d0: seq<int>)
    requires d0 in S
    ensures |Extend(S, options)| == |Extend(S - {d0}, options)| + |options(d0)|
  {
    var rest, image := Extend(S - {d0}, options), set r | r in options(d0) :: d0 + [r];
    ImageSize(d0, options(d0));
    assert Extend(S, options) == rest + image;
    forall e | e in image ensures e !in rest {
      InExtend(S - {d0}, options, e);
      assert e[..|e| - 1] == d0;
    }
    assert rest !! image;
  }

  /** k * m, as repeated addition. */
  function Times(k: nat, m: nat): nat {
    if k == 0 then 0 else Times(k - 1, m) + m
  }

  lemma {:induction false} TimesIsProduct(k: nat, m: nat)
    ensures Times(k, m) == k * m
  {
    if k > 0 {
      TimesIsProduct(k - 1, m);
    }
  }

  /** If every sequence of S has m continuations, there are |S| * m continued sequences. */
  lemma {:induction false} ExtendSize(S: set<seq<int>>, options: seq<int> -> set<int>, m: nat)
    requires forall d :: d in S ==> |options(d)| == m
    ensures |Extend(S, options)| == Times(|S|, m)
  {
    if S == {} {
      assert Extend(S, options) == {};
    } else {
      var d0 := Pick(S);
      ExtendSize(S - {d0}, options, m);
      ExtendSplit(S, options, d0);
    }
  }

  /** A set of draw sequences for n, described by the last draws that each shorter sequence allows. */
  ghost predicate ByLastDraw(capacity: nat, n: nat, whole: set<seq<int>>, S: set<seq<int>>,
                             options: seq<int> -> set<int>, m: nat)
    requires capacity < n
  {
    && whole <= AllDraws(capacity, n) && S <= AllDraws(capacity, n - 1)
    && (forall d :: d in S ==> |options(d)| == m && options(d) <= Range(n))
    && forall d, r :: d in AllDraws(capacity, n - 1) && 0 <= r < n ==>
         (d + [r] in whole <==> d in S && r in options(d))
  }

  lemma CountByLastDraw(capacity: nat, n: nat, whole: set<seq<int>>, S: set<seq<int>>,
                        options: seq<int> -> set<int>, m: nat)
    requires capacity < n && ByLastDraw(capacity, n, whole, S, options, m)
    ensures |whole| == Times(|S|, m)
  {
    forall e ensures e in whole <==> e in Extend(S, options) {
      InExtend(S, options, e);
      if |e| > 0 {
        var d, r := e[..|e| - 1], e[|e| - 1];
        assert e == d + [r];
        LastDraw(capacity, n, d, r);
      }
    }
    assert whole == Extend(S, options);
    ExtendSize(S, options, m);
  }

  lemma DrawsStep(capacity: nat, n: nat)
    requires capacity < n
    ensures |AllDraws(capacity, n)| == Times(|AllDraws(capacity, n - 1)|, n)
  {
    forall d, r | d in AllDraws(capacity, n - 1) && 0 <= r < n
      ensures d + [r] in AllDraws(capacity, n)
    {
      LastDraw(capacity, n, d, r);
    }
    RangeSize(n);
    CountByLastDraw(capacity, n, AllDraws(capacity, n), AllDraws(capacity, n - 1), d => Range(n), n);
  }

  // ---------------------------------------------------------------- each position is kept equally often

  /** The draw sequences after which position i is in the reservoir. */
  ghost function Keeping(capacity: nat, n: nat, i: int): set<seq<int>>
    requires capacity <= n
  {
    set d | d in AllDraws(capacity, n) && |d| == n - capacity && i in KeptSet(capacity, n, d)
  }

  /** The draws for offer n that leave an earlier position i where it is: all but i's own slot. */
  ghost function Sparing(capacity: nat, n: nat, i: int): seq<int> -> set<int>
    requires capacity < n
  {
    d => if |d| == n - 1 - capacity
         then set r | r in Range(n) && !(r < capacity && Kept(capacity, n - 1, d)[r] == i) else {}
  }

  lemma SparingSize(capacity: nat, n: nat, i: int, d: seq<int>)
    requires 1 <= capacity < n && |d| == n - 1 - capacity && i in KeptSet(capacity, n - 1, d)
    ensures |Sparing(capacity, n, i)(d)| == n - 1
  {
    var kept := Kept(capacity, n - 1, d);
    var s :| 0 <= s < capacity && kept[s] == i;
    KeptAreDistinct(capacity, n - 1, d);
    assert Sparing(capacity, n, i)(d) == Range(n) - {s};
    RangeSize(n);
  }

  lemma SurvivesOneOffer(capacity: nat, n: nat, i: int, d: seq<int>, r: int)
    requires 1 <= capacity < n && 0 <= i < n - 1 && d in AllDraws(capacity, n - 1) && 0 <= r < n
    ensures d + [r] in Keeping(capacity, n, i) <==>
            d in Keeping(capacity, n - 1, i) && r in Sparing(capacity, n, i)(d)
  {
    LastDraw(capacity, n, d, r);
    OfferOnKept(capacity, n, d, r);
  }

  /** An earlier position survives one more offer in n - 1 ways out of n. */
  lemma KeepingAnEarlier(capacity: nat, n: nat, i: int)
    requires 1 <= capacity < n && 0 <= i < n - 1
    ensures ByLastDraw(capacity, n, Keeping(capacity, n, i), Keeping(capacity, n - 1, i),
                       Sparing(capacity, n, i), n - 1)
  {
    forall d | d in Keeping(capacity, n - 1, i) ensures |Sparing(capacity, n, i)(d)| == n - 1 {
      SparingSize(capacity, n, i, d);
    }
    forall d, r | d in AllDraws(capacity, n - 1) && 0 <= r < n
      ensures d + [r] in Keeping(capacity, n, i) <==>
              d in Keeping(capacity, n - 1, i) && r in Sparing(capacity, n, i)(d)
    {
      SurvivesOneOffer(capacity, n, i, d, r);
    }
  }

  /** The newest position is kept by the draws below the capacity. */
  lemma KeepingTheNewest(capacity: nat, n: nat)
    requires 1 <= capacity < n
    ensures |Keeping(capacity, n, n - 1)| == Times(|AllDraws(capacity, n - 1)|, capacity)
  {
    var S, whole := AllDraws(capacity, n - 1), Keeping(capacity, n, n - 1);
    forall d, r | d in S && 0 <= r < n
      ensures d + [r] in whole <==> r in Range(capacity)
    {
      LastDraw(capacity, n, d, r);
      OfferOnKept(capacity, n, d, r);
    }
    RangeSize(capacity);
    CountByLastDraw(capacity, n, whole, S, d => Range(capacity), capacity);
  }

  /** One more offer multiplies the draw sequences by n, and those that keep position i by n - 1. */
  lemma KeepingStep(capacity: nat, n: nat, i: int)
    requires 1 <= capacity < n && 0 <= i < n
    ensures |AllDraws(capacity, n)| == Times(|AllDraws(capacity, n - 1)|, n)
    ensures |Keeping(capacity, n, i)| ==
            if i < n - 1 then Times(|Keeping(capacity, n - 1, i)|, n - 1)
            else Times(|AllDraws(capacity, n - 1)|, capacity)
  {
    DrawsStep(capacity, n);
    if i < n - 1 {
      KeepingAnEarlier(capacity, n, i);
      CountByLastDraw(capacity, n, Keeping(capacity, n, i), Keeping(capacity, n - 1, i),
                      Sparing(capacity, n, i), n - 1);
    } else {
      KeepingTheNewest(capacity, n);
    }
  }

  lemma ShareIsKept(capacity: nat, n: nat, total: nat, all: nat, before: nat, kept: nat)
    requires all == Times(total, n)
    requires kept == Times(total, capacity)
             || (n > 0 && before * (n - 1) == capacity * total && kept == Times(before, n - 1))
    ensures kept * n == capacity * all
  {
    TimesIsProduct(total, n);
    TimesIsProduct(total, capacity);
    if n > 0 {
      TimesIsProduct(before, n - 1);
    }
    assert kept == capacity * total;
    assert kept * n == capacity * (total * n);
  }

  /** Uniform inclusion: over a stream of n >= capacity values, the draw sequences that keep position
      i are the same share capacity / n of all draw sequences, for every i. */
  lemma {:induction false} EachPositionIsKeptEquallyOften(capacity: nat, n: nat, i: int)
    requires 1 <= capacity <= n && 0 <= i < n
    ensures |Keeping(capacity, n, i)| * n == capacity * |AllDraws(capacity, n)|
    decreases n
  {
    if n == capacity {
      NothingDrawn(capacity);
      assert Keeping(capacity, n, i) == {[]};
    } else {
      if i < n - 1 {
        EachPositionIsKeptEquallyOften(capacity, n - 1, i);
      }
      KeepingStep(capacity, n, i);
      ShareIsKept(capacity, n, |AllDraws(capacity, n - 1)|, |AllDraws(capacity, n)|,
                  if i < n - 1 then |Keeping(capacity, n - 1, i)| else 0, |Keeping(capacity, n, i)|);
    }
  }

  lemma NothingDrawn(capacity: nat)
    ensures KeptSet(capacity, capacity, []) == Range(capacity)
    ensures AllDraws(capacity, capacity) == {[]}
  {
    assert IsDraws(capacity, capacity, []);
    RangeSize(capacity);
    FullSubset(KeptSet(capacity, capacity, []), Range(capacity));
  }

  // ---------------------------------------------------------------- each subset is kept equally often

  /** The draw sequences after which the reservoir holds exactly the positions in A. */
  ghost function Holding(capacity: nat, n: nat, A: set<int>): set<seq<int>>
    requires capacity <= n
  {
    set d | d in AllDraws(capacity, n) && |d| == n - capacity && KeptSet(capacity, n, d) == A
  }

  function Factorial(n: nat): nat {
    if n == 0 then 1 else n * Factorial(n - 1)
  }

  lemma DrawMissed(capacity: nat, n: nat, A: set<int>, d: seq<int>, r: int)
    requires 1 <= capacity < n && n - 1 !in A && d in AllDraws(capacity, n - 1) && 0 <= r < n
    ensures d + [r] in Holding(capacity, n, A) <==>
            d in Holding(capacity, n - 1, A) && r in Range(n) - Range(capacity)
  {
    LastDraw(capacity, n, d, r);
    OfferOnKept(capacity, n, d, r);
  }

  lemma DifferenceSize(a: set<int>, b: set<int>)
    requires b <= a
    ensures |a - b| == |a| - |b|
  {
    assert a == b + (a - b);
  }

  /** The draws that miss every slot. */
  ghost function Misses(capacity: nat, n: nat): seq<int> -> set<int> {
    d => Range(n) - Range(capacity)
  }

  /** The newest position is not in A: the last draw missed every slot. */
  lemma HoldingWithoutNewest(capacity: nat, n: nat, A: set<int>)
    requires 1 <= capacity < n && n - 1 !in A
    ensures ByLastDraw(capacity, n, Holding(capacity, n, A), Holding(capacity, n - 1, A),
                       Misses(capacity, n), n - capacity)
  {
    RangeSize(n);
    RangeSize(capacity);
    DifferenceSize(Range(n), Range(capacity));
    forall d, r | d in AllDraws(capacity, n - 1) && 0 <= r < n
      ensures d + [r] in Holding(capacity, n, A) <==>
              d in Holding(capacity, n - 1, A) && r in Misses(capacity, n)(d)
    {
      DrawMissed(capacity, n, A, d, r);
    }
  }

  /** Sequences holding B and exactly one further position, drawn from X. */
  ghost function HoldingOneOf(capacity: nat, n: nat, B: set<int>, X: set<int>): set<seq<int>>
    requires capacity <= n
  {
    set d | d in AllDraws(capacity, n) && |d| == n - capacity && OneMore(KeptSet(capacity, n, d), B, X)
  }

  ghost predicate OneMore(held: set<int>, B: set<int>, X: set<int>) {
    exists x :: x in X && held == B + {x}
  }

  ghost predicate InSome(X: set<int>, part: int -> set<seq<int>>, d: seq<int>) {
    exists x :: x in X && d in part(x)
  }

  /** A disjoint union of |X| parts of size m. */
  lemma {:induction false} UnionSize(X: set<int>, part: int -> set<seq<int>>, whole: set<seq<int>>, m: nat)
    requires forall d :: d in whole <==> InSome(X, part, d)
    requires forall x, y, d :: x in X && y in X && d in part(x) && d in part(y) ==> x == y
    requires forall x :: x in X ==> |part(x)| == m
    ensures |whole| == Times(|X|, m)
  {
    if X == {} {
      assert whole == {};
    } else {
      var x0 := Pick(X);
      var rest := whole - part(x0);
      forall d ensures d in rest <==> InSome(X - {x0}, part, d) {
        if d in rest {
          var x :| x in X && d in part(x);
          assert x in X - {x0};
        } else if InSome(X - {x0}, part, d) {
          var x :| x in X - {x0} && d in part(x);
          assert x in X && InSome(X, part, d);
        }
      }
      UnionSize(X - {x0}, part, rest, m);
      PartSize(whole, part(x0), rest, X, part, x0);
    }
  }

  lemma PartSize(whole: set<seq<int>>, here: set<seq<int>>, rest: set<seq<int>>, X: set<int>,
                 part: int -> set<seq<int>>, x0: int)
    requires forall d :: d in whole <==> InSome(X, part, d)
    requires x0 in X && here == part(x0) && rest == whole - here
    ensures |whole| == |rest| + |here|
  {
    forall d | d in here ensures d in whole {
      assert InSome(X, part, d);
    }
    assert whole == rest + here;
  }

  lemma HoldingOneOfSize(capacity: nat, n: nat, B: set<int>, X: set<int>, m: nat)
    requires capacity <= n && B !! X
    requires forall x :: x in X ==> |Holding(capacity, n, B + {x})| == m
    ensures |HoldingOneOf(capacity, n, B, X)| == Times(|X|, m)
  {
    var part := x => Holding(capacity, n, B + {x});
    var whole := HoldingOneOf(capacity, n, B, X);
    forall d ensures d in whole <==> InSome(X, part, d) {
      if d in whole {
        var x :| x in X && KeptSet(capacity, n, d) == B + {x};
        assert d in part(x);
      }
    }
    forall x, y, d | x in X && y in X && d in part(x) && d in part(y) ensures x == y {
      assert x in B + {y};
    }
    UnionSize(X, part, whole, m);
  }

  /** The slots whose content is not in B. */
  ghost function Victims(capacity: nat, n: nat, B: set<int>): seq<int> -> set<int>
    requires capacity < n
  {
    d => if |d| == n - 1 - capacity
         then set r | r in Range(capacity) && Kept(capacity, n - 1, d)[r] !in B else {}
  }

  /** A reservoir that holds B and one more position has one slot to evict. */
  lemma OneVictim(capacity: nat, n: nat, B: set<int>, x: int, d: seq<int>)
    requires 1 <= capacity < n && x !in B && |d| == n - 1 - capacity && KeptSet(capacity, n - 1, d) == B + {x}
    ensures |Victims(capacity, n, B)(d)| == 1 && Victims(capacity, n, B)(d) <= Range(n)
  {
    KeptAreDistinct(capacity, n - 1, d);
    var s := OneOutside(Kept(capacity, n - 1, d), B, x);
    assert Victims(capacity, n, B)(d) == {s};
  }

  lemma OneOutside(kept: seq<int>, B: set<int>, x: int) returns (s: nat)
    requires NoDup(kept) && Elems(kept) == B + {x} && x !in B
    ensures s < |kept| && forall r :: 0 <= r < |kept| ==> (kept[r] !in B <==> r == s)
  {
    assert x in Elems(kept);
    s :| 0 <= s < |kept| && kept[s] == x;
    forall r | 0 <= r < |kept| ensures kept[r] !in B <==> r == s {
      assert kept[r] in Elems(kept);
    }
  }

  /** With the newest position in A, the last draw evicted the one position that is not in A. */
  lemma LastDrawEvicts(capacity: nat, n: nat, A: set<int>, d: seq<int>, r: int)
    requires 1 <= capacity < n && A <= Range(n) && n - 1 in A && |A| == capacity
    requires |d| == n - 1 - capacity && 0 <= r < n
    ensures var B := A - {n - 1};
            KeptSet(capacity, n, d + [r]) == A <==>
            r in Victims(capacity, n, B)(d) && OneMore(KeptSet(capacity, n - 1, d), B, Range(n - 1) - B)
  {
    var B, held := A - {n - 1}, KeptSet(capacity, n - 1, d);
    OfferOnKept(capacity, n, d, r);
    if r < capacity {
      var x := Kept(capacity, n - 1, d)[r];
      assert x in held;
      EvictOne(held, A, B, x, n - 1);
      OnlyOneMore(held, B, Range(n - 1) - B, x);
    }
  }

  /** Putting a new element in the place of x gives A exactly if x was the one element not in A. */
  lemma EvictOne(held: set<int>, A: set<int>, B: set<int>, x: int, newest: int)
    requires x in held && newest !in held && newest in A && B == A - {newest}
    ensures held - {x} + {newest} == A <==> x !in B && held == B + {x}
  {
    if held - {x} + {newest} == A {
      assert B == held - {x};
    }
    if x !in B && held == B + {x} {
      assert held - {x} == B;
    }
  }

  lemma OnlyOneMore(held: set<int>, B: set<int>, X: set<int>, x: int)
    requires x in held && X !! B && held <= B + X
    ensures x !in B && OneMore(held, B, X) <==> x !in B && held == B + {x}
  {
    if x !in B && held == B + {x} {
      assert x in X;
    }
  }

  lemma HoldingWithNewest(capacity: nat, n: nat, A: set<int>, B: set<int>, X: set<int>, m: nat)
    requires 1 <= capacity < n && A <= Range(n) && n - 1 in A && |A| == capacity
    requires B == A - {n - 1} && X == Range(n - 1) - B
    requires forall x :: x in X ==> |Holding(capacity, n - 1, B + {x})| == m
    ensures |Holding(capacity, n, A)| == Times(|X|, m)
  {
    HoldingOneOfSize(capacity, n - 1, B, X, m);
    HoldingByLastDraw(capacity, n, A, B, X);
    CountByLastDraw(capacity, n, Holding(capacity, n, A), HoldingOneOf(capacity, n - 1, B, X),
                    Victims(capacity, n, B), 1);
    TimesIsProduct(|HoldingOneOf(capacity, n - 1, B, X)|, 1);
  }

  lemma HoldingByLastDraw(capacity: nat, n: nat, A: set<int>, B: set<int>, X: set<int>)
    requires 1 <= capacity < n && A <= Range(n) && n - 1 in A && |A| == capacity
    requires B == A - {n - 1} && X == Range(n - 1) - B
    ensures ByLastDraw(capacity, n, Holding(capacity, n, A), HoldingOneOf(capacity, n - 1, B, X),
                       Victims(capacity, n, B), 1)
  {
    var whole, S, options := Holding(capacity, n, A), HoldingOneOf(capacity, n - 1, B, X), Victims(capacity, n, B);
    forall d | d in S ensures |options(d)| == 1 && options(d) <= Range(n) {
      OneVictimOf(capacity, n, B, X, d);
    }
    forall d, r | d in AllDraws(capacity, n - 1) && 0 <= r < n
      ensures d + [r] in whole <==> d in S && r in options(d)
    {
      EvictsToHold(capacity, n, A, B, X, d, r);
    }
  }

  lemma OneVictimOf(capacity: nat, n: nat, B: set<int>, X: set<int>, d: seq<int>)
    requires 1 <= capacity < n && X == Range(n - 1) - B && d in HoldingOneOf(capacity, n - 1, B, X)
    ensures |Victims(capacity, n, B)(d)| == 1 && Victims(capacity, n, B)(d) <= Range(n)
  {
    var x :| x in X && KeptSet(capacity, n - 1, d) == B + {x};
    OneVictim(capacity, n, B, x, d);
  }

  lemma EvictsToHold(capacity: nat, n: nat, A: set<int>, B: set<int>, X: set<int>, d: seq<int>, r: int)
    requires 1 <= capacity < n && A <= Range(n) && n - 1 in A && |A| == capacity
    requires B == A - {n - 1} && X == Range(n - 1) - B
    requires d in AllDraws(capacity, n - 1) && 0 <= r < n
    ensures d + [r] in Holding(capacity, n, A) <==>
            d in HoldingOneOf(capacity, n - 1, B, X) && r in Victims(capacity, n, B)(d)
  {
    LastDraw(capacity, n, d, r);
    LastDrawEvicts(capacity, n, A, d, r);
  }

  lemma SwapLast(n: nat, A: set<int>, x: int)
    requires 1 <= n && A <= Range(n) && n - 1 in A && x in Range(n - 1) - A
    ensures A - {n - 1} + {x} <= Range(n - 1) && |A - {n - 1} + {x}| == |A|
  {
  }

  lemma NextFactorial(k: nat, size: nat)
    requires k > 0 && (size == Times(k, Factorial(k - 1)) || size == Times(Factorial(k - 1), k))
    ensures size == Factorial(k)
  {
    TimesIsProduct(k, Factorial(k - 1));
    TimesIsProduct(Factorial(k - 1), k);
  }

  lemma SubsetStepWithout(capacity: nat, n: nat, A: set<int>)
    requires 1 <= capacity < n && n - 1 !in A
    requires |Holding(capacity, n - 1, A)| == Factorial(n - 1 - capacity)
    ensures |Holding(capacity, n, A)| == Factorial(n - capacity)
  {
    HoldingWithoutNewest(capacity, n, A);
    CountByLastDraw(capacity, n, Holding(capacity, n, A), Holding(capacity, n - 1, A),
                    Misses(capacity, n), n - capacity);
    NextFactorial(n - capacity, |Holding(capacity, n, A)|);
  }

  lemma SubsetStepWith(capacity: nat, n: nat, A: set<int>, B: set<int>, X: set<int>)
    requires 1 <= capacity < n && A <= Range(n) && n - 1 in A && |A| == capacity
    requires B == A - {n - 1} && X == Range(n - 1) - B
    requires forall x :: x in X ==> |Holding(capacity, n - 1, B + {x})| == Factorial(n - 1 - capacity)
    ensures |Holding(capacity, n, A)| == Factorial(n - capacity)
  {
    HoldingWithNewest(capacity, n, A, B, X, Factorial(n - 1 - capacity));
    RemainingSize(n, A, B, X);
    NextFactorial(n - capacity, |Holding(capacity, n, A)|);
  }

  /** How many positions could have been evicted. */
  lemma RemainingSize(n: nat, A: set<int>, B: set<int>, X: set<int>)
    requires 1 <= n && A <= Range(n) && n - 1 in A && B == A - {n - 1} && X == Range(n - 1) - B
    ensures |X| == n - |A|
  {
    RangeSize(n - 1);
    assert B <= Range(n - 1);
    DifferenceSize(Range(n - 1), B);
  }

  lemma WholeStream(n: nat, A: set<int>)
    requires 1 <= n && A <= Range(n) && |A| == n
    ensures |Holding(n, n, A)| == Factorial(0)
  {
    NothingDrawn(n);
    RangeSize(n);
    FullSubset(A, Range(n));
    assert Holding(n, n, A) == {[]};
  }

  /** Uniform sampling: every set of `capacity` stream positions is what the reservoir holds after
      exactly (n - capacity)! of the draw sequences. */
  lemma {:induction false} EachSubsetIsKeptEquallyOften(capacity: nat, n: nat, A: set<int>)
    requires 1 <= capacity <= n && A <= Range(n) && |A| == capacity
    ensures |Holding(capacity, n, A)| == Factorial(n - capacity)
    decreases n
  {
    if n == capacity {
      WholeStream(n, A);
    } else if n - 1 !in A {
      EachSubsetIsKeptEquallyOften(capacity, n - 1, A);
      SubsetStepWithout(capacity, n, A);
    } else {
      var B := A - {n - 1};
      var X := Range(n - 1) - B;
      forall x | x in X ensures |Holding(capacity, n - 1, B + {x})| == Factorial(n - 1 - capacity) {
        SwapLast(n, A, x);
        EachSubsetIsKeptEquallyOften(capacity, n - 1, B + {x});
      }
      SubsetStepWith(capacity, n, A, B, X);
    }
  }
}
