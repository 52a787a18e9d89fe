/** Sums, tallies and sorting: the order-free arithmetic behind the aggregated results. */
module Sums {
  import opened Common

  function SumInts(s: seq<int>): int {
    if s == [] then 0 else SumInts(s[..|s| - 1]) + s[|s| - 1]
  }

  function SumReals(s: seq<real>): real {
    if s == [] then 0.0 else SumReals(s[..|s| - 1]) + s[|s| - 1]
  }

  lemma {:induction false} SumIntsAppend(a: seq<int>, b: seq<int>)
    ensures SumInts(a + b) == SumInts(a) + SumInts(b)
  {
    if b == [] {
      assert a + b == a;
    } else {
      assert (a + b)[..|a + b| - 1] == a + b[..|b| - 1];
      SumIntsAppend(a, b[..|b| - 1]);
    }
  }

  lemma {:induction false} SumRealsAppend(a: seq<real>, b: seq<real>)
    ensures SumReals(a + b) == SumReals(a) + SumReals(b)
  {
    if b == [] {
      assert a + b == a;
    } else {
      assert (a + b)[..|a + b| - 1] == a + b[..|b| - 1];
      SumRealsAppend(a, b[..|b| - 1]);
    }
  }

  // ---------------------------------------------------------------- tallies

  /** How often each key occurs. */
  function Tally<K(==)>(keys: seq<K>): map<K, nat> {
    map k | k in keys :: multiset(keys)[k]
  }

  function Count<K(==)>(m: map<K, nat>, k: K): nat {
    if k in m then m[k] else 0
  }

  /** Key-wise sum of two count maps. */
  function AddCounts<K(==)>(a: map<K, nat>, b: map<K, nat>): map<K, nat> {
    map k | k in a.Keys + b.Keys :: Count(a, k) + Count(b, k)
  }

  lemma TallyAppend<K>(a: seq<K>, b: seq<K>)
    ensures Tally(a + b) == AddCounts(Tally(a), Tally(b))
  {
    assert multiset(a + b) == multiset(a) + multiset(b);
    assert forall k :: k in a + b <==> k in multiset(a + b);
    assert forall k :: k in a <==> k in multiset(a);
    assert forall k :: k in b <==> k in multiset(b);
  }

  /** Counting one more key is the dictionary update the code makes. */
  lemma TallySnoc<K>(keys: seq<K>, k: K)
    ensures Tally(keys + [k]) == Tally(keys)[k := Count(Tally(keys), k) + 1]
  {
    TallyAppend(keys, [k]);
    assert Tally([k]) == map[k := 1];
  }

  lemma TallyOfPermutation<K>(a: seq<K>, b: seq<K>)
    requires multiset(a) == multiset(b)
    ensures Tally(a) == Tally(b)
  {
    assert forall k :: k in a <==> k in multiset(a);
    assert forall k :: k in b <==> k in multiset(b);
  }

  /** Sum of a function over a finite set. */
  ghost function SumOver<K>(S: set<K>, f: K -> int): int {
    if S == {} then 0 else
      var k := Pick(S);
      f(k) + SumOver(S - {k}, f)
  }

  /** The summation order does not matter. */
  lemma {:induction false} SumOverRemove<K>(S: set<K>, f: K -> int, k: K)
    requires k in S
    ensures SumOver(S, f) == f(k) + SumOver(S - {k}, f)
  {
    var p := Pick(S);
    if p != k {
      SumOverRemove(S - {p}, f, k);
      assert S - {p} - {k} == S - {k} - {p};
      SumOverRemove(S - {k}, f, p);
    }
  }

  lemma {:induction false} SumOverSame<K>(S: set<K>, f: K -> int, g: K -> int)
    requires forall k :: k in S ==> f(k) == g(k)
    ensures SumOver(S, f) == SumOver(S, g)
  {
    if S != {} {
      SumOverSame(S - {Pick(S)}, f, g);
    }
  }

  /** Changing the summand at one key, absent keys counting zero. */
  lemma SumOverBump<K>(S: set<K>, T: set<K>, f: K -> int, g: K -> int, k: K, d: int)
    requires T == S + {k} && (k !in S ==> f(k) == 0)
    requires g(k) == f(k) + d && forall x :: x in S && x != k ==> g(x) == f(x)
    ensures SumOver(T, g) == SumOver(S, f) + d
  {
    SumOverRemove(T, g, k);
    SumOverSame(T - {k}, f, g);
    if k in S {
      SumOverRemove(S, f, k);
      assert T == S;
    } else {
      assert T - {k} == S;
    }
  }

  /** The counts of a tally add up to the number of things counted. */
  lemma {:induction false} TallyTotal<K>(keys: seq<K>)
    ensures SumOver(Tally(keys).Keys, k => Count(Tally(keys), k)) == |keys|
  {
    if keys == [] {
      assert Tally(keys).Keys == {};
    } else {
      var front, last := keys[..|keys| - 1], keys[|keys| - 1];
      TallyTotal(front);
      assert keys == front + [last];
      TallySnoc(front, last);
      SumOverBump(Tally(front).Keys, Tally(keys).Keys, k => Count(Tally(front), k),
                  k => Count(Tally(keys), k), last, 1);
    }
  }

  // ---------------------------------------------------------------- sorting

  ghost predicate TotalOrder<T(!new)>(le: (T, T) -> bool) {
    && (forall x, y :: le(x, y) || le(y, x))
    && (forall x, y :: le(x, y) && le(y, x) ==> x == y)
    && (forall x, y, z :: le(x, y) && le(y, z) ==> le(x, z))
  }

  ghost predicate Ascending<T(!new)>(s: seq<T>, le: (T, T) -> bool) {
    forall i, j :: 0 <= i < j < |s| ==> le(s[i], s[j]) && s[i] != s[j]
  }

  ghost predicate Least<T(!new)>(S: set<T>, le: (T, T) -> bool, x: T) {
    x in S && forall y :: y in S ==> le(x, y)
  }

  lemma {:induction false} LeastExists<T(!new)>(S: set<T>, le: (T, T) -> bool)
    requires TotalOrder(le) && S != {}
    ensures exists x :: Least(S, le, x)
  {
    var p := Pick(S);
    if S - {p} == {} {
      assert S == {p};
      assert Least(S, le, p);
    } else {
      LeastExists(S - {p}, le);
      var m :| Least(S - {p}, le, m);
      var best := if le(p, m) then p else m;
      assert Least(S, le, best);
    }
  }

  /** The elements of a set in ascending order. */
  ghost function Sorted<T(!new)>(S: set<T>, le: (T, T) -> bool): (s: seq<T>)
    requires TotalOrder(le)
    ensures Elems(s) == S && Ascending(s, le)
  {
    if S == {} then []
    else
      LeastExists(S, le);
      var m :| Least(S, le, m);
      var rest := Sorted(S - {m}, le);
      assert forall i :: 0 <= i < |rest| ==> rest[i] in Elems(rest) && le(m, rest[i]) && m != rest[i];
      assert Elems([m] + rest) == {m} + Elems(rest);
      [m] + rest
  }

  /** A set has one ascending listing. */
  lemma {:induction false} SortedIsUnique<T(!new)>(a: seq<T>, b: seq<T>, le: (T, T) -> bool)
    requires TotalOrder(le) && Ascending(a, le) && Ascending(b, le) && Elems(a) == Elems(b)
    ensures a == b
  {
    assert forall i :: 0 <= i < |a| ==> a[i] in Elems(a);
    assert forall i :: 0 <= i < |b| ==> b[i] in Elems(b);
    if a != [] {
      assert a[0] in b && b[0] in a;
      assert a[0] == b[0];
      assert a == [a[0]] + a[1..] && b == [b[0]] + b[1..];
      assert a[0] !in a[1..] && b[0] !in b[1..];
      forall x ensures x in Elems(a[1..]) <==> x in Elems(b[1..]) {
        assert x in Elems(a) <==> x in Elems(b);
      }
      SortedIsUnique(a[1..], b[1..], le);
    }
  }

  /** Selection sort has listed `s` and still has `rest` to list. */
  ghost predicate Selecting<T(!new)>(S: set<T>, s: seq<T>, rest: set<T>, le: (T, T) -> bool) {
    && Ascending(s, le) && Elems(s) + rest == S && Elems(s) !! rest
    && forall i, y :: 0 <= i < |s| && y in rest ==> le(s[i], y)
  }

  lemma SelectLeast<T(!new)>(S: set<T>, s: seq<T>, rest: set<T>, m: T, le: (T, T) -> bool)
    requires Selecting(S, s, rest, le) && m in rest && forall y :: y in rest ==> le(m, y)
    ensures Selecting(S, s + [m], rest - {m}, le)
  {
    assert Elems(s + [m]) == Elems(s) + {m};
    forall i | 0 <= i < |s| ensures le(s[i], m) && s[i] != m {
      assert s[i] in Elems(s);
    }
  }

  /** sorted() on a collection without repeats. */
  method SortSet<T(!new, ==)>(S: set<T>, le: (T, T) -> bool) returns (s: seq<T>)
    requires TotalOrder(le)
    ensures s == Sorted(S, le)
  {
    var rest := S;
    s := [];
    while rest != {}
      invariant Selecting(S, s, rest, le)
      decreases |rest|
    {
      LeastExists(rest, le);
      assert exists m :: m in rest && forall y :: y in rest ==> le(m, y) by {
        var x :| Least(rest, le, x);
      }
      var m :| m in rest && forall y :: y in rest ==> le(m, y);
      SelectLeast(S, s, rest, m, le);
      s := s + [m];
      rest := rest - {m};
    }
    SortedIsUnique(s, Sorted(S, le), le);
  }

  predicate LeInt(x: int, y: int) { x <= y }

  predicate LeReal(x: real, y: real) { x <= y }
}
