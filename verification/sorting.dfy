/** Order statistics over integer sequences: the ascending sort the quantile
    estimator reads, minimum and maximum, sums, and order-preserving removal
    of duplicates (pandas' `unique`). */
module Sorting {

  predicate Ascending(s: seq<int>)
  {
    forall i, j :: 0 <= i < j < |s| ==> s[i] <= s[j]
  }

  predicate StrictlyAscending(s: seq<int>)
  {
    forall i, j :: 0 <= i < j < |s| ==> s[i] < s[j]
  }

  predicate Distinct<T(==)>(s: seq<T>)
  {
    forall i, j :: 0 <= i < j < |s| ==> s[i] != s[j]
  }

  function Sum(s: seq<int>): int
  {
    if s == [] then 0 else s[0] + Sum(s[1..])
  }

  lemma {:induction false} SumAppend(s: seq<int>, t: seq<int>)
    ensures Sum(s + t) == Sum(s) + Sum(t)
  {
    if s == [] {
      assert s + t == t;
    } else {
      assert (s + t)[1..] == s[1..] + t;
      SumAppend(s[1..], t);
    }
  }

  /** n copies of x added up. */
  function Scaled(n: nat, x: real): (r: real)
  {
    if n == 0 then 0.0 else x + Scaled(n - 1, x)
  }

  lemma {:induction false} ScaledIsProduct(n: nat, x: real)
    ensures Scaled(n, x) == n as real * x
  {
    if n > 0 {
      ScaledIsProduct(n - 1, x);
      OneMore(n as real, (n - 1) as real, x);
    }
  }

  lemma {:induction false} OneMore(m: real, n: real, x: real)
    requires m == n + 1.0
    ensures m * x == x + n * x
  {
  }

  /** n values inside [lo, hi] sum to between n*lo and n*hi. */
  lemma {:induction false} SumBounds(vs: seq<int>, lo: real, hi: real)
    requires forall i :: 0 <= i < |vs| ==> lo <= vs[i] as real <= hi
    ensures Scaled(|vs|, lo) <= Sum(vs) as real <= Scaled(|vs|, hi)
  {
    if vs != [] {
      var rest := vs[1..];
      forall i | 0 <= i < |rest| ensures lo <= rest[i] as real <= hi {
        assert rest[i] == vs[i + 1];
      }
      SumBounds(rest, lo, hi);
    }
  }

  /** The smallest element: it occurs in `s` and bounds every element. */
  function Min(s: seq<int>): (m: int)
    requires |s| > 0
    ensures m in s
    ensures forall x :: x in s ==> m <= x
  {
    if |s| == 1 then s[0]
    else
      var rest := Min(s[1..]);
      assert forall x :: x in s ==> x == s[0] || x in s[1..];
      if s[0] <= rest then s[0] else rest
  }

  /** The largest element: it occurs in `s` and bounds every element. */
  function Max(s: seq<int>): (m: int)
    requires |s| > 0
    ensures m in s
    ensures forall x :: x in s ==> x <= m
  {
    if |s| == 1 then s[0]
    else
      var rest := Max(s[1..]);
      assert forall x :: x in s ==> x == s[0] || x in s[1..];
      if s[0] >= rest then s[0] else rest
  }

  /** Insert `x` into an ascending sequence, keeping it ascending. */
  function Insert(x: int, s: seq<int>): (r: seq<int>)
    requires Ascending(s)
    ensures Ascending(r)
    ensures multiset(r) == multiset(s) + multiset{x}
    ensures |r| == |s| + 1
    ensures r[0] == x || (s != [] && r[0] == s[0])
  {
    if s == [] || x <= s[0] then
      AscendingCons(x, s);
      [x] + s
    else
      var t := Insert(x, s[1..]);
      AscendingCons(s[0], t);
      assert multiset(s) == multiset{s[0]} + multiset(s[1..]) by {
        assert s == [s[0]] + s[1..];
      }
      assert multiset([s[0]] + t) == multiset{s[0]} + multiset(t);
      [s[0]] + t
  }

  /** Putting a value no larger than the head in front keeps a sequence
      ascending. */
  lemma {:induction false} AscendingCons(a: int, t: seq<int>)
    requires Ascending(t)
    requires t != [] ==> a <= t[0]
    ensures Ascending([a] + t)
  {
    var r := [a] + t;
    forall i, j | 0 <= i < j < |r| ensures r[i] <= r[j] {
      if i == 0 {
        assert r[j] == t[j - 1] && t[0] <= t[j - 1];
      } else {
        assert r[i] == t[i - 1] && r[j] == t[j - 1];
      }
    }
  }

  /** Ascending sort (insertion sort): an ascending permutation of `s`. */
  function Sort(s: seq<int>): (r: seq<int>)
    ensures Ascending(r)
    ensures multiset(r) == multiset(s)
    ensures |r| == |s|
  {
    if s == [] then []
    else
      assert s == [s[0]] + s[1..];
      var r := Insert(s[0], Sort(s[1..]));
      assert |r| == |multiset(r)|;
      r
  }

  /** An ascending sequence is its own sort. */
  lemma {:induction false} SortAscendingUnchanged(s: seq<int>)
    requires Ascending(s)
    ensures Sort(s) == s
  {
    if s != [] {
      SortAscendingUnchanged(s[1..]);
      assert s == [s[0]] + s[1..];
    }
  }

  /** The ends of the sorted sequence are the minimum and the maximum. */
  lemma {:induction false} SortEnds(s: seq<int>)
    requires |s| > 0
    ensures Sort(s)[0] == Min(s)
    ensures Sort(s)[|s| - 1] == Max(s)
  {
    AscendingEnds(Sort(s), s);
  }

  /** Any ascending permutation of `s` starts at its minimum and ends at its
      maximum. */
  lemma {:induction false} AscendingEnds(r: seq<int>, s: seq<int>)
    requires |s| > 0 && Ascending(r) && multiset(r) == multiset(s)
    ensures |r| == |s|
    ensures r[0] == Min(s) && r[|r| - 1] == Max(s)
  {
    assert |r| == |multiset(r)| == |multiset(s)| == |s|;
    var lo, hi := Min(s), Max(s);
    SameElements(r, s, r[0]);
    SameElements(r, s, r[|r| - 1]);
    SameElements(s, r, lo);
    SameElements(s, r, hi);
    var i :| 0 <= i < |r| && r[i] == lo;
    var j :| 0 <= j < |r| && r[j] == hi;
    assert r[0] <= r[i] && r[j] <= r[|r| - 1];
  }

  lemma {:induction false} SameElements(a: seq<int>, b: seq<int>, x: int)
    requires multiset(a) == multiset(b)
    requires x in a
    ensures x in b
  {
    assert x in multiset(a);
  }

  /** Sorting keeps exactly the same elements. */
  lemma {:induction false} SortSameElements(s: seq<int>)
    ensures forall x :: x in Sort(s) <==> x in s
  {
    forall x ensures x in Sort(s) <==> x in s {
      assert x in Sort(s) <==> x in multiset(Sort(s));
      assert x in s <==> x in multiset(s);
    }
  }

  /** Inserting a fresh value into a strictly ascending sequence keeps it
      strictly ascending. */
  lemma {:induction false} InsertStrict(x: int, s: seq<int>)
    requires StrictlyAscending(s)
    requires x !in s
    ensures StrictlyAscending(Insert(x, s))
  {
    if s == [] || x <= s[0] {
      assert s != [] ==> x != s[0];
    } else {
      InsertStrict(x, s[1..]);
      var t := Insert(x, s[1..]);
      assert s == [s[0]] + s[1..];
      assert Insert(x, s) == [s[0]] + t;
      assert s[0] < t[0];
    }
  }

  /** Sorting a duplicate-free sequence gives a strictly ascending one, as
      `sorted(unique(...))` does. */
  lemma {:induction false} SortDistinctStrict(s: seq<int>)
    requires Distinct(s)
    ensures StrictlyAscending(Sort(s))
  {
    if s != [] {
      assert s == [s[0]] + s[1..];
      SortDistinctStrict(s[1..]);
      assert s[0] !in multiset(s[1..]);
      assert s[0] !in multiset(Sort(s[1..]));
      InsertStrict(s[0], Sort(s[1..]));
    }
  }

  /** The position of the first occurrence of `x` in `s`. */
  function FirstIndex<T(==)>(s: seq<T>, x: T): (i: nat)
    requires x in s
    ensures i < |s| && s[i] == x
    ensures forall j :: 0 <= j < i ==> s[j] != x
  {
    if s[0] == x then 0 else 1 + FirstIndex(s[1..], x)
  }

  /** A first occurrence within a prefix is the first occurrence in the whole
      sequence. */
  lemma {:induction false} FirstIndexOfPrefix<T>(s: seq<T>, n: nat, x: T)
    requires n <= |s| && x in s[..n]
    ensures FirstIndex(s, x) == FirstIndex(s[..n], x)
  {
    var i := FirstIndex(s[..n], x);
    var f := FirstIndex(s, x);
    assert s[i] == x;
  }

  /** Duplicates removed, first occurrences kept in their original order
      (pandas `Series.unique`). */
  function Unique<T(==,!new)>(s: seq<T>): (u: seq<T>)
    ensures Distinct(u)
    ensures forall x :: x in u <==> x in s
    ensures forall i, j :: 0 <= i < j < |u| ==> FirstIndex(s, u[i]) < FirstIndex(s, u[j])
  {
    if s == [] then []
    else
      var init := Unique(s[..|s| - 1]);
      assert forall x :: x in s <==> x in s[..|s| - 1] || x == s[|s| - 1];
      var u := if s[|s| - 1] in init then init else init + [s[|s| - 1]];
      UniqueStep(s, init, u);
      u
  }

  /** One step of Unique: the last element is appended when it is new. */
  lemma {:induction false} UniqueStep<T>(s: seq<T>, init: seq<T>, u: seq<T>)
    requires s != []
    requires forall x :: x in init <==> x in s[..|s| - 1]
    requires forall i :: 0 <= i < |init| ==> init[i] in s[..|s| - 1]
    requires forall i, j :: 0 <= i < j < |init| ==>
      FirstIndex(s[..|s| - 1], init[i]) < FirstIndex(s[..|s| - 1], init[j])
    requires u == if s[|s| - 1] in init then init else init + [s[|s| - 1]]
    ensures forall i :: 0 <= i < |u| ==> u[i] in s
    ensures forall i, j :: 0 <= i < j < |u| ==> FirstIndex(s, u[i]) < FirstIndex(s, u[j])
  {
    var n := |s| - 1;
    assert s == s[..n] + [s[n]];
    forall i | 0 <= i < |init|
      ensures init[i] in s && FirstIndex(s, init[i]) == FirstIndex(s[..n], init[i]) < n
    {
      FirstIndexOfPrefix(s, n, init[i]);
    }
    if s[n] !in init {
      forall j | 0 <= j < n ensures s[j] != s[n] {
        assert s[j] == s[..n][j];
      }
      assert FirstIndex(s, s[n]) == n;
    }
  }

  /** On an ascending sequence, removing duplicates leaves a strictly
      ascending one. */
  lemma {:induction false} UniqueOfAscending(s: seq<int>)
    requires Ascending(s)
    ensures StrictlyAscending(Unique(s))
  {
    if s != [] {
      var init := s[..|s| - 1];
      var last := s[|s| - 1];
      UniqueOfAscending(init);
      var u := Unique(init);
      forall y | y in u ensures y <= last {
        assert y in init;
      }
      if last !in u {
        assert Unique(s) == u + [last];
        forall i, j | 0 <= i < j < |u + [last]| ensures (u + [last])[i] < (u + [last])[j] {
          if j == |u| {
            assert u[i] in u;
          }
        }
      }
    }
  }

  /** A strictly ascending sequence is determined by its elements. */
  lemma {:induction false} StrictlyAscendingDetermined(a: seq<int>, b: seq<int>)
    requires StrictlyAscending(a) && StrictlyAscending(b)
    requires forall x :: x in a <==> x in b
    ensures a == b
  {
    assert a != [] ==> a[0] in a;
    assert b != [] ==> b[0] in b;
    if a != [] && b != [] {
      assert a[0] == b[0] by {
        assert a[0] in b && b[0] in a;
      }
      forall x ensures x in a[1..] <==> x in b[1..] {
        assert x in a[1..] <==> x in a && x != a[0];
        assert x in b[1..] <==> x in b && x != b[0];
      }
      StrictlyAscendingDetermined(a[1..], b[1..]);
      assert a == [a[0]] + a[1..] && b == [b[0]] + b[1..];
    }
  }
}
