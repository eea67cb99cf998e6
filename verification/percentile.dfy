/** The quantile estimator pandas' `Series.quantile` uses by default: linear
    interpolation between adjacent order statistics (numpy's "linear" method,
    Hyndman and Fan's definition 7). For a level p over n sorted values the
    virtual position is h = p*(n-1); the result lies the fraction h - floor(h)
    of the way from the order statistic at floor(h) to the next one, the next
    index being clipped to the last. Exact `real` arithmetic stands for
    float64. */
module Percentile {
  import opened Optional
  import opened Sorting

  /** A quantile level, a fraction in [0, 1]. */
  type Level = p: real | 0.0 <= p <= 1.0 witness 0.0

  /** The two cut-off levels of the outlier filter: the 2.5th and the 97.5th
      percentile. */
  const LowerLevel: Level := 0.025
  const UpperLevel: Level := 0.975

  /** The virtual position p*(n-1) of level p among n order statistics. */
  function Position(n: nat, p: Level): (h: real)
    requires n > 0
    ensures 0.0 <= h <= (n - 1) as real
  {
    Scale(p, (n - 1) as real);
    p * (n - 1) as real
  }

  /** The order statistic at or below the virtual position. */
  function BelowIndex(n: nat, p: Level): (i: nat)
    requires n > 0
    ensures i < n
    ensures i as real <= Position(n, p) < i as real + 1.0
  {
    Position(n, p).Floor
  }

  /** The order statistic just above it, clipped to the last index. */
  function AboveIndex(n: nat, p: Level): (j: nat)
    requires n > 0
    ensures j < n
    ensures j == BelowIndex(n, p) + 1 || (j == BelowIndex(n, p) && Position(n, p) == j as real)
  {
    var i := BelowIndex(n, p);
    if i + 1 < n then i + 1 else i
  }

  /** Linear interpolation between the two neighbouring order statistics of
      an ascending sequence; the result lies between them. */
  function QuantileOfSorted(s: seq<int>, p: Level): (q: real)
    requires |s| > 0 && Ascending(s)
    ensures s[BelowIndex(|s|, p)] as real <= q <= s[AboveIndex(|s|, p)] as real
  {
    var i, j := BelowIndex(|s|, p), AboveIndex(|s|, p);
    var g := Position(|s|, p) - i as real;
    assert s[i] <= s[j];
    LerpBetween(s[i] as real, s[j] as real, g);
    Lerp(s[i] as real, s[j] as real, g)
  }

  /** Linear interpolation between `a` and `b` at fraction `g`. */
  function Lerp(a: real, b: real, g: real): real
  {
    a + g * (b - a)
  }

  /** `Series.quantile(p)` over a value column: None (NaN in pandas) for an
      empty column, otherwise a value between the smallest and the largest. */
  function Quantile(values: seq<int>, p: Level): (q: Option<real>)
    ensures q.None? <==> values == []
    ensures q.Some? ==> Min(values) as real <= q.value <= Max(values) as real
  {
    if values == [] then None
    else
      var s := Sort(values);
      var q := QuantileOfSorted(s, p);
      var i, j := BelowIndex(|s|, p), AboveIndex(|s|, p);
      assert s[0] <= s[i] && s[j] <= s[|s| - 1];
      SortEnds(values);
      Some(q)
  }

  /** 0 <= g*d <= d for a fraction g and a non-negative d. */
  lemma {:induction false} Scale(g: real, d: real)
    requires 0.0 <= g <= 1.0 && 0.0 <= d
    ensures 0.0 <= g * d <= d
  {
    assert d - g * d == (1.0 - g) * d;
  }

  /** Every order statistic at a rank not above the position is a lower
      bound of the quantile. */
  lemma {:induction false} QuantileAboveRank(s: seq<int>, p: Level, k: nat)
    requires |s| > 0 && Ascending(s)
    requires k as real <= Position(|s|, p)
    ensures s[k] as real <= QuantileOfSorted(s, p)
  {
    assert k <= BelowIndex(|s|, p);
  }

  /** Every order statistic at a rank not below the position is an upper
      bound of the quantile. */
  lemma {:induction false} QuantileBelowRank(s: seq<int>, p: Level, k: nat)
    requires |s| > 0 && Ascending(s) && k < |s|
    requires Position(|s|, p) <= k as real
    ensures QuantileOfSorted(s, p) <= s[k] as real
  {
    var i, j := BelowIndex(|s|, p), AboveIndex(|s|, p);
    if i as real == Position(|s|, p) {
      assert QuantileOfSorted(s, p) == s[i] as real;
      assert i <= k;
    } else {
      assert j == i + 1 && j <= k;
    }
  }

  /** At a whole-number position the estimator returns that order statistic
      exactly: level 0 gives the minimum and level 1 the maximum. */
  lemma {:induction false} QuantileAtRank(values: seq<int>, p: Level, k: nat)
    requires k < |values|
    requires Position(|values|, p) == k as real
    ensures Quantile(values, p) == Some(Sort(values)[k] as real)
  {
    var s := Sort(values);
    QuantileAboveRank(s, p, k);
    QuantileBelowRank(s, p, k);
  }

  /** A higher level never gives a lower quantile; in particular the lower
      cut-off never exceeds the upper one. */
  lemma {:induction false} QuantileMonotone(values: seq<int>, p1: Level, p2: Level)
    requires values != [] && p1 <= p2
    ensures Quantile(values, p1).value <= Quantile(values, p2).value
  {
    SortedQuantileMonotone(Sort(values), p1, p2);
  }

  lemma {:induction false} SortedQuantileMonotone(s: seq<int>, p1: Level, p2: Level)
    requires |s| > 0 && Ascending(s) && p1 <= p2
    ensures QuantileOfSorted(s, p1) <= QuantileOfSorted(s, p2)
  {
    var n := |s|;
    var i1, i2 := BelowIndex(n, p1), BelowIndex(n, p2);
    PositionMonotone(n, p1, p2);
    if i1 == i2 {
      SameCellMonotone(s, p1, p2);
    } else {
      var j1 := AboveIndex(n, p1);
      QuantileAboveRank(s, p2, i2);
      assert j1 <= i2;
      assert s[j1] <= s[i2];
    }
  }

  /** Two levels whose positions share an interpolation cell. */
  lemma {:induction false} SameCellMonotone(s: seq<int>, p1: Level, p2: Level)
    requires |s| > 0 && Ascending(s)
    requires Position(|s|, p1) <= Position(|s|, p2)
    requires BelowIndex(|s|, p1) == BelowIndex(|s|, p2)
    ensures QuantileOfSorted(s, p1) <= QuantileOfSorted(s, p2)
  {
    var n := |s|;
    var i := BelowIndex(n, p1);
    var j := AboveIndex(n, p1);
    assert AboveIndex(n, p2) == j;
    var g1 := Position(n, p1) - i as real;
    var g2 := Position(n, p2) - i as real;
    assert s[i] <= s[j];
    assert QuantileOfSorted(s, p1) == Lerp(s[i] as real, s[j] as real, g1);
    assert QuantileOfSorted(s, p2) == Lerp(s[i] as real, s[j] as real, g2);
    assert 0.0 <= g1 <= g2 <= 1.0;
    LerpMonotone(s[i] as real, s[j] as real, g1, g2);
  }

  lemma {:induction false} PositionMonotone(n: nat, p1: Level, p2: Level)
    requires n > 0 && p1 <= p2
    ensures Position(n, p1) <= Position(n, p2)
  {
    assert Position(n, p2) - Position(n, p1) == (p2 - p1) * (n - 1) as real;
    Scale(p2 - p1, (n - 1) as real);
  }

  /** Interpolating at a fraction stays between the two end points. */
  lemma {:induction false} LerpBetween(a: real, b: real, g: real)
    requires a <= b && 0.0 <= g <= 1.0
    ensures a <= Lerp(a, b, g) <= b
  {
    var d := b - a;
    Scale(g, d);
    assert Lerp(a, b, g) == a + g * d;
  }

  /** Interpolating further along an ascending segment never goes down. */
  lemma {:induction false} LerpMonotone(a: real, b: real, g1: real, g2: real)
    requires a <= b && 0.0 <= g1 <= g2
    ensures Lerp(a, b, g1) <= Lerp(a, b, g2)
  {
    var d := b - a;
    assert Lerp(a, b, g2) - Lerp(a, b, g1) == (g2 - g1) * d;
  }
}
