/** The cleaning step applied once to the whole loaded series: keep the rows
    whose page count lies in the closed band between the 2.5th and the 97.5th
    percentile of the full, unfiltered value column. */
module OutlierFilter {
  import opened Optional
  import opened Sorting
  import opened Percentile
  import opened Series

  /** A closed band [low, high] of page counts. */
  datatype Band = Band(low: real, high: real)

  predicate InBand(v: int, b: Band)
  {
    b.low <= v as real <= b.high
  }

  /** The band of the cleaning step: both cut-offs computed over the full
      column. An empty column has no band (pandas' quantile gives NaN). */
  function BandOf(rows: seq<Row>): (b: Option<Band>)
    ensures b.None? <==> rows == []
    ensures b.Some? ==> b.value.low <= b.value.high
    ensures b.Some? ==> Min(Values(rows)) as real <= b.value.low
    ensures b.Some? ==> b.value.high <= Max(Values(rows)) as real
  {
    var vs := Values(rows);
    if rows == [] then None
    else
      QuantileMonotone(vs, LowerLevel, UpperLevel);
      Some(Band(Quantile(vs, LowerLevel).value, Quantile(vs, UpperLevel).value))
  }

  /** The boolean-mask selection: the rows inside the band, in their
      original order. */
  function Within(rows: seq<Row>, b: Band): (kept: seq<Row>)
    ensures |kept| <= |rows|
    ensures forall r :: r in kept ==> r in rows && InBand(r.value, b)
  {
    if rows == [] then []
    else
      var rest := Within(rows[1..], b);
      (if InBand(rows[0].value, b) then [rows[0]] else []) + rest
  }

  /** The cleaned series. On an empty series every comparison with NaN is
      false, so nothing is kept. */
  function Clean(rows: seq<Row>): (cleaned: seq<Row>)
    ensures rows == [] ==> cleaned == []
    ensures |cleaned| <= |rows|
    ensures rows != [] ==> forall r :: r in cleaned ==>
      r in rows &&
      Quantile(Values(rows), LowerLevel).value <= r.value as real <= Quantile(Values(rows), UpperLevel).value
  {
    match BandOf(rows)
    case None => []
    case Some(b) => Within(rows, b)
  }

  /** The positions, from `from` on, of the rows inside the band, ascending. */
  function BandIndices(rows: seq<Row>, b: Band, from: nat): (idx: seq<int>)
    requires from <= |rows|
    ensures StrictlyAscending(idx)
    ensures forall k :: 0 <= k < |idx| ==> from <= idx[k] < |rows|
    ensures forall i :: from <= i < |rows| ==> (i in idx <==> InBand(rows[i].value, b))
    decreases |rows| - from
  {
    if from == |rows| then []
    else
      var rest := BandIndices(rows, b, from + 1);
      (if InBand(rows[from].value, b) then [from] else []) + rest
  }

  /** The selection is exactly the subsequence of the rows at the in-band
      positions: no in-band row is dropped and none is reordered. */
  lemma {:induction false} WithinIsBandSubsequence(rows: seq<Row>, b: Band, from: nat)
    requires from <= |rows|
    ensures |Within(rows[from..], b)| == |BandIndices(rows, b, from)|
    ensures forall k :: 0 <= k < |BandIndices(rows, b, from)| ==>
      Within(rows[from..], b)[k] == rows[BandIndices(rows, b, from)[k]]
    decreases |rows| - from
  {
    if from < |rows| {
      WithinIsBandSubsequence(rows, b, from + 1);
      assert rows[from..][1..] == rows[from + 1..];
    }
  }

  /** Selecting again with the same band changes nothing. */
  lemma {:induction false} WithinIdempotent(rows: seq<Row>, b: Band)
    ensures Within(Within(rows, b), b) == Within(rows, b)
  {
    if rows != [] {
      WithinIdempotent(rows[1..], b);
      var rest := Within(rows[1..], b);
      if InBand(rows[0].value, b) {
        assert Within(rows, b) == [rows[0]] + rest;
        assert ([rows[0]] + rest)[1..] == rest;
      } else {
        assert Within(rows, b) == rest;
      }
    }
  }

  /** Cleaning keeps a row exactly when its value is inside the band of the
      full series, at its original relative position. */
  lemma {:induction false} CleanIsBandSubsequence(rows: seq<Row>)
    requires rows != []
    ensures var idx := BandIndices(rows, BandOf(rows).value, 0);
      |Clean(rows)| == |idx| && forall k :: 0 <= k < |idx| ==> Clean(rows)[k] == rows[idx[k]]
  {
    WithinIsBandSubsequence(rows, BandOf(rows).value, 0);
    assert rows[0..] == rows;
  }

  /** With the bounds fixed to those of the full series, cleaning the
      cleaned series again returns it unchanged. */
  lemma {:induction false} CleanStableUnderItsBand(rows: seq<Row>)
    requires rows != []
    ensures Within(Clean(rows), BandOf(rows).value) == Clean(rows)
  {
    WithinIdempotent(rows, BandOf(rows).value);
  }

  /** Both comparisons are inclusive: a row whose value equals either
      cut-off is kept. */
  lemma {:induction false} CleanKeepsBoundaryValues(rows: seq<Row>, i: nat)
    requires i < |rows|
    requires rows[i].value as real == Quantile(Values(rows), LowerLevel).value
          || rows[i].value as real == Quantile(Values(rows), UpperLevel).value
    ensures rows[i] in Clean(rows)
  {
    var b := BandOf(rows).value;
    var idx := BandIndices(rows, b, 0);
    CleanIsBandSubsequence(rows);
    assert i in idx;
    var k :| 0 <= k < |idx| && idx[k] == i;
    assert Clean(rows)[k] == rows[i];
  }

  /** A series of three or more rows always keeps at least one row: some
      order statistic lies between the two cut-offs. */
  lemma {:induction false} CleanNonEmptyFromThreeRows(rows: seq<Row>)
    requires |rows| >= 3
    ensures Clean(rows) != []
  {
    var vs := Values(rows);
    var s := Sort(vs);
    var n := |rows|;
    var hLow, hHigh := Position(n, LowerLevel), Position(n, UpperLevel);
    var i := BelowIndex(n, LowerLevel);
    var k := if i as real == hLow then i else i + 1;
    assert hHigh - hLow == 0.95 * (n - 1) as real;
    assert k as real <= BelowIndex(n, UpperLevel) as real;
    QuantileBelowRank(s, LowerLevel, k);
    QuantileAboveRank(s, UpperLevel, k);
    var b := BandOf(rows).value;
    assert InBand(s[k], b);
    assert s[k] in multiset(vs);
    var j :| 0 <= j < n && vs[j] == s[k];
    CleanKeepsBand(rows, j);
  }

  /** Every row whose value is inside the band of the full series is kept. */
  lemma {:induction false} CleanKeepsBand(rows: seq<Row>, i: nat)
    requires i < |rows|
    requires InBand(rows[i].value, BandOf(rows).value)
    ensures rows[i] in Clean(rows)
  {
    var idx := BandIndices(rows, BandOf(rows).value, 0);
    CleanIsBandSubsequence(rows);
    var k :| 0 <= k < |idx| && idx[k] == i;
    assert Clean(rows)[k] == rows[i];
  }

  /** With two rows of different values both cut-offs fall strictly between
      them, so the cleaned series is empty. */
  lemma {:induction false} CleanDropsTwoDistinctRows(r1: Row, r2: Row)
    requires r1.value != r2.value
    ensures Clean([r1, r2]) == []
  {
    var rows := [r1, r2];
    var b := TwoRowBand(r1, r2);
    assert !InBand(r1.value, b) && !InBand(r2.value, b);
    assert rows[1..] == [r2] && [r2][1..] == [];
    assert Within([r2], b) == [];
  }

  /** The band of two rows of different values lies strictly between them. */
  lemma {:induction false} TwoRowBand(r1: Row, r2: Row) returns (b: Band)
    requires r1.value != r2.value
    ensures BandOf([r1, r2]) == Some(b)
    ensures var lo, hi := Min([r1.value, r2.value]), Max([r1.value, r2.value]);
      lo as real < b.low && b.high < hi as real
  {
    var vs := [r1.value, r2.value];
    assert Values([r1, r2]) == vs;
    var s := Sort(vs);
    SortEnds(vs);
    var lo, hi := s[0], s[1];
    assert lo < hi by {
      assert lo <= hi;
      assert lo == r1.value || lo == r2.value;
      assert hi == r1.value || hi == r2.value;
    }
    TwoPointQuantile(s, LowerLevel);
    TwoPointQuantile(s, UpperLevel);
    b := BandOf([r1, r2]).value;
    assert b.low == lo as real + 0.025 * (hi - lo) as real;
    assert b.high == lo as real + 0.975 * (hi - lo) as real;
  }

  /** Over two sorted values a level below 1 interpolates from the first. */
  lemma {:induction false} TwoPointQuantile(s: seq<int>, p: Level)
    requires |s| == 2 && Ascending(s) && p < 1.0
    ensures QuantileOfSorted(s, p) == s[0] as real + p * (s[1] - s[0]) as real
  {
    assert Position(2, p) == p;
    assert BelowIndex(2, p) == 0;
  }

  /** The band must come from the full series: recomputing the percentiles
      on the cleaned series of page counts 1, 2, 3, 4 drops the two rows
      that the first pass kept. */
  lemma {:induction false} RecleaningIsNotIdempotent(d: Date)
    ensures var rows := [Row(d, 1), Row(d, 2), Row(d, 3), Row(d, 4)];
      Clean(rows) == [Row(d, 2), Row(d, 3)] && Clean(Clean(rows)) == []
  {
    var rows := [Row(d, 1), Row(d, 2), Row(d, 3), Row(d, 4)];
    var b := OneToFourBand(rows);
    var t3 := [Row(d, 4)];
    var t2 := [Row(d, 3)] + t3;
    var t1 := [Row(d, 2)] + t2;
    assert rows == [Row(d, 1)] + t1;
    assert t1[1..] == t2 && t2[1..] == t3 && t3[1..] == [];
    assert Within(t3, b) == [];
    assert Within(t2, b) == [Row(d, 3)];
    assert Within(t1, b) == [Row(d, 2), Row(d, 3)];
    assert Within(rows, b) == [Row(d, 2), Row(d, 3)];
    CleanDropsTwoDistinctRows(Row(d, 2), Row(d, 3));
  }

  lemma {:induction false} OneToFourBand(rows: seq<Row>) returns (b: Band)
    requires |rows| == 4
    requires forall i :: 0 <= i < 4 ==> rows[i].value == i + 1
    ensures BandOf(rows) == Some(b) && b == Band(1.075, 3.925)
  {
    var vs := Values(rows);
    assert Ascending(vs);
    SortAscendingUnchanged(vs);
    OneToFourLow(vs);
    OneToFourHigh(vs);
    b := BandOf(rows).value;
  }

  lemma {:induction false} OneToFourLow(s: seq<int>)
    requires |s| == 4 && forall i :: 0 <= i < 4 ==> s[i] == i + 1
    ensures QuantileOfSorted(s, LowerLevel) == 1.075
  {
    assert Position(4, LowerLevel) == 0.075;
    assert BelowIndex(4, LowerLevel) == 0;
  }

  lemma {:induction false} OneToFourHigh(s: seq<int>)
    requires |s| == 4 && forall i :: 0 <= i < 4 ==> s[i] == i + 1
    ensures QuantileOfSorted(s, UpperLevel) == 3.925
  {
    assert Position(4, UpperLevel) == 2.925;
    assert BelowIndex(4, UpperLevel) == 2;
  }
}
