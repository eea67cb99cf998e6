/** The preparations composed as the script runs them: the series is cleaned
    once, and the bar chart's monthly table and the box plots are both built
    from the cleaned series. */
module Pipeline {
  import opened Calendar
  import opened Sorting
  import opened Series
  import opened OutlierFilter
  import opened MonthlyAggregate
  import opened BoxPlot

  /** Every monthly mean of the cleaned series lies within the cleaning band
      of the full series: cleaning bounds the bar heights. */
  lemma {:induction false} MonthlyMeansWithinBand(rows: seq<Row>)
    ensures forall e :: e in MonthlyMeans(Clean(rows)) ==>
      rows != [] && BandOf(rows).value.low <= e.mean <= BandOf(rows).value.high
  {
    var cleaned := Clean(rows);
    var agg := MonthlyMeans(cleaned);
    forall e | e in agg
      ensures rows != [] && BandOf(rows).value.low <= e.mean <= BandOf(rows).value.high
    {
      var i :| 0 <= i < |agg| && agg[i] == e;
      MonthlyMeanIsGroupMean(cleaned, i);
      var vs := GroupValues(cleaned, e.Key());
      GroupValuesFromRows(cleaned, e.Key());
      assert vs[0] in vs;
      assert cleaned != [];
      var b := BandOf(rows).value;
      forall j | 0 <= j < |vs| ensures b.low <= vs[j] as real <= b.high {
        assert vs[j] in vs;
        var r :| r in cleaned && KeyOf(r) == e.Key() && r.value == vs[j];
      }
      MeanWithinBounds(vs, b.low, b.high);
    }
  }

  /** Every row of the box-plot frame carries a page count inside the
      cleaning band. */
  lemma {:induction false} BoxFrameWithinBand(rows: seq<Row>)
    ensures forall br :: br in BoxFrame(Clean(rows)) ==>
      rows != [] && InBand(br.value, BandOf(rows).value)
  {
    var cleaned := Clean(rows);
    var frame := BoxFrame(cleaned);
    forall br | br in frame ensures rows != [] && InBand(br.value, BandOf(rows).value) {
      var i :| 0 <= i < |frame| && frame[i] == br;
      assert cleaned[i] in cleaned;
    }
  }

  /** The bar chart's legend and the month-wise box plot agree, for the
      cleaned series or any other: a month is named in `month_order` exactly
      when its box is not empty. */
  lemma {:induction false} LegendMatchesBoxes(rows: seq<Row>, m: Month)
    ensures MonthName(m) in MonthOrder(MonthlyMeans(rows)) <==>
      Select(MonthKeys(BoxFrame(rows)), Values(rows), MonthAxis[m - 1]) != []
  {
    MonthPresentIffRow(rows, m);
    MonthBoxIsMonth(rows, m);
    SelectNonEmpty(MonthNumbers(rows), Values(rows), m);
    MonthNumberOccurs(rows, m);
  }

  lemma {:induction false} MonthNumberOccurs(rows: seq<Row>, m: Month)
    ensures m in MonthNumbers(rows) <==> exists r :: r in rows && r.date.month == m
  {
    if m in MonthNumbers(rows) {
      var j :| 0 <= j < |rows| && MonthNumbers(rows)[j] == m;
      assert rows[j] in rows;
    }
    if exists r :: r in rows && r.date.month == m {
      var r :| r in rows && r.date.month == m;
      var j :| 0 <= j < |rows| && rows[j] == r;
      assert MonthNumbers(rows)[j] == m;
    }
  }
}
