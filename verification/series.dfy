/** The page-view series after loading: one row per day, its date already
    parsed into year, month and day, and its page count. */
module Series {
  import opened Calendar

  datatype Date = Date(year: int, month: Month, day: int)

  datatype Row = Row(date: Date, value: int)

  /** The value column of a series, in row order. */
  function Values(rows: seq<Row>): (vs: seq<int>)
    ensures |vs| == |rows|
    ensures forall i :: 0 <= i < |rows| ==> vs[i] == rows[i].value
  {
    seq(|rows|, i requires 0 <= i < |rows| => rows[i].value)
  }
}
