/** The data preparation of the two box plots. Each row of the cleaned series
    gets two category columns, its year and its month's three-letter
    abbreviation. The month-wise plot lays its boxes out along a fixed
    January-to-December axis whatever months the data covers; the year-wise
    plot lays them out along the distinct years in ascending order. A box
    holds the page counts of the rows whose key is its category, in row
    order. */
module BoxPlot {
  import opened Calendar
  import opened Sorting
  import opened Series

  /** A row of the box-plot frame: the copied date and page count plus the
      two category columns. */
  datatype BoxRow = BoxRow(date: Date, value: int, year: int, month: string)

  /** The category order of the month-wise plot. */
  const MonthAxis: seq<string> := [
    "Jan", "Feb", "Mar", "Apr", "May", "Jun",
    "Jul", "Aug", "Sep", "Oct", "Nov", "Dec"]

  /** The fixed axis has twelve distinct categories, and its i-th category is
      the `%b` abbreviation of month i+1, so the labels the rows carry and the
      labels the axis expects are the same strings. */
  lemma {:induction false} MonthAxisIsAbbrevs()
    ensures |MonthAxis| == 12
    ensures Distinct(MonthAxis)
    ensures forall m: Month :: MonthAxis[m - 1] == MonthAbbrev(m)
  {
    forall m: Month ensures MonthAxis[m - 1] == MonthAbbrev(m) {
      AxisCategory(m);
    }
  }

  lemma {:induction false} AxisCategory(m: Month)
    ensures MonthAxis[m - 1] == MonthAbbrev(m)
  {
    match m
    case 1 => case 2 => case 3 => case 4 => case 5 => case 6 =>
    case 7 => case 8 => case 9 => case 10 => case 11 => case 12 =>
  }

  /** The frame built from a copy of the series: every row keeps its date
      and page count, its year column is the date's year and its month
      column is the axis category of the date's month. */
  function BoxFrame(rows: seq<Row>): (frame: seq<BoxRow>)
    ensures |frame| == |rows|
    ensures forall i :: 0 <= i < |rows| ==>
      frame[i].date == rows[i].date && frame[i].value == rows[i].value &&
      frame[i].year == rows[i].date.year &&
      frame[i].month == MonthAxis[rows[i].date.month - 1]
  {
    MonthAxisIsAbbrevs();
    seq(|rows|, i requires 0 <= i < |rows| =>
      BoxRow(rows[i].date, rows[i].value, rows[i].date.year, MonthAbbrev(rows[i].date.month)))
  }

  function MonthKeys(frame: seq<BoxRow>): (ks: seq<string>)
    ensures |ks| == |frame|
    ensures forall i :: 0 <= i < |frame| ==> ks[i] == frame[i].month
  {
    seq(|frame|, i requires 0 <= i < |frame| => frame[i].month)
  }

  function YearKeys(frame: seq<BoxRow>): (ks: seq<int>)
    ensures |ks| == |frame|
    ensures forall i :: 0 <= i < |frame| ==> ks[i] == frame[i].year
  {
    seq(|frame|, i requires 0 <= i < |frame| => frame[i].year)
  }

  /** The month numbers of a series, in row order. */
  function MonthNumbers(rows: seq<Row>): (ms: seq<Month>)
    ensures |ms| == |rows|
    ensures forall i :: 0 <= i < |rows| ==> ms[i] == rows[i].date.month
  {
    seq(|rows|, i requires 0 <= i < |rows| => rows[i].date.month)
  }

  /** The data of one box: the values whose key is `c`, in row order. A box
      has at most one value per row, each drawn from the value column. */
  function Select<K(==)>(keys: seq<K>, values: seq<int>, c: K): (box: seq<int>)
    requires |keys| == |values|
    ensures |box| <= |keys|
    ensures forall v :: v in box ==> v in values
  {
    if keys == [] then []
    else
      assert values == [values[0]] + values[1..];
      (if keys[0] == c then [values[0]] else []) + Select(keys[1..], values[1..], c)
  }

  /** The positions, from `from` on, whose key is `c`. */
  function Positions<K(==)>(keys: seq<K>, c: K, from: nat): (idx: seq<int>)
    requires from <= |keys|
    ensures StrictlyAscending(idx)
    ensures forall j :: 0 <= j < |idx| ==> from <= idx[j] < |keys|
    ensures forall i :: from <= i < |keys| ==> (i in idx <==> keys[i] == c)
    decreases |keys| - from
  {
    if from == |keys| then []
    else
      var rest := Positions(keys, c, from + 1);
      (if keys[from] == c then [from] else []) + rest
  }

  lemma {:induction false} SelectAtPositions<K>(keys: seq<K>, values: seq<int>, c: K, from: nat)
    requires |keys| == |values| && from <= |keys|
    ensures |Select(keys[from..], values[from..], c)| == |Positions(keys, c, from)|
    ensures forall j :: 0 <= j < |Positions(keys, c, from)| ==>
      Select(keys[from..], values[from..], c)[j] == values[Positions(keys, c, from)[j]]
    decreases |keys| - from
  {
    if from < |keys| {
      SelectAtPositions(keys, values, c, from + 1);
      assert keys[from..][1..] == keys[from + 1..];
      assert values[from..][1..] == values[from + 1..];
    }
  }

  /** Box `c` holds exactly the values of the rows keyed `c`, one per row and
      in row order: every such row contributes, and no other row does. */
  lemma {:induction false} SelectIsKeyedValues<K>(keys: seq<K>, values: seq<int>, c: K)
    requires |keys| == |values|
    ensures var idx := Positions(keys, c, 0);
      |Select(keys, values, c)| == |idx| &&
      forall j :: 0 <= j < |idx| ==> Select(keys, values, c)[j] == values[idx[j]]
  {
    SelectAtPositions(keys, values, c, 0);
    assert keys[0..] == keys && values[0..] == values;
  }

  /** A box holds data exactly when its category occurs among the keys. */
  lemma {:induction false} SelectNonEmpty<K>(keys: seq<K>, values: seq<int>, c: K)
    requires |keys| == |values|
    ensures Select(keys, values, c) != [] <==> c in keys
  {
    if keys != [] {
      SelectNonEmpty(keys[1..], values[1..], c);
      assert keys == [keys[0]] + keys[1..];
    }
  }

  /** The boxes of an axis laid end to end, in axis order; every value shown
      is a value of the column. */
  function Gather<K(==)>(keys: seq<K>, values: seq<int>, axis: seq<K>): (boxes: seq<int>)
    requires |keys| == |values|
    ensures forall v :: v in boxes ==> v in values
  {
    if axis == [] then []
    else
      Select(keys, values, axis[0]) + Gather(keys, values, axis[1..])
  }

  /** The year-wise axis: each year of the frame once, ascending. */
  function YearAxis(frame: seq<BoxRow>): (ys: seq<int>)
    ensures StrictlyAscending(ys)
    ensures forall y :: y in ys <==> y in YearKeys(frame)
  {
    var u := Unique(YearKeys(frame));
    SortDistinctStrict(u);
    SortSameElements(u);
    Sort(u)
  }

  /** Relabelling: two key columns that pick out the same rows select the
      same values. */
  lemma {:induction false} SelectRelabel<K, L>(
    keys: seq<K>, labels: seq<L>, values: seq<int>, c: K, d: L)
    requires |keys| == |labels| == |values|
    requires forall i :: 0 <= i < |keys| ==> (keys[i] == c <==> labels[i] == d)
    ensures Select(keys, values, c) == Select(labels, values, d)
  {
    if keys != [] {
      SelectRelabel(keys[1..], labels[1..], values[1..], c, d);
    }
  }

  /** With no rows every box is empty. */
  lemma {:induction false} GatherOfNothing<K>(keys: seq<K>, values: seq<int>, axis: seq<K>)
    requires keys == [] && values == []
    ensures Gather(keys, values, axis) == []
  {
    if axis != [] {
      GatherOfNothing(keys, values, axis[1..]);
    }
  }

  /** The first row lands in exactly one box of an axis without repeated
      categories, the box of its own key, or in none if its key is not on the
      axis. */
  lemma {:induction false} GatherCons<K>(keys: seq<K>, values: seq<int>, axis: seq<K>)
    requires |keys| == |values| && keys != [] && Distinct(axis)
    ensures multiset(Gather(keys, values, axis)) ==
      multiset(Gather(keys[1..], values[1..], axis)) +
      (if keys[0] in axis then multiset{values[0]} else multiset{})
  {
    if axis != [] {
      var k, v := keys[0], values[0];
      var ks, vs := keys[1..], values[1..];
      var c, rest := axis[0], axis[1..];
      DistinctHead(axis);
      GatherCons(keys, values, rest);
      var head: seq<int> := if k == c then [v] else [];
      var s, g := Select(ks, vs, c), Gather(keys, values, rest);
      var g' := Gather(ks, vs, rest);
      var here: multiset<int> := if k in rest then multiset{v} else multiset{};
      var whole: multiset<int> := if k in axis then multiset{v} else multiset{};
      assert Gather(keys, values, axis) == head + s + g;
      assert Gather(ks, vs, axis) == s + g';
      assert multiset(head) + here == whole;
      Regroup(head, s, g, g', here, whole);
    } else {
      assert Gather(keys, values, axis) == [] && Gather(keys[1..], values[1..], axis) == [];
      assert keys[0] !in axis;
    }
  }

  /** The first category of an axis without repeats does not occur again. */
  lemma {:induction false} DistinctHead<K>(axis: seq<K>)
    requires axis != [] && Distinct(axis)
    ensures Distinct(axis[1..]) && axis[0] !in axis[1..]
    ensures forall x :: x in axis <==> x == axis[0] || x in axis[1..]
  {
    var rest := axis[1..];
    forall i, j | 0 <= i < j < |rest| ensures rest[i] != rest[j] {
      assert rest[i] == axis[i + 1] && rest[j] == axis[j + 1];
    }
    forall j | 0 <= j < |rest| ensures axis[0] != rest[j] {
      assert rest[j] == axis[j + 1];
    }
    assert axis == [axis[0]] + rest;
  }

  lemma {:induction false} Regroup(head: seq<int>, s: seq<int>, g: seq<int>, g': seq<int>,
                                   here: multiset<int>, whole: multiset<int>)
    requires multiset(g) == multiset(g') + here
    requires multiset(head) + here == whole
    ensures multiset(head + s + g) == multiset(s + g') + whole
  {
  }

  /** Every value lands in exactly one box when the axis has no repeated
      category and holds every key: laid end to end, the boxes are a
      permutation of the value column, so no row is lost or counted twice. */
  lemma {:induction false} GatherPermutation<K>(keys: seq<K>, values: seq<int>, axis: seq<K>)
    requires |keys| == |values| && Distinct(axis)
    requires forall k :: k in keys ==> k in axis
    ensures multiset(Gather(keys, values, axis)) == multiset(values)
  {
    if keys == [] {
      GatherOfNothing(keys, values, axis);
    } else {
      var ks, vs := keys[1..], values[1..];
      assert forall k :: k in ks ==> k in keys by {
        assert keys == [keys[0]] + ks;
      }
      GatherPermutation(ks, vs, axis);
      GatherStep(keys, values, axis);
    }
  }

  /** One step of the permutation argument: the first value joins the
      boxes of the remaining rows. */
  lemma {:induction false} GatherStep<K>(keys: seq<K>, values: seq<int>, axis: seq<K>)
    requires |keys| == |values| && keys != [] && Distinct(axis) && keys[0] in axis
    requires multiset(Gather(keys[1..], values[1..], axis)) == multiset(values[1..])
    ensures multiset(Gather(keys, values, axis)) == multiset(values)
  {
    GatherCons(keys, values, axis);
    PrependCount(Gather(keys, values, axis), Gather(keys[1..], values[1..], axis), values);
  }

  lemma {:induction false} PrependCount(g: seq<int>, g': seq<int>, values: seq<int>)
    requires values != []
    requires multiset(g) == multiset(g') + multiset{values[0]}
    requires multiset(g') == multiset(values[1..])
    ensures multiset(g) == multiset(values)
  {
    assert values == [values[0]] + values[1..];
  }

  /** The month-wise plot: every page count of the series lands in exactly
      one of the twelve fixed boxes. */
  lemma {:induction false} MonthBoxesPartition(rows: seq<Row>)
    ensures multiset(Gather(MonthKeys(BoxFrame(rows)), Values(rows), MonthAxis)) ==
      multiset(Values(rows))
  {
    var frame := BoxFrame(rows);
    var keys := MonthKeys(frame);
    MonthAxisIsAbbrevs();
    forall k | k in keys ensures k in MonthAxis {
      var i :| 0 <= i < |keys| && keys[i] == k;
      assert MonthAxis[rows[i].date.month - 1] in MonthAxis;
    }
    GatherPermutation(keys, Values(rows), MonthAxis);
  }

  /** The box under the abbreviation of month m holds exactly the page
      counts of the rows dated in month m, in row order. */
  lemma {:induction false} MonthBoxIsMonth(rows: seq<Row>, m: Month)
    ensures Select(MonthKeys(BoxFrame(rows)), Values(rows), MonthAxis[m - 1]) ==
      Select(MonthNumbers(rows), Values(rows), m)
  {
    var frame := BoxFrame(rows);
    MonthAxisIsAbbrevs();
    forall i | 0 <= i < |rows|
      ensures MonthKeys(frame)[i] == MonthAxis[m - 1] <==> MonthNumbers(rows)[i] == m
    {
      MonthAbbrevInjective(rows[i].date.month, m);
    }
    SelectRelabel(MonthKeys(frame), MonthNumbers(rows), Values(rows), MonthAxis[m - 1], m);
  }

  /** The year-wise plot: every page count lands in exactly one year box. */
  lemma {:induction false} YearBoxesPartition(rows: seq<Row>)
    ensures multiset(Gather(YearKeys(BoxFrame(rows)), Values(rows),
                            YearAxis(BoxFrame(rows)))) == multiset(Values(rows))
  {
    var frame := BoxFrame(rows);
    var axis := YearAxis(frame);
    assert Distinct(axis);
    GatherPermutation(YearKeys(frame), Values(rows), axis);
  }
}
