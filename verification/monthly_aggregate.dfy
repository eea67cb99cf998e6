/** The data preparation of the bar chart: derive (year, month) per row, group
    by that pair, take the arithmetic mean of each group, label each group
    with its full month name, and derive the legend order of the months and
    the year labels of the x axis. */
module MonthlyAggregate {
  import opened Optional
  import opened Calendar
  import opened Sorting
  import opened Series

  /** The grouping key: a calendar month of a particular year. */
  datatype MonthKey = MonthKey(year: int, month: Month)

  function KeyOf(r: Row): MonthKey
  {
    MonthKey(r.date.year, r.date.month)
  }

  /** Lexicographic order on (year, month): the order of the sorted groups. */
  predicate Before(a: MonthKey, b: MonthKey)
  {
    a.year < b.year || (a.year == b.year && a.month < b.month)
  }

  predicate StrictlyOrdered(ks: seq<MonthKey>)
  {
    forall i, j :: 0 <= i < j < |ks| ==> Before(ks[i], ks[j])
  }

  /** The (year, month) pairs that occur in the series. */
  function PresentKeys(rows: seq<Row>): set<MonthKey>
  {
    set r | r in rows :: KeyOf(r)
  }

  /** The page counts of the rows that fall in month `k`, in row order: a
      sub-multiset of the series' value column. */
  function GroupValues(rows: seq<Row>, k: MonthKey): (g: seq<int>)
    ensures |g| <= |rows|
    ensures forall v :: v in g ==> v in Values(rows)
  {
    if rows == [] then []
    else
      assert Values(rows) == [rows[0].value] + Values(rows[1..]);
      (if KeyOf(rows[0]) == k then [rows[0].value] else []) + GroupValues(rows[1..], k)
  }

  /** Arithmetic mean of a non-empty group; it lies between the group's
      smallest and largest value. */
  function Mean(vs: seq<int>): (mean: real)
    requires |vs| > 0
    ensures Min(vs) as real <= mean <= Max(vs) as real
  {
    var lo, hi := Min(vs) as real, Max(vs) as real;
    forall i | 0 <= i < |vs| ensures lo <= vs[i] as real <= hi {
      assert vs[i] in vs;
    }
    SumBounds(vs, lo, hi);
    QuotientBounds(Sum(vs) as real, |vs|, lo, hi);
    Sum(vs) as real / |vs| as real
  }

  /** The mean of a non-empty group lies within any bounds of its values. */
  lemma {:induction false} MeanWithinBounds(vs: seq<int>, lo: real, hi: real)
    requires |vs| > 0
    requires forall i :: 0 <= i < |vs| ==> lo <= vs[i] as real <= hi
    ensures lo <= Mean(vs) <= hi
  {
    SumBounds(vs, lo, hi);
    QuotientBounds(Sum(vs) as real, |vs|, lo, hi);
  }

  /** A total between n*lo and n*hi, divided by n, lies between lo and hi. */
  lemma {:induction false} QuotientBounds(s: real, n: nat, lo: real, hi: real)
    requires n > 0 && Scaled(n, lo) <= s <= Scaled(n, hi)
    ensures lo <= s / n as real <= hi
  {
    ScaledIsProduct(n, lo);
    ScaledIsProduct(n, hi);
    var d := n as real;
    var q := s / d;
    assert s == q * d;
    assert d * (q - lo) == s - d * lo;
    assert d * (hi - q) == d * hi - s;
  }

  /** A group is non-empty exactly when its key occurs in the series. */
  lemma {:induction false} GroupNonEmptyIffPresent(rows: seq<Row>, k: MonthKey)
    ensures |GroupValues(rows, k)| > 0 <==> k in PresentKeys(rows)
  {
    if rows != [] {
      GroupNonEmptyIffPresent(rows[1..], k);
      PresentKeysCons(rows);
    }
  }

  lemma {:induction false} PresentKeysCons(rows: seq<Row>)
    requires rows != []
    ensures PresentKeys(rows) == {KeyOf(rows[0])} + PresentKeys(rows[1..])
  {
    assert rows == [rows[0]] + rows[1..];
    forall k | k in PresentKeys(rows) ensures k in {KeyOf(rows[0])} + PresentKeys(rows[1..]) {
      var r :| r in rows && KeyOf(r) == k;
      assert r == rows[0] || r in rows[1..];
    }
  }

  /** Running totals of one group. */
  datatype Totals = Totals(sum: int, count: nat)

  /** One pass over the rows that adds each page count to the totals of its
      (year, month) group: the totals of each present key are the sum and the
      size of its group, and no absent key has an entry. */
  function Accumulate(rows: seq<Row>): (acc: map<MonthKey, Totals>)
    ensures acc.Keys == PresentKeys(rows)
    ensures forall k :: k in acc ==>
      acc[k].sum == Sum(GroupValues(rows, k)) && acc[k].count == |GroupValues(rows, k)|
  {
    if rows == [] then map[]
    else
      var acc := Accumulate(rows[1..]);
      var k := KeyOf(rows[0]);
      GroupNonEmptyIffPresent(rows[1..], k);
      PresentKeysCons(rows);
      var t := if k in acc then acc[k] else Totals(0, 0);
      var acc' := acc[k := Totals(rows[0].value + t.sum, t.count + 1)];
      forall x | x in acc'
        ensures acc'[x].sum == Sum(GroupValues(rows, x)) && acc'[x].count == |GroupValues(rows, x)|
      {
        GroupValuesCons(rows, x);
      }
      acc'
  }

  lemma {:induction false} GroupValuesCons(rows: seq<Row>, k: MonthKey)
    requires rows != []
    ensures Sum(GroupValues(rows, k)) ==
      (if KeyOf(rows[0]) == k then rows[0].value else 0) + Sum(GroupValues(rows[1..], k))
    ensures |GroupValues(rows, k)| ==
      (if KeyOf(rows[0]) == k then 1 else 0) + |GroupValues(rows[1..], k)|
  {
    var head: seq<int> := if KeyOf(rows[0]) == k then [rows[0].value] else [];
    SumAppend(head, GroupValues(rows[1..], k));
  }

  /** Insert a key into a strictly ordered key list, once. */
  function InsertKey(k: MonthKey, ks: seq<MonthKey>): (r: seq<MonthKey>)
    requires StrictlyOrdered(ks)
    ensures StrictlyOrdered(r)
    ensures forall x :: x in r <==> x == k || x in ks
    ensures r != [] && (r[0] == k || (ks != [] && r[0] == ks[0]))
  {
    if ks == [] || Before(k, ks[0]) then
      OrderedCons(k, ks);
      [k] + ks
    else if k == ks[0] then ks
    else
      var t := InsertKey(k, ks[1..]);
      OrderedCons(ks[0], t);
      assert ks == [ks[0]] + ks[1..];
      [ks[0]] + t
  }

  lemma {:induction false} OrderedCons(k: MonthKey, t: seq<MonthKey>)
    requires StrictlyOrdered(t)
    requires t != [] ==> Before(k, t[0])
    ensures StrictlyOrdered([k] + t)
  {
    var r := [k] + t;
    forall i, j | 0 <= i < j < |r| ensures Before(r[i], r[j]) {
      if i == 0 {
        assert r[j] == t[j - 1];
        assert j - 1 == 0 || Before(t[0], t[j - 1]);
      } else {
        assert r[i] == t[i - 1] && r[j] == t[j - 1];
      }
    }
  }

  /** The group keys in the order `groupby` sorts them: each present
      (year, month) exactly once, lexicographically ascending. */
  function SortedKeys(rows: seq<Row>): (ks: seq<MonthKey>)
    ensures StrictlyOrdered(ks)
    ensures forall k :: k in ks <==> k in PresentKeys(rows)
  {
    if rows == [] then []
    else
      PresentKeysCons(rows);
      InsertKey(KeyOf(rows[0]), SortedKeys(rows[1..]))
  }

  /** One row of the monthly table: the group's year and month, the month's
      full name (the legend label) and the group's mean page count. */
  datatype MonthlyMean = MonthlyMean(year: int, month: Month, monthName: string, mean: real)
  {
    function Key(): MonthKey
    {
      MonthKey(year, month)
    }
  }

  function KeysOf(agg: seq<MonthlyMean>): (ks: seq<MonthKey>)
    ensures |ks| == |agg|
    ensures forall i :: 0 <= i < |agg| ==> ks[i] == agg[i].Key()
  {
    seq(|agg|, i requires 0 <= i < |agg| => agg[i].Key())
  }

  /** `groupby(['year', 'month'])['value'].mean()` followed by the month-name
      column: one entry per (year, month) present, none for absent pairs,
      ordered by (year, month); each entry's label and mean are stated by
      MonthlyMeanIsGroupMean. */
  function MonthlyMeans(rows: seq<Row>): (agg: seq<MonthlyMean>)
    ensures StrictlyOrdered(KeysOf(agg))
    ensures forall k :: k in KeysOf(agg) <==> k in PresentKeys(rows)
  {
    var ks := SortedKeys(rows);
    var acc := Accumulate(rows);
    forall k | k in ks ensures k in acc && acc[k].count > 0 {
      GroupNonEmptyIffPresent(rows, k);
    }
    var agg := Tabulate(ks, acc);
    assert KeysOf(agg) == ks;
    agg
  }

  /** Each entry stands for a non-empty group, carries its month's full
      name, and its value is the arithmetic mean of exactly the page counts
      of its (year, month) group. */
  lemma {:induction false} MonthlyMeanIsGroupMean(rows: seq<Row>, i: nat)
    requires i < |MonthlyMeans(rows)|
    ensures |GroupValues(rows, MonthlyMeans(rows)[i].Key())| > 0
    ensures MonthlyMeans(rows)[i].monthName == MonthName(MonthlyMeans(rows)[i].month)
    ensures MonthlyMeans(rows)[i].mean == Mean(GroupValues(rows, MonthlyMeans(rows)[i].Key()))
  {
    var ks := SortedKeys(rows);
    var acc := Accumulate(rows);
    forall k | k in ks ensures k in acc && acc[k].count > 0 {
      GroupNonEmptyIffPresent(rows, k);
    }
    assert MonthlyMeans(rows) == Tabulate(ks, acc);
    GroupNonEmptyIffPresent(rows, ks[i]);
  }

  /** The `reset_index` table: one entry per key, in key order, with the
      key's month name and the mean of its totals. */
  function Tabulate(ks: seq<MonthKey>, acc: map<MonthKey, Totals>): (agg: seq<MonthlyMean>)
    requires forall k :: k in ks ==> k in acc && acc[k].count > 0
  {
    seq(|ks|, i requires 0 <= i < |ks| =>
      MonthlyMean(ks[i].year, ks[i].month, MonthName(ks[i].month),
                  acc[ks[i]].sum as real / acc[ks[i]].count as real))
  }

  /** The positions, from `from` on, of the rows dated in month `k`. */
  function GroupIndices(rows: seq<Row>, k: MonthKey, from: nat): (idx: seq<int>)
    requires from <= |rows|
    ensures StrictlyAscending(idx)
    ensures forall j :: 0 <= j < |idx| ==> from <= idx[j] < |rows|
    ensures forall i :: from <= i < |rows| ==> (i in idx <==> KeyOf(rows[i]) == k)
    decreases |rows| - from
  {
    if from == |rows| then []
    else
      var rest := GroupIndices(rows, k, from + 1);
      (if KeyOf(rows[from]) == k then [from] else []) + rest
  }

  lemma {:induction false} GroupValuesAtIndices(rows: seq<Row>, k: MonthKey, from: nat)
    requires from <= |rows|
    ensures |GroupValues(rows[from..], k)| == |GroupIndices(rows, k, from)|
    ensures forall j :: 0 <= j < |GroupIndices(rows, k, from)| ==>
      GroupValues(rows[from..], k)[j] == rows[GroupIndices(rows, k, from)[j]].value
    decreases |rows| - from
  {
    if from < |rows| {
      GroupValuesAtIndices(rows, k, from + 1);
      assert rows[from..][1..] == rows[from + 1..];
    }
  }

  /** A group holds exactly the page counts of the rows dated in its month,
      one per row and in row order: every such row contributes, and no other
      row does. */
  lemma {:induction false} GroupIsMonthRows(rows: seq<Row>, k: MonthKey)
    ensures var idx := GroupIndices(rows, k, 0);
      |GroupValues(rows, k)| == |idx| &&
      forall j :: 0 <= j < |idx| ==> GroupValues(rows, k)[j] == rows[idx[j]].value
  {
    GroupValuesAtIndices(rows, k, 0);
    assert rows[0..] == rows;
  }

  /** Every page count in a group comes from a row of that month. */
  lemma {:induction false} GroupValuesFromRows(rows: seq<Row>, k: MonthKey)
    ensures forall v :: v in GroupValues(rows, k) ==>
      exists r :: r in rows && KeyOf(r) == k && r.value == v
  {
    if rows != [] {
      GroupValuesFromRows(rows[1..], k);
      assert rows == [rows[0]] + rows[1..];
    }
  }

  /** A worked instance: three rows of March 2017 with page counts 10, 20
      and 30 give a single monthly entry whose mean is 20. */
  lemma {:induction false} MarchMeanExample(rows: seq<Row>)
    requires |rows| == 3
    requires forall i :: 0 <= i < 3 ==> rows[i].date.year == 2017 && rows[i].date.month == 3
    requires rows[0].value == 10 && rows[1].value == 20 && rows[2].value == 30
    ensures MonthlyMeans(rows) == [MonthlyMean(2017, 3, "March", 20.0)]
  {
    var k := MonthKey(2017, 3);
    MarchKeys(rows, k);
    MarchGroup(rows, k);
    MonthlyMeanIsGroupMean(rows, 0);
    MarchTable(MonthlyMeans(rows), k);
  }

  lemma {:induction false} MarchTable(agg: seq<MonthlyMean>, k: MonthKey)
    requires k == MonthKey(2017, 3) && KeysOf(agg) == [k]
    requires agg[0].monthName == MonthName(agg[0].month) && agg[0].mean == 20.0
    ensures agg == [MonthlyMean(2017, 3, "March", 20.0)]
  {
    assert agg[0].Key() == k;
    assert MonthName(3) == "March";
  }

  lemma {:induction false} MarchKeys(rows: seq<Row>, k: MonthKey)
    requires rows != [] && forall i :: 0 <= i < |rows| ==> KeyOf(rows[i]) == k
    ensures KeysOf(MonthlyMeans(rows)) == [k]
  {
    var ks := KeysOf(MonthlyMeans(rows));
    assert k in PresentKeys(rows) by {
      assert rows[0] in rows;
    }
    forall x | x in PresentKeys(rows) ensures x == k {
      var r :| r in rows && KeyOf(r) == x;
    }
    assert k in ks;
    assert |ks| > 1 ==> ks[0] in ks && ks[1] in ks && Before(ks[0], ks[1]);
  }

  lemma {:induction false} MarchGroup(rows: seq<Row>, k: MonthKey)
    requires |rows| == 3 && forall i :: 0 <= i < 3 ==> KeyOf(rows[i]) == k
    requires rows[0].value == 10 && rows[1].value == 20 && rows[2].value == 30
    ensures GroupValues(rows, k) == [10, 20, 30]
    ensures Mean(GroupValues(rows, k)) == 20.0
  {
    assert GroupValues(rows[2..], k) == [30] by {
      assert rows[2..][1..] == [];
    }
    assert rows[1..][1..] == rows[2..];
    assert GroupValues(rows[1..], k) == [20, 30];
    assert Sum([30]) == 30;
    assert Sum([20, 30]) == 50 by { assert [20, 30][1..] == [30]; }
    assert Sum([10, 20, 30]) == 60 by { assert [10, 20, 30][1..] == [20, 30]; }
  }

  /** The month numbers of the table, in table order. */
  function MonthsOf(agg: seq<MonthlyMean>): (ms: seq<int>)
    ensures |ms| == |agg|
    ensures forall i :: 0 <= i < |agg| ==> ms[i] == agg[i].month
  {
    seq(|agg|, i requires 0 <= i < |agg| => agg[i].month as int)
  }

  /** `sorted(df_monthly['month'].unique())`: each month present exactly
      once, in calendar order. */
  function PresentMonths(agg: seq<MonthlyMean>): (ms: seq<int>)
    ensures StrictlyAscending(ms)
    ensures forall m :: m in ms <==> m in MonthsOf(agg)
    ensures forall i :: 0 <= i < |ms| ==> 1 <= ms[i] <= 12
  {
    var u := Unique(MonthsOf(agg));
    SortDistinctStrict(u);
    SortSameElements(u);
    var ms := Sort(u);
    forall i | 0 <= i < |ms| ensures 1 <= ms[i] <= 12 {
      assert ms[i] in MonthsOf(agg);
    }
    ms
  }

  /** `month_order`: the legend's month labels, the full names of the months
      present in the table, each once and in calendar order. */
  function MonthOrder(agg: seq<MonthlyMean>): (names: seq<string>)
    ensures Distinct(names)
    ensures forall i :: 0 <= i < |names| ==> MonthNumber(names[i]).Some?
    ensures forall i, j :: 0 <= i < j < |names| ==>
      MonthNumber(names[i]).value < MonthNumber(names[j]).value
    ensures forall m: Month :: MonthName(m) in names <==> m in MonthsOf(agg)
  {
    var ms := PresentMonths(agg);
    var names := seq(|ms|, i requires 0 <= i < |ms| => MonthName(ms[i] as Month));
    NamedMonths(ms, names, MonthsOf(agg));
    names
  }

  /** The names of strictly ascending month numbers are distinct, in calendar
      order, and name exactly those months. */
  lemma {:induction false} NamedMonths(ms: seq<int>, names: seq<string>, months: seq<int>)
    requires StrictlyAscending(ms)
    requires forall m :: m in ms <==> m in months
    requires |names| == |ms|
    requires forall i :: 0 <= i < |ms| ==> 1 <= ms[i] <= 12 && names[i] == MonthName(ms[i] as Month)
    ensures Distinct(names)
    ensures forall i :: 0 <= i < |names| ==> MonthNumber(names[i]).Some?
    ensures forall i, j :: 0 <= i < j < |names| ==>
      MonthNumber(names[i]).value < MonthNumber(names[j]).value
    ensures forall m: Month :: MonthName(m) in names <==> m in months
  {
    forall i | 0 <= i < |names| ensures MonthNumber(names[i]) == Some(ms[i] as Month) {
      assert names[i] == MonthName(ms[i] as Month);
    }
    forall m: Month ensures MonthName(m) in names <==> m in months {
      if MonthName(m) in names {
        var i :| 0 <= i < |names| && names[i] == MonthName(m);
        MonthNameInjective(m, ms[i] as Month);
        assert ms[i] in ms;
      }
      if m in months {
        var i :| 0 <= i < |ms| && ms[i] == m;
        assert names[i] in names;
      }
    }
  }

  /** Every label of the monthly table is one of the legend's categories, so
      the categorical month column has no missing value. */
  lemma {:induction false} MonthOrderCoversLabels(rows: seq<Row>, i: nat)
    requires i < |MonthlyMeans(rows)|
    ensures MonthlyMeans(rows)[i].monthName in MonthOrder(MonthlyMeans(rows))
  {
    var agg := MonthlyMeans(rows);
    MonthlyMeanIsGroupMean(rows, i);
    LabelInLegend(agg, i);
  }

  lemma {:induction false} LabelInLegend(agg: seq<MonthlyMean>, i: nat)
    requires i < |agg| && agg[i].monthName == MonthName(agg[i].month)
    ensures agg[i].monthName in MonthOrder(agg)
  {
    assert MonthsOf(agg)[i] == agg[i].month;
  }

  /** A month is in the table exactly when some row of the series falls in
      it. */
  lemma {:induction false} MonthPresentIffRow(rows: seq<Row>, m: Month)
    ensures m in MonthsOf(MonthlyMeans(rows)) <==> exists r :: r in rows && r.date.month == m
  {
    MonthOfKeys(rows, MonthlyMeans(rows), m);
  }

  lemma {:induction false} MonthOfKeys(rows: seq<Row>, agg: seq<MonthlyMean>, m: Month)
    requires forall k :: k in KeysOf(agg) <==> k in PresentKeys(rows)
    ensures m in MonthsOf(agg) <==> exists r :: r in rows && r.date.month == m
  {
    var ks := KeysOf(agg);
    if m in MonthsOf(agg) {
      var i :| 0 <= i < |agg| && MonthsOf(agg)[i] == m;
      assert ks[i] in ks;
      var r :| r in rows && KeyOf(r) == ks[i];
      assert r.date.month == m;
    }
    if exists r :: r in rows && r.date.month == m {
      var r :| r in rows && r.date.month == m;
      assert KeyOf(r) in PresentKeys(rows);
      var i :| 0 <= i < |ks| && ks[i] == KeyOf(r);
      assert MonthsOf(agg)[i] == m;
    }
  }

  /** Months 1, 3 and 12 give the legend January, March, December. */
  lemma {:induction false} MonthOrderExample(agg: seq<MonthlyMean>)
    requires forall m :: m in MonthsOf(agg) <==> m in [1, 3, 12]
    ensures MonthOrder(agg) == ["January", "March", "December"]
  {
    StrictlyAscendingDetermined(PresentMonths(agg), [1, 3, 12]);
    JanMarDecNames(MonthOrder(agg), PresentMonths(agg));
  }

  lemma {:induction false} JanMarDecNames(names: seq<string>, ms: seq<int>)
    requires ms == [1, 3, 12] && |names| == 3
    requires forall i :: 0 <= i < 3 ==> 1 <= ms[i] <= 12 && names[i] == MonthName(ms[i] as Month)
    ensures names == ["January", "March", "December"]
  {
    assert names[0] == MonthName(1);
    assert names[1] == MonthName(3);
    assert names[2] == MonthName(12);
  }

  /** The year column of the table, in table order. */
  function YearsOf(agg: seq<MonthlyMean>): (ys: seq<int>)
    ensures |ys| == |agg|
    ensures forall i :: 0 <= i < |agg| ==> ys[i] == agg[i].year
  {
    seq(|agg|, i requires 0 <= i < |agg| => agg[i].year)
  }

  /** `df_monthly['year'].unique()`: the x tick labels, first occurrences in
      table order; tick position i carries label i. */
  function YearLabels(agg: seq<MonthlyMean>): (ys: seq<int>)
    ensures Distinct(ys)
    ensures forall y :: y in ys <==> y in YearsOf(agg)
  {
    Unique(YearsOf(agg))
  }

  /** Because the groups come out sorted by (year, month), the tick labels
      are in strictly ascending order, the order in which the bars' year
      categories are laid out. */
  lemma {:induction false} YearLabelsAscending(rows: seq<Row>)
    ensures StrictlyAscending(YearLabels(MonthlyMeans(rows)))
  {
    var agg := MonthlyMeans(rows);
    var ys := YearsOf(agg);
    var ks := KeysOf(agg);
    forall i, j | 0 <= i < j < |ys| ensures ys[i] <= ys[j] {
      assert Before(ks[i], ks[j]);
    }
    UniqueOfAscending(ys);
  }

  /** The tick labels are exactly the years that occur in the series. */
  lemma {:induction false} YearLabelsArePresentYears(rows: seq<Row>, y: int)
    ensures y in YearLabels(MonthlyMeans(rows)) <==> exists r :: r in rows && r.date.year == y
  {
    YearOfKeys(rows, MonthlyMeans(rows), y);
  }

  lemma {:induction false} YearOfKeys(rows: seq<Row>, agg: seq<MonthlyMean>, y: int)
    requires forall k :: k in KeysOf(agg) <==> k in PresentKeys(rows)
    ensures y in YearsOf(agg) <==> exists r :: r in rows && r.date.year == y
  {
    var ys := YearsOf(agg);
    var ks := KeysOf(agg);
    if y in ys {
      var i :| 0 <= i < |agg| && ys[i] == y;
      assert ks[i] in ks;
      var r :| r in rows && KeyOf(r) == ks[i];
      assert r.date.year == y;
    }
    if exists r :: r in rows && r.date.year == y {
      var r :| r in rows && r.date.year == y;
      assert KeyOf(r) in PresentKeys(rows);
      var i :| 0 <= i < |ks| && ks[i] == KeyOf(r);
      assert ys[i] == y;
    }
  }
}
