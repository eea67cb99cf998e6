# Page-view series preparation, modelled in Dafny

`time_series_visualizer.py` loads a daily page-view series of the
freeCodeCamp forum. It removes outliers and then prepares the data for three
charts. This project models that data preparation as pure functions over a
sequence of already-parsed rows (`Series.Row`: a date of year, month 1..12
and day, plus an integer page count) and proves its properties.

- **Outlier filter** (`OutlierFilter`, `Percentile`). The 2.5th and 97.5th
  percentiles are computed once over the full value column with pandas'
  default estimator: linear interpolation between order statistics, position
  `p*(n-1)`, next index clipped to the last. Exact `real` arithmetic is used.
  The rows inside the closed band are kept, in their original order.
- **Monthly table of the bar chart** (`MonthlyAggregate`).
  - Rows are grouped by (year, month) in `groupby`'s sorted key order.
  - Each group gets its arithmetic mean and its full month name.
  - The legend order `month_order` is the distinct months present, ascending,
    mapped to names.
  - The x tick labels are the distinct years of the table.
- **Box-plot frame** (`BoxPlot`).
  - Every row gets its year and its `%b` month abbreviation.
  - The month-wise plot uses the fixed axis Jan..Dec.
  - The year-wise plot uses the distinct years in ascending order.
  - A box holds the page counts whose key is its category.
- **Composition** (`Pipeline`). Both charts read the cleaned series: every
  monthly mean lies inside the cleaning band, and the legend names exactly
  the months whose box is non-empty.
- **Shared helpers.** `Calendar` holds the month-name tables, `Sorting` holds
  the sort, min/max, sum and order-preserving `unique` helpers, and `Optional`
  holds the option type.

On an empty series pandas' `quantile` is NaN, every comparison with NaN is
false, and nothing is kept; nothing is raised. In the model `BandOf([])` is
`None` and `Clean([])` is `[]`.

## Model

| member | source | states |
|---|---|---|
| Percentile.QuantileOfSorted | time_series_visualizer.py:14-15 | the interpolated quantile of an ascending column lies between the order statistics at floor(p*(n-1)) and the next (clipped) rank |
| Percentile.Quantile | time_series_visualizer.py:14-15 | `quantile(p)` has no value (NaN) exactly for an empty column; otherwise it lies between the column's minimum and maximum |
| Percentile.QuantileAboveRank | time_series_visualizer.py:14-15 | every order statistic at a rank not above the position p*(n-1) is a lower bound of the quantile |
| Percentile.QuantileBelowRank | time_series_visualizer.py:14-15 | every order statistic at a rank not below the position is an upper bound of the quantile |
| Percentile.QuantileAtRank | time_series_visualizer.py:14-15 | at a whole-number position the quantile is exactly that order statistic (level 0 the minimum, level 1 the maximum) |
| Percentile.QuantileMonotone | time_series_visualizer.py:14-15 | a higher level never gives a lower quantile, so the 2.5th percentile never exceeds the 97.5th |
| OutlierFilter.BandOf | time_series_visualizer.py:13-15 | the band [q_low, q_high] exists exactly for a non-empty series, is non-empty, and lies within the column's minimum and maximum |
| OutlierFilter.Within | time_series_visualizer.py:13-15 | the boolean mask keeps no more rows than it is given, and every kept row is an input row inside the band |
| OutlierFilter.Clean | time_series_visualizer.py:13-15 | an empty series cleans to empty; every kept row is an input row with q_low <= value <= q_high, both cut-offs taken over the full series |
| OutlierFilter.BandIndices | time_series_visualizer.py:13-15 | the mask positions: strictly ascending, in range, and a position is listed exactly when its row is inside the band |
| OutlierFilter.WithinIsBandSubsequence | time_series_visualizer.py:13-15 | the selection is exactly the rows at the in-band positions, in original order: no in-band row is dropped and none is reordered |
| OutlierFilter.CleanIsBandSubsequence | time_series_visualizer.py:13-15 | the cleaned series is exactly the subsequence of the input at the positions whose value is inside the full series' band |
| OutlierFilter.WithinIdempotent | time_series_visualizer.py:13-15 | filtering again with the same fixed band changes nothing |
| OutlierFilter.CleanStableUnderItsBand | time_series_visualizer.py:13-15 | re-applying the full series' band to the cleaned series returns it unchanged |
| OutlierFilter.CleanKeepsBand | time_series_visualizer.py:13-15 | every row whose value is inside the band is kept |
| OutlierFilter.CleanKeepsBoundaryValues | time_series_visualizer.py:14-15 | both comparisons are inclusive: a row whose value equals either cut-off is kept |
| OutlierFilter.CleanNonEmptyFromThreeRows | time_series_visualizer.py:13-15 | a series of three or more rows always keeps at least one row |
| OutlierFilter.TwoRowBand | time_series_visualizer.py:14-15 | for two rows of different values both cut-offs fall strictly between the two values |
| OutlierFilter.CleanDropsTwoDistinctRows | time_series_visualizer.py:13-15 | two rows of different values clean to the empty series |
| OutlierFilter.RecleaningIsNotIdempotent | time_series_visualizer.py:13-15 | the cut-offs must come from the full series: for page counts 1, 2, 3, 4 cleaning keeps 2 and 3, and cleaning that again with recomputed cut-offs keeps nothing |
| OutlierFilter.OneToFourBand | time_series_visualizer.py:14-15 | page counts 1, 2, 3, 4 give the band [1.075, 3.925] |
| MonthlyAggregate.GroupValues | time_series_visualizer.py:39 | a group holds at most one page count per row, each taken from the series' value column |
| MonthlyAggregate.GroupIndices | time_series_visualizer.py:39 | the positions of the rows dated in a (year, month): strictly ascending, in range, and a position is listed exactly when its row falls in that month |
| MonthlyAggregate.GroupIsMonthRows | time_series_visualizer.py:39 | a group is exactly the page counts at those positions, in row order: every row of the month contributes once and no other row does |
| MonthlyAggregate.Mean | time_series_visualizer.py:39 | the mean of a non-empty group lies between the group's smallest and largest page count |
| MonthlyAggregate.MeanWithinBounds | time_series_visualizer.py:39 | the mean of a non-empty group lies within any bounds of its values |
| MonthlyAggregate.GroupNonEmptyIffPresent | time_series_visualizer.py:37-39 | a (year, month) group is non-empty exactly when some row falls in that month |
| MonthlyAggregate.Accumulate | time_series_visualizer.py:39 | the per-group totals have an entry exactly for each present (year, month), holding the sum and the size of that group |
| MonthlyAggregate.SortedKeys | time_series_visualizer.py:39-40 | the group keys come out once each, in strictly ascending (year, month) order, and are exactly the present pairs |
| MonthlyAggregate.MonthlyMeans | time_series_visualizer.py:37-40 | the monthly table has one entry per (year, month) present in the series and none for an absent pair, sorted by (year, month) |
| MonthlyAggregate.MonthlyMeanIsGroupMean | time_series_visualizer.py:39-43 | each entry stands for a non-empty group, carries its month's full name, and its value is the arithmetic mean of exactly that group's page counts |
| MonthlyAggregate.GroupValuesFromRows | time_series_visualizer.py:39 | every page count in a group comes from a row dated in that (year, month) |
| MonthlyAggregate.MarchMeanExample | time_series_visualizer.py:39-43 | three rows of March 2017 with 10, 20 and 30 page views give the single entry (2017, 3, "March", 20) |
| MonthlyAggregate.PresentMonths | time_series_visualizer.py:47 | `sorted(unique(month))`: strictly ascending, holding exactly the months of the table, each in 1..12 |
| MonthlyAggregate.MonthOrder | time_series_visualizer.py:47-48 | the legend names exactly the months of the table, each once, in strictly increasing month number |
| MonthlyAggregate.MonthOrderCoversLabels | time_series_visualizer.py:43-48 | every entry's month label is one of the legend's categories, so the categorical column has no missing value |
| MonthlyAggregate.MonthPresentIffRow | time_series_visualizer.py:37-47 | a month is in the table exactly when some row of the series falls in it |
| MonthlyAggregate.MonthOrderExample | time_series_visualizer.py:47 | months 1, 3 and 12 give the legend January, March, December |
| MonthlyAggregate.YearLabels | time_series_visualizer.py:69 | `unique(year)`: no duplicates, and exactly the years of the table |
| MonthlyAggregate.YearLabelsAscending | time_series_visualizer.py:69-76 | because the groups are sorted, the tick labels are strictly ascending |
| MonthlyAggregate.YearLabelsArePresentYears | time_series_visualizer.py:69 | a year is a tick label exactly when some row of the series falls in it |
| Calendar.MonthName | time_series_visualizer.py:43 | the `%B` name of month m reads back as m, so the table is invertible |
| Calendar.MonthNumberRoundTrip | time_series_visualizer.py:43 | every string that parses as a full month name is printed back unchanged by the `%B` table |
| Calendar.MonthNameInjective | time_series_visualizer.py:43 | distinct months have distinct full names |
| Calendar.MonthAbbrev | time_series_visualizer.py:92 | each `%b` abbreviation has three letters and is the start of the `%B` name |
| Calendar.MonthAbbrevInjective | time_series_visualizer.py:92 | distinct months have distinct abbreviations |
| BoxPlot.MonthAxisIsAbbrevs | time_series_visualizer.py:121 | the fixed month axis has twelve distinct categories, the i-th being the `%b` of month i+1 |
| BoxPlot.BoxFrame | time_series_visualizer.py:89-92 | the frame keeps every row's date and page count, its year column is the date's year and its month key is the axis category of the date's month |
| BoxPlot.YearAxis | time_series_visualizer.py:100-104 | the year categories are strictly ascending and are exactly the years of the frame |
| BoxPlot.Select | time_series_visualizer.py:113-121 | a box holds at most one value per row, each taken from the value column |
| BoxPlot.Positions | time_series_visualizer.py:113-121 | the positions whose key is a category: strictly ascending, in range, and a position is listed exactly when its key is that category |
| BoxPlot.SelectIsKeyedValues | time_series_visualizer.py:113-121 | box `c` is exactly the values at the positions keyed `c`, in row order: every such row contributes once and no other row does |
| BoxPlot.SelectNonEmpty | time_series_visualizer.py:113-121 | a box holds data exactly when its category occurs among the keys |
| BoxPlot.Gather | time_series_visualizer.py:113-121 | every value shown in the boxes of an axis is a value of the column |
| BoxPlot.SelectRelabel | time_series_visualizer.py:92 | two key columns that pick out the same rows give the same box |
| BoxPlot.GatherPermutation | time_series_visualizer.py:113-121 | with distinct categories covering every key, the boxes together are a permutation of the value column |
| BoxPlot.MonthBoxesPartition | time_series_visualizer.py:113-121 | every page count lands in exactly one of the twelve fixed month boxes |
| BoxPlot.MonthBoxIsMonth | time_series_visualizer.py:113-121 | the box under month m's abbreviation holds exactly the page counts of the rows dated in month m, in row order |
| BoxPlot.YearBoxesPartition | time_series_visualizer.py:100-104 | every page count lands in exactly one year box |
| Pipeline.MonthlyMeansWithinBand | time_series_visualizer.py:35-39 | every monthly mean of the cleaned series lies inside the cleaning band of the full series |
| Pipeline.BoxFrameWithinBand | time_series_visualizer.py:89-92 | every row of the box-plot frame has a page count inside the cleaning band |
| Pipeline.LegendMatchesBoxes | time_series_visualizer.py:47-48 | a month is named in the bar legend exactly when its month-wise box is non-empty |
| Sorting.Sort | time_series_visualizer.py:14-15 | the order statistics: ascending, the same multiset of values and the same length |
| Sorting.Unique | time_series_visualizer.py:69 | `unique()`: no duplicates, exactly the elements of its input, and kept in the order of their first appearance |
| Sorting.SortEnds | time_series_visualizer.py:14-15 | the first order statistic is the minimum and the last the maximum |

## Left out

- Reading the CSV and parsing dates (line 9) are I/O. The model starts from
  already-parsed rows.
- All drawing is rendering inside matplotlib and seaborn: figures, axes,
  grid, colours, titles, labels, legend and tick placement, `tight_layout`,
  `savefig` (lines 21-30, 50-66, 73-82, 95-131). `register_matplotlib_converters`
  (lines 5-6) configures that rendering and is also left out.
- The line plot (lines 18-30) only copies the cleaned frame and draws it, so
  no data preparation of its own is modelled.
- The box statistics (quartiles, whiskers, outlier points) are computed
  inside `sns.boxplot`. The model stops at the data of each box.
- `BoxPlot.YearAxis` follows seaborn's rule of ordering numeric categories
  ascending. That rule lives in seaborn, not in this file.
- float64 rounding in `quantile` and `mean` is not modelled. Exact `real`
  arithmetic stands for it, so results can differ from pandas in the last
  bits. A rounded cut-off can therefore decide differently whether a row
  lying exactly on it is kept: `OutlierFilter.CleanKeepsBoundaryValues`
  holds in exact arithmetic only.
- The module-level `df` that the cleaning step rebinds is shared state. The
  model passes the cleaned series explicitly as an argument instead.
