# Electricity dashboard data preparation, in Dafny

This project models the data preparation of `fusionado_plotly_10.py`, a
Streamlit and Plotly dashboard of electricity consumption and generation in
the states of Mexico. Everything the dashboard draws comes out of this
pipeline:

- **Consumption cleaner** (`Consumption.dfy`). It takes the consumption grid (GWh per state and year) and optionally looks up the
  "Total Nacional (1)" row. It then drops 3 leading and 8 trailing rows and keeps only the columns
  whose header parses as a number, relabelled as integer years. `Headers.dfy` models
  header parsing and the `str` / `int` round trip the animation uses.
- **Generation cleaner** (`Generation.dfy`). It takes the monthly generation grid (MWh) and keeps
  positions 1..29. It forward-fills the "Morelos" row, drops the last three columns, and
  adds up each block of twelve months into a column labelled `2002 + i`. The
  forward fill, the column-by-column block-sum loop and the whole cleaner are
  methods proved against functions.
- **Reshape and join** (`Combine.dfy`). Consumption is scaled to MWh (× 1000). Both
  tables are melted into (Estado, Año, value) entries. They are full-outer-joined
  on (Estado, Año), and the distinct years are sorted ascending.
- **Summaries** (`Summaries.dfy`): the case-insensitive "Total" row filter, the
  national totals per year (NaN-skipping column sums), the mean of each state
  (NaN-skipping, sorted ascending) and the sorted bars of one animation frame.

`Tables.dfy` holds the shared data model. A table is a sequence of labelled
rows of `Option<real>` cells, where `None` is pandas' NaN. It also holds Python slice semantics,
the first-match row lookup and the NaN-skipping sum.

Values are exact `real`s, so the arithmetic identities hold exactly.

The national generation total at line 360 sums every row, aggregate rows
included, while the per-state charts (lines 185 and 441) filter the "Total"
rows out. The model follows the code.
`Summaries.NationalTotalsCountAggregates` states what the code computes: the
states' total plus the total of every aggregate row the table holds.

## Model

| member | source | states |
|---|---|---|
| Tables.SliceBound | fusionado_plotly_10.py:95 | A Python slice bound becomes a position in `0..n`: a bound in `0..n` is kept, one above `n` becomes `n`, a negative one counts from the end, and one below `-n` becomes 0 |
| Tables.PySlice | fusionado_plotly_10.py:95 | `s[start:stop]` never fails: element `k` is `s[start' + k]`, its length is `stop' - start'`, and it is empty when the bounds cross |
| Tables.FindRow | fusionado_plotly_10.py:106-107 | The label lookup returns the first row with the label, and returns nothing exactly when no row has it |
| Tables.SumSkipAppend | fusionado_plotly_10.py:112-113 | The NaN-skipping sum of two blocks laid side by side is the sum of their sums |
| Tables.SumSkip | fusionado_plotly_10.py:112-113 | The NaN-skipping sum of an empty or all-missing run is 0, not NaN; non-negative cells give a non-negative sum |
| Tables.CountPresent | fusionado_plotly_10.py:404 | The count of present cells is at most the length; it is 0 exactly when every cell is missing and the full length exactly when none is |
| Headers.ParseInt | fusionado_plotly_10.py:97 | A header is a number exactly when it is an integer literal (an optional '+' or '-', then at least one decimal digit); digits read as their decimal value, '-' negates and '+' does not |
| Headers.ParseIntExamples | fusionado_plotly_10.py:97 | "2006", "+7" and "-15" are the numbers 2006, 7 and -15; "a2006", "-", "+", "" and "2006 (p)" are NaN |
| Headers.ShowNat | fusionado_plotly_10.py:101 | `str` of a natural number is a non-empty run of digits with no leading zero |
| Headers.ShowInt | fusionado_plotly_10.py:101 | `str` of an integer is non-empty and starts with '-' exactly when the integer is negative |
| Headers.DigitsValueShowNat | fusionado_plotly_10.py:101 | Reading the digits of `str(n)` gives back `n` |
| Headers.ParseShowInt | fusionado_plotly_10.py:134 | `int(str(y)) == y` for every year, so each animation step name selects its own column |
| Consumption.TotalRow | fusionado_plotly_10.py:93-94 | The grand-total row is found exactly when some row has the label "Total Nacional (1)"; its absence is not an error, and the row found is one of the grid's rows |
| Consumption.TrimRows | fusionado_plotly_10.py:95 | `iloc[3:-8]` keeps exactly positions 3..n-9 in order, or no row when the grid has at most 11 rows |
| Consumption.NumericColumns | fusionado_plotly_10.py:97-98 | The mask selects exactly the positions whose header parses as a number, in ascending order |
| Consumption.KeepNumericColumns | fusionado_plotly_10.py:97-100 | Column `k` of the result is the `k`-th numeric column of the grid, labelled by its header's integer value; row labels and cells are carried over unchanged |
| Consumption.NumericColumnIsKept | fusionado_plotly_10.py:97-100 | Every header that parses as a number keeps its column, with its cells; the other columns are dropped, never zero-filled |
| Consumption.SelectCells | fusionado_plotly_10.py:99 | Selecting columns of a row gives one cell per selected position, in the mask's order, each the row's cell at that position |
| Consumption.HeaderYears | fusionado_plotly_10.py:100 | One year per selected header, in the selection's order, each the integer that header parses to |
| Consumption.SelectColumns | fusionado_plotly_10.py:99 | Every row keeps its label and, in column `k`, its cell at the `k`-th selected position; the result is rectangular in the number of selected columns |
| Consumption.ColumnsBound | fusionado_plotly_10.py:99 | There are never more kept columns than headers |
| Consumption.CleanConsumption | fusionado_plotly_10.py:93-100 | The whole cleaner: the total row comes from the untrimmed grid. Table row `r` is grid row `r + 3`, and year column `k` is the `k`-th numeric column. There are `n - 11` rows, or none for a short grid |
| Generation.WindowRows | fusionado_plotly_10.py:105 | `iloc[1:30]` keeps exactly positions 1..29, or fewer from a shorter grid |
| Generation.FFill | fusionado_plotly_10.py:107 | The forward fill keeps the row's length and leaves every present cell unchanged |
| Generation.FFillNearest | fusionado_plotly_10.py:107 | A missing cell takes the value of the nearest earlier present cell |
| Generation.FFillLeading | fusionado_plotly_10.py:107 | Missing cells before the first present cell stay missing |
| Generation.FFillIdempotent | fusionado_plotly_10.py:107 | Filling a filled row changes nothing |
| Generation.LastKnownOfFilled | fusionado_plotly_10.py:107 | The value carried to any position is the same in the filled row as in the original |
| Generation.ForwardFill | fusionado_plotly_10.py:107 | The loop that carries the last present value along the row computes exactly the forward fill |
| Generation.FillGapRows | fusionado_plotly_10.py:106-107 | Only the "Morelos" row changes, and only when present. It becomes its forward fill. Every other row, every label and every row length are unchanged |
| Generation.FillGap | fusionado_plotly_10.py:106-107 | Looking "Morelos" up and replacing its row by the forward-fill loop's result computes exactly the gap fill |
| Generation.KeptWidth | fusionado_plotly_10.py:108 | `iloc[:, :-3]` keeps `width - 3` columns, or none from a grid narrower than 3 |
| Generation.DropTrailingColumns | fusionado_plotly_10.py:108 | Every row keeps its label and its first `KeptWidth(width)` cells: all but the last three, or none from a grid narrower than 3 |
| Generation.BlockSum | fusionado_plotly_10.py:112-113 | A year whose twelve months are all missing totals 0, not missing; non-negative months give a non-negative year |
| Generation.BlockSumOfPrefix | fusionado_plotly_10.py:108-113 | Dropping the trailing columns does not change the sum of any complete year before them |
| Generation.DropTrailingKeepsYears | fusionado_plotly_10.py:108-113 | Dropping the three annotation columns leaves the sum of every complete year before them unchanged |
| Generation.YearsPartitionMonths | fusionado_plotly_10.py:109-113 | The annual values of the first `n` years add up to the sum of the first `12n` months: every month is counted in exactly one year, and the remainder months in none |
| Generation.AnnualTotals | fusionado_plotly_10.py:109-113 | The loop builds `width / 12` columns, labelled 2002, 2003, ... Each row keeps its label, and cell `i` of a row is the NaN-skipping sum of its months `12i..12i+11` |
| Generation.CleanGeneration | fusionado_plotly_10.py:105-113 | The whole cleaner: rows are grid positions 1..29 with Morelos filled, and there are `(width - 3) / 12` years labelled `2002 + i`. Each value is the sum of that row's twelve monthly cells |
| Combine.ScaleCell | fusionado_plotly_10.py:243 | A cell times a factor; a missing cell stays missing |
| Combine.ScaleTable | fusionado_plotly_10.py:243 | `df * 1000` keeps labels and shape and scales every cell |
| Combine.ScaleTableInverse | fusionado_plotly_10.py:243 | Converting the MWh table back to GWh gives the original table: the conversion loses nothing |
| Combine.MeltColumns | fusionado_plotly_10.py:244-245 | Melting `n` columns gives `n` entries per row |
| Combine.Melt | fusionado_plotly_10.py:244-247 | Melt makes one entry per cell, missing cells included |
| Combine.MeltColumnsAt | fusionado_plotly_10.py:244-245 | Melt is column-major: the cell in column `j`, row `r` is entry `j * rows + r` |
| Combine.MeltColumnsDecompose | fusionado_plotly_10.py:244-245 | Every melted entry is the entry of exactly the cell at its column-major position |
| Combine.MeltHasCell | fusionado_plotly_10.py:244-247 | Every cell, with its state and year, is an entry of the melted table |
| Combine.MeltEntryIsCell | fusionado_plotly_10.py:244-247 | Every entry of the melted table is some cell with its state and year |
| Combine.MeltUniqueKeys | fusionado_plotly_10.py:244-247 | With unique state labels and distinct years, no two melted entries share (Estado, Año) |
| Combine.Matches | fusionado_plotly_10.py:248 | The right-hand entries matching a key are exactly those with that state and year |
| Combine.JoinOne | fusionado_plotly_10.py:248 | Each left entry yields at least one joined row, every one with its key and its consumption value |
| Combine.JoinLeft | fusionado_plotly_10.py:248 | The left part of the join has at least one row per left entry, and every row has a left entry's key |
| Combine.RightOnly | fusionado_plotly_10.py:248 | The right-only part has at most one row per right entry; each has a missing consumption value and a key that the right side has and the left side lacks |
| Combine.OuterJoin | fusionado_plotly_10.py:248 | The outer join has at least one row per left entry and at most the left part plus one row per right entry; every row's key comes from one of the two sides |
| Combine.JoinLeftComplete | fusionado_plotly_10.py:248 | Every left entry yields a joined row with its key and value |
| Combine.JoinLeftHasRight | fusionado_plotly_10.py:248 | A right entry whose key the left side has is joined with its value |
| Combine.JoinLeftSound | fusionado_plotly_10.py:248 | A row joined from a left entry holds that entry's value. Its right side is missing when no right entry has the key, and otherwise is a matching right entry's value, which may itself be missing |
| Combine.RightOnlySound | fusionado_plotly_10.py:248 | A right-only row has no consumption value and a key the left side lacks, and holds a right entry's value |
| Combine.RightOnlyComplete | fusionado_plotly_10.py:248 | Every right entry whose key the left side lacks appears as a right-only row |
| Combine.OuterJoinKeepsLeft | fusionado_plotly_10.py:248 | Every consumption entry reaches the outer join with its value |
| Combine.OuterJoinKeepsRight | fusionado_plotly_10.py:248 | Every generation entry reaches the outer join with its value |
| Combine.OuterJoinSound | fusionado_plotly_10.py:248 | Each side of a joined row is missing when that side has no entry with the key (never 0), and otherwise is a matching entry's value, which may itself be missing |
| Combine.MatchesAtMostOne | fusionado_plotly_10.py:248 | With unique keys a key matches at most one entry |
| Combine.JoinLeftShape | fusionado_plotly_10.py:248 | With unique right keys the left part of the join has one row per left entry |
| Combine.HeadKeyNotInTail | fusionado_plotly_10.py:248 | With unique right keys, no right-only row from the later right entries has the first entry's key |
| Combine.RightOnlyUnique | fusionado_plotly_10.py:248 | With unique right keys the right-only rows have unique keys |
| Combine.OuterJoinUniqueKeys | fusionado_plotly_10.py:248 | With unique keys on both sides every (Estado, Año) occurs once in the join, not as a cross product |
| Combine.InsertSorted | fusionado_plotly_10.py:249 | Inserting into a strictly increasing list keeps it strictly increasing and adds exactly the new value |
| Combine.SortedDistinct | fusionado_plotly_10.py:249 | `sorted(unique(...))` is strictly increasing and holds exactly the values of its input |
| Combine.StrictlyIncreasingUnique | fusionado_plotly_10.py:249 | Two strictly increasing lists with the same values are equal, so the year list is determined by its set |
| Combine.YearsOf | fusionado_plotly_10.py:249 | The year list is strictly increasing, so it has no duplicates. It holds exactly the years of the joined rows |
| Combine.CombineTables | fusionado_plotly_10.py:243-248 | The joined table has at least one row per consumption cell |
| Combine.CombinedKeepsConsumption | fusionado_plotly_10.py:243-248 | Every consumption cell reaches the joined table under its state and year, times 1000 |
| Combine.CombinedKeepsGeneration | fusionado_plotly_10.py:244-248 | Every generation cell reaches the joined table under its state and year, unchanged |
| Combine.CombinedConsumptionSide | fusionado_plotly_10.py:243-248 | The consumption side of a joined row is a consumption cell of that state and year, times 1000. It is missing (not 0) when consumption has no such cell |
| Combine.CombinedGenerationSide | fusionado_plotly_10.py:244-248 | The generation side of a joined row is a generation cell of that state and year. It is missing (not 0) when generation has no such cell |
| Combine.CombinedUniqueKeys | fusionado_plotly_10.py:243-248 | With unique states and distinct years in both tables, each (Estado, Año) occurs once in the joined table |
| Combine.CombinedYearsSound | fusionado_plotly_10.py:249 | Every animation year is a year of a table that has rows |
| Combine.CombinedYearsComplete | fusionado_plotly_10.py:249 | Every year of a table that has rows is an animation year |
| Summaries.Lower | fusionado_plotly_10.py:185 | Lower-casing keeps the length and maps every character through the ASCII case fold |
| Summaries.IsAggregate | fusionado_plotly_10.py:185 | A label is an aggregate exactly when some five consecutive characters of it spell "total" in any case |
| Summaries.LowerOccurs | fusionado_plotly_10.py:185 | Lower-casing the marker gives "total", and "total" occurs at a position of the lower-cased label exactly when the label spells "total" there in any case |
| Summaries.DropAggregateRows | fusionado_plotly_10.py:185 | The filter keeps exactly the rows whose label does not contain "total" in any case, and never adds a row |
| Summaries.AggregateRows | fusionado_plotly_10.py:441 | The complement filter keeps exactly the rows whose label contains "total" in any case |
| Summaries.DropAggregateRowsAppend | fusionado_plotly_10.py:441 | The filter keeps order: filtering a concatenation is concatenating the filtered parts |
| Summaries.DropAggregateRowsNone | fusionado_plotly_10.py:441 | A table without aggregate rows passes the filter unchanged |
| Summaries.IsAggregateExamples | fusionado_plotly_10.py:185 | "Total Nacional" and "TOTAL" are aggregate labels; "Jalisco" is not |
| Summaries.ColumnTotal | fusionado_plotly_10.py:360 | A year no row reports totals 0, not NaN; non-negative values give a non-negative total |
| Summaries.ColumnSums | fusionado_plotly_10.py:311 | `sum(axis=0)` gives one total per year column, and 0 for a column with no present cell |
| Summaries.ColumnTotalSplit | fusionado_plotly_10.py:360 | A column's total over all rows is its total over the states plus its total over the aggregate rows |
| Summaries.NationalTotalsCountAggregates | fusionado_plotly_10.py:360 | Each national generation total counts the aggregate rows on top of the states, because no filter is applied |
| Summaries.NationalTotalExample | fusionado_plotly_10.py:360 | With rows Jalisco 10 and "Total Nacional" 100, the unfiltered total is 110 and the filtered one 10 |
| Summaries.Mean | fusionado_plotly_10.py:404 | A row has no mean exactly when it has no present cell |
| Summaries.SumSkipBounds | fusionado_plotly_10.py:404 | When every present cell lies between `lo` and `hi`, the sum lies between `lo` and `hi` times the count of present cells |
| Summaries.MeanBounds | fusionado_plotly_10.py:404 | The mean lies between the least and the greatest present value; missing years are ignored, not counted as 0 |
| Summaries.MeanOfBoundedSum | fusionado_plotly_10.py:404 | A sum between `n` times `lo` and `n` times `hi` over `n > 0` present cells gives a mean between `lo` and `hi` |
| Summaries.MeanTimesCount | fusionado_plotly_10.py:404 | The mean added up once per present cell (the mean times their count) is their total |
| Summaries.InsertBar | fusionado_plotly_10.py:404 | Inserting a bar into sorted bars keeps them sorted and adds exactly that bar |
| Summaries.SortBars | fusionado_plotly_10.py:404 | `sort_values(ascending=True)` gives a permutation of the bars, ascending, with missing values last |
| Summaries.RowMeans | fusionado_plotly_10.py:404 | One bar per row: its label and its mean |
| Summaries.ConsumptionMeans | fusionado_plotly_10.py:404 | The mean consumption chart is a permutation of every state's mean, in ascending order |
| Summaries.GenerationMeans | fusionado_plotly_10.py:441-444 | The mean generation chart is a permutation of the means of the non-aggregate rows, ascending, and holds no aggregate label |
| Summaries.ColumnBars | fusionado_plotly_10.py:135 | One bar per row: its label and its cell in the chosen year |
| Summaries.PresentBars | fusionado_plotly_10.py:198 | `dropna()` keeps exactly the bars with a value, each as often as it occurs, and adds none |
| Summaries.FrameBars | fusionado_plotly_10.py:189-198 | A frame's bars are sorted ascending. For generation they are a permutation of the year's present values; for consumption, of all the year's values with missing ones last |
| Summaries.GenerationFrame | fusionado_plotly_10.py:185-198 | A generation frame is sorted ascending, a permutation of the year's present values over the non-aggregate rows, and holds no missing value and no aggregate label |
| Summaries.FilteredWellFormed | fusionado_plotly_10.py:185 | Filtering aggregate rows keeps every remaining row's length, so the table stays rectangular |
| Summaries.PresentBarsNotAggregate | fusionado_plotly_10.py:185-198 | A bar drawn from rows without aggregate labels has no aggregate label |

## Left out

- Reading the two CSV files (lines 92 and 103) is file I/O. The model starts from the grid after `skiprows`: the header row, then labelled rows.
- The Streamlit page, CSS, markdown, and the Plotly figures, frames, sliders, buttons and hover texts are rendering. So are the `{value:,.0f}` formatting and the 2024 caption. Only the data each frame and chart is drawn from is modelled.
- Floating point: values are exact reals, so sums, means and the × 1000 scaling carry no rounding.
- Headers.ParseInt: only optionally signed decimal integer literals are numbers. Headers such as "2006.0", " 2006" or "1e3", which `to_numeric` would also accept, are treated as NaN.
- Combine.OuterJoin: the row order of `merge(how="outer")` (pandas sorts the keys) is not modelled. The model lists the left part in order, then the right-only rows. Its contracts speak of membership and key uniqueness only.
- Combine.CombinedUniqueKeys: the join holds one row per key only under unique state labels and distinct years. With duplicate labels the model, like pandas, produces a cross product.
- Tables.FindRow: a label that occurs on several rows makes pandas `loc` return a frame. The model takes the first such row, both for "Total Nacional (1)" and for "Morelos".
- Summaries.SortBars: `sort_values` is not stable by default. The model gives one sorted permutation and does not say how ties are ordered.
- Summaries.Mean: pandas gives NaN for a row with no present value. The model gives `None`, which then sorts last like NaN.
- Summaries.Lower: only ASCII letters are folded. Python's full Unicode case folding is not modelled.
- The value `Total_consumido` (line 94) is never used after the lookup. The model returns the row but nothing consumes it.
- Taking the first year at lines 125 and 188 (`years[0]`) fails on an empty year list. The model covers frames of existing years only.
- Consumption totals at line 311 sum every row kept by `iloc[3:-8]`. Whether a "Total" row lies inside that window depends on the data file. `Summaries.ColumnTotalSplit` gives the sum in either case.
