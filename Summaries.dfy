/** The summaries the charts are drawn from: the filter that removes
    aggregate ("Total ...") rows, national totals per year, the mean of each
    state over its years, and the bars of one year sorted by value. */
module Summaries {
  import opened Tables

  // ---------------------------------------------------------------------
  // The "Total" row filter
  // ---------------------------------------------------------------------

  /** The substring that marks an aggregate row, whatever its case. */
  const AggregateMarker := "Total"

  function LowerChar(c: char): char
  {
    if 'A' <= c <= 'Z' then (c as int + 32) as char else c
  }

  /** The string with its ASCII capitals made small, so that "TOTAL",
      "Total" and "total" compare equal. */
  function Lower(s: string): (r: string)
    ensures |r| == |s| && forall k :: 0 <= k < |s| ==> r[k] == LowerChar(s[k])
  {
    seq(|s|, k requires 0 <= k < |s| => LowerChar(s[k]))
  }

  predicate OccursAt(s: string, sub: string, i: nat)
  {
    i + |sub| <= |s| && s[i..i + |sub|] == sub
  }

  predicate Contains(s: string, sub: string)
  {
    exists i: nat :: i <= |s| && OccursAt(s, sub, i)
  }

  /** The five characters of `name` from position `i` spell "total", in
      any case. */
  predicate SpellsTotalAt(name: string, i: nat)
  {
    i + 5 <= |name| && Lower(name[i..i + 5]) == "total"
  }

  /** `str.contains("Total", case=False)` on a row label: some five
      consecutive characters of the label spell "total" in any case. */
  predicate IsAggregate(name: string): (r: bool)
    ensures r <==> exists i: nat :: SpellsTotalAt(name, i)
  {
    LowerOccurs(name);
    Contains(Lower(name), Lower(AggregateMarker))
  }

  /** Lower-casing the label and then looking for "total" is looking for
      five characters that lower-case to "total". */
  lemma LowerOccurs(name: string)
    ensures Lower(AggregateMarker) == "total"
    ensures forall i: nat :: OccursAt(Lower(name), "total", i) <==> SpellsTotalAt(name, i)
  {
    forall i: nat
      ensures OccursAt(Lower(name), "total", i) <==> SpellsTotalAt(name, i)
    {
      if i + 5 <= |name| {
        assert Lower(name)[i..i + 5] == Lower(name[i..i + 5]);
      }
    }
  }

  /** `df[~df.index.str.contains("Total", case=False)]`: the rows that are
      not aggregates, in their original order. */
  function DropAggregateRows(rows: seq<Row>): (r: seq<Row>)
    ensures forall x :: x in r <==> x in rows && !IsAggregate(x.name)
    ensures |r| <= |rows|
  {
    if rows == [] then []
    else (if IsAggregate(rows[0].name) then [] else [rows[0]]) + DropAggregateRows(rows[1..])
  }

  /** The rows the filter removes. */
  function AggregateRows(rows: seq<Row>): (r: seq<Row>)
    ensures forall x :: x in r <==> x in rows && IsAggregate(x.name)
  {
    if rows == [] then []
    else (if IsAggregate(rows[0].name) then [rows[0]] else []) + AggregateRows(rows[1..])
  }

  /** The filter works row by row and keeps order: filtering two blocks of
      rows one after the other is filtering their concatenation. */
  lemma {:induction false} DropAggregateRowsAppend(a: seq<Row>, b: seq<Row>)
    ensures DropAggregateRows(a + b) == DropAggregateRows(a) + DropAggregateRows(b)
  {
    if a == [] {
      assert a + b == b;
    } else {
      assert (a + b)[1..] == a[1..] + b;
      DropAggregateRowsAppend(a[1..], b);
    }
  }

  /** A table without aggregate rows passes the filter unchanged. */
  lemma {:induction false} DropAggregateRowsNone(rows: seq<Row>)
    requires forall k :: 0 <= k < |rows| ==> !IsAggregate(rows[k].name)
    ensures DropAggregateRows(rows) == rows
  {
    if rows != [] {
      DropAggregateRowsNone(rows[1..]);
    }
  }

  lemma IsAggregateExamples()
    ensures IsAggregate("Total Nacional")
    ensures IsAggregate("TOTAL")
    ensures !IsAggregate("Jalisco")
  {
    assert Lower(AggregateMarker) == "total";
    assert OccursAt(Lower("Total Nacional"), "total", 0);
    assert OccursAt(Lower("TOTAL"), "total", 0);
    var s := Lower("Jalisco");
    forall i: nat | i <= |s|
      ensures !OccursAt(s, "total", i)
    {
      if i + 5 <= |s| {
        assert s[i..i + 5][0] == s[i];
      }
    }
  }

  // ---------------------------------------------------------------------
  // National totals per year
  // ---------------------------------------------------------------------

  /** The cells of column `j`, top to bottom. */
  function Column(rows: seq<Row>, j: nat): (c: seq<Cell>)
    requires HasColumn(rows, j)
    ensures |c| == |rows|
  {
    seq(|rows|, r requires 0 <= r < |rows| => rows[r].cells[j])
  }

  /** The NaN-skipping total of column `j`: a year no row reports totals
      0, not missing, and non-negative values give a non-negative total. */
  function ColumnTotal(rows: seq<Row>, j: nat): (s: real)
    requires HasColumn(rows, j)
    ensures (forall r :: 0 <= r < |rows| ==> rows[r].cells[j].None?) ==> s == 0.0
    ensures (forall r :: 0 <= r < |rows| && rows[r].cells[j].Some? ==> 0.0 <= rows[r].cells[j].value) ==> 0.0 <= s
  {
    SumSkip(Column(rows, j))
  }

  /** `df.sum(axis=0)`: one NaN-skipping total per year column. */
  function ColumnSums(t: YearTable): (s: seq<real>)
    requires WellFormed(t)
    ensures |s| == |t.years|
    ensures forall j :: 0 <= j < |t.years| && (forall r :: 0 <= r < |t.rows| ==> t.rows[r].cells[j].None?) ==> s[j] == 0.0
  {
    seq(|t.years|, j requires 0 <= j < |t.years| => ColumnTotal(t.rows, j))
  }

  /** Every row has a cell in column `j`. */
  predicate HasColumn(rows: seq<Row>, j: nat)
  {
    forall r :: 0 <= r < |rows| ==> j < |rows[r].cells|
  }

  lemma ColumnTotalCons(x: Row, rest: seq<Row>, j: nat)
    requires j < |x.cells| && HasColumn(rest, j)
    ensures HasColumn([x] + rest, j)
    ensures ColumnTotal([x] + rest, j) == ValueOrZero(x.cells[j]) + ColumnTotal(rest, j)
  {
    assert Column([x] + rest, j)[1..] == Column(rest, j);
  }

  lemma FilteredHasColumn(rows: seq<Row>, j: nat)
    requires HasColumn(rows, j)
    ensures HasColumn(DropAggregateRows(rows), j) && HasColumn(AggregateRows(rows), j)
  {
    var d, a := DropAggregateRows(rows), AggregateRows(rows);
    forall r | 0 <= r < |d|
      ensures j < |d[r].cells|
    {
      assert d[r] in rows;
    }
    forall r | 0 <= r < |a|
      ensures j < |a[r].cells|
    {
      assert a[r] in rows;
    }
  }

  /** The national total of a year taken over all rows (as the generation
      total is) is the total over the states plus the total over the
      aggregate rows: every aggregate row is counted on top of the states it
      aggregates. */
  lemma {:induction false} ColumnTotalSplit(rows: seq<Row>, j: nat)
    requires HasColumn(rows, j)
    ensures HasColumn(DropAggregateRows(rows), j) && HasColumn(AggregateRows(rows), j)
    ensures ColumnTotal(rows, j) == ColumnTotal(DropAggregateRows(rows), j) + ColumnTotal(AggregateRows(rows), j)
  {
    FilteredHasColumn(rows, j);
    if rows == [] {
      assert Column([], j) == [];
    } else {
      var x, rest := rows[0], rows[1..];
      assert rows == [x] + rest;
      FilteredHasColumn(rest, j);
      ColumnTotalSplit(rest, j);
      ColumnTotalCons(x, rest, j);
      if IsAggregate(x.name) {
        assert DropAggregateRows(rows) == DropAggregateRows(rest);
        assert AggregateRows(rows) == [x] + AggregateRows(rest);
        ColumnTotalCons(x, AggregateRows(rest), j);
      } else {
        assert DropAggregateRows(rows) == [x] + DropAggregateRows(rest);
        assert AggregateRows(rows) == AggregateRows(rest);
        ColumnTotalCons(x, DropAggregateRows(rest), j);
      }
    }
  }

  /** `df_generacion.sum(axis=0)` applies no "Total" filter: each yearly
      national total is the total over the states plus the total over any
      aggregate rows the table holds. */
  lemma NationalTotalsCountAggregates(t: YearTable)
    requires WellFormed(t)
    ensures forall j :: 0 <= j < |t.years| ==>
      HasColumn(DropAggregateRows(t.rows), j) && HasColumn(AggregateRows(t.rows), j) &&
      ColumnSums(t)[j] == ColumnTotal(DropAggregateRows(t.rows), j) + ColumnTotal(AggregateRows(t.rows), j)
  {
    forall j | 0 <= j < |t.years|
      ensures HasColumn(DropAggregateRows(t.rows), j) && HasColumn(AggregateRows(t.rows), j)
      ensures ColumnSums(t)[j] == ColumnTotal(DropAggregateRows(t.rows), j) + ColumnTotal(AggregateRows(t.rows), j)
    {
      ColumnTotalSplit(t.rows, j);
    }
  }

  lemma NationalTotalExample()
    ensures ColumnSums(YearTable([2020], [Row("Jalisco", [Some(10.0)]), Row("Total Nacional", [Some(100.0)])])) == [110.0]
    ensures ColumnSums(YearTable([2020], DropAggregateRows([Row("Jalisco", [Some(10.0)]), Row("Total Nacional", [Some(100.0)])]))) == [10.0]
  {
    IsAggregateExamples();
    var rows := [Row("Jalisco", [Some(10.0)]), Row("Total Nacional", [Some(100.0)])];
    assert DropAggregateRows(rows) == [rows[0]] by {
      assert DropAggregateRows(rows[1..]) == [];
    }
    assert Column(rows, 0) == [Some(10.0), Some(100.0)];
    assert Column([rows[0]], 0) == [Some(10.0)];
  }

  // ---------------------------------------------------------------------
  // Mean per state
  // ---------------------------------------------------------------------

  /** `mean(axis=1)` of one row: the average of its present cells; missing
      years are ignored rather than counted as 0. A row with no present
      cell has no mean. */
  function Mean(cells: seq<Cell>): (m: Option<real>)
    ensures m.None? <==> CountPresent(cells) == 0
  {
    var n := CountPresent(cells);
    if n == 0 then None else Some(SumSkip(cells) / (n as real))
  }

  /** Every present cell lies between `lo` and `hi`. */
  predicate InRange(cells: seq<Cell>, lo: real, hi: real)
  {
    forall k :: 0 <= k < |cells| && cells[k].Some? ==> lo <= cells[k].value <= hi
  }

  /** `v` added up `n` times. */
  function Repeat(v: real, n: nat): real
  {
    if n == 0 then 0.0 else v + Repeat(v, n - 1)
  }

  lemma {:induction false} RepeatIsProduct(v: real, n: nat)
    ensures Repeat(v, n) == v * (n as real)
  {
    if n > 0 {
      RepeatIsProduct(v, n - 1);
      assert v * (n as real) == v * ((n - 1) as real) + v;
    }
  }

  /** When every present cell lies between `lo` and `hi`, the sum lies
      between `lo` and `hi` added up once per present cell. */
  lemma {:induction false} SumSkipBounds(cells: seq<Cell>, lo: real, hi: real)
    requires InRange(cells, lo, hi)
    ensures Repeat(lo, CountPresent(cells)) <= SumSkip(cells) <= Repeat(hi, CountPresent(cells))
  {
    if cells != [] {
      var rest := cells[1..];
      assert InRange(rest, lo, hi) by {
        forall k | 0 <= k < |rest| && rest[k].Some?
          ensures lo <= rest[k].value <= hi
        {
          assert rest[k] == cells[k + 1];
        }
      }
      SumSkipBounds(rest, lo, hi);
    }
  }

  /** The mean lies between the least and the greatest present value. */
  lemma MeanBounds(cells: seq<Cell>, lo: real, hi: real)
    requires CountPresent(cells) > 0
    requires InRange(cells, lo, hi)
    ensures lo <= Mean(cells).value <= hi
  {
    SumSkipBounds(cells, lo, hi);
    MeanOfBoundedSum(cells, lo, hi, SumSkip(cells), CountPresent(cells));
  }

  lemma MeanOfBoundedSum(cells: seq<Cell>, lo: real, hi: real, total: real, n: nat)
    requires n > 0 && total == SumSkip(cells) && n == CountPresent(cells)
    requires Repeat(lo, n) <= total <= Repeat(hi, n)
    ensures lo <= Mean(cells).value <= hi
  {
    RepeatIsProduct(lo, n);
    RepeatIsProduct(hi, n);
    QuotientBounds(total, n as real, lo, hi);
  }

  /** The mean added up once per present cell gives back their total: the
      mean times the number of present cells is the total. */
  lemma MeanTimesCount(cells: seq<Cell>)
    requires CountPresent(cells) > 0
    ensures Repeat(Mean(cells).value, CountPresent(cells)) == SumSkip(cells)
  {
    QuotientRepeated(Mean(cells).value, SumSkip(cells), CountPresent(cells));
  }

  /** A quotient by `n`, added up `n` times, gives back the dividend. */
  lemma QuotientRepeated(q: real, s: real, n: nat)
    requires n > 0 && q == s / (n as real)
    ensures Repeat(q, n) == s
  {
    RepeatIsProduct(q, n);
    assert q * (n as real) == s;
  }

  lemma QuotientBounds(s: real, n: real, lo: real, hi: real)
    requires n > 0.0 && lo * n <= s <= hi * n
    ensures lo <= s / n <= hi
  {
    assert (s / n) * n == s;
  }

  // ---------------------------------------------------------------------
  // Bars sorted by value
  // ---------------------------------------------------------------------

  /** One bar of a horizontal bar chart: the state and its value. */
  datatype Bar = Bar(estado: string, value: Cell)

  /** The order of `sort_values(ascending=True)`: by value, missing last. */
  predicate CellLe(a: Cell, b: Cell)
  {
    match a
    case None => b.None?
    case Some(x) => b.None? || x <= b.value
  }

  predicate SortedBars(s: seq<Bar>)
  {
    forall i, j :: 0 <= i < j < |s| ==> CellLe(s[i].value, s[j].value)
  }

  function InsertBar(b: Bar, s: seq<Bar>): (r: seq<Bar>)
    requires SortedBars(s)
    ensures SortedBars(r)
    ensures multiset(r) == multiset(s) + multiset{b}
  {
    if s == [] || CellLe(b.value, s[0].value) then
      BelowHeadAllAbove(b, s);
      ConsSorted(b, s);
      [b] + s
    else
      var rest := InsertBar(b, s[1..]);
      assert s == [s[0]] + s[1..];
      HeadBelowInsert(b, s, rest);
      ConsSorted(s[0], rest);
      [s[0]] + rest
  }

  /** A bar at or below every bar of a sorted sequence can go in front. */
  lemma ConsSorted(x: Bar, s: seq<Bar>)
    requires SortedBars(s) && AllAbove(x.value, s)
    ensures SortedBars([x] + s)
  {
    var r := [x] + s;
    forall i, j | 0 <= i < j < |r|
      ensures CellLe(r[i].value, r[j].value)
    {
      assert r[j] == s[j - 1];
      if i > 0 {
        assert r[i] == s[i - 1];
      }
    }
  }

  /** A bar at or below the head of a sorted sequence is at or below all
      of it. */
  lemma BelowHeadAllAbove(b: Bar, s: seq<Bar>)
    requires SortedBars(s) && (s == [] || CellLe(b.value, s[0].value))
    ensures AllAbove(b.value, s)
  {
    forall k | 0 <= k < |s|
      ensures CellLe(b.value, s[k].value)
    {
      if k > 0 {
        assert CellLe(s[0].value, s[k].value);
      }
    }
  }

  /** Every bar of `s` is at or above `v`. */
  predicate AllAbove(v: Cell, s: seq<Bar>)
  {
    forall k :: 0 <= k < |s| ==> CellLe(v, s[k].value)
  }

  lemma HeadBelowInsert(b: Bar, s: seq<Bar>, rest: seq<Bar>)
    requires s != [] && SortedBars(s) && !CellLe(b.value, s[0].value)
    requires multiset(rest) == multiset(s[1..]) + multiset{b}
    ensures AllAbove(s[0].value, rest)
  {
    forall k | 0 <= k < |rest|
      ensures CellLe(s[0].value, rest[k].value)
    {
      assert rest[k] in multiset(rest);
      if rest[k] != b {
        assert rest[k] in multiset(s[1..]);
        var i :| 0 <= i < |s[1..]| && s[1..][i] == rest[k];
        assert s[i + 1] == rest[k];
      }
    }
  }

  /** `sort_values(ascending=True)`: the same bars, ascending by value with
      missing values last. */
  function SortBars(s: seq<Bar>): (r: seq<Bar>)
    ensures SortedBars(r)
    ensures multiset(r) == multiset(s)
  {
    if s == [] then []
    else
      assert s == s[..|s| - 1] + [s[|s| - 1]];
      InsertBar(s[|s| - 1], SortBars(s[..|s| - 1]))
  }

  /** Each row's mean, labelled by its state. */
  function RowMeans(rows: seq<Row>): (bars: seq<Bar>)
    ensures |bars| == |rows|
    ensures forall r :: 0 <= r < |rows| ==> bars[r] == Bar(rows[r].name, Mean(rows[r].cells))
  {
    seq(|rows|, r requires 0 <= r < |rows| => Bar(rows[r].name, Mean(rows[r].cells)))
  }

  /** `df_consumo.mean(axis=1).sort_values(ascending=True)`. */
  function ConsumptionMeans(t: YearTable): (bars: seq<Bar>)
    ensures SortedBars(bars)
    ensures multiset(bars) == multiset(RowMeans(t.rows))
  {
    SortBars(RowMeans(t.rows))
  }

  /** The means chart of generation: aggregate rows dropped, then each
      state's mean, ascending. */
  function GenerationMeans(t: YearTable): (bars: seq<Bar>)
    ensures SortedBars(bars)
    ensures multiset(bars) == multiset(RowMeans(DropAggregateRows(t.rows)))
    ensures forall b :: b in bars ==> !IsAggregate(b.estado)
  {
    var kept := DropAggregateRows(t.rows);
    var bars := SortBars(RowMeans(kept));
    assert forall b :: b in bars ==> b in multiset(RowMeans(kept));
    bars
  }

  /** The bars of year column `j`, one per row. */
  function ColumnBars(rows: seq<Row>, j: nat): (bars: seq<Bar>)
    requires HasColumn(rows, j)
    ensures |bars| == |rows|
    ensures forall r :: 0 <= r < |rows| ==> bars[r] == Bar(rows[r].name, rows[r].cells[j])
  {
    seq(|rows|, r requires 0 <= r < |rows| => Bar(rows[r].name, rows[r].cells[j]))
  }

  /** `dropna()`: the bars with a value. */
  function PresentBars(bars: seq<Bar>): (r: seq<Bar>)
    ensures forall b :: b in r <==> b in bars && b.value.Some?
    ensures forall b :: multiset(r)[b] == if b.value.Some? then multiset(bars)[b] else 0
  {
    if bars == [] then []
    else
      assert bars == [bars[0]] + bars[1..];
      (if bars[0].value.Some? then [bars[0]] else []) + PresentBars(bars[1..])
  }

  /** The data of one animation frame: the bars of year column `j`, sorted
      ascending, with the missing values dropped first when `dropMissing`
      (the generation frames) and placed last otherwise (the consumption
      frames). */
  function FrameBars(t: YearTable, j: nat, dropMissing: bool): (bars: seq<Bar>)
    requires WellFormed(t) && j < |t.years|
    ensures SortedBars(bars)
    ensures !dropMissing ==> multiset(bars) == multiset(ColumnBars(t.rows, j))
    ensures dropMissing ==> multiset(bars) == multiset(PresentBars(ColumnBars(t.rows, j)))
    ensures dropMissing ==> forall b :: b in bars ==> b.value.Some?
  {
    var column := ColumnBars(t.rows, j);
    var bars := SortBars(if dropMissing then PresentBars(column) else column);
    assert forall b :: b in bars ==> b in multiset(bars);
    bars
  }

  /** A frame of the generation animation: the bars of year column `j`
      drawn from the table with its aggregate rows filtered out, missing
      values dropped, ascending. No aggregate label is among them. */
  function GenerationFrame(t: YearTable, j: nat): (bars: seq<Bar>)
    requires WellFormed(t) && j < |t.years|
    ensures SortedBars(bars)
    ensures forall b :: b in bars ==> b.value.Some? && !IsAggregate(b.estado)
    ensures multiset(bars) == multiset(PresentBars(ColumnBars(DropAggregateRows(t.rows), j)))
  {
    var kept := YearTable(t.years, DropAggregateRows(t.rows));
    FilteredWellFormed(t);
    var bars := FrameBars(kept, j, true);
    forall b | b in bars
      ensures !IsAggregate(b.estado)
    {
      assert b in multiset(bars);
      PresentBarsNotAggregate(kept.rows, j, b);
    }
    bars
  }

  /** Filtering rows keeps a table rectangular. */
  lemma FilteredWellFormed(t: YearTable)
    requires WellFormed(t)
    ensures WellFormed(YearTable(t.years, DropAggregateRows(t.rows)))
  {
    var kept := DropAggregateRows(t.rows);
    forall r | 0 <= r < |kept|
      ensures |kept[r].cells| == |t.years|
    {
      assert kept[r] in t.rows;
    }
  }

  /** A bar drawn from rows without aggregates has no aggregate label. */
  lemma PresentBarsNotAggregate(rows: seq<Row>, j: nat, b: Bar)
    requires HasColumn(rows, j) && forall x :: x in rows ==> !IsAggregate(x.name)
    requires b in PresentBars(ColumnBars(rows, j))
    ensures !IsAggregate(b.estado)
  {
    var column := ColumnBars(rows, j);
    var r :| 0 <= r < |column| && column[r] == b;
    assert rows[r] in rows;
  }
}
