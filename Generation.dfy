/** The generation cleaner: from the raw monthly generation grid (MWh per
    state and month, several years side by side, three annotation columns at
    the end) to a table of states by year, each year the sum of its twelve
    months. */
module Generation {
  import opened Tables

  /** The year of the first block of twelve monthly columns. */
  const BaseYear := 2002
  const MonthsPerYear := 12
  /** The one state whose monthly series has a gap closed by forward fill. */
  const GapLabel := "Morelos"
  /** Annotation columns at the right edge of the grid. */
  const TrailingColumns := 3
  /** The rows of the grid that hold states: positions 1 .. 29. */
  const FirstRow := 1
  const EndRow := 30

  /** `iloc[1:30, :]`: positions 1 .. 29 of the grid, fewer when the grid
      is shorter. */
  function WindowRows(rows: seq<Row>): (r: seq<Row>)
    ensures |rows| >= EndRow ==> r == rows[FirstRow..EndRow]
    ensures FirstRow <= |rows| < EndRow ==> r == rows[FirstRow..]
    ensures |rows| == 0 ==> r == []
  {
    PySlice(rows, FirstRow, EndRow)
  }

  /** The value a forward fill puts at position `i`: the cell itself when it
      is present, otherwise whatever was filled at `i - 1`; before the first
      present cell nothing is filled. */
  function LastKnown(cells: seq<Cell>, i: nat): Cell
    requires i < |cells|
  {
    if cells[i].Some? || i == 0 then cells[i] else LastKnown(cells, i - 1)
  }

  /** `Series.fillna(method="ffill")`. */
  function FFill(cells: seq<Cell>): (f: seq<Cell>)
    ensures |f| == |cells|
    ensures forall i :: 0 <= i < |cells| && cells[i].Some? ==> f[i] == cells[i]
  {
    seq(|cells|, i requires 0 <= i < |cells| => LastKnown(cells, i))
  }

  /** A missing cell takes the value of the nearest earlier present cell. */
  lemma {:induction false} FFillNearest(cells: seq<Cell>, i: nat, j: nat)
    requires j <= i < |cells| && cells[j].Some?
    requires forall k :: j < k <= i ==> cells[k].None?
    ensures FFill(cells)[i] == cells[j]
  {
    if i > j {
      FFillNearest(cells, i - 1, j);
    }
  }

  /** Missing cells before the first present one stay missing. */
  lemma {:induction false} FFillLeading(cells: seq<Cell>, i: nat)
    requires i < |cells|
    requires forall k :: 0 <= k <= i ==> cells[k].None?
    ensures FFill(cells)[i].None?
  {
    if i > 0 {
      FFillLeading(cells, i - 1);
    }
  }

  /** Filling an already filled series changes nothing. */
  lemma {:induction false} FFillIdempotent(cells: seq<Cell>)
    ensures FFill(FFill(cells)) == FFill(cells)
  {
    var f := FFill(cells);
    forall i | 0 <= i < |cells|
      ensures LastKnown(f, i) == LastKnown(cells, i)
    {
      LastKnownOfFilled(cells, i);
    }
  }

  lemma {:induction false} LastKnownOfFilled(cells: seq<Cell>, i: nat)
    requires i < |cells|
    ensures LastKnown(FFill(cells), i) == LastKnown(cells, i)
  {
    if cells[i].None? && i > 0 && LastKnown(cells, i).None? {
      LastKnownOfFilled(cells, i - 1);
    }
  }

  /** The forward fill as the loop it is: carry the last present value
      along the row. */
  method ForwardFill(cells: seq<Cell>) returns (filled: seq<Cell>)
    ensures filled == FFill(cells)
  {
    filled := [];
    var last: Cell := None;
    for i := 0 to |cells|
      invariant |filled| == i
      invariant forall k :: 0 <= k < i ==> filled[k] == LastKnown(cells, k)
      invariant last == if i == 0 then None else LastKnown(cells, i - 1)
    {
      if cells[i].Some? {
        last := cells[i];
      }
      filled := filled + [last];
    }
  }

  /** `if "Morelos" in gen.index: gen.loc["Morelos"] = gen.loc["Morelos"].fillna(method="ffill")`:
      the Morelos row, when present, is replaced by its forward fill and no
      other row is touched. */
  function FillGapRows(rows: seq<Row>): (r: seq<Row>)
    ensures |r| == |rows|
    ensures forall k :: 0 <= k < |rows| ==> r[k].name == rows[k].name && |r[k].cells| == |rows[k].cells|
    ensures forall k :: 0 <= k < |rows| && rows[k].name != GapLabel ==> r[k] == rows[k]
    ensures FindRow(rows, GapLabel).None? ==> r == rows
    ensures UniqueNames(rows) ==>
      forall k :: 0 <= k < |rows| && rows[k].name == GapLabel ==> r[k].cells == FFill(rows[k].cells)
  {
    match FindRow(rows, GapLabel)
    case None => rows
    case Some(k) => rows[k := Row(GapLabel, FFill(rows[k].cells))]
  }

  /** The fill as the source performs it: look the label up, and when it
      is there, replace that row by the forward-fill loop's result. */
  method FillGap(rows: seq<Row>) returns (filled: seq<Row>)
    ensures filled == FillGapRows(rows)
  {
    filled := rows;
    var k := FindRow(rows, GapLabel);
    if k.Some? {
      var cells := ForwardFill(rows[k.value].cells);
      filled := rows[k.value := Row(GapLabel, cells)];
    }
  }

  /** How many columns `iloc[:, :-3]` keeps of `width`. */
  function KeptWidth(width: nat): (w: nat)
    ensures width >= TrailingColumns ==> w + TrailingColumns == width
    ensures width < TrailingColumns ==> w == 0
  {
    SliceBound(-TrailingColumns, width)
  }

  /** `iloc[:, :-3]`: every row loses its last three cells. */
  function DropTrailingColumns(rows: seq<Row>, width: nat): (r: seq<Row>)
    requires Rectangular(width, rows)
    ensures Rectangular(KeptWidth(width), r) && |r| == |rows|
    ensures forall k :: 0 <= k < |rows| ==> r[k].name == rows[k].name && r[k].cells == rows[k].cells[..KeptWidth(width)]
  {
    seq(|rows|, k requires 0 <= k < |rows| => Row(rows[k].name, PySlice(rows[k].cells, 0, -TrailingColumns)))
  }

  /** The annual value of year `i` of a row: the NaN-skipping sum of the
      monthly cells 12i .. 12i+11. A year whose twelve months are all
      missing totals 0, not missing; non-negative months give a
      non-negative year. */
  function BlockSum(cells: seq<Cell>, i: nat): (s: real)
    requires MonthsPerYear * i + MonthsPerYear <= |cells|
    ensures AllMissing(cells[MonthsPerYear * i .. MonthsPerYear * i + MonthsPerYear]) ==> s == 0.0
    ensures NonNegative(cells[MonthsPerYear * i .. MonthsPerYear * i + MonthsPerYear]) ==> 0.0 <= s
  {
    SumSkip(cells[MonthsPerYear * i .. MonthsPerYear * i + MonthsPerYear])
  }

  /** Dropping cells after a year's block does not change its sum. */
  lemma BlockSumOfPrefix(cells: seq<Cell>, w: nat, i: nat)
    requires MonthsPerYear * i + MonthsPerYear <= w <= |cells|
    ensures BlockSum(cells[..w], i) == BlockSum(cells, i)
  {
    var a := MonthsPerYear * i;
    assert cells[..w][a .. a + MonthsPerYear] == cells[a .. a + MonthsPerYear];
  }

  /** The annual values of years 0 .. n-1 added up. */
  function SumOfYears(cells: seq<Cell>, n: nat): real
    requires MonthsPerYear * n <= |cells|
  {
    if n == 0 then 0.0 else SumOfYears(cells, n - 1) + BlockSum(cells, n - 1)
  }

  /** Every month up to 12n lies in exactly one year, and every later
      (remainder) month in none: the years of a row add up to the sum of
      its first 12n months. */
  lemma {:induction false} YearsPartitionMonths(cells: seq<Cell>, n: nat)
    requires MonthsPerYear * n <= |cells|
    ensures SumOfYears(cells, n) == SumSkip(cells[..MonthsPerYear * n])
  {
    if n == 0 {
      assert cells[..0] == [];
    } else {
      var a := MonthsPerYear * (n - 1);
      var b := a + MonthsPerYear;
      assert b == MonthsPerYear * n;
      YearsPartitionMonths(cells, n - 1);
      assert BlockSum(cells, n - 1) == SumSkip(cells[a..b]);
      SumSkipSplit(cells, a, b);
    }
  }

  /** The sum of a prefix is the sum of a shorter prefix plus the sum of
      the cells between the two. */
  lemma SumSkipSplit(cells: seq<Cell>, a: nat, b: nat)
    requires a <= b <= |cells|
    ensures SumSkip(cells[..b]) == SumSkip(cells[..a]) + SumSkip(cells[a..b])
  {
    assert cells[..b] == cells[..a] + cells[a..b];
    SumSkipAppend(cells[..a], cells[a..b]);
  }

  /** The loop that fills the annual frame column by column: column `i` is
      labelled 2002 + i and holds each row's sum of block `i`; there are
      `width / 12` columns, so a remainder of fewer than 12 monthly columns
      contributes to no year. */
  method AnnualTotals(rows: seq<Row>, width: nat) returns (t: YearTable)
    requires Rectangular(width, rows)
    ensures WellFormed(t) && |t.rows| == |rows|
    ensures |t.years| == width / MonthsPerYear
    ensures forall i :: 0 <= i < |t.years| ==> t.years[i] == BaseYear + i
    ensures forall r :: 0 <= r < |rows| ==> t.rows[r].name == rows[r].name
    ensures forall r, i :: 0 <= r < |rows| && 0 <= i < |t.years| ==>
      MonthsPerYear * i + MonthsPerYear <= |rows[r].cells| &&
      t.rows[r].cells[i] == Some(BlockSum(rows[r].cells, i))
  {
    var n := width / MonthsPerYear;
    var years: seq<int> := [];
    var table := seq(|rows|, r requires 0 <= r < |rows| => Row(rows[r].name, []));
    for i := 0 to n
      invariant |years| == i && |table| == |rows|
      invariant forall k :: 0 <= k < i ==> years[k] == BaseYear + k
      invariant forall r :: 0 <= r < |rows| ==> table[r].name == rows[r].name && |table[r].cells| == i
      invariant forall r, k :: 0 <= r < |rows| && 0 <= k < i ==>
        MonthsPerYear * k + MonthsPerYear <= width &&
        table[r].cells[k] == Some(BlockSum(rows[r].cells, k))
    {
      assert MonthsPerYear * i + MonthsPerYear <= width;
      var column := seq(|rows|, r requires 0 <= r < |rows| => Some(BlockSum(rows[r].cells, i)));
      ghost var prev := table;
      table := seq(|rows|, r requires 0 <= r < |rows| => Row(table[r].name, table[r].cells + [column[r]]));
      assert forall r :: 0 <= r < |rows| ==> table[r].cells == prev[r].cells + [column[r]];
      years := years + [BaseYear + i];
    }
    t := YearTable(years, table);
  }

  /** The whole cleaner: keep rows 1 .. 29, forward-fill the Morelos row,
      drop the last three columns, add up each block of twelve months. */
  method CleanGeneration(g: Grid) returns (t: YearTable)
    requires Rectangular(|g.headers|, g.rows)
    ensures WellFormed(t) && |t.rows| == |WindowRows(g.rows)|
    ensures |t.years| == KeptWidth(|g.headers|) / MonthsPerYear
    ensures forall i :: 0 <= i < |t.years| ==> t.years[i] == BaseYear + i
    ensures forall r :: 0 <= r < |t.rows| ==> t.rows[r].name == g.rows[r + FirstRow].name
    ensures forall r, i :: 0 <= r < |t.rows| && 0 <= i < |t.years| ==>
      MonthsPerYear * i + MonthsPerYear <= |FillGapRows(WindowRows(g.rows))[r].cells| &&
      t.rows[r].cells[i] == Some(BlockSum(FillGapRows(WindowRows(g.rows))[r].cells, i))
  {
    var rows := FillGap(WindowRows(g.rows));
    var width := KeptWidth(|g.headers|);
    var trimmed := DropTrailingColumns(rows, |g.headers|);
    t := AnnualTotals(trimmed, width);
    DropTrailingKeepsYears(rows, |g.headers|);
  }

  /** Dropping the three annotation columns leaves the sum of every
      complete year before them unchanged. */
  lemma DropTrailingKeepsYears(rows: seq<Row>, width: nat)
    requires Rectangular(width, rows)
    ensures forall r, i :: 0 <= r < |rows| && MonthsPerYear * i + MonthsPerYear <= KeptWidth(width) ==>
      MonthsPerYear * i + MonthsPerYear <= |rows[r].cells| &&
      BlockSum(DropTrailingColumns(rows, width)[r].cells, i) == BlockSum(rows[r].cells, i)
  {
    var trimmed := DropTrailingColumns(rows, width);
    forall r, i | 0 <= r < |rows| && MonthsPerYear * i + MonthsPerYear <= KeptWidth(width)
      ensures MonthsPerYear * i + MonthsPerYear <= |rows[r].cells|
      ensures BlockSum(trimmed[r].cells, i) == BlockSum(rows[r].cells, i)
    {
      BlockSumOfPrefix(rows[r].cells, KeptWidth(width), i);
    }
  }
}
