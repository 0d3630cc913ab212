/** The consumption cleaner: from the raw consumption grid (GWh per state
    and year, annotation rows above and below, annotation columns beside the
    year columns) to a table of states by integer years. */
module Consumption {
  import opened Tables
  import opened Headers

  /** The label of the national grand-total row. */
  const TotalLabel := "Total Nacional (1)"

  /** Rows dropped positionally before and after the states. */
  const LeadingRows := 3
  const TrailingRows := 8

  /** The cleaner's two results: the grand-total row when the grid has
      one, and the cleaned table. */
  datatype Cleaned = Cleaned(total: Option<Row>, table: YearTable)

  /** The optional grand-total lookup: absence is not an error. */
  function TotalRow(rows: seq<Row>): (t: Option<Row>)
    ensures t.Some? <==> exists k :: 0 <= k < |rows| && rows[k].name == TotalLabel
    ensures t.Some? ==> t.value in rows && t.value.name == TotalLabel
  {
    match FindRow(rows, TotalLabel)
    case None => None
    case Some(k) => Some(rows[k])
  }

  /** `iloc[3:-8]`: the rows at positions 3 .. n-9, or none when the grid
      has fewer than 12 rows. */
  function TrimRows(rows: seq<Row>): (r: seq<Row>)
    ensures |rows| > LeadingRows + TrailingRows ==> r == rows[LeadingRows..|rows| - TrailingRows]
    ensures |rows| <= LeadingRows + TrailingRows ==> r == []
  {
    PySlice(rows, LeadingRows, -TrailingRows)
  }

  /** The positions of the headers that parse as numbers, ascending. */
  function NumericColumns(headers: seq<string>): (cols: seq<nat>)
    ensures forall k :: 0 <= k < |cols| ==> cols[k] < |headers| && ParseInt(headers[cols[k]]).Some?
    ensures forall k, l :: 0 <= k < l < |cols| ==> cols[k] < cols[l]
    ensures forall j :: 0 <= j < |headers| && ParseInt(headers[j]).Some? ==> j in cols
  {
    if headers == [] then []
    else
      var n := |headers| - 1;
      var prev := NumericColumns(headers[..n]);
      assert forall j :: 0 <= j < n ==> headers[..n][j] == headers[j];
      if ParseInt(headers[n]).Some? then prev + [n] else prev
  }

  /** The cells of one row at the given positions, in that order. */
  function SelectCells(cells: seq<Cell>, cols: seq<nat>): (r: seq<Cell>)
    requires forall k :: 0 <= k < |cols| ==> cols[k] < |cells|
    ensures |r| == |cols|
    ensures forall k :: 0 <= k < |cols| ==> r[k] == cells[cols[k]]
  {
    seq(|cols|, k requires 0 <= k < |cols| => cells[cols[k]])
  }

  /** `data.loc[:, mask_cols]` with the kept headers relabelled as ints:
      column `k` of the result is the `k`-th numeric column of the grid
      (see NumericColumns: exactly those, in their original order), labelled
      by its header's value; no column is zero-filled. */
  function KeepNumericColumns(g: Grid): (t: YearTable)
    requires Rectangular(|g.headers|, g.rows)
    ensures WellFormed(t) && |t.rows| == |g.rows|
    ensures |t.years| == |NumericColumns(g.headers)| <= |g.headers|
    ensures forall k :: 0 <= k < |t.years| ==>
      ParseInt(g.headers[NumericColumns(g.headers)[k]]) == Some(t.years[k])
    ensures forall r :: 0 <= r < |t.rows| ==> t.rows[r].name == g.rows[r].name
    ensures forall r, k :: 0 <= r < |t.rows| && 0 <= k < |t.years| ==>
      t.rows[r].cells[k] == g.rows[r].cells[NumericColumns(g.headers)[k]]
  {
    var cols := NumericColumns(g.headers);
    ColumnsBound(cols, |g.headers|);
    YearTable(HeaderYears(g.headers, cols), SelectColumns(g.rows, |g.headers|, cols))
  }

  /** `cols_numeric[mask_cols].astype(int)`: the value of each selected
      header, in the order of the selection. */
  function HeaderYears(headers: seq<string>, cols: seq<nat>): (years: seq<int>)
    requires forall k :: 0 <= k < |cols| ==> cols[k] < |headers| && ParseInt(headers[cols[k]]).Some?
    ensures |years| == |cols|
    ensures forall k :: 0 <= k < |cols| ==> ParseInt(headers[cols[k]]) == Some(years[k])
  {
    seq(|cols|, k requires 0 <= k < |cols| => ParseInt(headers[cols[k]]).value)
  }

  /** `data.loc[:, mask_cols]`: every row keeps its label and the cells at
      the selected positions, so the result is rectangular in the number of
      selected columns. */
  function SelectColumns(rows: seq<Row>, width: nat, cols: seq<nat>): (r: seq<Row>)
    requires Rectangular(width, rows)
    requires forall k :: 0 <= k < |cols| ==> cols[k] < width
    ensures |r| == |rows| && Rectangular(|cols|, r)
    ensures forall i :: 0 <= i < |rows| ==> r[i].name == rows[i].name
    ensures forall i, k :: 0 <= i < |rows| && 0 <= k < |cols| ==> r[i].cells[k] == rows[i].cells[cols[k]]
  {
    seq(|rows|, i requires 0 <= i < |rows| => Row(rows[i].name, SelectCells(rows[i].cells, cols)))
  }

  /** Every header that parses as a number keeps its column, relabelled by
      its value; only the other columns are dropped. */
  lemma NumericColumnIsKept(g: Grid, j: nat)
    requires Rectangular(|g.headers|, g.rows)
    requires j < |g.headers| && ParseInt(g.headers[j]).Some?
    ensures exists k :: (0 <= k < |KeepNumericColumns(g).years| &&
      KeepNumericColumns(g).years[k] == ParseInt(g.headers[j]).value &&
      forall r :: 0 <= r < |g.rows| ==> KeepNumericColumns(g).rows[r].cells[k] == g.rows[r].cells[j])
  {
    var cols := NumericColumns(g.headers);
    var k :| 0 <= k < |cols| && cols[k] == j;
    assert KeepNumericColumns(g).years[k] == ParseInt(g.headers[j]).value;
  }

  /** A strictly increasing sequence of positions below `n` has at most `n`
      entries. */
  lemma {:induction false} ColumnsBound(cols: seq<nat>, n: nat)
    requires forall k :: 0 <= k < |cols| ==> cols[k] < n
    requires forall k, l :: 0 <= k < l < |cols| ==> cols[k] < cols[l]
    ensures |cols| <= n
  {
    if cols != [] {
      var last := cols[|cols| - 1];
      ColumnsBound(cols[..|cols| - 1], last);
    }
  }

  /** The whole cleaner: look up the grand-total row in the untrimmed grid,
      drop 3 leading and 8 trailing rows, keep the numeric columns. The
      grand-total row stays in the table if it lies inside the kept window. */
  function CleanConsumption(g: Grid): (c: Cleaned)
    requires Rectangular(|g.headers|, g.rows)
    ensures c.total == TotalRow(g.rows)
    ensures WellFormed(c.table)
    ensures |g.rows| > LeadingRows + TrailingRows ==> |c.table.rows| == |g.rows| - LeadingRows - TrailingRows
    ensures |g.rows| <= LeadingRows + TrailingRows ==> c.table.rows == []
    ensures |c.table.years| == |NumericColumns(g.headers)|
    ensures forall k :: 0 <= k < |c.table.years| ==>
      ParseInt(g.headers[NumericColumns(g.headers)[k]]) == Some(c.table.years[k])
    ensures forall r :: 0 <= r < |c.table.rows| ==> c.table.rows[r].name == g.rows[r + LeadingRows].name
    ensures forall r, k :: 0 <= r < |c.table.rows| && 0 <= k < |c.table.years| ==>
      c.table.rows[r].cells[k] == g.rows[r + LeadingRows].cells[NumericColumns(g.headers)[k]]
  {
    var trimmed := TrimRows(g.rows);
    Cleaned(TotalRow(g.rows), KeepNumericColumns(Grid(g.headers, trimmed)))
  }
}
