/** The tabular values the dashboard's data preparation works on.

    A pandas DataFrame read with `index_col=0` is modelled as a sequence of
    rows, each a name (the index entry, e.g. a state) and a sequence
    of cells. A cell is `None` where pandas holds NaN. Python's positional
    slicing (`iloc[a:b]`) and pandas' NaN-skipping sum are defined here once
    and shared by the cleaners and the summaries. */
module Tables {

  datatype Option<T> = None | Some(value: T)

  /** One numeric cell; `None` stands for a missing value (NaN). */
  type Cell = Option<real>

  /** One row of a frame: its index label and its cells, left to right. */
  datatype Row = Row(name: string, cells: seq<Cell>)

  /** A frame as read from a delimited file, after the leading metadata rows
      were skipped and the first column became the index: the remaining
      column headers and the labelled rows. */
  datatype Grid = Grid(headers: seq<string>, rows: seq<Row>)

  /** A cleaned frame whose columns are labelled by integer years. */
  datatype YearTable = YearTable(years: seq<int>, rows: seq<Row>)

  /** Every row has exactly `width` cells, as in any DataFrame. */
  predicate Rectangular(width: nat, rows: seq<Row>)
  {
    forall r :: 0 <= r < |rows| ==> |rows[r].cells| == width
  }

  predicate WellFormed(t: YearTable)
  {
    Rectangular(|t.years|, t.rows)
  }

  /** No two rows share a label, as state names do not in the data. */
  predicate UniqueNames(rows: seq<Row>)
  {
    forall k, m :: 0 <= k < m < |rows| ==> rows[k].name != rows[m].name
  }

  /** No year labels two columns. */
  predicate DistinctYears(years: seq<int>)
  {
    forall k, m :: 0 <= k < m < |years| ==> years[k] != years[m]
  }

  /** How Python turns a slice bound into a position of a sequence of
      length `n`: a negative bound counts from the end, and both kinds are
      clamped into `0..n`. */
  function SliceBound(i: int, n: nat): (b: nat)
    ensures b <= n
    ensures 0 <= i <= n ==> b == i
    ensures i < 0 && 0 <= n + i ==> b == n + i
    ensures i > n ==> b == n
    ensures n + i < 0 ==> b == 0
  {
    if i < 0 then (if n + i < 0 then 0 else n + i)
    else if i > n then n
    else i
  }

  /** `s[start:stop]` with Python's semantics: never fails, and is empty
      when the normalised bounds cross. */
  function PySlice<T>(s: seq<T>, start: int, stop: int): (r: seq<T>)
    ensures |r| <= |s|
    ensures forall k :: 0 <= k < |r| ==> SliceBound(start, |s|) + k < |s| && r[k] == s[SliceBound(start, |s|) + k]
    ensures SliceBound(start, |s|) < SliceBound(stop, |s|) ==> |r| == SliceBound(stop, |s|) - SliceBound(start, |s|)
    ensures SliceBound(stop, |s|) <= SliceBound(start, |s|) ==> r == []
  {
    var a, b := SliceBound(start, |s|), SliceBound(stop, |s|);
    if a < b then s[a..b] else []
  }

  /** The position of the first row labelled `name`, if there is one:
      the model of `name in frame.index` followed by `frame.loc[name]`. */
  function FindRow(rows: seq<Row>, name: string): (r: Option<nat>)
    ensures r.Some? ==> r.value < |rows| && rows[r.value].name == name
    ensures r.Some? ==> forall k :: 0 <= k < r.value ==> rows[k].name != name
    ensures r.None? <==> forall k :: 0 <= k < |rows| ==> rows[k].name != name
  {
    if |rows| == 0 then None
    else if rows[0].name == name then Some(0)
    else
      match FindRow(rows[1..], name)
      case None => None
      case Some(k) => Some(k + 1)
  }

  /** What a cell contributes to a NaN-skipping sum. */
  function ValueOrZero(c: Cell): real
  {
    match c
    case None => 0.0
    case Some(v) => v
  }

  /** No cell is present. */
  predicate AllMissing(cells: seq<Cell>)
  {
    forall k :: 0 <= k < |cells| ==> cells[k].None?
  }

  /** Every cell is present. */
  predicate AllPresent(cells: seq<Cell>)
  {
    forall k :: 0 <= k < |cells| ==> cells[k].Some?
  }

  /** No present cell is negative. */
  predicate NonNegative(cells: seq<Cell>)
  {
    forall k :: 0 <= k < |cells| && cells[k].Some? ==> 0.0 <= cells[k].value
  }

  /** pandas `sum(skipna=True)`: missing cells are skipped, so an empty or
      all-missing sequence sums to 0 and never to NaN. */
  function SumSkip(cells: seq<Cell>): (s: real)
    ensures AllMissing(cells) ==> s == 0.0
    ensures NonNegative(cells) ==> 0.0 <= s
  {
    if cells == [] then 0.0
    else
      assert AllMissing(cells) ==> AllMissing(cells[1..]);
      assert NonNegative(cells) ==> NonNegative(cells[1..]);
      ValueOrZero(cells[0]) + SumSkip(cells[1..])
  }

  /** The number of non-missing cells (pandas `count`): none exactly when
      every cell is missing, all exactly when every cell is present. */
  function CountPresent(cells: seq<Cell>): (n: nat)
    ensures n <= |cells|
    ensures n == 0 <==> AllMissing(cells)
    ensures n == |cells| <==> AllPresent(cells)
  {
    if cells == [] then 0
    else
      assert AllMissing(cells) <==> cells[0].None? && AllMissing(cells[1..]);
      assert AllPresent(cells) <==> cells[0].Some? && AllPresent(cells[1..]);
      (if cells[0].Some? then 1 else 0) + CountPresent(cells[1..])
  }

  /** A NaN-skipping sum distributes over concatenation. */
  lemma {:induction false} SumSkipAppend(a: seq<Cell>, b: seq<Cell>)
    ensures SumSkip(a + b) == SumSkip(a) + SumSkip(b)
  {
    if a == [] {
      assert a + b == b;
    } else {
      assert (a + b)[1..] == a[1..] + b;
      SumSkipAppend(a[1..], b);
    }
  }
}
