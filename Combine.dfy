/** The reshape that puts consumption and generation side by side: scale
    consumption from GWh to MWh, melt both tables into (state, year, value)
    entries, full-outer-join them on (state, year), and list the distinct
    years of the result in ascending order. */
module Combine {
  import opened Tables

  /** GWh to MWh. */
  const MWhPerGWh: real := 1000.0

  // ---------------------------------------------------------------------
  // Unit conversion
  // ---------------------------------------------------------------------

  /** A cell times a factor; a missing cell stays missing (NaN * k is NaN). */
  function ScaleCell(c: Cell, factor: real): (s: Cell)
    ensures s.None? <==> c.None?
    ensures c.Some? ==> s.value == c.value * factor
  {
    match c
    case None => None
    case Some(v) => Some(v * factor)
  }

  /** `df_consumo.copy() * 1000`: every cell scaled, labels and shape kept. */
  function ScaleTable(t: YearTable, factor: real): (s: YearTable)
    requires WellFormed(t)
    ensures WellFormed(s) && s.years == t.years && |s.rows| == |t.rows|
    ensures forall r :: 0 <= r < |t.rows| ==> s.rows[r].name == t.rows[r].name
    ensures forall r, j :: 0 <= r < |t.rows| && 0 <= j < |t.years| ==>
      s.rows[r].cells[j] == ScaleCell(t.rows[r].cells[j], factor)
  {
    YearTable(t.years, seq(|t.rows|, r requires 0 <= r < |t.rows| =>
      Row(t.rows[r].name, seq(|t.years|, j requires 0 <= j < |t.years| => ScaleCell(t.rows[r].cells[j], factor)))))
  }

  /** The conversion loses nothing: converting the MWh table back to GWh
      gives the consumption table that was converted. */
  lemma ScaleTableInverse(t: YearTable)
    requires WellFormed(t)
    ensures ScaleTable(ScaleTable(t, MWhPerGWh), 1.0 / MWhPerGWh) == t
  {
    var once := ScaleTable(t, MWhPerGWh);
    var back := ScaleTable(once, 1.0 / MWhPerGWh);
    forall r | 0 <= r < |t.rows|
      ensures back.rows[r] == t.rows[r]
    {
      forall j | 0 <= j < |t.years|
        ensures back.rows[r].cells[j] == t.rows[r].cells[j]
      {
        assert once.rows[r].cells[j] == ScaleCell(t.rows[r].cells[j], MWhPerGWh);
        assert back.rows[r].cells[j] == ScaleCell(once.rows[r].cells[j], 1.0 / MWhPerGWh);
      }
      assert back.rows[r].cells == t.rows[r].cells;
    }
  }

  // ---------------------------------------------------------------------
  // Melt
  // ---------------------------------------------------------------------

  /** One row of a long-form table: (Estado, Año, value). */
  datatype Entry = Entry(estado: string, year: int, value: Cell)

  /** The entry melt makes of the cell in column `j`, row `r`. */
  function CellEntry(t: YearTable, j: nat, r: nat): Entry
    requires WellFormed(t) && j < |t.years| && r < |t.rows|
  {
    Entry(t.rows[r].name, t.years[j], t.rows[r].cells[j])
  }

  /** The entries of the first `n` columns, column after column, each
      column top to bottom. */
  function MeltColumns(t: YearTable, n: nat): (m: seq<Entry>)
    requires WellFormed(t) && n <= |t.years|
    ensures |m| == n * |t.rows|
  {
    if n == 0 then []
    else MeltColumns(t, n - 1) + seq(|t.rows|, r requires 0 <= r < |t.rows| => CellEntry(t, n - 1, r))
  }

  /** `reset_index().melt(id_vars="Estado", var_name="Año")`: one entry per
      cell, missing cells included. */
  function Melt(t: YearTable): (m: seq<Entry>)
    requires WellFormed(t)
    ensures |m| == |t.years| * |t.rows|
  {
    MeltColumns(t, |t.years|)
  }

  /** Melt is column-major: the cell of column `j`, row `r` is entry
      `j * rows + r`. */
  lemma {:induction false} MeltColumnsAt(t: YearTable, n: nat, j: nat, r: nat)
    requires WellFormed(t) && n <= |t.years| && j < n && r < |t.rows|
    ensures j * |t.rows| + r < |MeltColumns(t, n)|
    ensures MeltColumns(t, n)[j * |t.rows| + r] == CellEntry(t, j, r)
  {
    var R := |t.rows|;
    if j < n - 1 {
      MeltColumnsAt(t, n - 1, j, r);
    } else {
      assert j * R + r == (n - 1) * R + r;
    }
  }

  /** Every entry of the melted table is the entry of some cell. */
  lemma {:induction false} MeltColumnsDecompose(t: YearTable, n: nat, p: nat) returns (j: nat, r: nat)
    requires WellFormed(t) && n <= |t.years| && p < |MeltColumns(t, n)|
    ensures j < n && r < |t.rows| && p == j * |t.rows| + r
    ensures MeltColumns(t, n)[p] == CellEntry(t, j, r)
  {
    var R := |t.rows|;
    if p < (n - 1) * R {
      j, r := MeltColumnsDecompose(t, n - 1, p);
    } else {
      j, r := n - 1, p - (n - 1) * R;
    }
  }

  lemma MeltHasCell(t: YearTable, j: nat, r: nat)
    requires WellFormed(t) && j < |t.years| && r < |t.rows|
    ensures CellEntry(t, j, r) in Melt(t)
  {
    MeltColumnsAt(t, |t.years|, j, r);
  }

  lemma MeltEntryIsCell(t: YearTable, e: Entry) returns (j: nat, r: nat)
    requires WellFormed(t) && e in Melt(t)
    ensures j < |t.years| && r < |t.rows| && e == CellEntry(t, j, r)
  {
    var p :| 0 <= p < |Melt(t)| && Melt(t)[p] == e;
    j, r := MeltColumnsDecompose(t, |t.years|, p);
  }

  /** No two entries share a key (state, year). */
  predicate UniqueKeys(s: seq<Entry>)
  {
    forall a, b :: 0 <= a < b < |s| ==> s[a].estado != s[b].estado || s[a].year != s[b].year
  }

  /** With unique state names and distinct years, each (state, year) key
      occurs once in the melted table. */
  lemma MeltUniqueKeys(t: YearTable)
    requires WellFormed(t) && UniqueNames(t.rows) && DistinctYears(t.years)
    ensures UniqueKeys(Melt(t))
  {
    var m := Melt(t);
    forall a, b | 0 <= a < b < |m|
      ensures m[a].estado != m[b].estado || m[a].year != m[b].year
    {
      var ja, ra := MeltColumnsDecompose(t, |t.years|, a);
      var jb, rb := MeltColumnsDecompose(t, |t.years|, b);
      if ra < rb {
        assert t.rows[ra].name != t.rows[rb].name;
      } else if rb < ra {
        assert t.rows[rb].name != t.rows[ra].name;
      } else if ja < jb {
        assert t.years[ja] != t.years[jb];
      } else {
        assert t.years[jb] != t.years[ja];
      }
    }
  }

  // ---------------------------------------------------------------------
  // Full outer join on (Estado, Año)
  // ---------------------------------------------------------------------

  /** One row of the joined table; a side without the key is missing. */
  datatype Combined = Combined(estado: string, year: int, consumo: Cell, generacion: Cell)

  predicate HasKey(s: seq<Entry>, estado: string, year: int)
  {
    exists e :: e in s && e.estado == estado && e.year == year
  }

  /** The entries of `right` with the given key, in order. */
  function Matches(estado: string, year: int, right: seq<Entry>): (ms: seq<Entry>)
    ensures forall e :: e in ms <==> e in right && e.estado == estado && e.year == year
  {
    if right == [] then []
    else
      (if right[0].estado == estado && right[0].year == year then [right[0]] else [])
      + Matches(estado, year, right[1..])
  }

  /** The joined rows of one left entry: one per matching right entry, or
      one with a missing right side when nothing matches. */
  function JoinOne(l: Entry, right: seq<Entry>): (r: seq<Combined>)
    ensures |r| >= 1
    ensures forall c :: c in r ==> c.estado == l.estado && c.year == l.year && c.consumo == l.value
  {
    var ms := Matches(l.estado, l.year, right);
    if ms == [] then [Combined(l.estado, l.year, l.value, None)]
    else seq(|ms|, k requires 0 <= k < |ms| => Combined(l.estado, l.year, l.value, ms[k].value))
  }

  /** The rows of the left entries, in the left side's order: every left
      entry gives at least one row, and every row has a left entry's key. */
  function JoinLeft(left: seq<Entry>, right: seq<Entry>): (r: seq<Combined>)
    ensures |r| >= |left|
    ensures forall c :: c in r ==> HasKey(left, c.estado, c.year)
  {
    if left == [] then []
    else
      var rest := JoinLeft(left[1..], right);
      assert forall c :: c in rest ==> HasKey(left, c.estado, c.year) by {
        forall c | c in rest
          ensures HasKey(left, c.estado, c.year)
        {
          var e :| e in left[1..] && e.estado == c.estado && e.year == c.year;
          assert e in left;
        }
      }
      assert left[0] in left;
      JoinOne(left[0], right) + rest
  }

  /** The right entries whose key no left entry has, with a missing left
      side. */
  function RightOnly(left: seq<Entry>, right: seq<Entry>): (r: seq<Combined>)
    ensures |r| <= |right|
    ensures forall c :: c in r ==> c.consumo.None? && !HasKey(left, c.estado, c.year) && HasKey(right, c.estado, c.year)
  {
    if right == [] then []
    else
      (if HasKey(left, right[0].estado, right[0].year) then []
       else [Combined(right[0].estado, right[0].year, None, right[0].value)])
      + RightOnly(left, right[1..])
  }

  /** `pd.merge(left, right, on=["Estado", "Año"], how="outer")`. */
  function OuterJoin(left: seq<Entry>, right: seq<Entry>): (r: seq<Combined>)
    ensures |left| <= |r| <= |JoinLeft(left, right)| + |right|
    ensures forall c :: c in r ==> HasKey(left, c.estado, c.year) || HasKey(right, c.estado, c.year)
  {
    JoinLeft(left, right) + RightOnly(left, right)
  }

  lemma {:induction false} JoinLeftComplete(left: seq<Entry>, right: seq<Entry>, l: Entry)
    requires l in left
    ensures exists c :: c in JoinLeft(left, right) && c.estado == l.estado && c.year == l.year && c.consumo == l.value
  {
    if left[0] == l {
      var c := JoinOne(l, right)[0];
      assert c in JoinLeft(left, right);
    } else {
      JoinLeftComplete(left[1..], right, l);
    }
  }

  lemma {:induction false} JoinLeftHasRight(left: seq<Entry>, right: seq<Entry>, e: Entry)
    requires e in right && HasKey(left, e.estado, e.year)
    ensures exists c :: c in JoinLeft(left, right) && c.estado == e.estado && c.year == e.year && c.generacion == e.value
  {
    if left[0].estado == e.estado && left[0].year == e.year {
      var ms := Matches(e.estado, e.year, right);
      var k :| 0 <= k < |ms| && ms[k] == e;
      var c := JoinOne(left[0], right)[k];
      assert c in JoinLeft(left, right);
    } else {
      var l :| l in left && l.estado == e.estado && l.year == e.year;
      assert l in left[1..];
      JoinLeftHasRight(left[1..], right, e);
    }
  }

  /** What a row from the left part holds: the left entry's value, and the
      matching right entry's value or missing when no right entry has the
      key. */
  lemma {:induction false} JoinLeftSound(left: seq<Entry>, right: seq<Entry>, c: Combined)
    requires c in JoinLeft(left, right)
    ensures exists l :: l in left && l.estado == c.estado && l.year == c.year && l.value == c.consumo
    ensures (c.generacion.None? && !HasKey(right, c.estado, c.year)) ||
            exists e :: e in right && e.estado == c.estado && e.year == c.year && e.value == c.generacion
  {
    if c in JoinOne(left[0], right) {
      var l := left[0];
      var ms := Matches(l.estado, l.year, right);
      if ms == [] {
        assert c == Combined(l.estado, l.year, l.value, None);
        assert !HasKey(right, c.estado, c.year);
      } else {
        var k :| 0 <= k < |ms| && JoinOne(l, right)[k] == c;
        assert ms[k] in right;
      }
    } else {
      JoinLeftSound(left[1..], right, c);
    }
  }

  lemma {:induction false} RightOnlySound(left: seq<Entry>, right: seq<Entry>, c: Combined)
    requires c in RightOnly(left, right)
    ensures c.consumo.None? && !HasKey(left, c.estado, c.year)
    ensures exists e :: e in right && e.estado == c.estado && e.year == c.year && e.value == c.generacion
  {
    if right != [] && !HasKey(left, right[0].estado, right[0].year) &&
       c == Combined(right[0].estado, right[0].year, None, right[0].value) {
    } else {
      RightOnlySound(left, right[1..], c);
    }
  }

  lemma {:induction false} RightOnlyComplete(left: seq<Entry>, right: seq<Entry>, e: Entry)
    requires e in right && !HasKey(left, e.estado, e.year)
    ensures Combined(e.estado, e.year, None, e.value) in RightOnly(left, right)
  {
    if right[0] != e {
      RightOnlyComplete(left, right[1..], e);
    }
  }

  /** Every left entry, missing value or not, reaches the joined table with
      its value. */
  lemma OuterJoinKeepsLeft(left: seq<Entry>, right: seq<Entry>, l: Entry)
    requires l in left
    ensures exists c :: c in OuterJoin(left, right) && c.estado == l.estado && c.year == l.year && c.consumo == l.value
  {
    JoinLeftComplete(left, right, l);
  }

  /** Every right entry reaches the joined table with its value, whether or
      not some left entry shares its key. */
  lemma OuterJoinKeepsRight(left: seq<Entry>, right: seq<Entry>, e: Entry)
    requires e in right
    ensures exists c :: c in OuterJoin(left, right) && c.estado == e.estado && c.year == e.year && c.generacion == e.value
  {
    if HasKey(left, e.estado, e.year) {
      JoinLeftHasRight(left, right, e);
    } else {
      RightOnlyComplete(left, right, e);
      assert Combined(e.estado, e.year, None, e.value) in OuterJoin(left, right);
    }
  }

  /** Each side of a joined row is a value of that side's entry with the
      key, or missing because that side has no such key: an unmatched side
      is never filled with 0. */
  lemma OuterJoinSound(left: seq<Entry>, right: seq<Entry>, c: Combined)
    requires c in OuterJoin(left, right)
    ensures (c.consumo.None? && !HasKey(left, c.estado, c.year)) ||
            exists l :: l in left && l.estado == c.estado && l.year == c.year && l.value == c.consumo
    ensures (c.generacion.None? && !HasKey(right, c.estado, c.year)) ||
            exists e :: e in right && e.estado == c.estado && e.year == c.year && e.value == c.generacion
  {
    if c in JoinLeft(left, right) {
      JoinLeftSound(left, right, c);
    } else {
      RightOnlySound(left, right, c);
    }
  }

  /** No two joined rows share a key (state, year). The same condition as
      UniqueKeys, stated over joined rows rather than melted entries: the
      two record types differ, and spelling the key out on each keeps the
      quantifier free of a key-extracting lambda, which the solver handles
      poorly. */
  predicate UniqueRecordKeys(s: seq<Combined>)
  {
    forall a, b :: 0 <= a < b < |s| ==> s[a].estado != s[b].estado || s[a].year != s[b].year
  }

  lemma {:induction false} MatchesAtMostOne(estado: string, year: int, right: seq<Entry>)
    requires UniqueKeys(right)
    ensures |Matches(estado, year, right)| <= 1
  {
    if right != [] {
      var rest := right[1..];
      UniqueKeysTail(right);
      MatchesAtMostOne(estado, year, rest);
      if right[0].estado == estado && right[0].year == year {
        forall i | 0 <= i < |rest|
          ensures rest[i].estado != estado || rest[i].year != year
        {
          assert rest[i] == right[i + 1];
        }
        NoMatches(estado, year, rest);
      }
    }
  }

  lemma {:induction false} NoMatches(estado: string, year: int, s: seq<Entry>)
    requires forall i :: 0 <= i < |s| ==> s[i].estado != estado || s[i].year != year
    ensures Matches(estado, year, s) == []
  {
    if s != [] {
      NoMatches(estado, year, s[1..]);
    }
  }

  /** With unique right keys the left part has one row per left entry, in
      order, carrying that entry's key and value. */
  lemma {:induction false} JoinLeftShape(left: seq<Entry>, right: seq<Entry>)
    requires UniqueKeys(right)
    ensures |JoinLeft(left, right)| == |left|
    ensures forall i :: 0 <= i < |left| ==>
      JoinLeft(left, right)[i].estado == left[i].estado && JoinLeft(left, right)[i].year == left[i].year
  {
    if left != [] {
      MatchesAtMostOne(left[0].estado, left[0].year, right);
      JoinLeftShape(left[1..], right);
    }
  }

  /** Dropping the first entry keeps the keys unique. */
  lemma UniqueKeysTail(right: seq<Entry>)
    requires UniqueKeys(right) && right != []
    ensures UniqueKeys(right[1..])
  {
    var rest := right[1..];
    forall a, b | 0 <= a < b < |rest|
      ensures rest[a].estado != rest[b].estado || rest[a].year != rest[b].year
    {
      assert rest[a] == right[a + 1] && rest[b] == right[b + 1];
    }
  }

  /** A row whose key no later row has, put in front of rows with unique
      keys, keeps the keys unique. */
  lemma ConsUniqueRecordKeys(c: Combined, tail: seq<Combined>)
    requires UniqueRecordKeys(tail)
    requires forall b :: 0 <= b < |tail| ==> tail[b].estado != c.estado || tail[b].year != c.year
    ensures UniqueRecordKeys([c] + tail)
  {
    var all := [c] + tail;
    forall a, b | 0 <= a < b < |all|
      ensures all[a].estado != all[b].estado || all[a].year != all[b].year
    {
      assert all[b] == tail[b - 1];
      if a > 0 {
        assert all[a] == tail[a - 1];
      }
    }
  }

  /** With unique right keys, no right-only row from the later entries
      has the first entry's key. */
  lemma HeadKeyNotInTail(left: seq<Entry>, right: seq<Entry>)
    requires UniqueKeys(right) && right != []
    ensures forall b :: 0 <= b < |RightOnly(left, right[1..])| ==>
      RightOnly(left, right[1..])[b].estado != right[0].estado || RightOnly(left, right[1..])[b].year != right[0].year
  {
    var rest := right[1..];
    var tail := RightOnly(left, rest);
    forall b | 0 <= b < |tail|
      ensures tail[b].estado != right[0].estado || tail[b].year != right[0].year
    {
      assert tail[b] in tail;
      var e :| e in rest && e.estado == tail[b].estado && e.year == tail[b].year;
      var i :| 0 <= i < |rest| && rest[i] == e;
      assert right[i + 1] == e;
    }
  }

  lemma {:induction false} RightOnlyUnique(left: seq<Entry>, right: seq<Entry>)
    requires UniqueKeys(right)
    ensures UniqueRecordKeys(RightOnly(left, right))
  {
    if right != [] {
      var rest := right[1..];
      UniqueKeysTail(right);
      RightOnlyUnique(left, rest);
      var tail := RightOnly(left, rest);
      var all := RightOnly(left, right);
      if !HasKey(left, right[0].estado, right[0].year) {
        HeadKeyNotInTail(left, right);
        ConsUniqueRecordKeys(Combined(right[0].estado, right[0].year, None, right[0].value), tail);
      } else {
        assert all == tail;
      }
    }
  }

  /** With unique keys on both sides, each key occurs once in the joined
      table. */
  lemma OuterJoinUniqueKeys(left: seq<Entry>, right: seq<Entry>)
    requires UniqueKeys(left) && UniqueKeys(right)
    ensures UniqueRecordKeys(OuterJoin(left, right))
  {
    var x := JoinLeft(left, right);
    var y := RightOnly(left, right);
    JoinLeftShape(left, right);
    RightOnlyUnique(left, right);
    var all := x + y;
    forall a, b | 0 <= a < b < |all|
      ensures all[a].estado != all[b].estado || all[a].year != all[b].year
    {
      if b < |x| {
        assert left[a].estado != left[b].estado || left[a].year != left[b].year;
      } else if a >= |x| {
        assert all[a] == y[a - |x|] && all[b] == y[b - |x|];
      } else {
        assert all[b] == y[b - |x|];
        assert all[b] in y;
        RightOnlySound(left, right, all[b]);
        assert left[a] in left;
      }
    }
  }

  // ---------------------------------------------------------------------
  // The sorted list of distinct years
  // ---------------------------------------------------------------------

  predicate StrictlyIncreasing(s: seq<int>)
  {
    forall a, b :: 0 <= a < b < |s| ==> s[a] < s[b]
  }

  /** `y` put in its place in a strictly increasing list, unless the list
      already holds it. */
  function InsertSorted(s: seq<int>, y: int): (r: seq<int>)
    requires StrictlyIncreasing(s)
    ensures StrictlyIncreasing(r)
    ensures forall x :: x in r <==> x in s || x == y
  {
    if s == [] then [y]
    else if y < s[0] then [y] + s
    else if y == s[0] then s
    else
      var rest := InsertSorted(s[1..], y);
      assert forall k :: 0 <= k < |rest| ==> rest[k] in rest;
      [s[0]] + rest
  }

  /** `sorted(set(s))`: the values of `s` once each, ascending. */
  function SortedDistinct(s: seq<int>): (r: seq<int>)
    ensures StrictlyIncreasing(r)
    ensures forall x :: x in r <==> x in s
  {
    if s == [] then [] else InsertSorted(SortedDistinct(s[..|s| - 1]), s[|s| - 1])
  }

  /** A non-empty list holds its first element (stated without a
      precondition so that it can be used in a branch that turns out
      impossible). */
  lemma HeadIn(s: seq<int>)
    ensures s != [] ==> s[0] in s
  {
  }

  /** A strictly increasing list is determined by its values: any other way
      of sorting the distinct years gives the same list. */
  lemma {:induction false} StrictlyIncreasingUnique(a: seq<int>, b: seq<int>)
    requires StrictlyIncreasing(a) && StrictlyIncreasing(b)
    requires forall x :: x in a <==> x in b
    ensures a == b
  {
    if a == [] {
      if b != [] {
        HeadIn(b);
        assert false;
      }
    } else {
      assert a[0] in b && b[0] in a;
      assert b != [];
      assert a[0] == b[0];
      forall x
        ensures x in a[1..] <==> x in b[1..]
      {
        if x in a[1..] {
          assert x in b;
          assert x != b[0];
        }
        if x in b[1..] {
          assert x in a;
          assert x != a[0];
        }
      }
      StrictlyIncreasingUnique(a[1..], b[1..]);
    }
  }

  /** `sorted(df_comb["Año"].dropna().unique().tolist())`; the year of a
      joined row is never missing. */
  function YearsOf(comb: seq<Combined>): (ys: seq<int>)
    ensures StrictlyIncreasing(ys)
    ensures forall y :: y in ys <==> exists c :: c in comb && c.year == y
  {
    var all := seq(|comb|, i requires 0 <= i < |comb| => comb[i].year);
    assert forall y :: y in all <==> exists c :: c in comb && c.year == y by {
      forall c | c in comb
        ensures c.year in all
      {
        var i :| 0 <= i < |comb| && comb[i] == c;
        assert all[i] == c.year;
      }
      forall y | y in all
        ensures exists c :: c in comb && c.year == y
      {
        var i :| 0 <= i < |all| && all[i] == y;
        assert comb[i] in comb;
      }
    }
    SortedDistinct(all)
  }

  // ---------------------------------------------------------------------
  // The whole reshape
  // ---------------------------------------------------------------------

  /** `df_comb`: consumption (in MWh) and generation, melted and joined. */
  function CombineTables(consumo: YearTable, generacion: YearTable): (r: seq<Combined>)
    requires WellFormed(consumo) && WellFormed(generacion)
    ensures |r| >= |consumo.years| * |consumo.rows|
  {
    OuterJoin(Melt(ScaleTable(consumo, MWhPerGWh)), Melt(generacion))
  }

  /** Every consumption cell reaches the joined table, times 1000. */
  lemma CombinedKeepsConsumption(consumo: YearTable, generacion: YearTable, j: nat, r: nat)
    requires WellFormed(consumo) && WellFormed(generacion)
    requires j < |consumo.years| && r < |consumo.rows|
    ensures exists c :: (c in CombineTables(consumo, generacion) &&
      c.estado == consumo.rows[r].name && c.year == consumo.years[j] &&
      c.consumo == ScaleCell(consumo.rows[r].cells[j], MWhPerGWh))
  {
    var scaled := ScaleTable(consumo, MWhPerGWh);
    MeltHasCell(scaled, j, r);
    OuterJoinKeepsLeft(Melt(scaled), Melt(generacion), CellEntry(scaled, j, r));
  }

  /** Every generation cell reaches the joined table unchanged. */
  lemma CombinedKeepsGeneration(consumo: YearTable, generacion: YearTable, j: nat, r: nat)
    requires WellFormed(consumo) && WellFormed(generacion)
    requires j < |generacion.years| && r < |generacion.rows|
    ensures exists c :: (c in CombineTables(consumo, generacion) &&
      c.estado == generacion.rows[r].name && c.year == generacion.years[j] &&
      c.generacion == generacion.rows[r].cells[j])
  {
    var scaled := ScaleTable(consumo, MWhPerGWh);
    MeltHasCell(generacion, j, r);
    OuterJoinKeepsRight(Melt(scaled), Melt(generacion), CellEntry(generacion, j, r));
  }

  /** The consumption side of a joined row is the scaled consumption cell
      with its key, or missing because consumption has no cell with that
      key. */
  lemma CombinedConsumptionSide(consumo: YearTable, generacion: YearTable, c: Combined)
    requires WellFormed(consumo) && WellFormed(generacion)
    requires c in CombineTables(consumo, generacion)
    ensures (c.consumo.None? &&
             forall j, r :: 0 <= j < |consumo.years| && 0 <= r < |consumo.rows| ==>
               consumo.rows[r].name != c.estado || consumo.years[j] != c.year) ||
            exists j, r :: 0 <= j < |consumo.years| && 0 <= r < |consumo.rows| &&
              consumo.rows[r].name == c.estado && consumo.years[j] == c.year &&
              c.consumo == ScaleCell(consumo.rows[r].cells[j], MWhPerGWh)
  {
    var scaled := ScaleTable(consumo, MWhPerGWh);
    var left := Melt(scaled);
    OuterJoinSound(left, Melt(generacion), c);
    if exists l :: l in left && l.estado == c.estado && l.year == c.year && l.value == c.consumo {
      var l :| l in left && l.estado == c.estado && l.year == c.year && l.value == c.consumo;
      var j, r := MeltEntryIsCell(scaled, l);
    } else {
      forall j, r | 0 <= j < |consumo.years| && 0 <= r < |consumo.rows|
        ensures consumo.rows[r].name != c.estado || consumo.years[j] != c.year
      {
        MeltHasCell(scaled, j, r);
      }
    }
  }

  /** The generation side of a joined row is the generation cell with its
      key, or missing because generation has no cell with that key. */
  lemma CombinedGenerationSide(consumo: YearTable, generacion: YearTable, c: Combined)
    requires WellFormed(consumo) && WellFormed(generacion)
    requires c in CombineTables(consumo, generacion)
    ensures (c.generacion.None? &&
             forall j, r :: 0 <= j < |generacion.years| && 0 <= r < |generacion.rows| ==>
               generacion.rows[r].name != c.estado || generacion.years[j] != c.year) ||
            exists j, r :: 0 <= j < |generacion.years| && 0 <= r < |generacion.rows| &&
              generacion.rows[r].name == c.estado && generacion.years[j] == c.year &&
              c.generacion == generacion.rows[r].cells[j]
  {
    var right := Melt(generacion);
    OuterJoinSound(Melt(ScaleTable(consumo, MWhPerGWh)), right, c);
    if exists e :: e in right && e.estado == c.estado && e.year == c.year && e.value == c.generacion {
      var e :| e in right && e.estado == c.estado && e.year == c.year && e.value == c.generacion;
      var j, r := MeltEntryIsCell(generacion, e);
    } else {
      forall j, r | 0 <= j < |generacion.years| && 0 <= r < |generacion.rows|
        ensures generacion.rows[r].name != c.estado || generacion.years[j] != c.year
      {
        MeltHasCell(generacion, j, r);
      }
    }
  }

  /** With unique state names and distinct years in both tables, every
      (state, year) key occurs in at most one joined row. */
  lemma CombinedUniqueKeys(consumo: YearTable, generacion: YearTable)
    requires WellFormed(consumo) && WellFormed(generacion)
    requires UniqueNames(consumo.rows) && DistinctYears(consumo.years)
    requires UniqueNames(generacion.rows) && DistinctYears(generacion.years)
    ensures UniqueRecordKeys(CombineTables(consumo, generacion))
  {
    var scaled := ScaleTable(consumo, MWhPerGWh);
    assert UniqueNames(scaled.rows) by {
      forall k, m | 0 <= k < m < |scaled.rows|
        ensures scaled.rows[k].name != scaled.rows[m].name
      {
        assert consumo.rows[k].name != consumo.rows[m].name;
      }
    }
    MeltUniqueKeys(scaled);
    MeltUniqueKeys(generacion);
    OuterJoinUniqueKeys(Melt(scaled), Melt(generacion));
  }

  /** Each animation year is a year of a table that has at least one row. */
  lemma CombinedYearsSound(consumo: YearTable, generacion: YearTable, y: int)
    requires WellFormed(consumo) && WellFormed(generacion)
    requires y in YearsOf(CombineTables(consumo, generacion))
    ensures (y in consumo.years && |consumo.rows| > 0) || (y in generacion.years && |generacion.rows| > 0)
  {
    var scaled := ScaleTable(consumo, MWhPerGWh);
    var left, right := Melt(scaled), Melt(generacion);
    var c :| c in OuterJoin(left, right) && c.year == y;
    if c in JoinLeft(left, right) {
      JoinLeftSound(left, right, c);
      var l :| l in left && l.estado == c.estado && l.year == c.year && l.value == c.consumo;
      var j, r := MeltEntryIsCell(scaled, l);
      assert consumo.years[j] == y;
    } else {
      RightOnlySound(left, right, c);
      var e :| e in right && e.estado == c.estado && e.year == c.year && e.value == c.generacion;
      var j, r := MeltEntryIsCell(generacion, e);
      assert generacion.years[j] == y;
    }
  }

  /** Each year of a table with at least one row is an animation year. */
  lemma CombinedYearsComplete(consumo: YearTable, generacion: YearTable, y: int)
    requires WellFormed(consumo) && WellFormed(generacion)
    requires (y in consumo.years && |consumo.rows| > 0) || (y in generacion.years && |generacion.rows| > 0)
    ensures y in YearsOf(CombineTables(consumo, generacion))
  {
    if y in consumo.years && |consumo.rows| > 0 {
      var j :| 0 <= j < |consumo.years| && consumo.years[j] == y;
      CombinedKeepsConsumption(consumo, generacion, j, 0);
    } else {
      var j :| 0 <= j < |generacion.years| && generacion.years[j] == y;
      CombinedKeepsGeneration(consumo, generacion, j, 0);
    }
  }
}
