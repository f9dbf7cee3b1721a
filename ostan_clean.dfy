/** The older revision of the cleaning entry point and of the date-order
    inference (src/ostan/clean_data.py). */
module OstanClean {
  import opened Common
  import opened Utils
  import Linkage
  import CleanDates

  // ---------------------------------------------------------------------------
  // Selecting rows and columns
  // ---------------------------------------------------------------------------

  /** The positions below `n` of the elements `keep` accepts, in order. */
  function Positions<T>(xs: seq<T>, keep: T -> bool, n: nat): (p: seq<nat>)
    requires n <= |xs|
    ensures forall t :: 0 <= t < |p| ==> p[t] < n && keep(xs[p[t]])
    ensures forall s, t :: 0 <= s < t < |p| ==> p[s] < p[t]
  {
    if n == 0 then [] else Positions(xs, keep, n - 1) + (if keep(xs[n - 1]) then [n - 1] else [])
  }

  lemma {:induction false} PositionsIff<T>(xs: seq<T>, keep: T -> bool, n: nat, i: nat)
    requires n <= |xs|
    ensures i in Positions(xs, keep, n) <==> i < n && keep(xs[i])
  {
    if n > 0 {
      PositionsIff(xs, keep, n - 1, i);
    }
  }

  /** When `keep` accepts everything below `n`, the positions are 0, 1, ..., n - 1. */
  lemma {:induction false} PositionsAll<T>(xs: seq<T>, keep: T -> bool, n: nat)
    requires n <= |xs| && forall i :: 0 <= i < n ==> keep(xs[i])
    ensures |Positions(xs, keep, n)| == n && forall t :: 0 <= t < n ==> Positions(xs, keep, n)[t] == t
  {
    if n > 0 {
      PositionsAll(xs, keep, n - 1);
    }
  }

  /** When `keep` accepts nothing below `n`, there are no positions. */
  lemma {:induction false} PositionsNone<T>(xs: seq<T>, keep: T -> bool, n: nat)
    requires n <= |xs| && forall i :: 0 <= i < n ==> !keep(xs[i])
    ensures Positions(xs, keep, n) == []
  {
    if n > 0 {
      PositionsNone(xs, keep, n - 1);
    }
  }

  predicate NoNa(cells: seq<Cell>)
  {
    NA !in cells
  }

  predicate AllNa(cells: seq<Cell>)
  {
    forall k :: 0 <= k < |cells| ==> cells[k] == NA
  }

  predicate NotAllNa(cells: seq<Cell>)
  {
    !AllNa(cells)
  }

  function Columns(f: Frame): (cs: seq<seq<Cell>>)
    requires f.Valid()
    ensures |cs| == |f.names|
  {
    seq(|f.names|, j requires 0 <= j < |f.names| => f.Column(j))
  }

  /** The table restricted to the rows at the positions `p`. */
  function KeepRows(f: Frame, p: seq<nat>): (r: Frame)
    requires forall t :: 0 <= t < |p| ==> p[t] < |f.rows|
    ensures f.Valid() ==> r.Valid()
  {
    Frame(f.names, f.dtypes, Pick(f.rows, p))
  }

  /** The table restricted to the columns at the positions `p`. */
  function KeepColumns(f: Frame, p: seq<nat>): (r: Frame)
    requires f.Valid() && forall t :: 0 <= t < |p| ==> p[t] < |f.names|
    ensures r.Valid() && |r.rows| == |f.rows| && r.names == Pick(f.names, p)
    ensures forall i :: 0 <= i < |f.rows| ==> r.rows[i] == Pick(f.rows[i], p)
  {
    var rows := seq(|f.rows|, i requires 0 <= i < |f.rows| => assert f.rows[i] in f.rows; Pick(f.rows[i], p));
    assert forall row :: row in rows ==> |row| == |p|;
    Frame(Pick(f.names, p), Pick(f.dtypes, p), rows)
  }

  // ---------------------------------------------------------------------------
  // clean_data (lines 39-73)
  // ---------------------------------------------------------------------------

  /** `any(df.isna().all(axis=0)) or any(df.isna().all(axis=1))`. */
  predicate HasEmptyLine(f: Frame)
    requires f.Valid()
  {
    (exists j :: 0 <= j < |f.names| && AllNa(f.Column(j))) ||
    (exists i :: 0 <= i < |f.rows| && AllNa(f.rows[i]))
  }

  /** `df.dropna(axis=0)`: the rows without a missing value. */
  function DropNaRows(f: Frame): Frame
  {
    KeepRows(f, Positions(f.rows, NoNa, |f.rows|))
  }

  /** `df.dropna(axis=1)`: the columns without a missing value. */
  function DropNaColumns(f: Frame): Frame
    requires f.Valid()
  {
    KeepColumns(f, Positions(Columns(f), NoNa, |f.names|))
  }

  /** `dropna(axis=0, how="all")`: the rows with some value. */
  function DropEmptyRows(f: Frame): Frame
  {
    KeepRows(f, Positions(f.rows, NotAllNa, |f.rows|))
  }

  /** `dropna(axis=1, how="all")`: the columns with some value. */
  function DropEmptyColumns(f: Frame): Frame
    requires f.Valid()
  {
    KeepColumns(f, Positions(Columns(f), NotAllNa, |f.names|))
  }

  function SetOf(s: seq<string>): set<string>
  {
    set x | x in s
  }

  /** The duplicated-name warning: given when the names are not all distinct, and
      listing the names counted more than once. */
  function DuplicateReport(names: seq<string>): set<string>
  {
    if |SetOf(names)| != |names| then Linkage.DuplicatedNames(names) else {}
  }

  /** The cleaned table, whether empty rows or columns were reported removed, and
      the names the duplicated-name warning lists. */
  datatype Cleaned = Cleaned(frame: Frame, removed: bool, duplicated: set<string>)

  /** As written: finding an empty row or column, the default `dropna()` drops every
      row holding any missing value, and then no column is left to drop. */
  function CleanAsWritten(v: PyValue): (r: Result<Cleaned>)
    requires v.PyFrame? ==> v.frame.Valid()
    ensures r.Err? <==> !(v.PyFrame? && |v.frame.rows| > 0 && |v.frame.names| > 0)
    ensures r.Ok? ==> r.value.removed == HasEmptyLine(v.frame)
    ensures r.Ok? && !r.value.removed ==> r.value.frame == v.frame
    ensures r.Ok? ==> (forall x :: x in r.value.duplicated ==> x in r.value.frame.names)
  {
    if !IsNonEmptyDf(v) then Err("'df' must be non-empty pandas.DataFrame.")
    else
      var f := v.frame;
      var removed := HasEmptyLine(f);
      var g := if removed then DropNaColumns(DropNaRows(f)) else f;
      Ok(Cleaned(g, removed, DuplicateReport(g.names)))
  }

  /** Intended: only the rows and columns that are entirely empty are removed. */
  function Clean(v: PyValue): (r: Result<Cleaned>)
    requires v.PyFrame? ==> v.frame.Valid()
    ensures r.Err? <==> !(v.PyFrame? && |v.frame.rows| > 0 && |v.frame.names| > 0)
    ensures r.Ok? ==> r.value.removed == HasEmptyLine(v.frame)
    ensures r.Ok? && !r.value.removed ==> r.value.frame == v.frame
    ensures r.Ok? ==> (forall x :: x in r.value.duplicated ==> x in r.value.frame.names)
  {
    if !IsNonEmptyDf(v) then Err("'df' must be non-empty pandas.DataFrame.")
    else
      var f := v.frame;
      var removed := HasEmptyLine(f);
      var g := if removed then DropEmptyColumns(DropEmptyRows(f)) else f;
      Ok(Cleaned(g, removed, DuplicateReport(g.names)))
  }

  /** Both versions refuse exactly what is not a table with a row and a column. */
  lemma CleanRejects(v: PyValue)
    requires v.PyFrame? ==> v.frame.Valid()
    ensures CleanAsWritten(v).Err? <==> !(v.PyFrame? && |v.frame.rows| > 0 && |v.frame.names| > 0)
    ensures Clean(v).Err? <==> !(v.PyFrame? && |v.frame.rows| > 0 && |v.frame.names| > 0)
  {
  }

  lemma {:induction false} SetOfBound(s: seq<string>)
    ensures |SetOf(s)| <= |s|
  {
    if s != [] {
      SetOfBound(s[1..]);
      assert SetOf(s) == {s[0]} + SetOf(s[1..]);
    }
  }

  /** The check at line 56 fires exactly when some name is counted more than once. */
  lemma {:induction false} DistinctIff(s: seq<string>)
    ensures |SetOf(s)| == |s| <==> Linkage.DuplicatedNames(s) == {}
  {
    if s != [] {
      var t := s[1..];
      DistinctIff(t);
      SetOfBound(t);
      assert SetOf(s) == {s[0]} + SetOf(t);
      Linkage.CountIn(t, s[0]);
      if s[0] in t {
        assert s[0] in Linkage.DuplicatedNames(s);
      } else {
        forall x
          ensures x in Linkage.DuplicatedNames(s) <==> x in Linkage.DuplicatedNames(t)
        {
          Linkage.CountIn(t, x);
        }
      }
    }
  }

  /** The warning lists exactly the names counted more than once. */
  lemma DuplicateReportLists(names: seq<string>, x: string)
    ensures x in DuplicateReport(names) <==> x in names && Count(names, x) > 1
  {
    DistinctIff(names);
  }

  /** The second `dropna` of the written version removes nothing. */
  lemma DropNaColumnsAfterRows(f: Frame)
    requires f.Valid()
    ensures DropNaColumns(DropNaRows(f)) == DropNaRows(f)
  {
    var g := DropNaRows(f);
    var cs := Columns(g);
    forall j | 0 <= j < |g.names|
      ensures NoNa(cs[j])
    {
      forall i | 0 <= i < |g.rows|
        ensures cs[j][i] != NA
      {
        var p := Positions(f.rows, NoNa, |f.rows|);
        assert g.rows[i] == f.rows[p[i]];
        assert g.rows[i][j] in g.rows[i];
      }
    }
    PositionsAll(cs, NoNa, |g.names|);
    var q := Positions(cs, NoNa, |g.names|);
    PickAll(g.names, q);
    PickAll(g.dtypes, q);
    forall i | 0 <= i < |g.rows|
      ensures Pick(g.rows[i], q) == g.rows[i]
    {
      assert g.rows[i] in g.rows;
      PickAll(g.rows[i], q);
    }
  }

  /** As written, once an empty line is found the result keeps the columns and
      exactly the rows without a missing value. */
  lemma CleanAsWrittenKeepsCompleteRows(f: Frame, i: nat)
    requires f.Valid() && IsNonEmptyDf(PyFrame(f)) && HasEmptyLine(f) && i < |f.rows|
    ensures CleanAsWritten(PyFrame(f)).value.frame.names == f.names
    ensures f.rows[i] in CleanAsWritten(PyFrame(f)).value.frame.rows <==> NoNa(f.rows[i])
  {
    DropNaColumnsAfterRows(f);
    var p := Positions(f.rows, NoNa, |f.rows|);
    var rows := Pick(f.rows, p);
    PositionsIff(f.rows, NoNa, |f.rows|, i);
    if NoNa(f.rows[i]) {
      var t :| 0 <= t < |p| && p[t] == i;
      assert rows[t] == f.rows[i];
    }
    if f.rows[i] in rows {
      var t :| 0 <= t < |rows| && rows[t] == f.rows[i];
      assert NoNa(f.rows[p[t]]);
    }
  }

  /** As written, a table with one entirely empty column loses every row. */
  lemma EmptyColumnEmptiesTable(f: Frame, j: nat)
    requires f.Valid() && IsNonEmptyDf(PyFrame(f)) && j < |f.names| && AllNa(f.Column(j))
    ensures CleanAsWritten(PyFrame(f)).value.removed
    ensures CleanAsWritten(PyFrame(f)).value.frame.rows == []
  {
    DropNaColumnsAfterRows(f);
    forall i | 0 <= i < |f.rows|
      ensures !NoNa(f.rows[i])
    {
      assert f.Column(j)[i] == NA;
      assert f.rows[i] in f.rows;
      assert f.rows[i][j] == NA;
    }
    PositionsNone(f.rows, NoNa, |f.rows|);
  }

  /** The rows the intended version keeps. */
  function RowsKept(f: Frame): seq<nat>
  {
    Positions(f.rows, NotAllNa, |f.rows|)
  }

  /** The columns the intended version keeps. */
  function ColumnsKept(f: Frame): seq<nat>
    requires f.Valid()
  {
    var g := DropEmptyRows(f);
    Positions(Columns(g), NotAllNa, |g.names|)
  }

  /** Intended, a row is kept exactly when it holds a value. */
  lemma RowsKeptIff(f: Frame, i: nat)
    requires i < |f.rows|
    ensures i in RowsKept(f) <==> !AllNa(f.rows[i])
  {
    PositionsIff(f.rows, NotAllNa, |f.rows|, i);
  }

  /** Intended, a column is kept exactly when it holds a value: the rows removed
      first are empty in every column. */
  lemma ColumnsKeptIff(f: Frame, j: nat)
    requires f.Valid() && j < |f.names|
    ensures j in ColumnsKept(f) <==> !AllNa(f.Column(j))
  {
    var g := DropEmptyRows(f);
    var p := RowsKept(f);
    PositionsIff(Columns(g), NotAllNa, |g.names|, j);
    assert Columns(g)[j] == g.Column(j);
    if !AllNa(f.Column(j)) {
      var i :| 0 <= i < |f.rows| && f.Column(j)[i] != NA;
      assert f.rows[i] in f.rows;
      assert f.rows[i][j] != NA;
      RowsKeptIff(f, i);
      var t :| 0 <= t < |p| && p[t] == i;
      assert g.rows[t] == f.rows[i];
      assert g.Column(j)[t] != NA;
    }
    if !AllNa(g.Column(j)) {
      var t :| 0 <= t < |g.rows| && g.Column(j)[t] != NA;
      assert g.rows[t] == f.rows[p[t]];
      assert g.rows[t] in g.rows;
      assert f.rows[p[t]] in f.rows;
      assert f.Column(j)[p[t]] != NA;
    }
  }

  /** Intended, the cleaned table has no empty row and no empty column left. */
  lemma CleanLeavesNoEmptyLine(f: Frame)
    requires f.Valid() && |f.rows| > 0 && |f.names| > 0
    ensures !HasEmptyLine(Clean(PyFrame(f)).value.frame)
  {
    if HasEmptyLine(f) {
      var p := RowsKept(f);
      var g := DropEmptyRows(f);
      var c := ColumnsKept(f);
      var h := DropEmptyColumns(g);
      assert Clean(PyFrame(f)).value.frame == h;
      forall j | 0 <= j < |h.names|
        ensures !AllNa(h.Column(j))
      {
        var k := c[j];
        assert Columns(g)[k] == g.Column(k);
        var t :| 0 <= t < |g.rows| && g.Column(k)[t] != NA;
        assert g.rows[t] in g.rows;
        assert h.rows[t][j] == g.rows[t][k];
        assert h.Column(j)[t] != NA;
      }
      forall i | 0 <= i < |h.rows|
        ensures !AllNa(h.rows[i])
      {
        assert g.rows[i] == f.rows[p[i]];
        var k :| 0 <= k < |g.rows[i]| && g.rows[i][k] != NA;
        assert g.rows[i] in g.rows;
        assert g.Column(k)[i] != NA;
        assert Columns(g)[k] == g.Column(k);
        PositionsIff(Columns(g), NotAllNa, |g.names|, k);
        var t :| 0 <= t < |c| && c[t] == k;
        assert h.rows[i][t] == g.rows[i][k];
      }
    }
  }

  /** Intended, every value of the table survives the cleaning. */
  lemma CleanKeepsEveryValue(f: Frame, i: nat, j: nat)
    requires f.Valid() && i < |f.rows| && j < |f.names|
    requires f.rows[i][j] != NA
    ensures i in RowsKept(f) && j in ColumnsKept(f)
  {
    assert f.rows[i] in f.rows;
    assert f.Column(j)[i] != NA;
    RowsKeptIff(f, i);
    ColumnsKeptIff(f, j);
  }

  /** An invoice table whose `note` column is entirely empty. */
  const HalfEmpty: Frame := Frame(["supplier", "note"], [Object, Float64], [[Str("Oy"), NA]])

  /** As written, cleaning that table leaves no rows. */
  lemma HalfEmptyLosesRows()
    ensures CleanAsWritten(PyFrame(HalfEmpty)).value.frame.rows == []
  {
    assert HalfEmpty.Column(1)[0] == NA;
    EmptyColumnEmptiesTable(HalfEmpty, 1);
  }

  /** Intended, its one row is kept. */
  lemma HalfEmptyKeepsRow()
    ensures RowsKept(HalfEmpty) == [0]
  {
    var f := HalfEmpty;
    assert f.rows[0][0] == Str("Oy");
    RowsKeptIff(f, 0);
    assert Positions(f.rows, NotAllNa, 0) == [];
  }

  /** Of two columns, the one with a value is kept and the empty one dropped. */
  lemma KeepsFirstOfTwo(f: Frame)
    requires f.Valid() && |f.names| == 2 && !AllNa(f.Column(0)) && AllNa(f.Column(1))
    ensures ColumnsKept(f) == [0]
  {
    ColumnsKeptIff(f, 0);
    ColumnsKeptIff(f, 1);
    var cs := Columns(DropEmptyRows(f));
    assert Positions(cs, NotAllNa, 0) == [];
    assert Positions(cs, NotAllNa, 1) == [0];
  }

  /** Intended, its `supplier` column is kept and its `note` column dropped. */
  lemma HalfEmptyKeepsSupplier()
    ensures ColumnsKept(HalfEmpty) == [0]
  {
    var f := HalfEmpty;
    assert f.rows[0] in f.rows;
    assert f.Column(0)[0] == Str("Oy");
    assert f.Column(1)[0] == NA;
    KeepsFirstOfTwo(f);
  }

  // ---------------------------------------------------------------------------
  // __get_date_format (lines 149-207)
  // ---------------------------------------------------------------------------

  const DateSeps: set<char> := {'-', '/', '.'}

  /** The characters of `s` that are not separators. */
  function Without(s: string, seps: set<char>): string
  {
    if s == [] then [] else (if s[0] in seps then [] else [s[0]]) + Without(s[1..], seps)
  }

  /** The number of separators in `s`. */
  function SepCount(s: string, seps: set<char>): nat
  {
    if s == [] then 0 else (if s[0] in seps then 1 else 0) + SepCount(s[1..], seps)
  }

  function Concat(parts: seq<string>): string
  {
    if parts == [] then [] else parts[0] + Concat(parts[1..])
  }

  /** Splitting gives one more piece than there are separators, and the pieces
      hold the other characters in order. */
  lemma {:induction false} SplitOnPieces(s: string, seps: set<char>)
    ensures |SplitOn(s, seps)| == SepCount(s, seps) + 1
    ensures Concat(SplitOn(s, seps)) == Without(s, seps)
  {
    if s != [] {
      SplitOnPieces(s[1..], seps);
      var rest := SplitOn(s[1..], seps);
      if s[0] in seps {
        assert SplitOn(s, seps) == [""] + rest;
        assert Concat([""] + rest) == "" + Concat(rest);
      } else {
        var r := [[s[0]] + rest[0]] + rest[1..];
        assert SplitOn(s, seps) == r;
        assert r[1..] == rest[1..];
        assert Concat(rest) == rest[0] + Concat(rest[1..]);
      }
    }
  }

  /** The number of columns `str.split(expand=True)` produces. */
  function MaxParts(parts: seq<seq<string>>): (n: nat)
    ensures forall i :: 0 <= i < |parts| ==> |parts[i]| <= n
    ensures n == 0 || exists i :: 0 <= i < |parts| && |parts[i]| == n
  {
    if parts == [] then 0
    else
      var m := MaxParts(parts[..|parts| - 1]);
      var last := |parts[|parts| - 1]|;
      if last > m then last else m
  }

  /** `dropna()` after the split: the rows that split into `n` pieces. */
  function Complete(parts: seq<seq<string>>, n: nat): (rows: seq<seq<string>>)
    ensures forall t :: 0 <= t < |rows| ==> |rows[t]| == n
  {
    Pick(parts, Positions(parts, (p: seq<string>) => |p| == n, |parts|))
  }

  /** `col.astype(str).str.split(r"[-/.]", expand=True).dropna()`, column by column. */
  function SplitTable(values: seq<Cell>): (cols: seq<seq<Cell>>)
  {
    var parts := seq(|values|, i requires 0 <= i < |values| => SplitOn(StrForm(values[i]), DateSeps));
    var n := MaxParts(parts);
    var rows := Complete(parts, n);
    seq(n, j requires 0 <= j < n => seq(|rows|, i requires 0 <= i < |rows| => Str(rows[i][j])))
  }

  /** The flags of this revision: the year decides `yearfirst`, and the day must sit
      at position 1 after a leading year, or else at position 2. */
  function OldFlags(labels: seq<CleanDates.DatePart>, dayfirst: bool, yearfirst: bool): CleanDates.DateOrder
  {
    if CleanDates.Year in labels && CleanDates.Month in labels && CleanDates.Day in labels then
      var yf := IndexOf(labels, CleanDates.Year) == 0;
      var df := (yf && IndexOf(labels, CleanDates.Day) == 1) || (!yf && IndexOf(labels, CleanDates.Day) == 2);
      CleanDates.DateOrder(Some(df), Some(yf))
    else
      CleanDates.DateOrder(Some(dayfirst), Some(yearfirst))
  }

  /** The flags `__get_date_format` returns. */
  function DateFormat(values: seq<Cell>, dayfirst: bool, yearfirst: bool): CleanDates.DateOrder
  {
    var cols := SplitTable(values);
    if |cols| > 1 then
      OldFlags(CleanDates.Labels(seq(|cols|, j requires 0 <= j < |cols| => CleanDates.ToNumeric(cols[j]))),
               dayfirst, yearfirst)
    else CleanDates.DateOrder(Some(dayfirst), Some(yearfirst))
  }

  /** `__get_date_format`: the split columns are converted in place, labelled one
      by one, and the flags follow from the labels. */
  method GetDateFormat(values: seq<Cell>, dayfirst: bool, yearfirst: bool) returns (r: CleanDates.DateOrder)
    ensures r == DateFormat(values, dayfirst, yearfirst)
  {
    var cols := SplitTable(values);
    if |cols| > 1 {
      var a := new seq<Cell>[|cols|](j requires 0 <= j < |cols| => cols[j]);
      CleanDates.ConvertNumericColumns(a);
      assert a[..] == seq(|cols|, j requires 0 <= j < |cols| => CleanDates.ToNumeric(cols[j]));
      var labels := CleanDates.LabelColumns(a[..]);
      assert labels == CleanDates.Labels(a[..]);
      r := OldFlags(labels, dayfirst, yearfirst);
    } else {
      r := CleanDates.DateOrder(Some(dayfirst), Some(yearfirst));
    }
  }

  /** Dates without a separator leave the flags as given. */
  lemma NoSeparatorKeepsFlags(values: seq<Cell>, dayfirst: bool, yearfirst: bool)
    requires forall i :: 0 <= i < |values| ==> SepCount(StrForm(values[i]), DateSeps) == 0
    ensures DateFormat(values, dayfirst, yearfirst) == CleanDates.DateOrder(Some(dayfirst), Some(yearfirst))
  {
    var parts := seq(|values|, i requires 0 <= i < |values| => SplitOn(StrForm(values[i]), DateSeps));
    forall i | 0 <= i < |values|
      ensures |parts[i]| == 1
    {
      SplitOnPieces(StrForm(values[i]), DateSeps);
    }
    assert |SplitTable(values)| == MaxParts(parts);
  }

  /** For three columns labelled year, day and month at distinct positions `y`, `d`,
      `m`, this revision says the year is first when `y` is 0, and the day first when
      it sits at 1 behind a leading year or at 2 otherwise. */
  lemma OldFlagsLayout(labels: seq<CleanDates.DatePart>, y: nat, d: nat, m: nat, dayfirst: bool, yearfirst: bool)
    requires |labels| == 3 && y < 3 && d < 3 && m < 3 && y != d && d != m && y != m
    requires labels[y] == CleanDates.Year && labels[d] == CleanDates.Day && labels[m] == CleanDates.Month
    ensures OldFlags(labels, dayfirst, yearfirst)
         == CleanDates.DateOrder(Some((y == 0 && d == 1) || (y != 0 && d == 2)), Some(y == 0))
  {
    assert labels[y] in labels && labels[d] in labels && labels[m] in labels;
    assert IndexOf(labels, CleanDates.Year) == y by {
      assert labels[d] != CleanDates.Year && labels[m] != CleanDates.Year;
    }
    assert IndexOf(labels, CleanDates.Day) == d by {
      assert labels[y] != CleanDates.Day && labels[m] != CleanDates.Day;
    }
  }

  /** This revision and the newer one agree exactly when the three parts are not all
      present, the year comes first, or the day is at neither position 0 nor 2. */
  lemma OldFlagsAgreeIff(labels: seq<CleanDates.DatePart>, dayfirst: bool, yearfirst: bool)
    ensures OldFlags(labels, dayfirst, yearfirst) == CleanDates.FlagsWithSep(labels, Some(dayfirst), Some(yearfirst))
      <==> !(CleanDates.Year in labels && CleanDates.Month in labels && CleanDates.Day in labels) ||
           IndexOf(labels, CleanDates.Year) == 0 ||
           (IndexOf(labels, CleanDates.Day) != 0 && IndexOf(labels, CleanDates.Day) != 2)
  {
  }

  /** Day-month-year dates, such as 31.12.2022: this revision reports that the day
      does not come first. */
  lemma DayMonthYearMisread()
    ensures OldFlags([CleanDates.Day, CleanDates.Month, CleanDates.Year], true, false)
         == CleanDates.DateOrder(Some(false), Some(false))
  {
    OldFlagsLayout([CleanDates.Day, CleanDates.Month, CleanDates.Year], 2, 0, 1, true, false);
  }

  /** The newer revision reads them as day first. */
  lemma DayMonthYearRecognised()
    ensures CleanDates.FlagsWithSep([CleanDates.Day, CleanDates.Month, CleanDates.Year], Some(true), Some(false))
         == CleanDates.DateOrder(Some(true), Some(false))
  {
    CleanDates.FlagsWithSepRecognisesLayout([CleanDates.Day, CleanDates.Month, CleanDates.Year], 2, 0, 1,
                                            Some(true), Some(false));
  }
}
