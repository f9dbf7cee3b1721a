/** The de-duplicating helpers of src/osta/clean_data.py: the organisation data
    check, which flags empty, duplicated or badly identified organisations, and the
    year subsetting of a reference table. Both rest on pandas' `drop_duplicates`,
    which keeps the first of the rows that share a key. */
module Subsets {
  import opened Common
  import opened Utils
  import opened Linkage

  // ---------------------------------------------------------------------------
  // drop_duplicates(keep="first")
  // ---------------------------------------------------------------------------

  /** The positions below `n` whose key does not occur earlier, in increasing order. */
  function KeepFirst<K(==)>(keys: seq<K>, n: nat): (r: seq<nat>)
    requires n <= |keys|
    ensures forall t :: 0 <= t < |r| ==> r[t] < n
  {
    if n == 0 then []
    else KeepFirst(keys, n - 1) + (if keys[n - 1] in keys[..n - 1] then [] else [n - 1])
  }

  /** A position is kept exactly when its key is new. */
  lemma {:induction false} KeptIff<K>(keys: seq<K>, n: nat, i: nat)
    requires n <= |keys|
    ensures i in KeepFirst(keys, n) <==> i < n && keys[i] !in keys[..i]
  {
    if n > 0 {
      KeptIff(keys, n - 1, i);
    }
  }

  /** The kept positions keep the input order. */
  lemma {:induction false} KeptIncreasing<K>(keys: seq<K>, n: nat)
    requires n <= |keys|
    ensures forall s, t :: 0 <= s < t < |KeepFirst(keys, n)| ==> KeepFirst(keys, n)[s] < KeepFirst(keys, n)[t]
  {
    if n > 0 {
      KeptIncreasing(keys, n - 1);
    }
  }

  /** Every key below `n` is represented by its first occurrence. */
  lemma KeptCovers<K>(keys: seq<K>, n: nat, i: nat)
    requires i < n <= |keys|
    ensures exists t :: 0 <= t < |KeepFirst(keys, n)| && keys[KeepFirst(keys, n)[t]] == keys[i] && KeepFirst(keys, n)[t] <= i
  {
    var r := KeepFirst(keys, n);
    var j := IndexOf(keys[..i + 1], keys[i]);
    assert keys[..i + 1][..j] == keys[..j];
    KeptIff(keys, n, j);
    var t :| 0 <= t < |r| && r[t] == j;
  }

  /** No two kept positions share a key. */
  lemma KeptDistinct<K>(keys: seq<K>, n: nat)
    requires n <= |keys|
    ensures forall s, t :: 0 <= s < |KeepFirst(keys, n)| && 0 <= t < |KeepFirst(keys, n)| && s != t ==>
      keys[KeepFirst(keys, n)[s]] != keys[KeepFirst(keys, n)[t]]
  {
    var r := KeepFirst(keys, n);
    KeptIncreasing(keys, n);
    forall s, t | 0 <= s < |r| && 0 <= t < |r| && s != t
      ensures keys[r[s]] != keys[r[t]]
    {
      var lo, hi := if s < t then s else t, if s < t then t else s;
      KeptIff(keys, n, r[hi]);
      assert keys[..r[hi]][r[lo]] == keys[r[lo]];
    }
  }

  // ---------------------------------------------------------------------------
  // __check_org_data
  // ---------------------------------------------------------------------------

  const IdColumns: seq<string> := ["org_id", "suppl_id"]
  const NameColumns: seq<string> := ["org_name", "suppl_name"]
  const NumberColumns: seq<string> := ["org_number", "suppl_number"]

  /** `[x for x in cols if x in names]`. */
  function Present(cols: seq<string>, names: seq<string>): (r: seq<string>)
    ensures forall x :: x in r <==> x in cols && x in names
  {
    if cols == [] then []
    else
      var last := cols[|cols| - 1];
      assert cols == cols[..|cols| - 1] + [last];
      Present(cols[..|cols| - 1], names) + (if last in names then [last] else [])
  }

  /** `df.loc[:, sel]` for one row; a label reads the first column carrying it. */
  function SelectCells(row: seq<Cell>, names: seq<string>, sel: seq<string>): (r: seq<Cell>)
    requires |row| == |names| && forall x :: x in sel ==> x in names
    ensures |r| == |sel|
  {
    seq(|sel|, t requires 0 <= t < |sel| => row[IndexOf(names, sel[t])])
  }

  function ColumnOf(rows: seq<seq<Cell>>, k: nat): (c: seq<Cell>)
    requires forall i :: 0 <= i < |rows| ==> k < |rows[i]|
    ensures |c| == |rows|
  {
    seq(|rows|, i requires 0 <= i < |rows| => rows[i][k])
  }

  /** `Series.duplicated()` at `t`: the value was seen at an earlier position. */
  predicate RepeatsEarlier(col: seq<Cell>, t: nat)
    requires t < |col|
  {
    exists s :: 0 <= s < t && HashKey(col[s]) == HashKey(col[t])
  }

  /** `val in col[col.duplicated()].values` for the value at `i`. */
  predicate DupFlag(col: seq<Cell>, i: nat)
    requires i < |col|
  {
    exists t :: 0 <= t < |col| && RepeatsEarlier(col, t) && CellEq(col[t], col[i])
  }

  /** A value is flagged as duplicated exactly when it is present and some other
      position holds an equal value. */
  lemma DupFlagIff(col: seq<Cell>, i: nat)
    requires i < |col|
    ensures DupFlag(col, i) <==> col[i] != NA && exists j :: 0 <= j < |col| && j != i && CellEq(col[j], col[i])
  {
    if DupFlag(col, i) {
      var t :| 0 <= t < |col| && RepeatsEarlier(col, t) && CellEq(col[t], col[i]);
      var s :| 0 <= s < t && HashKey(col[s]) == HashKey(col[t]);
      assert col[s] != NA;
      if t != i {
        assert CellEq(col[t], col[i]);
      } else {
        assert CellEq(col[s], col[i]);
      }
    }
    if col[i] != NA && exists j :: 0 <= j < |col| && j != i && CellEq(col[j], col[i]) {
      var j :| 0 <= j < |col| && j != i && CellEq(col[j], col[i]);
      if j < i {
        assert RepeatsEarlier(col, i);
        assert CellEq(col[i], col[i]);
      } else {
        assert RepeatsEarlier(col, j);
      }
    }
  }

  /** `[x for x in cands if x in sel][0]`, when some candidate is selected. */
  function FirstPresent(cands: seq<string>, sel: seq<string>): (r: Option<string>)
    ensures r.Some? <==> exists x :: x in cands && x in sel
    ensures r.Some? ==> r.value in cands && r.value in sel
  {
    if cands == [] then None
    else if cands[0] in sel then Some(cands[0])
    else FirstPresent(cands[1..], sel)
  }

  /** `df[col]` for the first candidate column that is selected. */
  function ColumnNamed(sub: seq<seq<Cell>>, sel: seq<string>, cands: seq<string>): (c: Option<seq<Cell>>)
    requires Width(sub, |sel|)
    ensures c.Some? ==> |c.value| == |sub|
  {
    match FirstPresent(cands, sel)
    case None => None
    case Some(x) => Some(ColumnOf(sub, IndexOf(sel, x)))
  }

  /** The flags of the de-duplicated selection: an empty cell, an invalid or
      duplicated business ID, a duplicated name or a duplicated number. */
  function OrgFlags(sub: seq<seq<Cell>>, sel: seq<string>): (r: seq<bool>)
    requires Width(sub, |sel|)
    ensures |r| == |sub|
  {
    var bids := ColumnNamed(sub, sel, IdColumns);
    var orgNames := ColumnNamed(sub, sel, NameColumns);
    var numbers := ColumnNamed(sub, sel, NumberColumns);
    seq(|sub|, i requires 0 <= i < |sub| =>
      NA in sub[i]
      || (bids.Some? && (!AreValidBids(bids.value)[i] || DupFlag(bids.value, i)))
      || (orgNames.Some? && DupFlag(orgNames.value, i))
      || (numbers.Some? && DupFlag(numbers.value, i)))
  }

  /** The selected cells of every row. */
  function Selection(names: seq<string>, rows: seq<seq<Cell>>, sel: seq<string>): (sub: seq<seq<Cell>>)
    requires Width(rows, |names|) && forall x :: x in sel ==> x in names
    ensures |sub| == |rows| && Width(sub, |sel|)
  {
    seq(|rows|, i requires 0 <= i < |rows| => SelectCells(rows[i], names, sel))
  }

  function RowKeys(sub: seq<seq<Cell>>): (ks: seq<seq<Key>>)
    ensures |ks| == |sub|
  {
    seq(|sub|, i requires 0 <= i < |sub| => Keys(sub[i]))
  }

  /** The keys `drop_duplicates` compares the rows by: those of the cells in the
      requested columns that exist. */
  function SelectedKeys(names: seq<string>, rows: seq<seq<Cell>>, cols: seq<string>): (ks: seq<seq<Key>>)
    requires Width(rows, |names|)
    ensures |ks| == |rows|
  {
    RowKeys(Selection(names, rows, Present(cols, names)))
  }

  /** `__check_org_data`: the selection of the requested columns is de-duplicated
      and each remaining row, labelled by its position in the table, gets its flag. */
  function CheckOrgData(names: seq<string>, rows: seq<seq<Cell>>, cols: seq<string>): (r: seq<(nat, bool)>)
    requires Width(rows, |names|)
  {
    var sel := Present(cols, names);
    var sub := Selection(names, rows, sel);
    var kept := KeepFirst(SelectedKeys(names, rows, cols), |rows|);
    var flags := OrgFlags(seq(|kept|, t requires 0 <= t < |kept| => sub[kept[t]]), sel);
    seq(|kept|, t requires 0 <= t < |kept| => (kept[t], flags[t]))
  }

  /** A row of the table, restricted to the requested columns that exist. */
  function Selected(names: seq<string>, row: seq<Cell>, cols: seq<string>): seq<Cell>
    requires |row| == |names|
  {
    SelectCells(row, names, Present(cols, names))
  }

  /** The labels are the rows whose selection differs from that of every earlier
      row, in table order. */
  lemma CheckOrgDataLabels(names: seq<string>, rows: seq<seq<Cell>>, cols: seq<string>, i: nat)
    requires Width(rows, |names|)
    ensures forall s, t :: 0 <= s < t < |CheckOrgData(names, rows, cols)| ==>
      CheckOrgData(names, rows, cols)[s].0 < CheckOrgData(names, rows, cols)[t].0 < |rows|
    ensures (exists t :: 0 <= t < |CheckOrgData(names, rows, cols)| && CheckOrgData(names, rows, cols)[t].0 == i) <==>
      i < |rows| && forall j :: 0 <= j < i ==> SelectedKeys(names, rows, cols)[j] != SelectedKeys(names, rows, cols)[i]
  {
    var ks := SelectedKeys(names, rows, cols);
    var kept := KeepFirst(ks, |rows|);
    var r := CheckOrgData(names, rows, cols);
    assert |r| == |kept| && forall t :: 0 <= t < |r| ==> r[t].0 == kept[t];
    KeptIff(ks, |rows|, i);
    KeptIncreasing(ks, |rows|);
    if i < |rows| && exists j :: 0 <= j < i && ks[j] == ks[i] {
      var j :| 0 <= j < i && ks[j] == ks[i];
      assert ks[..i][j] == ks[i];
    }
  }

  /** A missing value in the selected cells always raises the flag. */
  lemma EmptyCellFlagged(names: seq<string>, rows: seq<seq<Cell>>, cols: seq<string>, t: nat)
    requires Width(rows, |names|) && t < |CheckOrgData(names, rows, cols)|
    requires CheckOrgData(names, rows, cols)[t].0 < |rows|
    requires NA in Selected(names, rows[CheckOrgData(names, rows, cols)[t].0], cols)
    ensures CheckOrgData(names, rows, cols)[t].1
  {
  }

  /** The flag of a de-duplicated row: a missing cell, an ID failing the checksum,
      or an ID, name or number that another de-duplicated row shares. */
  lemma OrgFlagsIff(sub: seq<seq<Cell>>, sel: seq<string>, i: nat)
    requires Width(sub, |sel|) && i < |sub|
    ensures OrgFlags(sub, sel)[i] <==>
      NA in sub[i]
      || (exists c :: c in IdColumns && c in sel && c == FirstPresent(IdColumns, sel).value &&
            (!IsValidBid(StrForm(sub[i][IndexOf(sel, c)])) || Shared(sub, IndexOf(sel, c), i)))
      || (exists c :: c in NameColumns && c in sel && c == FirstPresent(NameColumns, sel).value &&
            Shared(sub, IndexOf(sel, c), i))
      || (exists c :: c in NumberColumns && c in sel && c == FirstPresent(NumberColumns, sel).value &&
            Shared(sub, IndexOf(sel, c), i))
  {
    ColumnShared(sub, sel, IdColumns, i);
    ColumnShared(sub, sel, NameColumns, i);
    ColumnShared(sub, sel, NumberColumns, i);
  }

  /** Column `k` of row `i` holds a value that another row holds too. */
  predicate Shared(sub: seq<seq<Cell>>, k: nat, i: nat)
    requires i < |sub| && forall j :: 0 <= j < |sub| ==> k < |sub[j]|
  {
    sub[i][k] != NA && exists j :: 0 <= j < |sub| && j != i && CellEq(sub[j][k], sub[i][k])
  }

  lemma ColumnShared(sub: seq<seq<Cell>>, sel: seq<string>, cands: seq<string>, i: nat)
    requires Width(sub, |sel|) && i < |sub|
    ensures ColumnNamed(sub, sel, cands).Some? <==> exists c :: c in cands && c in sel
    ensures ColumnNamed(sub, sel, cands).Some? ==>
      var k := IndexOf(sel, FirstPresent(cands, sel).value);
      k < |sel| &&
      (DupFlag(ColumnNamed(sub, sel, cands).value, i) <==> Shared(sub, k, i)) &&
      (AreValidBids(ColumnNamed(sub, sel, cands).value)[i] <==> IsValidBid(StrForm(sub[i][k])))
  {
    if ColumnNamed(sub, sel, cands).Some? {
      var col := ColumnNamed(sub, sel, cands).value;
      var k := IndexOf(sel, FirstPresent(cands, sel).value);
      assert forall j :: 0 <= j < |sub| ==> col[j] == sub[j][k];
      DupFlagIff(col, i);
    }
  }

  // ---------------------------------------------------------------------------
  // __subset_data_based_on_year
  // ---------------------------------------------------------------------------

  /** The `db_year` argument: absent, one year, or a list of years. */
  datatype YearArg = NoYear | OneYear(year: int) | Years(years: seq<int>)

  function Requested(arg: YearArg): seq<int>
  {
    match arg
    case NoYear => []
    case OneYear(y) => [y]
    case Years(ys) => ys
  }

  /** `any(x == df_db["year"])`: some cell of the year column equals `x`. */
  predicate YearOccurs(col: seq<Cell>, x: int)
  {
    exists i :: 0 <= i < |col| && IntValue(col[i]) == Some(x)
  }

  /** The requested years that occur in the year column, in the requested order. */
  function Occurring(req: seq<int>, col: seq<Cell>): (r: seq<int>)
    ensures forall x :: x in r <==> x in req && YearOccurs(col, x)
  {
    if req == [] then []
    else (if YearOccurs(col, req[0]) then [req[0]] else []) + Occurring(req[1..], col)
  }

  function MinOf(xs: seq<int>): (m: int)
    requires |xs| > 0
    ensures m in xs && forall x :: x in xs ==> m <= x
  {
    if |xs| == 1 then xs[0]
    else
      var m := MinOf(xs[1..]);
      assert xs == [xs[0]] + xs[1..];
      if xs[0] <= m then xs[0] else m
  }

  function MaxOf(xs: seq<int>): (m: int)
    requires |xs| > 0
    ensures m in xs && forall x :: x in xs ==> x <= m
  {
    if |xs| == 1 then xs[0]
    else
      var m := MaxOf(xs[1..]);
      assert xs == [xs[0]] + xs[1..];
      if m <= xs[0] then xs[0] else m
  }

  /** `(year <= hi) & (year >= lo)` for one cell; a missing value compares false. */
  predicate InWindow(c: Cell, lo: int, hi: int)
  {
    IntValue(c).Some? && lo <= IntValue(c).value <= hi
  }

  /** `df_db.loc[ind, :]`: the rows whose year cell lies in the window, in order. */
  function Window(rows: seq<seq<Cell>>, y: nat, lo: int, hi: int): (r: seq<seq<Cell>>)
    requires forall i :: 0 <= i < |rows| ==> y < |rows[i]|
    ensures forall row :: row in r <==> row in rows && InWindow(row[y], lo, hi)
    ensures |r| <= |rows|
  {
    if rows == [] then []
    else
      (if InWindow(rows[0][y], lo, hi) then [rows[0]] else []) + Window(rows[1..], y, lo, hi)
  }

  /** The (number, name) key of a row. */
  function RowKey(row: seq<Cell>, a: nat, b: nat): (Key, Key)
    requires a < |row| && b < |row|
  {
    (HashKey(row[a]), HashKey(row[b]))
  }

  function PairKeys(rows: seq<seq<Cell>>, a: nat, b: nat): (ks: seq<(Key, Key)>)
    requires forall i :: 0 <= i < |rows| ==> a < |rows[i]| && b < |rows[i]|
    ensures |ks| == |rows|
  {
    seq(|rows|, i requires 0 <= i < |rows| => RowKey(rows[i], a, b))
  }

  /** `drop_duplicates(subset=["number", "name"])`. */
  function DropDuplicated(names: seq<string>, rows: seq<seq<Cell>>): (r: Result<seq<seq<Cell>>>)
    requires Width(rows, |names|)
    ensures r.Ok? <==> "number" in names && "name" in names
    ensures r.Ok? ==> Width(r.value, |names|)
    ensures r.Ok? ==> forall row :: row in r.value ==> row in rows
  {
    if "number" !in names || "name" !in names then Err("KeyError: ['number', 'name']")
    else
      var ks := PairKeys(rows, IndexOf(names, "number"), IndexOf(names, "name"));
      var kept := KeepFirst(ks, |rows|);
      Ok(seq(|kept|, t requires 0 <= t < |kept| => rows[kept[t]]))
  }

  /** A text cell, which `<=` against a year cannot order. */
  predicate HasText(col: seq<Cell>)
  {
    exists i :: 0 <= i < |col| && col[i].Str?
  }

  /** The rows of the window, with duplicates on (number, name) dropped. */
  function WindowDeduplicated(names: seq<string>, rows: seq<seq<Cell>>, y: nat, lo: int, hi: int): (r: Result<seq<seq<Cell>>>)
    requires Width(rows, |names|) && y < |names|
    ensures r.Ok? <==> "number" in names && "name" in names
    ensures r.Ok? ==> Width(r.value, |names|)
    ensures r.Ok? ==> forall row :: row in r.value ==> row in rows && InWindow(row[y], lo, hi)
  {
    var win := Window(rows, y, lo, hi);
    assert forall k :: 0 <= k < |win| ==> win[k] in win;
    DropDuplicated(names, win)
  }

  /** `__subset_data_based_on_year` with its date branch left out: the requested
      years must occur in the "year" column, the rows between the smallest and the
      largest of those that occur are kept, and duplicates on (number, name) are
      dropped, keeping the first. */
  function SubsetByYear(names: seq<string>, rows: seq<seq<Cell>>, arg: YearArg): (r: Result<seq<seq<Cell>>>)
    requires Width(rows, |names|)
    ensures r.Ok? ==> Width(r.value, |names|)
    ensures r.Ok? ==> forall row :: row in r.value ==> row in rows
    ensures arg.NoYear? ==> (r.Ok? <==> "number" in names && "name" in names)
    ensures !arg.NoYear? && "year" !in names ==> r == Err("KeyError: 'year'")
  {
    if arg.NoYear? then DropDuplicated(names, rows)
    else if "year" !in names then Err("KeyError: 'year'")
    else
      var y := IndexOf(names, "year");
      var col := ColumnOf(rows, y);
      var found := Occurring(Requested(arg), col);
      if found == [] then Err("'db_year' must be one of the following options")
      else if HasText(col) then Err("TypeError: '<=' not supported between instances of 'str' and 'int'")
      else WindowDeduplicated(names, rows, y, MinOf(found), MaxOf(found))
  }

  /** Dropping duplicates keeps rows of the input, one per (number, name) key, the
      first of each, in input order. */
  lemma DropDuplicatedKeepsFirst(names: seq<string>, rows: seq<seq<Cell>>)
    requires Width(rows, |names|) && "number" in names && "name" in names
    ensures var r := DropDuplicated(names, rows).value;
      var a, b := IndexOf(names, "number"), IndexOf(names, "name");
      (forall row :: row in r ==> row in rows)
      && (forall s, t :: 0 <= s < |r| && 0 <= t < |r| && s != t ==>
            RowKey(r[s], a, b) != RowKey(r[t], a, b))
      && (forall i :: 0 <= i < |rows| ==>
            (exists t :: 0 <= t < |r| && RowKey(r[t], a, b) == RowKey(rows[i], a, b)))
  {
    var a, b := IndexOf(names, "number"), IndexOf(names, "name");
    var ks := PairKeys(rows, a, b);
    var kept := KeepFirst(ks, |rows|);
    var r := DropDuplicated(names, rows).value;
    KeptDistinct(ks, |rows|);
    forall s, t | 0 <= s < |r| && 0 <= t < |r| && s != t
      ensures RowKey(r[s], a, b) != RowKey(r[t], a, b)
    {
      assert ks[kept[s]] != ks[kept[t]];
    }
    forall i | 0 <= i < |rows|
      ensures exists t :: 0 <= t < |r| && RowKey(r[t], a, b) == RowKey(rows[i], a, b)
    {
      KeptCovers(ks, |rows|, i);
      var t :| 0 <= t < |kept| && ks[kept[t]] == ks[i] && kept[t] <= i;
      assert r[t] == rows[kept[t]];
    }
  }

  /** Dropping duplicates picks, in table order, exactly the rows whose (number,
      name) key does not occur in an earlier row. */
  lemma DropDuplicatedFirstInOrder(names: seq<string>, rows: seq<seq<Cell>>)
    requires Width(rows, |names|) && "number" in names && "name" in names
    ensures var a, b := IndexOf(names, "number"), IndexOf(names, "name");
      var r := DropDuplicated(names, rows).value;
      var kept := KeepFirst(PairKeys(rows, a, b), |rows|);
      |r| == |kept|
      && (forall t :: 0 <= t < |r| ==> r[t] == rows[kept[t]])
      && (forall s, t :: 0 <= s < t < |kept| ==> kept[s] < kept[t])
      && (forall i :: 0 <= i < |rows| ==>
            (i in kept <==> forall j :: 0 <= j < i ==> RowKey(rows[j], a, b) != RowKey(rows[i], a, b)))
  {
    var a, b := IndexOf(names, "number"), IndexOf(names, "name");
    var ks := PairKeys(rows, a, b);
    var kept := KeepFirst(ks, |rows|);
    KeptIncreasing(ks, |rows|);
    forall i | 0 <= i < |rows|
      ensures i in kept <==> forall j :: 0 <= j < i ==> RowKey(rows[j], a, b) != RowKey(rows[i], a, b)
    {
      KeptIff(ks, |rows|, i);
      if ks[i] in ks[..i] {
        var j :| 0 <= j < i && ks[..i][j] == ks[i];
        assert RowKey(rows[j], a, b) == RowKey(rows[i], a, b);
      } else {
        forall j | 0 <= j < i ensures RowKey(rows[j], a, b) != RowKey(rows[i], a, b) {
          assert ks[..i][j] == ks[j];
        }
      }
    }
  }

  /** The subset fails exactly when the year column is missing, none of the requested
      years occurs in it, it holds text that the window comparison cannot order, or
      the (number, name) columns are missing. */
  lemma SubsetErrIff(names: seq<string>, rows: seq<seq<Cell>>, arg: YearArg)
    requires Width(rows, |names|) && !arg.NoYear?
    ensures SubsetByYear(names, rows, arg).Err? <==>
      "year" !in names
      || (forall x :: x in Requested(arg) ==> !YearOccurs(ColumnOf(rows, IndexOf(names, "year")), x))
      || HasText(ColumnOf(rows, IndexOf(names, "year")))
      || "number" !in names || "name" !in names
  {
    if "year" in names {
      var col := ColumnOf(rows, IndexOf(names, "year"));
      var found := Occurring(Requested(arg), col);
      if found != [] {
        assert found[0] in found;
      }
    }
  }

  /** The window keeps table rows inside it only, and one row for every (number,
      name) key among the table rows inside it. */
  lemma WindowDeduplicatedSpec(names: seq<string>, rows: seq<seq<Cell>>, y: nat, lo: int, hi: int)
    requires Width(rows, |names|) && y < |names| && "number" in names && "name" in names
    ensures var r := WindowDeduplicated(names, rows, y, lo, hi).value;
      var a, b := IndexOf(names, "number"), IndexOf(names, "name");
      (forall row :: row in r ==> row in rows && InWindow(row[y], lo, hi))
      && (forall i :: 0 <= i < |rows| && InWindow(rows[i][y], lo, hi) ==>
            (exists t :: 0 <= t < |r| && RowKey(r[t], a, b) == RowKey(rows[i], a, b)))
  {
    var a, b := IndexOf(names, "number"), IndexOf(names, "name");
    var win := Window(rows, y, lo, hi);
    assert forall k :: 0 <= k < |win| ==> win[k] in win;
    DropDuplicatedKeepsFirst(names, win);
    var r := WindowDeduplicated(names, rows, y, lo, hi).value;
    assert r == DropDuplicated(names, win).value;
    forall i | 0 <= i < |rows| && InWindow(rows[i][y], lo, hi)
      ensures exists t :: 0 <= t < |r| && RowKey(r[t], a, b) == RowKey(rows[i], a, b)
    {
      assert rows[i] in win;
      var j :| 0 <= j < |win| && win[j] == rows[i];
    }
  }

  /** A successful subset holds only table rows whose year lies between the smallest
      and the largest requested year, and keeps one row for every (number, name) key
      among the table rows inside the window of the requested years that occur. */
  lemma SubsetKeepsWindow(names: seq<string>, rows: seq<seq<Cell>>, arg: YearArg)
    requires Width(rows, |names|) && !arg.NoYear? && SubsetByYear(names, rows, arg).Ok?
    ensures "year" in names && "number" in names && "name" in names
    ensures var r := SubsetByYear(names, rows, arg).value;
      var y, a, b := IndexOf(names, "year"), IndexOf(names, "number"), IndexOf(names, "name");
      var found := Occurring(Requested(arg), ColumnOf(rows, y));
      found != []
      && (forall row :: row in r ==> row in rows && InWindow(row[y], MinOf(Requested(arg)), MaxOf(Requested(arg))))
      && (forall i :: 0 <= i < |rows| && InWindow(rows[i][y], MinOf(found), MaxOf(found)) ==>
            (exists t :: 0 <= t < |r| && RowKey(r[t], a, b) == RowKey(rows[i], a, b)))
  {
    var y := IndexOf(names, "year");
    var found := Occurring(Requested(arg), ColumnOf(rows, y));
    var lo, hi := MinOf(found), MaxOf(found);
    assert SubsetByYear(names, rows, arg) == WindowDeduplicated(names, rows, y, lo, hi);
    WindowDeduplicatedSpec(names, rows, y, lo, hi);
    assert MinOf(Requested(arg)) <= lo && hi <= MaxOf(Requested(arg)) by {
      assert lo in found && hi in found;
    }
    var r := WindowDeduplicated(names, rows, y, lo, hi).value;
    forall row | row in r
      ensures InWindow(row[y], MinOf(Requested(arg)), MaxOf(Requested(arg)))
    {
      assert InWindow(row[y], lo, hi);
    }
  }
}
