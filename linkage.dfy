/** The record-linkage helpers of src/osta/clean_data.py: the column lookup behind
    every `__standardize_*` step and its input guards, the exact-match search in a
    reference table and the in-place write-back of corrected rows. */
module Linkage {
  import opened Common
  import opened Utils

  // ---------------------------------------------------------------------------
  // __not_duplicated_columns_found
  // ---------------------------------------------------------------------------

  /** The data-frame columns, in their order, whose name is requested. */
  function Found(names: seq<string>, requested: seq<string>): seq<string>
  {
    if names == [] then []
    else (if names[0] in requested then [names[0]] else []) + Found(names[1..], requested)
  }

  /** `np.unique(found)[counts > 1]`: the found names that occur more than once. */
  function DuplicatedNames(found: seq<string>): set<string>
  {
    set x | x in found && Count(found, x) > 1
  }

  /** How the columns to work on are looked up: data-frame column names and the
      requested names give the columns found. */
  type ColumnLookup = (seq<string>, seq<string>) -> set<string>

  /** As written: the duplicated names less the found ones. The duplicated names are
      found names, so nothing is ever returned. */
  function NotDuplicatedAsWritten(names: seq<string>, requested: seq<string>): (r: set<string>)
    ensures r == {}
  {
    var found := Found(names, requested);
    DuplicatedNames(found) - set x | x in found
  }

  /** Intended: the found names that are not duplicated. */
  function NotDuplicated(names: seq<string>, requested: seq<string>): set<string>
  {
    var found := Found(names, requested);
    set x | x in found && Count(found, x) == 1
  }

  /** A duplicated requested name makes the lookup warn. */
  predicate WarnsDuplicated(names: seq<string>, requested: seq<string>)
  {
    DuplicatedNames(Found(names, requested)) != {}
  }

  lemma {:induction false} CountFound(names: seq<string>, requested: seq<string>, x: string)
    ensures Count(Found(names, requested), x) == if x in requested then Count(names, x) else 0
  {
    if names != [] {
      CountFound(names[1..], requested, x);
      assert Found(names, requested) ==
             (if names[0] in requested then [names[0]] else []) + Found(names[1..], requested);
      CountAppend((if names[0] in requested then [names[0]] else []), Found(names[1..], requested), x);
    }
  }

  lemma {:induction false} CountAppend<T>(a: seq<T>, b: seq<T>, x: T)
    ensures Count(a + b, x) == Count(a, x) + Count(b, x)
  {
    if a == [] {
      assert a + b == b;
    } else {
      assert (a + b)[1..] == a[1..] + b;
      CountAppend(a[1..], b, x);
    }
  }

  lemma {:induction false} CountIn<T>(s: seq<T>, x: T)
    ensures x in s <==> Count(s, x) > 0
  {
    if s != [] {
      CountIn(s[1..], x);
      assert s == [s[0]] + s[1..];
    }
  }

  /** With the intended lookup a column is worked on exactly when it is requested
      and occurs once among the data-frame columns. */
  lemma NotDuplicatedIff(names: seq<string>, requested: seq<string>, x: string)
    ensures x in NotDuplicated(names, requested) <==> x in requested && Count(names, x) == 1
  {
    CountFound(names, requested, x);
    CountIn(Found(names, requested), x);
  }

  /** The lookup warns exactly when some requested name occurs more than once. */
  lemma WarnsDuplicatedIff(names: seq<string>, requested: seq<string>)
    ensures WarnsDuplicated(names, requested) <==> exists x :: x in requested && Count(names, x) > 1
  {
    var found := Found(names, requested);
    if WarnsDuplicated(names, requested) {
      var x :| x in DuplicatedNames(found);
      CountFound(names, requested, x);
    }
    if x :| x in requested && Count(names, x) > 1 {
      CountFound(names, requested, x);
      CountIn(found, x);
      assert x in DuplicatedNames(found);
    }
  }

  // ---------------------------------------------------------------------------
  // Input guards of the __standardize_* steps
  // ---------------------------------------------------------------------------

  /** What a step does after its input checks: return the table as it is, or go on
      with the columns found. */
  datatype Step = Unchanged | Proceed(cols: set<string>)

  /** The shared tail of every guard: the disable flag must be a boolean; a disabled
      step, or one with no column to work on, returns the table unchanged. */
  function FlagGuard(flagName: string, disable: PyValue, cols: set<string>): (r: Result<Step>)
    ensures r.Err? <==> !disable.PyBool?
    ensures r == Ok(Unchanged) <==> disable.PyBool? && (disable.b || cols == {})
  {
    if !disable.PyBool? then Err("'" + flagName + "' must be True or False.")
    else if disable.b || cols == {} then Ok(Unchanged)
    else Ok(Proceed(cols))
  }

  /** `__standardize_country`. */
  function CountryGuard(names: seq<string>, disable: PyValue, lookup: ColumnLookup): Result<Step>
  {
    FlagGuard("disable_country", disable, lookup(names, ["country"]))
  }

  /** `__standardize_org`, `__standardize_account`, `__standardize_service` and
      `__standardize_suppl`: the reference table must be a non-empty data frame or
      `None`, then the flag is checked. */
  function DataGuard(dataName: string, flagName: string, requested: seq<string>,
                     names: seq<string>, data: PyValue, disable: PyValue, lookup: ColumnLookup): (r: Result<Step>)
    ensures r.Err? <==> !(IsNonEmptyDf(data) || data == PyNone) || !disable.PyBool?
  {
    if !(IsNonEmptyDf(data) || data == PyNone) then
      Err("'" + dataName + "' must be non-empty pandas.DataFrame or None.")
    else FlagGuard(flagName, disable, lookup(names, requested))
  }

  const OrgColumns: seq<string> := ["org_id", "org_number", "org_name"]
  const AccountColumns: seq<string> := ["account_number", "account_name"]
  const SupplColumns: seq<string> := ["suppl_id", "suppl_number", "suppl_name"]

  function OrgGuard(names: seq<string>, data: PyValue, disable: PyValue, lookup: ColumnLookup): Result<Step>
  {
    DataGuard("org_data", "disable_org", OrgColumns, names, data, disable, lookup)
  }

  function AccountGuard(names: seq<string>, data: PyValue, disable: PyValue, lookup: ColumnLookup): Result<Step>
  {
    DataGuard("account_data", "disable_account", AccountColumns, names, data, disable, lookup)
  }

  /** The service step looks up the account columns. */
  function ServiceGuard(names: seq<string>, data: PyValue, disable: PyValue, lookup: ColumnLookup): Result<Step>
  {
    DataGuard("service_data", "disable_service", AccountColumns, names, data, disable, lookup)
  }

  function SupplGuard(names: seq<string>, data: PyValue, disable: PyValue, lookup: ColumnLookup): Result<Step>
  {
    DataGuard("suppl_data", "disable_suppl", SupplColumns, names, data, disable, lookup)
  }

  /** `__standardize_date`: after the early return, `dayfirst` and `yearfirst` are
      checked; `noneAccepted` says whether `None` passes that check. */
  function DateGuardWith(names: seq<string>, disable: PyValue, dayfirst: PyValue, yearfirst: PyValue,
                         lookup: ColumnLookup, noneAccepted: bool): Result<Step>
  {
    var step :- FlagGuard("disable_date", disable, lookup(names, ["date"]));
    if step == Unchanged then Ok(Unchanged)
    else if !(dayfirst.PyBool? || (noneAccepted && dayfirst == PyNone)) then
      Err("'dayfirst' must be True or False or None.")
    else if !(yearfirst.PyBool? || (noneAccepted && yearfirst == PyNone)) then
      Err("'yearfirst' must be True or False or None.")
    else Ok(step)
  }

  /** As written: `not isinstance(flag, bool) or flag is None` turns `None` away. */
  function DateGuardAsWritten(names: seq<string>, disable: PyValue, dayfirst: PyValue, yearfirst: PyValue,
                              lookup: ColumnLookup): Result<Step>
  {
    DateGuardWith(names, disable, dayfirst, yearfirst, lookup, false)
  }

  /** Intended, as the message and the default `None` say: `None` is accepted. */
  function DateGuard(names: seq<string>, disable: PyValue, dayfirst: PyValue, yearfirst: PyValue,
                     lookup: ColumnLookup): Result<Step>
  {
    DateGuardWith(names, disable, dayfirst, yearfirst, lookup, true)
  }

  /** With the lookup as written no step gets past its guard: the country step
      raises on a non-boolean flag and otherwise returns the table unchanged. */
  lemma CountryNeverProceedsAsWritten(names: seq<string>, disable: PyValue)
    ensures var r := CountryGuard(names, disable, NotDuplicatedAsWritten);
            (r.Err? <==> !disable.PyBool?) && (r.Ok? ==> r == Ok(Unchanged))
  {
    assert NotDuplicatedAsWritten(names, ["country"]) == {};
  }

  /** The steps with a reference table (organisation, account, service, supplier)
      raise on a bad argument and otherwise return the table unchanged. */
  lemma DataStepsNeverProceedAsWritten(dataName: string, flagName: string, requested: seq<string>,
                                       names: seq<string>, data: PyValue, disable: PyValue)
    ensures var r := DataGuard(dataName, flagName, requested, names, data, disable, NotDuplicatedAsWritten);
            r.Ok? ==> r == Ok(Unchanged)
  {
    assert NotDuplicatedAsWritten(names, requested) == {};
  }

  /** The date step returns the table unchanged before its `dayfirst` and
      `yearfirst` checks, so no value of theirs raises. */
  lemma DateNeverProceedsAsWritten(names: seq<string>, disable: PyValue, dayfirst: PyValue, yearfirst: PyValue)
    ensures var r := DateGuardAsWritten(names, disable, dayfirst, yearfirst, NotDuplicatedAsWritten);
            (r.Err? <==> !disable.PyBool?) && (r.Ok? ==> r == Ok(Unchanged))
  {
    assert NotDuplicatedAsWritten(names, ["date"]) == {};
  }

  /** With a single `date` column found and the step enabled, the date guard as
      written raises for `dayfirst=None`, its own default; the intended guard goes on. */
  lemma DateGuardRejectsDefault(names: seq<string>, yearfirst: PyValue)
    requires Count(names, "date") == 1 && yearfirst.PyBool?
    ensures DateGuardAsWritten(names, PyBool(false), PyNone, yearfirst, NotDuplicated).Err?
    ensures DateGuard(names, PyBool(false), PyNone, yearfirst, NotDuplicated) == Ok(Proceed({"date"}))
  {
    NotDuplicatedIff(names, ["date"], "date");
    forall x | x in NotDuplicated(names, ["date"])
      ensures x == "date"
    {
      NotDuplicatedIff(names, ["date"], x);
    }
    assert NotDuplicated(names, ["date"]) == {"date"};
  }

  // ---------------------------------------------------------------------------
  // __replace_old_values_with_new
  // ---------------------------------------------------------------------------

  /** `fillna("")` of one cell. */
  function FillEmpty(c: Cell): Cell
  {
    if c == NA then Str("") else c
  }

  /** Old and newRow unique row agree once missing values read as "" (the row was not
      changed by the search). */
  predicate SameFilled(oldRow: seq<Cell>, newRow: seq<Cell>)
    requires |oldRow| == |newRow|
  {
    forall j :: 0 <= j < |oldRow| ==> CellEq(FillEmpty(oldRow[j]), FillEmpty(newRow[j]))
  }

  /** `(df == old_row).sum(axis=1) == df.shape[1]`: every cell equal, where a
      missing value equals nothing. */
  predicate RowEq(row: seq<Cell>, key: seq<Cell>)
    requires |row| == |key|
  {
    forall j :: 0 <= j < |row| ==> CellEq(row[j], key[j])
  }

  predicate Width(rows: seq<seq<Cell>>, w: nat)
  {
    forall k :: 0 <= k < |rows| ==> |rows[k]| == w
  }

  /** One overwrite: every row equal to `oldRow` receives `newRow`. */
  function Overwrite(rows: seq<seq<Cell>>, oldRow: seq<Cell>, newRow: seq<Cell>): (r: seq<seq<Cell>>)
    requires Width(rows, |oldRow|) && |newRow| == |oldRow|
    ensures |r| == |rows| && Width(r, |oldRow|)
  {
    seq(|rows|, k requires 0 <= k < |rows| => if RowEq(rows[k], oldRow) then newRow else rows[k])
  }

  /** The overwrites of the first `n` unique rows that changed, in their order. */
  function Replaced(rows: seq<seq<Cell>>, oldRows: seq<seq<Cell>>, newRows: seq<seq<Cell>>, w: nat, n: nat): (r: seq<seq<Cell>>)
    requires Width(rows, w) && Width(oldRows, w) && Width(newRows, w) && n <= |oldRows| == |newRows|
    ensures |r| == |rows| && Width(r, w)
  {
    if n == 0 then rows
    else
      var before := Replaced(rows, oldRows, newRows, w, n - 1);
      if SameFilled(oldRows[n - 1], newRows[n - 1]) then before else Overwrite(before, oldRows[n - 1], newRows[n - 1])
  }

  /** Whether one unique row was changed, cell by cell. */
  method RowChanged(oldRow: seq<Cell>, newRow: seq<Cell>) returns (changed: bool)
    requires |oldRow| == |newRow|
    ensures changed <==> !SameFilled(oldRow, newRow)
  {
    changed := false;
    var j := 0;
    while j < |oldRow|
      invariant 0 <= j <= |oldRow|
      invariant changed <==> exists t :: 0 <= t < j && !CellEq(FillEmpty(oldRow[t]), FillEmpty(newRow[t]))
    {
      if !CellEq(FillEmpty(oldRow[j]), FillEmpty(newRow[j])) {
        changed := true;
      }
      j := j + 1;
    }
  }

  /** Whether a row equals a key row, cell by cell. */
  method RowMatches(row: seq<Cell>, key: seq<Cell>) returns (equal: bool)
    requires |row| == |key|
    ensures equal <==> RowEq(row, key)
  {
    equal := true;
    var j := 0;
    while j < |row|
      invariant 0 <= j <= |row|
      invariant equal <==> forall t :: 0 <= t < j ==> CellEq(row[t], key[t])
    {
      if !CellEq(row[j], key[j]) {
        equal := false;
      }
      j := j + 1;
    }
  }

  /** `df.loc[mask, :] = new_row` for the rows equal to `oldRow`. */
  method OverwriteRows(df: array<seq<Cell>>, oldRow: seq<Cell>, newRow: seq<Cell>)
    requires Width(df[..], |oldRow|) && |newRow| == |oldRow|
    modifies df
    ensures df[..] == Overwrite(old(df[..]), oldRow, newRow)
  {
    ghost var before := df[..];
    var k := 0;
    while k < df.Length
      invariant 0 <= k <= df.Length
      invariant forall t :: 0 <= t < k ==> df[t] == if RowEq(before[t], oldRow) then newRow else before[t]
      invariant forall t :: k <= t < df.Length ==> df[t] == before[t]
    {
      var equal := RowMatches(df[k], oldRow);
      if equal {
        df[k] := newRow;
      }
      k := k + 1;
    }
    assert df[..] == Overwrite(before, oldRow, newRow);
  }

  /** `__replace_old_values_with_new`: for each unique row the search changed, in
      order, every row of `df` equal to its oldRow values is overwritten in place with
      its newRow values. */
  method ReplaceOldValuesWithNew(df: array<seq<Cell>>, oldRows: seq<seq<Cell>>, newRows: seq<seq<Cell>>, ghost w: nat)
    requires Width(df[..], w) && Width(oldRows, w) && Width(newRows, w) && |oldRows| == |newRows|
    modifies df
    ensures df[..] == Replaced(old(df[..]), oldRows, newRows, w, |oldRows|)
  {
    ghost var start := df[..];
    for i := 0 to |oldRows|
      invariant df[..] == Replaced(start, oldRows, newRows, w, i)
    {
      var changed := RowChanged(oldRows[i], newRows[i]);
      if changed {
        OverwriteRows(df, oldRows[i], newRows[i]);
      }
    }
  }

  /** A row equal to none of the changed unique rows is left as it was. */
  lemma {:induction false} ReplacedKeepsUnmatched(rows: seq<seq<Cell>>, oldRows: seq<seq<Cell>>, newRows: seq<seq<Cell>>,
                                                 w: nat, n: nat, k: nat)
    requires Width(rows, w) && Width(oldRows, w) && Width(newRows, w) && n <= |oldRows| == |newRows| && k < |rows|
    requires forall i :: 0 <= i < n && !SameFilled(oldRows[i], newRows[i]) ==> !RowEq(rows[k], oldRows[i])
    ensures Replaced(rows, oldRows, newRows, w, n)[k] == rows[k]
  {
    if n > 0 {
      ReplacedKeepsUnmatched(rows, oldRows, newRows, w, n - 1, k);
    }
  }

  /** A row holding a missing value is never overwritten: it equals no row. */
  lemma RowsWithMissingKept(rows: seq<seq<Cell>>, oldRows: seq<seq<Cell>>, newRows: seq<seq<Cell>>, w: nat, k: nat, j: nat)
    requires Width(rows, w) && Width(oldRows, w) && Width(newRows, w) && |oldRows| == |newRows| && k < |rows|
    requires j < w && rows[k][j] == NA
    ensures Replaced(rows, oldRows, newRows, w, |oldRows|)[k] == rows[k]
  {
    ReplacedKeepsUnmatched(rows, oldRows, newRows, w, |oldRows|, k);
  }

  /** Every row ends either as it was or with the newRow values of a changed unique row. */
  lemma {:induction false} ReplacedFromNew(rows: seq<seq<Cell>>, oldRows: seq<seq<Cell>>, newRows: seq<seq<Cell>>,
                                          w: nat, n: nat, k: nat)
    requires Width(rows, w) && Width(oldRows, w) && Width(newRows, w) && n <= |oldRows| == |newRows| && k < |rows|
    ensures var r := Replaced(rows, oldRows, newRows, w, n);
            r[k] == rows[k] || exists i :: 0 <= i < n && !SameFilled(oldRows[i], newRows[i]) && r[k] == newRows[i]
  {
    if n > 0 {
      ReplacedFromNew(rows, oldRows, newRows, w, n - 1, k);
    }
  }

  /** A row equal to the changed unique row `i` (and to no earlier changed one)
      receives its newRow values, unless a later changed row's oldRow values equal them. */
  lemma {:induction false} ReplacedWithNew(rows: seq<seq<Cell>>, oldRows: seq<seq<Cell>>, newRows: seq<seq<Cell>>,
                                          w: nat, n: nat, k: nat, i: nat)
    requires Width(rows, w) && Width(oldRows, w) && Width(newRows, w) && n <= |oldRows| == |newRows| && k < |rows|
    requires i < n && !SameFilled(oldRows[i], newRows[i]) && RowEq(rows[k], oldRows[i])
    requires forall t :: 0 <= t < i && !SameFilled(oldRows[t], newRows[t]) ==> !RowEq(rows[k], oldRows[t])
    requires forall t :: i < t < n && !SameFilled(oldRows[t], newRows[t]) ==> !RowEq(newRows[i], oldRows[t])
    ensures Replaced(rows, oldRows, newRows, w, n)[k] == newRows[i]
  {
    if n - 1 == i {
      ReplacedKeepsUnmatched(rows, oldRows, newRows, w, i, k);
    } else {
      ReplacedWithNew(rows, oldRows, newRows, w, n - 1, k, i);
    }
  }

  // ---------------------------------------------------------------------------
  // __get_matches_from_db
  // ---------------------------------------------------------------------------

  /** `astype(str).str.lower()`: the text an exact match compares. */
  function MatchText(c: Cell): string
  {
    Lower(StrForm(c))
  }

  /** The first reference row, from `from` on, whose column `j` reads as `v`. */
  function FirstHit(db: seq<seq<Cell>>, w: nat, j: nat, v: Cell, from: nat): (r: Option<nat>)
    requires Width(db, w) && j < w
    ensures r.Some? ==> from <= r.value < |db| && MatchText(db[r.value][j]) == MatchText(v)
    decreases |db| - from
  {
    if from >= |db| then None
    else if MatchText(db[from][j]) == MatchText(v) then Some(from)
    else FirstHit(db, w, j, v, from + 1)
  }

  /** The table `temp`: for each column of the row, the first reference row it hits. */
  function Hits(row: seq<Cell>, db: seq<seq<Cell>>, w: nat, n: nat): (r: seq<Option<nat>>)
    requires |row| == w && Width(db, w) && n <= w
    ensures |r| == n && forall t :: 0 <= t < n && r[t].Some? ==> r[t].value < |db|
  {
    if n == 0 then [] else Hits(row, db, w, n - 1) + [FirstHit(db, w, n - 1, row[n - 1], 0)]
  }

  /** `x not in cols[j]`: Python's `in` on two strings tests for a substring. */
  predicate Other(cols: seq<string>, t: nat, j: nat)
    requires t < |cols| && j < |cols|
  {
    !IsSubstring(cols[t], cols[j])
  }

  /** The last other column below `n` with a hit: the one the loop over `temp.columns`
      leaves its values from. */
  function LastOther(hits: seq<Option<nat>>, cols: seq<string>, j: nat, n: nat): (r: Option<nat>)
    requires |hits| == |cols| && j < |cols| && n <= |cols|
    ensures r.Some? ==> r.value < n && Other(cols, r.value, j) && hits[r.value].Some?
  {
    if n == 0 then None
    else if Other(cols, n - 1, j) && hits[n - 1].Some? then Some(n - 1)
    else LastOther(hits, cols, j, n - 1)
  }

  /** The cells of a reference row in the other reference columns, from `u` on. */
  function Project(r: seq<Cell>, matchCols: seq<string>, j: nat, u: nat): seq<Cell>
    requires |r| == |matchCols| && j < |matchCols|
    decreases |r| - u
  {
    if u >= |r| then []
    else (if Other(matchCols, u, j) then [r[u]] else []) + Project(r, matchCols, j, u + 1)
  }

  /** The keys the cells compare by. */
  function Keys(a: seq<Cell>): (r: seq<Key>)
    ensures |r| == |a|
  {
    seq(|a|, i requires 0 <= i < |a| => HashKey(a[i]))
  }

  /** Python list `==` on cells (a missing value equals nothing). */
  predicate ListEq(a: seq<Cell>, b: seq<Cell>)
  {
    NA !in a && NA !in b && Keys(a) == Keys(b)
  }

  /** `ListEq` is the elementwise comparison of Python's list `==`. */
  lemma ListEqIff(a: seq<Cell>, b: seq<Cell>)
    ensures ListEq(a, b) <==> |a| == |b| && forall i :: 0 <= i < |a| ==> CellEq(a[i], b[i])
  {
    if |a| == |b| && forall i :: 0 <= i < |a| ==> CellEq(a[i], b[i]) {
      assert forall i :: 0 <= i < |a| ==> Keys(a)[i] == Keys(b)[i];
      assert NA !in a by {
        forall i | 0 <= i < |a| ensures a[i] != NA { assert CellEq(a[i], b[i]); }
      }
      assert NA !in b by {
        forall i | 0 <= i < |b| ensures b[i] != NA { assert CellEq(a[i], b[i]); }
      }
    }
    if ListEq(a, b) {
      forall i | 0 <= i < |a| ensures CellEq(a[i], b[i]) {
        assert Keys(a)[i] == Keys(b)[i];
        assert a[i] in a && b[i] in b;
      }
    }
  }

  /** The row found through column `j` disagrees, in the other reference columns,
      with the row found through the last other column that has a hit. */
  predicate Mismatch(hits: seq<Option<nat>>, db: seq<seq<Cell>>, w: nat, cols: seq<string>,
                     matchCols: seq<string>, j: nat, k: nat)
    requires Width(db, w) && |hits| == |cols| == |matchCols| == w && j < w && k < |db|
    requires forall t :: 0 <= t < w && hits[t].Some? ==> hits[t].value < |db|
  {
    match LastOther(hits, cols, j, w)
    case None => false
    case Some(t) => !ListEq(Project(db[k], matchCols, j, 0), Project(db[hits[t].value], matchCols, j, 0))
  }

  /** The fuzzy scorer, left abstract. */
  type Scorer = (Cell, Cell) -> int

  /** `process.extractOne`: the first reference row with the highest score. */
  function BestFrom(scores: seq<int>, i: nat): (b: nat)
    requires i < |scores|
    ensures i <= b < |scores| && forall t :: i <= t < |scores| ==> scores[t] <= scores[b]
    ensures forall t :: i <= t < b ==> scores[t] < scores[b]
    decreases |scores| - i
  {
    if i == |scores| - 1 then i
    else
      var rest := BestFrom(scores, i + 1);
      if scores[rest] > scores[i] then rest else i
  }

  function Scores(query: Cell, db: seq<seq<Cell>>, w: nat, n: nat, scorer: Scorer): (r: seq<int>)
    requires Width(db, w) && n < w
    ensures |r| == |db|
  {
    seq(|db|, k requires 0 <= k < |db| => scorer(query, db[k][n]))
  }

  /** `df_db.loc[df_db["name"] == name, ...]` followed by `[0]`: the first row whose
      name equals `name`. */
  function FirstEqual(db: seq<seq<Cell>>, w: nat, n: nat, name: Cell, from: nat): (r: Option<nat>)
    requires Width(db, w) && n < w
    ensures r.Some? ==> from <= r.value < |db| && CellEq(db[r.value][n], name)
    decreases |db| - from
  {
    if from >= |db| then None
    else if CellEq(db[from][n], name) then Some(from)
    else FirstEqual(db, w, n, name, from + 1)
  }

  /** What the search decides for one row. */
  datatype Outcome =
    | Exact(k: nat)       // exact match on a column; reference row k is taken
    | Mismatched(k: nat)  // exact match, but another column points at a disagreeing row
    | Partial(k: nat)     // no exact match; the name matched well enough
    | NotFound

  /** An exact hit on column `j`: its first reference row is taken unless the other
      columns point at a row that disagrees with it. */
  function ExactOutcome(hits: seq<Option<nat>>, db: seq<seq<Cell>>, w: nat, cols: seq<string>,
                        matchCols: seq<string>, j: nat): (o: Outcome)
    requires Width(db, w) && |hits| == |cols| == |matchCols| == w && j < w && hits[j].Some?
    requires forall t :: 0 <= t < w && hits[t].Some? ==> hits[t].value < |db|
    ensures o == Exact(hits[j].value) || o == Mismatched(hits[j].value)
  {
    var k := hits[j].value;
    if Mismatch(hits, db, w, cols, matchCols, j, k) then Mismatched(k) else Exact(k)
  }

  /** No exact hit: `process.extractOne` on the names, accepted at score `th` or more.
      `extractOne` keeps only scores of at least its cutoff 0: when even the best
      score is negative it returns `None`, and reading its score raises. */
  function NameOutcome(row: seq<Cell>, db: seq<seq<Cell>>, w: nat, matchCols: seq<string>,
                       th: real, scorer: Scorer): (r: Result<Outcome>)
    requires |row| == w && Width(db, w) && |matchCols| == w
    ensures r.Ok? ==> r.value.NotFound? || (r.value.Partial? && r.value.k < |db|)
  {
    if "name" !in matchCols then Ok(NotFound)
    else
      var n := IndexOf(matchCols, "name");
      if db == [] then Err("TypeError: 'NoneType' object is not subscriptable")
      else
        var best := BestFrom(Scores(row[n], db, w, n, scorer), 0);
        if scorer(row[n], db[best][n]) < 0 then Err("TypeError: 'NoneType' object is not subscriptable")
        else if (scorer(row[n], db[best][n]) as real) < th then Ok(NotFound)
        else
          match FirstEqual(db, w, n, db[best][n], 0)
          case None => Err("IndexError: list index out of range")
          case Some(k) => Ok(Partial(k))
  }

  /** The loop over the columns from `j` on: the first column with a hit decides,
      exactly or as a mismatch; when no column has one, the partial match on names. */
  function SearchColumns(row: seq<Cell>, db: seq<seq<Cell>>, w: nat, cols: seq<string>, matchCols: seq<string>,
                         th: real, scorer: Scorer, hits: seq<Option<nat>>, j: nat): Result<Outcome>
    requires |row| == w && Width(db, w) && |cols| == |matchCols| == w && j <= w
    requires |hits| == w && forall t :: 0 <= t < w && hits[t].Some? ==> hits[t].value < |db|
    decreases w - j
  {
    if j == w then NameOutcome(row, db, w, matchCols, th, scorer)
    else if hits[j].Some? then Ok(ExactOutcome(hits, db, w, cols, matchCols, j))
    else SearchColumns(row, db, w, cols, matchCols, th, scorer, hits, j + 1)
  }

  /** The search for one row: the hits of every column, then the loop over them. */
  function RowOutcome(row: seq<Cell>, db: seq<seq<Cell>>, w: nat, cols: seq<string>, matchCols: seq<string>,
                      th: real, scorer: Scorer): (r: Result<Outcome>)
    requires |row| == w && Width(db, w) && |cols| == |matchCols| == w
    ensures r.Ok? && !r.value.NotFound? ==> r.value.k < |db|
    ensures r.Err? ==> r == NameOutcome(row, db, w, matchCols, th, scorer) && "name" in matchCols
  {
    SearchBound(row, db, w, cols, matchCols, th, scorer, Hits(row, db, w, w), 0);
    SearchColumns(row, db, w, cols, matchCols, th, scorer, Hits(row, db, w, w), 0)
  }

  /** The outcome of every row, each on its own. */
  function RowOutcomes(df: seq<seq<Cell>>, db: seq<seq<Cell>>, w: nat, cols: seq<string>, matchCols: seq<string>,
                       th: real, scorer: Scorer): (r: seq<Result<Outcome>>)
    requires Width(df, w) && Width(db, w) && |cols| == |matchCols| == w
    ensures |r| == |df|
  {
    seq(|df|, i requires 0 <= i < |df| => RowOutcome(df[i], db, w, cols, matchCols, th, scorer))
  }

  /** The rows searched in order, up to row `n`: the first error raises; a mismatch
      raises as written (`mismatchRaises`) or is kept for the report. */
  function Collect(results: seq<Result<Outcome>>, mismatchRaises: bool, n: nat): (r: Result<seq<Outcome>>)
    requires n <= |results|
    ensures r.Ok? ==> |r.value| == n
  {
    if n == 0 then Ok([])
    else
      match Collect(results, mismatchRaises, n - 1)
      case Err(e) => Err(e)
      case Ok(before) =>
        match results[n - 1]
        case Err(e) => Err(e)
        case Ok(o) =>
          if o.Mismatched? && mismatchRaises then
            Err("ValueError: Shape of passed values does not match the indices")
          else Ok(before + [o])
  }

  /** The row the search writes: the reference row found, or the row unchanged. */
  function Applied(row: seq<Cell>, db: seq<seq<Cell>>, o: Outcome): seq<Cell>
  {
    match o
    case Exact(k) => if k < |db| then db[k] else row
    case Partial(k) => if k < |db| then db[k] else row
    case _ => row
  }

  /** The rows reported as not detected. */
  predicate NotDetected(o: Outcome)
  {
    o.Mismatched? || o.NotFound?
  }

  /** The rows `__get_matches_from_db` writes: the reference row found for each
      row, or the row unchanged. */
  function WrittenRows(df: seq<seq<Cell>>, db: seq<seq<Cell>>, os: seq<Outcome>): (r: seq<seq<Cell>>)
    requires |os| == |df|
  {
    seq(|df|, i requires 0 <= i < |df| => Applied(df[i], db, os[i]))
  }

  /** `__get_matches_from_db` with the mismatch handling chosen by `mismatchRaises`:
      the rows written and the outcome of each. */
  function GetMatchesWith(df: seq<seq<Cell>>, db: seq<seq<Cell>>, w: nat, cols: seq<string>, matchCols: seq<string>,
                          th: real, scorer: Scorer, mismatchRaises: bool): Result<(seq<seq<Cell>>, seq<Outcome>)>
    requires Width(df, w) && Width(db, w) && |cols| == |matchCols| == w
  {
    var os :- Collect(RowOutcomes(df, db, w, cols, matchCols, th, scorer), mismatchRaises, |df|);
    Ok((WrittenRows(df, db, os), os))
  }

  /** Once a row raises, the search raises with the same error whatever follows. */
  lemma {:induction false} CollectErrStays(results: seq<Result<Outcome>>, mismatchRaises: bool, m: nat, n: nat)
    requires m <= n <= |results| && Collect(results, mismatchRaises, m).Err?
    ensures Collect(results, mismatchRaises, n) == Collect(results, mismatchRaises, m)
  {
    if m < n {
      CollectErrStays(results, mismatchRaises, m, n - 1);
    }
  }

  /** `FirstHit` finds a reference row exactly when one reads as `v`, and it is the first. */
  lemma {:induction false} FirstHitIsFirst(db: seq<seq<Cell>>, w: nat, j: nat, v: Cell, from: nat)
    requires Width(db, w) && j < w
    ensures FirstHit(db, w, j, v, from).None? <==>
            forall m :: from <= m < |db| ==> MatchText(db[m][j]) != MatchText(v)
    ensures FirstHit(db, w, j, v, from).Some? ==>
            forall m :: from <= m < FirstHit(db, w, j, v, from).value ==> MatchText(db[m][j]) != MatchText(v)
  {
    FirstHitNoneIff(db, w, j, v, from);
    FirstHitMissesBefore(db, w, j, v, from);
  }

  /** `FirstHit` finds nothing exactly when no reference row from `from` on reads as `v`. */
  lemma {:induction false} FirstHitNoneIff(db: seq<seq<Cell>>, w: nat, j: nat, v: Cell, from: nat)
    requires Width(db, w) && j < w
    ensures FirstHit(db, w, j, v, from).None? <==>
            forall m :: from <= m < |db| ==> MatchText(db[m][j]) != MatchText(v)
    decreases |db| - from
  {
    if from < |db| && MatchText(db[from][j]) != MatchText(v) {
      FirstHitNoneIff(db, w, j, v, from + 1);
    }
  }

  /** No reference row between `from` and the one `FirstHit` finds reads as `v`. */
  lemma {:induction false} FirstHitMissesBefore(db: seq<seq<Cell>>, w: nat, j: nat, v: Cell, from: nat)
    requires Width(db, w) && j < w
    ensures FirstHit(db, w, j, v, from).Some? ==>
            forall m :: from <= m < FirstHit(db, w, j, v, from).value ==> MatchText(db[m][j]) != MatchText(v)
    decreases |db| - from
  {
    if from < |db| && MatchText(db[from][j]) != MatchText(v) {
      FirstHitMissesBefore(db, w, j, v, from + 1);
    }
  }

  /** Column `j` of `temp` holds the first reference row that column `j` of the row hits. */
  lemma {:induction false} HitsAt(row: seq<Cell>, db: seq<seq<Cell>>, w: nat, n: nat, j: nat)
    requires |row| == w && Width(db, w) && j < n <= w
    ensures Hits(row, db, w, n)[j] == FirstHit(db, w, j, row[j], 0)
  {
    if j < n - 1 {
      HitsAt(row, db, w, n - 1, j);
    }
  }

  /** The loop over the columns stops at the first column with a hit. */
  lemma {:induction false} SearchStopsAtFirstHit(row: seq<Cell>, db: seq<seq<Cell>>, w: nat, cols: seq<string>,
                                                 matchCols: seq<string>, th: real, scorer: Scorer,
                                                 hits: seq<Option<nat>>, j: nat, c: nat)
    requires |row| == w && Width(db, w) && |cols| == |matchCols| == w && j <= c < w
    requires |hits| == w && forall t :: 0 <= t < w && hits[t].Some? ==> hits[t].value < |db|
    requires hits[c].Some? && forall t :: j <= t < c ==> hits[t].None?
    ensures SearchColumns(row, db, w, cols, matchCols, th, scorer, hits, j)
         == Ok(ExactOutcome(hits, db, w, cols, matchCols, c))
    decreases c - j
  {
    if j < c {
      SearchStopsAtFirstHit(row, db, w, cols, matchCols, th, scorer, hits, j + 1, c);
    }
  }

  /** Without a hit in any column the loop falls through to the partial match. */
  lemma {:induction false} SearchFallsThrough(row: seq<Cell>, db: seq<seq<Cell>>, w: nat, cols: seq<string>,
                                              matchCols: seq<string>, th: real, scorer: Scorer,
                                              hits: seq<Option<nat>>, j: nat)
    requires |row| == w && Width(db, w) && |cols| == |matchCols| == w && j <= w
    requires |hits| == w && forall t :: 0 <= t < w && hits[t].Some? ==> hits[t].value < |db|
    requires forall t :: j <= t < w ==> hits[t].None?
    ensures SearchColumns(row, db, w, cols, matchCols, th, scorer, hits, j)
         == NameOutcome(row, db, w, matchCols, th, scorer)
    decreases w - j
  {
    if j < w {
      SearchFallsThrough(row, db, w, cols, matchCols, th, scorer, hits, j + 1);
    }
  }

  /** Exact matches take precedence, column by column in order: when column `c` is the
      first whose value occurs in the reference column, the row is decided by the first
      reference row holding it, taken or reported as a mismatch. */
  lemma ExactPrecedence(row: seq<Cell>, db: seq<seq<Cell>>, w: nat, cols: seq<string>, matchCols: seq<string>,
                        th: real, scorer: Scorer, c: nat)
    requires |row| == w && Width(db, w) && |cols| == |matchCols| == w && c < w
    requires FirstHit(db, w, c, row[c], 0).Some?
    requires forall t :: 0 <= t < c ==> FirstHit(db, w, t, row[t], 0).None?
    ensures var k := FirstHit(db, w, c, row[c], 0).value;
            RowOutcome(row, db, w, cols, matchCols, th, scorer) in {Ok(Exact(k)), Ok(Mismatched(k))}
  {
    var hits := Hits(row, db, w, w);
    forall t | 0 <= t <= c
      ensures hits[t] == FirstHit(db, w, t, row[t], 0)
    {
      HitsAt(row, db, w, w, t);
    }
    SearchStopsAtFirstHit(row, db, w, cols, matchCols, th, scorer, hits, 0, c);
  }

  /** When no value of the row occurs in its reference column, the partial match on
      names decides. */
  lemma NoExactMatch(row: seq<Cell>, db: seq<seq<Cell>>, w: nat, cols: seq<string>, matchCols: seq<string>,
                     th: real, scorer: Scorer)
    requires |row| == w && Width(db, w) && |cols| == |matchCols| == w
    requires forall t :: 0 <= t < w ==> forall m :: 0 <= m < |db| ==> MatchText(db[m][t]) != MatchText(row[t])
    ensures RowOutcome(row, db, w, cols, matchCols, th, scorer) == NameOutcome(row, db, w, matchCols, th, scorer)
  {
    var hits := Hits(row, db, w, w);
    forall t | 0 <= t < w
      ensures hits[t].None?
    {
      HitsAt(row, db, w, w, t);
      FirstHitIsFirst(db, w, t, row[t], 0);
    }
    SearchFallsThrough(row, db, w, cols, matchCols, th, scorer, hits, 0);
  }

  /** A hit no other column contradicts is taken; a mismatch names an other column whose
      reference row disagrees in the other reference columns. */
  lemma ExactOrMismatch(hits: seq<Option<nat>>, db: seq<seq<Cell>>, w: nat, cols: seq<string>,
                        matchCols: seq<string>, j: nat)
    requires Width(db, w) && |hits| == |cols| == |matchCols| == w && j < w && hits[j].Some?
    requires forall t :: 0 <= t < w && hits[t].Some? ==> hits[t].value < |db|
    ensures (forall t :: 0 <= t < w && Other(cols, t, j) ==> hits[t].None?) ==>
            ExactOutcome(hits, db, w, cols, matchCols, j) == Exact(hits[j].value)
    ensures ExactOutcome(hits, db, w, cols, matchCols, j).Mismatched? ==>
            exists t :: 0 <= t < w && Other(cols, t, j) && hits[t].Some? &&
              !ListEq(Project(db[hits[j].value], matchCols, j, 0), Project(db[hits[t].value], matchCols, j, 0))
  {
    var last := LastOther(hits, cols, j, w);
    if last.Some? {
      var t := last.value;
      assert 0 <= t < w && Other(cols, t, j) && hits[t].Some?;
    }
  }

  /** `FirstEqual` finds the first reference row whose name equals `name`. */
  lemma {:induction false} FirstEqualIsFirst(db: seq<seq<Cell>>, w: nat, n: nat, name: Cell, from: nat)
    requires Width(db, w) && n < w
    ensures FirstEqual(db, w, n, name, from).None? <==> forall m :: from <= m < |db| ==> !CellEq(db[m][n], name)
    ensures FirstEqual(db, w, n, name, from).Some? ==>
            forall m :: from <= m < FirstEqual(db, w, n, name, from).value ==> !CellEq(db[m][n], name)
    decreases |db| - from
  {
    if from < |db| && !CellEq(db[from][n], name) {
      FirstEqualIsFirst(db, w, n, name, from + 1);
    }
  }

  /** A partial match needs a "name" column and a reference table that is not empty. */
  lemma PartialMatchNeedsNames(row: seq<Cell>, db: seq<seq<Cell>>, w: nat, matchCols: seq<string>,
                               th: real, scorer: Scorer, k: nat)
    requires |row| == w && Width(db, w) && |matchCols| == w
    requires NameOutcome(row, db, w, matchCols, th, scorer) == Ok(Partial(k))
    ensures "name" in matchCols && k < |db|
  {
  }

  /** A partial match is the first reference row carrying the best-scoring name `db[b][n]`,
      whose score reaches the threshold; the best name is the first one of highest score. */
  lemma PartialMatchIsBest(row: seq<Cell>, db: seq<seq<Cell>>, w: nat, matchCols: seq<string>,
                           th: real, scorer: Scorer, k: nat, n: nat, b: nat)
    requires |row| == w && Width(db, w) && |matchCols| == w
    requires NameOutcome(row, db, w, matchCols, th, scorer) == Ok(Partial(k))
    requires "name" in matchCols && n == IndexOf(matchCols, "name")
    requires 0 < |db| && b == BestFrom(Scores(row[n], db, w, n, scorer), 0)
    ensures forall t :: 0 <= t < |db| ==> scorer(row[n], db[t][n]) <= scorer(row[n], db[b][n])
    ensures forall t :: 0 <= t < b ==> scorer(row[n], db[t][n]) < scorer(row[n], db[b][n])
    ensures 0 <= scorer(row[n], db[b][n]) && th <= scorer(row[n], db[b][n]) as real
    ensures k < |db| && CellEq(db[k][n], db[b][n]) && forall m :: 0 <= m < k ==> !CellEq(db[m][n], db[b][n])
  {
    var scores := Scores(row[n], db, w, n, scorer);
    PartialMatchAccepted(row, db, w, matchCols, th, scorer, k, n, b);
    FirstEqualIsFirst(db, w, n, db[b][n], 0);
    assert forall t :: 0 <= t < |db| ==> scores[t] == scorer(row[n], db[t][n]);
  }

  /** The branch a partial match takes: the best score is kept by the cutoff and
      reaches the threshold, and its name is found. */
  lemma PartialMatchAccepted(row: seq<Cell>, db: seq<seq<Cell>>, w: nat, matchCols: seq<string>,
                             th: real, scorer: Scorer, k: nat, n: nat, b: nat)
    requires |row| == w && Width(db, w) && |matchCols| == w
    requires NameOutcome(row, db, w, matchCols, th, scorer) == Ok(Partial(k))
    requires "name" in matchCols && n == IndexOf(matchCols, "name")
    requires 0 < |db| && b == BestFrom(Scores(row[n], db, w, n, scorer), 0)
    ensures 0 <= scorer(row[n], db[b][n]) && th <= scorer(row[n], db[b][n]) as real
    ensures FirstEqual(db, w, n, db[b][n], 0) == Some(k)
  {
  }

  /** The partial match raises exactly when there is a "name" column and the
      reference table is empty, or `extractOne` drops every score as negative, or
      the accepted best name is missing, so no reference name equals it. */
  lemma NameOutcomeRaises(row: seq<Cell>, db: seq<seq<Cell>>, w: nat, matchCols: seq<string>, th: real, scorer: Scorer)
    requires |row| == w && Width(db, w) && |matchCols| == w
    ensures NameOutcome(row, db, w, matchCols, th, scorer).Err? <==>
            "name" in matchCols &&
            (|db| == 0 ||
             var n := IndexOf(matchCols, "name");
             var b := BestFrom(Scores(row[n], db, w, n, scorer), 0);
             scorer(row[n], db[b][n]) < 0 || (th <= scorer(row[n], db[b][n]) as real && db[b][n] == NA))
  {
    if "name" in matchCols && |db| > 0 {
      var n := IndexOf(matchCols, "name");
      var b := BestFrom(Scores(row[n], db, w, n, scorer), 0);
      FirstEqualIsFirst(db, w, n, db[b][n], 0);
      if db[b][n] != NA {
        assert CellEq(db[b][n], db[b][n]);
      }
    }
  }

  /** The partial match finds nothing exactly when there is no "name" column to match
      on or the best score, though not negative, stays under the threshold. */
  lemma NotFoundByName(row: seq<Cell>, db: seq<seq<Cell>>, w: nat, matchCols: seq<string>, th: real, scorer: Scorer)
    requires |row| == w && Width(db, w) && |matchCols| == w
    ensures NameOutcome(row, db, w, matchCols, th, scorer) == Ok(NotFound) <==>
            "name" !in matchCols ||
            (0 < |db| &&
             var n := IndexOf(matchCols, "name");
             0 <= scorer(row[n], db[BestFrom(Scores(row[n], db, w, n, scorer), 0)][n]) &&
             (scorer(row[n], db[BestFrom(Scores(row[n], db, w, n, scorer), 0)][n]) as real) < th)
  {
    if "name" in matchCols && 0 < |db| {
      var n := IndexOf(matchCols, "name");
      var best := BestFrom(Scores(row[n], db, w, n, scorer), 0);
      if 0 <= scorer(row[n], db[best][n]) && (scorer(row[n], db[best][n]) as real) >= th {
        assert NameOutcome(row, db, w, matchCols, th, scorer).Err? || NameOutcome(row, db, w, matchCols, th, scorer).value.Partial?;
      }
    }
  }

  /** A search that completes has an outcome for every row, each the row's own outcome,
      and, when mismatches raise, none of them a mismatch. */
  lemma {:induction false} CollectOk(results: seq<Result<Outcome>>, mismatchRaises: bool, n: nat)
    requires n <= |results| && Collect(results, mismatchRaises, n).Ok?
    ensures var os := Collect(results, mismatchRaises, n).value;
            forall i :: 0 <= i < n ==> results[i] == Ok(os[i]) && !(os[i].Mismatched? && mismatchRaises)
  {
    if n > 0 {
      CollectOk(results, mismatchRaises, n - 1);
    }
  }

  /** The search raises exactly when some row raises, or, when mismatches raise, is a
      mismatch. */
  lemma {:induction false} CollectErrIff(results: seq<Result<Outcome>>, mismatchRaises: bool, n: nat)
    requires n <= |results|
    ensures Collect(results, mismatchRaises, n).Err? <==>
            exists i :: 0 <= i < n && (results[i].Err? || (results[i].value.Mismatched? && mismatchRaises))
  {
    if n > 0 {
      CollectErrIff(results, mismatchRaises, n - 1);
      if Collect(results, mismatchRaises, n - 1).Ok? {
        CollectOk(results, mismatchRaises, n - 1);
      }
    }
  }

  /** As written, a row whose exact match is contradicted by another column makes the
      whole search raise: the report of undetected rows is built with twice as many
      values as index labels. */
  lemma MismatchRaisesAsWritten(df: seq<seq<Cell>>, db: seq<seq<Cell>>, w: nat, cols: seq<string>,
                                matchCols: seq<string>, th: real, scorer: Scorer, i: nat, k: nat)
    requires Width(df, w) && Width(db, w) && |cols| == |matchCols| == w && i < |df|
    requires RowOutcome(df[i], db, w, cols, matchCols, th, scorer) == Ok(Mismatched(k))
    ensures GetMatchesWith(df, db, w, cols, matchCols, th, scorer, true).Err?
  {
    var results := RowOutcomes(df, db, w, cols, matchCols, th, scorer);
    assert results[i] == Ok(Mismatched(k));
    CollectErrIff(results, true, |df|);
  }

  /** With the report built as intended, mismatches no longer raise: when no row raises,
      every row has its own outcome, and a mismatched row keeps its values. */
  lemma MismatchReported(df: seq<seq<Cell>>, db: seq<seq<Cell>>, w: nat, cols: seq<string>,
                         matchCols: seq<string>, th: real, scorer: Scorer)
    requires Width(df, w) && Width(db, w) && |cols| == |matchCols| == w
    requires forall i :: 0 <= i < |df| ==> RowOutcome(df[i], db, w, cols, matchCols, th, scorer).Ok?
    ensures var r := GetMatchesWith(df, db, w, cols, matchCols, th, scorer, false);
            && r.Ok? && |r.value.1| == |df|
            && forall i :: 0 <= i < |df| ==>
                 Ok(r.value.1[i]) == RowOutcome(df[i], db, w, cols, matchCols, th, scorer)
                 && (r.value.1[i].Mismatched? ==> r.value.0[i] == df[i])
  {
    var results := RowOutcomes(df, db, w, cols, matchCols, th, scorer);
    CollectErrIff(results, false, |df|);
    CollectOk(results, false, |df|);
  }

  /** Where no row is a mismatch, the search as written and as intended agree. */
  lemma SameWithoutMismatch(df: seq<seq<Cell>>, db: seq<seq<Cell>>, w: nat, cols: seq<string>,
                            matchCols: seq<string>, th: real, scorer: Scorer)
    requires Width(df, w) && Width(db, w) && |cols| == |matchCols| == w
    requires forall i, k :: 0 <= i < |df| ==> RowOutcome(df[i], db, w, cols, matchCols, th, scorer) != Ok(Mismatched(k))
    ensures GetMatchesWith(df, db, w, cols, matchCols, th, scorer, true)
         == GetMatchesWith(df, db, w, cols, matchCols, th, scorer, false)
  {
    var results := RowOutcomes(df, db, w, cols, matchCols, th, scorer);
    CollectSameWithoutMismatch(results, |df|);
  }

  lemma {:induction false} CollectSameWithoutMismatch(results: seq<Result<Outcome>>, n: nat)
    requires n <= |results| && forall i :: 0 <= i < n ==> !(results[i].Ok? && results[i].value.Mismatched?)
    ensures Collect(results, true, n) == Collect(results, false, n)
  {
    if n > 0 {
      CollectSameWithoutMismatch(results, n - 1);
    }
  }

  /** The reference row an outcome names is a row of the reference table. */
  lemma {:induction false} SearchBound(row: seq<Cell>, db: seq<seq<Cell>>, w: nat, cols: seq<string>, matchCols: seq<string>,
                                       th: real, scorer: Scorer, hits: seq<Option<nat>>, j: nat)
    requires |row| == w && Width(db, w) && |cols| == |matchCols| == w && j <= w
    requires |hits| == w && forall t :: 0 <= t < w && hits[t].Some? ==> hits[t].value < |db|
    ensures var r := SearchColumns(row, db, w, cols, matchCols, th, scorer, hits, j);
            (r.Ok? && !r.value.NotFound? ==> r.value.k < |db|) &&
            (r.Err? ==> r == NameOutcome(row, db, w, matchCols, th, scorer))
    decreases w - j
  {
    if j < w && hits[j].None? {
      SearchBound(row, db, w, cols, matchCols, th, scorer, hits, j + 1);
    }
  }

  /** The rows written: as many as in `df`; a row found exactly or by name becomes its
      reference row, every other row is kept as it was. */
  lemma MatchedRows(df: seq<seq<Cell>>, db: seq<seq<Cell>>, w: nat, cols: seq<string>,
                    matchCols: seq<string>, th: real, scorer: Scorer, mismatchRaises: bool)
    requires Width(df, w) && Width(db, w) && |cols| == |matchCols| == w
    ensures var r := GetMatchesWith(df, db, w, cols, matchCols, th, scorer, mismatchRaises);
            r.Ok? ==>
              && |r.value.0| == |r.value.1| == |df|
              && forall i :: 0 <= i < |df| ==>
                   && (NotDetected(r.value.1[i]) ==> r.value.0[i] == df[i])
                   && (!NotDetected(r.value.1[i]) ==> r.value.1[i].k < |db| && r.value.0[i] == db[r.value.1[i].k])
  {
    var results := RowOutcomes(df, db, w, cols, matchCols, th, scorer);
    var c := Collect(results, mismatchRaises, |df|);
    if c.Ok? {
      CollectOk(results, mismatchRaises, |df|);
    }
  }

  /** The reference rows whose column `j` reads as `v`: the first one, scanning the
      boolean mask `var_db`. */
  method FindInDb(db: seq<seq<Cell>>, w: nat, j: nat, v: Cell) returns (hit: Option<nat>)
    requires Width(db, w) && j < w
    ensures hit == FirstHit(db, w, j, v, 0)
  {
    var k := 0;
    while k < |db|
      invariant 0 <= k <= |db|
      invariant FirstHit(db, w, j, v, 0) == FirstHit(db, w, j, v, k)
    {
      if MatchText(db[k][j]) == MatchText(v) {
        return Some(k);
      }
      k := k + 1;
    }
    return None;
  }

  /** The first reference row whose name equals `name`. */
  method FindEqual(db: seq<seq<Cell>>, w: nat, n: nat, name: Cell) returns (hit: Option<nat>)
    requires Width(db, w) && n < w
    ensures hit == FirstEqual(db, w, n, name, 0)
  {
    var k := 0;
    while k < |db|
      invariant 0 <= k <= |db|
      invariant FirstEqual(db, w, n, name, 0) == FirstEqual(db, w, n, name, k)
    {
      if CellEq(db[k][n], name) {
        return Some(k);
      }
      k := k + 1;
    }
    return None;
  }

  /** The search for one row: the hits of every column, the first column with a hit,
      the check of the other columns against it and, when nothing hit, the partial
      match on names. */
  method MatchRow(row: seq<Cell>, db: seq<seq<Cell>>, w: nat, cols: seq<string>, matchCols: seq<string>,
                  th: real, scorer: Scorer) returns (r: Result<Outcome>)
    requires |row| == w && Width(db, w) && |cols| == |matchCols| == w
    ensures r == RowOutcome(row, db, w, cols, matchCols, th, scorer)
  {
    var hits: seq<Option<nat>> := [];
    for j := 0 to w
      invariant hits == Hits(row, db, w, j)
    {
      var hit := FindInDb(db, w, j, row[j]);
      hits := hits + [hit];
    }
    var j := 0;
    while j < w
      invariant 0 <= j <= w
      invariant SearchColumns(row, db, w, cols, matchCols, th, scorer, hits, 0)
             == SearchColumns(row, db, w, cols, matchCols, th, scorer, hits, j)
    {
      if hits[j].Some? {
        var o := CheckOthers(hits, db, w, cols, matchCols, j);
        return Ok(o);
      }
      j := j + 1;
    }
    r := PartialMatch(row, db, w, matchCols, th, scorer);
  }

  /** An exact hit on column `j`: the loop over the other columns with a hit leaves
      the last one's reference row, which must agree with the row found. */
  method CheckOthers(hits: seq<Option<nat>>, db: seq<seq<Cell>>, w: nat, cols: seq<string>,
                     matchCols: seq<string>, j: nat) returns (o: Outcome)
    requires Width(db, w) && |hits| == |cols| == |matchCols| == w && j < w && hits[j].Some?
    requires forall t :: 0 <= t < w && hits[t].Some? ==> hits[t].value < |db|
    ensures o == ExactOutcome(hits, db, w, cols, matchCols, j)
  {
    var k := hits[j].value;
    var last: Option<nat> := None;
    for t := 0 to w
      invariant last == LastOther(hits, cols, j, t)
    {
      if Other(cols, t, j) && hits[t].Some? {
        last := Some(t);
      }
    }
    var mismatch := last.Some? &&
                    !ListEq(Project(db[k], matchCols, j, 0), Project(db[hits[last.value].value], matchCols, j, 0));
    o := if mismatch then Mismatched(k) else Exact(k);
  }

  /** The partial match on names: the first best-scoring reference name, accepted at
      score `th` or more, then the first reference row carrying that name. */
  method PartialMatch(row: seq<Cell>, db: seq<seq<Cell>>, w: nat, matchCols: seq<string>,
                      th: real, scorer: Scorer) returns (r: Result<Outcome>)
    requires |row| == w && Width(db, w) && |matchCols| == w
    ensures r == NameOutcome(row, db, w, matchCols, th, scorer)
  {
    if "name" !in matchCols {
      return Ok(NotFound);
    }
    var n := IndexOf(matchCols, "name");
    if |db| == 0 {
      return Err("TypeError: 'NoneType' object is not subscriptable");
    }
    ghost var scores := Scores(row[n], db, w, n, scorer);
    var i := |db| - 1;
    var best := i;
    while i > 0
      invariant 0 <= i <= best < |db| && best == BestFrom(scores, i)
    {
      i := i - 1;
      if !(scorer(row[n], db[best][n]) > scorer(row[n], db[i][n])) {
        best := i;
      }
    }
    if scorer(row[n], db[best][n]) < 0 {
      return Err("TypeError: 'NoneType' object is not subscriptable");
    }
    if (scorer(row[n], db[best][n]) as real) < th {
      return Ok(NotFound);
    }
    var k := FindEqual(db, w, n, db[best][n]);
    if k.None? {
      return Err("IndexError: list index out of range");
    }
    return Ok(Partial(k.value));
  }

  /** The loop over the rows of `__get_matches_from_db`: each row is searched in
      turn, and the first row that raises ends the search. */
  method SearchRows(df: seq<seq<Cell>>, db: seq<seq<Cell>>, w: nat, cols: seq<string>, matchCols: seq<string>,
                    th: real, scorer: Scorer, mismatchRaises: bool) returns (r: Result<seq<Outcome>>)
    requires Width(df, w) && Width(db, w) && |cols| == |matchCols| == w
    ensures r == Collect(RowOutcomes(df, db, w, cols, matchCols, th, scorer), mismatchRaises, |df|)
  {
    ghost var results := RowOutcomes(df, db, w, cols, matchCols, th, scorer);
    var os: seq<Outcome> := [];
    for i := 0 to |df|
      invariant Collect(results, mismatchRaises, i) == Ok(os)
    {
      var o := MatchRow(df[i], db, w, cols, matchCols, th, scorer);
      assert o == results[i];
      if o.Err? {
        CollectErrStays(results, mismatchRaises, i + 1, |df|);
        return Err(o.msg);
      }
      if o.value.Mismatched? && mismatchRaises {
        CollectErrStays(results, mismatchRaises, i + 1, |df|);
        return Err("ValueError: Shape of passed values does not match the indices");
      }
      os := os + [o.value];
    }
    r := Ok(os);
  }

  /** The writes of `__get_matches_from_db` into its copy `df_mod` of the rows: the
      reference row found for each row that has one. */
  method WriteMatches(df: seq<seq<Cell>>, db: seq<seq<Cell>>, os: seq<Outcome>) returns (dfMod: seq<seq<Cell>>)
    requires |os| == |df|
    ensures dfMod == WrittenRows(df, db, os)
  {
    dfMod := df;
    for i := 0 to |df|
      invariant |dfMod| == |df|
      invariant forall t :: 0 <= t < |df| ==> dfMod[t] == if t < i then Applied(df[t], db, os[t]) else df[t]
    {
      if (os[i].Exact? || os[i].Partial?) && os[i].k < |db| {
        dfMod := dfMod[i := db[os[i].k]];
      }
    }
  }

  /** `__get_matches_from_db`: the rows are searched, then the copy `df_mod` is
      overwritten with the reference row found for each. */
  method GetMatchesFromDb(df: seq<seq<Cell>>, db: seq<seq<Cell>>, w: nat, cols: seq<string>, matchCols: seq<string>,
                          th: real, scorer: Scorer, mismatchRaises: bool) returns (r: Result<(seq<seq<Cell>>, seq<Outcome>)>)
    requires Width(df, w) && Width(db, w) && |cols| == |matchCols| == w
    ensures r == GetMatchesWith(df, db, w, cols, matchCols, th, scorer, mismatchRaises)
  {
    var os :- SearchRows(df, db, w, cols, matchCols, th, scorer, mismatchRaises);
    var dfMod := WriteMatches(df, db, os);
    r := Ok((dfMod, os));
  }
}
