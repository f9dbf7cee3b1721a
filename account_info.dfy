/** The account-chart transforms of data/get_account_info.py: category columns
    filled downwards from header rows, and the account name assembled from the
    unnamed leading columns of a spreadsheet. Every table here carries the
    default index 0, 1, ..., n - 1, so row labels and row positions coincide. */
module AccountInfo {
  import opened Common
  import OstanClean

  // ---------------------------------------------------------------------------
  // Sheets
  // ---------------------------------------------------------------------------

  /** A column label read from a spreadsheet: `None` where the header cell was empty. */
  type Label = Option<string>

  datatype Sheet = Sheet(names: seq<Label>, rows: seq<seq<Cell>>)
  {
    predicate Valid()
    {
      forall i :: 0 <= i < |rows| ==> |rows[i]| == |names|
    }

    function Column(j: nat): (c: seq<Cell>)
      requires Valid() && j < |names|
      ensures |c| == |rows| && forall i :: 0 <= i < |rows| ==> c[i] == rows[i][j]
    {
      seq(|rows|, i requires 0 <= i < |rows| => rows[i][j])
    }
  }

  /** The first occurrence of `x` in a list is its first occurrence in any prefix
      that holds it. */
  lemma {:induction false} IndexOfPrefix<T>(xs: seq<T>, n: nat, x: T)
    requires n <= |xs| && x in xs[..n]
    ensures IndexOf(xs, x) == IndexOf(xs[..n], x)
  {
    if xs[0] != x {
      assert xs[..n][1..] == xs[1..][..n - 1];
      IndexOfPrefix(xs[1..], n - 1, x);
    }
  }

  /** The sheet restricted to the rows at the positions `p`. */
  function KeepRows(s: Sheet, p: seq<nat>): (r: Sheet)
    requires forall t :: 0 <= t < |p| ==> p[t] < |s.rows|
    ensures r.names == s.names && |r.rows| == |p|
    ensures forall t :: 0 <= t < |p| ==> r.rows[t] == s.rows[p[t]]
    ensures s.Valid() ==> r.Valid()
  {
    Sheet(s.names, Pick(s.rows, p))
  }

  function Columns(s: Sheet): (cs: seq<seq<Cell>>)
    requires s.Valid()
    ensures |cs| == |s.names| && forall j :: 0 <= j < |cs| ==> cs[j] == s.Column(j)
  {
    seq(|s.names|, j requires 0 <= j < |s.names| => s.Column(j))
  }

  /** The sheet restricted to the columns at the positions `p`. */
  function KeepColumns(s: Sheet, p: seq<nat>): (r: Sheet)
    requires s.Valid() && forall t :: 0 <= t < |p| ==> p[t] < |s.names|
    ensures r.Valid() && |r.rows| == |s.rows| && r.names == Pick(s.names, p)
    ensures forall i :: 0 <= i < |s.rows| ==> r.rows[i] == Pick(s.rows[i], p)
  {
    Sheet(Pick(s.names, p), seq(|s.rows|, i requires 0 <= i < |s.rows| => Pick(s.rows[i], p)))
  }

  /** The positions whose `drop` flag is clear, in order. */
  function Kept(drop: seq<bool>): (p: seq<nat>)
    ensures forall t :: 0 <= t < |p| ==> p[t] < |drop| && !drop[p[t]]
    ensures forall u, t :: 0 <= u < t < |p| ==> p[u] < p[t]
  {
    OstanClean.Positions(drop, (b: bool) => !b, |drop|)
  }

  /** A row survives exactly when its flag is clear. */
  lemma KeptIff(drop: seq<bool>, i: nat)
    ensures i in Kept(drop) <==> i < |drop| && !drop[i]
  {
    OstanClean.PositionsIff(drop, (b: bool) => !b, |drop|, i);
  }

  // ---------------------------------------------------------------------------
  // Writing a column and filling it downwards
  // ---------------------------------------------------------------------------

  /** Where `df[name] = ...` writes: the first column of that name, else a new last one. */
  function ColumnIndex(names: seq<Label>, name: string): (q: nat)
    ensures q <= |names|
    ensures q < |names| <==> Some(name) in names
    ensures q < |names| ==> names[q] == Some(name)
  {
    if Some(name) in names then IndexOf(names, Some(name)) else |names|
  }

  /** `df[name] = col` (and `df.loc[:, name] = col`): replace the column of that
      name, or append it. */
  function WithColumn(s: Sheet, name: string, col: seq<Cell>): (r: Sheet)
    requires s.Valid() && |col| == |s.rows|
    ensures r.Valid() && |r.rows| == |s.rows|
    ensures r.names == s.names || r.names == s.names + [Some(name)]
  {
    var q := ColumnIndex(s.names, name);
    if q < |s.names| then
      Sheet(s.names, seq(|s.rows|, i requires 0 <= i < |s.rows| => s.rows[i][q := col[i]]))
    else
      Sheet(s.names + [Some(name)], seq(|s.rows|, i requires 0 <= i < |s.rows| => s.rows[i] + [col[i]]))
  }

  /** The write keeps every existing label and puts `name` where it writes. */
  lemma WithColumnNames(s: Sheet, name: string, col: seq<Cell>)
    requires s.Valid() && |col| == |s.rows|
    ensures ColumnIndex(s.names, name) < |WithColumn(s, name, col).names|
    ensures WithColumn(s, name, col).names[ColumnIndex(s.names, name)] == Some(name)
    ensures WithColumn(s, name, col).names[..|s.names|] == s.names
  {
  }

  /** After the write, column `name` holds `col` and every other column is as before. */
  lemma WithColumnReads(s: Sheet, name: string, col: seq<Cell>, i: nat)
    requires s.Valid() && |col| == |s.rows| && i < |s.rows|
    ensures WithColumn(s, name, col).rows[i][ColumnIndex(s.names, name)] == col[i]
    ensures forall j :: 0 <= j < |s.names| && j != ColumnIndex(s.names, name) ==> WithColumn(s, name, col).rows[i][j] == s.rows[i][j]
  {
  }

  /** A new column goes last and every row gains that column's cell. */
  lemma WithNewColumn(s: Sheet, name: string, col: seq<Cell>)
    requires s.Valid() && |col| == |s.rows| && Some(name) !in s.names
    ensures WithColumn(s, name, col).names == s.names + [Some(name)]
    ensures forall i :: 0 <= i < |s.rows| ==> WithColumn(s, name, col).rows[i] == s.rows[i] + [col[i]]
  {
  }

  function Blank(n: nat): (c: seq<Cell>)
    ensures |c| == n && forall i :: 0 <= i < n ==> c[i] == NA
  {
    seq(n, i => NA)
  }

  /** `df.assign(name=None)`. */
  function Assigned(s: Sheet, name: string): (r: Sheet)
    requires s.Valid()
    ensures r.Valid() && |r.rows| == |s.rows| && Some(name) in r.names && |r.names| > 0
    ensures forall l :: l in r.names <==> l in s.names || l == Some(name)
  {
    WithColumnNames(s, name, Blank(|s.rows|));
    var r := WithColumn(s, name, Blank(|s.rows|));
    assert r.names[ColumnIndex(s.names, name)] == Some(name);
    r
  }

  /** `Series.fillna(method="ffill")`: a missing cell takes the last present value above it. */
  function FFill(col: seq<Cell>): (r: seq<Cell>)
    ensures |r| == |col|
    ensures |col| > 0 ==> r[0] == col[0]
    ensures forall i :: 0 <= i < |col| && col[i] != NA ==> r[i] == col[i]
    ensures forall i :: 0 < i < |col| && col[i] == NA ==> r[i] == r[i - 1]
  {
    if col == [] then []
    else
      var above := FFill(col[..|col| - 1]);
      var x := col[|col| - 1];
      above + [if x != NA || above == [] then x else above[|above| - 1]]
  }

  /** The last position at or before `i` holding a value, if any. */
  function LastValue(col: seq<Cell>, i: nat): (k: Option<nat>)
    requires i < |col|
    ensures k.Some? ==> k.value <= i && col[k.value] != NA
    ensures k.Some? ==> forall m :: k.value < m <= i ==> col[m] == NA
    ensures k.None? ==> forall m :: 0 <= m <= i ==> col[m] == NA
  {
    if col[i] != NA then Some(i) else if i == 0 then None else LastValue(col, i - 1)
  }

  lemma {:induction false} LastValuePrefix(col: seq<Cell>, n: nat, i: nat)
    requires i < n <= |col|
    ensures LastValue(col[..n], i) == LastValue(col, i)
  {
    if col[i] == NA && i > 0 {
      LastValuePrefix(col, n, i - 1);
    }
  }

  /** A forward-filled cell is the last value at or above it, and missing when
      there is none. */
  lemma {:induction false} FFillLastValue(col: seq<Cell>, i: nat)
    requires i < |col|
    ensures LastValue(col, i).Some? ==> FFill(col)[i] == col[LastValue(col, i).value]
    ensures LastValue(col, i).None? ==> FFill(col)[i] == NA
  {
    var n := |col|;
    var init := col[..n - 1];
    if i < n - 1 {
      FFillLastValue(init, i);
      LastValuePrefix(col, n - 1, i);
    } else if col[i] == NA && i > 0 {
      FFillLastValue(init, i - 1);
      LastValuePrefix(col, n - 1, i - 1);
    }
  }

  // ---------------------------------------------------------------------------
  // Categories from header rows (lines 10-74)
  // ---------------------------------------------------------------------------

  /** The first cell of each seed row, missing elsewhere. */
  function SeedColumn(t: Sheet, seeds: seq<bool>): (c: seq<Cell>)
    requires t.Valid() && |t.names| > 0 && |seeds| == |t.rows|
    ensures |c| == |t.rows|
    ensures forall i :: 0 <= i < |c| ==> c[i] == if seeds[i] then t.rows[i][0] else NA
  {
    seq(|t.rows|, i requires 0 <= i < |t.rows| => if seeds[i] then t.rows[i][0] else NA)
  }

  /** The shared shape of the category steps: copy the first cell of each seed row
      into column `name`, fill that column downwards, drop the flagged rows and
      renumber the rest. */
  function Filled(t: Sheet, seeds: seq<bool>, drop: seq<bool>, name: string): (r: Sheet)
    requires t.Valid() && |t.names| > 0 && |seeds| == |t.rows| && |drop| == |t.rows|
    ensures r.Valid()
    ensures Some(name) in t.names ==> r.names == t.names
  {
    KeepRows(WithColumn(t, name, FFill(SeedColumn(t, seeds))), Kept(drop))
  }

  /** Every surviving row is an unflagged input row, in input order; its category is
      the first cell of the last seed row at or above it whose first cell is present
      (missing when there is none), and its other cells are unchanged. */
  lemma FilledRow(t: Sheet, seeds: seq<bool>, drop: seq<bool>, name: string, u: nat)
    requires t.Valid() && |t.names| > 0 && |seeds| == |t.rows| && |drop| == |t.rows|
    requires u < |Kept(drop)|
    ensures |Filled(t, seeds, drop, name).rows| == |Kept(drop)|
    ensures !drop[Kept(drop)[u]]
    ensures LastValue(SeedColumn(t, seeds), Kept(drop)[u]).Some? ==> Filled(t, seeds, drop, name).rows[u][ColumnIndex(t.names, name)] == t.rows[LastValue(SeedColumn(t, seeds), Kept(drop)[u]).value][0]
    ensures LastValue(SeedColumn(t, seeds), Kept(drop)[u]).None? ==> Filled(t, seeds, drop, name).rows[u][ColumnIndex(t.names, name)] == NA
    ensures forall j :: 0 <= j < |t.names| && j != ColumnIndex(t.names, name) ==> Filled(t, seeds, drop, name).rows[u][j] == t.rows[Kept(drop)[u]][j]
  {
    var i := Kept(drop)[u];
    var col := SeedColumn(t, seeds);
    WithColumnReads(t, name, FFill(col), i);
    WithColumnNames(t, name, FFill(col));
    FFillLastValue(col, i);
  }

  function HeaderFlags(t: Sheet, a: nat): (h: seq<bool>)
    requires t.Valid() && a < |t.names|
    ensures |h| == |t.rows| && forall i :: 0 <= i < |h| ==> (h[i] <==> t.rows[i][a] == NA)
  {
    seq(|t.rows|, i requires 0 <= i < |t.rows| => t.rows[i][a] == NA)
  }

  /** `add_second_cat1`: rows without an account number are headers of the rows
      below them. */
  function AddSecondCat1(s: Sheet, accountCol: string): (r: Result<Sheet>)
    requires s.Valid()
    ensures r.Err? <==> Some(accountCol) !in s.names && accountCol != "account_cat2"
    ensures r.Ok? ==> Some("account_cat2") in r.value.names
  {
    var t := Assigned(s, "account_cat2");
    if Some(accountCol) !in t.names then Err("KeyError: '" + accountCol + "'")
    else
      var h := HeaderFlags(t, IndexOf(t.names, Some(accountCol)));
      Ok(Filled(t, h, h, "account_cat2"))
  }

  /** The step fails exactly on a missing account column, and no header row survives it. */
  lemma SecondCat1DropsHeaders(s: Sheet, accountCol: string, u: nat)
    requires s.Valid() && Some(accountCol) in s.names && accountCol != "account_cat2"
    ensures AddSecondCat1(s, accountCol).Ok?
    ensures u < |AddSecondCat1(s, accountCol).value.rows| ==> AddSecondCat1(s, accountCol).value.rows[u][IndexOf(s.names, Some(accountCol))] != NA
  {
    var t := Assigned(s, "account_cat2");
    WithColumnNames(s, "account_cat2", Blank(|s.rows|));
    assert t.names[..|s.names|] == s.names;
    var a := IndexOf(s.names, Some(accountCol));
    assert t.names[a] == Some(accountCol);
    assert Some(accountCol) in t.names;
    IndexOfPrefix(t.names, |s.names|, Some(accountCol));
    var h := HeaderFlags(t, a);
    if u < |Kept(h)| {
      FilledRow(t, h, h, "account_cat2", u);
      var i := Kept(h)[u];
      assert t.names[ColumnIndex(t.names, "account_cat2")] == Some("account_cat2");
      assert Filled(t, h, h, "account_cat2").rows[u][a] == t.rows[i][a];
    }
  }

  /** The two account-range patterns of lines 49-52 and 83-86, with ASCII digits:
      `dddd-dddd` or `dddd - dddd`, the dash being a hyphen or a figure dash. */
  predicate IsDash(c: char)
  {
    c == '-' || c == '\U{2012}'
  }

  predicate FourDigits(t: string, i: nat)
    requires i + 4 <= |t|
  {
    IsDigit(t[i]) && IsDigit(t[i + 1]) && IsDigit(t[i + 2]) && IsDigit(t[i + 3])
  }

  predicate RangeAt(t: string, i: nat)
  {
    (i + 9 <= |t| && FourDigits(t, i) && IsDash(t[i + 4]) && FourDigits(t, i + 5))
    || (i + 11 <= |t| && FourDigits(t, i) && t[i + 4] == ' ' && IsDash(t[i + 5]) && t[i + 6] == ' ' && FourDigits(t, i + 7))
  }

  /** `re.search` of the alternation of both patterns. */
  predicate HasRange(t: string)
  {
    exists i: nat :: i < |t| && RangeAt(t, i)
  }

  function RangeFlags(t: Sheet, a: nat): (h: seq<bool>)
    requires t.Valid() && a < |t.names|
    ensures |h| == |t.rows| && forall i :: 0 <= i < |h| ==> (h[i] <==> HasRange(StrForm(t.rows[i][a])))
  {
    seq(|t.rows|, i requires 0 <= i < |t.rows| => HasRange(StrForm(t.rows[i][a])))
  }

  /** `add_third_cat`: rows whose account cell holds an account range are headers. */
  function AddThirdCat(s: Sheet, accountCol: string): (r: Result<Sheet>)
    requires s.Valid()
    ensures r.Err? <==> Some(accountCol) !in s.names && accountCol != "account_cat3"
    ensures r.Ok? ==> Some("account_cat3") in r.value.names
  {
    var t := Assigned(s, "account_cat3");
    if Some(accountCol) !in t.names then Err("KeyError: '" + accountCol + "'")
    else
      var h := RangeFlags(t, IndexOf(t.names, Some(accountCol)));
      Ok(Filled(t, h, h, "account_cat3"))
  }

  /** No surviving row's account cell holds a range. */
  lemma ThirdCatDropsRanges(s: Sheet, accountCol: string, u: nat)
    requires s.Valid() && Some(accountCol) in s.names && accountCol != "account_cat3"
    ensures AddThirdCat(s, accountCol).Ok?
    ensures u < |AddThirdCat(s, accountCol).value.rows| ==> !HasRange(StrForm(AddThirdCat(s, accountCol).value.rows[u][IndexOf(s.names, Some(accountCol))]))
  {
    var t := Assigned(s, "account_cat3");
    WithColumnNames(s, "account_cat3", Blank(|s.rows|));
    assert t.names[..|s.names|] == s.names;
    var a := IndexOf(s.names, Some(accountCol));
    assert t.names[a] == Some(accountCol);
    assert Some(accountCol) in t.names;
    IndexOfPrefix(t.names, |s.names|, Some(accountCol));
    var h := RangeFlags(t, a);
    if u < |Kept(h)| {
      FilledRow(t, h, h, "account_cat3", u);
      var i := Kept(h)[u];
      assert t.names[ColumnIndex(t.names, "account_cat3")] == Some("account_cat3");
      assert Filled(t, h, h, "account_cat3").rows[u][a] == t.rows[i][a];
    }
  }

  /** `s.str.upper() == s` on a first-column cell: only text equal to its upper case. */
  predicate IsUpperText(c: Cell)
  {
    c.Str? && Upper(c.s) == c.s
  }

  function UpperFlags(t: Sheet): (h: seq<bool>)
    requires t.Valid() && |t.names| > 0
    ensures |h| == |t.rows| && forall i :: 0 <= i < |h| ==> (h[i] <==> IsUpperText(t.rows[i][0]))
  {
    seq(|t.rows|, i requires 0 <= i < |t.rows| => IsUpperText(t.rows[i][0]))
  }

  /** `add_third_cat2`: rows whose first cell is upper-case text are headers; the
      account column is not consulted. */
  function AddThirdCat2(s: Sheet, accountCol: string): (r: Result<Sheet>)
    requires s.Valid()
    ensures r.Ok?
  {
    var t := Assigned(s, "account_cat3");
    var h := UpperFlags(t);
    Ok(Filled(t, h, h, "account_cat3"))
  }

  /** No surviving row starts with upper-case text. */
  lemma ThirdCat2DropsUpper(s: Sheet, accountCol: string, u: nat)
    requires s.Valid() && |s.names| > 0 && s.names[0] != Some("account_cat3")
    requires u < |AddThirdCat2(s, accountCol).value.rows|
    ensures !IsUpperText(AddThirdCat2(s, accountCol).value.rows[u][0])
  {
    var t := Assigned(s, "account_cat3");
    WithColumnNames(s, "account_cat3", Blank(|s.rows|));
    var h := UpperFlags(t);
    FilledRow(t, h, h, "account_cat3", u);
    assert t.names[..|s.names|] == s.names;
    assert t.names[0] == s.names[0];
  }

  /** The rows whose first cell, as text, contains `pattern` ignoring case
      (`str.contains(pattern, flags=re.IGNORECASE)` for a lower-case pattern). */
  function Mentions(s: Sheet, pattern: string): (p: seq<nat>)
    requires s.Valid() && |s.names| > 0
    ensures forall t :: 0 <= t < |p| ==> p[t] < |s.rows| && Mentioning(s, pattern, p[t])
    ensures forall u, t :: 0 <= u < t < |p| ==> p[u] < p[t]
  {
    OstanClean.Positions(s.rows, (row: seq<Cell>) => |row| > 0 && IsSubstring(pattern, Lower(StrForm(row[0]))), |s.rows|)
  }

  /** Row `i` mentions `pattern` in its first cell, ignoring case. */
  predicate Mentioning(s: Sheet, pattern: string, i: nat)
    requires s.Valid() && |s.names| > 0 && i < |s.rows|
  {
    assert s.rows[i] in s.rows;
    IsSubstring(pattern, Lower(StrForm(s.rows[i][0])))
  }

  /** The mentions are exactly the rows mentioning `pattern`. */
  lemma MentionsIff(s: Sheet, pattern: string, i: nat)
    requires s.Valid() && |s.names| > 0
    ensures i in Mentions(s, pattern) <==> i < |s.rows| && Mentioning(s, pattern, i)
  {
    var keep := (row: seq<Cell>) => |row| > 0 && IsSubstring(pattern, Lower(StrForm(row[0])));
    OstanClean.PositionsIff(s.rows, keep, |s.rows|, i);
    if i < |s.rows| {
      assert s.rows[i] in s.rows;
    }
  }

  /** The first mention comes before, and the last after, every row mentioning
      `pattern`: `first_valid_index` and `last_valid_index` of lines 33-39. */
  lemma MentionBounds(s: Sheet, pattern: string, i: nat)
    requires s.Valid() && |s.names| > 0 && |Mentions(s, pattern)| > 0
    requires i < |s.rows| && Mentioning(s, pattern, i)
    ensures FirstMention(s, pattern) <= i <= LastMention(s, pattern)
    ensures Mentioning(s, pattern, FirstMention(s, pattern)) && Mentioning(s, pattern, LastMention(s, pattern))
  {
    MentionsIff(s, pattern, i);
    var m := Mentions(s, pattern);
    var t :| 0 <= t < |m| && m[t] == i;
    assert m[0] <= m[t] <= m[|m| - 1];
  }

  /** The first and the last row mentioning `pattern` (`first_valid_index` and
      `last_valid_index` of the matching rows, whose first cell is present). */
  function FirstMention(s: Sheet, pattern: string): (i: nat)
    requires s.Valid() && |s.names| > 0 && |Mentions(s, pattern)| > 0
    ensures i < |s.rows| && |s.rows[i]| > 0
  {
    Mentions(s, pattern)[0]
  }

  function LastMention(s: Sheet, pattern: string): (i: nat)
    requires s.Valid() && |s.names| > 0 && |Mentions(s, pattern)| > 0
    ensures i < |s.rows|
  {
    var m := Mentions(s, pattern);
    m[|m| - 1]
  }

  predicate HasBothMentions(s: Sheet)
    requires s.Valid()
  {
    |s.names| > 0 && |Mentions(s, "vastaavaa")| > 0 && |Mentions(s, "vastattavaa")| > 0
  }

  /** The seed rows of lines 36-37: the first mention of each word. */
  function Cat2Seeds(s: Sheet): (h: seq<bool>)
    requires s.Valid() && HasBothMentions(s)
    ensures |h| == |s.rows|
    ensures forall i :: 0 <= i < |h| ==> (h[i] <==> i == FirstMention(s, "vastaavaa") || i == FirstMention(s, "vastattavaa"))
  {
    seq(|s.rows|, i requires 0 <= i < |s.rows| => i == FirstMention(s, "vastaavaa") || i == FirstMention(s, "vastattavaa"))
  }

  /** The rows dropped at line 40: the first and the last mention of each word. */
  function Cat2Drop(s: Sheet): (h: seq<bool>)
    requires s.Valid() && HasBothMentions(s)
    ensures |h| == |s.rows|
  {
    seq(|s.rows|, i requires 0 <= i < |s.rows| =>
      i == FirstMention(s, "vastaavaa") || i == LastMention(s, "vastaavaa") || i == FirstMention(s, "vastattavaa") || i == LastMention(s, "vastattavaa"))
  }

  /** `add_second_cat2`: the first rows mentioning "vastaavaa" (assets) and
      "vastattavaa" (liabilities) head the rows below them; the first and the last
      mention of each are dropped. */
  function AddSecondCat2(s: Sheet): (r: Result<Sheet>)
    requires s.Valid()
    ensures r.Err? <==> |s.names| == 0 || !HasBothMentions(s)
    ensures r.Ok? ==> Some("account_cat2") in r.value.names
  {
    if |s.names| == 0 then Err("IndexError: single positional indexer is out-of-bounds")
    else if !HasBothMentions(s) then Err("no row mentions 'vastaavaa' and 'vastattavaa'")
    else Ok(Filled(Assigned(s, "account_cat2"), Cat2Seeds(s), Cat2Drop(s), "account_cat2"))
  }

  /** The later of two heading rows `v` and `w` at or above row `i`. */
  function Heading(v: nat, w: nat, i: nat): (h: Option<nat>)
    ensures h.Some? ==> h.value == v || h.value == w
  {
    if v <= i && w <= i then Some(if v < w then w else v)
    else if v <= i then Some(v)
    else if w <= i then Some(w)
    else None
  }

  /** In a column present only at `v` and `w`, the last value at or above `i` is the
      later of the two that lies there. */
  lemma LastValueOfTwo(col: seq<Cell>, v: nat, w: nat, i: nat)
    requires i < |col| && v < |col| && w < |col| && col[v] != NA && col[w] != NA
    requires forall k :: 0 <= k < |col| && k != v && k != w ==> col[k] == NA
    ensures LastValue(col, i) == Heading(v, w, i)
  {
    var lv := LastValue(col, i);
    if lv.Some? {
      assert lv.value == v || lv.value == w;
    }
  }

  /** A cell whose lower-cased text contains a word of four letters or more is
      present: a missing cell reads "nan". */
  lemma NotNan(c: Cell, word: string)
    requires |word| > 3 && IsSubstring(word, Lower(StrForm(c)))
    ensures c != NA
  {
    SubstringShorter(word, Lower(StrForm(c)));
  }

  lemma {:induction false} SubstringShorter(sub: string, s: string)
    requires IsSubstring(sub, s)
    ensures |sub| <= |s|
    decreases |s|
  {
    if !(|sub| <= |s| && s[..|sub|] == sub) {
      SubstringShorter(sub, s[1..]);
    }
  }

  /** The value a forward fill gives row `i`. */
  function Category(col: seq<Cell>, i: nat): Cell
    requires i < |col|
  {
    match LastValue(col, i)
    case Some(k) => col[k]
    case None => NA
  }

  /** When the category column is new, a surviving row is its input row followed by
      its category. */
  lemma FilledNewColumn(s: Sheet, seeds: seq<bool>, drop: seq<bool>, name: string, u: nat)
    requires s.Valid() && |s.names| > 0 && Some(name) !in s.names
    requires |seeds| == |s.rows| && |drop| == |s.rows| && u < |Kept(drop)|
    ensures |Filled(Assigned(s, name), seeds, drop, name).rows| == |Kept(drop)|
    ensures Filled(Assigned(s, name), seeds, drop, name).rows[u] == s.rows[Kept(drop)[u]] + [Category(SeedColumn(s, seeds), Kept(drop)[u])]
  {
    var t := Assigned(s, name);
    var i := Kept(drop)[u];
    WithNewColumn(s, name, Blank(|s.rows|));
    assert ColumnIndex(t.names, name) == |s.names|;
    FilledRow(t, seeds, drop, name, u);
    assert SeedColumn(t, seeds) == SeedColumn(s, seeds) by {
      forall k | 0 <= k < |s.rows|
        ensures t.rows[k][0] == s.rows[k][0]
      {
        assert t.rows[k] == s.rows[k] + [NA];
      }
    }
    var r := Filled(t, seeds, drop, name);
    assert t.rows[i] == s.rows[i] + [NA];
    assert r.rows[u] == s.rows[i] + [r.rows[u][|s.names|]];
  }

  /** The first cell of the later heading row at or above row `i`, missing above
      both. */
  function HeadingCell(s: Sheet, i: nat): Cell
    requires s.Valid() && HasBothMentions(s)
  {
    match Heading(FirstMention(s, "vastaavaa"), FirstMention(s, "vastattavaa"), i)
    case Some(k) => s.rows[k][0]
    case None => NA
  }

  /** Under `add_second_cat2` a surviving row is an input row other than the four
      mention rows, in order, followed by its category: the first cell of the later
      heading row above it, missing above both. */
  lemma SecondCat2Category(s: Sheet, u: nat)
    requires s.Valid() && HasBothMentions(s) && Some("account_cat2") !in s.names
    requires u < |Kept(Cat2Drop(s))|
    ensures AddSecondCat2(s).Ok? && |AddSecondCat2(s).value.rows| == |Kept(Cat2Drop(s))|
    ensures !Cat2Drop(s)[Kept(Cat2Drop(s))[u]]
    ensures AddSecondCat2(s).value.rows[u] == s.rows[Kept(Cat2Drop(s))[u]] + [HeadingCell(s, Kept(Cat2Drop(s))[u])]
  {
    var v := FirstMention(s, "vastaavaa");
    var w := FirstMention(s, "vastattavaa");
    var i := Kept(Cat2Drop(s))[u];
    FilledNewColumn(s, Cat2Seeds(s), Cat2Drop(s), "account_cat2", u);
    NotNan(s.rows[v][0], "vastaavaa");
    NotNan(s.rows[w][0], "vastattavaa");
    LastValueOfTwo(SeedColumn(s, Cat2Seeds(s)), v, w, i);
  }

  // ---------------------------------------------------------------------------
  // The account name (lines 138-146)
  // ---------------------------------------------------------------------------

  /** `dropna(how="all", axis=1)`: keep the columns holding some value. With no
      rows every column is empty and all are dropped. */
  function DropEmptyColumns(s: Sheet): (r: Sheet)
    requires s.Valid()
    ensures r.Valid() && |r.rows| == |s.rows|
  {
    KeepColumns(s, OstanClean.Positions(Columns(s), OstanClean.NotAllNa, |s.names|))
  }

  /** Dropping empty columns keeps exactly the columns with a value, and invents no label. */
  lemma DropEmptyColumnsKeeps(s: Sheet, j: nat)
    requires s.Valid() && j < |s.names|
    ensures j in OstanClean.Positions(Columns(s), OstanClean.NotAllNa, |s.names|) <==> exists i :: 0 <= i < |s.rows| && s.rows[i][j] != NA
    ensures forall l :: l in DropEmptyColumns(s).names ==> l in s.names
  {
    var cs := Columns(s);
    OstanClean.PositionsIff(cs, OstanClean.NotAllNa, |s.names|, j);
    if OstanClean.NotAllNa(cs[j]) {
      var i :| 0 <= i < |cs[j]| && cs[j][i] != NA;
      assert s.rows[i][j] != NA;
    }
  }

  /** Positions of the unnamed columns. */
  function Unnamed(names: seq<Label>): (p: seq<nat>)
    ensures forall t :: 0 <= t < |p| ==> p[t] < |names| && names[p[t]] == None
  {
    OstanClean.Positions(names, (l: Label) => l.None?, |names|)
  }

  lemma UnnamedIff(names: seq<Label>, j: nat)
    ensures j in Unnamed(names) <==> j < |names| && names[j] == None
  {
    OstanClean.PositionsIff(names, (l: Label) => l.None?, |names|, j);
  }

  /** Python `max` of a non-empty list. */
  function MaxOf(xs: seq<nat>): (m: nat)
    requires |xs| > 0
    ensures m in xs && forall t :: 0 <= t < |xs| ==> xs[t] <= m
  {
    if |xs| == 1 then xs[0]
    else
      var m := MaxOf(xs[..|xs| - 1]);
      assert xs[..|xs| - 1][0] == xs[0];
      if xs[|xs| - 1] > m then xs[|xs| - 1] else m
  }

  /** `fillna("").astype(str)` of one cell. */
  function CellText(c: Cell): string
  {
    if c == NA then "" else StrForm(c)
  }

  /** `''.join` of the texts of a row's cells. */
  function Joined(cells: seq<Cell>): string
  {
    if cells == [] then "" else Joined(cells[..|cells| - 1]) + CellText(cells[|cells| - 1])
  }

  /** The row texts `add_account_name` stores, from the leading columns up to `c`. */
  function NameCells(d: Sheet, c: nat): (col: seq<Cell>)
    requires d.Valid() && c < |d.names|
    ensures |col| == |d.rows|
    ensures forall i :: 0 <= i < |d.rows| ==> col[i] == Str(Joined(d.rows[i][..c + 1]))
  {
    seq(|d.rows|, i requires 0 <= i < |d.rows| => Str(Joined(d.rows[i][..c + 1])))
  }

  /** Lines 141-145 on the table without empty columns. */
  function JoinName(d: Sheet): (r: Result<Sheet>)
    requires d.Valid()
    ensures r.Ok? ==> r.value.Valid()
  {
    var unnamed := Unnamed(d.names);
    if |unnamed| == 0 then Err("ValueError: max() arg is an empty sequence")
    else
      var c := MaxOf(unnamed);
      var w := WithColumn(d, "account_name", NameCells(d, c));
      Ok(Sheet(w.names[c + 1..], seq(|w.rows|, i requires 0 <= i < |w.rows| => w.rows[i][c + 1..])))
  }

  /** `add_account_name`: join the cells up to the last unnamed column into
      `account_name` and keep only the columns after that one. */
  function AddAccountName(s: Sheet): (r: Result<Sheet>)
    requires s.Valid()
    ensures r.Ok? ==> r.value.Valid()
  {
    JoinName(DropEmptyColumns(s))
  }

  /** The join fails exactly when no column is unnamed. */
  lemma JoinNameFails(d: Sheet)
    requires d.Valid()
    ensures JoinName(d).Ok? <==> None in d.names
  {
    if None in d.names {
      UnnamedIff(d.names, IndexOf(d.names, None));
    } else {
      OstanClean.PositionsNone(d.names, (l: Label) => l.None?, |d.names|);
    }
  }

  /** The result is the columns after the last unnamed one followed by
      `account_name`, which joins every cell of the row up to and including that
      column. */
  lemma JoinNameLayout(d: Sheet, i: nat)
    requires d.Valid() && Some("account_name") !in d.names && None in d.names && i < |d.rows|
    ensures JoinName(d).Ok?
    ensures JoinName(d).value.names == d.names[MaxOf(Unnamed(d.names)) + 1..] + [Some("account_name")]
    ensures JoinName(d).value.rows[i] == d.rows[i][MaxOf(Unnamed(d.names)) + 1..] + [Str(Joined(d.rows[i][..MaxOf(Unnamed(d.names)) + 1]))]
  {
    JoinNameFails(d);
    var c := MaxOf(Unnamed(d.names));
    var col := NameCells(d, c);
    WithNewColumn(d, "account_name", col);
    var w := WithColumn(d, "account_name", col);
    assert w.names[c + 1..] == d.names[c + 1..] + [Some("account_name")];
    assert w.rows[i][c + 1..] == d.rows[i][c + 1..] + [col[i]];
  }

  /** Every column that `add_account_name` keeps has a name. */
  lemma JoinNameAllNamed(d: Sheet, j: nat)
    requires d.Valid() && JoinName(d).Ok? && j < |JoinName(d).value.names|
    ensures JoinName(d).value.names[j].Some?
  {
    var unnamed := Unnamed(d.names);
    var c := MaxOf(unnamed);
    var w := WithColumn(d, "account_name", NameCells(d, c));
    var x := c + 1 + j;
    WithColumnNames(d, "account_name", NameCells(d, c));
    UnnamedIff(d.names, x);
    if x < |d.names| {
      assert w.names[x] == d.names[x];
    }
  }
}
