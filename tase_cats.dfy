/** `add_tase_cats` (data/get_account_info.py:77-135): the balance-sheet ("tase")
    category levels. Rows whose account cell holds a range "aaaa-bbbb" name a
    category; every other row with an account number is placed under each range
    that covers its number, one level per column `cat_<k>`, a range going to the
    first level still free for all of its accounts. */
module TaseCats {
  import opened Common
  import OstanClean
  import Enrich
  import opened AccountInfo

  // ---------------------------------------------------------------------------
  // Reading the ranges (lines 94-98)
  // ---------------------------------------------------------------------------

  /** The separator class `[‒\-]`: a hyphen or a figure dash. */
  const Dashes: set<char> := {'-', '\U{2012}'}

  /** The number of columns `str.split(..., expand=True)` produces. */
  function Widest(parts: seq<seq<string>>): (n: nat)
    ensures forall i :: 0 <= i < |parts| ==> |parts[i]| <= n
  {
    if parts == [] then 0
    else
      var n := Widest(parts[..|parts| - 1]);
      if |parts[|parts| - 1]| > n then |parts[|parts| - 1]| else n
  }

  /** `astype(int)` succeeds on the expanded table: no row is padded with `None`
      and every piece reads as an integer. */
  predicate Converts(parts: seq<seq<string>>, n: nat)
  {
    forall i :: 0 <= i < |parts| ==> |parts[i]| == n && forall j :: 0 <= j < n ==> ParseInt(parts[i][j]).Some?
  }

  /** Split every range cell at its dashes, read both pieces as integers and store
      them as two columns `ind1`, `ind2`. */
  function Bounds(cells: seq<Cell>): (r: Result<seq<(int, int)>>)
    ensures r.Ok? ==> |r.value| == |cells|
  {
    var parts := seq(|cells|, i requires 0 <= i < |cells| => SplitOn(StrForm(cells[i]), Dashes));
    var n := Widest(parts);
    if !Converts(parts, n) then Err("ValueError: invalid literal for int() with base 10")
    else if n != 2 then Err("ValueError: Columns must be same length as key")
    else Ok(seq(|cells|, i requires 0 <= i < |cells| => (ParseInt(parts[i][0]).value, ParseInt(parts[i][1]).value)))
  }

  lemma {:induction false} SplitOnWithout(y: string, seps: set<char>)
    requires forall k :: 0 <= k < |y| ==> y[k] !in seps
    ensures SplitOn(y, seps) == [y]
  {
    if y != [] {
      SplitOnWithout(y[1..], seps);
      assert [y[0]] + y[1..] == y;
    }
  }

  /** Splitting `x` + separator + `y`, neither holding a separator, gives `x` and `y`. */
  lemma {:induction false} SplitOnAround(x: string, c: char, y: string, seps: set<char>)
    requires c in seps
    requires forall k :: 0 <= k < |x| ==> x[k] !in seps
    requires forall k :: 0 <= k < |y| ==> y[k] !in seps
    ensures SplitOn(x + [c] + y, seps) == [x, y]
  {
    var s := x + [c] + y;
    if x == [] {
      assert s[1..] == y;
      SplitOnWithout(y, seps);
    } else {
      assert s[1..] == x[1..] + [c] + y;
      SplitOnAround(x[1..], c, y, seps);
      assert [x[0]] + x[1..] == x;
    }
  }

  /** A printed number reads back as itself. */
  lemma ReadsBack(n: nat)
    ensures ParseInt(NatToString(n)) == Some(n)
  {
    ParseIntDigits(NatToString(n));
    NatToStringRoundTrip(n);
  }

  /** A range cell: text, a dash, text, neither piece holding a dash. */
  predicate RangeText(x: string, c: char, y: string)
  {
    c in Dashes && (forall k :: 0 <= k < |x| ==> x[k] !in Dashes) && (forall k :: 0 <= k < |y| ==> y[k] !in Dashes)
  }

  /** Equal widths, at least one row: the widest is that width. */
  lemma {:induction false} WidestEqual(parts: seq<seq<string>>, n: nat)
    requires |parts| > 0 && forall i :: 0 <= i < |parts| ==> |parts[i]| == n
    ensures Widest(parts) == n
  {
    if |parts| > 1 {
      WidestEqual(parts[..|parts| - 1], n);
    }
  }

  /** When every cell is `x`, a dash, `y` with both pieces reading as integers,
      the bounds are those integers; this covers spaces around the dash, leading
      zeros and the figure dash. */
  lemma BoundsOfRanges(cells: seq<Cell>, xs: seq<string>, cs: seq<char>, ys: seq<string>)
    requires |cells| > 0 && |xs| == |cells| && |cs| == |cells| && |ys| == |cells|
    requires forall i :: 0 <= i < |cells| ==> cells[i] == Str(xs[i] + [cs[i]] + ys[i]) && RangeText(xs[i], cs[i], ys[i])
    requires forall i :: 0 <= i < |cells| ==> ParseInt(xs[i]).Some? && ParseInt(ys[i]).Some?
    ensures Bounds(cells).Ok?
    ensures forall i :: 0 <= i < |cells| ==> Bounds(cells).value[i] == (ParseInt(xs[i]).value, ParseInt(ys[i]).value)
  {
    var parts := seq(|cells|, i requires 0 <= i < |cells| => SplitOn(StrForm(cells[i]), Dashes));
    forall i | 0 <= i < |cells|
      ensures parts[i] == [xs[i], ys[i]]
    {
      SplitOnAround(xs[i], cs[i], ys[i], Dashes);
    }
    WidestEqual(parts, 2);
  }

  /** A range cell `x`, dash, `y` yields the integers `x` and `y` read as. */
  lemma BoundsReadRange(cells: seq<Cell>, i: nat, x: string, c: char, y: string)
    requires i < |cells| && cells[i] == Str(x + [c] + y) && RangeText(x, c, y)
    requires Bounds(cells).Ok?
    ensures ParseInt(x).Some? && ParseInt(y).Some?
    ensures Bounds(cells).value[i] == (ParseInt(x).value, ParseInt(y).value)
  {
    var parts := seq(|cells|, j requires 0 <= j < |cells| => SplitOn(StrForm(cells[j]), Dashes));
    SplitOnAround(x, c, y, Dashes);
    assert parts[i] == [x, y];
    assert Converts(parts, Widest(parts)) && Widest(parts) == 2;
    assert ParseInt(parts[i][0]).Some? && ParseInt(parts[i][1]).Some?;
  }

  /** In particular "a-b" yields the bounds a and b. */
  lemma BoundsReadCanonical(cells: seq<Cell>, i: nat, a: nat, b: nat)
    requires i < |cells| && cells[i] == Str(NatToString(a) + "-" + NatToString(b))
    requires Bounds(cells).Ok?
    ensures Bounds(cells).value[i] == (a, b)
  {
    var x := NatToString(a);
    var y := NatToString(b);
    assert x + "-" + y == x + ['-'] + y;
    BoundsReadRange(cells, i, x, '-', y);
    ReadsBack(a);
    ReadsBack(b);
  }

  // ---------------------------------------------------------------------------
  // Account numbers (lines 100-101)
  // ---------------------------------------------------------------------------

  /** `int()` of a float repr `[-]digits.digits`: the fraction is cut off. Other
      reprs (exponents, `inf`) are not read. */
  function TruncatedFloat(repr: string): Option<int>
  {
    if '.' !in repr then None
    else
      var k := IndexOf(repr, '.');
      var whole := repr[..k];
      if !IsDigitString(repr[k + 1..]) then None
      else if IsDigitString(whole) then Some(DigitsValue(whole))
      else if |whole| >= 2 && whole[0] == '-' && IsDigitString(whole[1..]) then Some(-(DigitsValue(whole[1..]) as int))
      else None
  }

  /** On a float with no fraction, truncation gives its integral value. */
  lemma TruncatedIntegral(repr: string)
    requires FloatIntegral(repr).Some?
    ensures TruncatedFloat(repr) == FloatIntegral(repr)
  {
    var d := |repr| - 2;
    var m := repr[..d];
    NoDot(m);
    assert repr == m + ".0";
    IndexOfAfter(m, ".0", '.');
    assert IndexOf(repr, '.') == d;
    assert repr[d + 1..] == "0" && IsDigitString("0");
  }

  /** An integer literal has no decimal point. */
  lemma NoDot(m: string)
    requires IsDigitString(m) || (|m| >= 2 && m[0] == '-' && IsDigitString(m[1..]))
    ensures '.' !in m
  {
    if IsDigitString(m) {
      assert forall i :: 0 <= i < |m| ==> IsDigit(m[i]);
    } else {
      assert forall i :: 1 <= i < |m| ==> m[1..][i - 1] == m[i];
    }
  }

  /** The first `x` in `a + b`, when `a` holds none, is the first one in `b`. */
  lemma {:induction false} IndexOfAfter<T>(a: seq<T>, b: seq<T>, x: T)
    requires x !in a && x in b
    ensures x in a + b && IndexOf(a + b, x) == |a| + IndexOf(b, x)
  {
    if a == [] {
      assert a + b == b;
    } else {
      assert (a + b)[0] == a[0] && a[0] != x;
      assert (a + b)[1..] == a[1..] + b;
      IndexOfAfter(a[1..], b, x);
    }
  }

  /** `astype(int)` of one account cell. */
  function AccountNumber(c: Cell): Option<int>
  {
    match c
    case Int(i) => Some(i)
    case Bool(b) => Some(if b then 1 else 0)
    case Float(r) => TruncatedFloat(r)
    case Str(x) => ParseInt(x)
    case NA => None
  }

  /** `astype(int)` of the account column: all or nothing. */
  function Numbers(cells: seq<Cell>): (r: Result<seq<int>>)
    ensures r.Ok? <==> forall i :: 0 <= i < |cells| ==> AccountNumber(cells[i]).Some?
    ensures r.Ok? ==> |r.value| == |cells| && forall i :: 0 <= i < |cells| ==> Some(r.value[i]) == AccountNumber(cells[i])
  {
    if forall i :: 0 <= i < |cells| ==> AccountNumber(cells[i]).Some?
    then Ok(seq(|cells|, i requires 0 <= i < |cells| => AccountNumber(cells[i]).value))
    else Err("ValueError: invalid literal for int() with base 10")
  }

  // ---------------------------------------------------------------------------
  // Before the loop (lines 81-100)
  // ---------------------------------------------------------------------------

  /** A category range with the account name of its header row. */
  datatype Range = Range(lo: int, hi: int, name: Cell)

  /** What the loop works on: the labels and rows of the kept table, the position
      of the account column, its integer account numbers and the ranges. */
  datatype Prepared = Prepared(names: seq<Label>, account: nat, rows: seq<seq<Cell>>, accounts: seq<int>, ranges: seq<Range>)
  {
    predicate Valid()
    {
      account < |names| && |rows| == |accounts|
      && forall i :: 0 <= i < |rows| ==> |rows[i]| == |names|
    }
  }

  /** The rows kept for numbering: not a range header (line 91) and with an
      account present (line 100). */
  function Remaining(s: Sheet, a: nat): (p: seq<nat>)
    requires s.Valid() && a < |s.names|
    ensures forall t :: 0 <= t < |p| ==> p[t] < |s.rows|
  {
    OstanClean.Positions(s.rows, (row: seq<Cell>) => a < |row| && !HasRange(StrForm(row[a])) && row[a] != NA, |s.rows|)
  }

  /** A row remains exactly when its account cell is present and holds no range. */
  lemma RemainingIff(s: Sheet, a: nat, i: nat)
    requires s.Valid() && a < |s.names|
    ensures i in Remaining(s, a) <==> i < |s.rows| && !HasRange(StrForm(s.rows[i][a])) && s.rows[i][a] != NA
  {
    OstanClean.PositionsIff(s.rows, (row: seq<Cell>) => a < |row| && !HasRange(StrForm(row[a])) && row[a] != NA, |s.rows|, i);
  }

  /** The range header rows (line 88). */
  function RangeRows(s: Sheet, a: nat): seq<nat>
    requires s.Valid() && a < |s.names|
  {
    var h := RangeFlags(s, a);
    OstanClean.Positions(h, (b: bool) => b, |h|)
  }

  /** The range header rows themselves (line 89). */
  function RangeTable(s: Sheet, a: nat): (r: Sheet)
    requires s.Valid() && a < |s.names|
    ensures r.Valid() && r.names == s.names
  {
    KeepRows(s, RangeRows(s, a))
  }

  /** The remaining rows (lines 91 and 100). */
  function RestTable(s: Sheet, a: nat): (r: Sheet)
    requires s.Valid() && a < |s.names|
    ensures r.Valid() && r.names == s.names && |r.rows| == |Remaining(s, a)|
  {
    KeepRows(s, Remaining(s, a))
  }

  /** Each range with the account name of its header row. */
  function Ranges(bounds: seq<(int, int)>, names: seq<Cell>): (r: seq<Range>)
    requires |bounds| == |names|
    ensures |r| == |bounds| && forall k :: 0 <= k < |r| ==> r[k] == Range(bounds[k].0, bounds[k].1, names[k])
  {
    seq(|bounds|, k requires 0 <= k < |bounds| => Range(bounds[k].0, bounds[k].1, names[k]))
  }

  /** Everything `add_tase_cats` computes before its loop, with its failures in
      the order the lines raise them. */
  function Prepare(s: Sheet, accountCol: string): (r: Result<Prepared>)
    requires s.Valid()
    ensures r.Ok? ==> r.value.Valid() && r.value.names == s.names
  {
    if Some(accountCol) !in s.names then Err("KeyError: '" + accountCol + "'")
    else
      var a := IndexOf(s.names, Some(accountCol));
      match AddAccountName(RangeTable(s, a))
      case Err(e) => Err(e)
      case Ok(cats) => PrepareWith(s, a, cats, accountCol)
  }

  /** Lines 94-126 given the header table with its account names. */
  function PrepareWith(s: Sheet, a: nat, cats: Sheet, accountCol: string): (r: Result<Prepared>)
    requires s.Valid() && a < |s.names| && cats.Valid()
    ensures r.Ok? ==> r.value.Valid() && r.value.names == s.names && r.value.account == a
    ensures r.Ok? ==> r.value.rows == RestTable(s, a).rows
  {
    if Some(accountCol) !in cats.names then Err("KeyError: '" + accountCol + "'")
    else
      match Bounds(cats.Column(IndexOf(cats.names, Some(accountCol))))
      case Err(e) => Err(e)
      case Ok(bounds) =>
        var rest := RestTable(s, a);
        match Numbers(rest.Column(a))
        case Err(e) => Err(e)
        case Ok(accounts) =>
          if Some("account_name") !in cats.names then Err("KeyError: 'account_name'")
          else Ok(Prepared(s.names, a, rest.rows, accounts, Ranges(bounds, cats.Column(IndexOf(cats.names, Some("account_name"))))))
  }

  /** Without a range header the step fails: the header table has no rows, so
      dropping its empty columns leaves no unnamed column (line 141). */
  lemma NoRangeFails(s: Sheet, accountCol: string)
    requires s.Valid() && Some(accountCol) in s.names
    requires forall i :: 0 <= i < |s.rows| ==> !HasRange(StrForm(s.rows[i][IndexOf(s.names, Some(accountCol))]))
    ensures Prepare(s, accountCol) == Err("ValueError: max() arg is an empty sequence")
  {
    var a := IndexOf(s.names, Some(accountCol));
    var h := RangeFlags(s, a);
    OstanClean.PositionsNone(h, (b: bool) => b, |h|);
    var cats := RangeTable(s, a);
    assert cats.rows == [];
    var cs := Columns(cats);
    OstanClean.PositionsNone(cs, OstanClean.NotAllNa, |cats.names|);
    var d := DropEmptyColumns(cats);
    assert d.names == [];
    JoinNameFails(d);
  }

  // ---------------------------------------------------------------------------
  // Placing the ranges on levels (lines 102-126)
  // ---------------------------------------------------------------------------

  /** The accounts a range covers (lines 104-105). */
  function InRange(accounts: seq<int>, lo: int, hi: int): (ind: seq<bool>)
    ensures |ind| == |accounts| && forall k :: 0 <= k < |ind| ==> (ind[k] <==> lo <= accounts[k] <= hi)
  {
    seq(|accounts|, k requires 0 <= k < |accounts| => lo <= accounts[k] <= hi)
  }

  /** `all(x is None for x in temp)`: the level is empty for every covered account. */
  predicate Free(col: seq<Cell>, ind: seq<bool>)
    requires |col| == |ind|
  {
    forall k :: 0 <= k < |col| && ind[k] ==> col[k] == NA
  }

  /** `df_cat.loc[ind, level] = name`. */
  function Write(col: seq<Cell>, ind: seq<bool>, name: Cell): (r: seq<Cell>)
    requires |col| == |ind|
    ensures |r| == |col| && forall k :: 0 <= k < |r| ==> r[k] == if ind[k] then name else col[k]
  {
    seq(|col|, k requires 0 <= k < |col| => if ind[k] then name else col[k])
  }

  /** Every level column has one cell per account. */
  predicate Uniform(levels: seq<seq<Cell>>, n: nat)
  {
    forall l :: 0 <= l < |levels| ==> |levels[l]| == n
  }

  /** The search of the `while` loop from level `level` on: the first free level
      takes the range, and past the last level a new empty one is created for it. */
  function PlaceFrom(levels: seq<seq<Cell>>, ind: seq<bool>, name: Cell, level: nat): (r: seq<seq<Cell>>)
    requires Uniform(levels, |ind|) && level <= |levels|
    ensures Uniform(r, |ind|)
    decreases |levels| - level
  {
    if level == |levels| then levels + [Write(Blank(|ind|), ind, name)]
    else if Free(levels[level], ind) then levels[level := Write(levels[level], ind, name)]
    else PlaceFrom(levels, ind, name, level + 1)
  }

  /** The smallest level from `level` on that is free for the range, or the number
      of levels when none is. */
  function FirstFree(levels: seq<seq<Cell>>, ind: seq<bool>, level: nat): (f: nat)
    requires Uniform(levels, |ind|) && level <= |levels|
    ensures level <= f <= |levels|
    ensures forall l :: level <= l < f ==> !Free(levels[l], ind)
    ensures f < |levels| ==> Free(levels[f], ind)
    decreases |levels| - level
  {
    if level == |levels| || Free(levels[level], ind) then level else FirstFree(levels, ind, level + 1)
  }

  /** The loop's placement is a write at the smallest free level, or a new level
      when no existing one is free. */
  lemma {:induction false} PlaceAtFirstFree(levels: seq<seq<Cell>>, ind: seq<bool>, name: Cell, level: nat)
    requires Uniform(levels, |ind|) && level <= |levels|
    ensures FirstFree(levels, ind, level) < |levels| ==> PlaceFrom(levels, ind, name, level) == levels[FirstFree(levels, ind, level) := Write(levels[FirstFree(levels, ind, level)], ind, name)]
    ensures FirstFree(levels, ind, level) == |levels| ==> PlaceFrom(levels, ind, name, level) == levels + [Write(Blank(|ind|), ind, name)]
    decreases |levels| - level
  {
    if level < |levels| && !Free(levels[level], ind) {
      PlaceAtFirstFree(levels, ind, name, level + 1);
    }
  }

  /** Placing a range writes its name for exactly the covered accounts at the first
      free level, overwrites no filled cell, and adds at most one level. */
  lemma PlaceKeeps(levels: seq<seq<Cell>>, ind: seq<bool>, name: Cell, l: nat, k: nat)
    requires Uniform(levels, |ind|) && k < |ind|
    ensures |levels| <= |PlaceFrom(levels, ind, name, 0)| <= |levels| + 1
    ensures FirstFree(levels, ind, 0) < |PlaceFrom(levels, ind, name, 0)|
    ensures l < |levels| && levels[l][k] != NA ==> PlaceFrom(levels, ind, name, 0)[l][k] == levels[l][k]
    ensures l == FirstFree(levels, ind, 0) ==> PlaceFrom(levels, ind, name, 0)[l][k] == if ind[k] then name else if l < |levels| then levels[l][k] else NA
    ensures l != FirstFree(levels, ind, 0) && l < |levels| ==> PlaceFrom(levels, ind, name, 0)[l][k] == levels[l][k]
  {
    PlaceAtFirstFree(levels, ind, name, 0);
  }

  /** The levels after the first `n` ranges, in order. */
  function Placed(accounts: seq<int>, ranges: seq<Range>, n: nat): (r: seq<seq<Cell>>)
    requires n <= |ranges|
    ensures Uniform(r, |accounts|)
  {
    if n == 0 then []
    else PlaceFrom(Placed(accounts, ranges, n - 1), InRange(accounts, ranges[n - 1].lo, ranges[n - 1].hi), ranges[n - 1].name, 0)
  }

  /** A filled cell stays filled with the same name through all later ranges, and
      levels are never removed. */
  lemma {:induction false} PlacedKeeps(accounts: seq<int>, ranges: seq<Range>, n: nat, m: nat, l: nat, k: nat)
    requires n <= m <= |ranges| && k < |accounts|
    ensures |Placed(accounts, ranges, n)| <= |Placed(accounts, ranges, m)|
    ensures l < |Placed(accounts, ranges, n)| && Placed(accounts, ranges, n)[l][k] != NA ==> Placed(accounts, ranges, m)[l][k] == Placed(accounts, ranges, n)[l][k]
    decreases m - n
  {
    if n < m {
      PlacedKeeps(accounts, ranges, n, m - 1, l, k);
      var ind := InRange(accounts, ranges[m - 1].lo, ranges[m - 1].hi);
      PlaceKeeps(Placed(accounts, ranges, m - 1), ind, ranges[m - 1].name, l, k);
    }
  }

  /** Every account a range covers carries the range's name at some level of the
      final table. */
  lemma PlacedNamesCovered(accounts: seq<int>, ranges: seq<Range>, j: nat, k: nat)
    requires j < |ranges| && k < |accounts| && ranges[j].name != NA
    requires ranges[j].lo <= accounts[k] <= ranges[j].hi
    ensures exists l :: 0 <= l < |Placed(accounts, ranges, |ranges|)| && Placed(accounts, ranges, |ranges|)[l][k] == ranges[j].name
  {
    var before := Placed(accounts, ranges, j);
    var ind := InRange(accounts, ranges[j].lo, ranges[j].hi);
    var l := FirstFree(before, ind, 0);
    PlaceKeeps(before, ind, ranges[j].name, l, k);
    assert Placed(accounts, ranges, j + 1)[l][k] == ranges[j].name;
    PlacedKeeps(accounts, ranges, j + 1, |ranges|, l, k);
  }

  // ---------------------------------------------------------------------------
  // Joining the levels to the rows (lines 127-135)
  // ---------------------------------------------------------------------------

  /** `pd.merge(how="inner")`: every left row paired with each right row of equal
      key, in left order. */
  function InnerJoin<L, R>(left: seq<L>, kx: seq<Key>, right: seq<R>, ky: seq<Key>): seq<(L, R)>
    requires |left| == |kx| && |ky| == |right|
  {
    Enrich.Flatten(seq(|left|, i requires 0 <= i < |left| => Enrich.Paired(left[i], right, Enrich.MatchesOf(kx[i], ky, |ky|))))
  }

  /** Joining a table with another keyed by the same keys loses no row. */
  lemma InnerJoinKeepsEveryRow<L, R>(left: seq<L>, right: seq<R>, ky: seq<Key>)
    requires |left| == |ky| && |right| == |ky|
    ensures |InnerJoin(left, ky, right, ky)| >= |left|
  {
    var rows := seq(|left|, i requires 0 <= i < |left| => Enrich.Paired(left[i], right, Enrich.MatchesOf(ky[i], ky, |ky|)));
    forall i | 0 <= i < |left|
      ensures |rows[i]| >= 1
    {
      Enrich.MatchesOfIff(ky[i], ky, |ky|, i);
    }
    Enrich.FlattenNonEmpty(rows);
  }

  /** With distinct keys, the row of key `ky[i]` finds exactly right row `i`. */
  lemma PairedUnique<L, R>(lrow: L, right: seq<R>, ky: seq<Key>, i: nat)
    requires |right| == |ky| && i < |ky| && Enrich.DistinctKeys(ky)
    ensures Enrich.Paired(lrow, right, Enrich.MatchesOf(ky[i], ky, |ky|)) == [(lrow, right[i])]
  {
    Enrich.JoinRowUnique(lrow, ky[i], right, ky, right[i]);
    Enrich.MatchesOfIff(ky[i], ky, |ky|, i);
    var j := IndexOf(ky, ky[i]);
    assert ky[j] == ky[i];
  }

  /** With distinct keys on both sides the join pairs row `i` with row `i`. */
  lemma InnerJoinDistinct<L, R>(left: seq<L>, right: seq<R>, ky: seq<Key>)
    requires |left| == |ky| && |right| == |ky| && Enrich.DistinctKeys(ky)
    ensures |InnerJoin(left, ky, right, ky)| == |left|
    ensures forall i :: 0 <= i < |left| ==> InnerJoin(left, ky, right, ky)[i] == (left[i], right[i])
  {
    var rows := seq(|left|, i requires 0 <= i < |left| => Enrich.Paired(left[i], right, Enrich.MatchesOf(ky[i], ky, |ky|)));
    forall i | 0 <= i < |left|
      ensures rows[i] == [(left[i], right[i])]
    {
      PairedUnique(left[i], right, ky, i);
    }
    Enrich.FlattenSingletons(rows);
  }

  function LevelName(catI: int, l: nat): Label
  {
    Some("cat_" + IntToString(catI + l))
  }

  /** The rows of the category table: the level cells of each account. */
  function Across(levels: seq<seq<Cell>>, n: nat): (rows: seq<seq<Cell>>)
    requires Uniform(levels, n)
    ensures |rows| == n && forall k :: 0 <= k < n ==> |rows[k]| == |levels| && forall l :: 0 <= l < |levels| ==> rows[k][l] == levels[l][k]
  {
    seq(n, k requires 0 <= k < n => seq(|levels|, l requires 0 <= l < |levels| => levels[l][k]))
  }

  /** The kept rows with their account cell converted to an integer (line 101). */
  function Numbered(p: Prepared): (rows: seq<seq<Cell>>)
    requires p.Valid()
    ensures |rows| == |p.rows|
    ensures forall i :: 0 <= i < |rows| ==> rows[i] == p.rows[i][p.account := Int(p.accounts[i])]
  {
    seq(|p.rows|, i requires 0 <= i < |p.rows| => p.rows[i][p.account := Int(p.accounts[i])])
  }

  function AccountKeys(p: Prepared): (ks: seq<Key>)
    ensures |ks| == |p.accounts| && forall i :: 0 <= i < |ks| ==> ks[i] == KNum(p.accounts[i])
  {
    seq(|p.accounts|, i requires 0 <= i < |p.accounts| => KNum(p.accounts[i]))
  }

  /** The merge on the account column, followed by the level columns `cat_<k>`. */
  function Merge(p: Prepared, levels: seq<seq<Cell>>, catI: int): Sheet
    requires p.Valid() && Uniform(levels, |p.accounts|)
  {
    var joined := InnerJoin(Numbered(p), AccountKeys(p), Across(levels, |p.accounts|), AccountKeys(p));
    Sheet(p.names + seq(|levels|, l requires 0 <= l < |levels| => LevelName(catI, l)),
          seq(|joined|, t requires 0 <= t < |joined| => joined[t].0 + joined[t].1))
  }

  /** With distinct account numbers the merge keeps every row once, in order, each
      followed by its level cells. */
  lemma MergeDistinct(p: Prepared, levels: seq<seq<Cell>>, catI: int, i: nat)
    requires p.Valid() && Uniform(levels, |p.accounts|) && i < |p.accounts|
    requires forall x, y :: 0 <= x < y < |p.accounts| ==> p.accounts[x] != p.accounts[y]
    ensures |Merge(p, levels, catI).rows| == |p.rows|
    ensures Merge(p, levels, catI).rows[i] == p.rows[i][p.account := Int(p.accounts[i])] + Across(levels, |p.accounts|)[i]
  {
    InnerJoinDistinct(Numbered(p), Across(levels, |p.accounts|), AccountKeys(p));
  }

  /** The merge never loses a row. */
  lemma MergeKeepsEveryRow(p: Prepared, levels: seq<seq<Cell>>, catI: int)
    requires p.Valid() && Uniform(levels, |p.accounts|)
    ensures |Merge(p, levels, catI).rows| >= |p.rows|
  {
    InnerJoinKeepsEveryRow(Numbered(p), Across(levels, |p.accounts|), AccountKeys(p));
  }

  // ---------------------------------------------------------------------------
  // The step
  // ---------------------------------------------------------------------------

  /** What `add_tase_cats` returns. */
  function TaseCats(s: Sheet, accountCol: string, catI: int): (r: Result<Sheet>)
    requires s.Valid()
    ensures Some(accountCol) !in s.names ==> r.Err?
    ensures r.Ok? <==> Prepare(s, accountCol).Ok?
    ensures r.Ok? ==> |s.names| <= |r.value.names| && r.value.names[..|s.names|] == s.names
    ensures r.Ok? ==> |r.value.rows| >= |Prepare(s, accountCol).value.rows|
  {
    match Prepare(s, accountCol)
    case Err(e) => Err(e)
    case Ok(p) =>
      var levels := Placed(p.accounts, p.ranges, |p.ranges|);
      MergeKeepsEveryRow(p, levels, catI);
      Ok(Merge(p, levels, catI))
  }

  /** The `for` loop of lines 102-126: each range in turn searches upwards from
      the first level for one free on all of its accounts, creating an empty
      level past the last, and writes its name there. */
  method PlaceAll(accounts: seq<int>, ranges: seq<Range>) returns (levels: seq<seq<Cell>>)
    ensures levels == Placed(accounts, ranges, |ranges|)
  {
    var n := |accounts|;
    levels := [];
    for i := 0 to |ranges|
      invariant levels == Placed(accounts, ranges, i)
    {
      var ind := InRange(accounts, ranges[i].lo, ranges[i].hi);
      var name := ranges[i].name;
      var level := 0;
      var searching := true;
      while searching
        invariant Uniform(levels, n) && level <= |levels|
        invariant searching ==> levels == Placed(accounts, ranges, i)
        invariant searching ==> PlaceFrom(levels, ind, name, level) == PlaceFrom(levels, ind, name, 0)
        invariant !searching ==> levels == PlaceFrom(Placed(accounts, ranges, i), ind, name, 0)
        decreases if searching then |levels| + 1 - level else 0
      {
        var column := if level < |levels| then levels[level] else Blank(n);
        if Free(column, ind) {
          if level < |levels| {
            levels := levels[level := Write(column, ind, name)];
          } else {
            levels := levels + [Write(column, ind, name)];
          }
          searching := false;
        } else {
          level := level + 1;
        }
      }
    }
  }

  /** `add_tase_cats`. The order check of line 128 compares the category index
      with the account column it was built from, so it never raises. */
  method AddTaseCats(s: Sheet, accountCol: string, catI: int) returns (r: Result<Sheet>)
    requires s.Valid()
    ensures r == TaseCats(s, accountCol, catI)
  {
    var prepared := Prepare(s, accountCol);
    if prepared.Err? {
      return Err(prepared.msg);
    }
    var p := prepared.value;
    var index := p.accounts;
    var levels := PlaceAll(p.accounts, p.ranges);
    if index != p.accounts {
      return Err("Error.");
    }
    r := Ok(Merge(p, levels, catI));
  }
}
