/** The enrichment step of src/osta/enrich_data.py: the input checks of the four
    `__add_*` steps and `__add_data_from_db`, which pairs the key columns of the
    invoice table with those of a reference table and left-joins the reference
    columns, renamed with a prefix, onto the invoice rows. */
module Enrich {
  import opened Common
  import opened Utils
  import opened Linkage
  import opened Subsets

  // ---------------------------------------------------------------------------
  // Pairing the key columns (lines 224-232)
  // ---------------------------------------------------------------------------

  /** The positions below `n` whose name is a column. */
  function Where(xs: seq<string>, names: seq<string>, n: nat): (w: seq<nat>)
    requires n <= |xs|
    ensures |w| <= n
    ensures forall t :: 0 <= t < |w| ==> w[t] < n && xs[w[t]] in names
  {
    if n == 0 then [] else Where(xs, names, n - 1) + (if xs[n - 1] in names then [n - 1] else [])
  }

  /** `Present` keeps the names at the positions `Where` finds. */
  lemma {:induction false} PresentWhere(xs: seq<string>, names: seq<string>, n: nat)
    requires n <= |xs|
    ensures Present(xs[..n], names) == Pick(xs, Where(xs, names, n))
  {
    if n > 0 {
      PresentWhere(xs, names, n - 1);
      var a := xs[..n];
      assert a[..|a| - 1] == xs[..n - 1];
      assert Present(a, names) == Present(xs[..n - 1], names) + (if xs[n - 1] in names then [xs[n - 1]] else []);
      var w := Where(xs, names, n - 1);
      if xs[n - 1] in names {
        PickSnoc(xs, w, n - 1);
      } else {
        assert Where(xs, names, n) == w;
      }
    }
  }

  /** The positions below `n` where both the invoice column and the reference
      column exist. */
  function Pairs(check: seq<string>, refs: seq<string>, dfNames: seq<string>, dbNames: seq<string>, n: nat): (p: seq<nat>)
    requires n <= |check| && n <= |refs|
    ensures |p| <= n
    ensures forall t :: 0 <= t < |p| ==> p[t] < n && check[p[t]] in dfNames && refs[p[t]] in dbNames
  {
    if n == 0 then []
    else
      Pairs(check, refs, dfNames, dbNames, n - 1)
      + (if check[n - 1] in dfNames && refs[n - 1] in dbNames then [n - 1] else [])
  }

  function Min(a: nat, b: nat): nat { if a <= b then a else b }

  /** Intended pairing: the i-th invoice key goes with the i-th reference key, and a
      pair is kept when both columns exist. */
  function Align(check: seq<string>, refs: seq<string>, dfNames: seq<string>, dbNames: seq<string>): (r: (seq<string>, seq<string>))
    ensures |r.0| == |r.1|
    ensures forall t :: 0 <= t < |r.0| ==> r.0[t] in dfNames && r.1[t] in dbNames
  {
    var p := Pairs(check, refs, dfNames, dbNames, Min(|check|, |refs|));
    (Pick(check, p), Pick(refs, p))
  }

  /** Every key is found in `from` at a position below `n`. */
  predicate PositionsBelow(keys: seq<string>, from: seq<string>, n: nat)
  {
    forall t :: 0 <= t < |keys| ==> keys[t] in from && IndexOf(from, keys[t]) < n
  }

  /** `src[from.index(k)]` for each key `k`, as the list comprehension builds it. */
  function Reindexed(src: seq<string>, keys: seq<string>, from: seq<string>): (r: seq<string>)
    requires PositionsBelow(keys, from, |src|)
    ensures |r| == |keys|
    ensures forall t :: 0 <= t < |keys| ==> r[t] == src[IndexOf(from, keys[t])]
  {
    seq(|keys|, t requires 0 <= t < |keys| => src[IndexOf(from, keys[t])])
  }

  /** As written: each filtered list is indexed by positions taken in the other,
      unfiltered, list; an index past the end raises. */
  function AlignAsWritten(check: seq<string>, refs: seq<string>, dfNames: seq<string>, dbNames: seq<string>): (r: Result<(seq<string>, seq<string>)>)
    ensures r.Err? ==> r.msg == "IndexError: list index out of range"
    ensures r.Ok? ==> |r.value.0| == |r.value.1|
    ensures r.Ok? ==> forall t :: 0 <= t < |r.value.0| ==> r.value.0[t] in dfNames && r.value.1[t] in dbNames
  {
    var colsDf := Present(check, dfNames);
    var colsDb := Present(refs, dbNames);
    if |colsDf| > |colsDb| then
      if PositionsBelow(colsDb, refs, |colsDf|) then Ok((Reindexed(colsDf, colsDb, refs), colsDb))
      else Err("IndexError: list index out of range")
    else
      if PositionsBelow(colsDf, check, |colsDb|) then Ok((colsDf, Reindexed(colsDb, colsDf, check)))
      else Err("IndexError: list index out of range")
  }

  lemma {:induction false} PairsIff(check: seq<string>, refs: seq<string>, dfNames: seq<string>, dbNames: seq<string>, n: nat, i: nat)
    requires n <= |check| && n <= |refs|
    ensures i in Pairs(check, refs, dfNames, dbNames, n) <==> i < n && check[i] in dfNames && refs[i] in dbNames
  {
    if n > 0 {
      PairsIff(check, refs, dfNames, dbNames, n - 1, i);
    }
  }

  /** The intended pairing holds exactly the pairs of keys at one position whose
      columns both exist. */
  lemma AlignIff(check: seq<string>, refs: seq<string>, dfNames: seq<string>, dbNames: seq<string>, c: string, m: string)
    ensures var r := Align(check, refs, dfNames, dbNames);
      (exists t :: 0 <= t < |r.0| && r.0[t] == c && r.1[t] == m) <==>
      (exists i :: 0 <= i < |check| && i < |refs| && check[i] == c && refs[i] == m && c in dfNames && m in dbNames)
  {
    var n := Min(|check|, |refs|);
    var p := Pairs(check, refs, dfNames, dbNames, n);
    var r := Align(check, refs, dfNames, dbNames);
    if exists i :: 0 <= i < |check| && i < |refs| && check[i] == c && refs[i] == m && c in dfNames && m in dbNames {
      var i :| 0 <= i < |check| && i < |refs| && check[i] == c && refs[i] == m && c in dfNames && m in dbNames;
      PairsIff(check, refs, dfNames, dbNames, n, i);
      var t :| 0 <= t < |p| && p[t] == i;
      assert r.0[t] == c && r.1[t] == m;
    }
  }

  predicate Distinct(xs: seq<string>)
  {
    forall s, t :: 0 <= s < |xs| && 0 <= t < |xs| && s != t ==> xs[s] != xs[t]
  }

  lemma IndexOfDistinct(xs: seq<string>, t: nat)
    requires Distinct(xs) && t < |xs|
    ensures IndexOf(xs, xs[t]) == t
  {
    var k := IndexOf(xs, xs[t]);
  }

  lemma {:induction false} PresentAll(xs: seq<string>, names: seq<string>)
    requires forall x :: x in xs ==> x in names
    ensures Present(xs, names) == xs
  {
    if xs != [] {
      PresentAll(xs[..|xs| - 1], names);
      assert xs == xs[..|xs| - 1] + [xs[|xs| - 1]];
    }
  }

  /** With every invoice key present, only the reference columns decide a pair. */
  lemma {:induction false} PairsWhere(check: seq<string>, refs: seq<string>, dfNames: seq<string>, dbNames: seq<string>, n: nat)
    requires n <= |check| && n <= |refs| && forall x :: x in check ==> x in dfNames
    ensures Pairs(check, refs, dfNames, dbNames, n) == Where(refs, dbNames, n)
  {
    if n > 0 {
      PairsWhere(check, refs, dfNames, dbNames, n - 1);
      assert check[n - 1] in check;
    }
  }

  /** A position list as long as its range holds every position. */
  lemma {:induction false} WhereFull(xs: seq<string>, names: seq<string>, n: nat)
    requires n <= |xs| && |Where(xs, names, n)| == n
    ensures forall t :: 0 <= t < n ==> Where(xs, names, n)[t] == t
  {
    if n > 0 {
      assert xs[n - 1] in names;
      WhereFull(xs, names, n - 1);
    }
  }

  /** With every invoice key found and more invoice keys than reference keys,
      the as-written branch indexes the invoice keys by reference positions. */
  lemma AgreeWhenFewerRefs(check: seq<string>, refs: seq<string>, dfNames: seq<string>, dbNames: seq<string>)
    requires |check| == |refs| && Distinct(refs)
    requires forall x :: x in check ==> x in dfNames
    requires |check| > |Present(refs, dbNames)|
    ensures AlignAsWritten(check, refs, dfNames, dbNames) == Ok(Align(check, refs, dfNames, dbNames))
  {
    var n := |check|;
    PresentAll(check, dfNames);
    PresentWhere(refs, dbNames, n);
    assert refs[..n] == refs;
    PairsWhere(check, refs, dfNames, dbNames, n);
    var w := Where(refs, dbNames, n);
    var colsDb := Present(refs, dbNames);
    forall t | 0 <= t < |colsDb|
      ensures colsDb[t] in refs && IndexOf(refs, colsDb[t]) == w[t]
    {
      IndexOfDistinct(refs, w[t]);
    }
    assert PositionsBelow(colsDb, refs, n);
    assert Min(|check|, |refs|) == n;
    var r := Align(check, refs, dfNames, dbNames);
    assert colsDb == Present(refs[..n], dbNames);
    assert r.1 == colsDb;
    assert Reindexed(check, colsDb, refs) == r.0;
  }

  /** A key list found in full: its positions are all positions. */
  lemma AllFound(xs: seq<string>, names: seq<string>)
    requires |xs| <= |Present(xs, names)|
    ensures Present(xs, names) == xs
    ensures |Where(xs, names, |xs|)| == |xs|
    ensures forall t :: 0 <= t < |xs| ==> Where(xs, names, |xs|)[t] == t
  {
    var n := |xs|;
    PresentWhere(xs, names, n);
    assert xs[..n] == xs;
    WhereFull(xs, names, n);
  }

  /** With both key lists found in full, the intended pairing is the identity. */
  lemma AlignAllFound(check: seq<string>, refs: seq<string>, dfNames: seq<string>, dbNames: seq<string>)
    requires |check| == |refs| && forall x :: x in check ==> x in dfNames
    requires |check| <= |Present(refs, dbNames)|
    ensures Align(check, refs, dfNames, dbNames).0 == check
    ensures Align(check, refs, dfNames, dbNames).1 == refs
  {
    var n := |check|;
    AllFound(refs, dbNames);
    PairsWhere(check, refs, dfNames, dbNames, n);
    assert Min(|check|, |refs|) == n;
    var w := Where(refs, dbNames, n);
    PickAll(check, w);
    PickAll(refs, w);
  }

  /** With every invoice key found and every reference key found too, the
      as-written branch indexes the reference keys by invoice positions. */
  lemma AgreeWhenAllRefs(check: seq<string>, refs: seq<string>, dfNames: seq<string>, dbNames: seq<string>)
    requires |check| == |refs| && Distinct(check)
    requires forall x :: x in check ==> x in dfNames
    requires |check| <= |Present(refs, dbNames)|
    ensures AlignAsWritten(check, refs, dfNames, dbNames) == Ok(Align(check, refs, dfNames, dbNames))
  {
    var n := |check|;
    PresentAll(check, dfNames);
    AllFound(refs, dbNames);
    AlignAllFound(check, refs, dfNames, dbNames);
    forall t | 0 <= t < n
      ensures check[t] in check && IndexOf(check, check[t]) == t
    {
      IndexOfDistinct(check, t);
    }
    assert PositionsBelow(check, check, n);
    assert Reindexed(refs, check, check) == refs;
  }

  /** The pairing as written agrees with the intended one whenever every invoice
      key column exists and each key list names distinct columns: the situation of
      the `__add_*` callers, which pass only columns found in the table. */
  lemma AlignAgreesOnFoundColumns(check: seq<string>, refs: seq<string>, dfNames: seq<string>, dbNames: seq<string>)
    requires |check| == |refs| && Distinct(check) && Distinct(refs)
    requires forall x :: x in check ==> x in dfNames
    ensures AlignAsWritten(check, refs, dfNames, dbNames) == Ok(Align(check, refs, dfNames, dbNames))
  {
    if |check| > |Present(refs, dbNames)| {
      AgreeWhenFewerRefs(check, refs, dfNames, dbNames);
    } else {
      AgreeWhenAllRefs(check, refs, dfNames, dbNames);
    }
  }

  /** `Present` on a list grown by one name. */
  lemma PresentSnoc(xs: seq<string>, x: string, names: seq<string>)
    ensures Present(xs + [x], names) == Present(xs, names) + (if x in names then [x] else [])
  {
    assert (xs + [x])[..|xs|] == xs;
  }

  lemma OrgKeysPresent(dfNames: seq<string>)
    requires dfNames == ["org_number", "org_name"]
    ensures Present(["org_id", "org_number", "org_name"], dfNames) == ["org_number", "org_name"]
  {
    assert "org_id" !in dfNames;
    PresentSnoc([], "org_id", dfNames);
    assert [] + ["org_id"] == ["org_id"];
    PresentSnoc(["org_id"], "org_number", dfNames);
    assert ["org_id"] + ["org_number"] == ["org_id", "org_number"];
    PresentSnoc(["org_id", "org_number"], "org_name", dfNames);
    assert ["org_id", "org_number"] + ["org_name"] == ["org_id", "org_number", "org_name"];
  }

  /** The reference key columns found in a reference table holding `x` only. */
  lemma RefKeysPresent(x: string)
    requires x == "number" || x == "name"
    ensures Present(["bid", "number", "name"], [x]) == [x]
  {
    var dbNames := [x];
    assert "bid" !in dbNames;
    PresentSnoc([], "bid", dbNames);
    assert [] + ["bid"] == ["bid"];
    PresentSnoc(["bid"], "number", dbNames);
    assert ["bid"] + ["number"] == ["bid", "number"];
    PresentSnoc(["bid", "number"], "name", dbNames);
    assert ["bid", "number"] + ["name"] == ["bid", "number", "name"];
  }

  /** The invoice table and the reference tables of the two examples below. */
  const OrgCheck: seq<string> := ["org_id", "org_number", "org_name"]
  const OrgRefs: seq<string> := ["bid", "number", "name"]
  const OrgFound: seq<string> := ["org_number", "org_name"]

  /** The first branch of `AlignAsWritten`, for filtered lists already known. */
  lemma AlignAsWrittenFewerRefs(check: seq<string>, refs: seq<string>, dfNames: seq<string>, dbNames: seq<string>,
                                colsDf: seq<string>, colsDb: seq<string>)
    requires Present(check, dfNames) == colsDf && Present(refs, dbNames) == colsDb
    requires |colsDf| > |colsDb| && PositionsBelow(colsDb, refs, |colsDf|)
    ensures AlignAsWritten(check, refs, dfNames, dbNames) == Ok((Reindexed(colsDf, colsDb, refs), colsDb))
  {
  }

  /** The same branch when a position is past the end of the filtered list. */
  lemma AlignAsWrittenFewerRefsRaises(check: seq<string>, refs: seq<string>, dfNames: seq<string>, dbNames: seq<string>,
                                      colsDf: seq<string>, colsDb: seq<string>)
    requires Present(check, dfNames) == colsDf && Present(refs, dbNames) == colsDb
    requires |colsDf| > |colsDb| && !PositionsBelow(colsDb, refs, |colsDf|)
    ensures AlignAsWritten(check, refs, dfNames, dbNames).Err?
  {
  }

  lemma OrgRefsPositions()
    ensures IndexOf(OrgRefs, "number") == 1 && IndexOf(OrgRefs, "name") == 2
  {
    assert OrgRefs[1] == "number" && "number" !in OrgRefs[..1];
    assert OrgRefs[2] == "name" && "name" !in OrgRefs[..2];
  }

  /** As written, a table without an `org_id` column and a reference table with
      only `number` pair `org_name` with `number`. */
  lemma AlignAsWrittenMispairs()
    ensures AlignAsWritten(OrgCheck, OrgRefs, OrgFound, ["number"]) == Ok((["org_name"], ["number"]))
  {
    MispairsBranch();
    MispairsReindexed();
  }

  lemma MispairsBranch()
    ensures AlignAsWritten(OrgCheck, OrgRefs, OrgFound, ["number"]) == Ok((Reindexed(OrgFound, ["number"], OrgRefs), ["number"]))
  {
    OrgKeysPresent(OrgFound);
    RefKeysPresent("number");
    OrgRefsPositions();
    var colsDb: seq<string> := ["number"];
    assert PositionsBelow(colsDb, OrgRefs, 2);
    AlignAsWrittenFewerRefs(OrgCheck, OrgRefs, OrgFound, ["number"], OrgFound, colsDb);
  }

  lemma MispairsReindexed()
    ensures PositionsBelow(["number"], OrgRefs, |OrgFound|)
    ensures Reindexed(OrgFound, ["number"], OrgRefs) == ["org_name"]
  {
    OrgRefsPositions();
    var re := Reindexed(OrgFound, ["number"], OrgRefs);
    assert re[0] == "org_name";
  }

  /** Intended, the same tables pair `org_number` with `number`. */
  lemma AlignPairsNumbers()
    ensures Align(OrgCheck, OrgRefs, OrgFound, ["number"]) == (["org_number"], ["number"])
  {
    var dbNames := ["number"];
    assert OrgCheck[0] !in OrgFound && OrgCheck[1] in OrgFound && OrgCheck[2] in OrgFound;
    assert OrgRefs[1] in dbNames && OrgRefs[2] !in dbNames;
    assert Pairs(OrgCheck, OrgRefs, OrgFound, dbNames, 1) == [];
    assert Pairs(OrgCheck, OrgRefs, OrgFound, dbNames, 2) == [1];
    assert Pairs(OrgCheck, OrgRefs, OrgFound, dbNames, 3) == [1];
    var p := Pairs(OrgCheck, OrgRefs, OrgFound, dbNames, 3);
    assert Pick(OrgCheck, p) == ["org_number"];
    assert Pick(OrgRefs, p) == ["number"];
  }

  /** As written, the same table against a reference table with only `name`
      indexes past the end of the filtered list and raises. */
  lemma AlignAsWrittenRaises()
    ensures AlignAsWritten(OrgCheck, OrgRefs, OrgFound, ["name"]).Err?
  {
    OrgKeysPresent(OrgFound);
    RefKeysPresent("name");
    OrgRefsPositions();
    var colsDb: seq<string> := ["name"];
    assert !PositionsBelow(colsDb, OrgRefs, 2);
    AlignAsWrittenFewerRefsRaises(OrgCheck, OrgRefs, OrgFound, ["name"], OrgFound, colsDb);
  }

  /** Intended, those tables pair `org_name` with `name`. */
  lemma AlignPairsNames()
    ensures Align(OrgCheck, OrgRefs, OrgFound, ["name"]) == (["org_name"], ["name"])
  {
    var dbNames := ["name"];
    assert Pairs(OrgCheck, OrgRefs, OrgFound, dbNames, 1) == [];
    assert Pairs(OrgCheck, OrgRefs, OrgFound, dbNames, 2) == [];
    assert Pairs(OrgCheck, OrgRefs, OrgFound, dbNames, 3) == [2];
    var p := Pairs(OrgCheck, OrgRefs, OrgFound, dbNames, 3);
    assert Pick(OrgCheck, p) == ["org_name"];
    assert Pick(OrgRefs, p) == ["name"];
  }

  // ---------------------------------------------------------------------------
  // Join keys (lines 259-267)
  // ---------------------------------------------------------------------------

  /** `all(col.dropna().astype(str).str.isnumeric())`. */
  predicate AllNumeric(col: seq<Cell>)
  {
    forall i :: 0 <= i < |col| && col[i] != NA ==> IsDigitString(StrForm(col[i]))
  }

  /** How the two key columns are brought to one type: both to numbers, both to
      text when their types differ, or left as they are. */
  datatype KeyMode = Numeric | Text | Raw

  function ModeOf(x: seq<Cell>, y: seq<Cell>, dx: DType, dy: DType): KeyMode
  {
    if AllNumeric(x) && AllNumeric(y) then Numeric
    else if dx != dy then Text
    else Raw
  }

  /** The float repr pandas prints for a whole number. */
  function WholeFloat(n: nat): Cell
  {
    Float(NatToString(n) + ".0")
  }

  lemma WholeFloatKey(n: nat)
    ensures HashKey(WholeFloat(n)) == KNum(n)
  {
    var r := NatToString(n) + ".0";
    assert r[..|r| - 2] == NatToString(n);
    assert r[|r| - 2..] == ".0";
    NatToStringRoundTrip(n);
  }

  /** `pd.to_numeric` of an all-numeric column: integers, or floats once a value
      is missing. */
  function ToNumeric(col: seq<Cell>): (r: seq<Cell>)
    requires AllNumeric(col)
    ensures |r| == |col|
    ensures forall i :: 0 <= i < |col| ==> (r[i] == NA <==> col[i] == NA)
    ensures forall i :: 0 <= i < |col| && col[i] != NA ==> HashKey(r[i]) == KNum(DigitsValue(StrForm(col[i])))
  {
    var withNA := NA in col;
    var r := seq(|col|, i requires 0 <= i < |col| =>
      if col[i] == NA then NA
      else if withNA then WholeFloat(DigitsValue(StrForm(col[i])))
      else Int(DigitsValue(StrForm(col[i]))));
    forall i | 0 <= i < |col| && col[i] != NA && withNA
      ensures HashKey(r[i]) == KNum(DigitsValue(StrForm(col[i])))
    {
      WholeFloatKey(DigitsValue(StrForm(col[i])));
    }
    r
  }

  /** `Series.astype(str)`: a missing value becomes the text `nan`. */
  function AsText(col: seq<Cell>): (r: seq<Cell>)
    ensures |r| == |col| && forall i :: 0 <= i < |col| ==> r[i] == Str(StrForm(col[i]))
  {
    seq(|col|, i requires 0 <= i < |col| => Str(StrForm(col[i])))
  }

  function Converted(col: seq<Cell>, m: KeyMode): (r: seq<Cell>)
    requires m == Numeric ==> AllNumeric(col)
    ensures |r| == |col|
  {
    match m
    case Numeric => ToNumeric(col)
    case Text => AsText(col)
    case Raw => col
  }

  /** The type of a converted key column. */
  function ConvertedType(col: seq<Cell>, m: KeyMode, d: DType): DType
  {
    match m
    case Numeric => if NA in col then Float64 else Int64
    case Text => Object
    case Raw => d
  }

  // ---------------------------------------------------------------------------
  // The left join (line 272)
  // ---------------------------------------------------------------------------

  /** The right positions below `n` holding key `k`, in order. */
  function MatchesOf(k: Key, ky: seq<Key>, n: nat): (m: seq<nat>)
    requires n <= |ky|
    ensures forall t :: 0 <= t < |m| ==> m[t] < n && ky[m[t]] == k
    ensures forall s, t :: 0 <= s < t < |m| ==> m[s] < m[t]
  {
    if n == 0 then [] else MatchesOf(k, ky, n - 1) + (if ky[n - 1] == k then [n - 1] else [])
  }

  lemma {:induction false} MatchesOfIff(k: Key, ky: seq<Key>, n: nat, j: nat)
    requires n <= |ky|
    ensures j in MatchesOf(k, ky, n) <==> j < n && ky[j] == k
  {
    if n > 0 {
      MatchesOfIff(k, ky, n - 1, j);
    }
  }

  function Missing(w: nat): (r: seq<Cell>)
    ensures |r| == w && forall t :: 0 <= t < w ==> r[t] == NA
  {
    seq(w, _ => NA)
  }

  /** The output rows of one left row, as (left row, right part) pairs: one per
      matching right row, in right order, or the left row with `pad`. */
  function JoinRow<L, R>(lrow: L, k: Key, right: seq<R>, ky: seq<Key>, pad: R): (r: seq<(L, R)>)
    requires |ky| == |right|
    ensures |r| >= 1
  {
    var m := MatchesOf(k, ky, |ky|);
    if |m| == 0 then [(lrow, pad)] else Paired(lrow, right, m)
  }

  /** The left row paired with the right rows at positions `m`. */
  function Paired<L, R>(lrow: L, right: seq<R>, m: seq<nat>): (r: seq<(L, R)>)
    requires forall t :: 0 <= t < |m| ==> m[t] < |right|
    ensures |r| == |m|
  {
    if |m| == 0 then [] else Paired(lrow, right, m[..|m| - 1]) + [(lrow, right[m[|m| - 1]])]
  }

  /** The lists of `rows` one after the other. */
  function Flatten<T>(rows: seq<seq<T>>): seq<T>
  {
    if |rows| == 0 then [] else Flatten(rows[..|rows| - 1]) + rows[|rows| - 1]
  }

  /** `pd.merge(how="left")`: the output rows of each left row, in left order. */
  function LeftJoin<L, R>(left: seq<L>, kx: seq<Key>, right: seq<R>, ky: seq<Key>, pad: R): seq<(L, R)>
    requires |left| == |kx| && |ky| == |right|
  {
    Flatten(Blocks(left, kx, right, ky, pad))
  }

  /** The output rows of each left row, one list per left row. */
  function Blocks<L, R>(left: seq<L>, kx: seq<Key>, right: seq<R>, ky: seq<Key>, pad: R): (r: seq<seq<(L, R)>>)
    requires |left| == |kx| && |ky| == |right|
    ensures |r| == |left| && forall i :: 0 <= i < |left| ==> r[i] == JoinRow(left[i], kx[i], right, ky, pad)
  {
    seq(|left|, i requires 0 <= i < |left| => JoinRow(left[i], kx[i], right, ky, pad))
  }

  /** What a left row with key `k` picks up: the right row holding `k`, or `pad`. */
  function Lookup<R>(k: Key, right: seq<R>, ky: seq<Key>, pad: R): R
    requires |ky| == |right|
  {
    if k in ky then right[IndexOf(ky, k)] else pad
  }

  predicate DistinctKeys(ky: seq<Key>)
  {
    forall s, t :: 0 <= s < t < |ky| ==> ky[s] != ky[t]
  }

  /** With distinct keys, a key matches at its one position, or nowhere. */
  lemma {:induction false} MatchesOfDistinct(k: Key, ky: seq<Key>, n: nat)
    requires n <= |ky| && DistinctKeys(ky)
    ensures MatchesOf(k, ky, n) == if k in ky[..n] then [IndexOf(ky, k)] else []
  {
    if n > 0 {
      MatchesOfDistinct(k, ky, n - 1);
      assert ky[..n] == ky[..n - 1] + [ky[n - 1]];
      if ky[n - 1] == k {
        assert forall t :: 0 <= t < n - 1 ==> ky[t] != ky[n - 1];
        assert k !in ky[..n - 1];
        assert ky[IndexOf(ky, k)] == ky[n - 1];
      }
    }
  }

  /** With distinct right keys a left row yields exactly one output row. */
  lemma JoinRowUnique<L, R>(lrow: L, k: Key, right: seq<R>, ky: seq<Key>, pad: R)
    requires |ky| == |right| && DistinctKeys(ky)
    ensures JoinRow(lrow, k, right, ky, pad) == [(lrow, Lookup(k, right, ky, pad))]
  {
    MatchesOfDistinct(k, ky, |ky|);
    assert ky[..|ky|] == ky;
    var m := MatchesOf(k, ky, |ky|);
    assert m[..0] == [];
  }

  /** Lists of one element each flatten to those elements. */
  lemma {:induction false} FlattenSingletons<T>(rows: seq<seq<T>>)
    requires forall i :: 0 <= i < |rows| ==> |rows[i]| == 1
    ensures |Flatten(rows)| == |rows|
    ensures forall i :: 0 <= i < |rows| ==> Flatten(rows)[i] == rows[i][0]
  {
    if |rows| > 0 {
      FlattenSingletons(rows[..|rows| - 1]);
    }
  }

  /** Non-empty lists flatten to at least one element each. */
  lemma {:induction false} FlattenNonEmpty<T>(rows: seq<seq<T>>)
    requires forall i :: 0 <= i < |rows| ==> |rows[i]| >= 1
    ensures |Flatten(rows)| >= |rows|
  {
    if |rows| > 0 {
      FlattenNonEmpty(rows[..|rows| - 1]);
    }
  }

  /** A left join never loses a left row: it has at least as many rows as the
      left table, whatever the right keys. */
  lemma LeftJoinKeepsEveryRow<L, R>(left: seq<L>, kx: seq<Key>, right: seq<R>, ky: seq<Key>, pad: R)
    requires |left| == |kx| && |ky| == |right|
    ensures |LeftJoin(left, kx, right, ky, pad)| >= |left|
  {
    FlattenNonEmpty(seq(|left|, i requires 0 <= i < |left| => JoinRow(left[i], kx[i], right, ky, pad)));
  }

  /** With distinct right keys the left join keeps the left rows, their number
      and their order, each paired with what it picks up. */
  lemma LeftJoinKeepsRows<L, R>(left: seq<L>, kx: seq<Key>, right: seq<R>, ky: seq<Key>, pad: R)
    requires |left| == |kx| && |ky| == |right| && DistinctKeys(ky)
    ensures |LeftJoin(left, kx, right, ky, pad)| == |left|
    ensures forall i :: 0 <= i < |left| ==> LeftJoin(left, kx, right, ky, pad)[i] == (left[i], Lookup(kx[i], right, ky, pad))
  {
    var rows := seq(|left|, i requires 0 <= i < |left| => JoinRow(left[i], kx[i], right, ky, pad));
    forall i | 0 <= i < |left|
      ensures rows[i] == [(left[i], Lookup(kx[i], right, ky, pad))]
    {
      JoinRowUnique(left[i], kx[i], right, ky, pad);
    }
    FlattenSingletons(rows);
  }

  // ---------------------------------------------------------------------------
  // Adding the reference columns (lines 244-276)
  // ---------------------------------------------------------------------------

  /** The reference columns below `n` that are not matched keys, in order. */
  function Unmatched(dbNames: seq<string>, m: seq<string>, n: nat): (a: seq<nat>)
    requires n <= |dbNames|
    ensures forall t :: 0 <= t < |a| ==> a[t] < n && dbNames[a[t]] !in m
  {
    if n == 0 then [] else Unmatched(dbNames, m, n - 1) + (if dbNames[n - 1] in m then [] else [n - 1])
  }

  lemma {:induction false} UnmatchedIff(dbNames: seq<string>, m: seq<string>, n: nat, j: nat)
    requires n <= |dbNames|
    ensures j in Unmatched(dbNames, m, n) <==> j < n && dbNames[j] !in m
  {
    if n > 0 {
      UnmatchedIff(dbNames, m, n - 1, j);
    }
  }

  /** What a join uses: the key column of the table, the key column of the
      reference table and the reference columns to add. */
  datatype Plan = Plan(ix: nat, iy: nat, added: seq<nat>)

  predicate Fits(df: Frame, db: Frame, p: Plan)
  {
    df.Valid() && db.Valid() && p.ix < |df.names| && p.iy < |db.names|
    && forall t :: 0 <= t < |p.added| ==> p.added[t] < |db.names|
  }

  /** The first aligned pair and the columns to add; `None` when the table is
      returned unchanged because no pair aligns or nothing is left to add. */
  function PlanOf(df: Frame, db: Frame, check: seq<string>, refs: seq<string>): (p: Option<Plan>)
    requires df.Valid() && db.Valid()
    ensures p.Some? ==> Fits(df, db, p.value)
  {
    var (c, m) := Align(check, refs, df.names, db.names);
    PlanFrom(df, db, c, m)
  }

  /** The plan for the aligned key lists `c` and `m`. */
  function PlanFrom(df: Frame, db: Frame, c: seq<string>, m: seq<string>): (p: Option<Plan>)
    requires df.Valid() && db.Valid() && |c| == |m|
    requires forall t :: 0 <= t < |c| ==> c[t] in df.names && m[t] in db.names
    ensures p.Some? ==> Fits(df, db, p.value)
  {
    var a := Unmatched(db.names, m, |db.names|);
    if |c| == 0 || |a| == 0 then None
    else Some(Plan(IndexOf(df.names, c[0]), IndexOf(db.names, m[0]), a))
  }

  /** The plan as written: the key lists come from `AlignAsWritten`, whose
      `IndexError` the join raises. */
  function PlanAsWritten(df: Frame, db: Frame, check: seq<string>, refs: seq<string>): (r: Result<Option<Plan>>)
    requires df.Valid() && db.Valid()
    ensures r.Err? <==> AlignAsWritten(check, refs, df.names, db.names).Err?
    ensures r.Ok? && r.value.Some? ==> Fits(df, db, r.value.value)
    ensures AlignAsWritten(check, refs, df.names, db.names) == Ok(Align(check, refs, df.names, db.names)) ==>
      r == Ok(PlanOf(df, db, check, refs))
  {
    match AlignAsWritten(check, refs, df.names, db.names)
    case Err(e) => Err(e)
    case Ok((c, m)) => Ok(PlanFrom(df, db, c, m))
  }

  /** The table is left alone exactly when no key pair aligns or every reference
      column is a matched key. */
  lemma PlanNoneIff(df: Frame, db: Frame, check: seq<string>, refs: seq<string>)
    requires df.Valid() && db.Valid()
    ensures PlanOf(df, db, check, refs) == None <==>
      Align(check, refs, df.names, db.names).0 == [] ||
      forall j :: 0 <= j < |db.names| ==> db.names[j] in Align(check, refs, df.names, db.names).1
  {
    var m := Align(check, refs, df.names, db.names).1;
    var a := Unmatched(db.names, m, |db.names|);
    if a != [] {
      assert db.names[a[0]] !in m;
    }
    if exists j :: 0 <= j < |db.names| && db.names[j] !in m {
      var j :| 0 <= j < |db.names| && db.names[j] !in m;
      UnmatchedIff(db.names, m, |db.names|, j);
    }
  }

  /** The added cells of reference row `j`. */
  function Project(db: Frame, j: nat, a: seq<nat>): (r: seq<Cell>)
    requires db.Valid() && j < |db.rows| && forall t :: 0 <= t < |a| ==> a[t] < |db.names|
    ensures |r| == |a| && forall t :: 0 <= t < |a| ==> r[t] == db.rows[j][a[t]]
  {
    assert db.rows[j] in db.rows;
    seq(|a|, t requires 0 <= t < |a| => db.rows[j][a[t]])
  }

  /** The added columns' names: the reference names with `prefix_` in front. */
  function Prefixed(prefix: string, names: seq<string>, a: seq<nat>): (r: seq<string>)
    requires forall t :: 0 <= t < |a| ==> a[t] < |names|
    ensures |r| == |a| && forall t :: 0 <= t < |a| ==> r[t] == prefix + "_" + names[a[t]]
  {
    seq(|a|, t requires 0 <= t < |a| => prefix + "_" + names[a[t]])
  }

  /** The merged table: the table's columns, then the added reference columns,
      one row per (table row, added cells) pair. */
  function Merged(df: Frame, db: Frame, p: Plan, prefix: string, pairs: seq<(seq<Cell>, seq<Cell>)>): Frame
    requires Fits(df, db, p)
  {
    Frame(df.names + Prefixed(prefix, db.names, p.added),
          df.dtypes + seq(|p.added|, t requires 0 <= t < |p.added| => db.dtypes[p.added[t]]),
          seq(|pairs|, i requires 0 <= i < |pairs| => pairs[i].0 + pairs[i].1))
  }

  /** The two key columns, converted as lines 261-267 decide from the whole of
      both columns. */
  function KeyColumns(df: Frame, db: Frame, p: Plan): (r: (seq<Cell>, seq<Cell>))
    requires Fits(df, db, p)
    ensures |r.0| == |df.rows| && |r.1| == |db.rows|
  {
    var x := df.Column(p.ix);
    var y := db.Column(p.iy);
    var m := ModeOf(x, y, df.dtypes[p.ix], db.dtypes[p.iy]);
    (Converted(x, m), Converted(y, m))
  }

  /** The reference rows a key can reach, de-duplicated on the converted key
      keeping the first row, with their keys. */
  function Reachable(db: Frame, a: seq<nat>, keys: seq<Key>): (r: (seq<seq<Cell>>, seq<Key>))
    requires db.Valid() && |keys| == |db.rows| && forall t :: 0 <= t < |a| ==> a[t] < |db.names|
    ensures |r.0| == |r.1|
  {
    var kept := KeepFirst(keys, |keys|);
    (seq(|kept|, t requires 0 <= t < |kept| => Project(db, kept[t], a)),
     seq(|kept|, t requires 0 <= t < |kept| => keys[kept[t]]))
  }

  /** The cells a table row with converted key `k` picks up: those of the first
      reference row holding `k`, or missing values. */
  function FirstMatch(db: Frame, a: seq<nat>, keys: seq<Key>, k: Key): seq<Cell>
    requires db.Valid() && |keys| == |db.rows| && forall t :: 0 <= t < |a| ==> a[t] < |db.names|
  {
    if k in keys then Project(db, IndexOf(keys, k), a) else Missing(|a|)
  }

  /** After de-duplication the keys are distinct and a key reaches the first
      reference row holding it. */
  lemma ReachableFirst(db: Frame, a: seq<nat>, keys: seq<Key>, k: Key)
    requires db.Valid() && |keys| == |db.rows| && forall t :: 0 <= t < |a| ==> a[t] < |db.names|
    ensures DistinctKeys(Reachable(db, a, keys).1)
    ensures Lookup(k, Reachable(db, a, keys).0, Reachable(db, a, keys).1, Missing(|a|)) == FirstMatch(db, a, keys, k)
  {
    var n := |keys|;
    var kept := KeepFirst(keys, n);
    var (right, ky) := Reachable(db, a, keys);
    KeptDistinct(keys, n);
    assert DistinctKeys(ky);
    assert forall u :: 0 <= u < |ky| ==> ky[u] in keys;
    if k in keys {
      var j := IndexOf(keys, k);
      KeptIff(keys, n, j);
      var t :| 0 <= t < |kept| && kept[t] == j;
      assert ky[t] == k;
      var u := IndexOf(ky, k);
      assert u == t;
    }
  }

  /** `__add_data_from_db` with the keys converted before de-duplication (see
      `DataFromDbAsWritten`). */
  function DataFromDb(df: Frame, db: Frame, check: seq<string>, refs: seq<string>, prefix: string): (r: Frame)
    requires df.Valid() && db.Valid()
    ensures PlanOf(df, db, check, refs).None? ==> r == df
    ensures PlanOf(df, db, check, refs).Some? ==>
      r.names == df.names + Prefixed(prefix, db.names, PlanOf(df, db, check, refs).value.added)
    ensures |r.rows| == |df.rows| && |df.names| <= |r.names| && r.names[..|df.names|] == df.names
  {
    match PlanOf(df, db, check, refs)
    case None => df
    case Some(p) =>
      var (tx, ty) := KeyColumns(df, db, p);
      var (right, ky) := Reachable(db, p.added, Keys(ty));
      ReachableFirst(db, p.added, Keys(ty), KNA);
      LeftJoinKeepsRows(df.rows, Keys(tx), right, ky, Missing(|p.added|));
      Merged(df, db, p, prefix, LeftJoin(df.rows, Keys(tx), right, ky, Missing(|p.added|)))
  }

  /** A join keeps the table's rows, their number and their order; each row is
      followed by the added cells of the first reference row whose converted key
      equals its own, or by missing values. */
  lemma DataFromDbKeepsRows(df: Frame, db: Frame, check: seq<string>, refs: seq<string>, prefix: string)
    requires df.Valid() && db.Valid() && PlanOf(df, db, check, refs).Some?
    ensures var p := PlanOf(df, db, check, refs).value;
      var r := DataFromDb(df, db, check, refs, prefix);
      var keys := KeyColumns(df, db, p);
      r.names == df.names + Prefixed(prefix, db.names, p.added) &&
      |r.rows| == |df.rows| &&
      forall i :: 0 <= i < |df.rows| ==>
        r.rows[i] == df.rows[i] + FirstMatch(db, p.added, Keys(keys.1), HashKey(keys.0[i]))
  {
    var p := PlanOf(df, db, check, refs).value;
    var (tx, ty) := KeyColumns(df, db, p);
    var (right, ky) := Reachable(db, p.added, Keys(ty));
    var pad := Missing(|p.added|);
    ReachableFirst(db, p.added, Keys(ty), KNA);
    LeftJoinKeepsRows(df.rows, Keys(tx), right, ky, pad);
    var pairs := LeftJoin(df.rows, Keys(tx), right, ky, pad);
    forall i | 0 <= i < |df.rows|
      ensures pairs[i].1 == FirstMatch(db, p.added, Keys(ty), HashKey(tx[i]))
    {
      ReachableFirst(db, p.added, Keys(ty), Keys(tx)[i]);
    }
  }

  /** The table comes back unchanged when no key pair aligns or every reference
      column is a matched key. */
  lemma DataFromDbUnchanged(df: Frame, db: Frame, check: seq<string>, refs: seq<string>, prefix: string)
    requires df.Valid() && db.Valid()
    requires Align(check, refs, df.names, db.names).0 == [] ||
      forall j :: 0 <= j < |db.names| ==> db.names[j] in Align(check, refs, df.names, db.names).1
    ensures DataFromDb(df, db, check, refs, prefix) == df
  {
    PlanNoneIff(df, db, check, refs);
  }

  /** As written: the reference table is de-duplicated on its raw key (line 252)
      and only then are both keys converted, the mode decided on the
      de-duplicated column (lines 261-267). Raw keys that differ may convert to
      one key, and a table row then meets every one of them. */
  function DataFromDbAsWritten(df: Frame, db: Frame, check: seq<string>, refs: seq<string>, prefix: string): (r: Result<Frame>)
    requires df.Valid() && db.Valid()
    ensures r.Err? <==> AlignAsWritten(check, refs, df.names, db.names).Err?
    ensures r.Err? ==> r.msg == "IndexError: list index out of range"
    ensures PlanAsWritten(df, db, check, refs) == Ok(None) ==> r == Ok(df)
    ensures PlanAsWritten(df, db, check, refs).Ok? && PlanAsWritten(df, db, check, refs).value.Some? ==>
      r.Ok? && r.value.names == df.names + Prefixed(prefix, db.names, PlanAsWritten(df, db, check, refs).value.value.added)
  {
    match PlanAsWritten(df, db, check, refs)
    case Err(e) => Err(e)
    case Ok(None) => Ok(df)
    case Ok(Some(p)) => Ok(Merged(df, db, p, prefix, AsWrittenPairs(df, db, p)))
  }

  /** Lines 253-272 as written: the left join of the table rows with the added
      cells of the kept reference rows, on the keys as written. */
  function AsWrittenPairs(df: Frame, db: Frame, p: Plan): seq<(seq<Cell>, seq<Cell>)>
    requires Fits(df, db, p)
  {
    var keys := AsWrittenKeys(df, db, p);
    LeftJoin(df.rows, keys.0, KeptRight(db, p, KeptRows(db, p)), keys.1, Missing(|p.added|))
  }

  /** The reference rows `drop_duplicates` keeps: the first of each raw key. */
  function KeptRows(db: Frame, p: Plan): (kept: seq<nat>)
    requires db.Valid() && p.iy < |db.names|
    ensures forall t :: 0 <= t < |kept| ==> kept[t] < |db.rows|
  {
    KeepFirst(Keys(db.Column(p.iy)), |db.rows|)
  }

  /** The two join keys as written: both columns converted in the mode decided
      from the table's column and the de-duplicated reference column `yd`. */
  function KeysAsWritten(df: Frame, db: Frame, p: Plan, yd: seq<Cell>): (r: (seq<Key>, seq<Key>))
    requires Fits(df, db, p)
    ensures |r.0| == |df.rows| && |r.1| == |yd|
  {
    var x := df.Column(p.ix);
    var m := ModeOf(x, yd, df.dtypes[p.ix], db.dtypes[p.iy]);
    (Keys(Converted(x, m)), Keys(Converted(yd, m)))
  }

  /** The added cells of the kept reference rows, in kept order. */
  function KeptRight(db: Frame, p: Plan, kept: seq<nat>): (r: seq<seq<Cell>>)
    requires db.Valid() && forall t :: 0 <= t < |p.added| ==> p.added[t] < |db.names|
    requires forall t :: 0 <= t < |kept| ==> kept[t] < |db.rows|
    ensures |r| == |kept| && forall t :: 0 <= t < |kept| ==> r[t] == Project(db, kept[t], p.added)
  {
    seq(|kept|, t requires 0 <= t < |kept| => Project(db, kept[t], p.added))
  }

  /** Flattening two runs of lists one after the other. */
  lemma {:induction false} FlattenAppend<T>(a: seq<seq<T>>, b: seq<seq<T>>)
    ensures Flatten(a + b) == Flatten(a) + Flatten(b)
  {
    if |b| == 0 {
      assert a + b == a;
    } else {
      assert (a + b)[..|a + b| - 1] == a + b[..|b| - 1];
      FlattenAppend(a, b[..|b| - 1]);
    }
  }

  /** The `t`-th pair of a left row with its matches. */
  lemma {:induction false} PairedAt<L, R>(lrow: L, right: seq<R>, m: seq<nat>, t: nat)
    requires forall s :: 0 <= s < |m| ==> m[s] < |right|
    requires t < |m|
    ensures Paired(lrow, right, m)[t] == (lrow, right[m[t]])
  {
    if t < |m| - 1 {
      PairedAt(lrow, right, m[..|m| - 1], t);
    }
  }

  /** In a left join the output rows of left row `i` come as one block, right
      after those of the rows before it. */
  lemma LeftJoinBlock<L, R>(left: seq<L>, kx: seq<Key>, right: seq<R>, ky: seq<Key>, pad: R, i: nat)
    requires |left| == |kx| && |ky| == |right| && i < |left|
    ensures JoinOffset(left, kx, right, ky, pad, i) + |JoinRow(left[i], kx[i], right, ky, pad)| <= |LeftJoin(left, kx, right, ky, pad)|
    ensures JoinOffset(left, kx, right, ky, pad, i + 1) == JoinOffset(left, kx, right, ky, pad, i) + |JoinRow(left[i], kx[i], right, ky, pad)|
  {
    var rows := Blocks(left, kx, right, ky, pad);
    JoinOffsetFlat(left, kx, right, ky, pad, i);
    JoinOffsetFlat(left, kx, right, ky, pad, i + 1);
    FlattenBlock(rows, i);
  }

  /** The `t`-th output row of left row `i` sits `t` places after its offset. */
  lemma LeftJoinBlockAt<L, R>(left: seq<L>, kx: seq<Key>, right: seq<R>, ky: seq<Key>, pad: R, i: nat, t: nat)
    requires |left| == |kx| && |ky| == |right| && i < |left| && t < |JoinRow(left[i], kx[i], right, ky, pad)|
    ensures JoinOffset(left, kx, right, ky, pad, i) + t < |LeftJoin(left, kx, right, ky, pad)|
    ensures LeftJoin(left, kx, right, ky, pad)[JoinOffset(left, kx, right, ky, pad, i) + t] == JoinRow(left[i], kx[i], right, ky, pad)[t]
  {
    var rows := Blocks(left, kx, right, ky, pad);
    JoinOffsetFlat(left, kx, right, ky, pad, i);
    FlattenBlock(rows, i);
    assert rows[i][t] == JoinRow(left[i], kx[i], right, ky, pad)[t];
  }

  /** The offset of left row `i` counts the flattened lists before it. */
  lemma JoinOffsetFlat<L, R>(left: seq<L>, kx: seq<Key>, right: seq<R>, ky: seq<Key>, pad: R, i: nat)
    requires |left| == |kx| && |ky| == |right| && i <= |left|
    ensures JoinOffset(left, kx, right, ky, pad, i) == |Flatten(Blocks(left, kx, right, ky, pad)[..i])|
  {
    BlocksPrefix(left, kx, right, ky, pad, i);
  }

  /** Where the output rows of left row `i` start: the number of output rows of
      the left rows before it. */
  function JoinOffset<L, R>(left: seq<L>, kx: seq<Key>, right: seq<R>, ky: seq<Key>, pad: R, i: nat): nat
    requires |left| == |kx| && |ky| == |right| && i <= |left|
  {
    |LeftJoin(left[..i], kx[..i], right, ky, pad)|
  }

  /** The lists of a prefix of the left rows are a prefix of the lists. */
  lemma BlocksPrefix<L, R>(left: seq<L>, kx: seq<Key>, right: seq<R>, ky: seq<Key>, pad: R, n: nat)
    requires |left| == |kx| && |ky| == |right| && n <= |left|
    ensures Blocks(left[..n], kx[..n], right, ky, pad) == Blocks(left, kx, right, ky, pad)[..n]
  {
  }

  /** The `i`-th list sits in the flattened lists right after the lists before
      it. */
  lemma FlattenBlock<T>(rows: seq<seq<T>>, i: nat)
    requires i < |rows|
    ensures var off := |Flatten(rows[..i])|;
      off + |rows[i]| <= |Flatten(rows)| &&
      (forall t :: 0 <= t < |rows[i]| ==> Flatten(rows)[off + t] == rows[i][t]) &&
      |Flatten(rows[..i + 1])| == off + |rows[i]|
  {
    assert rows[..i + 1] == rows[..i] + [rows[i]];
    assert rows == rows[..i + 1] + rows[i + 1..];
    assert [rows[i]][..0] == [];
    assert Flatten([rows[i]]) == rows[i];
    FlattenAppend(rows[..i], [rows[i]]);
    FlattenAppend(rows[..i + 1], rows[i + 1..]);
  }

  /** The output rows of one left row: the pairs with each matching right row,
      in right order, or the row with `pad` when nothing matches. */
  lemma JoinRowRows<L, R>(lrow: L, k: Key, right: seq<R>, ky: seq<Key>, pad: R)
    requires |ky| == |right|
    ensures var m := MatchesOf(k, ky, |ky|);
      var b := JoinRow(lrow, k, right, ky, pad);
      (m == [] ==> b == [(lrow, pad)]) &&
      (m != [] ==> |b| == |m| && forall t :: 0 <= t < |m| ==> b[t] == (lrow, right[m[t]]))
  {
    var m := MatchesOf(k, ky, |ky|);
    forall t | 0 <= t < |m|
      ensures Paired(lrow, right, m)[t] == (lrow, right[m[t]])
    {
      PairedAt(lrow, right, m, t);
    }
  }

  /** A left join, row by row: left row `i` comes out once per right row whose
      key equals its own, in right order, paired with that right row, or once
      paired with `pad`; its block starts where the earlier rows' blocks end. */
  lemma LeftJoinRows<L, R>(left: seq<L>, kx: seq<Key>, right: seq<R>, ky: seq<Key>, pad: R, i: nat)
    requires |left| == |kx| && |ky| == |right| && i < |left|
    ensures var out := LeftJoin(left, kx, right, ky, pad);
      var off := JoinOffset(left, kx, right, ky, pad, i);
      var m := MatchesOf(kx[i], ky, |ky|);
      (forall u :: u in m <==> 0 <= u < |ky| && ky[u] == kx[i]) &&
      (m == [] ==> off < |out| && out[off] == (left[i], pad)) &&
      JoinOffset(left, kx, right, ky, pad, i + 1) == off + (if m == [] then 1 else |m|)
  {
    var m := MatchesOf(kx[i], ky, |ky|);
    forall u
      ensures u in m <==> 0 <= u < |ky| && ky[u] == kx[i]
    {
      if 0 <= u {
        MatchesOfIff(kx[i], ky, |ky|, u);
      }
    }
    var out := LeftJoin(left, kx, right, ky, pad);
    var off := JoinOffset(left, kx, right, ky, pad, i);
    var b := JoinRow(left[i], kx[i], right, ky, pad);
    LeftJoinBlock(left, kx, right, ky, pad, i);
    JoinRowRows(left[i], kx[i], right, ky, pad);
    if m == [] {
      LeftJoinBlockAt(left, kx, right, ky, pad, i, 0);
      assert out[off] == b[0] == (left[i], pad);
    }
  }

  /** A left row with matches: its `t`-th output row pairs it with the right row
      of its `t`-th match. */
  lemma LeftJoinMatchAt<L, R>(left: seq<L>, kx: seq<Key>, right: seq<R>, ky: seq<Key>, pad: R, i: nat, t: nat)
    requires |left| == |kx| && |ky| == |right| && i < |left| && t < |MatchesOf(kx[i], ky, |ky|)|
    ensures JoinOffset(left, kx, right, ky, pad, i) + t < |LeftJoin(left, kx, right, ky, pad)|
    ensures LeftJoin(left, kx, right, ky, pad)[JoinOffset(left, kx, right, ky, pad, i) + t] ==
      (left[i], right[MatchesOf(kx[i], ky, |ky|)[t]])
  {
    JoinRowRows(left[i], kx[i], right, ky, pad);
    LeftJoinBlockAt(left, kx, right, ky, pad, i, t);
  }

  /** A slice equal to `b` holds the elements of `b` at its offset. */
  lemma SliceAt<T>(s: seq<T>, off: nat, b: seq<T>)
    requires off + |b| <= |s| && s[off..off + |b|] == b
    ensures forall t :: 0 <= t < |b| ==> s[off + t] == b[t]
  {
    forall t | 0 <= t < |b|
      ensures s[off + t] == b[t]
    {
      assert s[off..off + |b|][t] == b[t];
    }
  }

  /** The keys the join as written compares: the table's key column and the
      kept reference keys, both converted. */
  function AsWrittenKeys(df: Frame, db: Frame, p: Plan): (r: (seq<Key>, seq<Key>))
    requires Fits(df, db, p)
    ensures |r.0| == |df.rows| && |r.1| == |KeptRows(db, p)|
  {
    KeysAsWritten(df, db, p, Pick(db.Column(p.iy), KeptRows(db, p)))
  }

  /** The rows of a merged table are the pairs, glued. */
  lemma MergedRows(df: Frame, db: Frame, p: Plan, prefix: string, pairs: seq<(seq<Cell>, seq<Cell>)>)
    requires Fits(df, db, p)
    ensures var r := Merged(df, db, p, prefix, pairs);
      r.names == df.names + Prefixed(prefix, db.names, p.added) && |r.rows| == |pairs| &&
      forall j :: 0 <= j < |pairs| ==> r.rows[j] == pairs[j].0 + pairs[j].1
  {
  }

  /** The kept reference rows (as positions in the kept list) that table row
      `i` meets in the join as written. */
  function RowMatches(df: Frame, db: Frame, p: Plan, i: nat): seq<nat>
    requires Fits(df, db, p) && i < |df.rows|
  {
    var keys := AsWrittenKeys(df, db, p);
    MatchesOf(keys.0[i], keys.1, |keys.1|)
  }

  /** Where the output rows of table row `i` start in the join as written. */
  function RowStart(df: Frame, db: Frame, p: Plan, i: nat): nat
    requires Fits(df, db, p) && i <= |df.rows|
  {
    var keys := AsWrittenKeys(df, db, p);
    JoinOffset(df.rows, keys.0, KeptRight(db, p, KeptRows(db, p)), keys.1, Missing(|p.added|), i)
  }

  /** The pairs as written, row by row (see `DataFromDbAsWrittenRows`). */
  lemma AsWrittenPairsRows(df: Frame, db: Frame, p: Plan, i: nat)
    requires Fits(df, db, p) && i < |df.rows|
    ensures forall u :: u in RowMatches(df, db, p, i) <==>
      0 <= u < |AsWrittenKeys(df, db, p).1| && AsWrittenKeys(df, db, p).1[u] == AsWrittenKeys(df, db, p).0[i]
    ensures RowMatches(df, db, p, i) == [] ==>
      RowStart(df, db, p, i) < |AsWrittenPairs(df, db, p)| &&
      AsWrittenPairs(df, db, p)[RowStart(df, db, p, i)] == (df.rows[i], Missing(|p.added|))
    ensures RowStart(df, db, p, i + 1) == RowStart(df, db, p, i) + (if RowMatches(df, db, p, i) == [] then 1 else |RowMatches(df, db, p, i)|)
  {
    var keys := AsWrittenKeys(df, db, p);
    AsWrittenUnfold(df, db, p, i);
    LeftJoinRows(df.rows, keys.0, KeptRight(db, p, KeptRows(db, p)), keys.1, Missing(|p.added|), i);
  }

  /** The pair as written for the `t`-th match of a table row. */
  lemma AsWrittenPairsMatched(df: Frame, db: Frame, p: Plan, i: nat, t: nat)
    requires Fits(df, db, p) && i < |df.rows| && t < |RowMatches(df, db, p, i)|
    ensures RowStart(df, db, p, i) + t < |AsWrittenPairs(df, db, p)|
    ensures AsWrittenPairs(df, db, p)[RowStart(df, db, p, i) + t] ==
      (df.rows[i], KeptRight(db, p, KeptRows(db, p))[RowMatches(df, db, p, i)[t]])
  {
    var keys := AsWrittenKeys(df, db, p);
    var right := KeptRight(db, p, KeptRows(db, p));
    LeftJoinMatchNamed(df.rows, keys.0, right, keys.1, Missing(|p.added|), i, t, AsWrittenPairs(df, db, p), RowStart(df, db, p, i));
    assert AsWrittenPairs(df, db, p)[RowStart(df, db, p, i) + t] == (df.rows[i], right[MatchesOf(keys.0[i], keys.1, |keys.1|)[t]]);
  }

  /** `LeftJoinMatchAt` with the join and the offset named. */
  lemma LeftJoinMatchNamed<L, R>(left: seq<L>, kx: seq<Key>, right: seq<R>, ky: seq<Key>, pad: R, i: nat, t: nat,
                                 out: seq<(L, R)>, off: nat)
    requires |left| == |kx| && |ky| == |right| && i < |left|
    requires out == LeftJoin(left, kx, right, ky, pad) && off == JoinOffset(left, kx, right, ky, pad, i)
    requires t < |MatchesOf(kx[i], ky, |ky|)|
    ensures off + t < |out| && out[off + t] == (left[i], right[MatchesOf(kx[i], ky, |ky|)[t]])
  {
    LeftJoinMatchAt(left, kx, right, ky, pad, i, t);
  }

  /** The pairs, the offset and the matches as written, in terms of the join. */
  lemma AsWrittenUnfold(df: Frame, db: Frame, p: Plan, i: nat)
    requires Fits(df, db, p) && i < |df.rows|
    ensures var keys := AsWrittenKeys(df, db, p);
      var right := KeptRight(db, p, KeptRows(db, p));
      AsWrittenPairs(df, db, p) == LeftJoin(df.rows, keys.0, right, keys.1, Missing(|p.added|)) &&
      RowStart(df, db, p, i) == JoinOffset(df.rows, keys.0, right, keys.1, Missing(|p.added|), i) &&
      RowStart(df, db, p, i + 1) == JoinOffset(df.rows, keys.0, right, keys.1, Missing(|p.added|), i + 1) &&
      RowMatches(df, db, p, i) == MatchesOf(keys.0[i], keys.1, |keys.1|)
  {
  }

  /** The join as written, row by row: table row `i` comes out once for every
      kept reference row (the first of each raw key) whose converted key equals
      its own converted key, in reference order, followed by that row's added
      cells; with no such row it comes out once, followed by missing values.
      The blocks follow one another in table order. */
  lemma DataFromDbAsWrittenRows(df: Frame, db: Frame, check: seq<string>, refs: seq<string>, prefix: string, p: Plan, i: nat)
    requires df.Valid() && db.Valid() && PlanAsWritten(df, db, check, refs) == Ok(Some(p)) && i < |df.rows|
    ensures DataFromDbAsWritten(df, db, check, refs, prefix).Ok?
    ensures DataFromDbAsWritten(df, db, check, refs, prefix).value.names == df.names + Prefixed(prefix, db.names, p.added)
    ensures forall u :: u in RowMatches(df, db, p, i) <==>
      0 <= u < |AsWrittenKeys(df, db, p).1| && AsWrittenKeys(df, db, p).1[u] == AsWrittenKeys(df, db, p).0[i]
    ensures RowMatches(df, db, p, i) == [] ==>
      RowStart(df, db, p, i) < |DataFromDbAsWritten(df, db, check, refs, prefix).value.rows| &&
      DataFromDbAsWritten(df, db, check, refs, prefix).value.rows[RowStart(df, db, p, i)] == df.rows[i] + Missing(|p.added|)
    ensures RowStart(df, db, p, i + 1) == RowStart(df, db, p, i) + (if RowMatches(df, db, p, i) == [] then 1 else |RowMatches(df, db, p, i)|)
  {
    var pairs := AsWrittenPairs(df, db, p);
    assert DataFromDbAsWritten(df, db, check, refs, prefix) == Ok(Merged(df, db, p, prefix, pairs));
    MergedRows(df, db, p, prefix, pairs);
    AsWrittenPairsRows(df, db, p, i);
  }

  /** The join as written, match by match: the `t`-th kept reference row that
      table row `i` meets gives the `t`-th output row of its block, the table row
      followed by that reference row's added cells. */
  lemma DataFromDbAsWrittenMatched(df: Frame, db: Frame, check: seq<string>, refs: seq<string>, prefix: string,
                                   p: Plan, i: nat, t: nat)
    requires df.Valid() && db.Valid() && PlanAsWritten(df, db, check, refs) == Ok(Some(p)) && i < |df.rows|
    requires t < |RowMatches(df, db, p, i)|
    ensures DataFromDbAsWritten(df, db, check, refs, prefix).Ok?
    ensures RowStart(df, db, p, i) + t < |DataFromDbAsWritten(df, db, check, refs, prefix).value.rows|
    ensures DataFromDbAsWritten(df, db, check, refs, prefix).value.rows[RowStart(df, db, p, i) + t] ==
      df.rows[i] + Project(db, KeptRows(db, p)[RowMatches(df, db, p, i)[t]], p.added)
  {
    var pairs := AsWrittenPairs(df, db, p);
    assert DataFromDbAsWritten(df, db, check, refs, prefix) == Ok(Merged(df, db, p, prefix, pairs));
    MergedRows(df, db, p, prefix, pairs);
    AsWrittenPairsMatched(df, db, p, i, t);
  }

  /** A reference row is kept exactly when no earlier row has its raw key. */
  lemma KeptRowsIff(db: Frame, p: Plan, j: nat)
    requires db.Valid() && p.iy < |db.names|
    ensures j in KeptRows(db, p) <==> j < |db.rows| && HashKey(db.Column(p.iy)[j]) !in Keys(db.Column(p.iy))[..j]
  {
    KeptIff(Keys(db.Column(p.iy)), |db.rows|, j);
  }

  /** An invoice table with one organisation number `7` and a reference table
      listing that organisation as both `07` and `7`. */
  const OneInvoice: Frame := Frame(["org_number"], [Object], [[Str("7")]])
  const TwoSpellings: Frame := Frame(["number", "name"], [Object, Object], [[Str("07"), Str("a")], [Str("7"), Str("b")]])

  /** The one invoice key pairs with the reference `number` column. */
  lemma TwoSpellingsAlign()
    ensures Align(["org_number"], ["number"], OneInvoice.names, TwoSpellings.names) == (["org_number"], ["number"])
  {
    var p := Pairs(["org_number"], ["number"], OneInvoice.names, TwoSpellings.names, Min(1, 1));
    assert p == [0];
    assert Pick(["org_number"], p) == ["org_number"];
    assert Pick(["number"], p) == ["number"];
  }

  /** Only the `name` column is left to add. */
  lemma TwoSpellingsAdds()
    ensures Unmatched(TwoSpellings.names, ["number"], 2) == [1]
  {
    assert Unmatched(TwoSpellings.names, ["number"], 1) == [];
  }

  lemma TwoSpellingsPlan()
    ensures PlanOf(OneInvoice, TwoSpellings, ["org_number"], ["number"]) == Some(Plan(0, 0, [1]))
  {
    TwoSpellingsAlign();
    TwoSpellingsAdds();
  }

  /** Two copies of a key on the right: a left row holding it comes out twice. */
  lemma JoinRowTwice<L, R>(lrow: L, k: Key, right: seq<R>, pad: R)
    requires |right| == 2
    ensures |JoinRow(lrow, k, right, [k, k], pad)| == 2
  {
    assert MatchesOf(k, [k, k], 1) == [0];
    assert MatchesOf(k, [k, k], 2) == [0, 1];
  }

  /** A one-row left table joins to that row's output rows. */
  lemma LeftJoinOne<L, R>(lrow: L, k: Key, right: seq<R>, ky: seq<Key>, pad: R)
    requires |ky| == |right|
    ensures LeftJoin([lrow], [k], right, ky, pad) == JoinRow(lrow, k, right, ky, pad)
  {
    var rows := seq(1, i requires 0 <= i < 1 => JoinRow(lrow, k, right, ky, pad));
    assert rows[..0] == [];
    assert Flatten(rows) == Flatten(rows[..0]) + rows[0];
  }

  /** The reference keys `07` and `7` are different raw keys... */
  lemma TwoSpellingsKept()
    ensures TwoSpellings.Column(0) == [Str("07"), Str("7")]
    ensures KeepFirst(Keys(TwoSpellings.Column(0)), 2) == [0, 1]
  {
    var y := TwoSpellings.Column(0);
    assert y == [Str("07"), Str("7")];
    assert Keys(y) == [KStr("07"), KStr("7")];
    assert KeepFirst(Keys(y), 1) == [0];
  }

  /** ...and one number. */
  lemma TwoSpellingsNumeric()
    ensures AllNumeric([Str("07"), Str("7")])
    ensures Keys(ToNumeric([Str("07"), Str("7")])) == [KNum(7), KNum(7)]
  {
    assert IsDigitString("07") && IsDigitString("7");
    assert "07"[..1] == "0" && "0"[..0] == [] && "7"[..0] == [];
    assert DigitsValue("0") == 0;
    assert DigitsValue("7") == 7;
    assert DigitsValue("07") == DigitsValue("0") * 10 + 7;
  }

  lemma OneInvoiceKey()
    ensures OneInvoice.Column(0) == [Str("7")]
    ensures AllNumeric([Str("7")])
    ensures Keys(ToNumeric([Str("7")])) == [KNum(7)]
  {
    assert OneInvoice.Column(0) == [Str("7")];
    assert DigitsValue("7") == 7;
  }

  /** Both kept spellings convert to the number 7, like the invoice's key. */
  lemma TwoSpellingsKeys()
    ensures KeptRows(TwoSpellings, Plan(0, 0, [1])) == [0, 1]
    ensures AsWrittenKeys(OneInvoice, TwoSpellings, Plan(0, 0, [1])) == ([KNum(7)], [KNum(7), KNum(7)])
  {
    TwoSpellingsKept();
    TwoSpellingsNumeric();
    OneInvoiceKey();
    var y := TwoSpellings.Column(0);
    PickAll(y, [0, 1]);
  }

  /** As written, the one invoice row comes out twice: `07` and `7` are kept as
      different keys and both convert to the number 7. */
  lemma DataFromDbAsWrittenDuplicatesRows()
    ensures DataFromDbAsWritten(OneInvoice, TwoSpellings, ["org_number"], ["number"], "org").Ok?
    ensures |DataFromDbAsWritten(OneInvoice, TwoSpellings, ["org_number"], ["number"], "org").value.rows| == 2
  {
    var df, db, p := OneInvoice, TwoSpellings, Plan(0, 0, [1]);
    TwoSpellingsPlanAsWritten();
    TwoSpellingsPairs();
    assert DataFromDbAsWritten(df, db, ["org_number"], ["number"], "org") == Ok(Merged(df, db, p, "org", AsWrittenPairs(df, db, p)));
  }

  /** As written, the two tables get the intended plan: one key at the same
      position on both sides. */
  lemma TwoSpellingsPlanAsWritten()
    ensures PlanAsWritten(OneInvoice, TwoSpellings, ["org_number"], ["number"]) == Ok(Some(Plan(0, 0, [1])))
  {
    AlignAgreesOnFoundColumns(["org_number"], ["number"], OneInvoice.names, TwoSpellings.names);
    TwoSpellingsPlan();
  }

  /** As written, the join raises `IndexError` for a table holding `org_number`
      and `org_name` but no `org_id` and a reference table holding only `name`. */
  lemma DataFromDbAsWrittenRaises(df: Frame, db: Frame, prefix: string)
    requires df.Valid() && db.Valid() && df.names == OrgFound && db.names == ["name"]
    ensures DataFromDbAsWritten(df, db, OrgCheck, OrgRefs, prefix) == Err("IndexError: list index out of range")
  {
    AlignAsWrittenRaises();
  }

  /** The pairs as written for the two tables: the invoice row meets both kept keys. */
  lemma TwoSpellingsPairs()
    ensures |AsWrittenPairs(OneInvoice, TwoSpellings, Plan(0, 0, [1]))| == 2
  {
    var df, db, p := OneInvoice, TwoSpellings, Plan(0, 0, [1]);
    TwoSpellingsKeys();
    var right := KeptRight(db, p, [0, 1]);
    JoinRowTwice(df.rows[0], KNum(7), right, Missing(1));
    LeftJoinOne(df.rows[0], KNum(7), right, [KNum(7), KNum(7)], Missing(1));
    assert df.rows == [df.rows[0]];
    assert AsWrittenPairs(df, db, p) == LeftJoin([df.rows[0]], [KNum(7)], right, [KNum(7), KNum(7)], Missing(1));
  }

  /** Converting first, the same tables give back the one invoice row. */
  lemma DataFromDbKeepsOneInvoice()
    ensures |DataFromDb(OneInvoice, TwoSpellings, ["org_number"], ["number"], "org").rows| == 1
  {
    TwoSpellingsPlan();
    DataFromDbKeepsRows(OneInvoice, TwoSpellings, ["org_number"], ["number"], "org");
  }

  // ---------------------------------------------------------------------------
  // The table changed in place (line 269)
  // ---------------------------------------------------------------------------

  /** The type of the converted key column of the table. */
  function KeyType(df: Frame, db: Frame, p: Plan): DType
    requires Fits(df, db, p)
  {
    var x := df.Column(p.ix);
    var m := ModeOf(x, db.Column(p.iy), df.dtypes[p.ix], db.dtypes[p.iy]);
    ConvertedType(x, m, df.dtypes[p.ix])
  }

  /** The table with one more column at the right. */
  function AppendColumn(f: Frame, name: string, dt: DType, col: seq<Cell>): Frame
    requires |col| == |f.rows|
  {
    Frame(f.names + [name], f.dtypes + [dt], seq(|f.rows|, i requires 0 <= i < |f.rows| => f.rows[i] + [col[i]]))
  }

  /** Appending a column keeps the table well formed and every earlier cell. */
  lemma AppendColumnKeeps(f: Frame, name: string, dt: DType, col: seq<Cell>)
    requires f.Valid() && |col| == |f.rows|
    ensures var r := AppendColumn(f, name, dt, col);
      r.Valid() && |r.rows| == |f.rows| && r.names[..|f.names|] == f.names &&
      forall i :: 0 <= i < |f.rows| ==> r.rows[i][..|f.names|] == f.rows[i] && r.rows[i][|f.names|] == col[i]
  {
    var r := AppendColumn(f, name, dt, col);
    forall i | 0 <= i < |f.rows|
      ensures |r.rows[i]| == |r.names| && r.rows[i][..|f.names|] == f.rows[i]
    {
      assert f.rows[i] in f.rows;
    }
    forall row | row in r.rows
      ensures |row| == |r.names|
    {
      var i :| 0 <= i < |r.rows| && r.rows[i] == row;
    }
  }

  /** The caller's table after `__add_data_from_db`: when a join happens it holds
      the converted key column as `temporary_X`, which only the returned table
      drops. */
  function WithTemporary(df: Frame, db: Frame, check: seq<string>, refs: seq<string>): Frame
    requires df.Valid() && db.Valid()
  {
    match PlanOf(df, db, check, refs)
    case None => df
    case Some(p) => AppendColumn(df, "temporary_X", KeyType(df, db, p), KeyColumns(df, db, p).0)
  }

  /** The extra column leaves the table well formed and every earlier cell as it
      was. */
  lemma WithTemporaryKeepsTable(df: Frame, db: Frame, check: seq<string>, refs: seq<string>)
    requires df.Valid() && db.Valid()
    ensures var r := WithTemporary(df, db, check, refs);
      r.Valid() && |r.rows| == |df.rows| && r.names[..|df.names|] == df.names &&
      forall i :: 0 <= i < |df.rows| ==> r.rows[i][..|df.names|] == df.rows[i]
  {
    match PlanOf(df, db, check, refs)
    case None =>
      forall i | 0 <= i < |df.rows|
        ensures df.rows[i][..|df.names|] == df.rows[i]
      {
        assert df.rows[i] in df.rows;
      }
    case Some(p) =>
      AppendColumnKeeps(df, "temporary_X", KeyType(df, db, p), KeyColumns(df, db, p).0);
  }

  /** When a join happens the extra column is `temporary_X` and its cells are
      the keys the join compares. */
  lemma WithTemporaryHoldsKeys(df: Frame, db: Frame, check: seq<string>, refs: seq<string>, i: int)
    requires df.Valid() && db.Valid() && PlanOf(df, db, check, refs).Some? && 0 <= i < |df.rows|
    ensures var r := WithTemporary(df, db, check, refs);
      r.names == df.names + ["temporary_X"] &&
      HashKey(r.rows[i][|df.names|]) == Keys(KeyColumns(df, db, PlanOf(df, db, check, refs).value).0)[i]
  {
    var p := PlanOf(df, db, check, refs).value;
    AppendColumnKeeps(df, "temporary_X", KeyType(df, db, p), KeyColumns(df, db, p).0);
  }

  /** `__add_data_from_db` on the caller's table: the table gains `temporary_X`
      in place and the joined table is returned. */
  method AddDataFromDb(df: Table, db: Frame, check: seq<string>, refs: seq<string>, prefix: string) returns (r: Frame)
    requires df.Snapshot().Valid() && db.Valid()
    modifies df
    ensures df.Snapshot() == WithTemporary(old(df.Snapshot()), db, check, refs)
    ensures r == DataFromDb(old(df.Snapshot()), db, check, refs, prefix)
  {
    var before := df.Snapshot();
    var plan := PlanOf(before, db, check, refs);
    if plan.Some? {
      var p := plan.value;
      var tx := KeyColumns(before, db, p).0;
      df.names := df.names + ["temporary_X"];
      df.dtypes := df.dtypes + [KeyType(before, db, p)];
      df.rows := seq(|before.rows|, i requires 0 <= i < |before.rows| => before.rows[i] + [tx[i]]);
      assert df.Snapshot() == AppendColumn(before, "temporary_X", KeyType(before, db, p), tx);
    }
    r := DataFromDb(before, db, check, refs, prefix);
  }

  // ---------------------------------------------------------------------------
  // The four enrichment steps (lines 49-213)
  // ---------------------------------------------------------------------------

  /** `utils.__not_duplicated_columns_found` as the enrichment steps call it: the
      utilities module does not define it, so it is a parameter. */
  type ColumnList = (seq<string>, seq<string>) -> seq<string>

  const OrgKeys: seq<string> := ["org_id", "org_vat_number", "org_number", "org_name"]
  const OrgRefKeys: seq<string> := ["bid", "vat_number", "number", "name"]
  const AccountKeys: seq<string> := ["account_number", "account_name"]
  const ServiceKeys: seq<string> := ["service_cat", "service_cat_name"]
  const NumberName: seq<string> := ["number", "name"]
  const SupplKeys: seq<string> := ["suppl_id", "suppl_vat_number", "suppl_number", "suppl_name"]
  const SupplRefKeys: seq<string> := ["bid", "vat_number", "number", "name", "country"]

  /** `[cols_to_match[i] for i, x in enumerate(cols_df) if x in cols_to_check]`. */
  function MatchFor(colsDf: seq<string>, cm: seq<string>, cols: seq<string>): seq<string>
    requires |colsDf| <= |cm|
  {
    Pick(cm, Where(colsDf, cols, |colsDf|))
  }

  /** The checks each step starts with: `Ok(None)` returns the table unchanged,
      `Ok(Some(cols))` goes on with the key columns found. */
  function StepGuard(dataMsg: string, flagMsg: string, colsDf: seq<string>, names: seq<string>,
                     data: PyValue, disable: PyValue, lookup: ColumnList): Result<Option<seq<string>>>
  {
    if !(IsNonEmptyDf(data) || data == PyNone) then Err(dataMsg)
    else if !disable.PyBool? then Err(flagMsg)
    else
      var cols := lookup(names, colsDf);
      if disable.b || |cols| == 0 then Ok(None) else Ok(Some(cols))
  }

  /** A data argument that is a data frame is a well-formed one. */
  predicate Rectangular(v: PyValue)
  {
    v.PyFrame? ==> v.frame.Valid()
  }

  predicate GoodArgs(data: PyValue, disable: PyValue)
  {
    (IsNonEmptyDf(data) || data == PyNone) && disable.PyBool?
  }

  /** What a step does once its checks have run. */
  datatype Step = Raise(msg: string) | Keep | Join(db: Frame, check: seq<string>, refs: seq<string>)

  /** A step's effect on the table; `prefix` names the added columns. */
  function RunStep(df: Frame, s: Step, prefix: string): (r: Result<Frame>)
    requires df.Valid() && (s.Join? ==> s.db.Valid())
    ensures r.Err? <==> s.Raise?
    ensures s.Raise? ==> r == Err(s.msg)
    ensures s == Keep ==> r == Ok(df)
    ensures s.Join? ==> |r.value.rows| == |df.rows| && |df.names| <= |r.value.names| && r.value.names[..|df.names|] == df.names
  {
    match s
    case Raise(m) => Err(m)
    case Keep => Ok(df)
    case Join(db, check, refs) => Ok(DataFromDb(df, db, check, refs, prefix))
  }

  /** `__add_org_data`: the packaged organisation table is loaded when no table is
      given. */
  function OrgStep(names: seq<string>, disable: PyValue, data: PyValue, packaged: Frame, lookup: ColumnList): (r: Step)
    ensures r.Join? ==> r.db == (if data.PyFrame? then data.frame else packaged)
    ensures r.Join? ==> r.check == lookup(names, OrgKeys) && r.check != []
  {
    match StepGuard("'org_data' must be non-empty pandas.DataFrame or None.",
                   "'disable_org' must be True or False.",
                   OrgKeys, names, data, disable, lookup)
    case Err(e) => Raise(e)
    case Ok(None) => Keep
    case Ok(Some(cols)) =>
      Join(if data == PyNone then packaged else data.frame, cols, MatchFor(OrgKeys, OrgRefKeys, cols))
  }

  function AddOrgData(df: Frame, disable: PyValue, data: PyValue, packaged: Frame, lookup: ColumnList): Result<Frame>
    requires df.Valid() && packaged.Valid() && Rectangular(data)
  {
    RunStep(df, OrgStep(df.names, disable, data, packaged, lookup), "org")
  }

  /** `__add_account_data`: with no table given it calls a year-subsetting helper
      that enrich_data.py does not define. */
  function AccountStep(names: seq<string>, disable: PyValue, data: PyValue, lookup: ColumnList): (r: Step)
    ensures r.Join? ==> data.PyFrame? && r.db == data.frame
    ensures r.Join? ==> r.check == lookup(names, AccountKeys) && r.check != []
  {
    match StepGuard("'account_data' must be non-empty pandas.DataFrame or None.",
                   "'disable_account' must be True or False.",
                   AccountKeys, names, data, disable, lookup)
    case Err(e) => Raise(e)
    case Ok(None) => Keep
    case Ok(Some(cols)) =>
      if data == PyNone then Raise("NameError: name '__subset_data_based_on_year' is not defined")
      else Join(data.frame, cols, MatchFor(AccountKeys, NumberName, cols))
  }

  function AddAccountData(df: Frame, disable: PyValue, data: PyValue, lookup: ColumnList): Result<Frame>
    requires df.Valid() && Rectangular(data)
  {
    RunStep(df, AccountStep(df.names, disable, data, lookup), "account")
  }

  /** `__add_service_data`; its data check reports `org_data`. */
  function ServiceStep(names: seq<string>, disable: PyValue, data: PyValue, lookup: ColumnList): (r: Step)
    ensures r.Join? ==> data.PyFrame? && r.db == data.frame
    ensures r.Join? ==> r.check == lookup(names, ServiceKeys) && r.check != []
  {
    match StepGuard("'org_data' must be non-empty pandas.DataFrame or None.",
                   "'disable_service' must be True or False.",
                   ServiceKeys, names, data, disable, lookup)
    case Err(e) => Raise(e)
    case Ok(None) => Keep
    case Ok(Some(cols)) =>
      if data == PyNone then Raise("NameError: name '__subset_data_based_on_year' is not defined")
      else Join(data.frame, cols, MatchFor(ServiceKeys, NumberName, cols))
  }

  function AddServiceData(df: Frame, disable: PyValue, data: PyValue, lookup: ColumnList): Result<Frame>
    requires df.Valid() && Rectangular(data)
  {
    RunStep(df, ServiceStep(df.names, disable, data, lookup), "service")
  }

  /** `__add_suppl_data`: there is no packaged supplier table, so without a table
      nothing is added. Its data check reports `org_data`. */
  function SupplStep(names: seq<string>, disable: PyValue, data: PyValue, lookup: ColumnList): (r: Step)
    ensures r.Join? ==> data.PyFrame? && r.db == data.frame
    ensures r.Join? ==> r.check == lookup(names, SupplKeys) && r.check != []
  {
    match StepGuard("'org_data' must be non-empty pandas.DataFrame or None.",
                   "'disable_suppl' must be True or False.",
                   SupplKeys, names, data, disable, lookup)
    case Err(e) => Raise(e)
    case Ok(None) => Keep
    case Ok(Some(cols)) =>
      if data == PyNone then Keep
      else Join(data.frame, cols, MatchFor(SupplKeys, SupplRefKeys, cols))
  }

  function AddSupplData(df: Frame, disable: PyValue, data: PyValue, lookup: ColumnList): Result<Frame>
    requires df.Valid() && Rectangular(data)
  {
    RunStep(df, SupplStep(df.names, disable, data, lookup), "suppl")
  }

  /** The organisation step raises exactly on a bad data argument or flag, and
      keeps the table when disabled or when no key column is found. */
  lemma OrgStepOutcome(names: seq<string>, disable: PyValue, data: PyValue, packaged: Frame, lookup: ColumnList)
    ensures OrgStep(names, disable, data, packaged, lookup).Raise? <==> !GoodArgs(data, disable)
    ensures OrgStep(names, disable, data, packaged, lookup) == Keep <==>
      GoodArgs(data, disable) && (disable.b || lookup(names, OrgKeys) == [])
  {
  }

  /** The account step raises on a bad argument, and also whenever it would load
      its packaged table. */
  lemma AccountStepRaises(names: seq<string>, disable: PyValue, data: PyValue, lookup: ColumnList)
    ensures AccountStep(names, disable, data, lookup).Raise? <==>
      !GoodArgs(data, disable) || (data == PyNone && !disable.b && lookup(names, AccountKeys) != [])
    ensures AccountStep(names, disable, data, lookup) == Keep <==>
      GoodArgs(data, disable) && (disable.b || lookup(names, AccountKeys) == [])
  {
    var g := StepGuard("'account_data' must be non-empty pandas.DataFrame or None.",
                       "'disable_account' must be True or False.",
                       AccountKeys, names, data, disable, lookup);
    assert g.Err? <==> !GoodArgs(data, disable);
  }

  /** The service step behaves as the account step, and reports a bad data
      argument under the name `org_data`. */
  lemma ServiceStepRaises(names: seq<string>, disable: PyValue, data: PyValue, lookup: ColumnList)
    ensures ServiceStep(names, disable, data, lookup).Raise? <==>
      !GoodArgs(data, disable) || (data == PyNone && !disable.b && lookup(names, ServiceKeys) != [])
    ensures !(IsNonEmptyDf(data) || data == PyNone) ==>
      ServiceStep(names, disable, data, lookup) == Raise("'org_data' must be non-empty pandas.DataFrame or None.")
  {
    var g := StepGuard("'org_data' must be non-empty pandas.DataFrame or None.",
                       "'disable_service' must be True or False.",
                       ServiceKeys, names, data, disable, lookup);
    assert g.Err? <==> !GoodArgs(data, disable);
  }

  /** The supplier step raises only on a bad argument, and without a supplier
      table keeps the table. */
  lemma SupplStepOutcome(names: seq<string>, disable: PyValue, data: PyValue, lookup: ColumnList)
    ensures SupplStep(names, disable, data, lookup).Raise? <==> !GoodArgs(data, disable)
    ensures SupplStep(names, disable, data, lookup) == Keep <==>
      GoodArgs(data, disable) && (data == PyNone || disable.b || lookup(names, SupplKeys) == [])
  {
  }

  predicate Increasing(w: seq<nat>)
  {
    forall s, t :: 0 <= s < t < |w| ==> w[s] < w[t]
  }

  /** `Where` lists positions in increasing order. */
  lemma {:induction false} WhereIncreasing(xs: seq<string>, names: seq<string>, n: nat)
    requires n <= |xs|
    ensures Increasing(Where(xs, names, n))
  {
    if n > 0 {
      WhereIncreasing(xs, names, n - 1);
      var w := Where(xs, names, n - 1);
      if xs[n - 1] in names {
        var v := w + [n - 1];
        assert Where(xs, names, n) == v;
        forall s, t | 0 <= s < t < |v|
          ensures v[s] < v[t]
        {
          assert v[s] == w[s] && w[s] < n - 1;
          if t < |w| { assert v[t] == w[t]; }
        }
      } else {
        assert Where(xs, names, n) == w;
      }
    }
  }

  /** Picking increasing positions of a list without repeats gives a list without
      repeats. */
  lemma PickDistinct(xs: seq<string>, w: seq<nat>)
    requires Distinct(xs)
    requires forall t :: 0 <= t < |w| ==> w[t] < |xs|
    requires Increasing(w)
    ensures Distinct(Pick(xs, w))
  {
    var r := Pick(xs, w);
    forall s, t | 0 <= s < |r| && 0 <= t < |r| && s != t
      ensures r[s] != r[t]
    {
      assert w[s] != w[t];
    }
  }

  /** Each step's key lists have no repeats. */
  lemma StepKeysDistinct()
    ensures Distinct(OrgKeys) && Distinct(OrgRefKeys) && Distinct(AccountKeys) && Distinct(ServiceKeys)
    ensures Distinct(NumberName) && Distinct(SupplKeys) && Distinct(SupplRefKeys)
  {
  }

  /** Inside the four steps the pairing in `__add_data_from_db` is sound: when the
      column lookup returns the keys it found in the step's own key order, and the
      table has them all, the as-written pairing equals the intended one. */
  lemma StepPairsAsIntended(colsDf: seq<string>, cm: seq<string>, cols: seq<string>,
                            dfNames: seq<string>, dbNames: seq<string>)
    requires |colsDf| <= |cm| && Distinct(colsDf) && Distinct(cm)
    requires cols == Pick(colsDf, Where(colsDf, cols, |colsDf|))
    requires forall x :: x in cols ==> x in dfNames
    ensures AlignAsWritten(cols, MatchFor(colsDf, cm, cols), dfNames, dbNames)
         == Ok(Align(cols, MatchFor(colsDf, cm, cols), dfNames, dbNames))
  {
    var w := Where(colsDf, cols, |colsDf|);
    WhereIncreasing(colsDf, cols, |colsDf|);
    PickDistinct(colsDf, w);
    PickDistinct(cm, w);
    AlignAgreesOnFoundColumns(cols, MatchFor(colsDf, cm, cols), dfNames, dbNames);
  }
}
