/** Column-name standardisation (src/osta/change_names.py): exact look-up of each
    column name in a key -> standard-name dictionary, a cascade of value-pattern
    tests for the names that were not found, and numbered suffixes for repeated
    names. */
module ChangeNames {
  import opened Common
  import opened Utils

  // ---------------------------------------------------------------------------
  // Python dictionaries (insertion-ordered, one entry per key)
  // ---------------------------------------------------------------------------

  type Dict = seq<(string, string)>

  function Keys(d: Dict): (ks: seq<string>)
    ensures |ks| == |d| && forall i :: 0 <= i < |d| ==> ks[i] == d[i].0
  {
    seq(|d|, i requires 0 <= i < |d| => d[i].0)
  }

  function Values(d: Dict): (vs: seq<string>)
    ensures |vs| == |d| && forall i :: 0 <= i < |d| ==> vs[i] == d[i].1
  {
    seq(|d|, i requires 0 <= i < |d| => d[i].1)
  }

  /** `d.get(k)`: the value of the first entry with key `k`. */
  function Get(d: Dict, k: string): Option<string>
  {
    if d == [] then None
    else if d[0].0 == k then Some(d[0].1)
    else Get(d[1..], k)
  }

  /** `d.get(k)` finds a value exactly for the keys of `d`. */
  lemma {:induction false} GetIffKey(d: Dict, k: string)
    ensures Get(d, k).Some? <==> k in Keys(d)
  {
    if d != [] {
      assert Keys(d) == [d[0].0] + Keys(d[1..]);
      GetIffKey(d[1..], k);
    }
  }

  /** `d[k] = v`: an existing key keeps its place, a new one goes last. */
  function Put(d: Dict, k: string, v: string): Dict
  {
    if d == [] then [(k, v)]
    else if d[0].0 == k then [(k, v)] + d[1..]
    else [d[0]] + Put(d[1..], k, v)
  }

  /** After `d[k] = v`, `k` gives `v` and every other key what it gave before. */
  lemma {:induction false} PutGet(d: Dict, k: string, v: string, k': string)
    ensures Get(Put(d, k, v), k') == if k' == k then Some(v) else Get(d, k')
  {
    if d != [] && d[0].0 != k {
      PutGet(d[1..], k, v, k');
    }
  }

  /** `d.update(pairs)` (and `dict(pairs)` when `d` is empty): entries in order. */
  function UpdateAll(d: Dict, pairs: seq<(string, string)>): Dict
    decreases |pairs|
  {
    if pairs == [] then d else UpdateAll(Put(d, pairs[0].0, pairs[0].1), pairs[1..])
  }

  /** The value the last pair with key `k` carries. */
  function LastValue(pairs: seq<(string, string)>, k: string): Option<string>
  {
    if pairs == [] then None
    else if pairs[|pairs| - 1].0 == k then Some(pairs[|pairs| - 1].1)
    else LastValue(pairs[..|pairs| - 1], k)
  }

  /** After an update the last pair with a key wins; keys not among the pairs keep
      their old values. */
  lemma {:induction false} UpdateAllGet(d: Dict, pairs: seq<(string, string)>, k: string)
    ensures Get(UpdateAll(d, pairs), k) ==
      if LastValue(pairs, k).Some? then LastValue(pairs, k) else Get(d, k)
    decreases |pairs|
  {
    if pairs != [] {
      var d' := Put(d, pairs[0].0, pairs[0].1);
      PutGet(d, pairs[0].0, pairs[0].1, k);
      UpdateAllGet(d', pairs[1..], k);
      LastValueCons(pairs, k);
    }
  }

  lemma {:induction false} LastValueCons(pairs: seq<(string, string)>, k: string)
    requires pairs != []
    ensures LastValue(pairs, k) ==
      if LastValue(pairs[1..], k).Some? then LastValue(pairs[1..], k)
      else if pairs[0].0 == k then Some(pairs[0].1) else None
    decreases |pairs|
  {
    if |pairs| > 1 && pairs[|pairs| - 1].0 != k {
      assert pairs[..|pairs| - 1][1..] == pairs[1..][..|pairs[1..]| - 1];
      LastValueCons(pairs[..|pairs| - 1], k);
    }
  }

  /** Every pair with key `k` carries `v`, and there is one: the last carries `v`. */
  lemma {:induction false} LastValueUniform(pairs: seq<(string, string)>, k: string, v: string)
    requires exists i :: 0 <= i < |pairs| && pairs[i].0 == k
    requires forall i :: 0 <= i < |pairs| && pairs[i].0 == k ==> pairs[i].1 == v
    ensures LastValue(pairs, k) == Some(v)
    decreases |pairs|
  {
    var n := |pairs|;
    if pairs[n - 1].0 != k {
      var i :| 0 <= i < n && pairs[i].0 == k;
      assert pairs[..n - 1][i] == pairs[i];
      LastValueUniform(pairs[..n - 1], k, v);
    }
  }

  /** Every key of `d` is in lower case. */
  predicate LowerKeyed(d: Dict)
  {
    forall i :: 0 <= i < |d| ==> Lower(d[i].0) == d[i].0
  }

  /** `d[k] = v` with a lower-case key keeps every key in lower case. */
  lemma {:induction false} PutLowerKeyed(d: Dict, k: string, v: string)
    requires LowerKeyed(d) && Lower(k) == k
    ensures LowerKeyed(Put(d, k, v))
  {
    if d != [] && d[0].0 != k {
      PutLowerKeyed(d[1..], k, v);
    }
  }

  /** An update with lower-case keys keeps every key in lower case. */
  lemma {:induction false} UpdateAllLowerKeyed(d: Dict, pairs: seq<(string, string)>)
    requires LowerKeyed(d) && LowerKeyed(pairs)
    ensures LowerKeyed(UpdateAll(d, pairs))
    decreases |pairs|
  {
    if pairs != [] {
      PutLowerKeyed(d, pairs[0].0, pairs[0].1);
      UpdateAllLowerKeyed(Put(d, pairs[0].0, pairs[0].1), pairs[1..]);
    }
  }

  /** `{k.lower(): v for k, v in d.items()}`: every key of the result is in lower case. */
  function LowerKeys(d: Dict): (r: Dict)
    ensures LowerKeyed(r)
  {
    var lowered := seq(|d|, i requires 0 <= i < |d| => (Lower(d[i].0), d[i].1));
    assert LowerKeyed(lowered) by {
      forall i | 0 <= i < |d|
        ensures Lower(lowered[i].0) == lowered[i].0
      {
        assert Lower(Lower(d[i].0)) == Lower(d[i].0);
      }
    }
    UpdateAllLowerKeyed([], lowered);
    UpdateAll([], lowered)
  }

  /** The default dictionary: mandatory then optional entries, then every standard
      name added as a key of its own. */
  function DefaultFields(mandatory: Dict, optional: Dict): Dict
  {
    var f := UpdateAll(UpdateAll([], mandatory), optional);
    UpdateAll(f, seq(|f|, i requires 0 <= i < |f| => (f[i].1, f[i].1)))
  }

  /** Every standard name of the default dictionary maps to itself. */
  lemma DefaultFieldsMapValuesToThemselves(mandatory: Dict, optional: Dict, v: string)
    requires v in Values(UpdateAll(UpdateAll([], mandatory), optional))
    ensures Get(DefaultFields(mandatory, optional), v) == Some(v)
  {
    var f := UpdateAll(UpdateAll([], mandatory), optional);
    var adds := seq(|f|, i requires 0 <= i < |f| => (f[i].1, f[i].1));
    var i :| 0 <= i < |f| && f[i].1 == v;
    assert adds[i].0 == v;
    LastValueUniform(adds, v, v);
    UpdateAllGet(f, adds, v);
  }

  /** A column already named by a standard name keeps it, unless another spelling
      of that name is mapped elsewhere in the dictionary. */
  lemma StandardNameKept(mandatory: Dict, optional: Dict, v: string)
    requires v in Values(UpdateAll(UpdateAll([], mandatory), optional))
    requires Lower(v) == v && Strip(v) == v
    requires var d := DefaultFields(mandatory, optional);
      forall i :: 0 <= i < |d| && Lower(d[i].0) == v ==> d[i].1 == v
    ensures ExactName(v, LowerKeys(DefaultFields(mandatory, optional))) == Some(v)
  {
    var d := DefaultFields(mandatory, optional);
    DefaultFieldsMapValuesToThemselves(mandatory, optional, v);
    GetIffKey(d, v);
    var i :| 0 <= i < |d| && d[i].0 == v;
    var lowered := seq(|d|, j requires 0 <= j < |d| => (Lower(d[j].0), d[j].1));
    assert lowered[i].0 == v;
    LastValueUniform(lowered, v, v);
    UpdateAllGet([], lowered, v);
  }

  // ---------------------------------------------------------------------------
  // The field dictionary (`__get_fields_df`)
  // ---------------------------------------------------------------------------

  /** The reference tables and the helpers the cascade calls but which are not
      part of this model. */
  datatype Env = Env(
    scorer: (string, string) -> int,                       // fuzzywuzzy scorer
    testIfDate: seq<Cell> -> bool,                         // utils.__test_if_date
    testIfSums: (Frame, nat, seq<string>, string) -> bool, // __test_if_sums
    testIfVoucher: (Frame, nat, seq<string>) -> bool,      // utils.__test_if_voucher
    readCsv: string -> Frame,                              // pd.read_csv
    mandatoryFields: Frame,
    optionalFields: Frame,
    landCodes: Frame,
    municipalityCodes: Frame,
    serviceCodes: Frame,
    accountInfo: Frame)

  /** (key, value) of each row; both must be text. */
  function PairsOf(rows: seq<seq<Cell>>, kj: nat, vj: nat): Result<seq<(string, string)>>
    requires forall r :: r in rows ==> kj < |r| && vj < |r|
  {
    if rows == [] then Ok([])
    else if !rows[0][kj].Str? || !rows[0][vj].Str? then Err("'fields' keys and values must be text")
    else
      var rest :- PairsOf(rows[1..], kj, vj);
      Ok([(rows[0][kj].s, rows[0][vj].s)] + rest)
  }

  /** `fields.set_index("key")["value"].to_dict()`. */
  function FrameDict(f: Frame): Result<Dict>
    requires f.Valid()
  {
    if "key" !in f.names || "value" !in f.names then Err("'fields' must include columns 'key' and 'value'.")
    else
      var pairs :- PairsOf(f.rows, IndexOf(f.names, "key"), IndexOf(f.names, "value"));
      Ok(UpdateAll([], pairs))
  }

  predicate EnvValid(env: Env)
  {
    env.mandatoryFields.Valid() && env.optionalFields.Valid() && env.landCodes.Valid()
    && env.municipalityCodes.Valid() && env.serviceCodes.Valid() && env.accountInfo.Valid()
  }

  /** `__get_fields_df`: the dictionary with lower-cased keys. A dictionary is
      taken entry by entry; a table must have `key` and `value` columns; any
      other kind of value is refused. */
  function GetFields(fields: PyValue, env: Env): (r: Result<Dict>)
    requires EnvValid(env) && (fields.PyFrame? ==> fields.frame.Valid())
    ensures r.Ok? ==> LowerKeyed(r.value)
    ensures fields.PyDict? ==> r == Ok(LowerKeys(UpdateAll([], fields.pairs)))
    ensures fields.PyFrame? ==>
      (r.Err? <==> FrameDict(fields.frame).Err?) &&
      ("key" !in fields.frame.names || "value" !in fields.frame.names ==>
         r == Err("'fields' must include columns 'key' and 'value'.")) &&
      (FrameDict(fields.frame).Ok? ==> r == Ok(LowerKeys(FrameDict(fields.frame).value)))
    ensures !(fields.PyNone? || fields.PyFrame? || fields.PyStr? || fields.PyDict?) ==> r.Err?
  {
    match fields
    case PyNone =>
      var m :- FrameDict(env.mandatoryFields);
      var o :- FrameDict(env.optionalFields);
      Ok(LowerKeys(DefaultFields(m, o)))
    case PyFrame(f) =>
      var d :- FrameDict(f);
      Ok(LowerKeys(d))
    case PyStr(path) =>
      var table := env.readCsv(path);
      if !table.Valid() then Err("ParserError: malformed CSV file")
      else
        var d :- FrameDict(table);
        Ok(LowerKeys(d))
    case PyDict(pairs) => Ok(LowerKeys(UpdateAll([], pairs)))
    case _ => Err("'fields' must be pd.DataFrame, dict, string or None.")
  }

  /** The exact match of a column name: lower-cased, stripped and looked up. */
  function ExactName(col: string, fields: Dict): Option<string>
  {
    Get(fields, Strip(Lower(col)))
  }

  // ---------------------------------------------------------------------------
  // Loose (fuzzy) name match
  // ---------------------------------------------------------------------------

  /** `process.extractOne`: the first key with the highest non-negative score. */
  function BestKey(col: string, keys: seq<string>, scorer: (string, string) -> int): (r: Option<(string, int)>)
    ensures r.None? <==> forall k :: k in keys ==> scorer(col, k) < 0
    ensures r.Some? ==> (r.value.0 in keys && r.value.1 == scorer(col, r.value.0) >= 0
      && (forall k :: k in keys ==> scorer(col, k) <= r.value.1)
      && (forall i :: 0 <= i < IndexOf(keys, r.value.0) ==> scorer(col, keys[i]) < r.value.1))
  {
    if keys == [] then None
    else
      var rest := BestKey(col, keys[1..], scorer);
      var s := scorer(col, keys[0]);
      if s >= 0 && (rest.None? || rest.value.1 <= s) then Some((keys[0], s))
      else
        assert rest.Some? ==> keys[0] != rest.value.0 ==> IndexOf(keys, rest.value.0) == 1 + IndexOf(keys[1..], rest.value.0);
        rest
  }

  /** `__test_if_loose_match`: a blank name is kept; otherwise the value of the
      best-scoring key replaces the name when the score reaches `th`×100. Without
      any key, `extractOne` gives `None` and indexing it raises. */
  function LooseMatch(col: string, fields: Dict, th: real, scorer: (string, string) -> int): (r: Result<string>)
    ensures Strip(col) == [] ==> r == Ok(col)
    ensures Strip(col) != [] ==> (r.Err? <==> forall k :: k in Keys(fields) ==> scorer(col, k) < 0)
    ensures r.Ok? && r.value != col ==>
      exists k :: (k in Keys(fields) && Get(fields, k) == Some(r.value)
        && (scorer(col, k) as real) >= th * 100.0
        && forall k' :: k' in Keys(fields) ==> scorer(col, k') <= scorer(col, k))
    ensures Strip(col) != [] && BestKey(col, Keys(fields), scorer).Some? ==>
      var best := BestKey(col, Keys(fields), scorer).value;
      r.Ok? && (if (best.1 as real) >= th * 100.0 then Get(fields, best.0) == Some(r.value) else r.value == col)
  {
    if Strip(col) == [] then Ok(col)
    else
      match BestKey(col, Keys(fields), scorer)
      case None => Err("'NoneType' object is not subscriptable")
      case Some(best) =>
        if (best.1 as real) >= th * 100.0 then (GetIffKey(fields, best.0); Ok(Get(fields, best.0).value))
        else Ok(col)
  }

  // ---------------------------------------------------------------------------
  // Value-pattern tests
  // ---------------------------------------------------------------------------

  function CountTrue(bs: seq<bool>): nat
    ensures CountTrue(bs) <= |bs|
  {
    if bs == [] then 0 else (if bs[0] then 1 else 0) + CountTrue(bs[1..])
  }

  function Min(a: int, b: int): int { if a <= b then a else b }

  /** The share `__test_if_BID` compares with the threshold: when some value is a
      valid Business ID and some string form has nine characters, the smaller of
      the two shares of true flags (the boolean index of `value_counts()` masks
      out the count of `True`, and `[0]` reads it); otherwise 0. */
  function BidShare(col: seq<Cell>): real
    requires |col| > 0
  {
    var valid := AreValidBids(col);
    var nine := seq(|col|, i requires 0 <= i < |col| => |StrForm(col[i])| == 9);
    if true in valid && true in nine then
      (Min(CountTrue(valid), CountTrue(nine)) as real) / (|col| as real)
    else 0.0
  }

  /** `__test_if_BID`: for a positive threshold, a column passes only when some
      value is a valid Business ID and some value has nine characters. */
  predicate TestIfBid(col: seq<Cell>, th: real)
    requires |col| > 0
    ensures TestIfBid(col, th) && th > 0.0 ==>
      (exists i :: 0 <= i < |col| && IsValidBid(StrForm(col[i])))
      && (exists i :: 0 <= i < |col| && |StrForm(col[i])| == 9)
  {
    var valid := AreValidBids(col);
    var nine := seq(|col|, i requires 0 <= i < |col| => |StrForm(col[i])| == 9);
    assert BidShare(col) > 0.0 ==> valid[IndexOf(valid, true)] && nine[IndexOf(nine, true)];
    BidShare(col) >= th
  }

  lemma {:induction false} CountTrueSplit(bs: seq<bool>)
    ensures true in bs <==> CountTrue(bs) > 0
  {
    if bs != [] {
      CountTrueSplit(bs[1..]);
      assert bs == [bs[0]] + bs[1..];
    }
  }

  /** The positions of the flags that hold. */
  function TruePositions(bs: seq<bool>): set<nat>
  {
    set i: nat | i < |bs| && bs[i]
  }

  lemma {:induction false} CountTrueAppend(a: seq<bool>, b: seq<bool>)
    ensures CountTrue(a + b) == CountTrue(a) + CountTrue(b)
  {
    if a == [] {
      assert a + b == b;
    } else {
      assert (a + b)[1..] == a[1..] + b;
      CountTrueAppend(a[1..], b);
    }
  }

  /** `CountTrue` counts the positions of the flags that hold. */
  lemma {:induction false} CountTrueCounts(bs: seq<bool>)
    ensures CountTrue(bs) == |TruePositions(bs)|
    decreases |bs|
  {
    if bs != [] {
      var n := |bs| - 1;
      var init := bs[..n];
      assert bs == init + [bs[n]];
      CountTrueAppend(init, [bs[n]]);
      CountTrueCounts(init);
      assert CountTrue([bs[n]]) == if bs[n] then 1 else 0 by {
        assert [bs[n]][1..] == [];
      }
      if bs[n] {
        assert TruePositions(bs) == TruePositions(init) + {n};
      } else {
        assert TruePositions(bs) == TruePositions(init);
      }
    }
  }

  /** The rows of a column holding a valid Business ID. */
  function ValidIdRows(col: seq<Cell>): set<nat>
  {
    set i: nat | i < |col| && IsValidBid(StrForm(col[i]))
  }

  /** The rows of a column whose string form has nine characters. */
  function NineCharRows(col: seq<Cell>): set<nat>
  {
    set i: nat | i < |col| && |StrForm(col[i])| == 9
  }

  /** The flags of `AreValidBids` count the rows holding a valid Business ID. */
  lemma ValidIdRowsCount(col: seq<Cell>)
    ensures |ValidIdRows(col)| == CountTrue(AreValidBids(col))
  {
    assert TruePositions(AreValidBids(col)) == ValidIdRows(col);
    CountTrueCounts(AreValidBids(col));
  }

  /** The length flags count the rows of nine characters. */
  lemma NineCharRowsCount(col: seq<Cell>)
    ensures |NineCharRows(col)| == CountTrue(seq(|col|, i requires 0 <= i < |col| => |StrForm(col[i])| == 9))
  {
    var nine := seq(|col|, i requires 0 <= i < |col| => |StrForm(col[i])| == 9);
    assert TruePositions(nine) == NineCharRows(col);
    CountTrueCounts(nine);
  }

  /** For a positive `n`, `x / n` reaches `th` exactly when `x` reaches `th * n`. */
  lemma ShareAtLeast(x: real, n: real, th: real)
    requires n > 0.0
    ensures x / n >= th <==> x >= th * n
  {
    var q := x / n;
    assert q * n == x;
    if q >= th {
      assert q * n >= th * n;
    } else {
      assert q * n < th * n;
    }
  }

  /** `a` of `n` rows make up at least the share `th`. */
  predicate Reaches(a: nat, n: nat, th: real)
  {
    (a as real) >= th * (n as real)
  }

  /** The smaller of the shares `a / n` and `b / n`, or 0 when either count is 0. */
  function SmallerShare(a: nat, b: nat, n: nat): real
    requires n > 0
  {
    if a > 0 && b > 0 then (Min(a, b) as real) / (n as real) else 0.0
  }

  /** The smaller share reaches a non-positive threshold always, and a positive
      one exactly when both counts reach it. */
  lemma SmallerShareAtLeast(a: nat, b: nat, n: nat, th: real)
    requires n > 0
    ensures th <= 0.0 ==> SmallerShare(a, b, n) >= th
    ensures th > 0.0 ==> (SmallerShare(a, b, n) >= th <==> Reaches(a, n, th) && Reaches(b, n, th))
  {
    if a > 0 && b > 0 {
      ShareAtLeast(Min(a, b) as real, n as real, th);
      ShareAtLeast(Min(a, b) as real, n as real, 0.0);
    } else if th > 0.0 {
      assert 0.0 < th * (n as real);
    }
  }

  /** `__test_if_BID` in terms of the column: a non-positive threshold always
      passes; a positive one passes exactly when at least that share of the rows
      hold a valid Business ID and at least that share have nine characters. */
  lemma BidTestShares(col: seq<Cell>, th: real)
    requires |col| > 0
    ensures th <= 0.0 ==> TestIfBid(col, th)
    ensures th > 0.0 ==> (TestIfBid(col, th) <==> Reaches(|ValidIdRows(col)|, |col|, th) && Reaches(|NineCharRows(col)|, |col|, th))
  {
    var a, b := |ValidIdRows(col)|, |NineCharRows(col)|;
    BidShareCounts(col);
    assert TestIfBid(col, th) == (SmallerShare(a, b, |col|) >= th);
    SmallerShareAtLeast(a, b, |col|, th);
  }

  /** The share of `__test_if_BID` is the smaller share of the rows holding a
      valid Business ID and of those of nine characters. */
  lemma BidShareCounts(col: seq<Cell>)
    requires |col| > 0
    ensures BidShare(col) == SmallerShare(|ValidIdRows(col)|, |NineCharRows(col)|, |col|)
  {
    var valid := AreValidBids(col);
    var nine := seq(|col|, i requires 0 <= i < |col| => |StrForm(col[i])| == 9);
    ValidIdRowsCount(col);
    NineCharRowsCount(col);
    CountTrueSplit(valid);
    CountTrueSplit(nine);
  }

  /** Without a valid ID the share is 0: the test fails for any positive threshold. */
  lemma BidTestNeedsValidId(col: seq<Cell>, th: real)
    requires |col| > 0 && th > 0.0
    requires forall i :: 0 <= i < |col| ==> !IsValidBid(StrForm(col[i]))
    ensures !TestIfBid(col, th)
  {
    var valid := AreValidBids(col);
    assert true !in valid;
  }

  /** Keys of the non-missing cells. */
  function KeysOf(c: seq<Cell>): set<Key>
  {
    set i | 0 <= i < |c| && c[i] != NA :: HashKey(c[i])
  }

  /** `Series.nunique()`. */
  function NUnique(c: seq<Cell>): nat
  {
    |KeysOf(c)|
  }

  /** The rows of two columns with both cells present, as key pairs. */
  function PairKeys(a: seq<Cell>, b: seq<Cell>): set<(Key, Key)>
    requires |a| == |b|
  {
    set i | 0 <= i < |a| && a[i] != NA && b[i] != NA :: (HashKey(a[i]), HashKey(b[i]))
  }

  /** `temp.dropna().drop_duplicates().shape[0] == ref.nunique()`. */
  predicate PairsMatch(df: Frame, i: nat, j: nat)
    requires df.Valid() && i < |df.names| && j < |df.names|
  {
    |PairKeys(df.Column(i), df.Column(j))| == NUnique(df.Column(j))
  }

  /** Functional dependency: equal reference keys come with equal column keys. */
  predicate Determines(a: seq<Cell>, b: seq<Cell>)
    requires |a| == |b|
  {
    forall i, j ::
      (0 <= i < |a| && 0 <= j < |a| && a[i] != NA && b[i] != NA && a[j] != NA && b[j] != NA
       && HashKey(b[i]) == HashKey(b[j])) ==> HashKey(a[i]) == HashKey(a[j])
  }

  lemma {:induction false} ImageSmaller(p: set<(Key, Key)>)
    ensures |set q | q in p :: q.1| <= |p|
    decreases |p|
  {
    if p != {} {
      var q :| q in p;
      var rest := p - {q};
      ImageSmaller(rest);
      assert p == rest + {q};
      assert (set x | x in p :: x.1) == (set x | x in rest :: x.1) + {q.1};
    }
  }

  lemma {:induction false} ImageEqualMeansInjective(p: set<(Key, Key)>)
    requires |set q | q in p :: q.1| == |p|
    ensures forall x, y :: x in p && y in p && x.1 == y.1 ==> x == y
    decreases |p|
  {
    forall x, y | x in p && y in p && x.1 == y.1
      ensures x == y
    {
      if x != y {
        var rest := p - {y};
        assert (set q | q in p :: q.1) == (set q | q in rest :: q.1);
        ImageSmaller(rest);
      }
    }
  }

  lemma {:induction false} InjectiveImageEqual(p: set<(Key, Key)>)
    requires forall x, y :: x in p && y in p && x.1 == y.1 ==> x == y
    ensures |set q | q in p :: q.1| == |p|
    decreases |p|
  {
    if p != {} {
      var q :| q in p;
      var rest := p - {q};
      InjectiveImageEqual(rest);
      assert (set x | x in p :: x.1) == (set x | x in rest :: x.1) + {q.1};
      assert q.1 !in (set x | x in rest :: x.1);
    }
  }

  /** With no missing cells, the pair count equals the reference's distinct count
      exactly when the reference column determines the tested column. */
  lemma PairsMatchIffDetermines(df: Frame, i: nat, j: nat)
    requires df.Valid() && i < |df.names| && j < |df.names|
    requires forall r :: 0 <= r < |df.rows| ==> df.rows[r][i] != NA && df.rows[r][j] != NA
    ensures PairsMatch(df, i, j) <==> Determines(df.Column(i), df.Column(j))
  {
    var a := df.Column(i);
    var b := df.Column(j);
    var p := PairKeys(a, b);
    assert KeysOf(b) == set q | q in p :: q.1 by {
      forall k | k in KeysOf(b) ensures k in set q | q in p :: q.1 {
        var r :| 0 <= r < |b| && b[r] != NA && HashKey(b[r]) == k;
        assert (HashKey(a[r]), HashKey(b[r])) in p;
      }
    }
    if PairsMatch(df, i, j) {
      ImageEqualMeansInjective(p);
      forall x, y | 0 <= x < |a| && 0 <= y < |a| && a[x] != NA && b[x] != NA && a[y] != NA && b[y] != NA
        && HashKey(b[x]) == HashKey(b[y])
        ensures HashKey(a[x]) == HashKey(a[y])
      {
        assert (HashKey(a[x]), HashKey(b[x])) in p;
        assert (HashKey(a[y]), HashKey(b[y])) in p;
      }
    }
    if Determines(a, b) {
      forall x, y | x in p && y in p && x.1 == y.1 ensures x == y {
        var rx :| 0 <= rx < |a| && a[rx] != NA && b[rx] != NA && x == (HashKey(a[rx]), HashKey(b[rx]));
        var ry :| 0 <= ry < |a| && a[ry] != NA && b[ry] != NA && y == (HashKey(a[ry]), HashKey(b[ry]));
      }
      InjectiveImageEqual(p);
    }
  }

  /** `__test_match_between_colnames`: the column has one of the given dtypes and
      some listed reference column already named in `colnames` matches it. */
  predicate MatchBetween(df: Frame, ci: nat, colnames: seq<string>, colsMatch: seq<string>, kinds: seq<DType>)
    requires df.Valid() && ci < |df.names| && |colnames| == |df.names|
    ensures MatchBetween(df, ci, colnames, colsMatch, kinds) ==>
      df.dtypes[ci] in kinds && exists j :: 0 <= j < |colnames| && colnames[j] in colsMatch
  {
    df.dtypes[ci] in kinds
    && exists c :: c in colsMatch && c in colnames && PairsMatch(df, ci, IndexOf(colnames, c))
  }

  function NonMissing(c: seq<Cell>): (r: seq<Cell>)
    ensures |r| <= |c| && NA !in r
    ensures forall x :: x in c && x != NA ==> x in r
    ensures forall x :: x in r ==> x in c
  {
    if c == [] then [] else (if c[0] == NA then [] else [c[0]]) + NonMissing(c[1..])
  }

  /** `__test_if_vat_number`: the number of valid VAT numbers among the present
      cells, over all rows, reaches the threshold. */
  predicate TestIfVatNumber(df: Frame, ci: nat, th: real)
    requires df.Valid() && ci < |df.names| && |df.rows| > 0
  {
    var valid := AreValidVatNumbers(NonMissing(df.Column(ci)));
    (CountTrue(valid) as real) / (|df.rows| as real) >= th
  }

  /** For a positive threshold, a column passes the VAT-number test only when some
      present cell is a valid VAT number. */
  lemma VatTestNeedsValidVat(df: Frame, ci: nat, th: real)
    requires df.Valid() && ci < |df.names| && |df.rows| > 0
    requires TestIfVatNumber(df, ci, th) && th > 0.0
    ensures exists r :: 0 <= r < |df.rows| && df.rows[r][ci] != NA && IsValidVat(df.rows[r][ci])
  {
    PositiveShare(CountTrue(AreValidVatNumbers(NonMissing(df.Column(ci)))), |df.rows|, th);
    VatWitness(df, ci);
  }

  lemma PositiveShare(c: nat, n: nat, th: real)
    requires n > 0 && th > 0.0 && (c as real) / (n as real) >= th
    ensures c > 0
  {
  }

  /** When a test `p` holds for some present cell, it holds for a cell of the column. */
  lemma PresentWitness(col: seq<Cell>, p: Cell -> bool, flags: seq<bool>)
    requires |flags| == |NonMissing(col)|
    requires forall i :: 0 <= i < |flags| ==> flags[i] == p(NonMissing(col)[i])
    ensures CountTrue(flags) > 0 ==> exists r :: 0 <= r < |col| && col[r] != NA && p(col[r])
  {
    CountTrueSplit(flags);
    if CountTrue(flags) > 0 {
      var x := NonMissing(col)[IndexOf(flags, true)];
      assert x in col && p(x);
    }
  }

  lemma VatWitness(df: Frame, ci: nat)
    requires df.Valid() && ci < |df.names|
    ensures CountTrue(AreValidVatNumbers(NonMissing(df.Column(ci)))) > 0 ==>
      exists r :: 0 <= r < |df.rows| && df.rows[r][ci] != NA && IsValidVat(df.rows[r][ci])
  {
    var col := df.Column(ci);
    PresentWitness(col, IsValidVat, AreValidVatNumbers(NonMissing(col)));
    assert forall r :: 0 <= r < |col| ==> col[r] == df.rows[r][ci];
  }

  /** With no missing cells, a column matches the listed names exactly when it has
      one of the given dtypes and some listed column already named determines it. */
  lemma MatchBetweenMeans(df: Frame, ci: nat, colnames: seq<string>, colsMatch: seq<string>, kinds: seq<DType>)
    requires df.Valid() && ci < |df.names| && |colnames| == |df.names|
    requires forall r, k :: 0 <= r < |df.rows| && 0 <= k < |df.names| ==> df.rows[r][k] != NA
    ensures MatchBetween(df, ci, colnames, colsMatch, kinds) <==>
      df.dtypes[ci] in kinds
      && exists c :: c in colsMatch && c in colnames
           && Determines(df.Column(ci), df.Column(IndexOf(colnames, c)))
  {
    forall c | c in colsMatch && c in colnames
      ensures PairsMatch(df, ci, IndexOf(colnames, c)) <==> Determines(df.Column(ci), df.Column(IndexOf(colnames, c)))
    {
      PairsMatchIffDetermines(df, ci, IndexOf(colnames, c));
    }
  }

  /** Is cell `v` among the cells of database column `j`? Text against text is
      compared lower-cased, everything else by value. */
  predicate InDbColumn(v: Cell, colIsObject: bool, db: Frame, j: nat)
    requires db.Valid() && j < |db.names|
  {
    var data := db.Column(j);
    if db.dtypes[j] == Object && colIsObject then
      exists r :: 0 <= r < |data| && Lower(StrForm(data[r])) == Lower(StrForm(v))
    else
      exists r :: 0 <= r < |data| && HashKey(data[r]) == HashKey(v)
  }

  /** Positions `j` whose label is (`same`) or is not (`!same`) `tag`. */
  function Positions(names: seq<string>, tag: string, same: bool, from: nat): (r: seq<nat>)
    requires from <= |names|
    ensures forall j :: j in r ==> from <= j < |names| && (names[j] == tag) == same
    ensures forall j :: from <= j < |names| && (names[j] == tag) == same ==> j in r
    decreases |names| - from
  {
    if from == |names| then []
    else (if (names[from] == tag) == same then [from] else []) + Positions(names, tag, same, from + 1)
  }

  /** The database columns searched: all but `code_num` for countries, otherwise
      the column(s) labelled `test`; a missing label raises `KeyError`. */
  function DbColumns(db: Frame, test: string): (r: Result<seq<nat>>)
    ensures r.Ok? ==> forall j :: j in r.value ==> j < |db.names|
    ensures r.Ok? <==> (if test == "country" then "code_num" in db.names else test in db.names)
    ensures r.Ok? ==> forall j :: 0 <= j < |db.names| ==>
      (j in r.value <==> if test == "country" then db.names[j] != "code_num" else db.names[j] == test)
  {
    if test == "country" then
      if "code_num" !in db.names then Err("KeyError: code_num")
      else Ok(Positions(db.names, "code_num", false, 0))
    else if test !in db.names then Err("KeyError: " + test)
    else Ok(Positions(db.names, test, true, 0))
  }

  /** Is `v` found in any of the database columns `cols`? */
  predicate InDb(v: Cell, colIsObject: bool, db: Frame, cols: seq<nat>)
    requires db.Valid() && forall j :: j in cols ==> j < |db.names|
  {
    exists j :: j in cols && InDbColumn(v, colIsObject, db, j)
  }

  function CountInDb(values: seq<Cell>, colIsObject: bool, db: Frame, cols: seq<nat>): (n: nat)
    requires db.Valid() && forall j :: j in cols ==> j < |db.names|
    ensures n <= |values|
  {
    if values == [] then 0
    else (if InDb(values[0], colIsObject, db, cols) then 1 else 0) + CountInDb(values[1..], colIsObject, db, cols)
  }

  /** The database part of `__test_if_in_db`: number tests need some all-digit
      value, other tests need none; then the share of present values found in the
      database must reach the threshold. No present value at all divides by zero. */
  function DbHit(df: Frame, ci: nat, test: string, db: Frame, th: real): Result<bool>
    requires df.Valid() && ci < |df.names| && db.Valid()
  {
    var values := NonMissing(df.Column(ci));
    var digits := exists v :: v in values && IsDigitString(StrForm(v));
    if (digits && test == "number") || (!digits && test != "number") then
      var cols :- DbColumns(db, test);
      if |values| == 0 then Err("ZeroDivisionError: division by zero")
      else Ok((CountInDb(values, df.dtypes[ci] == Object, db, cols) as real) / (|values| as real) >= th)
    else Ok(false)
  }

  /** `__test_if_in_db`: a column linked to `colsNotMatch` is refused; otherwise a
      database hit or a link to `colsToMatch` accepts it. */
  function TestIfInDb(df: Frame, ci: nat, colnames: seq<string>, test: string, db: Frame, th: real,
                      kinds: seq<DType>, colsNotMatch: Option<seq<string>>, colsToMatch: Option<seq<string>>): (r: Result<bool>)
    requires df.Valid() && ci < |df.names| && |colnames| == |df.names| && db.Valid()
    ensures r.Ok? && colsNotMatch.Some? && MatchBetween(df, ci, colnames, colsNotMatch.value, kinds) ==> !r.value
    ensures (r.Ok? && colsToMatch.Some? && MatchBetween(df, ci, colnames, colsToMatch.value, kinds)
      && !(colsNotMatch.Some? && MatchBetween(df, ci, colnames, colsNotMatch.value, kinds))) ==> r.value
    ensures r.Ok? && r.value ==>
      (DbHit(df, ci, test, db, th) == Ok(true)
       || (colsToMatch.Some? && MatchBetween(df, ci, colnames, colsToMatch.value, kinds)))
  {
    var res2 := colsNotMatch.Some? && MatchBetween(df, ci, colnames, colsNotMatch.value, kinds);
    var res3 := colsToMatch.Some? && MatchBetween(df, ci, colnames, colsToMatch.value, kinds);
    var res :- DbHit(df, ci, test, db, th);
    Ok(!res2 && (res || res3))
  }

  /** The test raises exactly when the database part raises; otherwise it accepts
      exactly when the column is not linked to an excluded column and either the
      database holds its values or it is linked to a column of the same entity. */
  lemma TestIfInDbIff(df: Frame, ci: nat, colnames: seq<string>, test: string, db: Frame, th: real,
                      kinds: seq<DType>, colsNotMatch: Option<seq<string>>, colsToMatch: Option<seq<string>>)
    requires df.Valid() && ci < |df.names| && |colnames| == |df.names| && db.Valid()
    ensures var r := TestIfInDb(df, ci, colnames, test, db, th, kinds, colsNotMatch, colsToMatch);
      (r.Err? <==> DbHit(df, ci, test, db, th).Err?)
      && (r.Ok? ==> (r.value <==>
            !(colsNotMatch.Some? && MatchBetween(df, ci, colnames, colsNotMatch.value, kinds))
            && (DbHit(df, ci, test, db, th) == Ok(true)
                || (colsToMatch.Some? && MatchBetween(df, ci, colnames, colsToMatch.value, kinds)))))
  {
  }

  /** Without exclusion and link lists (the service and account calls, whose
      `do_not_match` is swallowed by `**args`) the test does not look at the
      names found so far. */
  lemma InDbIgnoresColnames(df: Frame, ci: nat, c1: seq<string>, c2: seq<string>, test: string, db: Frame, th: real,
                            kinds: seq<DType>)
    requires df.Valid() && ci < |df.names| && |c1| == |df.names| && |c2| == |df.names| && db.Valid()
    ensures TestIfInDb(df, ci, c1, test, db, th, kinds, None, None)
         == TestIfInDb(df, ci, c2, test, db, th, kinds, None, None)
  {
  }

  // ---------------------------------------------------------------------------
  // Organisation or supplier Business ID
  // ---------------------------------------------------------------------------

  predicate AllDiffer(a: seq<Cell>, b: seq<Cell>)
    requires |a| == |b|
  {
    forall r :: 0 <= r < |a| ==> !CellEq(a[r], b[r])
  }

  predicate AllEqual(a: seq<Cell>, b: seq<Cell>)
    requires |a| == |b|
  {
    forall r :: 0 <= r < |a| ==> CellEq(a[r], b[r])
  }

  /** The four rules of `__org_or_suppl_BID` that name an organisation ID once the
      database test has failed. */
  predicate LinkedToOrg(df: Frame, ci: nat, colnames: seq<string>)
    requires df.Valid() && ci < |df.names| && |colnames| == |df.names|
  {
    exists c :: c in ["org_number", "org_name"] && c in colnames && PairsMatch(df, ci, IndexOf(colnames, c))
  }

  predicate NoIdColumns(colnames: seq<string>)
  {
    forall c :: c in ["org_number", "org_name", "org_id", "suppl_name", "suppl_id"] ==> c !in colnames
  }

  predicate DiffersFromSupplId(df: Frame, ci: nat, colnames: seq<string>)
    requires df.Valid() && ci < |df.names| && |colnames| == |df.names|
  {
    "suppl_id" in colnames && AllDiffer(df.Column(ci), df.Column(IndexOf(colnames, "suppl_id")))
  }

  predicate SameAsOrgId(df: Frame, ci: nat, colnames: seq<string>)
    requires df.Valid() && ci < |df.names| && |colnames| == |df.names|
  {
    "org_id" in colnames && AllEqual(df.Column(ci), df.Column(IndexOf(colnames, "org_id")))
  }

  predicate FewUnique(df: Frame, ci: nat)
    requires df.Valid() && ci < |df.names| && |df.rows| > 0
  {
    (NUnique(df.Column(ci)) as real) / (|df.rows| as real) < 0.5
  }

  /** `__org_or_suppl_BID`: "org_bid" when the IDs are in the municipality table;
      otherwise each later rule overrides the earlier ones, as the source assigns
      `res` again and again. */
  function OrgOrSupplBid(df: Frame, ci: nat, colnames: seq<string>, th: real, env: Env): (r: Result<string>)
    requires df.Valid() && ci < |df.names| && |colnames| == |df.names| && |df.rows| > 0 && EnvValid(env)
    ensures r.Ok? ==> r.value in {"org_bid", "org_id", "suppl_id", "bid"}
    ensures r.Ok? ==> r.value in CascadeNames
  {
    CascadeNamesHold();
    var inDb :- TestIfInDb(df, ci, colnames, "bid", env.municipalityCodes, th, [], None, None);
    if inDb then Ok("org_bid") else Ok(BidRules(df, ci, colnames))
  }

  /** The rules of `__org_or_suppl_BID` once the database test has failed, each
      assigning `res` again. */
  function BidRules(df: Frame, ci: nat, colnames: seq<string>): string
    requires df.Valid() && ci < |df.names| && |colnames| == |df.names| && |df.rows| > 0
  {
    var r1 := if LinkedToOrg(df, ci, colnames) then "org_id" else "suppl_id";
    var r2 := if NoIdColumns(colnames) then "bid" else r1;
    var r3 := if DiffersFromSupplId(df, ci, colnames) then "org_id" else r2;
    var r4 := if SameAsOrgId(df, ci, colnames) then "org_id" else r3;
    if FewUnique(df, ci) then "org_id" else r4
  }

  /** Read from the last rule back, the first rule that holds decides: the
      database hit, then the unique share, the `org_id` copy, the `suppl_id`
      difference, the absence of every ID column and the link to the
      organisation columns; "suppl_id" when none holds. */
  lemma OrgOrSupplBidPrecedence(df: Frame, ci: nat, colnames: seq<string>, th: real, env: Env)
    requires df.Valid() && ci < |df.names| && |colnames| == |df.names| && |df.rows| > 0 && EnvValid(env)
    ensures var inDb := TestIfInDb(df, ci, colnames, "bid", env.municipalityCodes, th, [], None, None);
      var r := OrgOrSupplBid(df, ci, colnames, th, env);
      (r.Err? <==> inDb.Err?)
      && (inDb == Ok(true) ==> r == Ok("org_bid"))
      && (inDb == Ok(false) ==> r == Ok(
            if FewUnique(df, ci) then "org_id"
            else if SameAsOrgId(df, ci, colnames) then "org_id"
            else if DiffersFromSupplId(df, ci, colnames) then "org_id"
            else if NoIdColumns(colnames) then "bid"
            else if LinkedToOrg(df, ci, colnames) then "org_id"
            else "suppl_id"))
  {
    var inDb := TestIfInDb(df, ci, colnames, "bid", env.municipalityCodes, th, [], None, None);
    assert OrgOrSupplBid(df, ci, colnames, th, env)
        == (if inDb.Err? then Err(inDb.msg) else if inDb.value then Ok("org_bid") else Ok(BidRules(df, ci, colnames)));
  }

  // ---------------------------------------------------------------------------
  // The guessing cascade (`__guess_name`)
  // ---------------------------------------------------------------------------

  function AsReal(v: PyValue): real
  {
    match v
    case PyInt(i) => i as real
    case PyFloat(x) => x
    case _ => 0.0
  }

  /** The names given by the tests after the strict match and the Business-ID
      test, in source order. */
  const FixedNames: seq<string> := [
    "date", "country", "vat_number", "org_name", "service_cat", "service_cat_name",
    "account_number", "account_name", "org_number", "suppl_name", "price_ex_vat",
    "total", "vat_amount", "voucher"]

  /** The names the cascade itself can give. */
  const CascadeNames: set<string> := {"org_bid", "org_id", "suppl_id", "bid"} + set x | x in FixedNames

  lemma CascadeNamesHold()
    ensures {"org_bid", "org_id", "suppl_id", "bid"} <= CascadeNames
  {
  }

  /** One test of the cascade and the name it gives when it holds. A test or a
      name that raises is an `Err`. */
  datatype Step = Step(test: Result<bool>, name: Result<string>)

  /** An `if`/`elif` chain: the first test that holds gives its name, a test that
      raises ends the chain, and `fallback` is the final `else`. */
  function FirstPassing(steps: seq<Step>, fallback: Result<string>): Result<string>
    decreases |steps|
  {
    if steps == [] then fallback
    else match steps[0].test
      case Err(e) => Err(e)
      case Ok(hit) => if hit then steps[0].name else FirstPassing(steps[1..], fallback)
  }

  /** The position of the first test that does not plainly fail. */
  function Decider(steps: seq<Step>): (d: nat)
    ensures d <= |steps|
    ensures forall j :: 0 <= j < d ==> steps[j].test == Ok(false)
    ensures d < |steps| ==> steps[d].test != Ok(false)
    decreases |steps|
  {
    if steps == [] || steps[0].test != Ok(false) then 0 else 1 + Decider(steps[1..])
  }

  /** The chain is decided by the first test that does not fail: its name when it
      holds, its error when it raises, the fallback when every test fails. */
  lemma {:induction false} FirstPassingDecides(steps: seq<Step>, fallback: Result<string>)
    ensures var d := Decider(steps);
      FirstPassing(steps, fallback)
      == if d == |steps| then fallback
         else if steps[d].test.Err? then Err(steps[d].test.msg)
         else steps[d].name
    decreases |steps|
  {
    if steps != [] && steps[0].test == Ok(false) {
      FirstPassingDecides(steps[1..], fallback);
    }
  }
  /** The first test that holds decides: every earlier test reports no match. */
  lemma FirstHitDecides(steps: seq<Step>, fallback: Result<string>, k: nat)
    requires k < |steps| && steps[k].test == Ok(true)
    requires forall j :: 0 <= j < k ==> steps[j].test == Ok(false)
    ensures FirstPassing(steps, fallback) == steps[k].name
  {
    FirstPassingDecides(steps, fallback);
  }


  /** Whether a loose match changed the name, raising as the match does. */
  function Changed(loose: Result<string>, col: string): (r: Result<bool>)
    ensures r.Err? <==> loose.Err?
    ensures r == Ok(true) <==> loose.Ok? && loose.value != col
  {
    match loose
    case Err(e) => Err(e)
    case Ok(v) => Ok(v != col)
  }

  /** The tests of `__guess_name` after the strict loose name match, in source
      order: the Business ID, the date, the country code, the VAT number, the five
      look-ups in the municipality, service and account tables, the two links to
      names already found, the three sums and the voucher. */
  function LaterTests(df: Frame, ci: nat, colnames: seq<string>, mt: real, env: Env): (r: seq<Result<bool>>)
    requires df.Valid() && ci < |df.names| && |colnames| == |df.names| && |df.rows| > 0 && EnvValid(env)
    ensures |r| == |FixedNames| + 1
    ensures r[0] == Ok(TestIfBid(df.Column(ci), mt))
  {
    [ Ok(TestIfBid(df.Column(ci), mt)),
      Ok(env.testIfDate(df.Column(ci))),
      TestIfInDb(df, ci, colnames, "country", env.landCodes, mt, [], None, None),
      Ok(TestIfVatNumber(df, ci, mt)),
      TestIfInDb(df, ci, colnames, "name", env.municipalityCodes, mt, [Object],
                 Some(["suppl_name", "suppl_number"]), Some(["org_number", "org_id"])),
      TestIfInDb(df, ci, colnames, "number", env.serviceCodes, mt, [Int64], None, None),
      TestIfInDb(df, ci, colnames, "name", env.serviceCodes, mt, [Object], None, None),
      TestIfInDb(df, ci, colnames, "number", env.accountInfo, mt, [Int64], None, None),
      TestIfInDb(df, ci, colnames, "name", env.accountInfo, mt, [Object], None, None),
      Ok(MatchBetween(df, ci, colnames, ["org_name", "org_id"], [Int64])),
      Ok(MatchBetween(df, ci, colnames, ["suppl_id"], [Object])),
      Ok(env.testIfSums(df, ci, colnames, "price_ex_vat")),
      Ok(env.testIfSums(df, ci, colnames, "total")),
      Ok(env.testIfSums(df, ci, colnames, "vat_amount")),
      Ok(env.testIfVoucher(df, ci, colnames)) ]
  }

  /** The names the later tests give: `bid` for the Business-ID test, then the
      fixed names. */
  function LaterNames(bid: Result<string>): (r: seq<Result<string>>)
    ensures |r| == |FixedNames| + 1 && r[0] == bid
    ensures forall k :: 1 <= k < |r| ==> r[k] == Ok(FixedNames[k - 1])
  {
    [bid] + seq(|FixedNames|, k requires 0 <= k < |FixedNames| => Ok(FixedNames[k]))
  }

  /** Each test paired with its name. */
  function Zip(tests: seq<Result<bool>>, names: seq<Result<string>>): (r: seq<Step>)
    requires |tests| == |names|
    ensures |r| == |tests|
    ensures forall k :: 0 <= k < |r| ==> r[k] == Step(tests[k], names[k])
  {
    seq(|tests|, k requires 0 <= k < |tests| => Step(tests[k], names[k]))
  }

  /** The steps of `__guess_name`, in source order: the strict match `strict` of
      the name `col`, which holds when it changes the name and then gives its own
      result, followed by the later tests with the Business-ID name `bid` and the
      fixed names. */
  function CascadeSteps(col: string, strict: Result<string>, later: seq<Result<bool>>, bid: Result<string>)
    : (r: seq<Step>)
    requires |later| == |FixedNames| + 1
    ensures |r| == |FixedNames| + 2
    ensures r[0] == Step(Changed(strict, col), strict) && r[1] == Step(later[0], bid)
    ensures forall k :: 1 <= k < |r| ==> r[k].test == later[k - 1]
    ensures forall k :: 2 <= k < |r| ==> r[k].name == Ok(FixedNames[k - 2])
  {
    [Step(Changed(strict, col), strict)] + Zip(later, LaterNames(bid))
  }

  /** Past the strict match, every name a step gives is one the cascade can give. */
  lemma CascadeStepNames(col: string, strict: Result<string>, later: seq<Result<bool>>, bid: Result<string>)
    requires |later| == |FixedNames| + 1
    requires bid.Ok? ==> bid.value in CascadeNames
    ensures var steps := CascadeSteps(col, strict, later, bid);
      forall k :: 1 <= k < |steps| && steps[k].name.Ok? ==> steps[k].name.value in CascadeNames
  {
    var steps := CascadeSteps(col, strict, later, bid);
    forall k | 2 <= k < |steps|
      ensures steps[k].name.value in CascadeNames
    {
      assert FixedNames[k - 2] in FixedNames;
    }
  }

  /** The steps of `__guess_name` for column `ci`, with the strict threshold
      raised to 0.95. */
  function GuessSteps(df: Frame, ci: nat, colnames: seq<string>, fields: Dict, pt: real, mt: real, env: Env)
    : (r: seq<Step>)
    requires df.Valid() && ci < |df.names| && |colnames| == |df.names| && |df.rows| > 0 && EnvValid(env)
  {
    CascadeSteps(df.names[ci], LooseMatch(df.names[ci], fields, if pt <= 0.95 then 0.95 else pt, env.scorer),
                 LaterTests(df, ci, colnames, mt, env), OrgOrSupplBid(df, ci, colnames, mt, env))
  }

  /** `__guess_name`: the thresholds must be percentages; then the cascade, whose
      final `else` is a loose name match with the given threshold. */
  function GuessName(df: Frame, ci: nat, colnames: seq<string>, fields: Dict,
                     patternTh: PyValue, matchTh: PyValue, env: Env): (r: Result<string>)
    requires df.Valid() && ci < |df.names| && |colnames| == |df.names| && |df.rows| > 0 && EnvValid(env)
    ensures r.Ok? ==> r.value == df.names[ci] || r.value in CascadeNames || r.value in Values(fields)
    ensures (!IsPercentage(patternTh) || !IsPercentage(matchTh)) ==> r.Err?
  {
    if !IsPercentage(patternTh) then Err("'pattern_th' must be a number between 0-1.")
    else if !IsPercentage(matchTh) then Err("'match_th' must be a number between 0-1.")
    else
      var pt := AsReal(patternTh);
      var col := df.names[ci];
      var strict := LooseMatch(col, fields, if pt <= 0.95 then 0.95 else pt, env.scorer);
      var steps := CascadeSteps(col, strict, LaterTests(df, ci, colnames, AsReal(matchTh), env),
                                OrgOrSupplBid(df, ci, colnames, AsReal(matchTh), env));
      var last := LooseMatch(col, fields, pt, env.scorer);
      FirstPassingDecides(steps, last);
      LooseMatchValue(col, fields, if pt <= 0.95 then 0.95 else pt, env.scorer);
      LooseMatchValue(col, fields, pt, env.scorer);
      CascadeStepNames(col, strict, LaterTests(df, ci, colnames, AsReal(matchTh), env),
                       OrgOrSupplBid(df, ci, colnames, AsReal(matchTh), env));
      FirstPassing(steps, last)
  }

  /** A loose-match result other than the name is a value of the dictionary. */
  lemma LooseMatchValue(col: string, fields: Dict, th: real, scorer: (string, string) -> int)
    ensures var r := LooseMatch(col, fields, th, scorer);
      r.Ok? && r.value != col ==> r.value in Values(fields)
  {
    var r := LooseMatch(col, fields, th, scorer);
    if r.Ok? && r.value != col {
      var k :| k in Keys(fields) && Get(fields, k) == Some(r.value)
        && (scorer(col, k) as real) >= th * 100.0
        && forall k' :: k' in Keys(fields) ==> scorer(col, k') <= scorer(col, k);
      GetValue(fields, k);
    }
  }

  lemma {:induction false} GetValue(d: Dict, k: string)
    requires Get(d, k).Some?
    ensures Get(d, k).value in Values(d)
  {
    if d[0].0 != k {
      GetValue(d[1..], k);
      assert Values(d) == [d[0].1] + Values(d[1..]);
    }
  }

  /** The guess is decided by the first test of the cascade, in source order, that
      does not fail: the name it gives when it holds, its error when it raises,
      and the loose match with the given threshold when every test fails. */
  lemma GuessNameOrder(df: Frame, ci: nat, colnames: seq<string>, fields: Dict,
                       patternTh: PyValue, matchTh: PyValue, env: Env)
    requires df.Valid() && ci < |df.names| && |colnames| == |df.names| && |df.rows| > 0 && EnvValid(env)
    requires IsPercentage(patternTh) && IsPercentage(matchTh)
    ensures var pt := AsReal(patternTh);
      var steps := GuessSteps(df, ci, colnames, fields, pt, AsReal(matchTh), env);
      var d := Decider(steps);
      GuessName(df, ci, colnames, fields, patternTh, matchTh, env)
      == if d == |steps| then LooseMatch(df.names[ci], fields, pt, env.scorer)
         else if steps[d].test.Err? then Err(steps[d].test.msg)
         else steps[d].name
  {
    var pt := AsReal(patternTh);
    var steps := GuessSteps(df, ci, colnames, fields, pt, AsReal(matchTh), env);
    var last := LooseMatch(df.names[ci], fields, pt, env.scorer);
    assert GuessName(df, ci, colnames, fields, patternTh, matchTh, env) == FirstPassing(steps, last);
    FirstPassingDecides(steps, last);
  }

  /** A strict loose match that changes the name wins over every pattern test. */
  lemma StrictNameMatchFirst(df: Frame, ci: nat, colnames: seq<string>, fields: Dict,
                             patternTh: PyValue, matchTh: PyValue, env: Env)
    requires df.Valid() && ci < |df.names| && |colnames| == |df.names| && |df.rows| > 0 && EnvValid(env)
    requires IsPercentage(patternTh) && IsPercentage(matchTh)
    requires var pt := AsReal(patternTh);
      var r := LooseMatch(df.names[ci], fields, if pt <= 0.95 then 0.95 else pt, env.scorer);
      r.Ok? && r.value != df.names[ci]
    ensures var pt := AsReal(patternTh);
      GuessName(df, ci, colnames, fields, patternTh, matchTh, env)
      == LooseMatch(df.names[ci], fields, if pt <= 0.95 then 0.95 else pt, env.scorer)
  {
    GuessNameOrder(df, ci, colnames, fields, patternTh, matchTh, env);
  }

  /** Once the strict match keeps the name, a column that passes the Business-ID
      test is named by `__org_or_suppl_BID`, whatever the later tests say. */
  lemma BidTestSecond(df: Frame, ci: nat, colnames: seq<string>, fields: Dict,
                      patternTh: PyValue, matchTh: PyValue, env: Env)
    requires df.Valid() && ci < |df.names| && |colnames| == |df.names| && |df.rows| > 0 && EnvValid(env)
    requires IsPercentage(patternTh) && IsPercentage(matchTh)
    requires var pt := AsReal(patternTh);
      LooseMatch(df.names[ci], fields, if pt <= 0.95 then 0.95 else pt, env.scorer) == Ok(df.names[ci])
    requires TestIfBid(df.Column(ci), AsReal(matchTh))
    ensures GuessName(df, ci, colnames, fields, patternTh, matchTh, env)
         == OrgOrSupplBid(df, ci, colnames, AsReal(matchTh), env)
  {
    GuessNameOrder(df, ci, colnames, fields, patternTh, matchTh, env);
  }

  /** The first test of the cascade, in source order, that holds decides the name:
      the strict match's own result, the Business-ID name, or the test's fixed name. */
  lemma GuessNameFirstHit(df: Frame, ci: nat, colnames: seq<string>, fields: Dict,
                          patternTh: PyValue, matchTh: PyValue, env: Env, k: nat)
    requires df.Valid() && ci < |df.names| && |colnames| == |df.names| && |df.rows| > 0 && EnvValid(env)
    requires IsPercentage(patternTh) && IsPercentage(matchTh)
    requires var steps := GuessSteps(df, ci, colnames, fields, AsReal(patternTh), AsReal(matchTh), env);
      k < |steps| && steps[k].test == Ok(true) && forall j :: 0 <= j < k ==> steps[j].test == Ok(false)
    ensures var steps := GuessSteps(df, ci, colnames, fields, AsReal(patternTh), AsReal(matchTh), env);
      GuessName(df, ci, colnames, fields, patternTh, matchTh, env) == steps[k].name
      && (k >= 2 ==> steps[k].name == Ok(FixedNames[k - 2]))
  {
    var pt := AsReal(patternTh);
    var steps := GuessSteps(df, ci, colnames, fields, pt, AsReal(matchTh), env);
    GuessNameOrder(df, ci, colnames, fields, patternTh, matchTh, env);
    FirstHitDecides(steps, LooseMatch(df.names[ci], fields, pt, env.scorer), k);
  }

  /** When no test of the cascade holds or raises, the loose match with the given
      threshold decides. */
  lemma NoTestFallsBack(df: Frame, ci: nat, colnames: seq<string>, fields: Dict,
                        patternTh: PyValue, matchTh: PyValue, env: Env)
    requires df.Valid() && ci < |df.names| && |colnames| == |df.names| && |df.rows| > 0 && EnvValid(env)
    requires IsPercentage(patternTh) && IsPercentage(matchTh)
    requires var steps := GuessSteps(df, ci, colnames, fields, AsReal(patternTh), AsReal(matchTh), env);
      forall k :: 0 <= k < |steps| ==> steps[k].test == Ok(false)
    ensures GuessName(df, ci, colnames, fields, patternTh, matchTh, env)
         == LooseMatch(df.names[ci], fields, AsReal(patternTh), env.scorer)
  {
    GuessNameOrder(df, ci, colnames, fields, patternTh, matchTh, env);
  }

  // ---------------------------------------------------------------------------
  // change_names
  // ---------------------------------------------------------------------------

  /** A name after the exact look-up: the matched standard name, or itself. */
  function ExactOrSame(col: string, fields: Dict): string
  {
    match ExactName(col, fields)
    case Some(v) => v
    case None => col
  }

  /** The first `n` names after the exact look-up. */
  function ExactNames(names: seq<string>, fields: Dict, n: nat): (r: seq<string>)
    requires n <= |names|
    ensures |r| == n
  {
    if n == 0 then [] else ExactNames(names, fields, n - 1) + [ExactOrSame(names[n - 1], fields)]
  }

  /** Each name is replaced by its exact match, if it has one. */
  lemma {:induction false} ExactNamesAt(names: seq<string>, fields: Dict, n: nat, i: nat)
    requires i < n <= |names|
    ensures ExactNames(names, fields, n)[i] == ExactOrSame(names[i], fields)
  {
    if i < n - 1 {
      ExactNamesAt(names, fields, n - 1, i);
    }
  }

  /** Positions below `n` with no exact match, in order. */
  function NotFound(names: seq<string>, fields: Dict, n: nat): (r: seq<nat>)
    requires n <= |names|
    ensures forall k :: 0 <= k < |r| ==> r[k] < n
  {
    if n == 0 then []
    else NotFound(names, fields, n - 1) + (if ExactName(names[n - 1], fields).None? then [n - 1] else [])
  }

  /** Only positions without an exact match are listed. */
  lemma {:induction false} NotFoundSound(names: seq<string>, fields: Dict, n: nat, k: nat)
    requires n <= |names| && k < |NotFound(names, fields, n)|
    ensures ExactName(names[NotFound(names, fields, n)[k]], fields).None?
  {
    if k < |NotFound(names, fields, n - 1)| {
      NotFoundSound(names, fields, n - 1, k);
    }
  }

  /** Every position without an exact match is listed. */
  lemma {:induction false} NotFoundComplete(names: seq<string>, fields: Dict, n: nat, i: nat)
    requires i < n <= |names| && ExactName(names[i], fields).None?
    ensures i in NotFound(names, fields, n)
  {
    var last := if ExactName(names[n - 1], fields).None? then [n - 1] else [];
    assert NotFound(names, fields, n) == NotFound(names, fields, n - 1) + last;
    if i < n - 1 {
      NotFoundComplete(names, fields, n - 1, i);
    } else {
      assert last == [i];
    }
  }

  /** `__guess_name` with the table, dictionary, thresholds and reference tables
      bound: a guess for column `i` given the names chosen so far. */
  type Guesser = (nat, seq<string>) -> Result<string>

  function GuessWith(df: Frame, fields: Dict, patternTh: PyValue, matchTh: PyValue, env: Env): Guesser
  {
    (i: nat, colnames: seq<string>) =>
      if df.Valid() && i < |df.names| && |colnames| == |df.names| && |df.rows| > 0 && EnvValid(env)
      then GuessName(df, i, colnames, fields, patternTh, matchTh, env)
      else Err("IndexError: column index out of range")
  }

  /** The guessing loop: each not-found position in turn, each guess seeing the
      names chosen so far; a guess different from the original name replaces it. */
  function GuessLoop(guess: Guesser, original: seq<string>, idxs: seq<nat>, names: seq<string>): (r: Result<seq<string>>)
    requires forall k :: 0 <= k < |idxs| ==> idxs[k] < |original|
    requires |names| == |original|
    ensures r.Ok? ==> |r.value| == |names|
    decreases |idxs|
  {
    if idxs == [] then Ok(names)
    else
      var i := idxs[0];
      var name :- guess(i, names);
      GuessLoop(guess, original, idxs[1..], if original[i] != name then names[i := name] else names)
  }

  /** Only the positions the loop visits can change. */
  lemma {:induction false} GuessLoopKeepsOthers(guess: Guesser, original: seq<string>, idxs: seq<nat>,
                                                names: seq<string>, i: nat)
    requires forall k :: 0 <= k < |idxs| ==> idxs[k] < |original|
    requires |names| == |original| && i < |names| && i !in idxs
    requires GuessLoop(guess, original, idxs, names).Ok?
    ensures GuessLoop(guess, original, idxs, names).value[i] == names[i]
    decreases |idxs|
  {
    if idxs != [] {
      var j := idxs[0];
      var name := guess(j, names).value;
      assert i !in idxs[1..];
      GuessLoopKeepsOthers(guess, original, idxs[1..], if original[j] != name then names[j := name] else names, i);
    }
  }

  /** Repeated names get `_<n>`, where n is one more than the copies already
      emitted (suffixed names included in what is emitted). */
  function SuffixFrom(emitted: seq<string>, rest: seq<string>): (r: seq<string>)
    ensures |r| == |rest|
    decreases |rest|
  {
    if rest == [] then []
    else
      var col := if rest[0] in emitted then rest[0] + "_" + NatToString(Count(emitted, rest[0]) + 1) else rest[0];
      [col] + SuffixFrom(emitted + [col], rest[1..])
  }

  predicate HasRepeats(names: seq<string>)
  {
    |set c | c in names| != |names|
  }

  /** Names that are all different pass through the suffix step unchanged. */
  lemma {:induction false} SuffixKeepsDistinct(emitted: seq<string>, rest: seq<string>)
    requires forall i, j :: 0 <= i < j < |emitted + rest| ==> (emitted + rest)[i] != (emitted + rest)[j]
    ensures SuffixFrom(emitted, rest) == rest
    decreases |rest|
  {
    if rest != [] {
      var all := emitted + rest;
      forall i | 0 <= i < |emitted|
        ensures emitted[i] != rest[0]
      {
        assert all[i] == emitted[i] && all[|emitted|] == rest[0];
      }
      assert emitted + [rest[0]] + rest[1..] == all;
      SuffixKeepsDistinct(emitted + [rest[0]], rest[1..]);
      assert rest == [rest[0]] + rest[1..];
    }
  }

  /** Each name is kept when it was not emitted before (as given or as produced by
      an earlier suffix), and otherwise gets `_<n>`, n being one more than its
      copies emitted so far. */
  lemma {:induction false} SuffixShape(emitted: seq<string>, rest: seq<string>, i: nat)
    requires i < |rest|
    ensures var r := SuffixFrom(emitted, rest);
      var seen := emitted + r[..i];
      r[i] == (if rest[i] in seen then rest[i] + "_" + NatToString(Count(seen, rest[i]) + 1) else rest[i])
    ensures var r := SuffixFrom(emitted, rest);
      r[i] == rest[i] <==> rest[i] !in emitted + r[..i]
    decreases |rest|
  {
    var col := if rest[0] in emitted then rest[0] + "_" + NatToString(Count(emitted, rest[0]) + 1) else rest[0];
    var r := SuffixFrom(emitted, rest);
    var r' := SuffixFrom(emitted + [col], rest[1..]);
    assert r == [col] + r';
    if i > 0 {
      SuffixShape(emitted + [col], rest[1..], i - 1);
      assert r[..i] == [col] + r'[..i - 1];
      assert emitted + r[..i] == emitted + [col] + r'[..i - 1];
      assert r[i] == r'[i - 1] && rest[i] == rest[1..][i - 1];
    } else {
      assert r[..i] == [];
      assert emitted + r[..i] == emitted;
    }
    var seen := emitted + r[..i];
    if rest[i] in seen {
      var suffixed := rest[i] + "_" + NatToString(Count(seen, rest[i]) + 1);
      assert |suffixed| > |rest[i]|;
    }
  }

  /** The first copy of a name is kept; suffixed names are not counted as copies
      of the name, so a third copy gets the same suffix as the second. */
  lemma SuffixTriple()
    ensures SuffixFrom([], ["a", "a", "a"]) == ["a", "a_2", "a_2"]
  {
    assert NatToString(2) == "2";
    assert Count(["a", "a_2"], "a") == 1 by {
      assert ["a", "a_2"][1..] == ["a_2"];
    }
    assert "a" + "_" + NatToString(2) == "a_2";
    assert SuffixFrom(["a", "a_2"], ["a"]) == ["a_2"] by {
      assert ["a"][1..] == [];
      assert "a" in ["a", "a_2"];
      assert SuffixFrom(["a", "a_2", "a_2"], []) == [];
    }
    assert SuffixFrom(["a"], ["a", "a"]) == ["a_2", "a_2"] by {
      assert ["a", "a"][1..] == ["a"];
      assert ["a"] + ["a_2"] == ["a", "a_2"];
      assert Count(["a"], "a") == 1;
      assert SuffixFrom(["a"], ["a", "a"]) == ["a_2"] + SuffixFrom(["a", "a_2"], ["a"]);
    }
    assert ["a", "a", "a"][1..] == ["a", "a"];
    assert [] + ["a"] == ["a"];
    assert SuffixFrom([], ["a", "a", "a"]) == ["a"] + SuffixFrom(["a"], ["a", "a"]);
  }

  /** The argument checks of `change_names`, in source order: the message of the
      first one that fails. */
  function ArgError(df: PyValue, guessNames: PyValue, makeUnique: PyValue, fields: PyValue): (e: Option<string>)
    ensures e.None? <==> (IsNonEmptyDf(df) && guessNames.PyBool? && makeUnique.PyBool?
      && (IsNonEmptyDf(fields) || fields.PyDict? || fields.PyStr? || fields.PyNone?))
  {
    if !IsNonEmptyDf(df) then Some("'df' must be non-empty pandas.DataFrame.")
    else if !guessNames.PyBool? then Some("'guess_names' must be bool.")
    else if !makeUnique.PyBool? then Some("'make_unique' must be bool.")
    else if !(IsNonEmptyDf(fields) || fields.PyDict? || fields.PyStr? || fields.PyNone?) then
      Some("'fields' must be pd.DataFrame, dict, string or None.")
    else None
  }

  /** `change_names` as a function of its arguments: the new column names. */
  function ChangeNamesSpec(df: PyValue, guessNames: PyValue, makeUnique: PyValue, fields: PyValue,
                           patternTh: PyValue, matchTh: PyValue, env: Env): (r: Result<seq<string>>)
    requires df.PyFrame? ==> df.frame.Valid()
    requires fields.PyFrame? ==> fields.frame.Valid()
    requires EnvValid(env)
    ensures r.Ok? ==> IsNonEmptyDf(df) && |r.value| == |df.frame.names|
    ensures !guessNames.PyBool? || !makeUnique.PyBool? ==> r.Err?
    ensures !(IsNonEmptyDf(fields) || fields.PyDict? || fields.PyStr? || fields.PyNone?) ==> r.Err?
  {
    var e := ArgError(df, guessNames, makeUnique, fields);
    if e.Some? then Err(e.value)
    else NamesWithFields(df.frame, guessNames.b, makeUnique.b, GetFields(fields, env), patternTh, matchTh, env)
  }

  /** The new names once the dictionary has been read (or failed to be). */
  function NamesWithFields(frame: Frame, guessNames: bool, makeUnique: bool, got: Result<Dict>,
                           patternTh: PyValue, matchTh: PyValue, env: Env): (r: Result<seq<string>>)
    ensures got.Err? ==> r == Err(got.msg)
    ensures r.Ok? ==> |r.value| == |frame.names|
  {
    var f :- got;
    NewNames(frame, guessNames, makeUnique, f, patternTh, matchTh, env)
  }

  /** The names `change_names` gives once the dictionary is known: exact
      look-up, then guesses (if asked for and needed), then suffixes (if asked
      for and needed). */
  function NewNames(frame: Frame, guessNames: bool, makeUnique: bool, f: Dict,
                    patternTh: PyValue, matchTh: PyValue, env: Env): (r: Result<seq<string>>)
    ensures r.Ok? ==> |r.value| == |frame.names|
  {
    var guessed :- Guessed(frame, guessNames, f, patternTh, matchTh, env);
    Ok(Uniqued(guessed, makeUnique))
  }

  /** The exact look-up, then the guesses when asked for and needed. */
  function Guessed(frame: Frame, guessNames: bool, f: Dict, patternTh: PyValue, matchTh: PyValue, env: Env)
    : (r: Result<seq<string>>)
    ensures r.Ok? ==> |r.value| == |frame.names|
  {
    var exact := ExactNames(frame.names, f, |frame.names|);
    var notFound := NotFound(frame.names, f, |frame.names|);
    if |notFound| > 0 && guessNames
    then GuessLoop(GuessWith(frame, f, patternTh, matchTh, env), frame.names, notFound, exact)
    else Ok(exact)
  }

  /** The suffixes, when asked for and needed. */
  function Uniqued(names: seq<string>, makeUnique: bool): (r: seq<string>)
    ensures |r| == |names|
  {
    if HasRepeats(names) && makeUnique then SuffixFrom([], names) else names
  }

  /** A name with an exact match gets it (the suffix step aside): guesses are
      made only for the names without one. */
  lemma ExactMatchesKept(frame: Frame, guessNames: bool, f: Dict, patternTh: PyValue, matchTh: PyValue,
                         env: Env, i: nat)
    requires i < |frame.names| && ExactName(frame.names[i], f).Some?
    requires NewNames(frame, guessNames, false, f, patternTh, matchTh, env).Ok?
    ensures NewNames(frame, guessNames, false, f, patternTh, matchTh, env).value[i]
         == ExactName(frame.names[i], f).value
  {
    var exact := ExactNames(frame.names, f, |frame.names|);
    var notFound := NotFound(frame.names, f, |frame.names|);
    ExactNamesAt(frame.names, f, |frame.names|, i);
    if i in notFound {
      var k :| 0 <= k < |notFound| && notFound[k] == i;
      NotFoundSound(frame.names, f, |frame.names|, k);
    }
    if |notFound| > 0 && guessNames {
      GuessLoopKeepsOthers(GuessWith(frame, f, patternTh, matchTh, env), frame.names, notFound, exact, i);
    }
  }

  /** Without guessing (and without suffixes) an unmatched name is left exactly
      as it was. */
  lemma NoGuessKeepsUnmatched(frame: Frame, f: Dict, patternTh: PyValue, matchTh: PyValue, env: Env, i: nat)
    requires i < |frame.names| && ExactName(frame.names[i], f).None?
    ensures NewNames(frame, false, false, f, patternTh, matchTh, env) == Ok(ExactNames(frame.names, f, |frame.names|))
    ensures NewNames(frame, false, false, f, patternTh, matchTh, env).value[i] == frame.names[i]
  {
    ExactNamesAt(frame.names, f, |frame.names|, i);
  }

  /** With suffixes asked for, names already all different are kept as they are. */
  lemma DistinctNamesNotSuffixed(frame: Frame, guessNames: bool, f: Dict, patternTh: PyValue, matchTh: PyValue,
                                 env: Env)
    requires NewNames(frame, guessNames, false, f, patternTh, matchTh, env).Ok?
    requires var names := NewNames(frame, guessNames, false, f, patternTh, matchTh, env).value;
      forall i, j :: 0 <= i < j < |names| ==> names[i] != names[j]
    ensures NewNames(frame, guessNames, true, f, patternTh, matchTh, env)
         == NewNames(frame, guessNames, false, f, patternTh, matchTh, env)
  {
    var names := NewNames(frame, guessNames, false, f, patternTh, matchTh, env).value;
    assert [] + names == names;
    SuffixKeepsDistinct([], names);
  }

  /** The first loop of `change_names`: the exact look-up of every name. */
  method LookUpNames(names: seq<string>, f: Dict) returns (colnames: seq<string>, notFound: seq<nat>)
    ensures colnames == ExactNames(names, f, |names|)
    ensures notFound == NotFound(names, f, |names|)
  {
    colnames := [];
    notFound := [];
    for i := 0 to |names|
      invariant colnames == ExactNames(names, f, i)
      invariant notFound == NotFound(names, f, i)
    {
      var colName := ExactName(names[i], f);
      if colName.None? {
        colnames := colnames + [names[i]];
        notFound := notFound + [i];
      } else {
        colnames := colnames + [colName.value];
      }
    }
  }

  /** The second loop: a guess for each name not found. */
  method GuessNames(guess: Guesser, original: seq<string>, idxs: seq<nat>, names: seq<string>)
    returns (r: Result<seq<string>>)
    requires forall k :: 0 <= k < |idxs| ==> idxs[k] < |original|
    requires |names| == |original|
    ensures r == GuessLoop(guess, original, idxs, names)
  {
    var colnames := names;
    for k := 0 to |idxs|
      invariant |colnames| == |original|
      invariant GuessLoop(guess, original, idxs, names) == GuessLoop(guess, original, idxs[k..], colnames)
    {
      var i := idxs[k];
      var name := guess(i, colnames);
      if name.Err? {
        return Err(name.msg);
      }
      if original[i] != name.value {
        colnames := colnames[i := name.value];
      }
    }
    return Ok(colnames);
  }

  /** The third loop: numbered suffixes for repeated names. */
  method MakeUnique(names: seq<string>) returns (unique: seq<string>)
    ensures unique == SuffixFrom([], names)
  {
    unique := [];
    for k := 0 to |names|
      invariant SuffixFrom([], names) == unique + SuffixFrom(unique, names[k..])
    {
      var col := names[k];
      if col in unique {
        col := col + "_" + NatToString(Count(unique, col) + 1);
      }
      unique := unique + [col];
    }
  }

  /** `change_names` on a table: the column labels are replaced in place by the
      names `ChangeNamesSpec` gives; on an error the table is left as it was. */
  method ChangeColumnNames(df: Table, guessNames: PyValue, makeUnique: PyValue, fields: PyValue,
                           patternTh: PyValue, matchTh: PyValue, env: Env) returns (r: Result<seq<string>>)
    requires df.Snapshot().Valid()
    requires fields.PyFrame? ==> fields.frame.Valid()
    requires EnvValid(env)
    modifies df
    ensures r == ChangeNamesSpec(PyFrame(old(df.Snapshot())), guessNames, makeUnique, fields, patternTh, matchTh, env)
    ensures r.Ok? ==> df.Snapshot() == old(df.Snapshot()).(names := r.value)
    ensures r.Err? ==> df.Snapshot() == old(df.Snapshot())
  {
    r := ColumnNamesFor(df.Snapshot(), guessNames, makeUnique, fields, patternTh, matchTh, env);
    if r.Ok? {
      SetNames(df, r.value);
    }
  }

  /** `df.columns = colnames`. */
  method SetNames(df: Table, names: seq<string>)
    modifies df
    ensures df.Snapshot() == old(df.Snapshot()).(names := names)
  {
    df.names := names;
  }

  /** The argument checks of `change_names`, then the three loops. */
  method ColumnNamesFor(frame: Frame, guessNames: PyValue, makeUnique: PyValue, fields: PyValue,
                        patternTh: PyValue, matchTh: PyValue, env: Env) returns (r: Result<seq<string>>)
    requires frame.Valid()
    requires fields.PyFrame? ==> fields.frame.Valid()
    requires EnvValid(env)
    ensures r == ChangeNamesSpec(PyFrame(frame), guessNames, makeUnique, fields, patternTh, matchTh, env)
  {
    var e := ArgError(PyFrame(frame), guessNames, makeUnique, fields);
    if e.Some? {
      return Err(e.value);
    }
    var got := GetFields(fields, env);
    r := RenameWithFields(frame, guessNames.b, makeUnique.b, got, patternTh, matchTh, env);
  }

  /** A failed dictionary, or the three loops. */
  method RenameWithFields(frame: Frame, guessNames: bool, makeUnique: bool, got: Result<Dict>,
                          patternTh: PyValue, matchTh: PyValue, env: Env) returns (r: Result<seq<string>>)
    ensures r == NamesWithFields(frame, guessNames, makeUnique, got, patternTh, matchTh, env)
  {
    if got.Err? {
      return Err(got.msg);
    }
    r := RenameColumns(frame, guessNames, makeUnique, got.value, patternTh, matchTh, env);
  }

  /** The three loops of `change_names` on the labels of `frame`. */
  method RenameColumns(frame: Frame, guessNames: bool, makeUnique: bool, f: Dict,
                       patternTh: PyValue, matchTh: PyValue, env: Env) returns (r: Result<seq<string>>)
    ensures r == NewNames(frame, guessNames, makeUnique, f, patternTh, matchTh, env)
  {
    var guessed := GuessStep(frame, guessNames, f, patternTh, matchTh, env);
    if guessed.Err? {
      return Err(guessed.msg);
    }
    var colnames := guessed.value;
    if HasRepeats(colnames) && makeUnique {
      colnames := MakeUnique(colnames);
    }
    r := Ok(colnames);
  }

  /** The first two loops: exact look-up, then guesses for the names not found. */
  method GuessStep(frame: Frame, guessNames: bool, f: Dict, patternTh: PyValue, matchTh: PyValue, env: Env)
    returns (r: Result<seq<string>>)
    ensures r == Guessed(frame, guessNames, f, patternTh, matchTh, env)
  {
    var colnames, notFound := LookUpNames(frame.names, f);
    if |notFound| > 0 && guessNames {
      r := GuessNames(GuessWith(frame, f, patternTh, matchTh, env), frame.names, notFound, colnames);
    } else {
      r := Ok(colnames);
    }
  }
}
