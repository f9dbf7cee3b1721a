/** Shared vocabulary of the model: Python-like text operations, table cells,
    data frames and the dynamically typed arguments the toolkit checks. */
module Common {

  datatype Option<T> = None | Some(value: T)

  /** An operation that either yields a value or raises (the message names the check). */
  datatype Result<T> = Ok(value: T) | Err(msg: string)
  {
    predicate IsFailure() { Err? }

    function PropagateFailure<U>(): Result<U>
      requires Err?
    {
      Err(msg)
    }

    function Extract(): T
      requires Ok?
    {
      value
    }
  }

  // ---------------------------------------------------------------------------
  // Characters and strings (Python `str` semantics restricted to Latin-1 case mapping)
  // ---------------------------------------------------------------------------

  predicate IsDigit(c: char) { '0' <= c <= '9' }

  predicate AllDigits(s: string) { forall i :: 0 <= i < |s| ==> IsDigit(s[i]) }

  /** Python `str.isdigit()`/`str.isnumeric()` for ASCII text: non-empty and all digits. */
  predicate IsDigitString(s: string) { |s| > 0 && AllDigits(s) }

  /** The characters for which Python's `str.isspace()` holds. */
  predicate IsSpace(c: char)
  {
    ('\t' <= c <= '\r') || ('\U{1C}' <= c <= '\U{1F}') || c == ' ' || c == '\U{85}' ||
    c == '\U{A0}' || c == '\U{1680}' || ('\U{2000}' <= c <= '\U{200A}') || c == '\U{2028}' ||
    c == '\U{2029}' || c == '\U{202F}' || c == '\U{205F}' || c == '\U{3000}'
  }

  function StripLeft(s: string): string
  {
    if s != [] && IsSpace(s[0]) then StripLeft(s[1..]) else s
  }

  function StripRight(s: string): string
  {
    if s != [] && IsSpace(s[|s| - 1]) then StripRight(s[..|s| - 1]) else s
  }

  /** Python `str.strip()` without arguments. */
  function Strip(s: string): string { StripRight(StripLeft(s)) }

  /** True iff `s` consists of whitespace only (so `s.strip()` is falsy). */
  predicate IsBlank(s: string) { forall i :: 0 <= i < |s| ==> IsSpace(s[i]) }

  lemma {:induction false} StripLeftEmpty(s: string)
    ensures StripLeft(s) == [] <==> IsBlank(s)
    decreases |s|
  {
    if s != [] && IsSpace(s[0]) {
      StripLeftEmpty(s[1..]);
      if IsBlank(s[1..]) {
        assert forall i :: 0 <= i < |s| ==> IsSpace(s[i]) by {
          forall i | 0 <= i < |s| ensures IsSpace(s[i]) {
            if i > 0 { assert s[i] == s[1..][i - 1]; }
          }
        }
      } else {
        var k :| 0 <= k < |s[1..]| && !IsSpace(s[1..][k]);
        assert !IsSpace(s[k + 1]);
      }
    }
  }

  lemma {:induction false} StripLeftHead(s: string)
    ensures StripLeft(s) != [] ==> !IsSpace(StripLeft(s)[0])
    decreases |s|
  {
    if s != [] && IsSpace(s[0]) {
      StripLeftHead(s[1..]);
    }
  }

  lemma {:induction false} StripRightKeepsHead(r: string)
    requires r != [] && !IsSpace(r[0])
    ensures StripRight(r) != []
    decreases |r|
  {
    if IsSpace(r[|r| - 1]) {
      assert |r| > 1;
      StripRightKeepsHead(r[..|r| - 1]);
    }
  }

  /** `s.strip()` is the empty string exactly when `s` is blank. */
  lemma StripEmptyIffBlank(s: string)
    ensures Strip(s) == [] <==> IsBlank(s)
  {
    StripLeftEmpty(s);
    StripLeftHead(s);
    if StripLeft(s) != [] {
      StripRightKeepsHead(StripLeft(s));
    }
  }

  /** Python `str.lower()` on one character: ASCII and Latin-1 capitals. */
  function LowerChar(c: char): char
  {
    if 'A' <= c <= 'Z' || ('\U{C0}' <= c <= '\U{DE}' && c != '\U{D7}')
    then (c as int + 32) as char else c
  }

  /** Python `str.upper()` on one character, as a string because '\U{DF}' becomes "SS". */
  function UpperOf(c: char): string
  {
    if 'a' <= c <= 'z' || ('\U{E0}' <= c <= '\U{FE}' && c != '\U{F7}') then [(c as int - 32) as char]
    else if c == '\U{DF}' then "SS"
    else if c == '\U{FF}' then ['\U{178}']
    else if c == '\U{B5}' then ['\U{39C}']
    else [c]
  }

  function Lower(s: string): (r: string)
    ensures |r| == |s| && forall i :: 0 <= i < |s| ==> r[i] == LowerChar(s[i])
  {
    seq(|s|, i requires 0 <= i < |s| => LowerChar(s[i]))
  }

  function Upper(s: string): string
  {
    if s == [] then [] else UpperOf(s[0]) + Upper(s[1..])
  }

  /** Python `s.replace(c, "")` for a single character. */
  function RemoveChar(s: string, c: char): (r: string)
    ensures forall i :: 0 <= i < |r| ==> r[i] != c
    ensures |r| <= |s|
  {
    if s == [] then [] else (if s[0] == c then [] else [s[0]]) + RemoveChar(s[1..], c)
  }

  /** Python `sub in s`. */
  predicate IsSubstring(sub: string, s: string)
    decreases |s|
  {
    (|sub| <= |s| && s[..|sub|] == sub) || (s != [] && IsSubstring(sub, s[1..]))
  }

  function DigitValue(c: char): nat requires IsDigit(c) { c as int - '0' as int }

  function DigitsValue(s: string): nat
    requires AllDigits(s)
  {
    if s == [] then 0 else DigitsValue(s[..|s| - 1]) * 10 + DigitValue(s[|s| - 1])
  }

  function NatToString(n: nat): (r: string)
    ensures IsDigitString(r)
  {
    if n < 10 then [('0' as int + n) as char]
    else NatToString(n / 10) + [('0' as int + n % 10) as char]
  }

  /** Python `str(i)` for an integer. */
  function IntToString(i: int): string
  {
    if i < 0 then "-" + NatToString(-i) else NatToString(i)
  }

  /** Where the reading of an integer literal stands: before it (whitespace), after its
      sign, after a digit, after an underscore, or in the whitespace after it. */
  datatype IntScan =
    | Lead
    | Signed(neg: bool)
    | InDigits(neg: bool, acc: nat)
    | AfterUnderscore(neg: bool, acc: nat)
    | Trail(neg: bool, acc: nat)

  /** Python `int(s)` in base 10 for ASCII digits, read character by character from `i`:
      surrounding whitespace, an optional sign, and digits in groups joined by single
      underscores; `None` where Python raises `ValueError`. */
  function ScanInt(s: string, i: nat, st: IntScan): Option<int>
    requires i <= |s|
    decreases |s| - i
  {
    if i == |s| then
      match st
      case InDigits(neg, acc) => Some(if neg then -(acc as int) else acc as int)
      case Trail(neg, acc) => Some(if neg then -(acc as int) else acc as int)
      case _ => None
    else
      var c := s[i];
      match st
      case Lead =>
        if IsSpace(c) then ScanInt(s, i + 1, Lead)
        else if c == '+' || c == '-' then ScanInt(s, i + 1, Signed(c == '-'))
        else if IsDigit(c) then ScanInt(s, i + 1, InDigits(false, DigitValue(c)))
        else None
      case Signed(neg) =>
        if IsDigit(c) then ScanInt(s, i + 1, InDigits(neg, DigitValue(c))) else None
      case InDigits(neg, acc) =>
        if IsDigit(c) then ScanInt(s, i + 1, InDigits(neg, acc * 10 + DigitValue(c)))
        else if c == '_' then ScanInt(s, i + 1, AfterUnderscore(neg, acc))
        else if IsSpace(c) then ScanInt(s, i + 1, Trail(neg, acc))
        else None
      case AfterUnderscore(neg, acc) =>
        if IsDigit(c) then ScanInt(s, i + 1, InDigits(neg, acc * 10 + DigitValue(c))) else None
      case Trail(neg, acc) =>
        if IsSpace(c) then ScanInt(s, i + 1, Trail(neg, acc)) else None
  }

  function ParseInt(s: string): Option<int>
  {
    ScanInt(s, 0, Lead)
  }

  /** Once the first digit is read, the rest of a digit string adds its digits. */
  lemma {:induction false} ScanDigits(s: string, i: nat)
    requires AllDigits(s) && 0 < i <= |s|
    ensures ScanInt(s, i, InDigits(false, DigitsValue(s[..i]))) == Some(DigitsValue(s) as int)
    decreases |s| - i
  {
    if i == |s| {
      assert s[..i] == s;
    } else {
      assert s[..i + 1][..i] == s[..i];
      ScanDigits(s, i + 1);
    }
  }

  /** A digit string is read by `int()` as its decimal value. */
  lemma ParseIntDigits(s: string)
    requires IsDigitString(s)
    ensures ParseInt(s) == Some(DigitsValue(s) as int)
  {
    assert s[..1][..0] == [];
    ScanDigits(s, 1);
  }

  /** `int(str(n)) == n`: decimal printing and reading are inverse. */
  lemma {:induction false} NatToStringRoundTrip(n: nat)
    ensures DigitsValue(NatToString(n)) == n
  {
    if n >= 10 {
      NatToStringRoundTrip(n / 10);
      var a := NatToString(n / 10);
      var r := a + [('0' as int + n % 10) as char];
      assert r[..|r| - 1] == a;
    }
  }

  /** Python string ordering (code point by code point), compared from position `i` on. */
  predicate LexLessFrom(a: string, b: string, i: nat)
    requires i <= |a| && i <= |b|
    decreases |a| - i
  {
    if i == |a| then i < |b|
    else if i == |b| then false
    else if a[i] != b[i] then a[i] < b[i]
    else LexLessFrom(a, b, i + 1)
  }

  /** Python `a < b` on strings. */
  predicate LexLess(a: string, b: string)
  {
    LexLessFrom(a, b, 0)
  }

  /** The largest of `ss[i..]`, the later one of equals losing to the earlier. */
  function MaxFrom(ss: seq<string>, i: nat): string
    requires i < |ss|
    decreases |ss| - i
  {
    if i == |ss| - 1 then ss[i]
    else var rest := MaxFrom(ss, i + 1); if LexLess(ss[i], rest) then rest else ss[i]
  }

  /** Python `max(values)` over a non-empty list of strings. */
  function MaxString(ss: seq<string>): string
    requires |ss| > 0
  {
    MaxFrom(ss, 0)
  }

  lemma {:induction false} MaxFromIn(ss: seq<string>, i: nat)
    requires i < |ss|
    ensures exists k :: i <= k < |ss| && ss[k] == MaxFrom(ss, i)
    decreases |ss| - i
  {
    if i < |ss| - 1 {
      MaxFromIn(ss, i + 1);
      var k :| i + 1 <= k < |ss| && ss[k] == MaxFrom(ss, i + 1);
      if !LexLess(ss[i], MaxFrom(ss, i + 1)) {
        assert ss[i] == MaxFrom(ss, i);
      }
    } else {
      assert ss[i] == MaxFrom(ss, i);
    }
  }

  /** `max` returns one of its arguments. */
  lemma MaxStringIn(ss: seq<string>)
    requires |ss| > 0
    ensures MaxString(ss) in ss
  {
    MaxFromIn(ss, 0);
  }

  /** Python slice `s[i:j]` with non-negative bounds (clamped like Python). */
  function Slice(s: string, i: nat, j: nat): (r: string)
    ensures |r| <= |s|
  {
    var lo := if i < |s| then i else |s|;
    var hi := if j < |s| then j else |s|;
    if lo <= hi then s[lo..hi] else []
  }

  /** Python `s[-k:]` for k > 0. */
  function TakeLast(s: string, k: nat): (r: string)
    ensures |r| == if k < |s| then k else |s|
  {
    if k < |s| then s[|s| - k..] else s
  }

  /** Python `s[:-k]` for k > 0. */
  function DropLast(s: string, k: nat): (r: string)
    ensures |r| == if k < |s| then |s| - k else 0
  {
    if k < |s| then s[..|s| - k] else []
  }

  /** Python `re.split` on a character class: one more piece than separators. */
  function SplitOn(s: string, seps: set<char>): (r: seq<string>)
    ensures |r| >= 1
    ensures forall k :: 0 <= k < |r| ==> forall i :: 0 <= i < |r[k]| ==> r[k][i] !in seps
  {
    if s == [] then [""]
    else
      var rest := SplitOn(s[1..], seps);
      if s[0] in seps then [""] + rest else [[s[0]] + rest[0]] + rest[1..]
  }

  function Count<T(==)>(s: seq<T>, x: T): nat
  {
    if s == [] then 0 else (if s[0] == x then 1 else 0) + Count(s[1..], x)
  }

  /** Python `list.index(x)`. */
  function IndexOf<T(==)>(s: seq<T>, x: T): (k: nat)
    requires x in s
    ensures k < |s| && s[k] == x && x !in s[..k]
  {
    if s[0] == x then 0 else 1 + IndexOf(s[1..], x)
  }

  /** The elements at the positions `p`, in the order of `p`. */
  function Pick<T>(xs: seq<T>, p: seq<nat>): (r: seq<T>)
    requires forall t :: 0 <= t < |p| ==> p[t] < |xs|
    ensures |r| == |p| && forall t :: 0 <= t < |p| ==> r[t] == xs[p[t]]
  {
    seq(|p|, t requires 0 <= t < |p| => xs[p[t]])
  }

  /** Picking every position in order gives the list back. */
  lemma PickAll<T>(xs: seq<T>, p: seq<nat>)
    requires |p| == |xs| && forall t :: 0 <= t < |p| ==> p[t] == t
    ensures Pick(xs, p) == xs
  {
  }

  /** Picking one more position adds its element at the end. */
  lemma PickSnoc<T>(xs: seq<T>, w: seq<nat>, j: nat)
    requires j < |xs| && forall t :: 0 <= t < |w| ==> w[t] < |xs|
    ensures Pick(xs, w + [j]) == Pick(xs, w) + [xs[j]]
  {
  }

  // ---------------------------------------------------------------------------
  // Table cells and data frames
  // ---------------------------------------------------------------------------

  /** A data-frame cell: missing (NaN/None), text, integer, float (kept as its
      Python repr) or boolean. */
  datatype Cell = NA | Str(s: string) | Int(i: int) | Float(repr: string) | Bool(b: bool)

  /** `Series.astype(str)` of one cell. */
  function StrForm(c: Cell): string
  {
    match c
    case NA => "nan"
    case Str(s) => s
    case Int(i) => IntToString(i)
    case Float(r) => r
    case Bool(b) => if b then "True" else "False"
  }

  /** The integer value of a float repr of the form `[-]digits.0`. */
  function FloatIntegral(repr: string): Option<int>
  {
    if |repr| >= 3 && repr[|repr| - 2..] == ".0" then
      var m := repr[..|repr| - 2];
      if IsDigitString(m) then Some(DigitsValue(m))
      else if |m| >= 2 && m[0] == '-' && IsDigitString(m[1..]) then Some(-(DigitsValue(m[1..]) as int))
      else None
    else None
  }

  /** The integer a cell equals under Python `==` (booleans are 0/1), if any. */
  function IntValue(c: Cell): Option<int>
  {
    match c
    case Int(i) => Some(i)
    case Bool(b) => Some(if b then 1 else 0)
    case Float(r) => FloatIntegral(r)
    case _ => None
  }

  /** The key a cell hashes to in pandas' `drop_duplicates`, `merge` and `isin`:
      numbers that compare equal share a key and all missing values share one. */
  datatype Key = KNA | KNum(n: int) | KFloat(repr: string) | KStr(s: string)

  function HashKey(c: Cell): Key
  {
    match c
    case NA => KNA
    case Str(s) => KStr(s)
    case Int(i) => KNum(i)
    case Bool(b) => KNum(if b then 1 else 0)
    case Float(r) => if FloatIntegral(r).Some? then KNum(FloatIntegral(r).value) else KFloat(r)
  }

  /** Element-wise `==` of pandas: missing values never compare equal. */
  predicate CellEq(a: Cell, b: Cell)
  {
    a != NA && b != NA && HashKey(a) == HashKey(b)
  }

  datatype DType = Int64 | Float64 | Object | BoolType

  /** A data frame stored by rows; `names` are the column labels. */
  datatype Frame = Frame(names: seq<string>, dtypes: seq<DType>, rows: seq<seq<Cell>>)
  {
    predicate Valid()
    {
      |dtypes| == |names| && forall r :: r in rows ==> |r| == |names|
    }

    function Width(): nat { |names| }

    function Height(): nat { |rows| }

    /** Column `j` as a list of cells. */
    function Column(j: nat): (c: seq<Cell>)
      requires Valid() && j < |names|
      ensures |c| == |rows|
    {
      seq(|rows|, i requires 0 <= i < |rows| => assert rows[i] in rows; rows[i][j])
    }
  }

  /** A Python argument whose type the toolkit checks at run time. */
  datatype PyValue =
    | PyNone
    | PyBool(b: bool)
    | PyInt(i: int)
    | PyFloat(x: real)
    | PyNan
    | PyStr(s: string)
    | PyDict(pairs: seq<(string, string)>)
    | PyFrame(frame: Frame)
    | PyOther

  /** A data frame the toolkit changes in place (renaming columns, adding a
      column). */
  class Table {
    var names: seq<string>
    var dtypes: seq<DType>
    var rows: seq<seq<Cell>>

    function Snapshot(): Frame
      reads this
    {
      Frame(names, dtypes, rows)
    }

    constructor (f: Frame)
      ensures Snapshot() == f
    {
      names := f.names;
      dtypes := f.dtypes;
      rows := f.rows;
    }
  }
}
