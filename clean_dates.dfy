/** Inference of the day/month/year order of dates and the splitting of dates
    written without separators (src/osta/clean_data.py). */
module CleanDates {
  import opened Common

  /** The two flags the date standardiser hands to its parser. */
  datatype DateOrder = DateOrder(dayfirst: Option<bool>, yearfirst: Option<bool>)

  // ---------------------------------------------------------------------------
  // Dates with separators: the parts are already split into one column each
  // ---------------------------------------------------------------------------

  datatype DatePart = Year | Day | Month

  /** Every value's text is a digit string (`astype(str).str.isnumeric()` holds for all). */
  predicate AllNumeric(col: seq<Cell>)
  {
    forall k :: 0 <= k < |col| ==> IsDigitString(StrForm(col[k]))
  }

  /** `pd.to_numeric` applied to a column whose values are all numeric; any other column is kept. */
  function ToNumeric(col: seq<Cell>): (r: seq<Cell>)
    ensures |r| == |col|
  {
    if AllNumeric(col) then seq(|col|, k requires 0 <= k < |col| => Int(DigitsValue(StrForm(col[k]))))
    else col
  }

  /** A converted column holds exactly what Python's `int()` reads from each value. */
  lemma ToNumericReadsInt(col: seq<Cell>, k: nat)
    requires AllNumeric(col) && k < |col|
    ensures IntValue(ToNumeric(col)[k]) == ParseInt(StrForm(col[k]))
  {
    ParseIntDigits(StrForm(col[k]));
  }

  /** Converting twice changes nothing more: the text of a converted value reads back as its value. */
  lemma ToNumericIdempotent(col: seq<Cell>)
    ensures ToNumeric(ToNumeric(col)) == ToNumeric(col)
  {
    var r := ToNumeric(col);
    if AllNumeric(col) && AllNumeric(r) {
      forall k | 0 <= k < |r|
        ensures Int(DigitsValue(StrForm(r[k]))) == r[k]
      {
        NatToStringRoundTrip(DigitsValue(StrForm(col[k])));
      }
    }
  }

  /** The in-place conversion of every column of the date table. */
  method ConvertNumericColumns(cols: array<seq<Cell>>)
    modifies cols
    ensures forall c :: 0 <= c < cols.Length ==> cols[c] == ToNumeric(old(cols[c]))
  {
    for c := 0 to cols.Length
      invariant forall d :: 0 <= d < c ==> cols[d] == ToNumeric(old(cols[d]))
      invariant forall d :: c <= d < cols.Length ==> cols[d] == old(cols[d])
    {
      cols[c] := ToNumeric(cols[c]);
    }
  }

  /** `isin(range)` for one cell: integral numbers (and booleans, as 0 and 1) compare equal to ints. */
  predicate CellIn(c: Cell, lo: int, hi: int)
  {
    IntValue(c).Some? && lo <= IntValue(c).value <= hi
  }

  /** `any(column.isin(lo..hi))`. */
  predicate AnyIn(col: seq<Cell>, lo: int, hi: int)
  {
    exists k :: 0 <= k < |col| && CellIn(col[k], lo, hi)
  }

  /** The label of one column: years are 1970..2049, values 13..31 can only be days,
      and what remains is taken for months. */
  function PartOf(col: seq<Cell>): DatePart
  {
    if AnyIn(col, 1970, 2049) then Year
    else if AnyIn(col, 13, 31) then Day
    else Month
  }

  function Labels(cols: seq<seq<Cell>>): seq<DatePart>
  {
    seq(|cols|, i requires 0 <= i < |cols| => PartOf(cols[i]))
  }

  /** A column holding a year is labelled a year; one holding a value that only a day can
      take and no year is labelled a day; one holding only month numbers is a month. */
  lemma PartOfRecognises(col: seq<Cell>)
    ensures (exists k :: 0 <= k < |col| && CellIn(col[k], 1970, 2049)) ==> PartOf(col) == Year
    ensures (forall k :: 0 <= k < |col| ==> IntValue(col[k]).Some? && 1 <= IntValue(col[k]).value <= 12)
              ==> PartOf(col) == Month
    ensures (!AnyIn(col, 1970, 2049) && exists k :: 0 <= k < |col| && CellIn(col[k], 13, 31))
              ==> PartOf(col) == Day
  {
  }

  /** The labelling loop, one label per column in column order. */
  method LabelColumns(cols: seq<seq<Cell>>) returns (result: seq<DatePart>)
    ensures |result| == |cols|
    ensures forall i :: 0 <= i < |cols| ==> result[i] == PartOf(cols[i])
  {
    result := [];
    for i := 0 to |cols|
      invariant |result| == i
      invariant forall j :: 0 <= j < i ==> result[j] == PartOf(cols[j])
    {
      result := result + [PartOf(cols[i])];
    }
  }

  /** The flags decided by the labels; when one of the three parts is missing the
      incoming flags are returned unchanged. */
  function FlagsWithSep(labels: seq<DatePart>, dayfirst: Option<bool>, yearfirst: Option<bool>): (r: DateOrder)
    ensures !(Year in labels && Month in labels && Day in labels) ==> r == DateOrder(dayfirst, yearfirst)
    ensures (Year in labels && Month in labels && Day in labels) ==> r.yearfirst == Some(labels[0] == Year)
  {
    if Year in labels && Month in labels && Day in labels then
      var yf := IndexOf(labels, Year) == 0;
      var df := (yf && IndexOf(labels, Day) == 1) || (!yf && IndexOf(labels, Day) == 0);
      DateOrder(Some(df), Some(yf))
    else
      DateOrder(dayfirst, yearfirst)
  }

  /** For three columns labelled year, day and month at distinct positions `y`, `d`, `m`,
      the flags say exactly whether the day precedes the month and whether the year is first. */
  lemma FlagsWithSepRecognisesLayout(labels: seq<DatePart>, y: nat, d: nat, m: nat,
                                     dayfirst: Option<bool>, yearfirst: Option<bool>)
    requires |labels| == 3 && y < 3 && d < 3 && m < 3 && y != d && d != m && y != m
    requires labels[y] == Year && labels[d] == Day && labels[m] == Month
    ensures FlagsWithSep(labels, dayfirst, yearfirst) == DateOrder(Some(d < m), Some(y == 0))
  {
    assert labels[y] in labels && labels[d] in labels && labels[m] in labels;
    var iy, id := IndexOf(labels, Year), IndexOf(labels, Day);
    assert iy == y by {
      assert labels[d] != Year && labels[m] != Year;
    }
    assert id == d by {
      assert labels[y] != Day && labels[m] != Day;
    }
  }

  /** `__get_format_of_dates_w_sep`: the columns are converted in place, labelled, and the
      flags follow from the labels. */
  method GetFormatWithSep(cols: array<seq<Cell>>, dayfirst: Option<bool>, yearfirst: Option<bool>)
    returns (r: DateOrder)
    modifies cols
    ensures forall c :: 0 <= c < cols.Length ==> cols[c] == ToNumeric(old(cols[c]))
    ensures r == FlagsWithSep(Labels(cols[..]), dayfirst, yearfirst)
  {
    ConvertNumericColumns(cols);
    var result := LabelColumns(cols[..]);
    assert result == Labels(cols[..]);
    r := FlagsWithSep(result, dayfirst, yearfirst);
  }

  // ---------------------------------------------------------------------------
  // Dates without separators: which fixed-width window holds the year, the month
  // ---------------------------------------------------------------------------

  function StrForms(values: seq<Cell>): (r: seq<string>)
    ensures |r| == |values|
  {
    seq(|values|, k requires 0 <= k < |values| => StrForm(values[k]))
  }

  /** The longest length, `max(values.str.len())` (0 for no values). */
  function MaxLen(ss: seq<string>): (n: nat)
    ensures forall k :: 0 <= k < |ss| ==> |ss[k]| <= n
    ensures ss != [] ==> exists k :: 0 <= k < |ss| && |ss[k]| == n
  {
    if ss == [] then 0
    else
      var rest := MaxLen(ss[1..]);
      assert forall k :: 1 <= k < |ss| ==> ss[k] == ss[1..][k - 1];
      if |ss[0]| >= rest then |ss[0]| else rest
  }

  /** The values of exactly `n` characters, in order. */
  function OfLength(ss: seq<string>, n: nat): (r: seq<string>)
    ensures forall k :: 0 <= k < |r| ==> |r[k]| == n
  {
    if ss == [] then [] else (if |ss[0]| == n then [ss[0]] else []) + OfLength(ss[1..], n)
  }

  lemma {:induction false} OfLengthAll(ss: seq<string>, n: nat)
    requires forall k :: 0 <= k < |ss| ==> |ss[k]| == n
    ensures OfLength(ss, n) == ss
  {
    if ss != [] {
      OfLengthAll(ss[1..], n);
    }
  }

  /** Python `list(range(start, stop, step))` for a positive step. */
  function RangeFrom(start: nat, stop: int, step: nat): seq<nat>
    requires step > 0
    decreases stop - start
  {
    if start >= stop then [] else [start] + RangeFrom(start + step, stop, step)
  }

  /** `values.str[i:j]` for every value. */
  function Windows(ss: seq<string>, i: nat, j: nat): (r: seq<string>)
    ensures |r| == |ss|
  {
    seq(|ss|, k requires 0 <= k < |ss| => Slice(ss[k], i, j))
  }

  /** `hi >= int(max(ss)) >= lo`; `max` of nothing and `int` of a non-number raise. */
  function MaxInRange(ss: seq<string>, lo: int, hi: int): Result<bool>
  {
    if ss == [] then Err("ValueError: max() arg is an empty sequence")
    else
      match ParseInt(MaxString(ss))
      case None => Err("ValueError: invalid literal for int() with base 10")
      case Some(v) => Ok(lo <= v <= hi)
  }

  /** The outcome of each window's test, window by window. */
  function WindowTests(ss: seq<string>, starts: seq<nat>, width: nat, lo: int, hi: int): (r: seq<Result<bool>>)
    ensures |r| == |starts|
  {
    seq(|starts|, p requires 0 <= p < |starts| => MaxInRange(Windows(ss, starts[p], starts[p] + width), lo, hi))
  }

  /** The positions of the tests that passed, in order; the first test that raised raises. */
  function Passing(tests: seq<Result<bool>>): (r: Result<seq<nat>>)
    ensures r.Ok? ==> |r.value| <= |tests| && forall p :: 0 <= p < |r.value| ==> r.value[p] < |tests|
  {
    if tests == [] then Ok([])
    else
      var hits :- Passing(tests[..|tests| - 1]);
      var hit :- tests[|tests| - 1];
      Ok(if hit then hits + [|tests| - 1] else hits)
  }

  /** When no test raised, exactly the positions of the passed tests are reported, in increasing order. */
  lemma {:induction false} PassingExact(tests: seq<Result<bool>>)
    requires Passing(tests).Ok?
    ensures forall p :: 0 <= p < |tests| ==> (p in Passing(tests).value <==> tests[p] == Ok(true))
    ensures forall p :: p in Passing(tests).value ==> p < |tests|
    ensures forall i, j :: 0 <= i < j < |Passing(tests).value| ==> Passing(tests).value[i] < Passing(tests).value[j]
  {
    if tests != [] {
      var init := tests[..|tests| - 1];
      PassingExact(init);
      assert forall p :: 0 <= p < |init| ==> tests[p] == init[p];
    }
  }

  /** A test that raises makes the whole scan raise with its message. */
  lemma {:induction false} PassingErr(tests: seq<Result<bool>>, n: nat)
    requires n <= |tests| && Passing(tests[..n]).Err?
    ensures Passing(tests) == Passing(tests[..n])
    decreases |tests| - n
  {
    if n == |tests| {
      assert tests[..n] == tests;
    } else {
      var init := tests[..|tests| - 1];
      assert init[..n] == tests[..n];
      PassingErr(init, n);
    }
  }

  /** The positions, among `starts`, of the windows of `width` characters whose maximum
      lies in `lo..hi`; the first window that cannot be read raises. */
  function InRangeWindows(ss: seq<string>, starts: seq<nat>, width: nat, lo: int, hi: int): Result<seq<nat>>
  {
    Passing(WindowTests(ss, starts, width, lo, hi))
  }

  /** The loop over the windows that collects the tests' outcomes. */
  method ScanWindows(ss: seq<string>, starts: seq<nat>, width: nat, lo: int, hi: int)
    returns (r: Result<seq<nat>>)
    ensures r == InRangeWindows(ss, starts, width, lo, hi)
  {
    ghost var tests := WindowTests(ss, starts, width, lo, hi);
    var hits: seq<nat> := [];
    for x := 0 to |starts|
      invariant Passing(tests[..x]) == Ok(hits)
    {
      assert tests[..x + 1][..x] == tests[..x];
      var hit := MaxInRange(Windows(ss, starts[x], starts[x] + width), lo, hi);
      assert tests[x] == hit;
      if hit.Err? {
        PassingErr(tests, x + 1);
        return Err(hit.msg);
      }
      if hit.value {
        hits := hits + [x];
      }
    }
    assert tests[..|starts|] == tests;
    r := Ok(hits);
  }

  /** How the text around the year is kept once the year is found at `i`. */
  type Cut = (string, nat, nat) -> string

  /** As written: only the text before the year is kept. */
  function BeforeYear(s: string, i: nat, yearLen: nat): string
  {
    Slice(s, 0, i)
  }

  /** Intended: the text before and after the year. */
  function WithoutYear(s: string, i: nat, yearLen: nat): (r: string)
    ensures |s| == i + yearLen ==> r == BeforeYear(s, i, yearLen)
  {
    Slice(s, 0, i) + Slice(s, i + yearLen, |s|)
  }

  /** Every date with its year, `yearLen` characters at `i`, removed by `cut`. */
  function CutAll(dates: seq<string>, cut: Cut, i: nat, yearLen: nat): (r: seq<string>)
    ensures |r| == |dates|
  {
    seq(|dates|, k requires 0 <= k < |dates| => cut(dates[k], i, yearLen))
  }

  /** The year's length in dates of `charLen` characters. */
  function YearLen(charLen: nat): nat
  {
    if charLen == 8 then 4 else 2
  }

  /** Where the year may start: `range(0, char_len - 1, year_len)`. */
  function YearStarts(charLen: nat): seq<nat>
  {
    RangeFrom(0, charLen - 1, YearLen(charLen))
  }

  /** Where the day or the month may start once the year is removed. */
  function DayMonthStarts(charLen: nat): seq<nat>
  {
    RangeFrom(0, charLen - YearLen(charLen) - 1, 2)
  }

  /** `__get_format_of_dates_wo_sep` with the removal of the year given by `cut`:
      only dates of 8 or 6 characters are considered; a year is recognised when exactly
      one window of 4 (or 2) characters has its maximum in 1970..2049 (or 15..49); the
      day-month text then is tested in windows of 2, and a single window whose maximum is
      a month number decides whether the day comes first. */
  function FormatWoSepWith(values: seq<Cell>, cut: Cut): Result<DateOrder>
  {
    var strs := StrForms(values);
    if strs == [] then Err("ValueError: max() arg is an empty sequence")
    else
      var charLen := MaxLen(strs);
      if charLen != 8 && charLen != 6 then Ok(DateOrder(None, None))
      else YearThenMonth(OfLength(strs, charLen), charLen, cut)
  }

  /** The search for the year among the dates of `charLen` characters. */
  function YearThenMonth(dates: seq<string>, charLen: nat, cut: Cut): Result<DateOrder>
  {
    var lo := if charLen == 8 then 1970 else 15;
    var hi := if charLen == 8 then 2049 else 49;
    var hits :- InRangeWindows(dates, YearStarts(charLen), YearLen(charLen), lo, hi);
    if |hits| != 1 then Ok(DateOrder(None, None))
    else MonthAfterYear(dates, charLen, YearStarts(charLen)[hits[0]], cut)
  }

  /** The search for the month once the year is found at `iYear`. */
  function MonthAfterYear(dates: seq<string>, charLen: nat, iYear: nat, cut: Cut): Result<DateOrder>
  {
    var rest := CutAll(dates, cut, iYear, YearLen(charLen));
    var dmStarts := DayMonthStarts(charLen);
    // a window is a month when its maximum is both a day (1..31) and a month (1..12)
    var months :- InRangeWindows(rest, dmStarts, 2, 1, 12);
    var dayfirst := if |months| == 1 then Some(months[0] == |dmStarts| - 1) else None;
    Ok(DateOrder(dayfirst, Some(iYear == 0)))
  }

  function FormatWoSepAsWritten(values: seq<Cell>): Result<DateOrder>
  {
    FormatWoSepWith(values, BeforeYear)
  }

  function FormatWoSep(values: seq<Cell>): Result<DateOrder>
  {
    FormatWoSepWith(values, WithoutYear)
  }

  /** The loops of `__get_format_of_dates_wo_sep`. */
  method GetFormatWoSep(values: seq<Cell>, cut: Cut) returns (r: Result<DateOrder>)
    ensures r == FormatWoSepWith(values, cut)
  {
    var strs := StrForms(values);
    if strs == [] {
      return Err("ValueError: max() arg is an empty sequence");
    }
    var charLen := MaxLen(strs);
    if charLen != 8 && charLen != 6 {
      return Ok(DateOrder(None, None));
    }
    var dates := OfLength(strs, charLen);
    var yearStarts := YearStarts(charLen);
    var hits :- ScanWindows(dates, yearStarts, YearLen(charLen), if charLen == 8 then 1970 else 15,
                            if charLen == 8 then 2049 else 49);
    if |hits| != 1 {
      return Ok(DateOrder(None, None));
    }
    var iYear := yearStarts[hits[0]];
    var rest := CutAll(dates, cut, iYear, YearLen(charLen));
    var dmStarts := DayMonthStarts(charLen);
    var months :- ScanWindows(rest, dmStarts, 2, 1, 12);
    var dayfirst := if |months| == 1 then Some(months[0] == |dmStarts| - 1) else None;
    r := Ok(DateOrder(dayfirst, Some(iYear == 0)));
  }

  // --- facts about windows of digit strings ---

  /** Texts that all consist of exactly `n` digits. */
  predicate DigitDates(ss: seq<string>, n: nat)
  {
    |ss| > 0 && forall k :: 0 <= k < |ss| ==> |ss[k]| == n && AllDigits(ss[k])
  }

  lemma SliceDigits(s: string, i: nat, j: nat)
    requires AllDigits(s) && i < j <= |s|
    ensures Slice(s, i, j) == s[i..j] && IsDigitString(Slice(s, i, j))
  {
  }

  /** The maximum of the digit windows `[i, i + w)` read as a number. */
  function WindowValue(ss: seq<string>, n: nat, i: nat, w: nat): int
    requires DigitDates(ss, n) && 0 < w && i + w <= n
  {
    var ws := Windows(ss, i, i + w);
    var m := MaxString(ws);
    assert IsDigitString(m) by {
      MaxStringIn(ws);
      var k :| 0 <= k < |ws| && ws[k] == m;
      SliceDigits(ss[k], i, i + w);
    }
    DigitsValue(m)
  }

  lemma WindowRead(ss: seq<string>, n: nat, i: nat, w: nat, lo: int, hi: int)
    requires DigitDates(ss, n) && 0 < w && i + w <= n
    ensures MaxInRange(Windows(ss, i, i + w), lo, hi) == Ok(lo <= WindowValue(ss, n, i, w) <= hi)
  {
    var ws := Windows(ss, i, i + w);
    MaxStringIn(ws);
    var k :| 0 <= k < |ws| && ws[k] == MaxString(ws);
    SliceDigits(ss[k], i, i + w);
    ParseIntDigits(MaxString(ws));
  }

  lemma EmptyWindowsRaise(ss: seq<string>, i: nat, j: nat, lo: int, hi: int)
    requires |ss| > 0 && forall k :: 0 <= k < |ss| ==> ss[k] == ""
    ensures MaxInRange(Windows(ss, i, j), lo, hi).Err?
  {
    var ws := Windows(ss, i, j);
    MaxStringIn(ws);
    assert MaxString(ws) == "";
  }

  /** Two tests that both could be read: the passing ones are reported in order. */
  lemma PassingTwo(tests: seq<Result<bool>>, x: bool, y: bool)
    requires |tests| == 2 && tests[0] == Ok(x) && tests[1] == Ok(y)
    ensures Passing(tests) == Ok((if x then [0] else []) + (if y then [1] else []))
  {
    var first := tests[..1];
    assert first[0] == Ok(x);
    assert first[..0] == [];
    var h0: seq<nat> := if x then [0] else [];
    assert [] + [0] == [0];
    assert Passing(first) == Ok(h0);
    assert h0 + [] == h0;
  }

  /** Two windows at `a` and `b` whose tests could be read: the passing ones are reported in order. */
  lemma TwoWindows(ss: seq<string>, a: nat, b: nat, w: nat, lo: int, hi: int, x: bool, y: bool)
    requires MaxInRange(Windows(ss, a, a + w), lo, hi) == Ok(x)
    requires MaxInRange(Windows(ss, b, b + w), lo, hi) == Ok(y)
    ensures InRangeWindows(ss, [a, b], w, lo, hi) == Ok((if x then [0] else []) + (if y then [1] else []))
  {
    var tests := WindowTests(ss, [a, b], w, lo, hi);
    assert tests[0] == MaxInRange(Windows(ss, a, a + w), lo, hi);
    assert tests[1] == MaxInRange(Windows(ss, b, b + w), lo, hi);
    PassingTwo(tests, x, y);
  }

  /** Two windows of digit texts: exactly those whose maximum lies in range are reported. */
  lemma TwoDigitWindows(ss: seq<string>, n: nat, a: nat, b: nat, w: nat, lo: int, hi: int)
    requires DigitDates(ss, n) && 0 < w && a + w <= n && b + w <= n
    ensures InRangeWindows(ss, [a, b], w, lo, hi)
              == Ok((if lo <= WindowValue(ss, n, a, w) <= hi then [0] else [])
                    + (if lo <= WindowValue(ss, n, b, w) <= hi then [1] else []))
  {
    WindowRead(ss, n, a, w, lo, hi);
    WindowRead(ss, n, b, w, lo, hi);
    TwoWindows(ss, a, b, w, lo, hi, lo <= WindowValue(ss, n, a, w) <= hi, lo <= WindowValue(ss, n, b, w) <= hi);
  }

  /** Dates of eight characters: a year of four characters, searched at 0 and 4, and
      day-month windows at 0 and 2 of what is left. */
  lemma EightCharWindows()
    ensures YearLen(8) == 4 && YearStarts(8) == [0, 4] && DayMonthStarts(8) == [0, 2]
  {
    assert RangeFrom(8, 7, 4) == [];
    assert RangeFrom(4, 3, 2) == [];
  }

  /** Values all of the same length: that length is the longest. */
  lemma {:induction false} MaxLenUniform(ss: seq<string>, n: nat)
    requires |ss| > 0 && forall k :: 0 <= k < |ss| ==> |ss[k]| == n
    ensures MaxLen(ss) == n
  {
    var k :| 0 <= k < |ss| && |ss[k]| == MaxLen(ss);
  }

  /** The year windows of eight-digit dates. */
  lemma YearWindowsOfEightDigits(ss: seq<string>)
    requires DigitDates(ss, 8)
    ensures InRangeWindows(ss, [0, 4], 4, 1970, 2049)
              == Ok((if 1970 <= WindowValue(ss, 8, 0, 4) <= 2049 then [0] else [])
                    + (if 1970 <= WindowValue(ss, 8, 4, 4) <= 2049 then [1] else []))
  {
    TwoDigitWindows(ss, 8, 0, 4, 4, 1970, 2049);
  }

  /** Eight-digit dates, the values a year-first or year-last compact date column holds. */
  predicate EightDigits(values: seq<Cell>)
  {
    DigitDates(StrForms(values), 8)
  }

  /** The year window at 0 (or at 4) alone holds years. */
  predicate YearOnlyAt(ss: seq<string>, i: nat)
    requires DigitDates(ss, 8) && i <= 4
  {
    (1970 <= WindowValue(ss, 8, i, 4) <= 2049) && !(1970 <= WindowValue(ss, 8, 4 - i, 4) <= 2049)
  }

  /** Eight-digit dates go straight to the search for the year. */
  lemma EightDigitsSearched(values: seq<Cell>, cut: Cut)
    requires EightDigits(values)
    ensures FormatWoSepWith(values, cut) == YearThenMonth(StrForms(values), 8, cut)
  {
    MaxLenUniform(StrForms(values), 8);
    OfLengthAll(StrForms(values), 8);
  }

  /** A year found in one window alone leads to the search for the month after it. */
  lemma YearFound(ss: seq<string>, cut: Cut, i: nat)
    requires DigitDates(ss, 8) && (i == 0 || i == 4) && YearOnlyAt(ss, i)
    ensures YearThenMonth(ss, 8, cut) == MonthAfterYear(ss, 8, i, cut)
  {
    EightCharWindows();
    YearWindowsOfEightDigits(ss);
  }

  /** How both versions proceed once the year of eight-digit dates is found at `i`. */
  lemma FormatWoSepAfterYear(values: seq<Cell>, cut: Cut, i: nat)
    requires EightDigits(values) && (i == 0 || i == 4) && YearOnlyAt(StrForms(values), i)
    ensures FormatWoSepWith(values, cut) == MonthAfterYear(StrForms(values), 8, i, cut)
  {
    EightDigitsSearched(values, cut);
    YearFound(StrForms(values), cut, i);
  }

  /** The search for the month among the texts left by the cut. */
  lemma MonthSearch(ss: seq<string>, cut: Cut, i: nat)
    ensures MonthAfterYear(ss, 8, i, cut)
              == (var months :- InRangeWindows(CutAll(ss, cut, i, 4), [0, 2], 2, 1, 12);
                  Ok(DateOrder(if |months| == 1 then Some(months[0] == 1) else None, Some(i == 0))))
  {
    EightCharWindows();
  }

  /** A slice of a text cut out of a longer text is a slice of that text, shifted. */
  lemma ShiftedSlice(s: string, r: string, d: nat, e: nat, i: nat, w: nat)
    requires d <= e <= |s| && i + w <= e - d && r == s[d..e]
    ensures Slice(r, i, i + w) == Slice(s, d + i, d + i + w)
  {
    var a, b := r[i..i + w], s[d + i..d + i + w];
    assert Slice(r, i, i + w) == a;
    assert Slice(s, d + i, d + i + w) == b;
    forall t | 0 <= t < w
      ensures a[t] == b[t]
    {
      assert a[t] == r[i + t] == s[d + i + t];
    }
  }

  /** Windows of texts cut out of longer texts are windows of those texts, shifted. */
  lemma ShiftedWindows(ss: seq<string>, rest: seq<string>, d: nat, e: nat, i: nat, w: nat)
    requires |rest| == |ss| && d <= e && i + w <= e - d
    requires forall k :: 0 <= k < |ss| ==> e <= |ss[k]| && rest[k] == ss[k][d..e]
    ensures Windows(rest, i, i + w) == Windows(ss, d + i, d + i + w)
  {
    var x, y := Windows(rest, i, i + w), Windows(ss, d + i, d + i + w);
    forall k | 0 <= k < |ss|
      ensures x[k] == y[k]
    {
      ShiftedSlice(ss[k], rest[k], d, e, i, w);
    }
  }

  /** A day-month window of the text left once the year is cut away is read from the dates themselves. */
  lemma ShiftedRead(ss: seq<string>, rest: seq<string>, d: nat, i: nat)
    requires DigitDates(ss, 8) && d + 4 <= 8 && i <= 2
    requires |rest| == |ss| && forall k :: 0 <= k < |ss| ==> rest[k] == ss[k][d..d + 4]
    ensures MaxInRange(Windows(rest, i, i + 2), 1, 12) == Ok(1 <= WindowValue(ss, 8, d + i, 2) <= 12)
  {
    ShiftedWindows(ss, rest, d, d + 4, i, 2);
    WindowRead(ss, 8, d + i, 2, 1, 12);
  }

  /** The month windows once the year is cut away: both windows are read from the
      dates themselves, at `d` and `d + 2`. */
  lemma MonthWindowsAfterCut(ss: seq<string>, rest: seq<string>, d: nat)
    requires DigitDates(ss, 8) && d + 4 <= 8
    requires |rest| == |ss| && forall k :: 0 <= k < |ss| ==> rest[k] == ss[k][d..d + 4]
    ensures InRangeWindows(rest, [0, 2], 2, 1, 12)
              == Ok((if 1 <= WindowValue(ss, 8, d, 2) <= 12 then [0] else [])
                    + (if 1 <= WindowValue(ss, 8, d + 2, 2) <= 12 then [1] else []))
  {
    ShiftedRead(ss, rest, d, 0);
    ShiftedRead(ss, rest, d, 2);
    TwoWindows(rest, 0, 2, 2, 1, 12, 1 <= WindowValue(ss, 8, d, 2) <= 12, 1 <= WindowValue(ss, 8, d + 2, 2) <= 12);
  }

  /** Texts that are all empty leave the first day-month window empty, and the scan raises. */
  lemma EmptyTextsRaise(rest: seq<string>)
    requires |rest| > 0 && forall k :: 0 <= k < |rest| ==> rest[k] == ""
    ensures InRangeWindows(rest, [0, 2], 2, 1, 12).Err?
  {
    EmptyWindowsRaise(rest, 0, 2, 1, 12);
    var tests := WindowTests(rest, [0, 2], 2, 1, 12);
    assert tests[0] == MaxInRange(Windows(rest, 0, 2), 1, 12);
    assert tests[..1][..0] == [];
    assert tests[..1][0] == tests[0];
    assert Passing(tests[..1]).Err?;
    PassingErr(tests, 1);
  }

  /** As written, cutting a year at the start keeps nothing (`str[:0]`). */
  lemma CutBeforeYearAtStart(ss: seq<string>)
    ensures forall k :: 0 <= k < |ss| ==> CutAll(ss, BeforeYear, 0, 4)[k] == ""
  {
    var rest := CutAll(ss, BeforeYear, 0, 4);
    forall k | 0 <= k < |ss|
      ensures rest[k] == ""
    {
      assert rest[k] == BeforeYear(ss[k], 0, 4);
    }
  }

  /** With the text after the year kept, cutting a year at the start keeps the last four digits. */
  lemma CutWithoutYearAtStart(ss: seq<string>)
    requires DigitDates(ss, 8)
    ensures forall k :: 0 <= k < |ss| ==> CutAll(ss, WithoutYear, 0, 4)[k] == ss[k][4..8]
  {
    var rest := CutAll(ss, WithoutYear, 0, 4);
    forall k | 0 <= k < |ss|
      ensures rest[k] == ss[k][4..8]
    {
      assert rest[k] == WithoutYear(ss[k], 0, 4);
    }
  }

  /** Cutting a year at the end keeps the first four digits, alike in both versions. */
  lemma CutYearAtEnd(ss: seq<string>)
    requires DigitDates(ss, 8)
    ensures CutAll(ss, BeforeYear, 4, 4) == CutAll(ss, WithoutYear, 4, 4)
    ensures forall k :: 0 <= k < |ss| ==> CutAll(ss, BeforeYear, 4, 4)[k] == ss[k][0..4]
  {
    var x, y := CutAll(ss, BeforeYear, 4, 4), CutAll(ss, WithoutYear, 4, 4);
    forall k | 0 <= k < |ss|
      ensures x[k] == ss[k][0..4] && x[k] == y[k]
    {
      assert x[k] == BeforeYear(ss[k], 4, 4);
      assert y[k] == WithoutYear(ss[k], 4, 4);
    }
  }

  /** As written, a year found at the start of eight-digit dates leaves no text to search
      for the month (`str[:0]`), and `int("")` raises. */
  lemma YearFirstRaisesAsWritten(values: seq<Cell>)
    requires EightDigits(values) && YearOnlyAt(StrForms(values), 0)
    ensures FormatWoSepAsWritten(values).Err?
  {
    FormatWoSepAfterYear(values, BeforeYear, 0);
    MonthSearch(StrForms(values), BeforeYear, 0);
    CutBeforeYearAtStart(StrForms(values));
    EmptyTextsRaise(CutAll(StrForms(values), BeforeYear, 0, 4));
  }

  /** The month search after a year at the start, with the text after the year kept. */
  lemma MonthAfterYearAtStart(ss: seq<string>)
    requires DigitDates(ss, 8)
    ensures var m4 := 1 <= WindowValue(ss, 8, 4, 2) <= 12;
            var m6 := 1 <= WindowValue(ss, 8, 6, 2) <= 12;
            MonthAfterYear(ss, 8, 0, WithoutYear) == Ok(DateOrder(if m4 != m6 then Some(m6) else None, Some(true)))
  {
    MonthSearch(ss, WithoutYear, 0);
    CutWithoutYearAtStart(ss);
    MonthWindowsAfterCut(ss, CutAll(ss, WithoutYear, 0, 4), 4);
  }

  /** The month search after a year at the end, alike in both versions. */
  lemma MonthAfterYearAtEnd(ss: seq<string>)
    requires DigitDates(ss, 8)
    ensures MonthAfterYear(ss, 8, 4, BeforeYear) == MonthAfterYear(ss, 8, 4, WithoutYear)
    ensures var m0 := 1 <= WindowValue(ss, 8, 0, 2) <= 12;
            var m2 := 1 <= WindowValue(ss, 8, 2, 2) <= 12;
            MonthAfterYear(ss, 8, 4, WithoutYear) == Ok(DateOrder(if m0 != m2 then Some(m2) else None, Some(false)))
  {
    CutYearAtEnd(ss);
    MonthSearch(ss, WithoutYear, 4);
    MonthWindowsAfterCut(ss, CutAll(ss, WithoutYear, 4, 4), 0);
  }

  /** With the text after the year kept, the same dates are recognised as year-first, and
      the day comes first exactly when, of the windows at 4 and 6, only the latter holds
      month numbers. */
  lemma YearFirstRecognised(values: seq<Cell>)
    requires EightDigits(values) && YearOnlyAt(StrForms(values), 0)
    ensures FormatWoSep(values).Ok? && FormatWoSep(values).value.yearfirst == Some(true)
    ensures var ss := StrForms(values);
            var m4 := 1 <= WindowValue(ss, 8, 4, 2) <= 12;
            var m6 := 1 <= WindowValue(ss, 8, 6, 2) <= 12;
            FormatWoSep(values).value.dayfirst == if m4 != m6 then Some(m6) else None
  {
    FormatWoSepAfterYear(values, WithoutYear, 0);
    MonthAfterYearAtStart(StrForms(values));
  }

  /** A year found at the end is handled alike by both versions, since nothing follows it;
      the day comes first exactly when, of the windows at 0 and 2, only the latter holds
      month numbers. */
  lemma YearLastAgrees(values: seq<Cell>)
    requires EightDigits(values) && YearOnlyAt(StrForms(values), 4)
    ensures FormatWoSepAsWritten(values) == FormatWoSep(values)
    ensures FormatWoSep(values).Ok? && FormatWoSep(values).value.yearfirst == Some(false)
    ensures var ss := StrForms(values);
            var m0 := 1 <= WindowValue(ss, 8, 0, 2) <= 12;
            var m2 := 1 <= WindowValue(ss, 8, 2, 2) <= 12;
            FormatWoSep(values).value.dayfirst == if m0 != m2 then Some(m2) else None
  {
    FormatWoSepAfterYear(values, BeforeYear, 4);
    FormatWoSepAfterYear(values, WithoutYear, 4);
    MonthAfterYearAtEnd(StrForms(values));
  }
}
