/** `__convert_dates_without_sep` (src/osta/clean_data.py): dates written without
    separators are cut into year, day and month and joined as `day/month/year`. */
module CompactDates {
  import opened Common
  import opened CleanDates

  /** One row of the working table `res`: the text still to be split (`mod`) and the
      parts found so far (`None` where pandas holds a missing value). */
  datatype Split = Split(mod: string, day: Option<string>, month: Option<string>, year: string)

  /** Python truthiness of a flag that may be `None`. */
  predicate Truthy(flag: Option<bool>)
  {
    flag == Some(true)
  }

  /** The year cut off one date: its first `year_len` characters when the year comes
      first, else its last ones; the rest stays to be split. */
  function CutYear(c: Cell, charLen: nat, yearfirst: Option<bool>): (p: Split)
    ensures p.day.None? && p.month.None?
    ensures Truthy(yearfirst) ==> p.year + p.mod == StrForm(c)
    ensures !Truthy(yearfirst) ==> p.mod + p.year == StrForm(c)
    ensures |p.year| == if YearLen(charLen) < |StrForm(c)| then YearLen(charLen) else |StrForm(c)|
  {
    var s := StrForm(c);
    var yearLen := YearLen(charLen);
    if Truthy(yearfirst) then Split(Slice(s, yearLen, |s|), None, None, Slice(s, 0, yearLen))
    else Split(DropLast(s, yearLen), None, None, TakeLast(s, yearLen))
  }

  /** The rest split after `i` characters, in day-month or month-day order. */
  function SplitAt(p: Split, i: nat, dayfirst: Option<bool>): (q: Split)
    ensures q.mod == [] && q.year == p.year && q.day.Some? && q.month.Some?
  {
    var first, second := Slice(p.mod, 0, i), Slice(p.mod, i, |p.mod|);
    if Truthy(dayfirst) then Split([], Some(first), Some(second), p.year)
    else Split([], Some(second), Some(first), p.year)
  }

  /** Splitting loses no character: day and month, in `dayfirst` order, are the rest. */
  lemma SplitAtKeepsRest(p: Split, i: nat, dayfirst: Option<bool>)
    ensures var q := SplitAt(p, i, dayfirst);
            (if Truthy(dayfirst) then q.day.value + q.month.value else q.month.value + q.day.value) == p.mod
  {
    assert Slice(p.mod, 0, i) + Slice(p.mod, i, |p.mod|) == p.mod;
  }

  /** The length of rest that pass `i` (1 or 2) splits for sure: 4 characters are
      split 2 + 2 and 2 characters 1 + 1. */
  function DmLen(charLen: nat, i: nat): int
  {
    if i == 2 then charLen - YearLen(charLen) else charLen - YearLen(charLen) - 2
  }

  /** Pass `i` over all rows: the rows whose rest has `dmLen` characters are split. */
  function Pass(ps: seq<Split>, i: nat, dmLen: int, dayfirst: Option<bool>): (r: seq<Split>)
    ensures |r| == |ps|
  {
    seq(|ps|, k requires 0 <= k < |ps| => if |ps[k].mod| == dmLen then SplitAt(ps[k], i, dayfirst) else ps[k])
  }

  /** The passes `1..n` of the loop `for i in [1, 2]`. */
  function FixedPasses(ps: seq<Split>, charLen: nat, n: nat, dayfirst: Option<bool>): (r: seq<Split>)
    ensures |r| == |ps|
  {
    if n == 0 then ps
    else Pass(FixedPasses(ps, charLen, n - 1, dayfirst), n, DmLen(charLen, n), dayfirst)
  }

  function Mods(ps: seq<Split>): (r: seq<string>)
    ensures |r| == |ps|
  {
    seq(|ps|, k requires 0 <= k < |ps| => ps[k].mod)
  }

  /** `values.str[i:]` for every value. */
  function Tails(ss: seq<string>, i: nat): (r: seq<string>)
    ensures |r| == |ss|
  {
    seq(|ss|, k requires 0 <= k < |ss| => Slice(ss[k], i, |ss[k]|))
  }

  /** The pattern test for three-character rests: for a cut after 1 and after 2
      characters, both parts' maxima must lie in their ranges (days 1..31, months
      1..12, in the order `dayfirst` gives); the one cut that alone passes is chosen. */
  function ThreeCharCut(mods: seq<string>, dayfirst: Option<bool>): Result<Option<nat>>
  {
    var lo1, hi1 := 1, if Truthy(dayfirst) then 31 else 12;
    var lo2, hi2 := 1, if Truthy(dayfirst) then 12 else 31;
    var first1 :- MaxInRange(Windows(mods, 0, 1), lo1, hi1);
    var second1 :- MaxInRange(Tails(mods, 1), lo2, hi2);
    var first2 :- MaxInRange(Windows(mods, 0, 2), lo1, hi1);
    var second2 :- MaxInRange(Tails(mods, 2), lo2, hi2);
    var pass1, pass2 := first1 && second1, first2 && second2;
    Ok(if pass1 && !pass2 then Some(1) else if pass2 && !pass1 then Some(2) else None)
  }

  /** Which rests the three-character test reads, or `None` to skip the test. */
  type Select = seq<string> -> Option<seq<string>>

  /** As written: the rests of all rows, including those already split (""). */
  function AllRests(mods: seq<string>): Option<seq<string>>
  {
    Some(mods)
  }

  function ThreeCharRests(mods: seq<string>): (r: seq<string>)
    ensures forall k :: 0 <= k < |r| ==> |r[k]| == 3
  {
    if mods == [] then []
    else (if |mods[0]| == 3 then [mods[0]] else []) + ThreeCharRests(mods[1..])
  }

  /** Intended: only the three-character rests the block is about, and no test when
      there are none. */
  function OnlyThreeCharRests(mods: seq<string>): (r: Option<seq<string>>)
    ensures r.None? <==> ThreeCharRests(mods) == []
  {
    var rests := ThreeCharRests(mods);
    if rests == [] then None else Some(rests)
  }

  /** The rows with a three-character rest split after `i` characters. */
  function SplitThree(ps: seq<Split>, i: nat, dayfirst: Option<bool>): (r: seq<Split>)
    ensures |r| == |ps|
  {
    Pass(ps, i, 3, dayfirst)
  }

  /** The block for three-character rests. */
  function ThreeCharStep(ps: seq<Split>, dayfirst: Option<bool>, select: Select): Result<seq<Split>>
  {
    var chosen := select(Mods(ps));
    if chosen.None? then Ok(ps)
    else
      var cut :- ThreeCharCut(chosen.value, dayfirst);
      Ok(if cut.Some? then SplitThree(ps, cut.value, dayfirst) else ps)
  }

  /** `res["day"] + "/" + res["month"] + "/" + res["year"]`: missing where a part is missing. */
  function Joined(p: Split): Option<string>
  {
    if p.day.Some? && p.month.Some? then Some(p.day.value + "/" + p.month.value + "/" + p.year) else None
  }

  function JoinedAll(ps: seq<Split>): (r: seq<Option<string>>)
    ensures |r| == |ps|
  {
    seq(|ps|, k requires 0 <= k < |ps| => Joined(ps[k]))
  }

  function CutYears(values: seq<Cell>, charLen: nat, yearfirst: Option<bool>): (r: seq<Split>)
    ensures |r| == |values|
  {
    seq(|values|, k requires 0 <= k < |values| => CutYear(values[k], charLen, yearfirst))
  }

  /** `__convert_dates_without_sep` with the rests read by the three-character test
      given by `select`. */
  function ConvertWith(values: seq<Cell>, charLen: nat, dayfirst: Option<bool>, yearfirst: Option<bool>,
                       select: Select): Result<seq<Option<string>>>
  {
    var fixed := FixedPasses(CutYears(values, charLen, yearfirst), charLen, 2, dayfirst);
    var done :- ThreeCharStep(fixed, dayfirst, select);
    Ok(JoinedAll(done))
  }

  /** `s` is the date `day/month/year` whose day and month, in the order `dayfirst`
      reads them, make up the rest of `c` and whose year is the part cut from it. */
  ghost predicate Rearranged(s: string, c: Split, dayfirst: Option<bool>)
  {
    exists day, month :: s == day + "/" + month + "/" + c.year &&
                         (if Truthy(dayfirst) then day + month else month + day) == c.mod
  }

  function ConvertAsWritten(values: seq<Cell>, charLen: nat, dayfirst: Option<bool>, yearfirst: Option<bool>)
    : (r: Result<seq<Option<string>>>)
    ensures r.Ok? ==> |r.value| == |values|
    ensures r.Ok? ==> forall k :: 0 <= k < |values| && r.value[k].Some? ==>
                        Rearranged(r.value[k].value, CutYear(values[k], charLen, yearfirst), dayfirst)
  {
    ConvertedRearranged(values, charLen, dayfirst, yearfirst, AllRests);
    ConvertWith(values, charLen, dayfirst, yearfirst, AllRests)
  }

  function Convert(values: seq<Cell>, charLen: nat, dayfirst: Option<bool>, yearfirst: Option<bool>)
    : (r: Result<seq<Option<string>>>)
    ensures r.Ok? ==> |r.value| == |values|
    ensures r.Ok? ==> forall k :: 0 <= k < |values| && r.value[k].Some? ==>
                        Rearranged(r.value[k].value, CutYear(values[k], charLen, yearfirst), dayfirst)
  {
    ConvertedRearranged(values, charLen, dayfirst, yearfirst, OnlyThreeCharRests);
    ConvertWith(values, charLen, dayfirst, yearfirst, OnlyThreeCharRests)
  }

  /** Pass `i` in place over the working table: the rows whose rest has `dmLen`
      characters receive their day and month, the others are left alone. */
  method SplitRows(res: array<Split>, i: nat, dmLen: int, dayfirst: Option<bool>)
    modifies res
    ensures res[..] == Pass(old(res[..]), i, dmLen, dayfirst)
  {
    ghost var before := res[..];
    var k := 0;
    while k < res.Length
      invariant 0 <= k <= res.Length
      invariant forall t :: 0 <= t < k ==> res[t] == if |before[t].mod| == dmLen then SplitAt(before[t], i, dayfirst) else before[t]
      invariant forall t :: k <= t < res.Length ==> res[t] == before[t]
    {
      if |res[k].mod| == dmLen {
        res[k] := SplitAt(res[k], i, dayfirst);
      }
      k := k + 1;
    }
    assert res[..] == Pass(before, i, dmLen, dayfirst);
  }

  /** `__convert_dates_without_sep`, filling the columns of the working table in place
      as the source does. */
  method ConvertDatesWithoutSep(values: seq<Cell>, charLen: nat, dayfirst: Option<bool>, yearfirst: Option<bool>,
                                select: Select) returns (r: Result<seq<Option<string>>>)
    ensures r == ConvertWith(values, charLen, dayfirst, yearfirst, select)
  {
    var res := new Split[|values|](k requires 0 <= k < |values| => CutYear(values[k], charLen, yearfirst));
    assert res[..] == CutYears(values, charLen, yearfirst);
    for i := 1 to 3
      invariant res[..] == FixedPasses(CutYears(values, charLen, yearfirst), charLen, i - 1, dayfirst)
    {
      SplitRows(res, i, DmLen(charLen, i), dayfirst);
    }
    var chosen := select(Mods(res[..]));
    if chosen.Some? {
      var cut := ThreeCharCut(chosen.value, dayfirst);
      if cut.Err? {
        return Err(cut.msg);
      }
      if cut.value.Some? {
        SplitRows(res, cut.value.value, 3, dayfirst);
      }
    }
    r := Ok(JoinedAll(res[..]));
  }

  /** The reference reading of a fixed-width date: year first or last, then the
      four-character rest halved, day first or month first. */
  function DayMonthYear(s: string, charLen: nat, dayfirst: Option<bool>, yearfirst: Option<bool>): string
    requires |s| == YearLen(charLen) + 4
  {
    var yearLen := YearLen(charLen);
    var year := if Truthy(yearfirst) then s[..yearLen] else s[4..];
    var rest := if Truthy(yearfirst) then s[yearLen..] else s[..4];
    var day := if Truthy(dayfirst) then rest[..2] else rest[2..];
    var month := if Truthy(dayfirst) then rest[2..] else rest[..2];
    day + "/" + month + "/" + year
  }

  /** Every value written with `char_len` characters (8 or 6). */
  predicate FixedWidth(values: seq<Cell>, charLen: nat)
  {
    (charLen == 8 || charLen == 6) && forall k :: 0 <= k < |values| ==> |StrForm(values[k])| == charLen
  }

  /** After the two sure passes, a fixed-width date is fully split as the reference reads it. */
  lemma FixedWidthSplit(values: seq<Cell>, charLen: nat, dayfirst: Option<bool>, yearfirst: Option<bool>, k: nat)
    requires FixedWidth(values, charLen) && k < |values|
    ensures var p := FixedPasses(CutYears(values, charLen, yearfirst), charLen, 2, dayfirst)[k];
            p.mod == [] && Joined(p) == Some(DayMonthYear(StrForm(values[k]), charLen, dayfirst, yearfirst))
  {
    var s := StrForm(values[k]);
    var cut := CutYears(values, charLen, yearfirst);
    var c := cut[k];
    assert |s| == charLen;
    assert |c.mod| == 4;
    assert FixedPasses(cut, charLen, 0, dayfirst) == cut;
    assert DmLen(charLen, 1) == 2 && DmLen(charLen, 2) == 4;
    var one := FixedPasses(cut, charLen, 1, dayfirst);
    assert one[k] == c;
    var p := Pass(one, 2, DmLen(charLen, 2), dayfirst)[k];
    assert p == SplitAt(c, 2, dayfirst);
    assert p.day.Some? && p.month.Some?;
    assert Slice(c.mod, 0, 2) == c.mod[..2] && Slice(c.mod, 2, 4) == c.mod[2..];
    if Truthy(yearfirst) {
      assert c.mod == s[YearLen(charLen)..] && c.year == s[..YearLen(charLen)];
    } else {
      assert c.mod == s[..4] && c.year == s[4..];
    }
  }

  /** As written, a column of fixed-width dates raises: once every row is split, the
      three-character test takes `int("")`. */
  lemma FixedWidthRaisesAsWritten(values: seq<Cell>, charLen: nat, dayfirst: Option<bool>, yearfirst: Option<bool>)
    requires FixedWidth(values, charLen) && |values| > 0
    ensures ConvertAsWritten(values, charLen, dayfirst, yearfirst).Err?
  {
    var fixed := FixedPasses(CutYears(values, charLen, yearfirst), charLen, 2, dayfirst);
    var mods := Mods(fixed);
    forall k | 0 <= k < |mods|
      ensures mods[k] == ""
    {
      FixedWidthSplit(values, charLen, dayfirst, yearfirst, k);
    }
    EmptyWindowsRaise(mods, 0, 1, 1, if Truthy(dayfirst) then 31 else 12);
  }

  /** The corrected block skips the test when no three-character rest is left, so each
      fixed-width date becomes `day/month/year` as the reference reads it. */
  lemma FixedWidthConverted(values: seq<Cell>, charLen: nat, dayfirst: Option<bool>, yearfirst: Option<bool>)
    requires FixedWidth(values, charLen)
    ensures Convert(values, charLen, dayfirst, yearfirst).Ok?
    ensures var r := Convert(values, charLen, dayfirst, yearfirst).value;
            |r| == |values| &&
            forall k :: 0 <= k < |r| ==> r[k] == Some(DayMonthYear(StrForm(values[k]), charLen, dayfirst, yearfirst))
  {
    var fixed := FixedPasses(CutYears(values, charLen, yearfirst), charLen, 2, dayfirst);
    var mods := Mods(fixed);
    forall k | 0 <= k < |mods|
      ensures mods[k] == ""
    {
      FixedWidthSplit(values, charLen, dayfirst, yearfirst, k);
    }
    NoThreeCharRests(mods);
    var r := JoinedAll(fixed);
    forall k | 0 <= k < |r|
      ensures r[k] == Some(DayMonthYear(StrForm(values[k]), charLen, dayfirst, yearfirst))
    {
      FixedWidthSplit(values, charLen, dayfirst, yearfirst, k);
    }
  }

  lemma {:induction false} NoThreeCharRests(mods: seq<string>)
    requires forall k :: 0 <= k < |mods| ==> mods[k] == ""
    ensures ThreeCharRests(mods) == []
  {
    if mods != [] {
      NoThreeCharRests(mods[1..]);
    }
  }

  /** A row of the working table that still reads as `orig`: either untouched, or
      split into day and month whose concatenation (in `dayfirst` order) is the rest. */
  predicate Reads(p: Split, orig: Split, dayfirst: Option<bool>)
  {
    p.year == orig.year &&
    ((p.day.None? && p.month.None? && p.mod == orig.mod) ||
     (p.day.Some? && p.month.Some? && p.mod == [] &&
      (if Truthy(dayfirst) then p.day.value + p.month.value else p.month.value + p.day.value) == orig.mod))
  }

  predicate AllRead(ps: seq<Split>, origs: seq<Split>, dayfirst: Option<bool>)
  {
    |ps| == |origs| && forall k :: 0 <= k < |ps| ==> Reads(ps[k], origs[k], dayfirst)
  }

  /** A pass keeps every row reading as its original, provided it does not split a
      row a second time (which only a pass over empty rests could do). */
  lemma PassReads(ps: seq<Split>, origs: seq<Split>, i: nat, dmLen: int, dayfirst: Option<bool>)
    requires AllRead(ps, origs, dayfirst)
    requires dmLen != 0 || forall k :: 0 <= k < |ps| ==> ps[k].day.None?
    ensures AllRead(Pass(ps, i, dmLen, dayfirst), origs, dayfirst)
  {
    var r := Pass(ps, i, dmLen, dayfirst);
    forall k | 0 <= k < |r|
      ensures Reads(r[k], origs[k], dayfirst)
    {
      if |ps[k].mod| == dmLen {
        SplitAtKeepsRest(ps[k], i, dayfirst);
      }
    }
  }

  /** The two sure passes keep every row reading as the row the year cut left. */
  lemma FixedPassesRead(ps: seq<Split>, charLen: nat, dayfirst: Option<bool>)
    requires forall k :: 0 <= k < |ps| ==> ps[k].day.None? && ps[k].month.None?
    ensures AllRead(FixedPasses(ps, charLen, 2, dayfirst), ps, dayfirst)
  {
    assert FixedPasses(ps, charLen, 0, dayfirst) == ps;
    assert AllRead(ps, ps, dayfirst);
    var one := FixedPasses(ps, charLen, 1, dayfirst);
    PassReads(ps, ps, 1, DmLen(charLen, 1), dayfirst);
    if DmLen(charLen, 2) == 0 {
      assert one == ps;
    }
    PassReads(one, ps, 2, DmLen(charLen, 2), dayfirst);
  }

  /** Whatever the three-character test reads, every date that is converted is its own
      characters rearranged: day and month are the rest left by the year cut (in
      `dayfirst` order) and the year is the part cut off; the row count is kept. */
  lemma ConvertedKeepsCharacters(values: seq<Cell>, charLen: nat, dayfirst: Option<bool>, yearfirst: Option<bool>,
                                 select: Select, k: nat)
    requires ConvertWith(values, charLen, dayfirst, yearfirst, select).Ok?
    requires k < |values|
    ensures var r := ConvertWith(values, charLen, dayfirst, yearfirst, select).value;
            var c := CutYear(values[k], charLen, yearfirst);
            |r| == |values| &&
            (r[k].Some? ==> exists day, month :: r[k].value == day + "/" + month + "/" + c.year &&
                                                (if Truthy(dayfirst) then day + month else month + day) == c.mod)
  {
    var cut := CutYears(values, charLen, yearfirst);
    FixedPassesRead(cut, charLen, dayfirst);
    var fixed := FixedPasses(cut, charLen, 2, dayfirst);
    var done := ThreeCharStep(fixed, dayfirst, select).value;
    if done != fixed {
      var cutAt := ThreeCharCut(select(Mods(fixed)).value, dayfirst).value.value;
      PassReads(fixed, cut, cutAt, 3, dayfirst);
    }
    assert Reads(done[k], cut[k], dayfirst);
    var r := JoinedAll(done);
    if r[k].Some? {
      assert r[k].value == done[k].day.value + "/" + done[k].month.value + "/" + cut[k].year;
    }
  }

  /** Every date a conversion produces is its value's own characters rearranged. */
  lemma ConvertedRearranged(values: seq<Cell>, charLen: nat, dayfirst: Option<bool>, yearfirst: Option<bool>,
                            select: Select)
    ensures var r := ConvertWith(values, charLen, dayfirst, yearfirst, select);
            r.Ok? ==> forall k :: 0 <= k < |values| && r.value[k].Some? ==>
                        Rearranged(r.value[k].value, CutYear(values[k], charLen, yearfirst), dayfirst)
  {
    var r := ConvertWith(values, charLen, dayfirst, yearfirst, select);
    if r.Ok? {
      forall k | 0 <= k < |values| && r.value[k].Some?
        ensures Rearranged(r.value[k].value, CutYear(values[k], charLen, yearfirst), dayfirst)
      {
        ConvertedKeepsCharacters(values, charLen, dayfirst, yearfirst, select, k);
      }
    }
  }
}
