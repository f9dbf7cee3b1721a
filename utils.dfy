/** Identifier validators and argument predicates shared by the toolkit
    (src/osta/__utils.py; src/osta/utils.py repeats the first two predicates). */
module Utils {
  import opened Common
  import opened Regex

  // ---------------------------------------------------------------------------
  // Argument predicates
  // ---------------------------------------------------------------------------

  /** `__is_non_empty_df`: a data frame that holds at least one cell. */
  predicate IsNonEmptyDf(v: PyValue)
    ensures IsNonEmptyDf(v) <==> v.PyFrame? && |v.frame.rows| * |v.frame.names| > 0
  {
    v.PyFrame? && |v.frame.rows| > 0 && |v.frame.names| > 0
  }

  /** `__is_percentage`: `isinstance(v, (int, float))` also admits booleans and
      NaN; NaN fails the range test and booleans are excluded afterwards. */
  function IsPercentage(v: PyValue): (r: bool)
    ensures r <==> (v.PyInt? && 0 <= v.i <= 1) || (v.PyFloat? && 0.0 <= v.x <= 1.0)
  {
    var isNumber := v.PyInt? || v.PyFloat? || v.PyBool? || v.PyNan?;
    var inRange :=
      match v
      case PyInt(i) => 0 <= i <= 1
      case PyFloat(x) => 0.0 <= x <= 1.0
      case PyBool(b) => true
      case _ => false;
    isNumber && inRange && !v.PyBool?
  }

  lemma PercentageExamples()
    ensures !IsPercentage(PyNone) && !IsPercentage(PyBool(true)) && !IsPercentage(PyBool(false))
    ensures !IsPercentage(PyStr("0.5")) && !IsPercentage(PyNan)
    ensures IsPercentage(PyFloat(0.5)) && IsPercentage(PyInt(0)) && IsPercentage(PyInt(1))
    ensures !IsPercentage(PyInt(-1)) && !IsPercentage(PyInt(2)) && !IsPercentage(PyFloat(1.5))
  {
  }

  // ---------------------------------------------------------------------------
  // Finnish Business ID (Y-tunnus)
  // ---------------------------------------------------------------------------

  /** `^\d\d\d\d\d\d\d-\d$`. */
  function BidPattern(): (p: seq<Piece>)
    ensures p == Anchored(Digits(7) + Lit("-") + Digits(1))
  {
    Anchored(Digits(7) + Lit("-") + Digits(1))
  }

  predicate HasBidShape(s: string)
  {
    SearchFrom(BidPattern(), s, 0, false)
  }

  /** The shape test accepts exactly seven digits, '-', one digit, optionally
      followed by one newline (Python's `$`). */
  lemma BidShapeIff(s: string)
    ensures HasBidShape(s) <==>
      (|s| == 9 || (|s| == 10 && s[9] == '\n')) && AllDigits(s[..7]) && s[7] == '-' && IsDigit(s[8])
  {
    var body := Digits(7) + Lit("-") + Digits(1);
    assert AllOne(body);
    AnchoredOnes(body, s, false);
    assert body[7] == One(Exactly('-')) && body[8] == One(Digit);
    assert forall k :: 0 <= k < 7 ==> body[k] == One(Digit);
  }

  const Weights: seq<nat> := [7, 9, 10, 5, 8, 4, 2]

  /** Sum of the first `n` digits times their weights. */
  function WeightedSum(d: string, n: nat): nat
    requires n <= |d| && n <= 7 && AllDigits(d[..n])
  {
    if n == 0 then 0
    else
      assert d[..n - 1] == d[..n][..n - 1];
      WeightedSum(d, n - 1) + DigitValue(d[n - 1]) * Weights[n - 1]
  }

  /** `11 - sum % 11`, with 11 replaced by 0. */
  function ExpectedCheck(sum: nat): nat
  {
    var e := 11 - sum % 11;
    if e == 11 then 0 else e
  }

  /** Validity of one shaped ID: the expected check equals the digit after '-'
      (`int` drops the newline the shape test may let through). */
  predicate CheckMatches(s: string)
    requires |s| >= 9 && AllDigits(s[..7]) && IsDigit(s[8])
  {
    ExpectedCheck(WeightedSum(s, 7)) == DigitValue(s[8])
  }

  predicate IsValidBid(s: string)
  {
    HasBidShape(s) && (BidShapeIff(s); CheckMatches(s))
  }

  /** Independent characterisation: a shaped ID is valid exactly when the weighted
      sum plus the check digit is divisible by 11. */
  lemma ValidBidIffDivisible(s: string)
    ensures IsValidBid(s) <==>
      HasBidShape(s) && (BidShapeIff(s); (WeightedSum(s, 7) + DigitValue(s[8])) % 11 == 0)
  {
    BidShapeIff(s);
    if HasBidShape(s) {
      CheckIffDivisible(WeightedSum(s, 7), DigitValue(s[8]));
    }
  }

  /** The arithmetic behind `ValidBidIffDivisible`: for a single digit `c`, the
      expected check of `w` is `c` exactly when `w + c` is divisible by 11. */
  lemma CheckIffDivisible(w: nat, c: nat)
    requires c <= 9
    ensures ExpectedCheck(w) == c <==> (w + c) % 11 == 0
  {
    var r := w % 11;
    assert w == 11 * (w / 11) + r;
    assert (w + c) % 11 == (r + c) % 11 by {
      assert w + c == 11 * (w / 11) + (r + c);
    }
    if r == 0 {
      assert ExpectedCheck(w) == 0;
    } else {
      assert ExpectedCheck(w) == 11 - r;
      assert (r + c) % 11 == 0 <==> r + c == 11;
    }
  }

  /** A remainder of 1 asks for check digit 10, so such an ID is always rejected. */
  lemma RemainderOneRejected(s: string)
    requires HasBidShape(s)
    ensures (BidShapeIff(s); WeightedSum(s, 7) % 11 == 1) ==> !IsValidBid(s)
  {
    BidShapeIff(s);
  }

  lemma BidExampleValid()
    ensures IsValidBid("0135202-4")
  {
    BidShapeIff("0135202-4");
    assert WeightedSum("0135202-4", 7) == 84;
  }

  lemma BidExampleWrongCheck()
    ensures !IsValidBid("0135442-4")
  {
    BidShapeIff("0135442-4");
    assert WeightedSum("0135442-4", 7) == 116;
  }

  lemma BidExampleLetters()
    ensures !IsValidBid("0135dd2-4")
  {
    BidShapeIff("0135dd2-4");
    assert !IsDigit("0135dd2-4"[4]);
  }

  lemma BidExamples()
    ensures IsValidBid("0135202-4")
    ensures !IsValidBid("0135442-4")
    ensures !IsValidBid("0135dd2-4")
  {
    BidExampleValid();
    BidExampleWrongCheck();
    BidExampleLetters();
  }

  /** (tag, result) pairs for the elements at positions `from..` whose shape test
      gives `shaped`: `False` for the unshaped ones, the checksum comparison for
      the shaped ones. */
  function Collect(values: seq<Cell>, from: nat, shaped: bool): seq<(nat, bool)>
    requires from <= |values|
    decreases |values| - from
  {
    if from == |values| then []
    else
      var s := StrForm(values[from]);
      var rest := Collect(values, from + 1, shaped);
      if HasBidShape(s) == shaped then [(from, IsValidBid(s))] + rest else rest
  }

  /** `Series.__getitem__` with one tag: the first entry carrying it. */
  function Lookup(pairs: seq<(nat, bool)>, tag: nat): Option<bool>
  {
    if pairs == [] then None
    else if pairs[0].0 == tag then Some(pairs[0].1)
    else Lookup(pairs[1..], tag)
  }

  /** `__are_valid_bids`: unshaped values get `False`, the shaped ones are checked,
      the two parts are concatenated and read back by tag. The result has one
      entry per input, in input order, and entry `i` is the validity of value `i`. */
  function AreValidBids(values: seq<Cell>): (r: seq<bool>)
    ensures |r| == |values|
    ensures forall i :: 0 <= i < |values| ==> r[i] == IsValidBid(StrForm(values[i]))
  {
    var failing := Collect(values, 0, false);
    var passing := Collect(values, 0, true);
    var res := if |passing| > 0 then failing + passing else failing;
    LookupAll(values, failing, passing, res);
    seq(|values|, i requires 0 <= i < |values| => Lookup(res, i).value)
  }

  lemma {:induction false} CollectEntries(values: seq<Cell>, from: nat, shaped: bool)
    requires from <= |values|
    ensures forall p :: p in Collect(values, from, shaped) ==>
      from <= p.0 < |values| && p.1 == IsValidBid(StrForm(values[p.0]))
    ensures forall i :: from <= i < |values| && HasBidShape(StrForm(values[i])) == shaped ==>
      (i, IsValidBid(StrForm(values[i]))) in Collect(values, from, shaped)
    ensures forall i :: from <= i < |values| && HasBidShape(StrForm(values[i])) != shaped ==>
      forall p :: p in Collect(values, from, shaped) ==> p.0 != i
    decreases |values| - from
  {
    if from < |values| {
      CollectEntries(values, from + 1, shaped);
    }
  }

  lemma {:induction false} LookupFinds(pairs: seq<(nat, bool)>, tag: nat, v: bool)
    requires (tag, v) in pairs
    requires forall p :: p in pairs && p.0 == tag ==> p.1 == v
    ensures Lookup(pairs, tag) == Some(v)
  {
    if pairs[0].0 != tag {
      LookupFinds(pairs[1..], tag, v);
    }
  }

  lemma LookupAll(values: seq<Cell>, failing: seq<(nat, bool)>, passing: seq<(nat, bool)>, res: seq<(nat, bool)>)
    requires failing == Collect(values, 0, false) && passing == Collect(values, 0, true)
    requires res == if |passing| > 0 then failing + passing else failing
    ensures forall i :: 0 <= i < |values| ==> Lookup(res, i) == Some(IsValidBid(StrForm(values[i])))
  {
    CollectEntries(values, 0, false);
    CollectEntries(values, 0, true);
    forall i | 0 <= i < |values|
      ensures Lookup(res, i) == Some(IsValidBid(StrForm(values[i])))
    {
      var v := IsValidBid(StrForm(values[i]));
      if HasBidShape(StrForm(values[i])) {
        assert (i, v) in passing;
      } else {
        assert (i, v) in failing;
      }
      LookupFinds(res, i, v);
    }
  }

  lemma AreValidBidsExample()
    ensures AreValidBids([Str("0135202-4"), Str("0135202-4"), Str("0135442-4")]) == [true, true, false]
  {
    BidExamples();
  }

  // ---------------------------------------------------------------------------
  // VAT numbers
  // ---------------------------------------------------------------------------

  /** One `^PREFIX...$` alternative of the VAT pattern. */
  datatype Alt = Alt(prefix: string, body: seq<Piece>)

  function Pattern(a: Alt): seq<Piece>
  {
    [Start] + Lit(a.prefix) + a.body + [End]
  }

  function Patterns(alts: seq<Alt>): (ps: seq<seq<Piece>>)
    ensures |ps| == |alts| && forall k :: 0 <= k < |alts| ==> ps[k] == Pattern(alts[k])
  {
    seq(|alts|, k requires 0 <= k < |alts| => Pattern(alts[k]))
  }

  const Finland := Alt("FI", Digits(8))

  /** The alternatives from Belgium to Denmark, in source order. */
  const Middle: seq<Alt> := [
    Alt("BE", Digits(10)),
    Alt("BG", Digits(9)),
    Alt("BG", Digits(10)),
    Alt("ES", [One(UpperAlnum)] + Digits(7) + [One(UpperAlnum)]),
    Alt("NL", Digits(9) + Lit("B") + Digits(2)),
    Alt("IE", Digits(1) + [One(IrishSecond)] + Digits(5) + [One(UpperLetter)]),
    Alt("IE", Digits(1) + [One(IrishSecond)] + Digits(5) + [One(UpperLetter), One(UpperLetter)]),
    Alt("GB", Digits(9)),
    Alt("GB", Digits(12)),
    Alt("GBGD", Digits(3)),
    Alt("GBHA", Digits(3)),
    Alt("XI", Digits(9)),
    Alt("XI", Digits(12)),
    Alt("XIGD", Digits(3)),
    Alt("XIHA", Digits(3)),
    Alt("IT", Digits(11)),
    Alt("ATU", Digits(8)),
    Alt("EL", Digits(9)),
    Alt("HR", Digits(11)),
    Alt("CY", Digits(10) + [One(UpperLetter)]),
    Alt("LV", Digits(11)),
    Alt("LT", Digits(9)),
    Alt("LT", Digits(12)),
    Alt("LU", Digits(8)),
    Alt("MT", Digits(8)),
    Alt("PT", Digits(9)),
    Alt("PL", Digits(10)),
    Alt("FR", [One(UpperAlnum), One(UpperAlnum)] + Digits(9)),
    Alt("RO", [Rep(Digit, 2, 10)]),
    Alt("SE", Digits(10) + Lit("01")),
    Alt("DE", Digits(9)),
    Alt("SK", Digits(11)),
    Alt("SI", Digits(9)),
    Alt("DK", Digits(9))
  ]

  const Czech := Alt("CZ", [Rep(Digit, 9, 10)])
  const Hungary := Alt("HU", Digits(9))
  const Estonia := Alt("EE", Digits(10))

  /** The Czech and Hungarian strings joined without a comma: one alternative
      `^CZ[0-9]{9,10}$^HU\d{9}$`. */
  const CzechHungary := Alt("CZ", [Rep(Digit, 9, 10), End, Start] + Lit("HU") + Digits(9))

  /** The alternatives as the source lists them. */
  function VatAltsAsWritten(): seq<Alt>
  {
    [Finland] + Middle + [CzechHungary] + [Estonia]
  }

  /** The alternatives with the missing comma restored. */
  function VatAltsIntended(): seq<Alt>
  {
    [Finland] + Middle + [Czech, Hungary] + [Estonia]
  }

  /** The text the pattern is searched in: `astype(str)` without spaces. */
  function VatText(c: Cell): (t: string)
    ensures ' ' !in t
  {
    var t := RemoveChar(StrForm(c), ' ');
    assert forall i :: 0 <= i < |t| ==> t[i] != ' ';
    t
  }

  /** `__are_valid_vat_numbers` for one element, as written. */
  predicate IsValidVat(c: Cell)
  {
    SearchAny(Patterns(VatAltsAsWritten()), VatText(c), true)
  }

  /** The same check with the Czech and Hungarian patterns separated. */
  predicate IsValidVatIntended(c: Cell)
  {
    SearchAny(Patterns(VatAltsIntended()), VatText(c), true)
  }

  /** `__are_valid_vat_numbers`: one result per element, in order. */
  function AreValidVatNumbers(values: seq<Cell>): (r: seq<bool>)
    ensures |r| == |values| && forall i :: 0 <= i < |values| ==> r[i] == IsValidVat(values[i])
  {
    seq(|values|, i requires 0 <= i < |values| => IsValidVat(values[i]))
  }

  /** `s` cannot start with the (case-folded) first two prefix letters of `a`. */
  predicate Gated(a: Alt, s: string)
    requires |a.prefix| >= 2
  {
    |s| < 2 || AsciiFold(s[0]) != AsciiFold(a.prefix[0]) || AsciiFold(s[1]) != AsciiFold(a.prefix[1])
  }

  lemma GateBlocks(a: Alt, s: string)
    requires |a.prefix| >= 2 && Gated(a, s)
    ensures !SearchFrom(Pattern(a), s, 0, true)
  {
    var p := Pattern(a);
    SearchAnchoredAt(p, s, 0, true);
    assert p[1..] == Lit(a.prefix) + (a.body + [End]);
    MatchOnes(Lit(a.prefix), a.body + [End], s, 0, true);
  }

  lemma {:induction false} GateBlocksAll(alts: seq<Alt>, s: string)
    requires forall k :: 0 <= k < |alts| ==> |alts[k].prefix| >= 2 && Gated(alts[k], s)
    ensures !SearchAny(Patterns(alts), s, true)
  {
    if alts != [] {
      GateBlocks(alts[0], s);
      assert Patterns(alts)[1..] == Patterns(alts[1..]);
      GateBlocksAll(alts[1..], s);
    }
  }

  lemma PatternsAppend(a: seq<Alt>, b: seq<Alt>)
    ensures Patterns(a + b) == Patterns(a) + Patterns(b)
  {
  }

  /** Searching the as-written alternatives is searching each part. */
  lemma SplitAsWritten(t: string)
    ensures SearchAny(Patterns(VatAltsAsWritten()), t, true) <==>
      SearchFrom(Pattern(Finland), t, 0, true) || SearchAny(Patterns(Middle), t, true)
      || SearchFrom(Pattern(CzechHungary), t, 0, true) || SearchFrom(Pattern(Estonia), t, 0, true)
  {
    PatternsAppend([Finland] + Middle + [CzechHungary], [Estonia]);
    PatternsAppend([Finland] + Middle, [CzechHungary]);
    PatternsAppend([Finland], Middle);
    var f := Patterns([Finland]);
    var m := Patterns(Middle);
    assert f == [Pattern(Finland)];
    assert Patterns([CzechHungary]) == [Pattern(CzechHungary)];
    assert Patterns([Estonia]) == [Pattern(Estonia)];
    SearchAnyAppend(f + m + [Pattern(CzechHungary)], [Pattern(Estonia)], t, true);
    SearchAnyAppend(f + m, [Pattern(CzechHungary)], t, true);
    SearchAnyAppend(f, m, t, true);
    SearchAnySingle(Pattern(Finland), t, true);
    SearchAnySingle(Pattern(CzechHungary), t, true);
    SearchAnySingle(Pattern(Estonia), t, true);
  }

  /** Searching the intended alternatives is searching each part. */
  lemma SplitIntended(t: string)
    ensures SearchAny(Patterns(VatAltsIntended()), t, true) <==>
      SearchFrom(Pattern(Finland), t, 0, true) || SearchAny(Patterns(Middle), t, true)
      || SearchFrom(Pattern(Czech), t, 0, true) || SearchFrom(Pattern(Hungary), t, 0, true)
      || SearchFrom(Pattern(Estonia), t, 0, true)
  {
    PatternsAppend([Finland] + Middle + [Czech, Hungary], [Estonia]);
    PatternsAppend([Finland] + Middle, [Czech, Hungary]);
    PatternsAppend([Finland], Middle);
    PatternsAppend([Czech], [Hungary]);
    assert [Czech] + [Hungary] == [Czech, Hungary];
    var f := Patterns([Finland]);
    var m := Patterns(Middle);
    var ch := Patterns([Czech, Hungary]);
    assert f == [Pattern(Finland)];
    assert Patterns([Czech]) == [Pattern(Czech)];
    assert Patterns([Hungary]) == [Pattern(Hungary)];
    assert Patterns([Estonia]) == [Pattern(Estonia)];
    assert ch == [Pattern(Czech)] + [Pattern(Hungary)];
    SearchAnyAppend(f + m + ch, [Pattern(Estonia)], t, true);
    SearchAnyAppend(f + m, ch, t, true);
    SearchAnyAppend(f, m, t, true);
    SearchAnyAppend([Pattern(Czech)], [Pattern(Hungary)], t, true);
    SearchAnySingle(Pattern(Finland), t, true);
    SearchAnySingle(Pattern(Czech), t, true);
    SearchAnySingle(Pattern(Hungary), t, true);
    SearchAnySingle(Pattern(Estonia), t, true);
  }

  /** The case-folded first two letters of the prefixes between Belgium and Denmark. */
  const MiddleHeads: set<(char, char)> := {
    ('b', 'e'), ('b', 'g'), ('e', 's'), ('n', 'l'), ('i', 'e'), ('g', 'b'), ('x', 'i'),
    ('i', 't'), ('a', 't'), ('e', 'l'), ('h', 'r'), ('c', 'y'), ('l', 'v'), ('l', 't'),
    ('l', 'u'), ('m', 't'), ('p', 't'), ('p', 'l'), ('f', 'r'), ('r', 'o'), ('s', 'e'),
    ('d', 'e'), ('s', 'k'), ('s', 'i'), ('d', 'k')}

  predicate HeadIn(a: Alt, heads: set<(char, char)>)
  {
    |a.prefix| >= 2 && (AsciiFold(a.prefix[0]), AsciiFold(a.prefix[1])) in heads
  }

  /** A text whose folded first two letters start none of the prefixes matches none
      of the alternatives. */
  lemma GateBlocksHeads(alts: seq<Alt>, heads: set<(char, char)>, s: string)
    requires forall k :: 0 <= k < |alts| ==> HeadIn(alts[k], heads)
    requires |s| >= 2 && (AsciiFold(s[0]), AsciiFold(s[1])) !in heads
    ensures !SearchAny(Patterns(alts), s, true)
  {
    GateBlocksAll(alts, s);
  }

  lemma MiddleHeadsCover()
    ensures forall k :: 0 <= k < |Middle| ==> HeadIn(Middle[k], MiddleHeads)
  {
    MiddleHeadsLow();
    MiddleHeadsMid();
    MiddleHeadsHigh();
  }

  /** The first twelve alternatives (kept apart to keep each proof small). */
  lemma MiddleHeadsLow()
    ensures forall k :: 0 <= k < 12 ==> HeadIn(Middle[k], MiddleHeads)
  {
    forall k | 0 <= k < 12 ensures HeadIn(Middle[k], MiddleHeads) { }
  }

  /** The next twelve. */
  lemma MiddleHeadsMid()
    ensures forall k :: 12 <= k < 24 ==> HeadIn(Middle[k], MiddleHeads)
  {
    forall k | 12 <= k < 24 ensures HeadIn(Middle[k], MiddleHeads) { }
  }

  /** The rest. */
  lemma MiddleHeadsHigh()
    ensures forall k :: 24 <= k < |Middle| ==> HeadIn(Middle[k], MiddleHeads)
  {
    forall k | 24 <= k < |Middle| ensures HeadIn(Middle[k], MiddleHeads) { }
  }

  /** Text starting with "fi" (any case) matches no alternative between Belgium
      and Denmark. */
  lemma MiddleGatedForFinland(s: string)
    requires |s| >= 2 && AsciiFold(s[0]) == 'f' && AsciiFold(s[1]) == 'i'
    ensures !SearchAny(Patterns(Middle), s, true)
  {
    MiddleHeadsCover();
    GateBlocksHeads(Middle, MiddleHeads, s);
  }

  lemma MiddleGatedForCzech(s: string)
    requires |s| >= 2 && AsciiFold(s[0]) == 'c' && AsciiFold(s[1]) == 'z'
    ensures !SearchAny(Patterns(Middle), s, true)
  {
    MiddleHeadsCover();
    GateBlocksHeads(Middle, MiddleHeads, s);
  }

  lemma MiddleGatedForHungary(s: string)
    requires |s| >= 2 && AsciiFold(s[0]) == 'h' && AsciiFold(s[1]) == 'u'
    ensures !SearchAny(Patterns(Middle), s, true)
  {
    MiddleHeadsCover();
    GateBlocksHeads(Middle, MiddleHeads, s);
  }

  /** The joined Czech-Hungarian alternative matches nothing: after `^CZ` and at
      least nine digits the second `^` would have to sit at position 0. */
  lemma CzechHungaryNeverMatches(s: string)
    ensures !SearchFrom(Pattern(CzechHungary), s, 0, true)
  {
    var p := Pattern(CzechHungary);
    var tail := [Rep(Digit, 9, 10), End, Start] + Lit("HU") + Digits(9) + [End];
    SearchAnchoredAt(p, s, 0, true);
    assert p[1..] == Lit("CZ") + tail;
    MatchOnes(Lit("CZ"), tail, s, 0, true);
    assert tail[1..][0] == End && tail[1..][1..][0] == Start;
    if 2 <= |s| && MatchAt(tail, s, 2, true) {
      var j := RepAdvances(Digit, 9, 10, tail[1..], s, 2, true);
    }
  }

  /** "FI" in any case followed by exactly eight digits (and possibly a final
      newline) is what the Finnish alternative accepts. */
  lemma FinnishPatternIff(t: string)
    ensures SearchFrom(Pattern(Finland), t, 0, true) <==>
      |t| >= 2 && AsciiFold(t[0]) == 'f' && AsciiFold(t[1]) == 'i'
      && (|t| == 10 || (|t| == 11 && t[10] == '\n')) && AllDigits(t[2..10])
  {
    var body := Lit("FI") + Digits(8);
    assert Pattern(Finland) == Anchored(body);
    assert AllOne(body);
    AnchoredOnes(body, t, true);
    assert forall k :: 2 <= k < 10 ==> body[k] == One(Digit);
    assert body[0] == One(Exactly('F')) && body[1] == One(Exactly('I'));
    if |t| >= 10 {
      assert forall k :: 2 <= k < 10 ==> (IsDigit(t[k]) <==> IsDigit(t[2..10][k - 2]));
    }
  }

  /** Finnish VAT numbers: once spaces are removed, a text starting with "FI" in
      any case is valid exactly when eight digits (and possibly a final newline)
      follow. */
  lemma FinnishVatIff(c: Cell)
    requires var t := VatText(c); |t| >= 2 && AsciiFold(t[0]) == 'f' && AsciiFold(t[1]) == 'i'
    ensures var t := VatText(c);
      IsValidVat(c) <==> (|t| == 10 || (|t| == 11 && t[10] == '\n')) && AllDigits(t[2..10])
  {
    var t := VatText(c);
    SplitAsWritten(t);
    MiddleGatedForFinland(t);
    CzechHungaryNeverMatches(t);
    GateBlocks(Estonia, t);
    FinnishPatternIff(t);
  }

  /** "FI" (any case) followed by eight digits is accepted, however the spaces
      were spread in the original text. */
  lemma FinnishVatAccepted(c: Cell, d: string)
    requires |d| == 8 && AllDigits(d)
    requires VatText(c) == "FI" + d || VatText(c) == "fi" + d
    ensures IsValidVat(c)
  {
    var t := VatText(c);
    assert t[2..10] == d;
    FinnishVatIff(c);
  }

  lemma {:induction false} RemoveCharIdempotent(s: string, x: char)
    ensures RemoveChar(RemoveChar(s, x), x) == RemoveChar(s, x)
  {
    if s != [] {
      RemoveCharIdempotent(s[1..], x);
      if s[0] != x {
        assert RemoveChar(s, x) == [s[0]] + RemoveChar(s[1..], x);
        assert RemoveChar(s, x)[1..] == RemoveChar(s[1..], x);
      } else {
        assert RemoveChar(s, x) == [] + RemoveChar(s[1..], x) == RemoveChar(s[1..], x);
      }
    }
  }

  lemma FoldAppend(a: string, b: string)
    ensures FoldText(a + b) == FoldText(a) + FoldText(b)
  {
  }

  lemma {:induction false} RemoveSpaceFolds(s: string)
    ensures RemoveChar(FoldText(s), ' ') == FoldText(RemoveChar(s, ' '))
  {
    if s != [] {
      RemoveSpaceFolds(s[1..]);
      var f := FoldText(s);
      assert f[1..] == FoldText(s[1..]);
      assert f[0] == ' ' <==> s[0] == ' ';
      var rest := RemoveChar(s[1..], ' ');
      if s[0] != ' ' {
        FoldAppend([s[0]], rest);
        assert FoldText([s[0]]) == [f[0]];
      }
    }
  }

  /** Spaces anywhere in the text make no difference. */
  lemma VatIgnoresSpaces(s: string)
    ensures IsValidVat(Str(s)) == IsValidVat(Str(RemoveChar(s, ' ')))
  {
    RemoveCharIdempotent(s, ' ');
  }

  /** Case makes no difference. */
  lemma VatIgnoresCase(s: string)
    ensures IsValidVat(Str(s)) == IsValidVat(Str(FoldText(s)))
  {
    RemoveSpaceFolds(s);
    SearchAnyIgnoresCase(Patterns(VatAltsAsWritten()), VatText(Str(s)));
  }

  /** As written, Czech and Hungarian numbers are rejected whatever follows the
      prefix. */
  lemma CzechAndHungarianAlwaysRejected(c: Cell)
    requires |VatText(c)| >= 2
    requires (AsciiFold(VatText(c)[0]) == 'c' && AsciiFold(VatText(c)[1]) == 'z')
      || (AsciiFold(VatText(c)[0]) == 'h' && AsciiFold(VatText(c)[1]) == 'u')
    ensures !IsValidVat(c)
  {
    var t := VatText(c);
    SplitAsWritten(t);
    GateBlocks(Finland, t);
    if AsciiFold(t[0]) == 'c' {
      MiddleGatedForCzech(t);
    } else {
      MiddleGatedForHungary(t);
    }
    CzechHungaryNeverMatches(t);
    GateBlocks(Estonia, t);
  }

  /** With the comma restored, "CZ" followed by nine or ten digits is accepted;
      as written it is not. */
  lemma CzechIntended(c: Cell, d: string)
    requires AllDigits(d) && 9 <= |d| <= 10
    requires VatText(c) == "CZ" + d || VatText(c) == "cz" + d
    ensures IsValidVatIntended(c) && !IsValidVat(c)
  {
    CzechAndHungarianAlwaysRejected(c);
    SplitIntended(VatText(c));
    CzechPatternAccepts(VatText(c), d);
  }

  /** The separated Czech alternative accepts "CZ" (any case) and nine or ten digits. */
  lemma CzechPatternAccepts(t: string, d: string)
    requires AllDigits(d) && 9 <= |d| <= 10
    requires t == "CZ" + d || t == "cz" + d
    ensures SearchFrom(Pattern(Czech), t, 0, true)
  {
    var tail := [Rep(Digit, 9, 10), End];
    assert Pattern(Czech)[1..] == Lit("CZ") + tail;
    SearchAnchoredAt(Pattern(Czech), t, 0, true);
    MatchOnes(Lit("CZ"), tail, t, 0, true);
    assert forall k :: 2 <= k < |t| ==> IsDigit(t[k]) by {
      forall k | 2 <= k < |t| ensures IsDigit(t[k]) { assert t[k] == d[k - 2]; }
    }
    DigitRunMatches(9, 10, t, 2);
  }

  /** `\d{lo,hi}$` matches a run of between `lo` and `hi` digits ending the text. */
  lemma {:induction false} DigitRunMatches(lo: nat, hi: nat, t: string, i: nat)
    requires i <= |t| && lo <= |t| - i <= hi
    requires forall k :: i <= k < |t| ==> IsDigit(t[k])
    ensures RepAt(Digit, lo, hi, [End], t, i, true)
    decreases hi
  {
    if i < |t| {
      if lo > 0 {
        DigitRunMatches(lo - 1, hi - 1, t, i + 1);
      } else {
        DigitRunMatches(0, hi - 1, t, i + 1);
      }
    }
  }

  /** With the comma restored, "HU" followed by nine digits is accepted; as
      written it is not. */
  lemma HungaryIntended(c: Cell, d: string)
    requires AllDigits(d) && |d| == 9
    requires VatText(c) == "HU" + d || VatText(c) == "hu" + d
    ensures IsValidVatIntended(c) && !IsValidVat(c)
  {
    CzechAndHungarianAlwaysRejected(c);
    SplitIntended(VatText(c));
    HungaryPatternAccepts(VatText(c), d);
  }

  /** The separated Hungarian alternative accepts "HU" (any case) and nine digits. */
  lemma HungaryPatternAccepts(t: string, d: string)
    requires AllDigits(d) && |d| == 9
    requires t == "HU" + d || t == "hu" + d
    ensures SearchFrom(Pattern(Hungary), t, 0, true)
  {
    var body := Lit("HU") + Digits(9);
    assert Pattern(Hungary) == Anchored(body);
    assert AllOne(body);
    AnchoredOnes(body, t, true);
    assert forall k :: 2 <= k < |t| ==> body[k] == One(Digit) && t[k] == d[k - 2];
  }

  /** The missing comma only removes matches: every number accepted as written is
      accepted by the intended list, and the two agree on every number that
      neither the Czech nor the Hungarian alternative matches. */
  lemma AsWrittenVersusIntended(c: Cell)
    ensures IsValidVat(c) ==> IsValidVatIntended(c)
    ensures (IsValidVatIntended(c) && !SearchFrom(Pattern(Czech), VatText(c), 0, true)
      && !SearchFrom(Pattern(Hungary), VatText(c), 0, true)) ==> IsValidVat(c)
  {
    var t := VatText(c);
    SplitAsWritten(t);
    SplitIntended(t);
    CzechHungaryNeverMatches(t);
  }
}
