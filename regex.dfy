/** The fragment of Python's `re` that the identifier checks use: character
    classes, bounded repetition and the anchors `^` (start of text) and `$` (end
    of text, or just before a final newline), searched anywhere in the text as
    `Series.str.contains` does. A pattern is a list of alternatives, each a
    sequence of pieces. */
module Regex {
  import opened Common

  datatype Class =
    | Exactly(c: char)   // a literal character
    | Digit              // \d
    | UpperAlnum         // [A-Z0-9]
    | UpperLetter        // [A-Z]
    | IrishSecond        // [A-Z0-9_.-/\+=(){}?!]: `.-/` is the range '.'..'/', so '-' itself is not in it

  datatype Piece = Start | End | One(cls: Class) | Rep(rcls: Class, lo: nat, hi: nat)

  /** Case folding of re.IGNORECASE, for the ASCII letters every pattern here uses. */
  function AsciiFold(c: char): (r: char)
    ensures 'a' <= r <= 'z' <==> ('a' <= c <= 'z' || 'A' <= c <= 'Z')
  {
    if 'A' <= c <= 'Z' then (c as int + 32) as char else c
  }

  predicate IsLetter(x: char, icase: bool)
  {
    'A' <= x <= 'Z' || (icase && 'a' <= x <= 'z')
  }

  predicate InClass(cls: Class, x: char, icase: bool)
  {
    match cls
    case Exactly(c) => if icase then AsciiFold(x) == AsciiFold(c) else x == c
    case Digit => IsDigit(x)
    case UpperLetter => IsLetter(x, icase)
    case UpperAlnum => IsLetter(x, icase) || IsDigit(x)
    case IrishSecond =>
      IsLetter(x, icase) || IsDigit(x) || x in {'_', '.', '/', '+', '=', '(', ')', '{', '}', '?', '!'}
  }

  /** `$`: the end of the text, or the position of a final newline. */
  predicate AtEnd(s: string, i: nat)
  {
    i == |s| || (i + 1 == |s| && s[i] == '\n')
  }

  /** Does the piece sequence `p` match `s` starting at position `i`? Repetition
      tries every admissible count, as backtracking does. */
  predicate MatchAt(p: seq<Piece>, s: string, i: nat, icase: bool)
    requires i <= |s|
    decreases |p|, 1, 0
  {
    if p == [] then true
    else match p[0]
      case Start => i == 0 && MatchAt(p[1..], s, i, icase)
      case End => AtEnd(s, i) && MatchAt(p[1..], s, i, icase)
      case One(c) => i < |s| && InClass(c, s[i], icase) && MatchAt(p[1..], s, i + 1, icase)
      case Rep(c, lo, hi) => RepAt(c, lo, hi, p[1..], s, i, icase)
  }

  /** `c{lo,hi}` followed by `rest`, at position `i`. */
  predicate RepAt(c: Class, lo: nat, hi: nat, rest: seq<Piece>, s: string, i: nat, icase: bool)
    requires i <= |s|
    decreases |rest| + 1, 0, hi
  {
    if lo > 0 then
      hi > 0 && i < |s| && InClass(c, s[i], icase) && RepAt(c, lo - 1, hi - 1, rest, s, i + 1, icase)
    else
      MatchAt(rest, s, i, icase)
      || (hi > 0 && i < |s| && InClass(c, s[i], icase) && RepAt(c, 0, hi - 1, rest, s, i + 1, icase))
  }

  /** re.search: a match starting at `i` or later. */
  predicate SearchFrom(p: seq<Piece>, s: string, i: nat, icase: bool)
    requires i <= |s|
    decreases |s| - i
  {
    MatchAt(p, s, i, icase) || (i < |s| && SearchFrom(p, s, i + 1, icase))
  }

  /** re.search with the alternatives joined by `|`. */
  predicate SearchAny(alts: seq<seq<Piece>>, s: string, icase: bool)
  {
    alts != [] && (SearchFrom(alts[0], s, 0, icase) || SearchAny(alts[1..], s, icase))
  }

  /** One literal piece per character. */
  function Lit(t: string): (p: seq<Piece>)
    ensures |p| == |t| && forall k :: 0 <= k < |t| ==> p[k] == One(Exactly(t[k]))
  {
    seq(|t|, k requires 0 <= k < |t| => One(Exactly(t[k])))
  }

  /** `\d` repeated `n` times. */
  function Digits(n: nat): (p: seq<Piece>)
    ensures |p| == n && forall k :: 0 <= k < n ==> p[k] == One(Digit)
  {
    seq(n, k => One(Digit))
  }

  /** `^body$`. */
  function Anchored(body: seq<Piece>): (p: seq<Piece>)
    ensures |p| == |body| + 2 && p[0] == Start && p[|p| - 1] == End
  {
    [Start] + body + [End]
  }

  predicate AllOne(p: seq<Piece>)
  {
    forall k :: 0 <= k < |p| ==> p[k].One?
  }

  /** A sequence of single-character pieces matches exactly where each character
      falls in its class. */
  lemma {:induction false} MatchOnes(p: seq<Piece>, rest: seq<Piece>, s: string, i: nat, icase: bool)
    requires AllOne(p) && i <= |s|
    ensures MatchAt(p + rest, s, i, icase) <==>
      i + |p| <= |s|
      && (forall k :: 0 <= k < |p| ==> InClass(p[k].cls, s[i + k], icase))
      && MatchAt(rest, s, i + |p|, icase)
    decreases |p|
  {
    if p == [] {
      assert p + rest == rest;
    } else {
      assert (p + rest)[0] == p[0];
      assert (p + rest)[1..] == p[1..] + rest;
      if i < |s| && InClass(p[0].cls, s[i], icase) {
        MatchOnes(p[1..], rest, s, i + 1, icase);
        if MatchAt(p[1..] + rest, s, i + 1, icase) {
          assert forall k :: 1 <= k < |p| ==> InClass(p[k].cls, s[i + k], icase) by {
            forall k | 1 <= k < |p|
              ensures InClass(p[k].cls, s[i + k], icase)
            {
              assert p[1..][k - 1] == p[k];
            }
          }
        }
      }
    }
  }

  /** A pattern beginning with `^` can only match at position 0. */
  lemma {:induction false} SearchAnchoredAt(p: seq<Piece>, s: string, i: nat, icase: bool)
    requires p != [] && p[0] == Start && i <= |s|
    ensures SearchFrom(p, s, i, icase) <==> (i == 0 && MatchAt(p, s, 0, icase))
    decreases |s| - i
  {
    if i < |s| {
      SearchAnchoredAt(p, s, i + 1, icase);
    }
  }

  /** `^body$` with single-character pieces: the text is exactly as long as the
      body (plus possibly a final newline) and every character is in its class. */
  lemma AnchoredOnes(body: seq<Piece>, s: string, icase: bool)
    requires AllOne(body)
    ensures SearchFrom(Anchored(body), s, 0, icase) <==>
      (|s| == |body| || (|s| == |body| + 1 && s[|body|] == '\n'))
      && forall k :: 0 <= k < |body| ==> InClass(body[k].cls, s[k], icase)
  {
    var p := Anchored(body);
    SearchAnchoredAt(p, s, 0, icase);
    assert p[1..] == body + [End];
    if |body| <= |s| {
      MatchOnes(body, [End], s, 0, icase);
      assert [End][1..] == [];
    } else {
      MatchOnes(body, [End], s, 0, icase);
    }
  }

  /** A repetition consumes at least `lo` characters before `rest` matches. */
  lemma {:induction false} RepAdvances(c: Class, lo: nat, hi: nat, rest: seq<Piece>, s: string, i: nat, icase: bool)
    returns (j: nat)
    requires i <= |s| && RepAt(c, lo, hi, rest, s, i, icase)
    ensures i + lo <= j <= |s| && MatchAt(rest, s, j, icase)
    decreases hi
  {
    if lo > 0 {
      j := RepAdvances(c, lo - 1, hi - 1, rest, s, i + 1, icase);
    } else if MatchAt(rest, s, i, icase) {
      j := i;
    } else {
      j := RepAdvances(c, 0, hi - 1, rest, s, i + 1, icase);
    }
  }

  /** `|` splits over concatenated alternative lists. */
  lemma {:induction false} SearchAnyAppend(a: seq<seq<Piece>>, b: seq<seq<Piece>>, s: string, icase: bool)
    ensures SearchAny(a + b, s, icase) <==> SearchAny(a, s, icase) || SearchAny(b, s, icase)
    decreases |a|
  {
    if a == [] {
      assert a + b == b;
    } else {
      assert (a + b)[0] == a[0];
      assert (a + b)[1..] == a[1..] + b;
      SearchAnyAppend(a[1..], b, s, icase);
    }
  }

  /** A single alternative. */
  lemma SearchAnySingle(p: seq<Piece>, s: string, icase: bool)
    ensures SearchAny([p], s, icase) <==> SearchFrom(p, s, 0, icase)
  {
    assert [p][1..] == [];
  }

  /** The text with every ASCII capital folded to lower case. */
  function FoldText(s: string): (r: string)
    ensures |r| == |s| && forall k :: 0 <= k < |s| ==> r[k] == AsciiFold(s[k])
  {
    seq(|s|, k requires 0 <= k < |s| => AsciiFold(s[k]))
  }

  lemma ClassIgnoresCase(cls: Class, x: char)
    ensures InClass(cls, x, true) == InClass(cls, AsciiFold(x), true)
  {
  }

  /** Under re.IGNORECASE a match does not depend on the case of the text. */
  lemma {:induction false} MatchIgnoresCase(p: seq<Piece>, s: string, i: nat)
    requires i <= |s|
    ensures MatchAt(p, s, i, true) == MatchAt(p, FoldText(s), i, true)
    decreases |p|, 1, 0
  {
    var f := FoldText(s);
    if p != [] {
      match p[0]
      case Start => MatchIgnoresCase(p[1..], s, i);
      case End => MatchIgnoresCase(p[1..], s, i);
      case One(c) =>
        if i < |s| {
          ClassIgnoresCase(c, s[i]);
          MatchIgnoresCase(p[1..], s, i + 1);
        }
      case Rep(c, lo, hi) => RepIgnoresCase(c, lo, hi, p[1..], s, i);
    }
  }

  lemma {:induction false} RepIgnoresCase(c: Class, lo: nat, hi: nat, rest: seq<Piece>, s: string, i: nat)
    requires i <= |s|
    ensures RepAt(c, lo, hi, rest, s, i, true) == RepAt(c, lo, hi, rest, FoldText(s), i, true)
    decreases |rest| + 1, 0, hi
  {
    if i < |s| {
      ClassIgnoresCase(c, s[i]);
    }
    if lo > 0 {
      if hi > 0 && i < |s| {
        RepIgnoresCase(c, lo - 1, hi - 1, rest, s, i + 1);
      }
    } else {
      MatchIgnoresCase(rest, s, i);
      if hi > 0 && i < |s| {
        RepIgnoresCase(c, 0, hi - 1, rest, s, i + 1);
      }
    }
  }

  lemma {:induction false} SearchIgnoresCase(p: seq<Piece>, s: string, i: nat)
    requires i <= |s|
    ensures SearchFrom(p, s, i, true) == SearchFrom(p, FoldText(s), i, true)
    decreases |s| - i
  {
    MatchIgnoresCase(p, s, i);
    if i < |s| {
      SearchIgnoresCase(p, s, i + 1);
    }
  }

  lemma {:induction false} SearchAnyIgnoresCase(alts: seq<seq<Piece>>, s: string)
    ensures SearchAny(alts, s, true) == SearchAny(alts, FoldText(s), true)
  {
    if alts != [] {
      SearchIgnoresCase(alts[0], s, 0);
      SearchAnyIgnoresCase(alts[1..], s);
    }
  }
}
