/**
 * The pressure value parser (`converter_pressao`, main.py lines 7-17).
 *
 * A raw spreadsheet cell becomes an optional number. A numeric cell is returned
 * as it is; a text cell has every ',' replaced by '.' and is then searched for
 * the leftmost match of the regular expression `-?\d+\.?\d*`, whose text is
 * converted to a number; everything else gives "no value". The regular
 * expression is modelled twice: once as a left-to-right scanner (FindMatch,
 * MatchEnd, MatchValue) and once as a declarative description of the language
 * it accepts (IsNumberToken, TokenValue); the lemmas connect the two.
 */
module PressureParser {
  import opened Wrappers

  /** A spreadsheet cell as the loader hands it over. */
  datatype Cell =
    | Number(x: real)   // an int or float cell
    | NotANumber        // a float NaN, which is what an empty cell holds
    | Text(s: string)
    | Other             // a cell of any other type (a date, say)

  predicate IsDigit(c: char) {
    '0' <= c <= '9'
  }

  predicate AllDigits(s: string) {
    forall i :: 0 <= i < |s| ==> IsDigit(s[i])
  }

  function DigitValue(c: char): (d: nat)
    requires IsDigit(c)
    ensures d < 10
  {
    c as int - '0' as int
  }

  // ---------------------------------------------------------------------------
  // Normalising decimal commas

  /** Every ',' becomes '.', every other character stays where it was. */
  function ReplaceCommas(s: string): (r: string)
    ensures |r| == |s|
    ensures forall i :: 0 <= i < |s| ==> r[i] == (if s[i] == ',' then '.' else s[i])
  {
    seq(|s|, i requires 0 <= i < |s| => if s[i] == ',' then '.' else s[i])
  }

  // ---------------------------------------------------------------------------
  // The language of `-?\d+\.?\d*`, stated declaratively

  /** Length of the optional leading minus sign of a candidate token. */
  function SignLength(t: string): (k: nat)
    ensures k <= 1 && k <= |t|
    ensures k == 1 <==> (|t| > 0 && t[0] == '-')
  {
    if |t| > 0 && t[0] == '-' then 1 else 0
  }

  /**
   * `t` splits as: optional '-', then the digits t[k..p] (at least one), then
   * either nothing, or a '.' followed only by digits.
   */
  predicate NumberTokenSplit(t: string, p: nat) {
    var k := SignLength(t);
    k < p <= |t| && AllDigits(t[k..p]) &&
    (p == |t| || (t[p] == '.' && AllDigits(t[p + 1..])))
  }

  /** `t` is in the language of the regular expression `-?\d+\.?\d*`. */
  ghost predicate IsNumberToken(t: string) {
    exists p: nat :: NumberTokenSplit(t, p)
  }

  /** The digit string `ds` read as a decimal natural number. */
  function DecimalNat(ds: string): nat
    requires AllDigits(ds)
  {
    if ds == [] then 0 else 10 * DecimalNat(ds[..|ds| - 1]) + DigitValue(ds[|ds| - 1])
  }

  function Pow10(n: nat): (r: nat)
    ensures r >= 1
  {
    if n == 0 then 1 else 10 * Pow10(n - 1)
  }

  /** The digit string `ds` read as the digits after a decimal point. */
  function Fraction(ds: string): real
    requires AllDigits(ds)
  {
    DecimalNat(ds) as real / Pow10(|ds|) as real
  }

  /** What `float()` gives for a token: sign, integer part and fraction part. */
  ghost function TokenValue(t: string): real
    requires IsNumberToken(t)
  {
    var p: nat :| NumberTokenSplit(t, p);
    SplitValue(t, p)
  }

  /** The value of `t` read with its integer digits ending at `p`. */
  function SplitValue(t: string, p: nat): real
    requires NumberTokenSplit(t, p)
  {
    var magnitude := DecimalNat(t[SignLength(t)..p]) as real + (if p < |t| then Fraction(t[p + 1..]) else 0.0);
    if SignLength(t) == 1 then -magnitude else magnitude
  }

  // ---------------------------------------------------------------------------
  // The scanner

  /** A match of the expression can begin at `i`: a digit, or a '-' directly followed by a digit. */
  predicate StartsMatch(s: string, i: nat) {
    i < |s| && (IsDigit(s[i]) || (s[i] == '-' && i + 1 < |s| && IsDigit(s[i + 1])))
  }

  /** The leftmost position at or after `from` where a match begins. */
  function FindMatch(s: string, from: nat): (r: Option<nat>)
    requires from <= |s|
    ensures r.Some? ==> from <= r.value < |s| && StartsMatch(s, r.value)
    ensures r.Some? ==> forall j :: from <= j < r.value ==> !StartsMatch(s, j)
    ensures r.None? ==> forall j :: from <= j < |s| ==> !StartsMatch(s, j)
    decreases |s| - from
  {
    if from == |s| then None
    else if StartsMatch(s, from) then Some(from)
    else FindMatch(s, from + 1)
  }

  /** The end of the run of digits that starts at `j` (greedy `\d*`). */
  function DigitRunEnd(s: string, j: nat): (k: nat)
    requires j <= |s|
    ensures j <= k <= |s|
    ensures forall i :: j <= i < k ==> IsDigit(s[i])
    ensures k == |s| || !IsDigit(s[k])
    decreases |s| - j
  {
    if j < |s| && IsDigit(s[j]) then DigitRunEnd(s, j + 1) else j
  }

  /** End of the integer digits of the match that begins at `i`. */
  function IntegerEnd(s: string, i: nat): (m: nat)
    requires StartsMatch(s, i)
    ensures i < m <= |s|
  {
    var j := if s[i] == '-' then i + 1 else i;
    DigitRunEnd(s, j)
  }

  /** End of the greedy match that begins at `i`: digits, then an optional '.' and its digits. */
  function MatchEnd(s: string, i: nat): (e: nat)
    requires StartsMatch(s, i)
    ensures IntegerEnd(s, i) <= e <= |s|
  {
    var m := IntegerEnd(s, i);
    if m < |s| && s[m] == '.' then DigitRunEnd(s, m + 1) else m
  }

  /** The greedy match is a token, and no longer token begins at the same place. */
  lemma MatchEndIsLongest(s: string, i: nat)
    requires StartsMatch(s, i)
    ensures IsNumberToken(s[i..MatchEnd(s, i)])
    ensures forall e' :: MatchEnd(s, i) < e' <= |s| ==> !IsNumberToken(s[i..e'])
  {
    var m := IntegerEnd(s, i);
    var e := MatchEnd(s, i);
    MatchIsToken(s, i, m, e);
    forall e' | i < e' <= |s| && IsNumberToken(s[i..e'])
      ensures e' <= e
    {
      TokenWithinMatch(s, i, e');
    }
  }

  /** The numeric value of the greedy match that begins at `i`. */
  function MatchValue(s: string, i: nat): real
    requires StartsMatch(s, i)
  {
    var j := if s[i] == '-' then i + 1 else i;
    var m := IntegerEnd(s, i);
    var magnitude := DecimalNat(s[j..m]) as real +
      (if m < |s| && s[m] == '.' then Fraction(s[m + 1..DigitRunEnd(s, m + 1)]) else 0.0);
    if s[i] == '-' then -magnitude else magnitude
  }

  /** The match found at `i` is a token, split after its integer digits. */
  lemma MatchIsToken(s: string, i: nat, m: nat, e: nat)
    requires StartsMatch(s, i) && m == IntegerEnd(s, i)
    requires e == if m < |s| && s[m] == '.' then DigitRunEnd(s, m + 1) else m
    ensures i < m <= e <= |s|
    ensures NumberTokenSplit(s[i..e], m - i)
  {
    var k := if s[i] == '-' then 1 else 0;
    assert m == DigitRunEnd(s, i + k);
    assert m < e ==> e == DigitRunEnd(s, m + 1);
    SplitOfRuns(s, i, k, m, e);
  }

  /** A sign, a run of digits and an optional '.' with a second run form a token. */
  lemma SplitOfRuns(s: string, i: nat, k: nat, m: nat, e: nat)
    requires i + k < m <= e <= |s|
    requires k == (if s[i] == '-' then 1 else 0)
    requires forall x :: i + k <= x < m ==> IsDigit(s[x])
    requires m == e || (s[m] == '.' && forall x :: m < x < e ==> IsDigit(s[x]))
    ensures NumberTokenSplit(s[i..e], m - i)
  {
    var t := s[i..e];
    assert t[0] == s[i];
    assert SignLength(t) == k;
    var ds := t[k..m - i];
    forall x | 0 <= x < |ds|
      ensures IsDigit(ds[x])
    {
      assert ds[x] == t[k + x];
      assert t[k + x] == s[i + k + x];
    }
    if m < e {
      assert t[m - i] == s[m];
      var fs := t[m - i + 1..];
      forall x | 0 <= x < |fs|
        ensures IsDigit(fs[x])
      {
        assert fs[x] == t[m - i + 1 + x];
        assert t[m - i + 1 + x] == s[m + 1 + x];
      }
    }
  }

  /** No token that begins where the scanner starts reaches past the greedy match. */
  lemma TokenWithinMatch(s: string, i: nat, e': nat)
    requires StartsMatch(s, i) && i < e' <= |s|
    requires IsNumberToken(s[i..e'])
    ensures var m := IntegerEnd(s, i);
      e' <= if m < |s| && s[m] == '.' then DigitRunEnd(s, m + 1) else m
  {
    var m := IntegerEnd(s, i);
    if m < e' {
      var t := s[i..e'];
      var p: nat :| NumberTokenSplit(t, p);
      SplitAtIntegerEnd(s, i, e', p);
      assert p < |t| && t[p] == s[m] == '.';
      var fs := t[p + 1..];
      forall x | m + 1 <= x < e'
        ensures IsDigit(s[x])
      {
        assert s[x] == t[x - i] == fs[x - m - 1];
      }
      DigitRunEndMaximal(s, m + 1, e');
    }
  }

  /** The digit run starting at `j` reaches at least as far as any run of digits from `j`. */
  lemma {:induction false} DigitRunEndMaximal(s: string, j: nat, b: nat)
    requires j <= b <= |s|
    requires forall x :: j <= x < b ==> IsDigit(s[x])
    ensures b <= DigitRunEnd(s, j)
    decreases b - j
  {
    if j < b {
      DigitRunEndMaximal(s, j + 1, b);
    }
  }

  /**
   * Any split of a token s[i..e'] that reaches at least to the end of the
   * integer digits sits exactly at the end of the integer digits.
   */
  lemma SplitAtIntegerEnd(s: string, i: nat, e': nat, p: nat)
    requires StartsMatch(s, i) && i < e' <= |s|
    requires IntegerEnd(s, i) <= e'
    requires NumberTokenSplit(s[i..e'], p)
    ensures i + p == IntegerEnd(s, i)
  {
    var t := s[i..e'];
    var m := IntegerEnd(s, i);
    var k := SignLength(t);
    assert t[0] == s[i];
    assert k == (if s[i] == '-' then 1 else 0);
    var ds := t[k..p];
    forall x | i + k <= x < i + p
      ensures IsDigit(s[x])
    {
      assert s[x] == t[x - i] == ds[x - i - k];
    }
    DigitRunEndMaximal(s, i + k, i + p);
    assert p < |t| ==> s[i + p] == t[p];
  }

  /** A token can only begin where the scanner looks for one. */
  lemma TokenStartsMatch(s: string, i: nat, e: nat)
    requires i <= e <= |s|
    requires IsNumberToken(s[i..e])
    ensures StartsMatch(s, i)
  {
    var t := s[i..e];
    var p: nat :| NumberTokenSplit(t, p);
    var k := SignLength(t);
    assert t[k..p][0] == t[k] == s[i + k];
  }

  /** The scanner's value of a match is the value of the token it spans. */
  lemma MatchValueIsTokenValue(s: string, i: nat)
    requires StartsMatch(s, i)
    ensures IsNumberToken(s[i..MatchEnd(s, i)])
    ensures MatchValue(s, i) == TokenValue(s[i..MatchEnd(s, i)])
  {
    var t := s[i..MatchEnd(s, i)];
    var p := IntegerEnd(s, i) - i;
    MatchIsToken(s, i, IntegerEnd(s, i), MatchEnd(s, i));
    OnlySplitOfMatch(s, i);
    TokenValueAtSplit(t, p);
    MatchValueIsSplitValue(s, i);
  }

  /** The scanner's value is the value of the match split after its integer digits. */
  lemma MatchValueIsSplitValue(s: string, i: nat)
    requires StartsMatch(s, i)
    requires NumberTokenSplit(s[i..MatchEnd(s, i)], IntegerEnd(s, i) - i)
    ensures MatchValue(s, i) == SplitValue(s[i..MatchEnd(s, i)], IntegerEnd(s, i) - i)
  {
    var e := MatchEnd(s, i);
    var m := IntegerEnd(s, i);
    var t := s[i..e];
    var k := if s[i] == '-' then 1 else 0;
    SignOfSlice(s, i, e);
    SliceOfSlice(s, i, e, i + k, m);
    if m < e {
      SliceOfSlice(s, i, e, m + 1, e);
      assert t[m - i + 1..] == s[m + 1..e];
    }
  }

  /** The greedy match splits only after its integer digits. */
  lemma OnlySplitOfMatch(s: string, i: nat)
    requires StartsMatch(s, i)
    ensures forall p: nat :: NumberTokenSplit(s[i..MatchEnd(s, i)], p) ==> p == IntegerEnd(s, i) - i
  {
    var e := MatchEnd(s, i);
    forall p: nat | NumberTokenSplit(s[i..e], p)
      ensures p == IntegerEnd(s, i) - i
    {
      SplitAtIntegerEnd(s, i, e, p);
    }
  }

  lemma SignOfSlice(s: string, i: nat, e: nat)
    requires i < e <= |s|
    ensures SignLength(s[i..e]) == if s[i] == '-' then 1 else 0
  {
    assert s[i..e][0] == s[i];
  }

  /** The value of a token whose only split is `p`. */
  lemma TokenValueAtSplit(t: string, p: nat)
    requires NumberTokenSplit(t, p)
    requires forall q: nat :: NumberTokenSplit(t, q) ==> q == p
    ensures TokenValue(t) == SplitValue(t, p)
  {
  }

  lemma SliceOfSlice(s: string, lo: nat, hi: nat, a: nat, b: nat)
    requires lo <= a <= b <= hi <= |s|
    ensures s[lo..hi][a - lo..b - lo] == s[a..b]
  {
    var u := s[lo..hi][a - lo..b - lo];
    assert forall x :: 0 <= x < b - a ==> u[x] == s[a + x];
  }

  // ---------------------------------------------------------------------------
  // The parser

  /**
   * A text cell: after replacing ',' by '.', the value of the leftmost match
   * of `-?\d+\.?\d*`, or no value when there is none, which is exactly when
   * the text holds no digit. ParseTextIsLeftmostLongest states what the value is.
   */
  function ParseText(s: string): (r: Option<real>)
    ensures r.None? <==> AllNonDigits(s)
  {
    var u := ReplaceCommas(s);
    match FindMatch(u, 0)
    case None =>
      NoMatchNoDigit(s);
      None
    case Some(i) =>
      NoMatchNoDigit(s);
      Some(MatchValue(u, i))
  }

  /**
   * The value of a text is the value of the leftmost, longest token of the
   * text with its commas replaced: what Python's `re.search` followed by
   * `float()` returns for this expression.
   */
  lemma ParseTextIsLeftmostLongest(s: string)
    requires ParseText(s).Some?
    ensures exists i: nat, e: nat :: LeftmostLongestToken(ReplaceCommas(s), i, e) && ParseText(s).value == TokenValue(ReplaceCommas(s)[i..e])
  {
    var u := ReplaceCommas(s);
    var i := FindMatch(u, 0).value;
    MatchIsLeftmostLongest(u, i);
    MatchValueIsTokenValue(u, i);
    assert LeftmostLongestToken(u, i, MatchEnd(u, i));
  }

  predicate AllNonDigits(s: string) {
    forall i :: 0 <= i < |s| ==> !IsDigit(s[i])
  }

  /** u[i..e] is a token, no token begins before i, and no longer token begins at i. */
  ghost predicate LeftmostLongestToken(u: string, i: nat, e: nat) {
    i <= e <= |u| && IsNumberToken(u[i..e]) &&
    (forall i', e' :: 0 <= i' < i && i' <= e' <= |u| ==> !IsNumberToken(u[i'..e'])) &&
    (forall e' :: e < e' <= |u| ==> !IsNumberToken(u[i..e']))
  }

  lemma MatchIsLeftmostLongest(u: string, i: nat)
    requires FindMatch(u, 0) == Some(i)
    ensures StartsMatch(u, i) && LeftmostLongestToken(u, i, MatchEnd(u, i))
  {
    MatchEndIsLongest(u, i);
    forall i', e' | 0 <= i' < i && i' <= e' <= |u|
      ensures !IsNumberToken(u[i'..e'])
    {
      if IsNumberToken(u[i'..e']) {
        TokenStartsMatch(u, i', e');
      }
    }
  }

  /** The scanner finds nothing exactly when the text has no digit. */
  lemma NoMatchNoDigit(s: string)
    ensures FindMatch(ReplaceCommas(s), 0).None? <==> AllNonDigits(s)
  {
    var u := ReplaceCommas(s);
    if FindMatch(u, 0).None? {
      forall i | 0 <= i < |s|
        ensures !IsDigit(s[i])
      {
        assert !StartsMatch(u, i);
      }
    } else {
      var i := FindMatch(u, 0).value;
      if u[i] == '-' {
        assert IsDigit(s[i + 1]);
      } else {
        assert IsDigit(s[i]);
      }
    }
  }

  /**
   * `converter_pressao`: a number is returned unchanged, a text is searched
   * for a number, anything else (NaN included) gives no value. It never fails.
   */
  function ParsePressure(c: Cell): (r: Option<real>)
    ensures c.Number? ==> r == Some(c.x)
    ensures c.Text? ==> r == ParseText(c.s)
    ensures (c.NotANumber? || c.Other?) ==> r == None
  {
    match c
    case Number(x) => Some(x)
    case Text(s) => ParseText(s)
    case NotANumber => None
    case Other => None
  }

  // ---------------------------------------------------------------------------
  // Properties of the parser

  /** The fraction part of a number lies in [0, 1). */
  lemma {:induction false} FractionBelowOne(ds: string)
    requires AllDigits(ds)
    ensures 0.0 <= Fraction(ds) < 1.0
  {
    DecimalNatBelowPow10(ds);
    var a, b := DecimalNat(ds) as real, Pow10(|ds|) as real;
    assert 0.0 <= a < b;
    RatioBelowOne(a, b);
  }

  lemma RatioBelowOne(a: real, b: real)
    requires 0.0 <= a < b
    ensures 0.0 <= a / b < 1.0
  {
  }

  lemma {:induction false} DecimalNatBelowPow10(ds: string)
    requires AllDigits(ds)
    ensures DecimalNat(ds) < Pow10(|ds|)
  {
    if ds != [] {
      var init := ds[..|ds| - 1];
      DecimalNatBelowPow10(init);
      assert DecimalNat(init) + 1 <= Pow10(|init|);
      assert 10 * DecimalNat(init) + 10 <= 10 * Pow10(|init|);
    }
  }

  /** The decimal digits of a natural number, most significant first. */
  function NatDigits(n: nat): (ds: string)
    ensures |ds| >= 1 && AllDigits(ds)
    decreases n
  {
    if n < 10 then [('0' as int + n) as char]
    else NatDigits(n / 10) + [('0' as int + n % 10) as char]
  }

  /** An integer written the way a spreadsheet cell would show it. */
  function IntText(n: int): string {
    if n < 0 then "-" + NatDigits(-n) else NatDigits(n)
  }

  lemma {:induction false} NatDigitsValue(n: nat)
    ensures DecimalNat(NatDigits(n)) == n
    decreases n
  {
    var ds := NatDigits(n);
    if n >= 10 {
      NatDigitsValue(n / 10);
      assert ds[..|ds| - 1] == NatDigits(n / 10);
    }
  }

  /** Reading back the text of an integer gives that integer, with its sign. */
  lemma ParseTextOfIntText(n: int)
    ensures ParseText(IntText(n)) == Some(n as real)
  {
    var s := IntText(n);
    var digits := NatDigits(if n < 0 then -n else n);
    var j := if n < 0 then 1 else 0;
    assert s[j..] == digits;
    assert ReplaceCommas(s) == s;
    assert StartsMatch(s, 0);
    assert FindMatch(s, 0) == Some(0);
    assert DigitRunEnd(s, j) == |s|;
    assert s[j..|s|] == digits;
    NatDigitsValue(if n < 0 then -n else n);
  }

  /** ParseText is the scanner's value of the leftmost match. */
  lemma ParseTextByScanner(s: string, i: nat)
    requires FindMatch(ReplaceCommas(s), 0) == Some(i)
    ensures ParseText(s) == Some(MatchValue(ReplaceCommas(s), i))
  {
  }

  /**
   * The result is negative only through a '-' that directly touches a digit:
   * a text without such a pair never parses to a negative number.
   */
  lemma NonNegativeWithoutAdjacentMinus(s: string)
    requires forall i :: 0 <= i && i + 1 < |s| ==> !(s[i] == '-' && IsDigit(s[i + 1]))
    ensures ParseText(s).Some? ==> ParseText(s).value >= 0.0
  {
    var u := ReplaceCommas(s);
    if FindMatch(u, 0).Some? {
      var i := FindMatch(u, 0).value;
      assert u[i] != '-';
      var m := IntegerEnd(u, i);
      if m < |u| && u[m] == '.' {
        FractionBelowOne(u[m + 1..DigitRunEnd(u, m + 1)]);
      }
      assert MatchValue(u, i) >= 0.0;
    }
  }

  /** A decimal comma reads as a decimal point; trailing units are ignored. */
  lemma DecimalCommaExample()
    ensures ParseText("3,5 kPa") == Some(3.5)
  {
    var u := "3.5 kPa";
    assert ReplaceCommas("3,5 kPa") == u;
    assert FindMatch(u, 0) == Some(0);
    assert MatchValue(u, 0) == 3.5 by {
      assert IntegerEnd(u, 0) == 1;
      assert DigitRunEnd(u, 2) == 3;
      assert u[0..1] == "3" && u[2..3] == "5";
    }
    ParseTextByScanner("3,5 kPa", 0);
  }

  /** Only the first of several points belongs to the number. */
  lemma SecondPointEndsNumberExample()
    ensures ParseText("1.2.3") == Some(1.2)
  {
    var u := "1.2.3";
    assert ReplaceCommas("1.2.3") == u;
    assert FindMatch(u, 0) == Some(0);
    assert MatchValue(u, 0) == 1.2 by {
      assert IntegerEnd(u, 0) == 1;
      assert DigitRunEnd(u, 2) == 3;
      assert u[0..1] == "1" && u[2..3] == "2";
    }
    ParseTextByScanner("1.2.3", 0);
  }

  /** Dashes that do not touch the digits do not make the number negative. */
  lemma DetachedDashesExample()
    ensures ParseText("-- 3,5 kPa --") == Some(3.5)
  {
    var u := "-- 3.5 kPa --";
    assert ReplaceCommas("-- 3,5 kPa --") == u;
    assert !StartsMatch(u, 0) && !StartsMatch(u, 1) && !StartsMatch(u, 2) && StartsMatch(u, 3);
    assert FindMatch(u, 0) == Some(3);
    assert MatchValue(u, 3) == 3.5 by {
      assert IntegerEnd(u, 3) == 4;
      assert DigitRunEnd(u, 5) == 6;
      assert u[3..4] == "3" && u[5..6] == "5";
    }
    ParseTextByScanner("-- 3,5 kPa --", 3);
  }

  /** A minus sign directly before the digits is kept, and so is the decimal comma. */
  lemma NegativeReadingExample()
    ensures ParseText("vacuo -7,25") == Some(-7.25)
  {
    var u := "vacuo -7.25";
    assert ReplaceCommas("vacuo -7,25") == u;
    assert forall j :: 0 <= j < 6 ==> !StartsMatch(u, j);
    assert StartsMatch(u, 6);
    assert FindMatch(u, 0) == Some(6);
    assert MatchValue(u, 6) == -7.25 by {
      assert IntegerEnd(u, 6) == 8;
      assert DigitRunEnd(u, 9) == 11;
      assert u[7..8] == "7" && u[9..11] == "25";
      assert DecimalNat("25") == 25;
    }
    ParseTextByScanner("vacuo -7,25", 6);
  }

  /** A text without digits has no value. */
  lemma NoDigitExample()
    ensures ParseText("N/A") == None
  {
  }
}
