/** Decimal numerals: the part of pandas' to_numeric that the pipeline
    relies on (an optionally signed numeral with an optional fraction,
    blanks around it allowed), and Python's str() of a whole number as the
    rendering it must read back. */
module Decimal {
  import opened Wrappers
  import opened Text

  predicate IsDigit(c: char) {
    '0' <= c <= '9'
  }

  predicate AllDigits(s: string) {
    forall i :: 0 <= i < |s| ==> IsDigit(s[i])
  }

  function DigitValue(c: char): (d: nat)
    requires IsDigit(c)
    ensures d < 10
  {
    c as int - '0' as int
  }

  function DigitChar(d: nat): (c: char)
    requires d < 10
    ensures IsDigit(c) && DigitValue(c) == d
  {
    ('0' as int + d) as char
  }

  /** The value of a run of digits, most significant first. */
  function DigitsValue(s: string): (n: nat)
    requires AllDigits(s)
  {
    if |s| == 0 then 0
    else
      var m := DigitsValue(s[..|s| - 1]);
      m * 10 + DigitValue(s[|s| - 1])
  }

  /** The value of the digits after a decimal point, least significant
      last: "05" is 0.05. */
  function Fraction(d: string): (f: real)
    requires AllDigits(d)
    ensures 0.0 <= f < 1.0
  {
    if |d| == 0 then 0.0 else (DigitValue(d[0]) as real + Fraction(d[1..])) / 10.0
  }

  /** Python's str() of a non-negative int. */
  function NatText(n: nat): (s: string)
    ensures |s| > 0 && AllDigits(s) && DigitsValue(s) == n
    decreases n
  {
    if n < 10 then [DigitChar(n)]
    else
      var s := NatText(n / 10) + [DigitChar(n % 10)];
      assert s[..|s| - 1] == NatText(n / 10);
      s
  }

  /** The length of the run of digits at the start of `t`. */
  function LeadingDigits(t: string): (k: nat)
    ensures k <= |t| && AllDigits(t[..k])
    ensures k == |t| || !IsDigit(t[k])
  {
    if |t| > 0 && IsDigit(t[0]) then
      var k := 1 + LeadingDigits(t[1..]);
      assert t[..k] == [t[0]] + t[1..][..k - 1];
      k
    else 0
  }

  /** An unsigned numeral: digits, or digits, a point and digits, with at
      least one digit in all ("5", "5.", ".5", "1234.50"). */
  function ParseUnsigned(t: string): (r: Option<real>)
    ensures r.Some? ==> r.value >= 0.0
  {
    var k := LeadingDigits(t);
    if k == |t| then
      if k == 0 then None else Some(DigitsValue(t) as real)
    else ParseAfterWhole(t[..k], t[k..])
  }

  /** The rest of an unsigned numeral once its whole part has been read:
      a point, then only digits. */
  function ParseAfterWhole(whole: string, rest: string): (r: Option<real>)
    requires AllDigits(whole) && |rest| > 0
    ensures r.Some? ==> r.value >= 0.0
  {
    if rest[0] == '.' && AllDigits(rest[1..]) && |whole| + |rest| > 1 then
      Some(DigitsValue(whole) as real + Fraction(rest[1..]))
    else None
  }

  /** to_numeric on one text: ASCII blanks around an optionally signed
      unsigned numeral; anything else is a parse failure (None). */
  function ParseNumber(s: string): Option<real> {
    var t := Trim(s, IsAsciiSpace);
    if |t| > 0 && t[0] == '-' then
      match ParseUnsigned(t[1..])
      case Some(v) => Some(-v)
      case None => None
    else if |t| > 0 && t[0] == '+' then ParseUnsigned(t[1..])
    else ParseUnsigned(t)
  }

  /** The numeral grammar, stated on characters alone: digits and at most
      one point, with at least one digit somewhere. */
  predicate IsUnsignedNumeral(u: string) {
    && (forall i :: 0 <= i < |u| ==> IsDigit(u[i]) || u[i] == '.')
    && (forall i, j :: 0 <= i < j < |u| && u[i] == '.' ==> u[j] != '.')
    && (exists i :: 0 <= i < |u| && IsDigit(u[i]))
  }

  /** An unsigned numeral, possibly behind one sign, with ASCII blanks
      around it. */
  predicate IsNumeral(s: string) {
    var t := Trim(s, IsAsciiSpace);
    IsUnsignedNumeral(t) || (|t| > 0 && (t[0] == '-' || t[0] == '+') && IsUnsignedNumeral(t[1..]))
  }

  /** The parser accepts exactly the texts of the numeral grammar. */
  lemma ParseNumberAccepts(s: string)
    ensures ParseNumber(s).Some? <==> IsNumeral(s)
  {
    var t := Trim(s, IsAsciiSpace);
    if |t| > 0 && (t[0] == '-' || t[0] == '+') {
      assert !IsUnsignedNumeral(t) by { assert !IsDigit(t[0]) && t[0] != '.'; }
      ParseUnsignedAccepts(t[1..]);
    } else {
      ParseUnsignedAccepts(t);
    }
  }

  lemma ParseUnsignedAccepts(u: string)
    ensures ParseUnsigned(u).Some? <==> IsUnsignedNumeral(u)
  {
    var k := LeadingDigits(u);
    assert forall i :: 0 <= i < k ==> u[..k][i] == u[i];
    if k == |u| {
      if k > 0 { assert IsDigit(u[0]); }
    } else if ParseUnsigned(u).Some? {
      PointedNumeral(u, k);
    } else if IsUnsignedNumeral(u) {
      NumeralPointed(u, k);
    }
  }

  /** A text the parser accepts after its whole part has the numeral shape. */
  lemma PointedNumeral(u: string, k: nat)
    requires k < |u| && AllDigits(u[..k]) && u[k] == '.' && AllDigits(u[k + 1..]) && |u| > 1
    ensures IsUnsignedNumeral(u)
  {
    forall i | 0 <= i < |u| && i != k ensures IsDigit(u[i]) {
      if i < k { assert u[i] == u[..k][i]; } else { assert u[i] == u[k + 1..][i - k - 1]; }
    }
    forall i, j | 0 <= i < j < |u| && u[i] == '.' ensures u[j] != '.' {
      assert i == k;
    }
    if k > 0 {
      assert IsDigit(u[..k][0]);
    } else {
      assert IsDigit(u[k + 1..][0]);
    }
  }

  /** A numeral that does not end with its run of leading digits continues
      with its point and then only digits. */
  lemma NumeralPointed(u: string, k: nat)
    requires IsUnsignedNumeral(u) && k < |u| && AllDigits(u[..k]) && !IsDigit(u[k])
    ensures u[k] == '.' && AllDigits(u[k + 1..]) && |u| > 1
  {
    var v := u[k + 1..];
    forall i | 0 <= i < |v| ensures IsDigit(v[i]) {
      assert v[i] == u[k + 1 + i];
    }
    var d :| 0 <= d < |u| && IsDigit(u[d]);
    assert d != k;
  }

  /** A whole-number numeral reads as its digits' value. */
  lemma ParseDigits(a: string)
    requires |a| > 0 && AllDigits(a)
    ensures ParseUnsigned(a) == Some(DigitsValue(a) as real)
  {
    assert a[..|a|] == a;
  }

  lemma {:induction false} LeadingDigitsOfPoint(a: string, b: string)
    requires AllDigits(a)
    ensures LeadingDigits(a + "." + b) == |a|
  {
    if |a| > 0 {
      assert (a + "." + b)[1..] == a[1..] + "." + b;
      LeadingDigitsOfPoint(a[1..], b);
    }
  }

  /** A numeral with a point reads as its whole part plus its fraction. */
  lemma ParsePointed(a: string, b: string)
    requires AllDigits(a) && AllDigits(b) && |a| + |b| > 0
    ensures ParseUnsigned(a + "." + b) == Some(DigitsValue(a) as real + Fraction(b))
  {
    PointedParts(a, b);
    PointAfterWhole(a, b);
  }

  lemma PointedParts(a: string, b: string)
    requires AllDigits(a)
    ensures var t := a + "." + b;
      LeadingDigits(t) == |a| && t[..|a|] == a && t[|a|..] == "." + b
  {
    LeadingDigitsOfPoint(a, b);
    var t := a + "." + b;
    assert t[..|a|] == a;
    assert t[|a|..] == "." + b;
  }

  lemma PointAfterWhole(a: string, b: string)
    requires AllDigits(a) && AllDigits(b) && |a| + |b| > 0
    ensures ParseAfterWhole(a, "." + b) == Some(DigitsValue(a) as real + Fraction(b))
  {
    assert ("." + b)[1..] == b;
  }

  /** A text without blanks is its own ASCII-trimmed form. */
  lemma TrimNoBlanks(s: string)
    requires forall i :: 0 <= i < |s| ==> !IsAsciiSpace(s[i])
    ensures Trim(s, IsAsciiSpace) == s
  {
    TrimNoBlankEnds(s, IsAsciiSpace);
  }

  /** A numeral without a minus sign never reads as a negative number. */
  lemma ParseNumberNoMinus(s: string)
    requires '-' !in s
    ensures ParseNumber(s).Some? ==> ParseNumber(s).value >= 0.0
  {
    var t := Trim(s, IsAsciiSpace);
    if |t| > 0 {
      assert t[0] == s[CountLeading(s, IsAsciiSpace)];
    }
  }

  /** Two decimal places rendered the way Python formats `f"{c // 100}.{c % 100:02d}"`. */
  function CentsText(c: nat): string {
    var cents := c % 100;
    NatText(c / 100) + "." + [DigitChar(cents / 10), DigitChar(cents % 10)]
  }

  /** Reading back a two-place decimal rendering gives the amount. */
  lemma ParseCentsText(c: nat)
    ensures ParseNumber(CentsText(c)) == Some(c as real / 100.0)
  {
    var a := NatText(c / 100);
    var r := c % 100;
    var b := [DigitChar(r / 10), DigitChar(r % 10)];
    var t := CentsText(c);
    assert t == a + "." + b;
    CentsTextUnsigned(a, b);
    ParsePointed(a, b);
    TwoDigitFraction(r);
    CentsSplit(c);
  }

  lemma TwoDigitFraction(r: nat)
    requires r < 100
    ensures Fraction([DigitChar(r / 10), DigitChar(r % 10)]) == ((r / 10) as real + (r % 10) as real / 10.0) / 10.0
  {
    var b := [DigitChar(r / 10), DigitChar(r % 10)];
    assert b[1..] == [DigitChar(r % 10)] && b[1..][1..] == [];
    assert Fraction(b[1..]) == (r % 10) as real / 10.0;
    assert DigitValue(b[0]) == r / 10;
  }

  lemma CentsTextUnsigned(a: string, b: string)
    requires |a| > 0 && AllDigits(a) && AllDigits(b)
    ensures ParseNumber(a + "." + b) == ParseUnsigned(a + "." + b)
  {
    var t := a + "." + b;
    assert forall i :: 0 <= i < |t| ==> !IsAsciiSpace(t[i]) by {
      forall i | 0 <= i < |t| ensures !IsAsciiSpace(t[i]) {
        if i < |a| { assert t[i] == a[i]; } else if i > |a| { assert t[i] == b[i - |a| - 1]; }
      }
    }
    TrimNoBlanks(t);
    assert t[0] == a[0];
  }

  lemma CentsSplit(c: nat)
    ensures c as real / 100.0
         == (c / 100) as real + (((c % 100) / 10) as real + ((c % 100) % 10) as real / 10.0) / 10.0
  {
    var q, r := c / 100, c % 100;
    assert c == 100 * q + r;
    assert r == 10 * (r / 10) + r % 10;
  }
}
