/** clean_numeric, one cell at a time: the cell is turned into text, six
    regular-expression substitutions are applied in order, and the result
    is parsed as a number, a parse failure reading as 0. */
module Cleaning {
  import opened Wrappers
  import opened Text
  import opened Decimal

  /** A spreadsheet cell as read into the frame: missing (pandas NaN) or a
      value, held as the text Python's str() gives for it. */
  datatype Cell = Missing | Value(text: string)

  /** astype(str): a missing cell is the float NaN, whose text is "nan". */
  function CellText(c: Cell): string {
    match c
    case Missing => "nan"
    case Value(t) => t
  }

  /** The character class `[\$,]`. */
  const CurrencyMarks: set<char> := {'$', ','}

  /** The substitutions, in the order of the replacement dictionary:
      `[\$,]` -> '', `^\s*$` -> '0', then 'nan', '#N/A', 'None' and '-'
      -> '0' wherever they occur. */
  function Normalize(text: string): string {
    var t0 := DeleteChars(text, CurrencyMarks);
    ReplaceTokens(if AllSpace(t0) then "0" else t0)
  }

  /** The four literal substitutions, in order. */
  function ReplaceTokens(t: string): string {
    ReplaceAll(ReplaceAll(ReplaceAll(ReplaceAll(t, "nan", "0"), "#N/A", "0"), "None", "0"), "-", "0")
  }

  /** to_numeric(errors='coerce') followed by fillna(0). */
  function Clean(text: string): real {
    match ParseNumber(Normalize(text))
    case Some(v) => v
    case None => 0.0
  }

  function CleanCell(c: Cell): real {
    Clean(CellText(c))
  }

  /** Cleaning never fails: a substituted text outside the numeral grammar
      reads as 0, and one inside it reads as the number it spells. */
  lemma CleanIsParseOrZero(text: string)
    ensures !IsNumeral(Normalize(text)) ==> Clean(text) == 0.0
    ensures IsNumeral(Normalize(text)) ==>
      ParseNumber(Normalize(text)).Some? && Clean(text) == ParseNumber(Normalize(text)).value
  {
    ParseNumberAccepts(Normalize(text));
  }

  /** Every hyphen becomes '0', so no cleaned value is negative. */
  lemma CleanNeverNegative(text: string)
    ensures Clean(text) >= 0.0
  {
    var t := Normalize(text);
    var t0 := DeleteChars(text, CurrencyMarks);
    var t1 := if AllSpace(t0) then "0" else t0;
    var t4 := ReplaceAll(ReplaceAll(ReplaceAll(t1, "nan", "0"), "#N/A", "0"), "None", "0");
    assert t == ReplaceAll(t4, ['-'], "0");
    ReplaceAllEliminates(t4, '-', "0");
    ParseNumberNoMinus(t);
  }

  /** Text that none of the substitutions after the first one can touch:
      not blank once the marks are gone, and holding no token anywhere. */
  lemma NormalizeUntouched(text: string)
    requires var t := DeleteChars(text, CurrencyMarks);
      && !AllSpace(t)
      && forall i :: 0 <= i < |t| ==>
        !("nan" <= t[i..]) && !("#N/A" <= t[i..]) && !("None" <= t[i..]) && !("-" <= t[i..])
    ensures Normalize(text) == DeleteChars(text, CurrencyMarks)
  {
    var t := DeleteChars(text, CurrencyMarks);
    ReplaceAllNoOccurrence(t, "nan", "0");
    ReplaceAllNoOccurrence(t, "#N/A", "0");
    ReplaceAllNoOccurrence(t, "None", "0");
    ReplaceAllNoOccurrence(t, "-", "0");
  }

  /** Text that is already all digits and points, once the currency marks
      are gone, meets none of the other substitutions. */
  lemma NormalizeNumeral(text: string)
    requires var t := DeleteChars(text, CurrencyMarks);
      |t| > 0 && forall i :: 0 <= i < |t| ==> IsDigit(t[i]) || t[i] == '.'
    ensures Normalize(text) == DeleteChars(text, CurrencyMarks)
  {
    var t := DeleteChars(text, CurrencyMarks);
    assert !IsSpace(t[0]);
    forall i | 0 <= i < |t|
      ensures !("nan" <= t[i..]) && !("#N/A" <= t[i..]) && !("None" <= t[i..]) && !("-" <= t[i..])
    {
      assert t[i..][0] == t[i];
    }
    NormalizeUntouched(text);
  }

  /** A text of digits alone parses as its value. */
  lemma ParsePlainDigits(t: string)
    requires |t| > 0 && AllDigits(t)
    ensures ParseNumber(t) == Some(DigitsValue(t) as real)
  {
    assert forall i :: 0 <= i < |t| ==> !IsAsciiSpace(t[i]);
    TrimNoBlanks(t);
    assert IsDigit(t[0]);
    ParseDigits(t);
  }

  /** Dollar signs and thousands separators are ignored: a currency-formatted
      amount with two decimals reads as the amount. */
  lemma CleanCurrencyAmount(text: string, c: nat)
    requires DeleteChars(text, CurrencyMarks) == CentsText(c)
    ensures Clean(text) == c as real / 100.0
  {
    var t := CentsText(c);
    var a := NatText(c / 100);
    assert t == a + "." + [DigitChar(c % 100 / 10), DigitChar(c % 100 % 10)];
    assert forall i :: 0 <= i < |t| ==> IsDigit(t[i]) || t[i] == '.' by {
      forall i | 0 <= i < |t| ensures IsDigit(t[i]) || t[i] == '.' {
        if i < |a| { assert t[i] == a[i]; }
      }
    }
    NormalizeNumeral(text);
    ParseCentsText(c);
  }

  /** A whole number written plainly reads as itself. */
  lemma CleanWholeNumber(n: nat)
    ensures Clean(NatText(n)) == n as real
  {
    var t := NatText(n);
    assert DeleteChars(t, CurrencyMarks) == t by {
      assert forall i :: 0 <= i < |t| ==> t[i] !in CurrencyMarks;
    }
    NormalizeNumeral(t);
    ParsePlainDigits(t);
  }

  /** A dollar sign in front of a whole number is ignored: "$0" reads as 0,
      "$25" as 25. */
  lemma CleanDollarWhole(n: nat)
    ensures Clean("$" + NatText(n)) == n as real
  {
    var d := NatText(n);
    assert forall i :: 0 <= i < |d| ==> d[i] !in CurrencyMarks;
    DeleteCharsAppend("$", d, CurrencyMarks);
    assert DeleteChars("$", CurrencyMarks) == [] by { assert "$"[1..] == []; }
    assert [] + d == d;
    NormalizeNumeral("$" + d);
    ParsePlainDigits(d);
  }

  /** The example amount with a dollar sign and a thousands separator. */
  lemma CleanExampleAmount()
    ensures Clean("$1,234.50") == 1234.5
  {
    MarkFree("1");
    MarkFree("234.50");
    DeleteMarksBetween("1", "234.50");
    ExampleParts();
    ExampleCents();
    CleanCurrencyAmount("$1,234.50", 123450);
  }

  /** A dollar sign in front and a separator in the middle both vanish. */
  lemma DeleteMarksBetween(a: string, b: string)
    requires DeleteChars(a, CurrencyMarks) == a && DeleteChars(b, CurrencyMarks) == b
    ensures DeleteChars("$" + a + "," + b, CurrencyMarks) == a + b
  {
    DeleteCharsAppend("$" + a, "," + b, CurrencyMarks);
    DeleteCharsAppend("$", a, CurrencyMarks);
    DeleteCharsAppend(",", b, CurrencyMarks);
    assert "$" + a + "," + b == ("$" + a) + ("," + b);
    assert DeleteChars("$", CurrencyMarks) == [] && DeleteChars(",", CurrencyMarks) == [];
  }

  lemma ExampleParts()
    ensures "$" + "1" + "," + "234.50" == "$1,234.50"
    ensures "1" + "234.50" == "1234.50"
  {
  }

  lemma ExampleCents()
    ensures CentsText(123450) == "1234.50"
  {
    assert NatText(1) == "1";
    assert NatText(12) == "12";
    assert NatText(123) == "123";
    assert NatText(1234) == "1234";
  }

  /** Digits and points carry no currency mark. */
  lemma MarkFree(s: string)
    requires forall i :: 0 <= i < |s| ==> IsDigit(s[i]) || s[i] == '.'
    ensures DeleteChars(s, CurrencyMarks) == s
  {
  }

  /** An empty or whitespace-only cell reads as 0. */
  lemma CleanBlank(text: string)
    requires AllSpace(text)
    ensures Clean(text) == 0.0
  {
    var t0 := DeleteChars(text, CurrencyMarks);
    assert AllSpace(t0) by {
      forall i | 0 <= i < |t0| ensures IsSpace(t0[i]) {
        assert t0[i] in text;
      }
    }
    ZeroText();
  }

  /** The placeholder texts read as 0, and so does a missing cell. */
  lemma CleanPlaceholders()
    ensures Clean("nan") == 0.0 && Clean("#N/A") == 0.0 && Clean("None") == 0.0 && Clean("-") == 0.0
    ensures CleanCell(Missing) == 0.0
  {
    ZeroText();
    NormalizeNan();
    NormalizeNotAvailable();
    NormalizeNone();
    NormalizeHyphen();
  }

  /** Text without currency marks that does not start with a blank goes
      straight to the literal substitutions. */
  lemma NormalizePlain(text: string)
    requires forall i :: 0 <= i < |text| ==> text[i] !in CurrencyMarks
    requires |text| > 0 && !IsSpace(text[0])
    ensures Normalize(text) == ReplaceTokens(text)
  {
  }

  lemma NormalizeNan()
    ensures Normalize("nan") == "0"
  {
    NormalizePlain("nan");
    ReplaceAllWhole("nan", "0");
    ZeroText();
  }

  lemma NormalizeNotAvailable()
    ensures Normalize("#N/A") == "0"
  {
    NormalizePlain("#N/A");
    TokensOfNotAvailable();
  }

  lemma TokensOfNotAvailable()
    ensures ReplaceTokens("#N/A") == "0"
  {
    ReplaceAllAbsent("#N/A", "nan", "0");
    ReplaceAllWhole("#N/A", "0");
    ReplaceAllAbsent("0", "None", "0");
    ReplaceAllAbsent("0", "-", "0");
  }

  lemma NormalizeNone()
    ensures Normalize("None") == "0"
  {
    NormalizePlain("None");
    TokensOfNone();
  }

  lemma TokensOfNone()
    ensures ReplaceTokens("None") == "0"
  {
    NanNotInNone();
    ReplaceAllAbsent("None", "#N/A", "0");
    ReplaceAllWhole("None", "0");
    ReplaceAllAbsent("0", "-", "0");
  }

  /** "None" holds an 'n' but not the text "nan". */
  lemma NanNotInNone()
    ensures ReplaceAll("None", "nan", "0") == "None"
  {
    var s := "None";
    forall i | 0 <= i < |s| ensures !("nan" <= s[i..]) {
      if i == 2 {
        assert s[i..][1] == 'e';
      } else {
        assert s[i..][0] != 'n';
      }
    }
    ReplaceAllNoOccurrence(s, "nan", "0");
  }

  lemma NormalizeHyphen()
    ensures Normalize("-") == "0"
  {
    NormalizePlain("-");
    ReplaceAllAbsent("-", "nan", "0");
    ReplaceAllAbsent("-", "#N/A", "0");
    ReplaceAllAbsent("-", "None", "0");
    ReplaceAllWhole("-", "0");
  }

  /** "0" is left alone by the token substitutions and reads as 0. */
  lemma ZeroText()
    ensures ReplaceTokens("0") == "0"
    ensures ParseNumber("0") == Some(0.0)
  {
    ReplaceAllAbsent("0", "nan", "0");
    ReplaceAllAbsent("0", "#N/A", "0");
    ReplaceAllAbsent("0", "None", "0");
    ReplaceAllAbsent("0", "-", "0");
    ParsePlainDigits("0");
  }

  /** A leading minus sign is substituted like any other hyphen: "-5" reads
      as 5, and "-" followed by a whole number reads as that number. */
  lemma CleanMinusReadsPositive(n: nat)
    ensures Clean("-" + NatText(n)) == n as real
  {
    var d := NatText(n);
    NormalizeMinusDigits(d);
    LeadingZero(d);
    ParsePlainDigits("0" + d);
  }

  lemma NormalizeMinusDigits(d: string)
    requires AllDigits(d)
    ensures Normalize("-" + d) == "0" + d
  {
    var s := "-" + d;
    assert forall i :: 0 <= i < |s| ==> s[i] == '-' || IsDigit(s[i]) by {
      forall i | 0 <= i < |s| ensures s[i] == '-' || IsDigit(s[i]) {
        if i > 0 { assert s[i] == d[i - 1]; }
      }
    }
    NormalizePlain(s);
    TokensOfMinusDigits(d);
  }

  lemma TokensOfMinusDigits(d: string)
    requires AllDigits(d)
    ensures ReplaceTokens("-" + d) == "0" + d
  {
    var s := "-" + d;
    assert forall i :: 0 <= i < |s| ==> s[i] == '-' || IsDigit(s[i]) by {
      forall i | 0 <= i < |s| ensures s[i] == '-' || IsDigit(s[i]) {
        if i > 0 { assert s[i] == d[i - 1]; }
      }
    }
    ReplaceAllAbsent(s, "nan", "0");
    ReplaceAllAbsent(s, "#N/A", "0");
    ReplaceAllAbsent(s, "None", "0");
    assert s[1..] == d && "-" <= s;
    assert '-' !in d by { assert forall i :: 0 <= i < |d| ==> IsDigit(d[i]); }
    ReplaceAllAbsent(d, "-", "0");
  }

  /** A leading zero does not change the value of a run of digits. */
  lemma {:induction false} LeadingZero(d: string)
    requires AllDigits(d)
    ensures AllDigits("0" + d) && DigitsValue("0" + d) == DigitsValue(d)
  {
    var z := "0" + d;
    assert AllDigits(z) by {
      forall i | 0 <= i < |z| ensures IsDigit(z[i]) {
        if i > 0 { assert z[i] == d[i - 1]; }
      }
    }
    if |d| > 0 {
      assert z[..|z| - 1] == "0" + d[..|d| - 1];
      LeadingZero(d[..|d| - 1]);
    }
  }
}
