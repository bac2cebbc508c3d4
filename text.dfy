/** The string operations the pipeline borrows from Python and pandas:
    whitespace, strip, ASCII lower-casing, deleting a character class and
    replacing every occurrence of a literal pattern (as re.sub does). */
module Text {

  /** Python's str.isspace(): the whitespace that both `\s` in a str
      regular expression and str.strip() recognise. */
  predicate IsSpace(c: char) {
    var n := c as int;
    n == 0x20 || 0x09 <= n <= 0x0D || 0x1C <= n <= 0x1F || n == 0x85 || n == 0xA0
    || n == 0x1680 || 0x2000 <= n <= 0x200A || n == 0x2028 || n == 0x2029
    || n == 0x202F || n == 0x205F || n == 0x3000
  }

  /** The six ASCII whitespace characters (C's isspace in the "C" locale). */
  predicate IsAsciiSpace(c: char) {
    c == ' ' || '\t' <= c <= '\r'
  }

  predicate AllSpace(s: string) {
    forall i :: 0 <= i < |s| ==> IsSpace(s[i])
  }

  /** How many characters at the start of `s` satisfy `sp`. */
  function CountLeading(s: string, sp: char -> bool): (k: nat)
    ensures k <= |s|
    ensures forall i :: 0 <= i < k ==> sp(s[i])
    ensures k == |s| || !sp(s[k])
    decreases |s|
  {
    if |s| > 0 && sp(s[0]) then
      var k := 1 + CountLeading(s[1..], sp);
      assert forall i :: 1 <= i < k ==> s[i] == s[1..][i - 1];
      k
    else 0
  }

  /** How many characters at the end of `s` satisfy `sp`. */
  function CountTrailing(s: string, sp: char -> bool): (k: nat)
    ensures k <= |s|
    ensures forall i :: |s| - k <= i < |s| ==> sp(s[i])
    ensures k == |s| || !sp(s[|s| - 1 - k])
    decreases |s|
  {
    if |s| > 0 && sp(s[|s| - 1]) then 1 + CountTrailing(s[..|s| - 1], sp) else 0
  }

  /** Drops the characters that satisfy `sp` at both ends. */
  function Trim(s: string, sp: char -> bool): (r: string) {
    var a := CountLeading(s, sp);
    var rest := s[a..];
    rest[..|rest| - CountTrailing(rest, sp)]
  }

  /** Python's str.strip(): both ends, Unicode whitespace. */
  function Strip(s: string): string {
    Trim(s, IsSpace)
  }

  /** Strip removes exactly a whitespace prefix and a whitespace suffix and
      leaves a text that starts and ends with a non-blank character. */
  lemma StripIsMiddle(s: string)
    ensures var r := Strip(s);
      exists i :: 0 <= i <= |s| - |r| && r == s[i..i + |r|]
        && AllSpace(s[..i]) && AllSpace(s[i + |r|..])
    ensures Strip(s) == [] || (!IsSpace(Strip(s)[0]) && !IsSpace(Strip(s)[|Strip(s)| - 1]))
    ensures Strip(s) == [] <==> AllSpace(s)
  {
    var i := CountLeading(s, IsSpace);
    var rest := s[i..];
    var b := CountTrailing(rest, IsSpace);
    var r := Strip(s);
    assert |r| == |rest| - b;
    assert r == s[i..i + |r|];
    assert AllSpace(s[..i]);
    assert AllSpace(s[i + |r|..]) by {
      var u := s[i + |r|..];
      forall k | 0 <= k < |u| ensures IsSpace(u[k]) {
        assert u[k] == rest[|r| + k];
      }
    }
    if r != [] {
      assert r[0] == s[i];
      assert r[|r| - 1] == rest[|rest| - 1 - b];
    } else {
      assert i == |s|;
      assert s[..i] == s;
    }
  }

  /** A text without blanks at its ends is its own strip. */
  lemma TrimNoBlankEnds(s: string, sp: char -> bool)
    requires s == [] || (!sp(s[0]) && !sp(s[|s| - 1]))
    ensures Trim(s, sp) == s
  {
    if s != [] {
      assert CountLeading(s, sp) == 0;
      assert s[0..] == s;
      assert CountTrailing(s, sp) == 0;
    }
  }

  /** Stripping twice strips nothing more. */
  lemma StripIdempotent(s: string)
    ensures Strip(Strip(s)) == Strip(s)
  {
    StripIsMiddle(s);
    TrimNoBlankEnds(Strip(s), IsSpace);
  }

  /** Python's str.lower() restricted to ASCII letters. */
  function LowerChar(c: char): char {
    if 'A' <= c <= 'Z' then (c as int + 32) as char else c
  }

  function Lower(s: string): (r: string)
    ensures |r| == |s|
  {
    seq(|s|, i requires 0 <= i < |s| => LowerChar(s[i]))
  }

  /** Lower-casing never turns a character into whitespace or back. */
  lemma LowerKeepsSpace(c: char)
    ensures IsSpace(LowerChar(c)) <==> IsSpace(c)
  {
  }

  /** The characters of `s` that are not in `cs`, in order: the regular
      expression character class `[...]` substituted by ''. */
  function DeleteChars(s: string, cs: set<char>): (r: string)
    ensures |r| <= |s|
    ensures forall i :: 0 <= i < |r| ==> r[i] !in cs
    ensures forall i :: 0 <= i < |r| ==> r[i] in s
    ensures (forall i :: 0 <= i < |s| ==> s[i] !in cs) ==> r == s
  {
    if |s| == 0 then []
    else if s[0] in cs then DeleteChars(s[1..], cs)
    else [s[0]] + DeleteChars(s[1..], cs)
  }

  /** Deleting distributes over concatenation: what is kept keeps its order. */
  lemma {:induction false} DeleteCharsAppend(a: string, b: string, cs: set<char>)
    ensures DeleteChars(a + b, cs) == DeleteChars(a, cs) + DeleteChars(b, cs)
  {
    if |a| == 0 {
      assert a + b == b;
    } else {
      assert (a + b)[1..] == a[1..] + b;
      DeleteCharsAppend(a[1..], b, cs);
    }
  }

  /** re.sub(pat, rep, s) for a pattern that matches only the literal text
      `pat`: leftmost occurrences, not overlapping, scanning resumes after
      each replaced occurrence. */
  function ReplaceAll(s: string, pat: string, rep: string): string
    requires |pat| > 0
    decreases |s|
  {
    if |s| == 0 then []
    else if pat <= s then rep + ReplaceAll(s[|pat|..], pat, rep)
    else [s[0]] + ReplaceAll(s[1..], pat, rep)
  }

  /** A text that does not contain the first character of the pattern is
      left as it is. */
  lemma {:induction false} ReplaceAllAbsent(s: string, pat: string, rep: string)
    requires |pat| > 0
    requires pat[0] !in s
    ensures ReplaceAll(s, pat, rep) == s
  {
    if |s| > 0 {
      assert !(pat <= s) by { assert s[0] != pat[0]; }
      ReplaceAllAbsent(s[1..], pat, rep);
      assert [s[0]] + s[1..] == s;
    }
  }

  /** A text in which the pattern occurs nowhere is left as it is. */
  lemma {:induction false} ReplaceAllNoOccurrence(s: string, pat: string, rep: string)
    requires |pat| > 0
    requires forall i :: 0 <= i < |s| ==> !(pat <= s[i..])
    ensures ReplaceAll(s, pat, rep) == s
  {
    if |s| > 0 {
      assert !(pat <= s[0..]);
      assert s[0..] == s;
      forall i | 0 <= i < |s[1..]| ensures !(pat <= s[1..][i..]) {
        assert s[1..][i..] == s[i + 1..];
      }
      ReplaceAllNoOccurrence(s[1..], pat, rep);
      assert [s[0]] + s[1..] == s;
    }
  }

  /** Replacing a one-character pattern by text that lacks it leaves no
      occurrence behind. */
  lemma {:induction false} ReplaceAllEliminates(s: string, c: char, rep: string)
    requires c !in rep
    ensures c !in ReplaceAll(s, [c], rep)
  {
    if |s| > 0 {
      ReplaceAllEliminates(s[1..], c, rep);
    }
  }

  /** A cell that is exactly the pattern becomes exactly the replacement. */
  lemma ReplaceAllWhole(pat: string, rep: string)
    requires |pat| > 0
    ensures ReplaceAll(pat, pat, rep) == rep
  {
    assert pat[|pat|..] == [];
    assert rep + [] == rep;
  }
}
