/** String helpers the checklist script gets from JavaScript itself: the decimal
    rendering of a count inside a template literal, String.prototype.trim, and
    counting a character (used to reason about the exported report). */
module Text {

  predicate IsDigit(c: char) {
    '0' <= c <= '9'
  }

  function DigitChar(d: nat): (c: char)
    requires d < 10
    ensures IsDigit(c)
  {
    ('0' as int + d) as char
  }

  function DigitValue(c: char): nat {
    if IsDigit(c) then (c as int - '0' as int) as nat else 0
  }

  /** The text `${n}` gives for a non-negative integer: decimal digits,
      with no leading zero except for 0 itself. */
  function NatToString(n: nat): (s: string)
    ensures |s| >= 1
    ensures forall i :: 0 <= i < |s| ==> IsDigit(s[i])
    ensures (s[0] == '0') == (n == 0)
    ensures n < 10 <==> |s| == 1
    decreases n
  {
    if n < 10 then [DigitChar(n)] else NatToString(n / 10) + [DigitChar(n % 10)]
  }

  /** Reads a string of decimal digits back as a number. */
  function ParseNat(s: string): nat
    decreases |s|
  {
    if s == [] then 0 else 10 * ParseNat(s[..|s| - 1]) + DigitValue(s[|s| - 1])
  }

  /** The decimal rendering loses nothing: parsing it gives the number back. */
  lemma {:induction false} ParseNatToString(n: nat)
    ensures ParseNat(NatToString(n)) == n
    decreases n
  {
    var s := NatToString(n);
    if n < 10 {
      assert s[..0] == [];
    } else {
      ParseNatToString(n / 10);
      assert s[..|s| - 1] == NatToString(n / 10);
    }
  }

  /** Rendering is injective: different counts never print the same. */
  lemma NatToStringInjective(m: nat, n: nat)
    requires NatToString(m) == NatToString(n)
    ensures m == n
  {
    ParseNatToString(m);
    ParseNatToString(n);
  }

  /** Length of the run of decimal digits `s` starts with. */
  function LeadingDigits(s: string): (n: nat)
    ensures n <= |s|
    decreases |s|
  {
    if s == [] || !IsDigit(s[0]) then 0 else 1 + LeadingDigits(s[1..])
  }

  lemma {:induction false} LeadingDigitsOf(a: string, x: string)
    requires AllDigits(a)
    requires x != [] && !IsDigit(x[0])
    ensures LeadingDigits(a + x) == |a|
    decreases |a|
  {
    if a == [] {
      assert a + x == x;
    } else {
      assert (a + x)[1..] == a[1..] + x;
      LeadingDigitsOf(a[1..], x);
    }
  }

  predicate AllDigits(s: string) {
    forall i :: 0 <= i < |s| ==> IsDigit(s[i])
  }

  /** A number printed in front of a text that does not start with a digit
      can be read off unambiguously. */
  lemma DigitsPrefixUnique(a1: string, x1: string, a2: string, x2: string)
    requires AllDigits(a1) && AllDigits(a2)
    requires x1 != [] && !IsDigit(x1[0]) && x2 != [] && !IsDigit(x2[0])
    requires a1 + x1 == a2 + x2
    ensures a1 == a2 && x1 == x2
  {
    LeadingDigitsOf(a1, x1);
    LeadingDigitsOf(a2, x2);
    assert a1 == (a1 + x1)[..|a1|];
    assert a2 == (a2 + x2)[..|a2|];
    assert x1 == (a1 + x1)[|a1|..];
    assert x2 == (a2 + x2)[|a2|..];
  }

  /** Two numbers written around a separator that is not a digit can be
      read back apart. */
  lemma FractionUnique(a1: string, b1: string, a2: string, b2: string, sep: string)
    requires AllDigits(a1) && AllDigits(b1) && AllDigits(a2) && AllDigits(b2)
    requires sep != [] && !IsDigit(sep[0])
    requires a1 + sep + b1 == a2 + sep + b2
    ensures a1 == a2 && b1 == b2
  {
    ConcatAssoc(a1, sep, b1);
    ConcatAssoc(a2, sep, b2);
    DigitsPrefixUnique(a1, sep + b1, a2, sep + b2);
    StripHead(sep, b1, sep, b2);
  }

  /** A text made of three numbers between fixed labels that do not start
      with a digit gives all three numbers back. */
  lemma LabelledNumbersUnique(p1: string, n1: string, m1: string, p2: string, n2: string, m2: string,
                              mid: string, sep: string, tail: string)
    requires AllDigits(p1) && AllDigits(n1) && AllDigits(m1)
    requires AllDigits(p2) && AllDigits(n2) && AllDigits(m2)
    requires mid != [] && !IsDigit(mid[0]) && sep != [] && !IsDigit(sep[0])
    requires tail != [] && !IsDigit(tail[0])
    requires p1 + mid + n1 + sep + m1 + tail == p2 + mid + n2 + sep + m2 + tail
    ensures p1 == p2 && n1 == n2 && m1 == m2
  {
    var r1, r2 := n1 + sep + m1 + tail, n2 + sep + m2 + tail;
    assert p1 + mid + n1 + sep + m1 + tail == p1 + (mid + r1);
    assert p2 + mid + n2 + sep + m2 + tail == p2 + (mid + r2);
    DigitsPrefixUnique(p1, mid + r1, p2, mid + r2);
    StripHead(mid, r1, mid, r2);
    NumbersApartUnique(n1, m1, n2, m2, sep, tail);
  }

  /** Equal texts that start with heads of the same length go on alike. */
  lemma StripHead(h1: string, x1: string, h2: string, x2: string)
    requires |h1| == |h2|
    requires h1 + x1 == h2 + x2
    ensures x1 == x2
  {
    assert x1 == (h1 + x1)[|h1|..];
    assert x2 == (h2 + x2)[|h2|..];
  }

  /** Two digit strings joined by a separator that is not a digit, and
      followed by the same text, can be read back apart. */
  lemma NumbersApartUnique(a1: string, b1: string, a2: string, b2: string, sep: string, tail: string)
    requires AllDigits(a1) && AllDigits(b1) && AllDigits(a2) && AllDigits(b2)
    requires sep != [] && !IsDigit(sep[0]) && tail != [] && !IsDigit(tail[0])
    requires a1 + sep + b1 + tail == a2 + sep + b2 + tail
    ensures a1 == a2 && b1 == b2
  {
    ConcatAssoc(a1 + sep, b1, tail);
    ConcatAssoc(a1, sep, b1 + tail);
    ConcatAssoc(a2 + sep, b2, tail);
    ConcatAssoc(a2, sep, b2 + tail);
    DigitsPrefixUnique(a1, sep + (b1 + tail), a2, sep + (b2 + tail));
    assert b1 + tail == (sep + (b1 + tail))[|sep|..];
    assert b2 + tail == (sep + (b2 + tail))[|sep|..];
    DigitsPrefixUnique(b1, tail, b2, tail);
  }

  /** The characters ECMAScript's String.prototype.trim removes from both
      ends: WhiteSpace (TAB, VT, FF, SP, NBSP, ZWNBSP and the Zs category)
      and LineTerminator (LF, CR, LS, PS). */
  predicate IsJsWhitespace(c: char) {
    || c == '\t' || c == '\n' || c == '\U{B}' || c == '\U{C}' || c == '\r'
    || c == ' ' || c == '\U{A0}' || c == '\U{1680}'
    || ('\U{2000}' <= c <= '\U{200A}')
    || c == '\U{2028}' || c == '\U{2029}' || c == '\U{202F}' || c == '\U{205F}'
    || c == '\U{3000}' || c == '\U{FEFF}'
  }

  predicate Blank(s: string) {
    forall i :: 0 <= i < |s| ==> IsJsWhitespace(s[i])
  }

  /** Drops the leading whitespace: the result is a suffix of `s`, what was
      dropped is blank, and the result does not start with whitespace. */
  function TrimStart(s: string): (r: string)
    ensures |r| <= |s| && r == s[|s| - |r|..]
    ensures Blank(s[..|s| - |r|])
    ensures r == [] || !IsJsWhitespace(r[0])
    decreases |s|
  {
    if s != [] && IsJsWhitespace(s[0]) then
      var r := TrimStart(s[1..]);
      assert r == s[|s| - |r|..] by {
        assert s[1..][|s| - 1 - |r|..] == s[|s| - |r|..];
      }
      assert Blank(s[..|s| - |r|]) by {
        assert s[..|s| - |r|] == [s[0]] + s[1..][..|s| - 1 - |r|];
      }
      r
    else s
  }

  /** Drops the trailing whitespace: the result is a prefix of `s`, what was
      dropped is blank, and the result does not end with whitespace. */
  function TrimEnd(s: string): (r: string)
    ensures |r| <= |s| && r == s[..|r|]
    ensures Blank(s[|r|..])
    ensures r == [] || !IsJsWhitespace(r[|r| - 1])
    decreases |s|
  {
    if s != [] && IsJsWhitespace(s[|s| - 1]) then
      var r := TrimEnd(s[..|s| - 1]);
      assert s[|r|..] == s[..|s| - 1][|r|..] + [s[|s| - 1]];
      r
    else s
  }

  /** String.prototype.trim. */
  function Trim(s: string): string {
    TrimEnd(TrimStart(s))
  }

  lemma {:induction false} TrimStartOfBlank(s: string)
    requires Blank(s)
    ensures TrimStart(s) == []
    decreases |s|
  {
    if s != [] {
      TrimStartOfBlank(s[1..]);
    }
  }

  /** `s.trim()` is falsy exactly when `s` is made only of whitespace. */
  lemma TrimEmptyIffBlank(s: string)
    ensures Trim(s) == [] <==> Blank(s)
  {
    var a := TrimStart(s);
    if Trim(s) == [] {
      assert a == [] by {
        assert a[0..] == a;
      }
      assert s[..|s|] == s;
    }
    if Blank(s) {
      TrimStartOfBlank(s);
    }
  }

  lemma ConcatAssoc(a: string, b: string, c: string)
    ensures (a + b) + c == a + (b + c)
  {
  }

  /** Number of occurrences of `c` in `s`. */
  function Occurrences(c: char, s: string): nat
    decreases |s|
  {
    if s == [] then 0 else (if s[0] == c then 1 else 0) + Occurrences(c, s[1..])
  }

  lemma {:induction false} OccurrencesAppend(c: char, a: string, b: string)
    ensures Occurrences(c, a + b) == Occurrences(c, a) + Occurrences(c, b)
    decreases |a|
  {
    if a != [] {
      assert (a + b)[1..] == a[1..] + b;
      OccurrencesAppend(c, a[1..], b);
    } else {
      assert a + b == b;
    }
  }

  lemma {:induction false} OccurrencesNone(c: char, s: string)
    requires forall i :: 0 <= i < |s| ==> s[i] != c
    ensures Occurrences(c, s) == 0
    decreases |s|
  {
    if s != [] {
      OccurrencesNone(c, s[1..]);
    }
  }
}
