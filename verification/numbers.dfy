/**
 * Decimal numerals: how JavaScript prints an integer (`${n}`), and how
 * `parseInt(s, 10)` reads one.
 */
module Numbers {
  import opened Wrappers
  import Text

  /** A character of the regular-expression class `\d`: ASCII digits only. */
  predicate IsDigit(c: char) {
    '0' <= c <= '9'
  }

  function DigitValue(c: char): (d: nat)
    requires IsDigit(c)
    ensures d < 10
  {
    c as int - '0' as int
  }

  function DigitChar(d: nat): (c: char)
    requires d < 10
    ensures IsDigit(c) && DigitValue(c) == d
  {
    ('0' as int + d) as char
  }

  predicate AllDigits(s: string) {
    forall i :: 0 <= i < |s| ==> IsDigit(s[i])
  }

  /** The value of a string of decimal digits, most significant first. */
  function DecimalValue(s: string): nat
    requires AllDigits(s)
  {
    if s == [] then 0 else DecimalValue(s[..|s| - 1]) * 10 + DigitValue(s[|s| - 1])
  }

  /** Digits with no superfluous leading zero: the form JavaScript prints a non-negative integer in. */
  predicate IsCanonical(s: string) {
    s != [] && AllDigits(s) && (s[0] == '0' ==> |s| == 1)
  }

  /** `${n}` for a non-negative integer `n`. */
  function NatToString(n: nat): (r: string)
    ensures IsCanonical(r)
  {
    if n < 10 then [DigitChar(n)] else NatToString(n / 10) + [DigitChar(n % 10)]
  }

  /** `${n}` for an integer `n`. */
  function IntToString(n: int): string {
    if n < 0 then "-" + NatToString(-n) else NatToString(n)
  }

  /** Reading back a printed number gives the number. */
  lemma {:induction false} NatToStringRoundTrip(n: nat)
    ensures DecimalValue(NatToString(n)) == n
  {
    if n >= 10 {
      NatToStringRoundTrip(n / 10);
      var s := NatToString(n);
      assert s[..|s| - 1] == NatToString(n / 10);
    }
  }

  lemma {:induction false} LeadingNonZeroPositive(s: string)
    requires s != [] && AllDigits(s) && s[0] != '0'
    ensures DecimalValue(s) >= 1
  {
    if |s| > 1 {
      LeadingNonZeroPositive(s[..|s| - 1]);
    }
  }

  /** Printing the value of a canonical numeral gives the numeral back: distinct canonical numerals have distinct values. */
  lemma {:induction false} CanonicalRoundTrip(s: string)
    requires IsCanonical(s)
    ensures NatToString(DecimalValue(s)) == s
  {
    var p := s[..|s| - 1];
    var d := DigitValue(s[|s| - 1]);
    var v := DecimalValue(s);
    if |s| == 1 {
      assert p == [];
      assert DigitChar(d) == s[0];
    } else {
      LeadingNonZeroPositive(p);
      CanonicalRoundTrip(p);
      assert v == DecimalValue(p) * 10 + d;
      assert v / 10 == DecimalValue(p) && v % 10 == d;
      assert DigitChar(d) == s[|s| - 1];
      assert s == p + [s[|s| - 1]];
    }
  }

  /** The longest prefix of `s` made of digits. */
  function DigitPrefix(s: string): (r: string)
    ensures |r| <= |s| && r == s[..|r|] && AllDigits(r)
    ensures |r| < |s| ==> !IsDigit(s[|r|])
  {
    if s != [] && IsDigit(s[0]) then [s[0]] + DigitPrefix(s[1..]) else []
  }

  /**
   * `parseInt(s, 10)`, `None` standing for NaN: skip leading white space,
   * then read a signed decimal prefix.
   */
  function ParseInt(s: string): Option<int> {
    if s != [] && Text.IsJsSpace(s[0]) then ParseInt(s[1..]) else ParseSigned(s)
  }

  /** An optional sign, then the longest run of digits; no digits is NaN. */
  function ParseSigned(t: string): Option<int> {
    var negative := t != [] && t[0] == '-';
    var u := if t != [] && (t[0] == '-' || t[0] == '+') then t[1..] else t;
    var z := DigitPrefix(u);
    var magnitude: int := if z == [] then 0 else DecimalValue(z);
    if z == [] then None else Some(if negative then -magnitude else magnitude)
  }

  lemma {:induction false} DigitPrefixOfDigits(s: string)
    requires AllDigits(s)
    ensures DigitPrefix(s) == s
  {
    if s != [] {
      DigitPrefixOfDigits(s[1..]);
      assert s == [s[0]] + s[1..];
    }
  }

  /** A run of digits, signed or not, is read as its value. */
  lemma ParseSignedDigits(digits: string)
    requires digits != [] && AllDigits(digits)
    ensures ParseSigned(digits) == Some(DecimalValue(digits) as int)
    ensures ParseSigned("-" + digits) == Some(-(DecimalValue(digits) as int))
  {
    DigitPrefixOfDigits(digits);
    var t := "-" + digits;
    assert t[0] == '-' && t[1..] == digits;
    assert IsDigit(digits[0]) && digits[0] != '-' && digits[0] != '+';
  }

  /** `parseInt` reads back every integer JavaScript prints. */
  lemma ParseIntRoundTrip(n: int)
    ensures ParseInt(IntToString(n)) == Some(n)
  {
    var m := if n < 0 then -n else n;
    var digits := NatToString(m);
    NatToStringRoundTrip(m);
    ParseSignedDigits(digits);
    var s := IntToString(n);
    assert s[0] == '-' || IsDigit(s[0]);
    assert ParseInt(s) == ParseSigned(s);
  }

  /** A text with no digit at all, such as "undefined" for a missing field, parses to NaN. */
  lemma {:induction false} ParseIntNaN(s: string)
    requires forall i :: 0 <= i < |s| ==> !IsDigit(s[i])
    ensures ParseInt(s) == None
  {
    if s != [] && Text.IsJsSpace(s[0]) {
      ParseIntNaN(s[1..]);
    }
  }
}
