/**
 * The two number conversions the report generator performs implicitly:
 * writing a counter into a string (`'suite_' + menuID`) and `parseInt`
 * applied to a suite's `errors` attribute, both as ECMAScript defines them.
 */
module JsNumber {
  import opened Wrappers

  predicate IsDecimalDigit(c: char) { '0' <= c <= '9' }

  function DigitChar(d: nat): (c: char)
    requires d < 10
    ensures IsDecimalDigit(c) && c as int - '0' as int == d
  {
    ('0' as int + d) as char
  }

  /** `String(n)` for a non-negative integer: its decimal numeral, with no leading zero. */
  function NatToString(n: nat): (r: string)
    ensures 1 <= |r|
    ensures forall i | 0 <= i < |r| :: IsDecimalDigit(r[i])
    ensures r[0] == '0' <==> n == 0
    ensures |r| == 1 <==> n < 10
    decreases n
  {
    if n < 10 then [DigitChar(n)] else NatToString(n / 10) + [DigitChar(n % 10)]
  }

  /** The two bases `parseInt` reads without an explicit radix. */
  type Radix = r: nat | r == 10 || r == 16 witness 10

  /** The value of `c` as a digit in base `radix` (letters count from 10 on), or -1 if it is none. */
  function DigitValue(c: char, radix: Radix): int
  {
    var v :=
      if '0' <= c <= '9' then c as int - '0' as int
      else if 'a' <= c <= 'z' then c as int - 'a' as int + 10
      else if 'A' <= c <= 'Z' then c as int - 'A' as int + 10
      else -1;
    if 0 <= v < radix then v else -1
  }

  /** Length of the longest prefix of `s` that consists of base-`radix` digits. */
  function DigitRun(s: string, radix: Radix): (n: nat)
    ensures n <= |s|
    ensures forall i | 0 <= i < n :: DigitValue(s[i], radix) >= 0
    ensures n < |s| ==> DigitValue(s[n], radix) < 0
    decreases |s|
  {
    if |s| == 0 || DigitValue(s[0], radix) < 0 then 0 else 1 + DigitRun(s[1..], radix)
  }

  /** The number a run of base-`radix` digits denotes, most significant digit first. */
  function DigitsValue(ds: string, radix: Radix): nat
    requires forall i | 0 <= i < |ds| :: DigitValue(ds[i], radix) >= 0
  {
    if |ds| == 0 then 0
    else
      var high := DigitsValue(ds[..|ds| - 1], radix);
      (if radix == 16 then 16 * high else 10 * high) + DigitValue(ds[|ds| - 1], radix)
  }

  /**
   * StrWhiteSpaceChar of ECMAScript: the white space and line terminator code
   * points that `parseInt` skips at the front of its argument.
   */
  predicate IsStrWhiteSpace(c: char)
  {
    c == '\t' || c == '\U{B}' || c == '\U{C}' || c == ' ' || c == '\U{A0}' || c == '\U{FEFF}'
    || c == '\n' || c == '\r' || c == '\U{2028}' || c == '\U{2029}'
    || c == '\U{1680}' || ('\U{2000}' <= c <= '\U{200A}') || c == '\U{202F}' || c == '\U{205F}'
    || c == '\U{3000}'
  }

  /** `s` without its leading white space: a suffix of `s` that does not start with white space. */
  function TrimStart(s: string): (t: string)
    ensures |t| <= |s| && t == s[|s| - |t|..]
    ensures |t| == 0 || !IsStrWhiteSpace(t[0])
    ensures forall i | 0 <= i < |s| - |t| :: IsStrWhiteSpace(s[i])
    decreases |s|
  {
    if |s| > 0 && IsStrWhiteSpace(s[0]) then TrimStart(s[1..]) else s
  }

  /**
   * The digits after the sign: read in base 16 after a `0x`/`0X` prefix and in
   * base 10 otherwise, from the longest run of digits; `None` when that run is empty.
   */
  function ParseMagnitude(u: string): Option<nat>
  {
    var hex := |u| >= 2 && u[0] == '0' && (u[1] == 'x' || u[1] == 'X');
    var radix: Radix := if hex then 16 else 10;
    var digits := if hex then u[2..] else u;
    var n := DigitRun(digits, radix);
    if n == 0 then None else Some(DigitsValue(digits[..n], radix))
  }

  /**
   * `parseInt(s)` with no radix. `None` stands for NaN; whatever follows the
   * digits is ignored. Negative zero is returned as 0, which compares with 0
   * the same way.
   */
  function ParseInt(s: string): Option<int>
  {
    var t := TrimStart(s);
    var negative := |t| > 0 && t[0] == '-';
    var u := if |t| > 0 && (t[0] == '-' || t[0] == '+') then t[1..] else t;
    match ParseMagnitude(u)
    case None => None
    case Some(v) => Some(if negative then 0 - v else v)
  }

  /** `parseInt(s) > 0`: false for NaN, zero and negative numbers. */
  predicate IsPositiveInt(s: string)
  {
    match ParseInt(s)
    case Some(v) => v > 0
    case None => false
  }

  /** Reading back a decimal numeral gives the number that was written. */
  lemma {:induction false} DecimalRoundTrip(n: nat)
    ensures forall i | 0 <= i < |NatToString(n)| :: DigitValue(NatToString(n)[i], 10) >= 0
    ensures DigitsValue(NatToString(n), 10) == n
    decreases n
  {
    var r := NatToString(n);
    if n >= 10 {
      DecimalRoundTrip(n / 10);
      assert r[..|r| - 1] == NatToString(n / 10);
    }
  }

  /** Distinct numbers are written as distinct numerals. */
  lemma NatToStringInjective(a: nat, b: nat)
    requires a != b
    ensures NatToString(a) != NatToString(b)
  {
    DecimalRoundTrip(a);
    DecimalRoundTrip(b);
  }

  /** A whole run of decimal digits is read completely. */
  lemma {:induction false} DecimalRunIsWhole(ds: string)
    requires forall i | 0 <= i < |ds| :: IsDecimalDigit(ds[i])
    ensures DigitRun(ds, 10) == |ds|
    decreases |ds|
  {
    if |ds| > 0 {
      DecimalRunIsWhole(ds[1..]);
    }
  }

  /** The magnitude read from a numeral is the number it denotes. */
  lemma MagnitudeOfNumeral(n: nat)
    ensures ParseMagnitude(NatToString(n)) == Some(n)
  {
    var r := NatToString(n);
    DecimalRoundTrip(n);
    DecimalRunIsWhole(r);
    assert r[0] == '0' ==> |r| == 1;
    assert r[..|r|] == r;
  }

  /** A numeral has no leading white space to skip. */
  lemma TrimNumeral(s: string)
    requires |s| > 0 && (IsDecimalDigit(s[0]) || s[0] == '-')
    ensures TrimStart(s) == s
  {
    var c := s[0];
    assert '0' <= c <= '9' || c == '-';
    assert !IsStrWhiteSpace(c);
  }

  /** `parseInt(String(n)) == n` for every non-negative integer. */
  lemma ParseIntOfNumeral(n: nat)
    ensures ParseInt(NatToString(n)) == Some(n)
  {
    var r := NatToString(n);
    TrimNumeral(r);
    assert IsDecimalDigit(r[0]);
    assert !(r[0] == '-' || r[0] == '+');
    MagnitudeOfNumeral(n);
  }

  /** `parseInt('-' + String(n)) == -n`: a negative count never reads as positive. */
  lemma ParseIntOfNegativeNumeral(n: nat)
    ensures ParseInt("-" + NatToString(n)) == Some(0 - n)
  {
    var s := "-" + NatToString(n);
    TrimNumeral(s);
    assert s[1..] == NatToString(n);
    MagnitudeOfNumeral(n);
  }

  /** A decimal count in canonical form is positive for parseInt exactly when it is not zero. */
  lemma PositiveNumeral(n: nat)
    ensures IsPositiveInt(NatToString(n)) <==> n > 0
  {
    ParseIntOfNumeral(n);
  }
}
