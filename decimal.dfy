/** Decimal rendering of natural numbers, as Rust's `{}` and `{:02}` print
    unsigned integers, and the parser that reads such a rendering back. */
module Decimal {

  predicate IsDigit(c: char) {
    '0' <= c <= '9'
  }

  predicate IsDigits(s: string) {
    forall i :: 0 <= i < |s| ==> IsDigit(s[i])
  }

  function DigitChar(d: nat): (c: char)
    requires d < 10
    ensures IsDigit(c)
  {
    ('0' as int + d) as char
  }

  function DigitValue(c: char): (d: nat)
    requires IsDigit(c)
    ensures d < 10
  {
    c as int - '0' as int
  }

  /** Rust's `{}` for an unsigned integer: the shortest decimal rendering. */
  function DecimalString(n: nat): string {
    if n < 10 then [DigitChar(n)] else DecimalString(n / 10) + [DigitChar(n % 10)]
  }

  /** The rendering is a nonempty string of digits with no leading zero
      (except 0 itself), one digit long below 10 and at most two below 100. */
  lemma {:induction false} DecimalStringShape(n: nat)
    ensures var s := DecimalString(n);
      && |s| >= 1 && IsDigits(s)
      && (s[0] == '0' <==> n == 0)
      && (n < 10 <==> |s| == 1)
      && (n < 100 <==> |s| <= 2)
  {
    if n >= 10 {
      DecimalStringShape(n / 10);
    }
  }

  /** The value of a string of decimal digits (the empty string reads as 0). */
  function DecimalValue(s: string): nat
    requires IsDigits(s)
  {
    if s == [] then 0 else DecimalValue(s[..|s| - 1]) * 10 + DigitValue(s[|s| - 1])
  }

  lemma {:induction false} DecimalRoundTrip(n: nat)
    ensures IsDigits(DecimalString(n)) && DecimalValue(DecimalString(n)) == n
  {
    var s := DecimalString(n);
    DecimalStringShape(n);
    if n >= 10 {
      DecimalStringShape(n / 10);
      DecimalRoundTrip(n / 10);
      assert s[..|s| - 1] == DecimalString(n / 10);
    }
  }

  /** Leading zeros do not change the value of a digit string. */
  lemma {:induction false} DecimalValueLeadingZero(s: string)
    requires IsDigits(s)
    ensures DecimalValue("0" + s) == DecimalValue(s)
  {
    if s != [] {
      var t := "0" + s;
      assert t[..|t| - 1] == "0" + s[..|s| - 1];
      DecimalValueLeadingZero(s[..|s| - 1]);
    }
  }

  /** Rust's `{:02}` for an unsigned integer: zero-padded to at least two digits. */
  function ZeroPad2(n: nat): string {
    if n < 10 then "0" + DecimalString(n) else DecimalString(n)
  }

  /** The padded rendering has at least two digits, exactly two below 100,
      and reads back as the number. */
  lemma ZeroPad2Value(n: nat)
    ensures var s := ZeroPad2(n);
      && |s| >= 2 && IsDigits(s)
      && (n < 100 <==> |s| == 2)
      && DecimalValue(s) == n
  {
    DecimalStringShape(n);
    DecimalRoundTrip(n);
    if n < 10 {
      DecimalValueLeadingZero(DecimalString(n));
    }
  }

  /** Below 100 the padded rendering is the tens digit, then the units digit. */
  lemma ZeroPad2Digits(n: nat)
    requires n < 100
    ensures ZeroPad2(n) == [DigitChar(n / 10), DigitChar(n % 10)]
  {
    if n >= 10 {
      assert DecimalString(n / 10) == [DigitChar(n / 10)];
    }
  }
}
