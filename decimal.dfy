/** Decimal rendering of non-negative integers: what Ruby's `Integer#to_s`
    and the `%.Nd` conversion of `String#%` produce for the values a time of
    day has. */
module Decimal {

  predicate IsDigit(c: char) {
    '0' <= c <= '9'
  }

  predicate AllDigits(s: string) {
    forall i | 0 <= i < |s| :: IsDigit(s[i])
  }

  /** The character of the decimal digit `d`. */
  function DigitChar(d: nat): (c: char)
    requires d < 10
    ensures IsDigit(c) && DigitValue(c) == d
  {
    (('0' as int) + d) as char
  }

  /** The ten digit characters. */
  lemma DigitChars()
    ensures DigitChar(0) == '0' && DigitChar(1) == '1' && DigitChar(2) == '2'
    ensures DigitChar(3) == '3' && DigitChar(4) == '4' && DigitChar(5) == '5'
    ensures DigitChar(6) == '6' && DigitChar(7) == '7' && DigitChar(8) == '8'
    ensures DigitChar(9) == '9'
  {
  }

  function DigitValue(c: char): (d: nat)
    requires IsDigit(c)
    ensures d < 10
  {
    (c as int) - ('0' as int)
  }

  /** The number a string of decimal digits denotes, read most significant first. */
  function DecimalValue(s: string): nat
    requires AllDigits(s)
  {
    if s == [] then 0 else DecimalValue(s[..|s| - 1]) * 10 + DigitValue(s[|s| - 1])
  }

  /** `Integer#to_s` on a non-negative integer: its shortest decimal numeral. */
  function NatToString(n: nat): (r: string)
    ensures |r| >= 1 && AllDigits(r)
    ensures DecimalValue(r) == n
    ensures n < 10 <==> |r| == 1
    ensures 10 <= n < 100 ==> |r| == 2
    ensures r[0] == '0' ==> n == 0
  {
    if n < 10 then
      [DigitChar(n)]
    else
      var prefix := NatToString(n / 10);
      var r := prefix + [DigitChar(n % 10)];
      assert r[..|r| - 1] == prefix;
      r
  }

  /** The reference rendering of a number below 100 in exactly two digits,
      tens first. */
  function TwoDigits(n: nat): string
    requires n < 100
  {
    [DigitChar(n / 10), DigitChar(n % 10)]
  }

  lemma TwoDigitsValue(n: nat)
    requires n < 100
    ensures |TwoDigits(n)| == 2 && AllDigits(TwoDigits(n))
    ensures DecimalValue(TwoDigits(n)) == n
  {
    var tens := [DigitChar(n / 10)];
    assert tens[..0] == [];
    assert DecimalValue(tens) == n / 10;
    assert TwoDigits(n)[..1] == tens;
    assert DecimalValue(TwoDigits(n)) == (n / 10) * 10 + n % 10;
  }

  lemma TwoDigitsInjective(m: nat, n: nat)
    requires m < 100 && n < 100
    requires TwoDigits(m) == TwoDigits(n)
    ensures m == n
  {
    TwoDigitsValue(m);
    TwoDigitsValue(n);
  }

  /** Three two-digit fields joined by colons are eight characters, from
      which each field's value can be read back. */
  lemma ColonFields(a: nat, b: nat, c: nat)
    requires a < 100 && b < 100 && c < 100
    ensures var r := TwoDigits(a) + ":" + TwoDigits(b) + ":" + TwoDigits(c);
      |r| == 8 && r[2] == ':' && r[5] == ':' &&
      AllDigits(r[0..2]) && DecimalValue(r[0..2]) == a &&
      AllDigits(r[3..5]) && DecimalValue(r[3..5]) == b &&
      AllDigits(r[6..8]) && DecimalValue(r[6..8]) == c
  {
    TwoDigitsValue(a);
    TwoDigitsValue(b);
    TwoDigitsValue(c);
    var r := TwoDigits(a) + ":" + TwoDigits(b) + ":" + TwoDigits(c);
    assert r[0..2] == TwoDigits(a);
    assert r[3..5] == TwoDigits(b);
    assert r[6..8] == TwoDigits(c);
  }

  function Zeros(k: nat): (r: string)
    ensures |r| == k
    ensures forall i | 0 <= i < k :: r[i] == '0'
  {
    if k == 0 then [] else "0" + Zeros(k - 1)
  }

  /** The `%.Nd` conversion of a non-negative integer: its numeral, filled on
      the left with zeros up to `precision` digits. */
  function Precision(n: nat, precision: nat): (r: string)
    ensures |r| == if precision > |NatToString(n)| then precision else |NatToString(n)|
    ensures r[|r| - |NatToString(n)|..] == NatToString(n)
    ensures forall i | 0 <= i < |r| - |NatToString(n)| :: r[i] == '0'
  {
    var digits := NatToString(n);
    if precision > |digits| then Zeros(precision - |digits|) + digits else digits
  }

  /** `%.2d` of a number below 100 is its two-digit form. */
  lemma PrecisionTwo(n: nat)
    requires n < 100
    ensures Precision(n, 2) == TwoDigits(n)
  {
    if n >= 10 {
      assert NatToString(n) == NatToString(n / 10) + [DigitChar(n % 10)];
    }
  }
}
