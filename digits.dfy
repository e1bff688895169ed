/** Decimal digit strings: the number PHP reads out of a numeric string, and the text
    that `sprintf('%d', ...)` writes for a non-negative integer. */
module Digits {

  predicate IsDigit(c: char) {
    '0' <= c <= '9'
  }

  predicate IsDigits(d: string) {
    forall k :: 0 <= k < |d| ==> IsDigit(d[k])
  }

  /** A string made of '0' characters only (possibly empty). */
  predicate IsZeros(z: string) {
    forall k :: 0 <= k < |z| ==> z[k] == '0'
  }

  /** A digit string with no leading zero, as `%d` writes it ("0" is the one string that starts with '0'). */
  predicate IsCanonical(d: string) {
    |d| >= 1 && IsDigits(d) && (d[0] != '0' || |d| == 1)
  }

  function DigitValue(c: char): nat
    requires IsDigit(c)
  {
    c as int - '0' as int
  }

  function DigitChar(n: nat): (c: char)
    requires n < 10
    ensures IsDigit(c) && DigitValue(c) == n
  {
    ('0' as int + n) as char
  }

  /** The integer a string of decimal digits denotes (leading zeros count for nothing). */
  function Value(d: string): nat
    requires IsDigits(d)
    decreases |d|
  {
    if d == [] then 0 else 10 * Value(d[..|d| - 1]) + DigitValue(d[|d| - 1])
  }

  /** `sprintf('%d', n)` for a non-negative integer n: its decimal digits, without leading zeros. */
  function Decimal(n: nat): (r: string)
    ensures IsCanonical(r)
    ensures (r == "0") == (n == 0)
    decreases n
  {
    if n < 10 then [DigitChar(n)] else Decimal(n / 10) + [DigitChar(n % 10)]
  }

  /** Reading back what `%d` wrote gives the number. */
  lemma {:induction false} ValueOfDecimal(n: nat)
    ensures Value(Decimal(n)) == n
    decreases n
  {
    if n >= 10 {
      var d := Decimal(n / 10);
      ValueOfDecimal(n / 10);
      assert Decimal(n) == d + [DigitChar(n % 10)];
      assert (d + [DigitChar(n % 10)])[..|d|] == d;
    }
  }

  lemma {:induction false} PositiveValue(d: string)
    requires IsCanonical(d) && d != "0"
    ensures Value(d) >= 1
    decreases |d|
  {
    if |d| > 1 {
      PositiveValue(d[..|d| - 1]);
    }
  }

  /** Writing with `%d` the number a canonical digit string denotes gives that string back. */
  lemma {:induction false} DecimalOfValue(d: string)
    requires IsCanonical(d)
    ensures Decimal(Value(d)) == d
    decreases |d|
  {
    if |d| > 1 {
      var init := d[..|d| - 1];
      var last := DigitValue(d[|d| - 1]);
      PositiveValue(init);
      DecimalOfValue(init);
      assert Value(d) == 10 * Value(init) + last;
      assert Value(d) / 10 == Value(init) && Value(d) % 10 == last;
      assert d == init + [d[|d| - 1]];
    }
  }

  lemma {:induction false} ZerosValue(z: string)
    requires IsZeros(z)
    ensures IsDigits(z) && Value(z) == 0
    decreases |z|
  {
    if z != [] {
      ZerosValue(z[..|z| - 1]);
    }
  }

  /** Leading zeros do not change the value of a digit string. */
  lemma {:induction false} LeadingZerosIgnored(z: string, d: string)
    requires IsZeros(z) && IsDigits(d)
    ensures IsDigits(z + d) && Value(z + d) == Value(d)
    decreases |d|
  {
    if d == [] {
      assert z + d == z;
      ZerosValue(z);
    } else {
      LeadingZerosIgnored(z, d[..|d| - 1]);
      assert (z + d)[..|z + d| - 1] == z + d[..|d| - 1];
    }
  }

  /** `%d` applied to a numeric string drops its leading zeros and keeps the rest:
      "064" is written "64", "000" is written "0". */
  lemma CanonicalRendering(z: string, d: string)
    requires IsZeros(z) && IsCanonical(d)
    ensures IsDigits(z + d) && Decimal(Value(z + d)) == d
  {
    LeadingZerosIgnored(z, d);
    DecimalOfValue(d);
  }
}
