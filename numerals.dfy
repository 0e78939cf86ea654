/**
 * Decimal numerals as .NET writes and reads them: the custom format "00"
 * used by string interpolation (`{x:00}`) and `int.Parse`.
 */
module Numerals {
  import opened Wrappers

  /** The exceptions the parsing path of the backup engine can raise. */
  datatype Exception =
    | FormatException              // int.Parse given something that is not a number
    | OverflowException            // int.Parse given a number outside 32 bits
    | IndexOutOfRangeException     // an array index past the end
    | ArgumentOutOfRangeException  // a DateTime field or a Substring start out of range

  const MinInt32: int := -0x8000_0000
  const MaxInt32: int := 0x7FFF_FFFF

  /** A C# `int`. */
  type Int32 = x: int | MinInt32 <= x <= MaxInt32

  predicate IsDigit(c: char) {
    '0' <= c <= '9'
  }

  predicate AllDigits(s: string) {
    forall k :: 0 <= k < |s| ==> IsDigit(s[k])
  }

  function DigitValue(c: char): nat
    requires IsDigit(c)
  {
    c as int - '0' as int
  }

  function DigitChar(d: nat): (c: char)
    requires d < 10
    ensures IsDigit(c) && DigitValue(c) == d
  {
    ('0' as int + d) as char
  }

  /** The shortest decimal numeral of `n`, most significant digit first. */
  function Decimal(n: nat): (r: string)
    ensures |r| >= 1 && AllDigits(r)
    ensures n >= 10 ==> |r| >= 2
    decreases n
  {
    if n < 10 then [DigitChar(n)] else Decimal(n / 10) + [DigitChar(n % 10)]
  }

  /** The value of a string of decimal digits. */
  function DigitsValue(s: string): nat
    requires AllDigits(s)
    decreases |s|
  {
    if s == [] then 0 else DigitsValue(s[..|s| - 1]) * 10 + DigitValue(s[|s| - 1])
  }

  /** `n.ToString("00")`: the decimal numeral, padded with zeros to at least
      two digits. */
  function Format00(n: nat): (r: string)
    ensures |r| >= 2 && AllDigits(r)
  {
    if n < 10 then "0" + Decimal(n) else Decimal(n)
  }

  lemma {:induction false} DecimalRoundTrip(n: nat)
    ensures DigitsValue(Decimal(n)) == n
    decreases n
  {
    if n >= 10 {
      var r := Decimal(n);
      assert r[..|r| - 1] == Decimal(n / 10);
      DecimalRoundTrip(n / 10);
    }
  }

  /** A leading zero does not change the value of a numeral. */
  lemma {:induction false} LeadingZero(s: string)
    requires AllDigits(s)
    ensures DigitsValue("0" + s) == DigitsValue(s)
    decreases |s|
  {
    if s != [] {
      var z := "0" + s;
      assert z[..|z| - 1] == "0" + s[..|s| - 1];
      LeadingZero(s[..|s| - 1]);
    }
  }

  /** Reading back the "00" format gives the number that was written. */
  lemma Format00RoundTrip(n: nat)
    ensures DigitsValue(Format00(n)) == n
  {
    DecimalRoundTrip(n);
    if n < 10 {
      LeadingZero(Decimal(n));
    }
  }

  /** `int.Parse(s)`: an optional sign followed by one or more digits, whose
      value must fit in 32 bits. */
  function ParseInt32(s: string): (r: Result<Int32, Exception>)
    ensures r.Failure? ==> r.error in {FormatException, OverflowException}
  {
    var signed := |s| > 0 && (s[0] == '-' || s[0] == '+');
    var digits := if signed then s[1..] else s;
    if digits == [] || !AllDigits(digits) then Failure(FormatException)
    else
      var v: int := if signed && s[0] == '-' then 0 - DigitsValue(digits) as int else DigitsValue(digits);
      if MinInt32 <= v <= MaxInt32 then Success(v) else Failure(OverflowException)
  }

  /** `int.Parse` reads back every 32-bit natural written with "00". */
  lemma ParseFormat00(n: nat)
    requires n <= MaxInt32
    ensures ParseInt32(Format00(n)) == Success(n)
  {
    Format00RoundTrip(n);
    var s := Format00(n);
    assert IsDigit(s[0]);
  }
}
