/** Decimal text of integers, as Java writes them (`"" + aLong`,
    `String.valueOf(anInt)`) and reads them back (`Long.parseLong`). */
module Decimal {
  import opened Common

  predicate IsDigit(c: char) { '0' <= c <= '9' }

  predicate AllDigits(s: string) {
    forall i :: 0 <= i < |s| ==> IsDigit(s[i])
  }

  function DigitChar(d: int): (c: char)
    requires 0 <= d < 10
    ensures IsDigit(c)
  {
    (48 + d) as char
  }

  function DigitValue(c: char): (d: int)
    requires IsDigit(c)
    ensures 0 <= d < 10
  {
    c as int - 48
  }

  /** Shortest decimal text of a non-negative number (no leading zero). */
  function NatToDecimal(n: nat): (r: string)
    ensures |r| > 0 && AllDigits(r)
    ensures |r| > 1 ==> r[0] != '0'
  {
    if n < 10 then [DigitChar(n)] else NatToDecimal(n / 10) + [DigitChar(n % 10)]
  }

  /** Java's decimal rendering of an integer: a leading '-' for negatives. */
  function ToDecimal(n: int): (r: string)
    ensures |r| > 0
    ensures n >= 0 <==> AllDigits(r)
    ensures n < 0 ==> r[0] == '-' && |r| > 1 && AllDigits(r[1..])
  {
    if n >= 0 then NatToDecimal(n)
    else
      var r := "-" + NatToDecimal(-n);
      assert !IsDigit(r[0]);
      r
  }

  /** The number an all-digit string denotes (leading zeros allowed). */
  function DigitsValue(s: string): nat
    requires AllDigits(s)
  {
    if |s| == 0 then 0 else DigitsValue(s[..|s| - 1]) * 10 + DigitValue(s[|s| - 1])
  }

  /** `Long.parseLong` on ASCII input: an optional sign, at least one digit,
      and a result within the `long` range; anything else throws
      NumberFormatException, modelled as None. */
  function ParseLong(s: string): (r: Option<int>)
    ensures r.Some? ==> IsLong(r.value)
    ensures r.Some? ==> |s| > 0
    ensures |s| > 0 && AllDigits(s) ==> (r.Some? <==> DigitsValue(s) <= LongMax)
    ensures r.Some? && r.value >= 0 && AllDigits(s) ==> r.value == DigitsValue(s)
  {
    if |s| == 0 then None
    else if s[0] == '-' || s[0] == '+' then
      var body := s[1..];
      if |body| == 0 || !AllDigits(body) then None
      else
        var d: int := DigitsValue(body);
        var v := if s[0] == '-' then -d else d;
        if IsLong(v) then Some(v) else None
    else if !AllDigits(s) then None
    else if DigitsValue(s) <= LongMax then Some(DigitsValue(s))
    else None
  }

  lemma {:induction false} NatToDecimalValue(n: nat)
    ensures DigitsValue(NatToDecimal(n)) == n
    decreases n
  {
    if n >= 10 {
      NatToDecimalValue(n / 10);
      var r := NatToDecimal(n);
      assert r[..|r| - 1] == NatToDecimal(n / 10);
    }
  }

  /** Reading back what Java wrote gives the original number, for every
      `long`. */
  lemma DecimalRoundTrip(n: int)
    requires IsLong(n)
    ensures ParseLong(ToDecimal(n)) == Some(n)
  {
    if n >= 0 {
      NatToDecimalValue(n);
    } else {
      NatToDecimalValue(-n);
      var r := ToDecimal(n);
      assert r[1..] == NatToDecimal(-n);
    }
  }

  /** Distinct numbers get distinct decimal texts. */
  lemma ToDecimalInjective(a: int, b: int)
    requires IsLong(a) && IsLong(b) && ToDecimal(a) == ToDecimal(b)
    ensures a == b
  {
    DecimalRoundTrip(a);
    DecimalRoundTrip(b);
  }
}
