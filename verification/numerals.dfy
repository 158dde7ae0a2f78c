/** Decimal text of integers, as Kotlin's `Int.toString()` writes it and
    `String.toIntOrNull()` reads it back. */
module Numerals {

  datatype Option<T> = None | Some(value: T)

  const INT_MIN: int := -0x8000_0000
  const INT_MAX: int := 0x7FFF_FFFF

  /** A value of Kotlin's 32-bit `Int`. */
  predicate IsInt32(n: int) {
    INT_MIN <= n <= INT_MAX
  }

  predicate IsDigit(c: char) {
    '0' <= c <= '9'
  }

  predicate AllDigits(s: string) {
    forall i :: 0 <= i < |s| ==> IsDigit(s[i])
  }

  function DigitChar(d: nat): (c: char)
    requires d < 10
    ensures IsDigit(c)
  {
    (d + '0' as int) as char
  }

  function DigitValue(c: char): (d: nat)
    requires IsDigit(c)
    ensures d < 10
  {
    c as int - '0' as int
  }

  /** The digits of a natural number, most significant first, without leading zeros. */
  function NatText(n: nat): (s: string)
    decreases n
  {
    if n < 10 then [DigitChar(n)] else NatText(n / 10) + [DigitChar(n % 10)]
  }

  /** `n.toString()`: a minus sign for negative numbers, then the digits of |n|. */
  function DecimalText(n: int): (s: string)
  {
    if n < 0 then "-" + NatText(-n) else NatText(n)
  }

  /** The value of a run of decimal digits, most significant first. */
  function DigitsValue(s: string): nat
    requires AllDigits(s)
  {
    if s == [] then 0 else DigitsValue(s[..|s| - 1]) * 10 + DigitValue(s[|s| - 1])
  }

  /** `s.toIntOrNull()`: an optional sign followed by at least one decimal digit, whose
      value fits in a 32-bit `Int`; anything else is `null` (here `None`). */
  function ParseInt(s: string): (r: Option<int>)
    ensures r.Some? ==> IsInt32(r.value)
    ensures r.Some? ==> exists i :: 0 <= i < |s| && IsDigit(s[i])
  {
    if |s| == 0 then None
    else if s[0] < '0' then
      if |s| == 1 then None
      else if s[0] == '-' && AllDigits(s[1..]) && DigitsValue(s[1..]) <= -INT_MIN then
        assert IsDigit(s[1]);
        Some(-(DigitsValue(s[1..]) as int))
      else if s[0] == '+' && AllDigits(s[1..]) && DigitsValue(s[1..]) <= INT_MAX then
        assert IsDigit(s[1]);
        Some(DigitsValue(s[1..]))
      else None
    else if AllDigits(s) && DigitsValue(s) <= INT_MAX then
      assert IsDigit(s[0]);
      Some(DigitsValue(s))
    else None
  }

  lemma {:induction false} NatTextDigits(n: nat)
    ensures |NatText(n)| > 0 && AllDigits(NatText(n))
    ensures DigitsValue(NatText(n)) == n
    decreases n
  {
    if n >= 10 {
      NatTextDigits(n / 10);
      var s := NatText(n);
      assert s[..|s| - 1] == NatText(n / 10);
    }
  }

  /** Reading back what `toString()` wrote gives the same `Int`. */
  lemma {:induction false} ParseDecimalText(n: int)
    requires IsInt32(n)
    ensures ParseInt(DecimalText(n)) == Some(n)
  {
    if n < 0 {
      NatTextDigits(-n);
      assert DecimalText(n)[1..] == NatText(-n);
    } else {
      NatTextDigits(n);
    }
  }

  /** Every number from 1000 to 9999 is written with exactly four digits. */
  lemma FourDigitText(n: int)
    requires 1000 <= n <= 9999
    ensures |DecimalText(n)| == 4 && AllDigits(DecimalText(n))
  {
    NatTextDigits(n);
    assert |NatText(n / 1000)| == 1;
    assert |NatText(n / 100)| == 2;
    assert |NatText(n / 10)| == 3;
  }

  /** The text of a number determines it: two different numbers never share a text. */
  lemma DecimalTextInjective(m: int, n: int)
    requires IsInt32(m) && IsInt32(n)
    requires DecimalText(m) == DecimalText(n)
    ensures m == n
  {
    ParseDecimalText(m);
    ParseDecimalText(n);
  }
}
