/**
 * Decimal rendering of integers, as a JavaScript template literal renders an
 * integral number (`${id}`): an optional minus sign followed by the digits,
 * without leading zeros.
 */
module Decimal {

  predicate IsDigit(c: char) {
    '0' <= c <= '9'
  }

  function Digit(d: nat): (c: char)
    requires d < 10
    ensures IsDigit(c)
    ensures c as int - '0' as int == d
  {
    ('0' as int + d) as char
  }

  function NatToString(n: nat): string
    decreases n
  {
    if n < 10 then [Digit(n)] else NatToString(n / 10) + [Digit(n % 10)]
  }

  /** `${n}` for an integral number `n`. */
  function IntToString(n: int): string {
    if n < 0 then "-" + NatToString(-n) else NatToString(n)
  }

  /** The rendering of a natural number is a non-empty run of digits, one long exactly below ten. */
  lemma {:induction false} NatToStringDigits(n: nat)
    ensures 1 <= |NatToString(n)|
    ensures |NatToString(n)| == 1 <==> n < 10
    ensures forall i :: 0 <= i < |NatToString(n)| ==> IsDigit(NatToString(n)[i])
    decreases n
  {
    if n >= 10 {
      NatToStringDigits(n / 10);
    }
  }

  /** Distinct natural numbers render differently. */
  lemma {:induction false} NatToStringInjective(a: nat, b: nat)
    requires NatToString(a) == NatToString(b)
    ensures a == b
    decreases a
  {
    NatToStringDigits(a);
    NatToStringDigits(b);
    if a >= 10 && b >= 10 {
      var s := NatToString(a);
      assert s == NatToString(a / 10) + [Digit(a % 10)];
      assert s == NatToString(b / 10) + [Digit(b % 10)];
      assert Digit(a % 10) == s[|s| - 1] == Digit(b % 10);
      assert NatToString(a / 10) == s[..|s| - 1] == NatToString(b / 10);
      NatToStringInjective(a / 10, b / 10);
    } else if a < 10 && b < 10 {
      assert Digit(a) == NatToString(a)[0] == Digit(b);
    }
  }

  /** Every rendering is non-empty and made of digits and a leading minus sign only. */
  lemma IntToStringChars(n: int)
    ensures 1 <= |IntToString(n)|
    ensures IsDigit(IntToString(n)[0]) || IntToString(n)[0] == '-'
    ensures forall i :: 0 <= i < |IntToString(n)| ==> IsDigit(IntToString(n)[i]) || IntToString(n)[i] == '-'
  {
    if n < 0 {
      NatToStringDigits(-n);
    } else {
      NatToStringDigits(n);
    }
  }

  /** A rendering starts with a digit exactly when the number is not negative. */
  lemma IntToStringSign(n: int)
    ensures 1 <= |IntToString(n)|
    ensures IsDigit(IntToString(n)[0]) <==> n >= 0
  {
    if n < 0 {
      NatToStringDigits(-n);
      assert IntToString(n)[0] == '-';
    } else {
      NatToStringDigits(n);
    }
  }

  /** Distinct integers render differently, so an id key names exactly one row. */
  lemma IntToStringInjective(a: int, b: int)
    requires IntToString(a) == IntToString(b)
    ensures a == b
  {
    IntToStringSign(a);
    IntToStringSign(b);
    if a < 0 {
      var s := IntToString(a);
      assert NatToString(-a) == s[1..] == NatToString(-b);
      NatToStringInjective(-a, -b);
    } else {
      NatToStringInjective(a, b);
    }
  }
}
