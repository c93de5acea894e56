/**
 Decimal numerals as the proxy writes and reads them.
 */
module Decimals {

  predicate IsDigit(c: char) {
    '0' <= c <= '9'
  }

  function DigitValue(c: char): (n: nat)
    requires IsDigit(c)
    ensures n < 10
  {
    c as int - '0' as int
  }

  function Digit(n: nat): (c: char)
    requires n < 10
    ensures IsDigit(c) && DigitValue(c) == n
  {
    ('0' as int + n) as char
  }

  predicate AllDigits(s: string) {
    forall i :: 0 <= i < |s| ==> IsDigit(s[i])
  }

  /** The end of the digit run from `i` on. */
  function DigitsEnd(s: string, i: nat): (e: nat)
    requires i <= |s|
    ensures i <= e <= |s| && (forall k :: i <= k < e ==> IsDigit(s[k])) && (e < |s| ==> !IsDigit(s[e]))
    decreases |s| - i
  {
    if i < |s| && IsDigit(s[i]) then DigitsEnd(s, i + 1) else i
  }

  /** The number written at `i..e`. */
  function Decimal(s: string, i: nat, e: nat): nat
    requires e <= |s| && forall k :: i <= k < e ==> IsDigit(s[k])
    decreases e
  {
    if e <= i then 0
    else
      assert IsDigit(s[e - 1]);
      10 * Decimal(s, i, e - 1) + DigitValue(s[e - 1])
  }

  /** The numeral of `n`, without leading zeros. */
  function Numeral(n: nat): (s: string)
    ensures |s| >= 1 && AllDigits(s)
    decreases n
  {
    if n < 10 then [Digit(n)] else Numeral(n / 10) + [Digit(n % 10)]
  }

  lemma DigitsFound(s: string, i: nat, e: nat)
    requires i <= e <= |s| && (forall k :: i <= k < e ==> IsDigit(s[k])) && (e < |s| ==> !IsDigit(s[e]))
    ensures DigitsEnd(s, i) == e
  {
  }

  lemma {:induction false} DecimalGrows(s: string, i: nat, a: nat, b: nat)
    requires a <= b <= |s| && forall k :: i <= k < b ==> IsDigit(s[k])
    ensures Decimal(s, i, a) <= Decimal(s, i, b)
    decreases b
  {
    if a < b { DecimalGrows(s, i, a, b - 1); }
  }

  /** The number depends only on the digits, not on where they stand. */
  lemma {:induction false} DecimalSame(s: string, i: nat, t: string, n: nat)
    requires i + n <= |s| && n <= |t| && forall k :: 0 <= k < n ==> s[i + k] == t[k] && IsDigit(t[k])
    ensures forall k :: i <= k < i + n ==> IsDigit(s[k])
    ensures Decimal(s, i, i + n) == Decimal(t, 0, n)
    decreases n
  {
    forall k | i <= k < i + n ensures IsDigit(s[k]) {
      assert IsDigit(t[k - i]);
    }
    if n > 0 {
      DecimalSame(s, i, t, n - 1);
      assert s[i + n - 1] == t[n - 1];
    }
  }

  lemma OneDigit(c: char)
    requires IsDigit(c)
    ensures Decimal([c], 0, 1) == DigitValue(c)
  {
    assert Decimal([c], 0, 0) == 0;
  }

  lemma DigitBehind(t: string, c: char)
    requires AllDigits(t) && IsDigit(c)
    ensures Decimal(t + [c], 0, |t| + 1) == 10 * Decimal(t, 0, |t|) + DigitValue(c)
  {
    DecimalSame(t + [c], 0, t, |t|);
  }

  lemma {:induction false} NumeralRoundTrip(n: nat)
    ensures Decimal(Numeral(n), 0, |Numeral(n)|) == n
    decreases n
  {
    hide Decimal;
    if n < 10 {
      OneDigit(Digit(n));
    } else {
      var t := Numeral(n / 10);
      NumeralRoundTrip(n / 10);
      DigitBehind(t, Digit(n % 10));
    }
  }
}
