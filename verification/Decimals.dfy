/** Decimal numerals: what `printf` prints and `strtoul` reads. */
module Decimals {

  predicate IsDigit(c: char)
  {
    '0' <= c <= '9'
  }

  function DigitValue(c: char): nat
    requires IsDigit(c)
  {
    c as int - '0' as int
  }

  /** `%lu` */
  function Decimal(n: nat): (r: string)
    ensures |r| >= 1 && forall c :: c in r ==> IsDigit(c)
  {
    var d := ['0' + (n % 10) as char];
    if n < 10 then d else Decimal(n / 10) + d
  }

  function Pow10(k: nat): nat
  {
    if k == 0 then 1 else 10 * Pow10(k - 1)
  }

  lemma {:induction false} DecimalLength(n: nat, k: nat)
    requires k >= 1 && n < Pow10(k)
    ensures |Decimal(n)| <= k
  {
    if n >= 10 {
      assert k > 1 by { assert Pow10(1) == 10 * Pow10(0); }
      DecimalLength(n / 10, k - 1);
    }
  }

  /** The value and the end of the digits that start at i, `value` having been read so far. */
  function Digits(s: string, i: nat, value: nat): (nat, nat)
    requires i <= |s|
    decreases |s| - i
  {
    if i < |s| && IsDigit(s[i]) then Digits(s, i + 1, 10 * value + DigitValue(s[i])) else (value, i)
  }

  lemma {:induction false} DigitsBound(s: string, i: nat, value: nat)
    requires i <= |s|
    ensures i <= Digits(s, i, value).1 <= |s|
    decreases |s| - i
  {
    if i < |s| && IsDigit(s[i]) { DigitsBound(s, i + 1, 10 * value + DigitValue(s[i])); }
  }

  // ----- reading what was printed -----

  lemma Shift(value: nat, p: nat, q: nat, r: nat)
    ensures 10 * (value * p + q) + r == value * (10 * p) + (10 * q + r)
  {
    assert 10 * (value * p) == value * (10 * p);
  }

  lemma DigitsStep(s: string, i: nat, value: nat)
    requires i < |s| && IsDigit(s[i])
    ensures Digits(s, i, value) == Digits(s, i + 1, 10 * value + DigitValue(s[i]))
  {
  }

  /** The numeral of n is that of n / 10 and one more digit. */
  lemma LastDigit(n: nat)
    ensures var k := |Decimal(n)|;
      && IsDigit(Decimal(n)[k - 1]) && DigitValue(Decimal(n)[k - 1]) == n % 10
      && (if n < 10 then k == 1 else k == |Decimal(n / 10)| + 1 && Decimal(n)[..k - 1] == Decimal(n / 10))
  {
  }

  lemma Front(s: string, i: nat, k: nat)
    requires k > 0 && i + k <= |s|
    ensures s[i..i + k][..k - 1] == s[i..i + k - 1] && s[i..i + k][k - 1] == s[i + k - 1]
  {
  }

  lemma PowStep(k: nat)
    ensures Pow10(k + 1) == 10 * Pow10(k) && Pow10(0) == 1
  {
  }

  /** Reading the digits of n from left to right computes n. */
  lemma {:induction false} ReadsDecimal(s: string, i: nat, n: nat, value: nat)
    requires i + |Decimal(n)| <= |s| && s[i..i + |Decimal(n)|] == Decimal(n)
    ensures Digits(s, i, value) == Digits(s, i + |Decimal(n)|, value * Pow10(|Decimal(n)|) + n)
    decreases n
  {
    hide Decimal, Pow10, Digits, IsDigit, DigitValue;
    var k := |Decimal(n)|;
    var last := i + k - 1;
    LastDigit(n);
    Front(s, i, k);
    PowStep(k - 1);
    var q := n / 10;
    Shift(value, Pow10(k - 1), q, n % 10);
    DigitsStep(s, last, value * Pow10(k - 1) + q);
    if n >= 10 {
      ReadsDecimal(s, i, q, value);
    } else {
      assert q == 0 && value * 1 == value;
    }
  }
}
