/** Decimal digits of a natural number: their sum, how the sum splits at a
    power of ten, and the decimal string the number prints as. */
module Digits {
  import opened NumberTheory

  /** The sum of the decimal digits of n (0 for n == 0). */
  function DigitSum(n: nat): nat
    decreases n
  {
    if n == 0 then 0 else n % 10 + DigitSum(n / 10)
  }

  /** The character of a decimal digit. */
  function DigitChar(d: nat): char
    requires d < 10
  {
    ('0' as int + d) as char
  }

  /** The decimal representation of n, most significant digit first, as a
      C++ stream prints it: no sign, no leading zeros, "0" for zero. */
  function Decimal(n: nat): (s: string)
    ensures |s| >= 1 && IsDecimalDigits(s)
    ensures s[0] == '0' <==> n == 0
    decreases n
  {
    if n < 10 then [DigitChar(n)] else Decimal(n / 10) + [DigitChar(n % 10)]
  }

  /** The sum of c - '0' over the characters c of s. */
  function CharSum(s: string): int
    decreases |s|
  {
    if s == [] then 0 else CharSum(s[..|s| - 1]) + (s[|s| - 1] as int - '0' as int)
  }

  /** The number a string of decimal digits denotes, most significant digit
      first. */
  function DecValue(s: string): int
    decreases |s|
  {
    if s == [] then 0 else DecValue(s[..|s| - 1]) * 10 + (s[|s| - 1] as int - '0' as int)
  }

  /** Every character of s is one of '0'..'9'. */
  predicate IsDecimalDigits(s: string)
  {
    forall i :: 0 <= i < |s| ==> '0' <= s[i] <= '9'
  }

  /** DigitSum(n) == n % 10 + DigitSum(n / 10) holds for n == 0 too. */
  lemma DigitSumUnfold(n: nat)
    ensures DigitSum(n) == n % 10 + DigitSum(n / 10)
  {
  }

  /** Cutting n at 10 * m: the low part's last digit is n's last digit, and
      the low part without it is (n / 10) cut at m. */
  lemma ModTenSplit(n: nat, m: nat)
    requires m > 0
    ensures (n % (10 * m)) % 10 == n % 10
    ensures (n % (10 * m)) / 10 == (n / 10) % m
  {
    var q, r := n / (10 * m), n % (10 * m);
    assert n == (10 * m) * q + r;
    var r1, r0 := r / 10, r % 10;
    assert r == 10 * r1 + r0;
    assert n == 10 * (m * q + r1) + r0 by {
      MulAssoc(10, m, q);
    }
    DivModUnique(n, 10, m * q + r1, r0);
    assert r1 < m by {
      if r1 >= m {
        MulLe(m, r1, 10);
      }
    }
    DivModUnique(n / 10, m, q, r1);
  }

  /** The digit sum of n splits at any power of ten 10^k: the digits of
      n mod 10^k plus the digits of n div 10^k. */
  lemma {:induction false} DigitSumSplit(n: nat, k: nat)
    ensures DigitSum(n) == DigitSum(n % Pow(10, k)) + DigitSum(n / Pow(10, k))
    decreases k
  {
    if k == 0 {
      assert n % 1 == 0 && n / 1 == n;
    } else {
      var m := Pow(10, k - 1);
      assert Pow(10, k) == 10 * m;
      DigitSumSplit(n / 10, k - 1);
      ModTenSplit(n, m);
      DivDiv(n, 10, m);
      DigitSumUnfold(n % (10 * m));
    }
  }

  /** The digits of n printed in decimal add up to the digit sum of n. */
  lemma {:induction false} DecimalCharSum(n: nat)
    ensures IsDecimalDigits(Decimal(n)) && |Decimal(n)| >= 1
    ensures CharSum(Decimal(n)) == DigitSum(n)
    decreases n
  {
    if n < 10 {
      assert Decimal(n)[..0] == [];
      if n > 0 {
        assert n / 10 == 0;
      }
    } else {
      DecimalCharSum(n / 10);
      var s := Decimal(n);
      assert s[..|s| - 1] == Decimal(n / 10);
    }
  }

  /** The decimal string of n reads back as n. */
  lemma {:induction false} DecimalValue(n: nat)
    ensures DecValue(Decimal(n)) == n
    decreases n
  {
    var s := Decimal(n);
    if n < 10 {
      assert s[..0] == [];
    } else {
      DecimalValue(n / 10);
      assert s[..|s| - 1] == Decimal(n / 10);
    }
  }

  /** Over a string of decimal digits the character sum is a sum of digit
      values: it lies between 0 and 9 per character. */
  lemma {:induction false} CharSumOfDigits(s: string)
    requires IsDecimalDigits(s)
    ensures 0 <= CharSum(s) <= 9 * |s|
    decreases |s|
  {
    if s != [] {
      CharSumOfDigits(s[..|s| - 1]);
    }
  }
}
