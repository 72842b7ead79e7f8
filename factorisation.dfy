/** Legendre's formula and the prime-power factorisation of n!: the exponent
    of a prime p in n!, the ascending list of primes up to a bound, the table
    of (prime, exponent) pairs, and the product that rebuilds n! from it. */
module Factorisation {
  import opened NumberTheory

  /** One (prime, exponent) entry of a factorisation table. */
  datatype PrimePower = PrimePower(prime: nat, exponent: nat)

  /** The exponent of p in n!: floor(n/p) + floor(n/p^2) + ..., written as
      floor(n/p) plus the same sum for floor(n/p). */
  function Legendre(n: nat, p: nat): nat
    requires p >= 2
    decreases n
  {
    if n == 0 then 0 else n / p + Legendre(n / p, p)
  }

  /** floor(n/p) + floor(n/p^2) + ... + floor(n/p^k): the sum as the loops
      accumulate it, one power of p at a time. */
  function PowerSum(n: nat, p: nat, k: nat): nat
    requires p >= 2
    decreases k
  {
    if k == 0 then 0 else PowerSum(n, p, k - 1) + n / Pow(p, k)
  }

  /** The largest e with p^e dividing n. */
  function Valuation(n: nat, p: nat): nat
    requires n >= 1 && p >= 2
    decreases n
  {
    if n % p == 0 then 1 + Valuation(n / p, p) else 0
  }

  /** The primes 2 <= p <= m in ascending order. */
  function PrimesUpTo(m: nat): (ps: seq<nat>)
    ensures forall i :: 0 <= i < |ps| ==> 2 <= ps[i] <= m
    decreases m
  {
    if m < 2 then [] else PrimesUpTo(m - 1) + (if IsPrime(m) then [m] else [])
  }

  /** PrimesUpTo(m) lists exactly the primes up to m, in strictly ascending
      order. */
  lemma {:induction false} PrimesUpToSpec(m: nat)
    ensures forall i :: 0 <= i < |PrimesUpTo(m)| ==> IsPrime(PrimesUpTo(m)[i])
    ensures forall i, j :: 0 <= i < j < |PrimesUpTo(m)| ==> PrimesUpTo(m)[i] < PrimesUpTo(m)[j]
    ensures forall p :: 2 <= p <= m && IsPrime(p) ==> p in PrimesUpTo(m)
    decreases m
  {
    if m >= 2 {
      PrimesUpToSpec(m - 1);
      var prev := PrimesUpTo(m - 1);
      assert PrimesUpTo(m) == prev + (if IsPrime(m) then [m] else []);
      forall p | 2 <= p <= m && IsPrime(p)
        ensures p in PrimesUpTo(m)
      {
        if p < m {
          assert p in prev;
        }
      }
    }
  }

  /** Pairs each prime of ps with its exponent in n!. */
  function Tabulate(n: nat, ps: seq<nat>): seq<PrimePower>
    requires forall i :: 0 <= i < |ps| ==> ps[i] >= 2
  {
    seq(|ps|, i requires 0 <= i < |ps| => PrimePower(ps[i], Legendre(n, ps[i])))
  }

  /** The factorisation table of n!: every prime p <= n with its exponent. */
  function FactorTable(n: nat): seq<PrimePower>
  {
    Tabulate(n, PrimesUpTo(n))
  }

  /** The product of p^e over a table. */
  function TableProduct(t: seq<PrimePower>): nat
    decreases |t|
  {
    if t == [] then 1 else Pow(t[0].prime, t[0].exponent) * TableProduct(t[1..])
  }

  // ---------------------------------------------------------------------
  // The Legendre sum

  /** A number below p contributes nothing. */
  lemma LegendreBelow(n: nat, p: nat)
    requires p >= 2 && n < p
    ensures Legendre(n, p) == 0
  {
    DivModUnique(n, p, 0, n);
  }

  lemma LegendreUnfold(m: nat, p: nat)
    requires p >= 2
    ensures Legendre(m, p) == m / p + Legendre(m / p, p)
  {
  }

  /** Once a * p passes n, the rest of the sum, Legendre(n / a, p), is 0. */
  lemma LegendreOfQuotient(n: nat, a: nat, p: nat)
    requires a >= 1 && p >= 2 && n < a * p
    ensures Legendre(n / a, p) == 0
  {
    DivBelow(n, a, p);
    LegendreBelow(n / a, p);
  }

  /** One step of the exponent loop at the power j = prev * p: the term
      n / j is taken off the rest of the sum; after the early exit the rest
      is empty; and the next power is larger. */
  lemma ExponentStep(n: nat, p: nat, prev: nat, j: nat)
    requires p >= 2 && prev >= 1 && j == prev * p
    ensures Legendre(n / prev, p) == n / j + Legendre(n / j, p)
    ensures j > n / p ==> Legendre(n / j, p) == 0
    ensures j < j * p
  {
    LegendreUnfold(n / prev, p);
    DivDiv(n, prev, p);
    if j > n / p {
      BelowFromDiv(n, p, j);
      LegendreOfQuotient(n, j, p);
    }
    MulLe(2, p, j);
  }

  /** For p * p > n the exponent of p in n! is floor(n / p). */
  lemma LegendreLargePrime(n: nat, p: nat)
    requires p >= 2 && n < p * p
    ensures Legendre(n, p) == n / p
  {
    if n > 0 {
      assert n / p < p by {
        DivModUnique(n, p, n / p, n % p);
        if n / p >= p {
          MulMonotone(p, n / p, p);
        }
      }
      LegendreBelow(n / p, p);
    }
  }

  /** Peeling the first term off the power sum. */
  lemma {:induction false} PowerSumShift(n: nat, p: nat, k: nat)
    requires p >= 2 && k >= 1
    ensures PowerSum(n, p, k) == n / p + PowerSum(n / p, p, k - 1)
    decreases k
  {
    if k > 1 {
      PowerSumShift(n, p, k - 1);
      DivDiv(n, p, Pow(p, k - 1));
    }
  }

  /** Legendre(n, p) is the sum of floor(n / p^j) for j = 1..k, for any k
      with p^(k+1) > n: the terms beyond p^k <= n are all zero. */
  lemma {:induction false} LegendreIsPowerSum(n: nat, p: nat, k: nat)
    requires p >= 2 && n < Pow(p, k + 1)
    ensures Legendre(n, p) == PowerSum(n, p, k)
    decreases n
  {
    if k == 0 {
      LegendreBelow(n, p);
    } else if n == 0 {
      PowerSumOfZero(p, k);
    } else {
      DivBelow(n, p, Pow(p, k));
      DivDecreases(n, p);
      LegendreIsPowerSum(n / p, p, k - 1);
      PowerSumShift(n, p, k);
      LegendreUnfold(n, p);
    }
  }

  lemma {:induction false} PowerSumOfZero(p: nat, k: nat)
    requires p >= 2
    ensures PowerSum(0, p, k) == 0
    decreases k
  {
    if k > 0 {
      PowerSumOfZero(p, k - 1);
    }
  }

  /** One below a multiple p * q: quotient q - 1, remainder p - 1. */
  lemma PredecessorOfMultiple(p: nat, q: nat)
    requires p >= 1 && q >= 1
    ensures (p * q - 1) / p == q - 1 && (p * q - 1) % p == p - 1
  {
    assert p * q - 1 == p * (q - 1) + (p - 1) by {
      assert p * (q - 1) == p * q - p;
    }
    DivModUnique(p * q - 1, p, q - 1, p - 1);
  }

  /** At a multiple n of p both sums and the valuation step down to n / p. */
  lemma LegendreAtMultiple(n: nat, p: nat)
    requires n >= 1 && p >= 2 && n % p == 0
    ensures 1 <= n / p < n
    ensures Legendre(n, p) == n / p + Legendre(n / p, p)
    ensures Legendre(n - 1, p) == (n / p - 1) + Legendre(n / p - 1, p)
    ensures Valuation(n, p) == 1 + Valuation(n / p, p)
  {
    var q := n / p;
    assert n == p * q;
    assert 1 <= q < n by {
      MulLe(2, p, q);
    }
    LegendreUnfold(n, p);
    PredecessorOfMultiple(p, q);
    LegendreUnfold(n - 1, p);
  }

  /** Away from the multiples of p nothing changes. */
  lemma LegendreAtNonMultiple(n: nat, p: nat)
    requires n >= 1 && p >= 2 && n % p != 0
    ensures Legendre(n, p) == Legendre(n - 1, p)
    ensures Valuation(n, p) == 0
  {
    DivModUnique(n - 1, p, n / p, n % p - 1);
    LegendreUnfold(n, p);
    LegendreUnfold(n - 1, p);
  }

  /** Going from (n-1)! to n! adds the valuation of n to each exponent. */
  lemma {:induction false} LegendreStep(n: nat, p: nat)
    requires n >= 1 && p >= 2
    ensures Legendre(n, p) == Legendre(n - 1, p) + Valuation(n, p)
    decreases n
  {
    if n % p == 0 {
      LegendreAtMultiple(n, p);
      LegendreStep(n / p, p);
    } else {
      LegendreAtNonMultiple(n, p);
    }
  }

  // ---------------------------------------------------------------------
  // Valuations

  /** Multiplying by a prime q raises the valuation at q by one and leaves
      the valuation at every other prime unchanged. */
  lemma {:induction false} ValuationMul(q: nat, k: nat, p: nat)
    requires IsPrime(q) && IsPrime(p) && k >= 1
    ensures Valuation(q * k, p) == Valuation(k, p) + (if p == q then 1 else 0)
    decreases k
  {
    MulDivMod(q, k);
    if p == q {
      assert Valuation(q * k, p) == 1 + Valuation(k, p);
    } else if k % p == 0 {
      var j := k / p;
      assert k == p * j;
      assert q * k == p * (q * j) by {
        MulAssoc(q, p, j);
        MulAssoc(p, q, j);
      }
      MulDivMod(p, q * j);
      ValuationMul(q, j, p);
    } else {
      if (q * k) % p == 0 {
        DistinctPrimes(p, q);
        Euclid(p, q, k);
      }
    }
  }

  /** The product of p^Valuation(k, p) over the primes p <= m. */
  ghost function ValuationProduct(k: nat, m: nat): nat
    requires k >= 1
    decreases m
  {
    if m < 2 then 1
    else ValuationProduct(k, m - 1) * (if IsPrime(m) then Pow(m, Valuation(k, m)) else 1)
  }

  lemma {:induction false} ValuationProductOfOne(m: nat)
    ensures ValuationProduct(1, m) == 1
    decreases m
  {
    if m >= 2 {
      ValuationProductOfOne(m - 1);
    }
  }

  lemma {:induction false} ValuationProductMul(q: nat, k: nat, m: nat)
    requires IsPrime(q) && k >= 1
    ensures ValuationProduct(q * k, m) == (if q <= m then q else 1) * ValuationProduct(k, m)
    decreases m
  {
    if m >= 2 {
      ValuationProductMul(q, k, m - 1);
      var rest := ValuationProduct(k, m - 1);
      if IsPrime(m) {
        ValuationMul(q, k, m);
        var v := Valuation(k, m);
        if m == q {
          assert Pow(m, v + 1) == m * Pow(m, v);
          calc {
            ValuationProduct(q * k, m);
            ValuationProduct(q * k, m - 1) * Pow(m, v + 1);
            rest * (m * Pow(m, v));
            { MulAssoc(rest, m, Pow(m, v)); MulAssoc(m, rest, Pow(m, v)); }
            m * (rest * Pow(m, v));
          }
        } else {
          var c := if q <= m then q else 1;
          assert q <= m <==> q <= m - 1;
          MulAssoc(c, rest, Pow(m, v));
        }
      } else {
        assert q <= m <==> q <= m - 1;
      }
    }
  }

  /** Every k with 1 <= k <= m is the product of p^Valuation(k, p) over the
      primes p <= m (existence of the prime factorisation). */
  lemma {:induction false} ValuationProductIsSelf(k: nat, m: nat)
    requires 1 <= k <= m
    ensures ValuationProduct(k, m) == k
    decreases k
  {
    if k == 1 {
      ValuationProductOfOne(m);
    } else {
      var q := SmallestDivisor(k);
      SmallestDivisorIsPrime(k);
      var j := k / q;
      DivDecreases(k, q);
      assert k == q * j + 0;
      assert j >= 1;
      ValuationProductIsSelf(j, m);
      ValuationProductMul(q, j, m);
    }
  }

  // ---------------------------------------------------------------------
  // The table and its product

  lemma {:induction false} TableProductConcat(a: seq<PrimePower>, b: seq<PrimePower>)
    ensures TableProduct(a + b) == TableProduct(a) * TableProduct(b)
    decreases |a|
  {
    if a != [] {
      assert (a + b)[1..] == a[1..] + b;
      TableProductConcat(a[1..], b);
      MulAssoc(Pow(a[0].prime, a[0].exponent), TableProduct(a[1..]), TableProduct(b));
    } else {
      assert a + b == b;
    }
  }

  lemma TableProductSingle(x: PrimePower)
    ensures TableProduct([x]) == Pow(x.prime, x.exponent)
  {
    assert [x][1..] == [];
  }

  /** The product over a range does not depend on where the range is split. */
  lemma TableProductSplit(t: seq<PrimePower>, k: nat)
    requires k <= |t|
    ensures TableProduct(t) == TableProduct(t[..k]) * TableProduct(t[k..])
  {
    assert t == t[..k] + t[k..];
    TableProductConcat(t[..k], t[k..]);
  }

  lemma TabulateAppend(n: nat, ps: seq<nat>, p: nat)
    requires forall i :: 0 <= i < |ps| ==> ps[i] >= 2
    requires p >= 2
    ensures Tabulate(n, ps + [p]) == Tabulate(n, ps) + [PrimePower(p, Legendre(n, p))]
  {
  }

  /** The product of p^Legendre(n, p) over the primes p <= m. */
  ghost function LegendreProduct(n: nat, m: nat): nat
    decreases m
  {
    if m < 2 then 1
    else LegendreProduct(n, m - 1) * (if IsPrime(m) then Pow(m, Legendre(n, m)) else 1)
  }

  /** The table of the primes up to m has LegendreProduct as its product. */
  lemma {:induction false} TableProductOfPrimesUpTo(n: nat, m: nat)
    ensures TableProduct(Tabulate(n, PrimesUpTo(m))) == LegendreProduct(n, m)
    decreases m
  {
    if m < 2 {
      assert Tabulate(n, PrimesUpTo(m)) == [];
    } else {
      TableProductOfPrimesUpTo(n, m - 1);
      var before := Tabulate(n, PrimesUpTo(m - 1));
      if IsPrime(m) {
        var last := PrimePower(m, Legendre(n, m));
        TabulateAppend(n, PrimesUpTo(m - 1), m);
        TableProductConcat(before, [last]);
        TableProductSingle(last);
      } else {
        assert PrimesUpTo(m) == PrimesUpTo(m - 1);
      }
    }
  }

  lemma {:induction false} LegendreProductOfZero(m: nat)
    ensures LegendreProduct(0, m) == 1
    decreases m
  {
    if m >= 2 {
      LegendreProductOfZero(m - 1);
    }
  }

  lemma Rearrange(a: nat, b: nat, c: nat, d: nat)
    ensures (a * b) * (c * d) == (a * c) * (b * d)
  {
    MulAssoc(a, b, c * d);
    MulAssoc(b, c, d);
    MulAssoc(c, b, d);
    MulAssoc(a, c, b * d);
  }

  /** Raising n - 1 to n multiplies the product by the factorisation of n. */
  lemma {:induction false} LegendreProductStepN(n: nat, m: nat)
    requires n >= 1
    ensures LegendreProduct(n, m) == LegendreProduct(n - 1, m) * ValuationProduct(n, m)
    decreases m
  {
    if m >= 2 {
      LegendreProductStepN(n, m - 1);
      if IsPrime(m) {
        LegendreStep(n, m);
        PowAdd(m, Legendre(n - 1, m), Valuation(n, m));
        Rearrange(LegendreProduct(n - 1, m - 1), ValuationProduct(n, m - 1),
                  Pow(m, Legendre(n - 1, m)), Pow(m, Valuation(n, m)));
      }
    }
  }

  /** Legendre's theorem, rebuilt: the product of p^Legendre(n, p) over the
      primes p <= m is n! whenever n <= m. */
  lemma {:induction false} LegendreProductIsFactorial(n: nat, m: nat)
    requires n <= m
    ensures LegendreProduct(n, m) == Fact(n)
    decreases n
  {
    if n == 0 {
      LegendreProductOfZero(m);
    } else {
      LegendreProductIsFactorial(n - 1, m);
      LegendreProductStepN(n, m);
      ValuationProductIsSelf(n, m);
      var before, vals := LegendreProduct(n - 1, m), ValuationProduct(n, m);
      assert LegendreProduct(n, m) == before * vals;
      assert before == Fact(n - 1) && vals == n;
      assert Fact(n) == n * Fact(n - 1);
    }
  }

  /** What the factorisation table of n! holds: nothing for n < 2; every
      prime p <= n exactly once, ascending, with exponent Legendre(n, p);
      and its product is n!. */
  lemma FactorTableCorrect(n: nat)
    ensures n < 2 ==> FactorTable(n) == []
    ensures forall i :: 0 <= i < |FactorTable(n)| ==>
      IsPrime(FactorTable(n)[i].prime) && FactorTable(n)[i].prime <= n
      && FactorTable(n)[i].exponent == Legendre(n, FactorTable(n)[i].prime)
    ensures forall i, j :: 0 <= i < j < |FactorTable(n)| ==>
      FactorTable(n)[i].prime < FactorTable(n)[j].prime
    ensures forall p :: 2 <= p <= n && IsPrime(p) ==>
      exists i :: 0 <= i < |FactorTable(n)| && FactorTable(n)[i].prime == p
    ensures TableProduct(FactorTable(n)) == Fact(n)
  {
    var ps := PrimesUpTo(n);
    var t := FactorTable(n);
    PrimesUpToSpec(n);
    if n < 2 {
      assert ps == [];
    }
    forall p | 2 <= p <= n && IsPrime(p)
      ensures exists i :: 0 <= i < |t| && t[i].prime == p
    {
      var i :| 0 <= i < |ps| && ps[i] == p;
      assert t[i].prime == p;
    }
    TableProductOfPrimesUpTo(n, n);
    LegendreProductIsFactorial(n, n);
  }
}
