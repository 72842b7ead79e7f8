/** Elementary number theory on unbounded naturals: powers, factorials,
    divisibility, primality, integer square roots and Euclid's lemma. */
module NumberTheory {

  /** b raised to the e-th power. */
  function Pow(b: nat, e: nat): (r: nat)
    ensures b >= 1 ==> r >= 1
    decreases e
  {
    if e == 0 then 1 else b * Pow(b, e - 1)
  }

  /** n! */
  function Fact(n: nat): nat
    decreases n
  {
    if n == 0 then 1 else n * Fact(n - 1)
  }

  /** A prime has no divisor strictly between 1 and itself. */
  predicate IsPrime(p: nat)
  {
    p >= 2 && forall d :: 2 <= d < p ==> p % d != 0
  }

  lemma {:induction false} PowAdd(b: nat, x: nat, y: nat)
    ensures Pow(b, x + y) == Pow(b, x) * Pow(b, y)
    decreases x
  {
    if x > 0 {
      PowAdd(b, x - 1, y);
      assert Pow(b, x + y) == b * Pow(b, (x - 1) + y);
      MulAssoc(b, Pow(b, x - 1), Pow(b, y));
    }
  }

  lemma {:induction false} PowMonotone(b: nat, x: nat, y: nat)
    requires b >= 1 && x <= y
    ensures Pow(b, x) <= Pow(b, y)
    decreases y
  {
    if x < y {
      PowMonotone(b, x, y - 1);
      MulMonotone(1, b, Pow(b, y - 1));
    }
  }

  lemma MulAssoc(a: int, b: int, c: int)
    ensures a * (b * c) == (a * b) * c
  {
  }

  lemma MulNonNegative(p: int, x: int)
    requires p > 0 && p * x >= 0
    ensures x >= 0
  {
  }

  lemma MulMonotone(a: nat, b: nat, c: nat)
    requires a <= b
    ensures a * c <= b * c
  {
  }

  lemma MulStrictMonotone(a: nat, b: nat, c: nat)
    requires a < b && c > 0
    ensures a * c < b * c
  {
  }

  /** Division with remainder is unique: if a == p*q + r with 0 <= r < p,
      then q and r are a / p and a % p. */
  lemma DivModUnique(a: int, p: int, q: int, r: int)
    requires p > 0 && 0 <= r < p && a == p * q + r
    ensures a / p == q && a % p == r
  {
    var d := q - a / p;
    assert p * d == a % p - r;
    MulBoundZero(p, d);
  }

  /** The only multiple of p strictly between -p and p is 0. */
  lemma MulBoundZero(p: int, x: int)
    requires p > 0 && -p < p * x < p
    ensures x == 0
  {
    if x > 0 {
      MulLe(1, x, p);
    } else if x < 0 {
      MulLe(x, -1, p);
    }
  }

  lemma MulLe(a: int, b: int, c: int)
    requires a <= b && c >= 0
    ensures a * c <= b * c
  {
  }

  lemma MulDivMod(p: nat, x: nat)
    requires p > 0
    ensures (p * x) % p == 0 && (p * x) / p == x
  {
    DivModUnique(p * x, p, x, 0);
  }

  /** Dividing a positive n by p >= 2 makes it smaller. */
  lemma DivDecreases(n: nat, p: nat)
    requires n >= 1 && p >= 2
    ensures n / p < n
  {
    assert n == p * (n / p) + n % p;
    MulLe(2, p, n / p);
  }

  /** n < a * b means n / a < b. */
  lemma DivBelow(n: nat, a: nat, b: nat)
    requires a > 0 && n < a * b
    ensures n / a < b
  {
    DivModUnique(n, a, n / a, n % a);
    if n / a >= b {
      MulLe(b, n / a, a);
    }
  }

  /** n / a < b means n < a * b. */
  lemma BelowFromDiv(n: nat, a: nat, b: nat)
    requires a > 0 && n / a < b
    ensures n < a * b
  {
    DivModUnique(n, a, n / a, n % a);
    MulLe(n / a + 1, b, a);
  }

  /** t is the multiple p * m exactly when p divides t with quotient m. */
  lemma MultipleAt(t: nat, p: nat, m: nat)
    requires p > 0
    ensures (t % p == 0 && t / p == m) <==> t == p * m
  {
    MulDivMod(p, m);
  }

  lemma ModSelf(n: nat)
    requires n >= 1
    ensures n % n == 0
  {
    DivModUnique(n, n, 1, 0);
  }

  /** (n / a) / b == n / (a * b) */
  lemma DivDiv(n: nat, a: nat, b: nat)
    requires a > 0 && b > 0
    ensures n / a / b == n / (a * b)
  {
    var q1, r1 := n / a, n % a;
    var q2, r2 := q1 / b, q1 % b;
    assert n == a * q1 + r1;
    assert q1 == b * q2 + r2;
    assert n == (a * b) * q2 + (a * r2 + r1) by {
      assert a * q1 == a * (b * q2) + a * r2;
      MulAssoc(a, b, q2);
    }
    assert a * r2 + r1 < a * b by {
      MulMonotone(r2 + 1, b, a);
    }
    DivModUnique(n, a * b, q2, a * r2 + r1);
  }

  /** Divisibility is transitive. */
  lemma DividesTrans(d: nat, m: nat, n: nat)
    requires d > 0 && m > 0 && m % d == 0 && n % m == 0
    ensures n % d == 0
  {
    var a, b := m / d, n / m;
    assert m == d * a && n == m * b;
    MulAssoc(d, a, b);
    MulDivMod(d, a * b);
  }

  /** The least divisor of n that is at least d; all divisors in [2, d) are
      already excluded. */
  function SmallestDivisorFrom(n: nat, d: nat): (r: nat)
    requires 2 <= d <= n
    requires forall e :: 2 <= e < d ==> n % e != 0
    ensures d <= r <= n && n % r == 0
    ensures forall e :: 2 <= e < r ==> n % e != 0
    decreases n - d
  {
    if n % d == 0 then d
    else
      ModSelf(n);
      SmallestDivisorFrom(n, d + 1)
  }

  /** The least divisor of n greater than 1. */
  function SmallestDivisor(n: nat): (r: nat)
    requires n >= 2
    ensures 2 <= r <= n && n % r == 0
    ensures forall e :: 2 <= e < r ==> n % e != 0
  {
    SmallestDivisorFrom(n, 2)
  }

  /** The least divisor greater than 1 is prime. */
  lemma SmallestDivisorIsPrime(n: nat)
    requires n >= 2
    ensures IsPrime(SmallestDivisor(n))
  {
    var q := SmallestDivisor(n);
    forall e | 2 <= e < q
      ensures q % e != 0
    {
      if q % e == 0 {
        DividesTrans(e, q, n);
      }
    }
  }

  /** A number that is not prime has a prime divisor whose square does not
      exceed it. */
  lemma {:induction false} CompositeHasSmallPrimeFactor(n: nat)
    requires n >= 2 && !IsPrime(n)
    ensures var q := SmallestDivisor(n);
      IsPrime(q) && q < n && n % q == 0 && q * q <= n
  {
    var q := SmallestDivisor(n);
    SmallestDivisorIsPrime(n);
    assert q < n;
    var k := n / q;
    assert n == q * k;
    assert k >= 2;
    assert n % k == 0 by { MulDivMod(k, q); assert n == k * q; }
    assert q <= k;
    MulMonotone(q, k, q);
  }

  /** Trial division up to the square root decides primality. */
  lemma PrimeIffNoSmallDivisor(n: nat)
    requires n >= 2
    ensures IsPrime(n) <==> forall d :: 2 <= d && d * d <= n ==> n % d != 0
  {
    if IsPrime(n) {
      forall d | 2 <= d && d * d <= n
        ensures n % d != 0
      {
        MulStrictMonotone(1, d, d);
      }
    } else {
      CompositeHasSmallPrimeFactor(n);
    }
  }

  /** Two distinct primes do not divide each other. */
  lemma DistinctPrimes(p: nat, q: nat)
    requires IsPrime(p) && IsPrime(q) && p != q
    ensures q % p != 0
  {
  }

  /** Euclid's lemma: a prime that divides a product divides one of the
      factors. */
  lemma Euclid(p: nat, a: nat, b: nat)
    requires IsPrime(p) && (a * b) % p == 0 && a % p != 0
    ensures b % p == 0
  {
    var k, r := a / p, a % p;
    assert a == p * k + r;
    assert a * b == p * (k * b) + r * b by {
      assert a * b == (p * k) * b + r * b;
      MulAssoc(p, k, b);
    }
    assert (r * b) % p == 0 by {
      var t := (a * b) / p;
      assert a * b == p * t;
      assert r * b == p * (t - k * b);
      MulNonNegative(p, t - k * b);
      MulDivMod(p, t - k * b);
    }
    EuclidBelow(p, r, b);
  }

  /** Euclid's lemma for a factor strictly between 0 and p, by descent on
      that factor: p mod a is a smaller factor with the same property. */
  lemma {:induction false} EuclidBelow(p: nat, a: nat, b: nat)
    requires IsPrime(p) && 0 < a < p && (a * b) % p == 0
    ensures b % p == 0
    decreases a
  {
    if a > 1 {
      var q, r := p / a, p % a;
      assert p == a * q + r;
      assert r > 0;
      // r * b == p * b - q * (a * b), a multiple of p
      var t := (a * b) / p;
      assert a * b == p * t;
      assert r * b == p * (b - q * t) by {
        calc {
          r * b;
          (p - a * q) * b;
          p * b - (a * q) * b;
          { MulAssoc(a, q, b); assert (a * q) * b == q * (a * b); }
          p * b - q * (a * b);
          p * b - q * (p * t);
          { MulAssoc(q, p, t); }
          p * (b - q * t);
        }
      }
      MulNonNegative(p, b - q * t);
      MulDivMod(p, b - q * t);
      EuclidBelow(p, r, b);
    }
  }

  /** The integer square root: the largest r with r * r <= n. */
  function FloorSqrt(n: nat): (r: nat)
    ensures r * r <= n < (r + 1) * (r + 1)
    decreases n
  {
    if n == 0 then 0
    else
      var s := FloorSqrt(n - 1);
      if (s + 1) * (s + 1) <= n then s + 1 else s
  }

  /** Squares are strictly monotone on naturals. */
  lemma SquareLess(a: nat, b: nat)
    requires a * a < b * b
    ensures a < b
  {
    if a >= b {
      MulMonotone(b, a, b);
      MulMonotone(b, a, a);
    }
  }
}
