/** The segmented-sieve factorial solver: the prime-power table of n! by a
    segmented Sieve of Eratosthenes and Legendre's formula, the
    divide-and-conquer product that rebuilds n! from it, and the digit sum
    taken in base-10^18 chunks. */
module SegmentedSieve {
  import opened NumberTheory
  import opened Factorisation
  import opened Digits

  /** Width of one sieve segment (1 << 16). */
  const SEGMENT_SIZE: nat := 65536

  /** Ranges shorter than this are multiplied serially. */
  const SERIAL_CUTOFF: nat := 32

  /** 10^18, the chunk base of the digit sum; it fits an unsigned long. */
  const CHUNK_BASE: nat := 1000000000000000000

  /** 2^64: every value below it fits an unsigned 64-bit integer. */
  const ULONG_LIMIT: nat := 0x1_0000_0000_0000_0000

  function Min(a: nat, b: nat): nat
  {
    if a <= b then a else b
  }

  /** No d in [2, bound) with d * d <= t divides t: what the base sieve knows
      about t once every d below bound has been processed. */
  predicate NoSmallDivisorBelow(t: nat, bound: nat)
  {
    forall d :: 2 <= d < bound && d * d <= t ==> t % d != 0
  }

  /** Some element of ps divides j. */
  predicate HasFactorIn(j: nat, ps: seq<nat>)
  {
    exists k :: 0 <= k < |ps| && ps[k] > 0 && j % ps[k] == 0
  }

  // ---------------------------------------------------------------------
  // Step 1: the base primes up to floor(sqrt(n))

  /** Crossing off the multiples t of p with t / p >= p (that is, from
      p * p on) extends the knowledge from divisors below p to divisors
      below p + 1. */
  lemma SieveStepCrossOff(t: nat, p: nat)
    requires p >= 2
    ensures (NoSmallDivisorBelow(t, p) && !(t % p == 0 && p <= t / p))
            <==> NoSmallDivisorBelow(t, p + 1)
  {
    if t % p == 0 {
      var k := t / p;
      assert t == p * k;
      if p <= k {
        MulLe(p, k, p);
      } else {
        MulLe(k + 1, p, p);
      }
    }
  }

  /** A p that is already crossed off has a smaller divisor d, which divides
      every multiple of p as well, so skipping p loses nothing. */
  lemma SieveStepSkip(t: nat, p: nat)
    requires p >= 2 && !NoSmallDivisorBelow(p, p)
    ensures NoSmallDivisorBelow(t, p) <==> NoSmallDivisorBelow(t, p + 1)
  {
    if NoSmallDivisorBelow(t, p) && t % p == 0 && p * p <= t {
      var d :| 2 <= d < p && d * d <= p && p % d == 0;
      DividesTrans(d, p, t);
      MulLe(1, p, p);
    }
  }

  /** Once p * p exceeds the sieve bound, the knowledge is primality. */
  lemma SieveDone(t: nat, p: nat, s: nat)
    requires 2 <= t <= s < p * p
    ensures NoSmallDivisorBelow(t, p) <==> IsPrime(t)
  {
    PrimeIffNoSmallDivisor(t);
    forall d | 2 <= d && d * d <= t
      ensures d < p
    {
      SquareLess(d, p);
    }
  }

  /** Lines 54-56: cross off i = p * p, p * p + p, ... up to s. The flags
      then know about every divisor below p + 1. */
  method CrossOffMultiples(isPrime: array<bool>, p: nat, s: nat)
    requires isPrime.Length == s + 1 && 2 <= p && p * p <= s
    requires forall t :: 0 <= t <= s ==> (isPrime[t] <==> t >= 2 && NoSmallDivisorBelow(t, p))
    modifies isPrime
    ensures forall t :: 0 <= t <= s ==> (isPrime[t] <==> t >= 2 && NoSmallDivisorBelow(t, p + 1))
  {
    var i := p * p;
    ghost var m := p;
    while i <= s
      invariant i == p * m && p <= m
      invariant forall t :: 0 <= t <= s ==>
        (isPrime[t] <==> t >= 2 && NoSmallDivisorBelow(t, p) && !(t % p == 0 && p <= t / p < m))
      decreases s - i
    {
      isPrime[i] := false;
      forall t | 0 <= t <= s
        ensures isPrime[t] <==> t >= 2 && NoSmallDivisorBelow(t, p) && !(t % p == 0 && p <= t / p < m + 1)
      {
        MultipleAt(t, p, m);
      }
      i := i + p;
      m := m + 1;
    }
    forall t | 0 <= t <= s
      ensures isPrime[t] <==> t >= 2 && NoSmallDivisorBelow(t, p + 1)
    {
      DivBelow(t, p, m);
      SieveStepCrossOff(t, p);
    }
  }

  /** Lines 50-57: the Sieve of Eratosthenes on is_prime[0..s], crossing off
      from p * p for every p with p * p <= s. Afterwards the flag of t says
      whether t is prime. */
  method SieveFlags(s: nat) returns (isPrime: array<bool>)
    ensures isPrime.Length == s + 1
    ensures forall t :: 0 <= t <= s ==> (isPrime[t] <==> IsPrime(t))
  {
    isPrime := new bool[s + 1](_ => true);
    if s >= 1 {
      isPrime[0], isPrime[1] := false, false;
    } else {
      isPrime[0] := false;
    }
    var p := 2;
    while p * p <= s
      invariant 2 <= p
      invariant forall t :: 0 <= t <= s ==> (isPrime[t] <==> t >= 2 && NoSmallDivisorBelow(t, p))
    {
      MulLe(1, p, p);
      if isPrime[p] {
        CrossOffMultiples(isPrime, p, s);
      } else {
        forall t | 0 <= t <= s
          ensures isPrime[t] <==> t >= 2 && NoSmallDivisorBelow(t, p + 1)
        {
          SieveStepSkip(t, p);
        }
      }
      p := p + 1;
    }
    forall t | 0 <= t <= s
      ensures isPrime[t] <==> IsPrime(t)
    {
      if t >= 2 {
        SieveDone(t, p, s);
      }
    }
  }

  /** Lines 58-62: list the flagged numbers in ascending order; together with
      the sieve, every prime up to s in ascending order. */
  method SieveBasePrimes(s: nat) returns (basePrimes: seq<nat>)
    ensures basePrimes == PrimesUpTo(s)
  {
    var isPrime := SieveFlags(s);
    basePrimes := [];
    var q := 2;
    while q <= s
      invariant 2 <= q && (q <= s + 1 || q == 2)
      invariant basePrimes == PrimesUpTo(q - 1)
    {
      assert PrimesUpTo(q) == PrimesUpTo(q - 1) + (if IsPrime(q) then [q] else []);
      if isPrime[q] {
        basePrimes := basePrimes + [q];
      }
      q := q + 1;
    }
    if s == 0 {
      assert PrimesUpTo(1) == [];
    }
  }

  // ---------------------------------------------------------------------
  // Step 2: the exponents of the base primes

  /** Lines 66-73: the exponent of p in n!, summing n / j over the powers
      j = p, p^2, ... up to n; the early exit when j > n / p stops before the
      next power would pass n, and so leaves the sum as it is. */
  method BasePrimeExponent(n: nat, p: nat) returns (exponent: nat)
    requires p >= 2
    ensures exponent == Legendre(n, p)
  {
    exponent := 0;
    var j := p;
    ghost var prev: nat := 1;
    while j <= n
      invariant prev >= 1 && j == prev * p
      invariant exponent + Legendre(n / prev, p) == Legendre(n, p)
      decreases n - j
    {
      ExponentStep(n, p, prev, j);
      exponent := exponent + n / j;
      if j > n / p {
        break;
      }
      prev := j;
      j := j * p;
    }
    if j > n {
      LegendreOfQuotient(n, prev, p);
    }
  }

  // ---------------------------------------------------------------------
  // Step 3: one segment [low, high] above floor(sqrt(n))

  lemma HasFactorInAppend(j: nat, ps: seq<nat>, k: nat)
    requires k < |ps| && ps[k] > 0
    ensures HasFactorIn(j, ps[..k + 1]) <==> HasFactorIn(j, ps[..k]) || j % ps[k] == 0
  {
    if HasFactorIn(j, ps[..k + 1]) && !(j % ps[k] == 0) {
      var i :| 0 <= i < k + 1 && ps[..k + 1][i] > 0 && j % ps[..k + 1][i] == 0;
      assert i < k && ps[..k][i] == ps[i];
    }
    if HasFactorIn(j, ps[..k]) {
      var i :| 0 <= i < k && ps[..k][i] > 0 && j % ps[..k][i] == 0;
      assert ps[..k + 1][i] == ps[i];
    }
    if j % ps[k] == 0 {
      assert ps[..k + 1][k] == ps[k];
    }
  }

  /** Two multiples of p less than p apart are equal. */
  lemma MultipleGap(t: nat, j: nat, p: nat)
    requires p > 0 && t % p == 0 && j % p == 0 && j <= t < j + p
    ensures t == j
  {
    var a, b := t / p, j / p;
    assert t == p * a && j == p * b;
    if a > b {
      MulLe(b + 1, a, p);
    } else if a < b {
      MulLe(a, b, p);
    }
  }

  /** (low + p - 1) / p * p is the least multiple of p that is >= low. */
  lemma FirstMultiple(low: nat, p: nat, t: nat)
    requires p > 0
    ensures var c := (low + p - 1) / p * p;
      c % p == 0 && low <= c && (t % p == 0 && low <= t ==> c <= t)
  {
    var q := (low + p - 1) / p;
    DivModUnique(low + p - 1, p, q, (low + p - 1) % p);
    DivModUnique(q * p, p, q, 0);
    if t % p == 0 && low <= t && t < q * p {
      var a := t / p;
      assert t == p * a;
      if a >= q {
        MulLe(q, a, p);
      } else {
        MulLe(a + 1, q, p);
      }
    }
  }

  /** Lines 87-91: cross off the multiples of p in [low, high], starting
      from the first one >= low. */
  method CrossOffInSegment(isComposite: array<bool>, low: nat, high: nat, p: nat)
    requires p >= 1 && low <= high && high - low < isComposite.Length
    modifies isComposite
    ensures forall i :: 0 <= i <= high - low ==>
      (isComposite[i] <==> old(isComposite[i]) || (low + i) % p == 0)
    ensures forall i :: high - low < i < isComposite.Length ==> isComposite[i] == old(isComposite[i])
  {
    var startIdx := (low + p - 1) / p * p;
    FirstMultiple(low, p, 0);
    forall i | 0 <= i <= high - low
      ensures isComposite[i] <==> old(isComposite[i]) || ((low + i) % p == 0 && low + i < startIdx)
    {
      FirstMultiple(low, p, low + i);
    }
    var j := startIdx;
    while j <= high
      invariant j % p == 0 && low <= j
      invariant forall i :: 0 <= i <= high - low ==>
        (isComposite[i] <==> old(isComposite[i]) || ((low + i) % p == 0 && low + i < j))
      invariant forall i :: high - low < i < isComposite.Length ==> isComposite[i] == old(isComposite[i])
      decreases high - j
    {
      if j >= low {
        isComposite[j - low] := true;
      }
      forall i | 0 <= i <= high - low
        ensures isComposite[i] <==> old(isComposite[i]) || ((low + i) % p == 0 && low + i < j + p)
      {
        if (low + i) % p == 0 && j <= low + i < j + p {
          MultipleGap(low + i, j, p);
        }
      }
      DivModUnique(j + p, p, j / p + 1, 0);
      j := j + p;
    }
  }

  /** Lines 81-92: clear the segment's flags and cross off, for every base
      prime p, the multiples of p in [low, high]. Afterwards the flag of
      low + i says exactly whether a base prime divides low + i. */
  method MarkSegment(isComposite: array<bool>, low: nat, high: nat, basePrimes: seq<nat>)
    requires isComposite.Length == SEGMENT_SIZE
    requires low <= high < low + SEGMENT_SIZE
    requires forall k :: 0 <= k < |basePrimes| ==> basePrimes[k] >= 2
    modifies isComposite
    ensures forall i :: 0 <= i <= high - low ==> (isComposite[i] <==> HasFactorIn(low + i, basePrimes))
    ensures forall i :: high - low < i < isComposite.Length ==> !isComposite[i]
  {
    forall i | 0 <= i < isComposite.Length {
      isComposite[i] := false;
    }
    var k := 0;
    while k < |basePrimes|
      invariant 0 <= k <= |basePrimes|
      invariant forall i :: 0 <= i <= high - low ==> (isComposite[i] <==> HasFactorIn(low + i, basePrimes[..k]))
      invariant forall i :: high - low < i < isComposite.Length ==> !isComposite[i]
    {
      CrossOffInSegment(isComposite, low, high, basePrimes[k]);
      forall i | 0 <= i <= high - low
        ensures isComposite[i] <==> HasFactorIn(low + i, basePrimes[..k + 1])
      {
        HasFactorInAppend(low + i, basePrimes, k);
      }
      k := k + 1;
    }
    assert basePrimes[..k] == basePrimes;
  }

  /** Above floor(sqrt(n)) and up to n, a number is prime exactly when no
      prime up to floor(sqrt(n)) divides it. */
  lemma SegmentPrimality(j: nat, s: nat, n: nat)
    requires s * s <= n < (s + 1) * (s + 1)
    requires s < j <= n
    ensures !HasFactorIn(j, PrimesUpTo(s)) <==> IsPrime(j)
  {
    var ps := PrimesUpTo(s);
    PrimesUpToSpec(s);
    if !IsPrime(j) {
      assert j >= 2 by {
        MulLe(1, s, s);
      }
      CompositeHasSmallPrimeFactor(j);
      var q := SmallestDivisor(j);
      assert q * q < (s + 1) * (s + 1);
      SquareLess(q, s + 1);
      assert q in ps;
      var k :| 0 <= k < |ps| && ps[k] == q;
    }
  }

  /** A prime above floor(sqrt(n)) appears in n! with exponent n / p. */
  lemma LargePrimeExponent(i: nat, s: nat, n: nat)
    requires n < (s + 1) * (s + 1) && 1 <= s < i
    ensures Legendre(n, i) == n / i
  {
    MulLe(s + 1, i, s + 1);
    MulLe(s + 1, i, i);
    LegendreLargePrime(n, i);
  }

  /** Lines 95-101: walk the marked segment [low, high] and append every
      unmarked i, a prime, with its exponent n / i. */
  method CollectSegment(n: nat, s: nat, low: nat, high: nat, isComposite: array<bool>,
                        basePrimes: seq<nat>, prefix: seq<PrimePower>)
    returns (result: seq<PrimePower>)
    requires s * s <= n < (s + 1) * (s + 1) && 1 <= s
    requires s < low <= high <= n && high - low < isComposite.Length
    requires basePrimes == PrimesUpTo(s)
    requires forall i :: 0 <= i <= high - low ==> (isComposite[i] <==> HasFactorIn(low + i, basePrimes))
    requires prefix == Tabulate(n, PrimesUpTo(low - 1))
    ensures result == Tabulate(n, PrimesUpTo(high))
  {
    result := prefix;
    var i := low;
    while i <= high
      invariant low <= i <= high + 1
      invariant result == Tabulate(n, PrimesUpTo(i - 1))
    {
      SegmentPrimality(i, s, n);
      assert isComposite[i - low] <==> HasFactorIn(low + (i - low), basePrimes);
      assert PrimesUpTo(i) == PrimesUpTo(i - 1) + (if IsPrime(i) then [i] else []);
      if !isComposite[i - low] {
        LargePrimeExponent(i, s, n);
        TabulateAppend(n, PrimesUpTo(i - 1), i);
        result := result + [PrimePower(i, n / i)];
      }
      i := i + 1;
    }
  }

  /** Lines 42-104: the prime-power table of n!, listing every prime p <= n
      in ascending order with its exponent in n!. */
  method SegmentedSieveFactorial(n: nat) returns (result: seq<PrimePower>)
    ensures result == FactorTable(n)
  {
    if n < 2 {
      assert PrimesUpTo(n) == [];
      return [];
    }
    var s := FloorSqrt(n);
    assert 1 <= s <= n by {
      MulLe(1, s, s);
    }
    var basePrimes := SieveBasePrimes(s);
    assert forall i :: 0 <= i < |basePrimes| ==> basePrimes[i] >= 2;

    result := [];
    var k := 0;
    while k < |basePrimes|
      invariant 0 <= k <= |basePrimes|
      invariant result == Tabulate(n, basePrimes[..k])
    {
      var p := basePrimes[k];
      var exponent := BasePrimeExponent(n, p);
      assert basePrimes[..k + 1] == basePrimes[..k] + [p];
      TabulateAppend(n, basePrimes[..k], p);
      result := result + [PrimePower(p, exponent)];
      k := k + 1;
    }
    assert basePrimes[..k] == basePrimes;

    var isComposite := new bool[SEGMENT_SIZE];
    var low := s + 1;
    while low <= n
      invariant s < low
      invariant result == Tabulate(n, PrimesUpTo(Min(low - 1, n)))
    {
      var high := Min(low + SEGMENT_SIZE - 1, n);
      MarkSegment(isComposite, low, high, basePrimes);
      result := CollectSegment(n, s, low, high, isComposite, basePrimes, result);
      assert Min(low + SEGMENT_SIZE - 1, n) == high;
      low := low + SEGMENT_SIZE;
    }
  }

  // ---------------------------------------------------------------------
  // Rebuilding n! from the table

  lemma TableProductSnoc(t: seq<PrimePower>, lo: nat, it: nat)
    requires lo <= it < |t|
    ensures TableProduct(t[lo..it + 1]) == TableProduct(t[lo..it]) * Pow(t[it].prime, t[it].exponent)
  {
    assert t[lo..it + 1] == t[lo..it] + [t[it]];
    TableProductConcat(t[lo..it], [t[it]]);
    TableProductSingle(t[it]);
  }

  /** Lines 113-137: the product of p^e over table[lo..hi). An empty range
      gives 1, one entry its power, fewer than 32 entries a serial loop, and
      more are split in half, the two halves multiplied together (the source
      computes the left half on another thread). */
  method ProductParallel(table: seq<PrimePower>, lo: nat, hi: nat) returns (r: nat)
    requires lo <= hi <= |table|
    ensures r == TableProduct(table[lo..hi])
    decreases hi - lo
  {
    var dist := hi - lo;
    if dist == 0 {
      return 1;
    }
    if dist == 1 {
      r := Pow(table[lo].prime, table[lo].exponent);
      TableProductSnoc(table, lo, lo);
      return;
    }
    if dist < SERIAL_CUTOFF {
      r := 1;
      var it := lo;
      while it != hi
        invariant lo <= it <= hi
        invariant r == TableProduct(table[lo..it])
      {
        var term := Pow(table[it].prime, table[it].exponent);
        TableProductSnoc(table, lo, it);
        r := r * term;
        it := it + 1;
      }
      return;
    }
    var mid := lo + dist / 2;
    var left := ProductParallel(table, lo, mid);
    var right := ProductParallel(table, mid, hi);
    assert table[lo..hi] == table[lo..mid] + table[mid..hi];
    TableProductConcat(table[lo..mid], table[mid..hi]);
    r := left * right;
  }

  // ---------------------------------------------------------------------
  // The digit sum in base-10^18 chunks

  lemma ChunkBaseIsPowerOfTen()
    ensures Pow(10, 18) == CHUNK_BASE
  {
    assert Pow(10, 9) == 1000000000;
    PowAdd(10, 9, 9);
  }

  /** Lines 142-159: the sum of the decimal digits of n, peeling off base
      10^18 chunks and summing each chunk's digits as an unsigned long. */
  method SumDigitsFast(n: nat) returns (totalSum: nat)
    ensures totalSum == DigitSum(n)
  {
    totalSum := 0;
    var rest: nat := n;
    var base: nat := CHUNK_BASE;
    while rest > 0
      invariant totalSum + DigitSum(rest) == DigitSum(n)
      decreases rest
    {
      var remainder: nat := rest % base;
      assert DigitSum(rest) == DigitSum(remainder) + DigitSum(rest / base) by {
        ChunkBaseIsPowerOfTen();
        DigitSumSplit(rest, 18);
      }
      rest := rest / base;
      assert remainder < ULONG_LIMIT;
      var remUll: nat := remainder;
      while remUll > 0
        invariant totalSum + DigitSum(remUll) + DigitSum(rest) == DigitSum(n)
        decreases remUll
      {
        DigitSumUnfold(remUll);
        totalSum := totalSum + remUll % 10;
        remUll := remUll / 10;
      }
    }
  }

  /** Lines 169-181: factorise n!, multiply the table back together and sum
      the digits of the result. */
  method FactorialDigitSum(n: nat) returns (answer: nat, sum: nat)
    ensures answer == Fact(n)
    ensures sum == DigitSum(Fact(n))
  {
    var primeFactors := SegmentedSieveFactorial(n);
    answer := ProductParallel(primeFactors, 0, |primeFactors|);
    assert primeFactors[0..|primeFactors|] == primeFactors;
    FactorTableCorrect(n);
    sum := SumDigitsFast(answer);
  }
}
