/** The squaring factorial solver: the prime-power table of n! by a plain
    Sieve of Eratosthenes, then n! rebuilt by repeated squaring. Each round
    multiplies the primes whose exponent is odd, halves every exponent in
    place, drops the trailing zero exponents and recurses on what is left:
    n! == odd * sub * sub. */
module SquaringFactorial {
  import opened NumberTheory
  import opened Factorisation
  import opened Digits

  // ---------------------------------------------------------------------
  // The sieve table

  /** Some prime below bound divides k. */
  predicate HasPrimeFactorBelow(k: nat, bound: nat)
  {
    exists q :: 2 <= q < bound && IsPrime(q) && k % q == 0
  }

  /** Marking the multiples of a prime i adds i to the primes known to
      divide. */
  lemma MarkStepPrime(k: nat, i: nat)
    requires IsPrime(i)
    ensures HasPrimeFactorBelow(k, i) || k % i == 0 <==> HasPrimeFactorBelow(k, i + 1)
  {
    if HasPrimeFactorBelow(k, i + 1) && !HasPrimeFactorBelow(k, i) {
      var q :| 2 <= q < i + 1 && IsPrime(q) && k % q == 0;
      assert q == i;
    }
  }

  /** A number that is not prime adds nothing to the primes below it. */
  lemma MarkStepComposite(k: nat, i: nat)
    requires !IsPrime(i)
    ensures HasPrimeFactorBelow(k, i) <==> HasPrimeFactorBelow(k, i + 1)
  {
    if HasPrimeFactorBelow(k, i + 1) {
      var q :| 2 <= q < i + 1 && IsPrime(q) && k % q == 0;
      assert q != i;
    }
  }

  /** i >= 2 is left unmarked exactly when it is prime. */
  lemma UnmarkedIsPrime(i: nat)
    requires i >= 2
    ensures !HasPrimeFactorBelow(i, i) <==> IsPrime(i)
  {
    if !IsPrime(i) {
      CompositeHasSmallPrimeFactor(i);
    }
  }

  /** Lines 23-26: mark every multiple j = i, 2i, ... <= n of the prime i. */
  method MarkMultiples(ar: array<bool>, i: nat, n: nat)
    requires ar.Length == n + 1 && 2 <= i <= n && IsPrime(i)
    requires forall k :: 2 <= k <= n ==> (ar[k] <==> HasPrimeFactorBelow(k, i))
    modifies ar
    ensures forall k :: 2 <= k <= n ==> (ar[k] <==> HasPrimeFactorBelow(k, i + 1))
    ensures ar[0] == old(ar[0]) && ar[1] == old(ar[1])
  {
    var j := i;
    ghost var m := 1;
    while j <= n
      invariant j == i * m && j >= 2
      invariant ar[0] == old(ar[0]) && ar[1] == old(ar[1])
      invariant forall k :: 2 <= k <= n ==>
        (ar[k] <==> HasPrimeFactorBelow(k, i) || (k % i == 0 && k / i < m))
      decreases n - j
    {
      ar[j] := true;
      forall k | 2 <= k <= n
        ensures ar[k] <==> HasPrimeFactorBelow(k, i) || (k % i == 0 && k / i < m + 1)
      {
        MultipleAt(k, i, m);
      }
      j := j + i;
      m := m + 1;
    }
    forall k | 2 <= k <= n
      ensures ar[k] <==> HasPrimeFactorBelow(k, i + 1)
    {
      DivBelow(k, i, m);
      MarkStepPrime(k, i);
    }
  }

  /** Lines 27-30: the exponent of i in n!, summing n / j over the powers
      j = i, i^2, ... up to n. */
  method CountExponent(n: nat, i: nat) returns (cnt: nat)
    requires i >= 2
    ensures cnt == Legendre(n, i)
  {
    cnt := 0;
    var j := i;
    ghost var prev: nat := 1;
    while j <= n
      invariant prev >= 1 && j == prev * i
      invariant cnt + Legendre(n / prev, i) == Legendre(n, i)
      decreases n - j
    {
      ExponentStep(n, i, prev, j);
      cnt := cnt + n / j;
      prev := j;
      j := j * i;
    }
    LegendreOfQuotient(n, prev, i);
  }

  /** Lines 12-35: the prime-power table of n!, every prime i <= n in
      ascending order with its exponent in n!. A number still unmarked when
      the scan reaches it is prime, and its multiples are marked then. */
  method GetPrimePow(n: nat) returns (tab: seq<PrimePower>)
    ensures tab == FactorTable(n)
  {
    var ar := new bool[n + 1](_ => false);
    tab := [];
    var i := 2;
    while i <= n
      invariant 2 <= i && (i <= n + 1 || i == 2)
      invariant forall k :: 2 <= k <= n ==> (ar[k] <==> HasPrimeFactorBelow(k, i))
      invariant tab == Tabulate(n, PrimesUpTo(i - 1))
    {
      UnmarkedIsPrime(i);
      assert PrimesUpTo(i) == PrimesUpTo(i - 1) + (if IsPrime(i) then [i] else []);
      if !ar[i] {
        MarkMultiples(ar, i, n);
        var cnt := CountExponent(n, i);
        TabulateAppend(n, PrimesUpTo(i - 1), i);
        tab := tab + [PrimePower(i, cnt)];
      } else {
        forall k | 2 <= k <= n
          ensures ar[k] <==> HasPrimeFactorBelow(k, i + 1)
        {
          MarkStepComposite(k, i);
        }
      }
      i := i + 1;
    }
    if n == 0 {
      assert PrimesUpTo(1) == [];
    }
  }

  // ---------------------------------------------------------------------
  // One squaring round, as functions on the table

  /** The factor an entry contributes to the odd part: its prime when the
      exponent is odd, 1 otherwise. */
  function OddFactor(x: PrimePower): nat
  {
    if x.exponent % 2 == 1 then x.prime else 1
  }

  /** The product of the primes whose exponent is odd. */
  function OddPart(t: seq<PrimePower>): nat
    decreases |t|
  {
    if t == [] then 1 else OddFactor(t[0]) * OddPart(t[1..])
  }

  /** The entry with its exponent halved (rounded down). */
  function Halve(x: PrimePower): PrimePower
  {
    PrimePower(x.prime, x.exponent / 2)
  }

  /** The table with every exponent halved. */
  function Halved(t: seq<PrimePower>): seq<PrimePower>
  {
    seq(|t|, i requires 0 <= i < |t| => Halve(t[i]))
  }

  /** The largest exponent of the table, 0 when it is empty. */
  function MaxExponent(t: seq<PrimePower>): nat
    decreases |t|
  {
    if t == [] then 0
    else if t[0].exponent >= MaxExponent(t[1..]) then t[0].exponent
    else MaxExponent(t[1..])
  }

  lemma {:induction false} OddPartConcat(a: seq<PrimePower>, b: seq<PrimePower>)
    ensures OddPart(a + b) == OddPart(a) * OddPart(b)
    decreases |a|
  {
    if a == [] {
      assert a + b == b;
    } else {
      OddPartConcat(a[1..], b);
      assert (a + b)[1..] == a[1..] + b;
      MulAssoc(OddFactor(a[0]), OddPart(a[1..]), OddPart(b));
    }
  }

  /** With positive primes the odd part is positive. */
  lemma {:induction false} OddPartPositive(t: seq<PrimePower>)
    requires forall i :: 0 <= i < |t| ==> t[i].prime >= 1
    ensures OddPart(t) >= 1
    decreases |t|
  {
    if t != [] {
      OddPartPositive(t[1..]);
      MulLe(1, OddFactor(t[0]), OddPart(t[1..]));
    }
  }

  /** p^e == (p if e is odd) * (p^(e/2))^2. */
  lemma PowSquareSplit(p: nat, e: nat)
    ensures Pow(p, e) == OddFactor(PrimePower(p, e)) * (Pow(p, e / 2) * Pow(p, e / 2))
  {
    PowAdd(p, e / 2, e / 2);
    if e % 2 == 1 {
      assert Pow(p, e) == p * Pow(p, e / 2 + e / 2);
    }
  }

  lemma SquareRearrange(a: nat, x: nat, b: nat, y: nat)
    ensures (a * (x * x)) * (b * (y * y)) == (a * b) * ((x * y) * (x * y))
  {
    Rearrange(a, x * x, b, y * y);
    Rearrange(x, x, y, y);
  }

  /** The identity each round of the squaring rests on: the product of the
      table is its odd part times the square of the product of the halved
      table. */
  lemma {:induction false} SquaringIdentity(t: seq<PrimePower>)
    ensures TableProduct(t) == OddPart(t) * (TableProduct(Halved(t)) * TableProduct(Halved(t)))
    decreases |t|
  {
    if t != [] {
      var x := t[0];
      SquaringIdentity(t[1..]);
      assert Halved(t)[1..] == Halved(t[1..]);
      assert Halved(t)[0] == Halve(x);
      PowSquareSplit(x.prime, x.exponent);
      SquareRearrange(OddFactor(x), Pow(x.prime, x.exponent / 2),
                      OddPart(t[1..]), TableProduct(Halved(t[1..])));
    }
  }

  /** Entries with exponent 0 contribute 1, so dropping a tail of them keeps
      the product. */
  lemma {:induction false} DropZeroTail(t: seq<PrimePower>, k: nat)
    requires k <= |t|
    requires forall i :: k <= i < |t| ==> t[i].exponent == 0
    ensures TableProduct(t[..k]) == TableProduct(t)
    decreases |t| - k
  {
    if k < |t| {
      DropZeroTail(t, k + 1);
      assert t[..k + 1] == t[..k] + [t[k]];
      TableProductConcat(t[..k], [t[k]]);
      TableProductSingle(t[k]);
    } else {
      assert t[..k] == t;
    }
  }

  /** Halving every exponent halves the largest one. */
  lemma {:induction false} MaxExponentHalved(t: seq<PrimePower>)
    ensures MaxExponent(Halved(t)) == MaxExponent(t) / 2
    decreases |t|
  {
    if t != [] {
      MaxExponentHalved(t[1..]);
      assert Halved(t)[1..] == Halved(t[1..]);
    }
  }

  /** Every exponent is at most the largest one, and a prefix has no larger
      exponent than the whole table. */
  lemma {:induction false} MaxExponentBounds(t: seq<PrimePower>, k: nat)
    requires k <= |t|
    ensures forall i :: 0 <= i < |t| ==> t[i].exponent <= MaxExponent(t)
    ensures MaxExponent(t[..k]) <= MaxExponent(t)
    decreases |t|
  {
    if t != [] {
      MaxExponentBounds(t[1..], if k == 0 then 0 else k - 1);
      if k > 0 {
        assert t[..k][1..] == t[1..][..k - 1];
      }
      forall i | 0 <= i < |t|
        ensures t[i].exponent <= MaxExponent(t)
      {
        if i > 0 {
          assert t[i] == t[1..][i - 1];
        }
      }
    }
  }

  // ---------------------------------------------------------------------
  // The squaring rounds on the table in place

  /** Lines 37-55 on the inclusive range a[beg..end]: the product of the
      primes with odd exponent, halving every exponent of the range in place
      and leaving every other slot alone. */
  method CalOdd(a: array<PrimePower>, beg: nat, end: nat) returns (r: nat)
    requires beg <= end < a.Length
    modifies a
    ensures r == OddPart(old(a[beg..end + 1]))
    ensures forall i :: beg <= i <= end ==> a[i] == Halve(old(a[i]))
    ensures forall i :: 0 <= i < a.Length && !(beg <= i <= end) ==> a[i] == old(a[i])
    decreases end - beg
  {
    if beg == end {
      var x := a[beg];
      assert old(a[beg..end + 1]) == [x];
      assert OddPart([x]) == OddFactor(x) by {
        assert [x][1..] == [];
      }
      if x.exponent % 2 == 1 {
        a[beg] := PrimePower(x.prime, x.exponent / 2);
        return x.prime;
      } else {
        a[beg] := PrimePower(x.prime, x.exponent / 2);
        return 1;
      }
    }
    var mid := beg + (end - beg) / 2;
    var left := CalOdd(a, beg, mid);
    assert a[mid + 1..end + 1] == old(a[mid + 1..end + 1]);
    var right := CalOdd(a, mid + 1, end);
    assert old(a[beg..end + 1]) == old(a[beg..mid + 1]) + old(a[mid + 1..end + 1]);
    OddPartConcat(old(a[beg..mid + 1]), old(a[mid + 1..end + 1]));
    r := left * right;
  }

  /** Lines 63-64: pop trailing entries whose exponent is 0. The new size
      is 0 or ends on a non-zero exponent, and only zero entries are
      dropped. */
  method PopZeroTail(a: array<PrimePower>, size: nat) returns (n: nat)
    requires size <= a.Length
    ensures n <= size
    ensures n == 0 || a[n - 1].exponent != 0
    ensures forall i :: n <= i < size ==> a[i].exponent == 0
  {
    n := size;
    while n > 0 && a[n - 1].exponent == 0
      invariant n <= size
      invariant forall i :: n <= i < size ==> a[i].exponent == 0
    {
      n := n - 1;
    }
  }

  /** Lines 57-69 with the round over the table's own entries
      a[0..size - 1]: n! rebuilt as odd * sub * sub. An empty table gives 1.
      Every round halves the exponents, so after the last one all of them
      are 0 and the primes are where they were. */
  method Cal(a: array<PrimePower>, size: nat) returns (ans: nat)
    requires size <= a.Length
    modifies a
    ensures ans == TableProduct(old(a[..size]))
    ensures forall i :: 0 <= i < size ==> a[i] == PrimePower(old(a[i]).prime, 0)
    ensures forall i :: size <= i < a.Length ==> a[i] == old(a[i])
    decreases MaxExponent(a[..size]), size
  {
    ans := 1;
    if size > 0 {
      ghost var t := a[..size];
      ans := CalOdd(a, 0, size - 1);
      assert a[..size] == Halved(t);
      var n := PopZeroTail(a, size);
      ghost var h := a[..size];
      DropZeroTail(h, n);
      assert h[..n] == a[..n];
      MaxExponentHalved(t);
      MaxExponentBounds(h, n);
      if n > 0 {
        MaxExponentBounds(a[..n], n);
        assert a[..n][n - 1] == a[n - 1];
      }
      var subans := Cal(a, n);
      SquaringIdentity(t);
      ans := ans * (subans * subans);
    }
  }

  /** Line 62 as written: cal hands tab.end() to cal_odd, whose range is
      inclusive, so every round also takes in the slot one past the table's
      current last entry (stale memory of the vector's buffer) and halves it. */
  method CalOddAsCalled(a: array<PrimePower>, size: nat) returns (r: nat)
    requires 0 < size < a.Length
    modifies a
    ensures r == OddPart(old(a[..size])) * OddFactor(old(a[size]))
    ensures forall i :: 0 <= i <= size ==> a[i] == Halve(old(a[i]))
    ensures forall i :: size < i < a.Length ==> a[i] == old(a[i])
  {
    r := CalOdd(a, 0, size);
    assert old(a[0..size + 1]) == old(a[..size]) + [old(a[size])];
    OddPartConcat(old(a[..size]), [old(a[size])]);
    assert [old(a[size])][1..] == [];
  }

  /** The slot past the end changes the round's result exactly when it holds
      an odd exponent of a prime other than 1. */
  lemma PastEndSlotEffect(t: seq<PrimePower>, stale: PrimePower)
    requires forall i :: 0 <= i < |t| ==> t[i].prime >= 1
    ensures OddPart(t) * OddFactor(stale) == OddPart(t)
            <==> stale.exponent % 2 == 0 || stale.prime == 1
  {
    OddPartPositive(t);
    if stale.exponent % 2 == 1 && stale.prime != 1 {
      if stale.prime == 0 {
        assert OddPart(t) * OddFactor(stale) == 0;
      } else {
        MulStrictMonotone(1, stale.prime, OddPart(t));
      }
    }
  }

  /** The table of 2! is [(2, 1)]; a stale (3, 1) in the slot after it makes
      the round return 6 instead of 2. */
  lemma PastEndSlotCounterexample()
    ensures OddPart([PrimePower(2, 1)]) == 2
    ensures OddPart([PrimePower(2, 1)]) * OddFactor(PrimePower(3, 1)) == 6
  {
    assert [PrimePower(2, 1)][1..] == [];
  }

  /** Lines 71-75: n! as the squaring product of its prime-power table. */
  method Factorial(n: nat) returns (r: nat)
    ensures r == Fact(n)
  {
    var tab := GetPrimePow(n);
    var a := new PrimePower[|tab|](k requires 0 <= k < |tab| => tab[k]);
    assert a[..] == tab;
    assert a[..|tab|] == tab;
    r := Cal(a, |tab|);
    FactorTableCorrect(n);
  }

  /** Line 89: for n = 5 the table is 2^3 * 3^1 * 5^1 and the result 120. */
  lemma FactorialOfFive()
    ensures FactorTable(5) == [PrimePower(2, 3), PrimePower(3, 1), PrimePower(5, 1)]
    ensures Fact(5) == 120
  {
    assert IsPrime(2);
    assert IsPrime(3) by {
      forall d | 2 <= d < 3 ensures 3 % d != 0 {
        assert d == 2;
      }
    }
    assert !IsPrime(4) by {
      assert 4 % 2 == 0;
    }
    assert IsPrime(5) by {
      forall d | 2 <= d < 5 ensures 5 % d != 0 {
        assert d == 2 || d == 3 || d == 4;
      }
    }
    assert PrimesUpTo(1) == [];
    assert PrimesUpTo(5) == [2, 3, 5];
    assert Legendre(5, 2) == 3 by {
      assert 5 / 2 == 2 && 2 / 2 == 1 && 1 / 2 == 0;
    }
    assert Legendre(5, 3) == 1 by {
      assert 5 / 3 == 1 && 1 / 3 == 0;
    }
    assert Legendre(5, 5) == 1 by {
      assert 5 / 5 == 1 && 1 / 5 == 0;
    }
  }

  // ---------------------------------------------------------------------
  // The digit sum over the decimal string

  /** Lines 77-83: the sum of str[i] - '0' over the characters of str; 0 for
      the empty string. */
  method Sum(str: string) returns (cnt: int)
    ensures cnt == CharSum(str)
    ensures IsDecimalDigits(str) ==> 0 <= cnt <= 9 * |str|
  {
    cnt := 0;
    var i := 0;
    while i < |str|
      invariant 0 <= i <= |str|
      invariant cnt == CharSum(str[..i])
    {
      assert str[..i + 1][..i] == str[..i];
      cnt := cnt + (str[i] as int - '0' as int);
      i := i + 1;
    }
    assert str[..i] == str;
    if IsDecimalDigits(str) {
      CharSumOfDigits(str);
    }
  }

  /** Lines 90 and 105-108: n! printed in decimal and its characters summed
      give the digit sum of n!. */
  method FactorialDigitSum(n: nat) returns (answer: nat, sum: int)
    ensures answer == Fact(n)
    ensures sum == DigitSum(Fact(n))
  {
    answer := Factorial(n);
    sum := Sum(Decimal(answer));
    DecimalCharSum(answer);
  }
}
