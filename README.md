# Factorial digit-sum solvers and long_to_bytes, in Dafny

This project models the two C++ solvers of the 2023 QWB "SpeedUp" challenge
and the `long_to_bytes` helper of the 2023 VNCTF "crypto_sign_in_3" solution.

The challenge asks for the decimal digit sum of n!. Both solvers take the
same path:
- Factor n! into a table of (prime, exponent) pairs, using Legendre's
  formula: the exponent of p in n! is the sum of floor(n / p^k).
- Multiply the table back into n!.
- Add up the decimal digits of the result.

The files model each step in the source's own imperative form. Vectors become
arrays or `seq` values, loops become `while` loops with invariants, and GMP
integers become Dafny's unbounded `nat`.

- `number_theory.dfy` (`NumberTheory`): powers, the factorial, primality,
  smallest divisors, Euclid's lemma, and an exact integer square root.
- `factorisation.dfy` (`Factorisation`): Legendre's formula, the p-adic
  valuation, the ascending list of primes up to m, and the prime-power table
  of n!. Its main theorem is that the table's product is n!.
- `digits.dfy` (`Digits`): the decimal digit sum, how it splits at a power
  of ten, and the decimal string of a number.
- `segmented_sieve.dfy` (`SegmentedSieve`): `optimized_factorial_final.cpp`.
  - the segmented sieve
  - the divide-and-conquer product
  - the digit sum in base-10^18 chunks
- `squaring_factorial.dfy` (`SquaringFactorial`): `optimized_factorial.cpp`.
  - the plain sieve
  - the repeated-squaring product `cal` / `cal_odd`
  - the character-sum `Sum`
- `long_to_bytes.dfy` (`ByteEncoding`): `long_to_bytes` from `solution.py`,
  over Python's `int.bit_length` and `int.to_bytes(length, "big")`.

## Model

| member | source | states |
|---|---|---|
| NumberTheory.FloorSqrt | 2023-QWB-Online/SpeedUp/Solution/optimized_factorial_final.cpp:45 | the square root used by the sieve is the exact integer floor: s*s <= n < (s+1)*(s+1) |
| NumberTheory.PrimeIffNoSmallDivisor | 2023-QWB-Online/SpeedUp/Solution/optimized_factorial_final.cpp:53-58 | n >= 2 is prime exactly when no d with d*d <= n divides it, which is why sieving up to the square root suffices |
| Factorisation.PrimesUpToSpec | 2023-QWB-Online/SpeedUp/Solution/optimized_factorial_final.cpp:59-63 | the prime list up to m holds only primes, is strictly ascending, and holds every prime <= m |
| Factorisation.LegendreIsPowerSum | 2023-QWB-Online/SpeedUp/Solution/optimized_factorial_final.cpp:66-71 | the recursive exponent equals the sum of floor(n / p^i) for i = 1..k whenever n < p^(k+1), so stopping the sum once p^k > n loses nothing |
| Factorisation.LegendreLargePrime | 2023-QWB-Online/SpeedUp/Solution/optimized_factorial_final.cpp:97-98 | for p*p > n the exponent of p in n! is floor(n / p) |
| Factorisation.ExponentStep | 2023-QWB-Online/SpeedUp/Solution/optimized_factorial_final.cpp:68-70 | one step j := j*p of the exponent loop adds n / j and keeps the rest of the sum; once j > n / p the remaining terms are 0 |
| Factorisation.TableProductSplit | 2023-QWB-Online/SpeedUp/Solution/optimized_factorial_final.cpp:133-136 | splitting a table at any index k multiplies back to the whole product |
| Factorisation.TabulateAppend | 2023-QWB-Online/SpeedUp/Solution/optimized_factorial.cpp:31 | appending a prime to the prime list appends (p, Legendre(n, p)) to the table |
| Factorisation.FactorTableCorrect | 2023-QWB-Online/SpeedUp/Solution/optimized_factorial_final.cpp:42-104 | the table is empty for n < 2, lists every prime <= n exactly once in ascending order with its Legendre exponent, and multiplies to n! |
| Digits.DigitSumSplit | 2023-QWB-Online/SpeedUp/Solution/optimized_factorial_final.cpp:148-150 | the digit sum of n is that of n mod 10^k plus that of n div 10^k |
| Digits.Decimal | 2023-QWB-Online/SpeedUp/Solution/optimized_factorial.cpp:105-107 | the string `oss << answer` prints is non-empty and all decimal digits, and starts with '0' exactly when the number is 0 (no leading zeros) |
| Digits.DecimalValue | 2023-QWB-Online/SpeedUp/Solution/optimized_factorial.cpp:105-107 | the decimal string of n, read back most significant digit first, denotes n |
| Digits.DecimalCharSum | 2023-QWB-Online/SpeedUp/Solution/optimized_factorial.cpp:105-108 | the decimal string of n is non-empty, all digits, and its characters add up to the digit sum of n |
| Digits.CharSumOfDigits | 2023-QWB-Online/SpeedUp/Solution/optimized_factorial.cpp:77-83 | over a digit string the character sum lies between 0 and 9 per character |
| SegmentedSieve.SieveStepCrossOff | 2023-QWB-Online/SpeedUp/Solution/optimized_factorial_final.cpp:54-56 | crossing off the multiples i >= p*p of p takes the flags from "no divisor below p" to "no divisor below p+1" |
| SegmentedSieve.SieveStepSkip | 2023-QWB-Online/SpeedUp/Solution/optimized_factorial_final.cpp:54 | skipping a composite p leaves the knowledge unchanged: no divisor below p is the same as none below p+1 |
| SegmentedSieve.SieveDone | 2023-QWB-Online/SpeedUp/Solution/optimized_factorial_final.cpp:53 | once p*p exceeds the sieve bound, "no divisor below p" is primality |
| SegmentedSieve.CrossOffMultiples | 2023-QWB-Online/SpeedUp/Solution/optimized_factorial_final.cpp:54-56 | after crossing off p's multiples, flag t is set exactly when t >= 2 has no divisor d < p+1 with d*d <= t |
| SegmentedSieve.SieveFlags | 2023-QWB-Online/SpeedUp/Solution/optimized_factorial_final.cpp:50-58 | the base sieve's flag t is set exactly when t is prime, for every t <= floor(sqrt n) |
| SegmentedSieve.SieveBasePrimes | 2023-QWB-Online/SpeedUp/Solution/optimized_factorial_final.cpp:50-63 | the collected base primes are exactly the ascending primes up to floor(sqrt n) |
| SegmentedSieve.BasePrimeExponent | 2023-QWB-Online/SpeedUp/Solution/optimized_factorial_final.cpp:66-73 | the loop with the j > n / p break computes the Legendre exponent of p in n! |
| SegmentedSieve.HasFactorInAppend | 2023-QWB-Online/SpeedUp/Solution/optimized_factorial_final.cpp:85 | one more base prime p adds exactly the numbers divisible by p to those with a factor in the list |
| SegmentedSieve.FirstMultiple | 2023-QWB-Online/SpeedUp/Solution/optimized_factorial_final.cpp:86 | (low + p - 1) / p * p is a multiple of p, at least low, and no larger than any multiple of p that is at least low |
| SegmentedSieve.CrossOffInSegment | 2023-QWB-Online/SpeedUp/Solution/optimized_factorial_final.cpp:86-91 | afterwards the flag of low + i is its old value or-ed with "p divides low + i", for every slot of the segment, and the slots past the segment keep their values |
| SegmentedSieve.MarkSegment | 2023-QWB-Online/SpeedUp/Solution/optimized_factorial_final.cpp:81-92 | after clearing and marking, the flag of low + i is set exactly when some base prime divides low + i, and every slot past the segment is clear |
| SegmentedSieve.SegmentPrimality | 2023-QWB-Online/SpeedUp/Solution/optimized_factorial_final.cpp:95-96 | above floor(sqrt n) and up to n, a number is prime exactly when no base prime divides it, so no base prime is ever collected again |
| SegmentedSieve.LargePrimeExponent | 2023-QWB-Online/SpeedUp/Solution/optimized_factorial_final.cpp:97-98 | a prime above floor(sqrt n) has exponent floor(n / i) in n! |
| SegmentedSieve.CollectSegment | 2023-QWB-Online/SpeedUp/Solution/optimized_factorial_final.cpp:95-100 | collecting the unmarked slots extends the table from the primes below low to the primes up to high, each with its Legendre exponent |
| SegmentedSieve.SegmentedSieveFactorial | 2023-QWB-Online/SpeedUp/Solution/optimized_factorial_final.cpp:42-104 | the result is the prime-power table of n!, so, by FactorTableCorrect, empty for n < 2, every prime <= n once in ascending order, and multiplying to n! |
| SegmentedSieve.TableProductSnoc | 2023-QWB-Online/SpeedUp/Solution/optimized_factorial_final.cpp:125-129 | extending the serial range by one entry multiplies the product by p^e |
| SegmentedSieve.ProductParallel | 2023-QWB-Online/SpeedUp/Solution/optimized_factorial_final.cpp:113-137 | the product of p^e over the range [lo, hi) of the table, 1 for an empty range, for every branch (single entry, serial under 32, split in half) |
| SegmentedSieve.ChunkBaseIsPowerOfTen | 2023-QWB-Online/SpeedUp/Solution/optimized_factorial_final.cpp:146 | the chunk base 1000000000000000000 is 10^18 |
| SegmentedSieve.SumDigitsFast | 2023-QWB-Online/SpeedUp/Solution/optimized_factorial_final.cpp:142-159 | the chunked loops return the decimal digit sum of n, 0 for 0 |
| SegmentedSieve.FactorialDigitSum | 2023-QWB-Online/SpeedUp/Solution/optimized_factorial_final.cpp:169-181 | the product of the three composed steps is n!, and their digit sum is the digit sum of n! |
| SquaringFactorial.MarkStepPrime | 2023-QWB-Online/SpeedUp/Solution/optimized_factorial.cpp:23-26 | marking the multiples of a prime i adds exactly the numbers divisible by i to those with a prime factor below i |
| SquaringFactorial.MarkStepComposite | 2023-QWB-Online/SpeedUp/Solution/optimized_factorial.cpp:20 | passing a composite i changes nothing: a prime factor below i is the same as one below i+1 |
| SquaringFactorial.UnmarkedIsPrime | 2023-QWB-Online/SpeedUp/Solution/optimized_factorial.cpp:20 | i >= 2 is unmarked at its turn (no prime factor below i) exactly when i is prime |
| SquaringFactorial.MarkMultiples | 2023-QWB-Online/SpeedUp/Solution/optimized_factorial.cpp:23-26 | after marking, ar[k] holds exactly when k has a prime factor below i+1, for 2 <= k <= n, and ar[0] and ar[1] keep their values |
| SquaringFactorial.CountExponent | 2023-QWB-Online/SpeedUp/Solution/optimized_factorial.cpp:22-30 | the loop j := j*i returns the Legendre exponent of i in n! |
| SquaringFactorial.GetPrimePow | 2023-QWB-Online/SpeedUp/Solution/optimized_factorial.cpp:12-35 | the result is the prime-power table of n!, every prime 2 <= p <= n once, ascending, with its Legendre exponent |
| SquaringFactorial.OddPartConcat | 2023-QWB-Online/SpeedUp/Solution/optimized_factorial.cpp:53-54 | the odd part of a concatenation is the product of the parts' odd parts, so splitting at mid is sound |
| SquaringFactorial.PowSquareSplit | 2023-QWB-Online/SpeedUp/Solution/optimized_factorial.cpp:42-50 | p^e = p^(e mod 2) * (p^(e div 2))^2 |
| SquaringFactorial.SquaringIdentity | 2023-QWB-Online/SpeedUp/Solution/optimized_factorial.cpp:62-66 | the product of p^e over a table is its odd part times the square of the halved table's product |
| SquaringFactorial.DropZeroTail | 2023-QWB-Online/SpeedUp/Solution/optimized_factorial.cpp:63-64 | dropping trailing entries with exponent 0 leaves the product unchanged |
| SquaringFactorial.MaxExponentHalved | 2023-QWB-Online/SpeedUp/Solution/optimized_factorial.cpp:40-51 | halving every exponent halves the maximum exponent, so each round makes progress |
| SquaringFactorial.CalOdd | 2023-QWB-Online/SpeedUp/Solution/optimized_factorial.cpp:37-55 | over the inclusive range [beg, end] it returns the product of the primes whose exponent is odd, replaces each exponent e by e div 2 keeping the prime, and leaves every other slot unchanged |
| SquaringFactorial.PopZeroTail | 2023-QWB-Online/SpeedUp/Solution/optimized_factorial.cpp:63-64 | after popping, the table is empty or ends on a non-zero exponent, and only zero-exponent entries were removed |
| SquaringFactorial.Cal | 2023-QWB-Online/SpeedUp/Solution/optimized_factorial.cpp:57-69 | returns the product of p^e over the table, 1 for an empty table; it terminates because the maximum exponent halves each round; all exponents end at 0 with the primes kept |
| SquaringFactorial.CalOddAsCalled | 2023-QWB-Online/SpeedUp/Solution/optimized_factorial.cpp:62 | called with the table's end as an inclusive bound, the round also takes in and halves the slot past the end, multiplying the result by that slot's odd factor; the slots after that one keep their values |
| SquaringFactorial.PastEndSlotEffect | 2023-QWB-Online/SpeedUp/Solution/optimized_factorial.cpp:40-46 | the past-end slot leaves the round's result unchanged exactly when its exponent is even or its prime is 1 |
| SquaringFactorial.PastEndSlotCounterexample | 2023-QWB-Online/SpeedUp/Solution/optimized_factorial.cpp:62 | for the table [(2, 1)] with (3, 1) in the slot past the end, the round returns 6 where 2 was due |
| SquaringFactorial.Factorial | 2023-QWB-Online/SpeedUp/Solution/optimized_factorial.cpp:71-75 | returns n! |
| SquaringFactorial.FactorialOfFive | 2023-QWB-Online/SpeedUp/Solution/optimized_factorial.cpp:89 | for n = 5 the table is [(2, 3), (3, 1), (5, 1)] and 5! = 120 |
| SquaringFactorial.Sum | 2023-QWB-Online/SpeedUp/Solution/optimized_factorial.cpp:77-83 | returns the sum of c - '0' over the string, 0 for the empty string, and between 0 and 9 per character for a digit string |
| SquaringFactorial.FactorialDigitSum | 2023-QWB-Online/SpeedUp/Solution/optimized_factorial.cpp:90-108 | the product is n! and the character sum of its decimal string is the digit sum of n! |
| ByteEncoding.IntToBytes | 2023-VNCTF/crypto_sign_in_3/solution/solution.py:8 | succeeds exactly when 0 <= n < 256^length, with `length` bytes that read back big-endian as n |
| ByteEncoding.ToBytesRoundTrip | 2023-VNCTF/crypto_sign_in_3/solution/solution.py:8 | for n < 256^length the encoding has `length` bytes and reads back as n |
| ByteEncoding.ToBytesOfFromBytes | 2023-VNCTF/crypto_sign_in_3/solution/solution.py:8 | encoding the value of a byte string in as many bytes gives the string back |
| ByteEncoding.BitLength | 2023-VNCTF/crypto_sign_in_3/solution/solution.py:7 | int.bit_length is 0 exactly for 0, and for n >= 1 it is the b with 2^(b-1) <= n < 2^b |
| ByteEncoding.ByteLengthBounds | 2023-VNCTF/crypto_sign_in_3/solution/solution.py:7 | ceil(bit_length(n) / 8) bytes are enough for n >= 1 and one fewer are not |
| ByteEncoding.ByteLengthOf | 2023-VNCTF/crypto_sign_in_3/solution/solution.py:7 | conversely, an n with `length` base-256 digits has ceil(bit_length(n) / 8) == length |
| ByteEncoding.LeadingByte | 2023-VNCTF/crypto_sign_in_3/solution/solution.py:7-8 | a byte string has a non-zero first byte exactly when its value is at least 256^(length - 1) |
| ByteEncoding.LongToBytes | 2023-VNCTF/crypto_sign_in_3/solution/solution.py:4-8 | succeeds exactly for n >= 0, and then gives a non-empty byte string that reads back big-endian as n |
| ByteEncoding.LongToBytesSpec | 2023-VNCTF/crypto_sign_in_3/solution/solution.py:4-8 | succeeds exactly for n >= 0; gives [0] for 0; for n > 0 gives ceil(bit_length(n) / 8) bytes with a non-zero first byte; the output is never empty and reads back as n |
| ByteEncoding.FromBytesRoundTrip | 2023-VNCTF/crypto_sign_in_3/solution/solution.py:4-8 | every byte string without a leading zero byte, and the single zero byte, is the encoding of its own value |

## Left out

- Both `main` functions (optimized_factorial_final.cpp:161-206 and
  optimized_factorial.cpp:85-146) are left out except for their composition
  of the core steps. Left out are the console output, the timing and the
  SHA-256 of the digit sum through OpenSSL, which is a foreign library.
  `FactorialDigitSum` in each module takes n as a parameter instead of the
  hard-coded 134217728.
- `std::async` in `ProductParallel` (line 134): the two halves are
  multiplied one after the other. The split and the result are the same.
- The `reserve` call at optimized_factorial_final.cpp:47 uses
  floating-point `log`. It is reached only for n >= 2, where log(n) > 0 and
  the request is a finite capacity hint, so it is left out.
- SquaringFactorial.GetPrimePow: the `reserve(2*n/log(n))` at
  optimized_factorial.cpp:17 is left out, and with it the case n = 1. There
  log(1) = 0, the argument is 2 / 0.0 = +infinity, and converting it to
  `size_t` is undefined behaviour. On some targets the conversion saturates
  and `reserve` throws `std::length_error`. The model instead returns the
  empty table for n = 1, as the loops alone would. SquaringFactorial.Factorial
  therefore returns 1! = 1 for n = 1, although the C++ program has no
  defined result there. For n = 0 the argument is 0 / -infinity = -0.0,
  which converts to 0, and for n >= 2 it is a finite capacity hint.
- SegmentedSieve.SegmentedSieveFactorial: the floating-point `sqrt(n)` at
  line 45 is modelled as the exact integer floor square root. A `double`
  rounding of sqrt for n near 2^53 and above is not modelled.
- Integer widths: `size_t` and `unsigned long long` arithmetic is modelled
  on unbounded integers, and GMP's `mpz_class` on `nat`.
  - `j *= i` in getPrimePow (line 27) has no overflow guard. For p^k near
    2^64 it would wrap; the model does not.
  - `mpz_get_ui` (line 151) is exact because a chunk is below 10^18.
  - The `int i` index of `Sum` is taken as wide enough for the string.
- SquaringFactorial.Factorial: the table's `vector` is copied into an array
  of its exact length. `cal` pops entries through a reference, so each
  recursive level sees the shorter table. The model passes the live size
  down, and the caller's size is not shrunk on return. Nothing reads it
  afterwards.
- Characters are Dafny `char` (Unicode code points); `str[i] - '0'` is the
  code-point difference, as for `char` in C++ over ASCII digits.
- `long_to_bytes` is modelled over Python `int`. A Sage `Integer` argument
  is taken to behave the same for `bit_length` and `to_bytes`.
- The rest of `solution.py` is left out: Sage's `sqrt`, `PolynomialRing`,
  `Zmod`, `small_roots` (Coppersmith's method), the modular inverse and
  the hard-coded constants. These are foreign library calls.
- `task.py` of the 2024 final is left out. It is an interactive server
  with I/O, a timeout and an external NTRU implementation.
- Other parts of the repository are outside the modelled core and are not
  modelled. These include a parallel baby-step/giant-step search
  (20250923-某金融业/三因子rsa/solution/exp.py, `giant_step_worker` and
  `parallel_bsgs_v2`) and a cancellable brute-force worker pool
  (2025-skateboarding dog/crypto/supersanic2/exp/exp_cancellation/main.go).
  The three modelled files contain no such engine.

## Findings

| source | as written | input that shows it | evidently intended | confidence | as-written member | corrected member |
|---|---|---|---|---|---|---|
| 2023-QWB-Online/SpeedUp/Solution/optimized_factorial.cpp:62 | `cal` passes `tab.end()` to `cal_odd`, whose range [beg, end] is inclusive (lines 40-54). Every round therefore reads and halves the slot one past the table's current last entry. | table [(2, 1)] whose buffer slot past the end holds (3, 1): the round returns 6 instead of 2. What that slot holds depends on the buffer's earlier contents, so a wrong result is possible but not certain. | pass `tab.end() - 1`, so that the round covers exactly the table's entries | not executed | SquaringFactorial.CalOddAsCalled, SquaringFactorial.PastEndSlotCounterexample | SquaringFactorial.Cal |
