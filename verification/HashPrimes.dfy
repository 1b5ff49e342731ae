/** The sizes a hash table chooses for its bucket array: odd primes found by trial division
    with an incrementally maintained square, in wrapping 64-bit arithmetic. */
module HashPrimes {
  import opened Wrappers

  /** The largest odd square that does not wrap: (2^32 - 1)^2. */
  const LAST_SQUARE: nat := 0xFFFF_FFFE_0000_0001

  ghost predicate Prime(n: nat) {
    2 <= n && forall d | 2 <= d < n :: n % d != 0
  }

  lemma ModFactor(n: nat, d: nat) returns (e: nat)
    requires 0 < d && n % d == 0
    ensures n == d * e
  {
    e := n / d;
  }

  lemma ModUnique(n: nat, d: nat, q: int, r: nat)
    requires r < d && n == d * q + r
    ensures n % d == r
  {
    var e := q - n / d;
    assert d * e == n % d - r by {
      assert n == d * (n / d) + n % d;
      assert d * e == d * q - d * (n / d);
    }
    SmallMultiple(d, e);
  }

  lemma SmallMultiple(d: nat, e: int)
    ensures 1 <= e ==> d <= d * e
    ensures e <= -1 ==> d * e + d <= 0
  {
  }

  lemma EvenProduct(k: nat, e: nat)
    ensures (2 * k * e) % 2 == 0
  {
    assert 2 * k * e == 2 * (k * e);
  }

  lemma OddFactors(d: nat, e: nat)
    requires (d * e) % 2 == 1
    ensures d % 2 == 1 && e % 2 == 1
  {
    if d % 2 == 0 { EvenProduct(d / 2, e); }
    if e % 2 == 0 { EvenProduct(e / 2, d); }
  }

  lemma Product(a: nat, b: nat, c: nat, d: nat)
    requires a <= b && c <= d
    ensures a * c <= b * d
  {
    assert a * c <= b * c <= b * d;
  }

  /** No odd number up to `divisor` divides n, and the next square is past n: n is prime. */
  lemma TrialDivision(n: nat, divisor: nat)
    requires 11 <= n && n % 2 == 1 && 3 <= divisor && n <= divisor * divisor
    requires forall d | 3 <= d <= divisor && d % 2 == 1 :: n % d != 0
    ensures Prime(n)
  {
    forall d | 2 <= d < n
      ensures n % d != 0
    {
      if n % d == 0 {
        var e := ModFactor(n, d);
        OddFactors(d, e);
        ModUnique(n, e, d, 0);
        assert divisor < d && divisor < e;
        Product(divisor + 1, d, divisor + 1, e);
        assert false;
      }
    }
  }

  /** The square of d as 64-bit arithmetic has it. */
  ghost function WrappedSquare(d: nat): nat {
    (d * d) % MODULUS
  }

  lemma SquareStep(d: nat)
    ensures (WrappedSquare(d) + 4 * (d + 1)) % MODULUS == WrappedSquare(d + 2)
  {
    var a := d * d;
    assert (d + 2) * (d + 2) == a + 4 * (d + 1);
    ModAdd(a, 4 * (d + 1));
  }

  lemma ModAdd(a: nat, b: nat)
    ensures (a % MODULUS + b) % MODULUS == (a + b) % MODULUS
  {
  }

  ghost predicate NoOddFactorBelow(n: nat, limit: nat) {
    forall d | 3 <= d < limit && d % 2 == 1 :: n % d != 0
  }

  lemma NoFactorAtFirst(n: nat)
    ensures NoOddFactorBelow(n, 3)
  {
  }

  lemma NoFactorStep(n: nat, divisor: nat)
    requires 3 <= divisor && divisor % 2 == 1 && n % divisor != 0
    requires NoOddFactorBelow(n, divisor)
    ensures NoOddFactorBelow(n, divisor + 2)
  {
  }

  lemma Verdict(n: nat, divisor: nat)
    requires 11 <= n <= UINT64_MAX && n % 2 == 1 && 3 <= divisor <= n
    requires NoOddFactorBelow(n, divisor)
    ensures n <= WrappedSquare(divisor) && n % divisor != 0 ==> Prime(n)
    ensures n % divisor == 0 && divisor < n ==> !Prime(n)
  {
    SquareWrap(divisor);
    if n <= WrappedSquare(divisor) && n % divisor != 0 {
      TrialDivision(n, divisor);
    }
  }

  /** Below 2^32 the running square is exact; from there on the true square is past every
      64-bit number. */
  lemma SquareWrap(d: nat)
    ensures d < 0x1_0000_0000 ==> WrappedSquare(d) == d * d
    ensures 0x1_0000_0000 <= d ==> MODULUS <= d * d
  {
    if d < 0x1_0000_0000 {
      Product(d, 0xFFFF_FFFF, d, 0xFFFF_FFFF);
    } else {
      Product(0x1_0000_0000, d, 0x1_0000_0000, d);
    }
  }

  /** An odd number whose square is 2^64 - 7 modulo 2^64. */
  const ROOT: nat := 0x19B4_BB63_9C98_C0B5

  /** A divisor at which the loop stops at the latest, for a candidate past the squares that do
      not wrap: the wrapped square of ROOT is as large as any other candidate, and the last three
      odd numbers have small factors. */
  ghost function LastDivisor(candidate: nat): nat {
    if candidate <= MODULUS - 7 then ROOT
    else if candidate == MODULUS - 5 then 11
    else if candidate == MODULUS - 3 then 13
    else 3
  }

  lemma StopsThere(candidate: nat)
    requires LAST_SQUARE < candidate <= UINT64_MAX && candidate % 2 == 1
    ensures var d := LastDivisor(candidate);
            && 3 <= d < candidate && d % 2 == 1
            && (candidate <= WrappedSquare(d) || candidate % d == 0)
  {
  }

  /** A divisor the loop never gets past. */
  ghost predicate InReach(candidate: nat, divisor: nat) {
    if candidate <= LAST_SQUARE then divisor < 0x1_0000_0000 && divisor < candidate
    else divisor <= LastDivisor(candidate)
  }

  lemma StaysInReach(candidate: nat, divisor: nat)
    requires 11 <= candidate <= UINT64_MAX && candidate % 2 == 1 && 3 <= divisor && divisor % 2 == 1
    requires InReach(candidate, divisor)
    requires WrappedSquare(divisor) < candidate && candidate % divisor != 0
    ensures InReach(candidate, divisor + 2)
  {
    SquareWrap(divisor);
    if candidate <= LAST_SQUARE { NotLast(candidate, divisor); } else { StopsThere(candidate); }
  }

  lemma ReachBelow(candidate: nat, divisor: nat)
    requires 11 <= candidate <= UINT64_MAX && candidate % 2 == 1 && InReach(candidate, divisor)
    ensures divisor < candidate
  {
    if LAST_SQUARE < candidate { StopsThere(candidate); }
  }

  /** Decides primality for every odd 64-bit candidate from 11 on, although the square may wrap:
      the loop has always stopped at a square past the candidate or at a proper divisor. */
  method IsPrime(candidate: nat) returns (r: bool)
    requires 11 <= candidate <= UINT64_MAX && candidate % 2 == 1
    ensures r <==> Prime(candidate)
  {
    hide Prime, WrappedSquare, NoOddFactorBelow, InReach;
    var divisor := 3;
    var square := 9;
    SquareWrap(3);
    NoFactorAtFirst(candidate);
    StartInReach(candidate);
    while square < candidate && candidate % divisor != 0
      invariant 3 <= divisor && divisor % 2 == 1
      invariant square == WrappedSquare(divisor)
      invariant NoOddFactorBelow(candidate, divisor)
      invariant InReach(candidate, divisor)
      decreases candidate - divisor
    {
      SquareStep(divisor);
      NoFactorStep(candidate, divisor);
      StaysInReach(candidate, divisor);
      ReachBelow(candidate, divisor + 2);
      divisor := divisor + 1;
      square := (square + 4 * divisor) % MODULUS;
      divisor := divisor + 1;
    }
    ReachBelow(candidate, divisor);
    r := candidate % divisor != 0;
    Verdict(candidate, divisor);
  }

  lemma StartInReach(candidate: nat)
    requires 11 <= candidate <= UINT64_MAX && candidate % 2 == 1
    ensures InReach(candidate, 3)
  {
    if LAST_SQUARE < candidate { StopsThere(candidate); }
  }

  lemma NotLast(candidate: nat, divisor: nat)
    requires 3 <= divisor < 0x1_0000_0000 && divisor % 2 == 1
    requires divisor * divisor < candidate <= LAST_SQUARE
    ensures divisor + 2 < 0x1_0000_0000 && divisor + 2 < candidate
  {
    if 0xFFFF_FFFF <= divisor { Product(0xFFFF_FFFF, divisor, 0xFFFF_FFFF, divisor); }
    Product(3, divisor, divisor, divisor);
  }

  /** r is the least prime that is not below the larger of the candidate and 10, or SIZE_MAX when
      there is none that fits. */
  ghost predicate NextPrimeIs(candidate: nat, r: nat) {
    var low := if candidate < 10 then 10 else candidate;
    && low <= r <= UINT64_MAX
    && (r == UINT64_MAX || Prime(r))
    && forall q | low <= q < r :: !Prime(q)
  }

  method NextPrime(candidate: nat) returns (r: nat)
    requires candidate <= UINT64_MAX
    ensures NextPrimeIs(candidate, r)
  {
    hide Prime;
    r := if candidate < 10 then 10 else candidate;
    ghost var low := r;
    r := if r % 2 == 0 then r + 1 else r;
    EvenNotPrime(low);
    while r != UINT64_MAX
      invariant low <= r <= UINT64_MAX && r % 2 == 1 && 11 <= r
      invariant forall q | low <= q < r :: !Prime(q)
      decreases UINT64_MAX - r
    {
      var p := IsPrime(r);
      if p { break; }
      EvenNotPrime(r + 1);
      r := r + 2;
    }
  }

  lemma EvenNotPrime(q: nat)
    ensures q % 2 == 0 && 2 < q ==> !Prime(q)
  {
  }
}
