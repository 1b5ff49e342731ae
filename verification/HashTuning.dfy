/** When a hash table grows or shrinks and to what size, over exact rationals. */
module HashTuning {
  import opened HashPrimes
  import opened Wrappers

  datatype Tuning = Tuning(shrinkThreshold: real, shrinkFactor: real,
                           growthThreshold: real, growthFactor: real, isNBuckets: bool)

  const DEFAULT_TUNING: Tuning := Tuning(0.0, 1.0, 0.8, 1.414, false)

  const PTRDIFF_MAX: nat := 0x7FFF_FFFF_FFFF_FFFF
  const POINTER_SIZE: nat := 8

  /** The user-supplied tuning is free of gross errors. */
  predicate Sensible(t: Tuning) {
    var epsilon := 0.1;
    t == DEFAULT_TUNING
    || (&& epsilon < t.growthThreshold
        && t.growthThreshold < 1.0 - epsilon
        && 1.0 + epsilon < t.growthFactor
        && 0.0 <= t.shrinkThreshold
        && t.shrinkThreshold + epsilon < t.shrinkFactor
        && t.shrinkFactor <= 1.0
        && t.shrinkThreshold + epsilon < t.growthThreshold)
  }

  /** In whole numbers, for a threshold of p/q. */
  lemma ShrinkReachedExact(t: Tuning, used: int, n: nat, p: nat, q: nat)
    requires 0 < q && t.shrinkThreshold * q as real == p as real
    ensures ShrinkReached(t, used, n) <==> used * q < p * n
  {
    var a, b, c, m := t.shrinkThreshold, q as real, used as real, n as real;
    var least := a * m;
    Associate(a, m, b);
    if c < least { Scales(c, least, b); } else { Scales(least, c, b); }
    assert c * b == (used * q) as real;
    assert p as real * m == (p * n) as real;
  }

  lemma Associate(a: real, m: real, b: real)
    ensures a * m * b == a * b * m
  {
    calc {
      a * m * b;
      a * (m * b);
      a * (b * m);
      a * b * m;
    }
  }

  lemma Scales(a: real, b: real, k: real)
    requires 0.0 < k
    ensures a <= b ==> a * k <= b * k
    ensures a < b ==> a * k < b * k
  {
  }

  /** In plain numbers: the default tuning always passes, and any other one exactly when its fields
      keep a tenth away from each other and from 0 and 1. */
  lemma SensibleExact(t: Tuning)
    ensures DEFAULT_TUNING == Tuning(0.0, 1.0, 0.8, 1.414, false) && Sensible(DEFAULT_TUNING)
    ensures t != DEFAULT_TUNING ==>
              (Sensible(t) <==> && 0.1 < t.growthThreshold < 0.9 && 1.1 < t.growthFactor
                                && 0.0 <= t.shrinkThreshold < t.shrinkFactor - 0.1 && t.shrinkFactor <= 1.0
                                && t.shrinkThreshold < t.growthThreshold - 0.1)
  {
  }

  function CheckTuning(t: Tuning): (r: Tuning)
    ensures Sensible(r) && (r == t <==> Sensible(t))
    ensures !Sensible(t) ==> r == DEFAULT_TUNING
  {
    if Sensible(t) then t else DEFAULT_TUNING
  }

  /** The number of buckets asked for, before it is rounded up to a prime. */
  function Wanted(candidate: nat, t: Tuning): real
    requires 0.0 < t.growthThreshold
  {
    if t.isNBuckets then candidate as real else candidate as real / t.growthThreshold
  }

  predicate Oversized(n: nat) {
    PTRDIFF_MAX < n * POINTER_SIZE
  }

  /** No array of 2^60 pointers or more can exist. */
  lemma OversizedExact(n: nat)
    ensures Oversized(n) <==> 0x1000_0000_0000_0000 <= n
  {
  }

  /** n is the size of the bucket array for `candidate`: the least prime from 11 on that is
      not below what is wanted, or 0 if no array of that size can exist. */
  ghost predicate BucketSizeIs(candidate: nat, t: Tuning, n: nat)
    requires 0.0 < t.growthThreshold
  {
    var w := Wanted(candidate, t);
    if n == 0 then
      UINT64_MAX as real <= w || exists p :: NextPrimeIs(w.Floor, p) && Oversized(p)
    else
      && w < UINT64_MAX as real && !Oversized(n)
      && Prime(n) && 10 < n && w.Floor <= n
      && forall q | 10 <= q < n && w.Floor <= q :: !Prime(q)
  }

  method ComputeBucketSize(candidate: nat, t: Tuning) returns (n: nat)
    requires candidate <= UINT64_MAX && 0.0 < t.growthThreshold
    ensures BucketSizeIs(candidate, t, n)
  {
    hide Prime;
    n := candidate;
    if !t.isNBuckets {
      var newCandidate := candidate as real / t.growthThreshold;
      if UINT64_MAX as real <= newCandidate { return 0; }
      n := newCandidate.Floor;
    }
    assert n == Wanted(candidate, t).Floor;
    n := NextPrime(n);
    if Oversized(n) { return 0; }
    EvenNotPrime(10);
  }

  predicate GrowthReached(t: Tuning, used: int, n: nat) {
    used as real > t.growthThreshold * n as real
  }

  /** For the default tuning: more than four fifths of the buckets are in use. It never shrinks. */
  lemma DefaultReached(used: int, n: nat)
    ensures GrowthReached(DEFAULT_TUNING, used, n) <==> 5 * used > 4 * n
    ensures 0 <= used ==> !ShrinkReached(DEFAULT_TUNING, used, n)
    ensures CheckTuning(DEFAULT_TUNING) == DEFAULT_TUNING
  {
  }

  predicate ShrinkReached(t: Tuning, used: int, n: nat) {
    (used as real) < t.shrinkThreshold * n as real
  }

  function GrowthCandidate(t: Tuning, n: nat): real {
    if t.isNBuckets then n as real * t.growthFactor
    else n as real * t.growthFactor * t.growthThreshold
  }

  function ShrinkCandidate(t: Tuning, n: nat): real {
    if t.isNBuckets then n as real * t.shrinkFactor
    else n as real * t.shrinkFactor * t.growthThreshold
  }

  /** For this candidate as many buckets are wanted, less what is lost when the candidate is cut to a
      whole number. */
  ghost predicate WantedIs(t: Tuning, candidate: real, buckets: real)
    requires 0.0 < t.growthThreshold && 0.0 <= candidate
  {
    var lost := buckets - Wanted(candidate.Floor, t);
    0.0 <= lost < if t.isNBuckets then 1.0 else 1.0 / t.growthThreshold
  }

  /** What a table with n buckets asks for when it grows or shrinks: n times its factor, but for what
      is cut off. */
  lemma AsksFor(t: Tuning, n: nat)
    requires Sensible(t)
    ensures 0.0 <= GrowthCandidate(t, n) && WantedIs(t, GrowthCandidate(t, n), n as real * t.growthFactor)
    ensures 0.0 <= ShrinkCandidate(t, n) && WantedIs(t, ShrinkCandidate(t, n), n as real * t.shrinkFactor)
  {
    hide WantedIs;
    GrowthCandidateBound(t, n);
    ShrinkCandidateBound(t, n);
    CutWanted(t, n as real * t.growthFactor, GrowthCandidate(t, n));
    CutWanted(t, n as real * t.shrinkFactor, ShrinkCandidate(t, n));
  }

  lemma CutWanted(t: Tuning, x: real, c: real)
    requires 0.0 < t.growthThreshold && 0.0 <= c && c == if t.isNBuckets then x else x * t.growthThreshold
    ensures WantedIs(t, c, x)
  {
    if !t.isNBuckets { CutQuotient(x, t.growthThreshold); }
  }

  lemma CutQuotient(x: real, k: real)
    requires 0.0 < k && 0.0 <= x * k
    ensures var c := x * k; x - 1.0 / k < c.Floor as real / k <= x
  {
    var c := x * k;
    var f := c.Floor as real;
    DividedBy(f, c, k);
    DividedBy(c - 1.0, f, k);
    Product(x, k, c);
    assert (c - 1.0) / k == c / k - 1.0 / k;
  }

  lemma Product(x: real, k: real, c: real)
    requires 0.0 < k && c == x * k
    ensures c / k == x
  {
  }

  lemma DividedBy(a: real, b: real, k: real)
    requires 0.0 < k
    ensures a <= b ==> a / k <= b / k
    ensures a < b ==> a / k < b / k
  {
  }

  lemma Scale(a: real, b: real, k: real)
    requires 0.0 <= k && a <= b
    ensures k * a <= k * b
  {
  }

  lemma Cancel(c: real, k: real)
    requires 0.0 < k
    ensures k * (c / k) == c
  {
  }

  lemma GrowthCandidateBound(t: Tuning, n: nat)
    requires Sensible(t)
    ensures 0.0 <= GrowthCandidate(t, n)
  {
    Scale(0.0, t.growthFactor, n as real);
    Scale(0.0, t.growthThreshold, n as real * t.growthFactor);
  }

  lemma ShrinkCandidateBound(t: Tuning, n: nat)
    requires Sensible(t)
    ensures 0.0 <= ShrinkCandidate(t, n) <= n as real
  {
    if t.isNBuckets {
      Fraction(n as real, t.shrinkFactor, ShrinkCandidate(t, n));
    } else {
      Fractions(n as real, t.shrinkFactor, t.growthThreshold, ShrinkCandidate(t, n));
    }
  }

  lemma Fractions(x: real, a: real, b: real, r: real)
    requires 0.0 <= x && 0.0 <= a <= 1.0 && 0.0 <= b <= 1.0 && r == x * a * b
    ensures 0.0 <= r <= x
  {
    var y := x * a;
    Fraction(x, a, y);
    Fraction(y, b, r);
  }

  lemma Fraction(x: real, a: real, r: real)
    requires 0.0 <= x && 0.0 <= a <= 1.0 && r == x * a
    ensures 0.0 <= r <= x
  {
  }

  /** The promise made for the initial size and for every rehash that names a number of
      entries: while fewer than `candidate` entries are present, however they spread over the
      buckets, the table does not grow. */
  lemma NoGrowthBefore(candidate: nat, t: Tuning, n: nat, used: nat, entries: nat)
    requires Sensible(t) && !t.isNBuckets && BucketSizeIs(candidate, t, n) && 0 < n
    requires used <= entries && GrowthReached(t, used, n)
    ensures candidate <= entries
  {
    var k, w := t.growthThreshold, Wanted(candidate, t);
    Cancel(candidate as real, k);
    RoundedUp(candidate as real, k, w, n as real, used as real);
  }

  lemma RoundedUp(c: real, k: real, w: real, n: real, used: real)
    requires 0.0 < k < 1.0 && k * w == c && w - 1.0 <= n && k * n < used
    ensures c - 1.0 < used
  {
    Scale(w - 1.0, n, k);
    assert k * (w - 1.0) == c - k;
  }

  /** A growth of a table with n buckets makes the bucket array longer exactly when its tuning
      asks for more than n buckets, before rounding up. */
  lemma GrowthExact(t: Tuning, n: nat, m: nat)
    requires Sensible(t) && 11 <= n && Prime(n) && 0 < m
    requires 0.0 <= GrowthCandidate(t, n) < UINT64_MAX as real
    requires BucketSizeIs(GrowthCandidate(t, n).Floor, t, m)
    ensures n < m <==> n < Wanted(GrowthCandidate(t, n).Floor, t).Floor
  {
    hide Prime;
  }

  /** What a successful growth from n to m buckets comes to. */
  ghost predicate GrewAsAsked(t: Tuning, n: nat, m: nat)
    requires Sensible(t)
  {
    && 0.0 <= GrowthCandidate(t, n)
    && (n < m <==> n < Wanted(GrowthCandidate(t, n).Floor, t).Floor)
    && (t == DEFAULT_TUNING ==> n < m)
  }

  lemma GrewIs(t: Tuning, n: nat, m: nat)
    requires Sensible(t) && 11 <= n && Prime(n) && 0 < m
    requires 0.0 <= GrowthCandidate(t, n) < UINT64_MAX as real
    requires BucketSizeIs(GrowthCandidate(t, n).Floor, t, m)
    ensures GrewAsAsked(t, n, m)
  {
    hide Prime;
    GrowthExact(t, n, m);
    if t == DEFAULT_TUNING { GrowthIsStrict(n, m); }
  }

  /** The default tuning asks for more than the table has, whatever its size. */
  lemma DefaultAsksForMore(n: nat)
    requires 11 <= n
    ensures 0.0 <= GrowthCandidate(DEFAULT_TUNING, n)
    ensures n < Wanted(GrowthCandidate(DEFAULT_TUNING, n).Floor, DEFAULT_TUNING).Floor
  {
    var c := GrowthCandidate(DEFAULT_TUNING, n);
    assert c == n as real * 1.1312;
    var w := Wanted(c.Floor, DEFAULT_TUNING);
    assert w > (c - 1.0) / 0.8;
  }

  /** So with the default tuning every successful growth makes the bucket array longer. */
  lemma GrowthIsStrict(n: nat, m: nat)
    requires 11 <= n && 0 < m
    requires GrowthCandidate(DEFAULT_TUNING, n) < UINT64_MAX as real
    requires BucketSizeIs(GrowthCandidate(DEFAULT_TUNING, n).Floor, DEFAULT_TUNING, m)
    ensures n < m
  {
    hide Prime;
    DefaultAsksForMore(n);
  }

  /** Not so for every tuning that passes the check: with this one an 11-bucket table that
      reaches its threshold asks for 11 buckets again, and a 13-bucket table shrinks to 11. */
  lemma GrowthNeedNotBeStrict()
    ensures var t := Tuning(0.0, 1.0, 0.11, 1.11, false);
            && Sensible(t)
            && GrowthReached(t, 2, 11) && BucketSizeIs(GrowthCandidate(t, 11).Floor, t, 11)
            && GrowthReached(t, 2, 13) && BucketSizeIs(GrowthCandidate(t, 13).Floor, t, 11)
  {
    var t := Tuning(0.0, 1.0, 0.11, 1.11, false);
    assert GrowthCandidate(t, 11) == 1.3431 && GrowthCandidate(t, 13) == 1.5873;
    assert GrowthCandidate(t, 11).Floor == 1 && GrowthCandidate(t, 13).Floor == 1;
    assert Wanted(1, t).Floor == 9;
    assert Prime(11);
    assert !Prime(10) by { assert 10 % 2 == 0; }
  }
}
