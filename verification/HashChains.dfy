/** The bucket array of a chained hash table as a value: what it holds, which of its
    buckets are in use, and how many overflow nodes its chains need. */
module HashChains {

  /** A user entry: the pointer handed in by the caller. */
  type Ptr = nat

  /** One bucket. The empty chain is a head whose data is NULL; the first element is the
      bucket head, which lives in the bucket array itself, and every later element is an
      overflow entry, which lives in a node of its own. */
  type Chain = seq<Ptr>
  type Buckets = seq<Chain>

  ghost predicate InRange(h: (Ptr, nat) -> nat) {
    forall x: Ptr, n: nat | 0 < n :: h(x, n) < n
  }

  /** A hasher as the table demands it: deterministic, and in range for every table size. */
  type Hasher = h: (Ptr, nat) -> nat | InRange(h) witness (x: Ptr, n: nat) => 0

  /** Every entry of the table, with multiplicity. */
  ghost function All(b: Buckets): multiset<Ptr> {
    if b == [] then multiset{} else All(b[..|b| - 1]) + multiset(b[|b| - 1])
  }

  /** The indices of the buckets whose head is occupied. */
  ghost function UsedSet(b: Buckets): set<nat> {
    set i: nat | i < |b| && b[i] != []
  }

  /** The buckets a collection of entries hashes to, for a table of n buckets. */
  ghost function HashSet(h: Hasher, n: nat, m: multiset<Ptr>): set<nat> {
    set x | x in m :: h(x, n)
  }

  /** The overflow nodes the chains occupy: every entry but the bucket heads. */
  ghost function Overflow(b: Buckets): int {
    |All(b)| - |UsedSet(b)|
  }

  /** Every entry sits in the bucket it hashes to. */
  ghost predicate Placed(h: Hasher, b: Buckets) {
    forall i, j | 0 <= i < |b| && 0 <= j < |b[i]| :: h(b[i][j], |b|) == i
  }

  ghost predicate Empty(b: Buckets) {
    forall i | 0 <= i < |b| :: b[i] == []
  }

  lemma {:induction false} AllUpdate(b: Buckets, i: nat, c: Chain)
    requires i < |b|
    ensures All(b[i := c]) + multiset(b[i]) == All(b) + multiset(c)
    ensures multiset(b[i]) <= All(b)
    decreases |b|
  {
    var n := |b| - 1;
    if i == n {
      assert b[i := c][..n] == b[..n];
    } else {
      assert b[i := c][..n] == b[..n][i := c];
      AllUpdate(b[..n], i, c);
      assert b[..n][i] == b[i];
      SameAddend(All(b[..n][i := c]), multiset(b[i]), All(b[..n]), multiset(c), multiset(b[n]));
    }
  }

  lemma SameAddend(p: multiset<Ptr>, q: multiset<Ptr>, r: multiset<Ptr>, s: multiset<Ptr>, m: multiset<Ptr>)
    requires p + q == r + s
    ensures p + m + q == r + m + s
  {
    assert p + m + q == (p + q) + m;
  }

  lemma UsedSetPrefix(b: Buckets, i: nat)
    requires i < |b|
    ensures All(b[..i + 1]) == All(b[..i]) + multiset(b[i])
    ensures |UsedSet(b[..i + 1])| == |UsedSet(b[..i])| + if b[i] == [] then 0 else 1
  {
    assert b[..i + 1][..i] == b[..i];
    if b[i] == [] {
      assert UsedSet(b[..i + 1]) == UsedSet(b[..i]);
    } else {
      assert UsedSet(b[..i + 1]) == UsedSet(b[..i]) + {i};
    }
  }

  lemma {:induction false} AllOfEmpty(b: Buckets)
    requires Empty(b)
    ensures All(b) == multiset{}
    ensures UsedSet(b) == {}
    decreases |b|
  {
    if b != [] {
      assert b[|b| - 1] == [];
      AllOfEmpty(b[..|b| - 1]);
    }
  }

  lemma {:induction false} AllMember(b: Buckets, x: Ptr)
    ensures x in All(b) <==> exists i :: 0 <= i < |b| && x in b[i]
    decreases |b|
  {
    if b != [] {
      AllMember(b[..|b| - 1], x);
      InPrefix(b, x);
    }
  }

  ghost predicate InSome(b: Buckets, x: Ptr) {
    exists i :: 0 <= i < |b| && x in b[i]
  }

  lemma InPrefix(b: Buckets, x: Ptr)
    requires b != []
    ensures InSome(b, x) <==> InSome(b[..|b| - 1], x) || x in b[|b| - 1]
  {
    var n := |b| - 1;
    if i :| 0 <= i < |b| && x in b[i] {
      if i < n { assert x in b[..n][i]; }
    }
    if i :| 0 <= i < n && x in b[..n][i] {
      assert x in b[i];
    }
  }

  lemma UsedSetUpdate(b: Buckets, i: nat, c: Chain)
    requires i < |b|
    ensures b[i] == [] && c != [] ==> |UsedSet(b[i := c])| == |UsedSet(b)| + 1
    ensures b[i] != [] && c == [] ==> |UsedSet(b[i := c])| == |UsedSet(b)| - 1
    ensures (b[i] == [] <==> c == []) ==> UsedSet(b[i := c]) == UsedSet(b)
  {
    hide UsedSet;
    OthersUsed(b, i, c);
    SetsBut(UsedSet(b), UsedSet(b[i := c]), i);
  }

  lemma OthersUsed(b: Buckets, i: nat, c: Chain)
    requires i < |b|
    ensures forall k: nat | k != i :: k in UsedSet(b[i := c]) <==> k in UsedSet(b)
    ensures i in UsedSet(b) <==> b[i] != []
    ensures i in UsedSet(b[i := c]) <==> c != []
  {
  }

  /** Two sets that differ in i at most. */
  lemma SetsBut(s: set<nat>, t: set<nat>, i: nat)
    requires forall k: nat | k != i :: k in s <==> k in t
    ensures i !in s && i in t ==> |t| == |s| + 1
    ensures i in s && i !in t ==> |t| == |s| - 1
    ensures (i in s <==> i in t) ==> s == t
  {
    if i !in s && i in t { assert t == s + {i}; }
    if i in s && i !in t { assert s == t + {i}; }
  }

  /** In a well-placed table the used buckets are exactly those the entries hash to. */
  lemma PlacedUsed(h: Hasher, b: Buckets)
    requires Placed(h, b)
    ensures UsedSet(b) == HashSet(h, |b|, All(b))
  {
    forall i | i in UsedSet(b)
      ensures i in HashSet(h, |b|, All(b))
    {
      assert b[i][0] in b[i];
      AllMember(b, b[i][0]);
    }
    forall x | x in All(b)
      ensures h(x, |b|) in UsedSet(b)
    {
      AllMember(b, x);
      var i :| 0 <= i < |b| && x in b[i];
      var j :| 0 <= j < |b[i]| && b[i][j] == x;
    }
  }

  lemma {:induction false} HashSetBound(h: Hasher, n: nat, m: multiset<Ptr>)
    ensures |HashSet(h, n, m)| <= |m|
    decreases |m|
  {
    if m != multiset{} {
      var x :| x in m;
      var rest := m - multiset{x};
      HashSetBound(h, n, rest);
      assert HashSet(h, n, m) <= HashSet(h, n, rest) + {h(x, n)};
      SubsetCard(HashSet(h, n, m), HashSet(h, n, rest) + {h(x, n)});
    } else {
      assert HashSet(h, n, m) == {};
    }
  }

  lemma {:induction false} SubsetCard(a: set<nat>, b: set<nat>)
    requires a <= b
    ensures |a| <= |b|
  {
    if a != {} {
      var x :| x in a;
      SubsetCard(a - {x}, b - {x});
    }
  }

  /** No more buckets are in use than there are entries. */
  lemma UsedBound(h: Hasher, b: Buckets)
    requires Placed(h, b)
    ensures |UsedSet(b)| <= |All(b)|
  {
    PlacedUsed(h, b);
    HashSetBound(h, |b|, All(b));
  }
}
