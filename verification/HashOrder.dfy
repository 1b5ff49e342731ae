/** The order in which a walk meets the entries of a chained table. */
module HashOrder {
  import opened HashChains

  /** Bucket after bucket, each from its head on. */
  ghost function Flat(b: Buckets): seq<Ptr> {
    if b == [] then [] else Flat(b[..|b| - 1]) + b[|b| - 1]
  }

  /** The position of the head of bucket i. */
  ghost function Offset(b: Buckets, i: nat): nat
    requires i <= |b|
  {
    |Flat(b[..i])|
  }

  lemma {:induction false} FlatAll(b: Buckets)
    ensures multiset(Flat(b)) == All(b)
    decreases |b|
  {
    if b != [] { FlatAll(b[..|b| - 1]); }
  }

  lemma {:induction false} FlatPrefix(b: Buckets, i: nat)
    requires i <= |b|
    ensures Flat(b[..i]) <= Flat(b)
    decreases |b|
  {
    if i == |b| {
      assert b[..i] == b;
    } else {
      assert b[..|b| - 1][..i] == b[..i];
      FlatPrefix(b[..|b| - 1], i);
    }
  }

  lemma {:induction false} FlatStep(b: Buckets, i: nat)
    requires i < |b|
    ensures Flat(b[..i + 1]) == Flat(b[..i]) + b[i]
    ensures Flat(b[..i + 1]) <= Flat(b)
  {
    assert b[..i + 1][..i] == b[..i];
    FlatPrefix(b, i + 1);
  }

  lemma FlatAt(b: Buckets, i: nat, j: nat)
    requires i < |b| && j < |b[i]|
    ensures Offset(b, i) + j < |Flat(b)| && Flat(b)[Offset(b, i) + j] == b[i][j]
  {
    FlatStep(b, i);
    assert Flat(b[..i + 1])[Offset(b, i) + j] == b[i][j];
  }

  lemma {:induction false} FlatSkip(b: Buckets, i: nat, k: nat)
    requires i <= k <= |b| && forall l | i <= l < k :: b[l] == []
    ensures Offset(b, k) == Offset(b, i)
    decreases k - i
  {
    if i < k {
      FlatStep(b, k - 1);
      FlatSkip(b, i, k - 1);
    }
  }

  lemma FlatEnd(b: Buckets)
    ensures Offset(b, |b|) == |Flat(b)|
  {
    assert b[..|b|] == b;
  }

  lemma OccursTwice(s: seq<Ptr>, p: nat, q: nat)
    requires p < q < |s| && s[p] == s[q]
    ensures 2 <= multiset(s)[s[p]]
  {
    assert s == s[..q] + s[q..];
    assert s[..q][p] in multiset(s[..q]);
    assert s[q..][0] in multiset(s[q..]);
  }

  lemma OnePosition(s: seq<Ptr>, p: nat, q: nat)
    requires p < |s| && q < |s| && s[p] == s[q] && multiset(s)[s[p]] == 1
    ensures p == q
  {
    if p < q { OccursTwice(s, p, q); }
    if q < p { OccursTwice(s, q, p); }
  }
}
