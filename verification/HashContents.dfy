/** A chained table as a finite set of entries, no two of which compare equal. */
module HashContents {
  import opened HashChains
  import HashTransfer

  type Comparator = (Ptr, Ptr) -> bool

  /** The table's notion of a match: the same pointer, or equal as the caller sees it. */
  predicate Same(cmp: Comparator, x: Ptr, y: Ptr) {
    x == y || cmp(x, y)
  }

  /** Comparing is symmetric, and equal entries hash alike at every table size. */
  ghost predicate Agrees(h: Hasher, cmp: Comparator) {
    && (forall x, y | cmp(x, y) :: cmp(y, x))
    && forall x, y, n: nat | cmp(x, y) && 0 < n :: h(x, n) == h(y, n)
  }

  /** A set modulo the comparator, and without the null pointer. */
  ghost predicate Distinct(cmp: Comparator, m: multiset<Ptr>) {
    && (forall x | x in m :: x != 0 && m[x] == 1)
    && forall x, y | x in m && y in m && x != y :: !cmp(x, y)
  }

  ghost predicate HasMatch(cmp: Comparator, m: multiset<Ptr>, entry: Ptr) {
    exists x :: x in m && Same(cmp, entry, x)
  }

  /** The two counters and the entries are right, and every entry is in its bucket. */
  ghost predicate Consistent(h: Hasher, cmp: Comparator, b: Buckets, used: int, entries: int) {
    && Placed(h, b)
    && used == |UsedSet(b)|
    && entries == |All(b)|
    && Distinct(cmp, All(b))
  }

  /** Only the bucket an entry hashes to can hold a match for it. */
  lemma MatchInBucket(h: Hasher, cmp: Comparator, b: Buckets, entry: Ptr)
    requires Agrees(h, cmp) && Placed(h, b) && 0 < |b|
    ensures HasMatch(cmp, All(b), entry)
            <==> exists j :: 0 <= j < |b[h(entry, |b|)]| && Same(cmp, entry, b[h(entry, |b|)][j])
  {
    var k := h(entry, |b|);
    if HasMatch(cmp, All(b), entry) {
      var x :| x in All(b) && Same(cmp, entry, x);
      AllMember(b, x);
      var i :| 0 <= i < |b| && x in b[i];
      var j :| 0 <= j < |b[i]| && b[i][j] == x;
      assert h(x, |b|) == i;
    }
    if j :| 0 <= j < |b[k]| && Same(cmp, entry, b[k][j]) {
      AllMember(b, b[k][j]);
    }
  }

  lemma InsertKeeps(h: Hasher, cmp: Comparator, b: Buckets, used: int, entries: int, x: Ptr)
    requires Consistent(h, cmp, b, used, entries) && 0 < |b| && Agrees(h, cmp)
    requires x != 0 && !HasMatch(cmp, All(b), x)
    ensures var k := h(x, |b|); var t := HashTransfer.Put(b, k, x);
            && Consistent(h, cmp, t, used + (if b[k] == [] then 1 else 0), entries + 1)
            && All(t) == All(b) + multiset{x}
  {
    var k := h(x, |b|);
    HashTransfer.PutPlaced(h, b, k, x);
    HashTransfer.PutKeeps(b, k, x);
    DistinctWith(cmp, All(b), x);
  }

  lemma DistinctWith(cmp: Comparator, m: multiset<Ptr>, x: Ptr)
    requires Distinct(cmp, m) && x != 0 && !HasMatch(cmp, m, x)
    requires forall y, z | cmp(y, z) :: cmp(z, y)
    ensures Distinct(cmp, m + multiset{x})
  {
    assert x !in m by {
      if x in m { assert Same(cmp, x, x); }
    }
    forall y | y in m ensures !cmp(x, y) && !cmp(y, x) {
      assert !Same(cmp, x, y);
    }
  }

  /** Bucket k without its j-th entry. */
  function Drop(b: Buckets, k: nat, j: nat): Buckets
    requires k < |b| && j < |b[k]|
  {
    b[k := b[k][..j] + b[k][j + 1..]]
  }

  lemma DropPlaced(h: Hasher, b: Buckets, k: nat, j: nat)
    requires Placed(h, b) && k < |b| && j < |b[k]|
    ensures Placed(h, Drop(b, k, j))
  {
    var t := Drop(b, k, j);
    forall i, l | 0 <= i < |t| && 0 <= l < |t[i]| ensures h(t[i][l], |t|) == i {
      assert t[i][l] == b[i][if i != k || l < j then l else l + 1];
    }
  }

  lemma DropKeeps(h: Hasher, cmp: Comparator, b: Buckets, used: int, entries: int, k: nat, j: nat)
    requires Consistent(h, cmp, b, used, entries) && k < |b| && j < |b[k]|
    ensures var t := Drop(b, k, j);
            && Consistent(h, cmp, t, used - (if |b[k]| == 1 then 1 else 0), entries - 1)
            && All(t) + multiset{b[k][j]} == All(b)
  {
    var t, c, x := Drop(b, k, j), b[k][..j] + b[k][j + 1..], b[k][j];
    DropPlaced(h, b, k, j);
    assert b[k] == b[k][..j] + [x] + b[k][j + 1..];
    assert multiset(b[k]) == multiset(c) + multiset{x};
    AllUpdate(b, k, c);
    UsedSetUpdate(b, k, c);
    HashTransfer.AddSides(All(b), multiset(c), All(t), multiset{x});
    DistinctWithout(cmp, All(t), x);
  }

  lemma DistinctWithout(cmp: Comparator, m: multiset<Ptr>, x: Ptr)
    requires Distinct(cmp, m + multiset{x})
    ensures Distinct(cmp, m)
  {
    forall y | y in m ensures y != 0 && m[y] == 1 {
      assert (m + multiset{x})[y] == 1;
    }
    forall y, z | y in m && z in m && y != z ensures !cmp(y, z) {
      assert y in m + multiset{x} && z in m + multiset{x};
    }
  }

  lemma ClearedBucket(b: Buckets, i: nat, before: seq<Ptr>)
    requires i < |b| && b[i] != []
    ensures var freed := before + b[i][1..] + [b[i][0]];
            All(b[i := []]) + multiset(freed) == All(b) + multiset(before)
    ensures Overflow(b[i := []]) == Overflow(b) - (|b[i]| - 1)
  {
    hide All, UsedSet;
    var freed := before + b[i][1..] + [b[i][0]];
    AllUpdate(b, i, []);
    UsedSetUpdate(b, i, []);
    assert b[i] == [b[i][0]] + b[i][1..];
    assert multiset(freed) == multiset(before) + multiset(b[i]);
    assert All(b[i := []]) + multiset(b[i]) == All(b);
    assert All(b[i := []]) + multiset(freed) == All(b[i := []]) + multiset(b[i]) + multiset(before);
  }
}
