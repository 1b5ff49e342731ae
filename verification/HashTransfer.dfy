/** Moving every entry from one bucket array to another through a shared list of spare
    nodes, and undoing such a move when memory runs out half way. */
module HashTransfer {
  import opened HashChains

  /** The answer malloc gives to its k-th call. Nothing is assumed about it, so a statement
      for all outcomes covers every pattern of allocation failures. */
  type Outcomes = nat -> bool

  /** The spare nodes on the free list, the calls made to malloc so far, and how many of
      those produced a node. */
  datatype Heap = Heap(free: nat, calls: nat, grown: nat)

  /** A transfer under way. `ok` turns false when a node was needed and none could be had. */
  datatype State = State(dst: Buckets, dstUsed: int, src: Buckets, srcUsed: int, heap: Heap, ok: bool)

  function AllocateEntry(mem: Outcomes, heap: Heap): (r: (Heap, bool))
    ensures r.1 ==> r.0.free - r.0.grown + 1 == heap.free - heap.grown
    ensures !r.1 ==> r.0.free == heap.free == 0 && r.0.grown == heap.grown
    ensures 0 < heap.free ==> r.1 && r.0.calls == heap.calls
  {
    if 0 < heap.free then (heap.(free := heap.free - 1), true)
    else if mem(heap.calls) then (heap.(calls := heap.calls + 1, grown := heap.grown + 1), true)
    else (heap.(calls := heap.calls + 1), false)
  }

  /** Bucket k with x added: an empty bucket takes x as its head, an occupied one takes x as
      its first overflow entry. */
  function Put(b: Buckets, k: nat, x: Ptr): Buckets
    requires k < |b|
  {
    b[k := if b[k] == [] then [x] else [b[k][0], x] + b[k][1..]]
  }

  /** Bucket i without its first overflow entry, or without its head if it has no overflow. */
  function Take(b: Buckets, i: nat): Buckets
    requires i < |b| && b[i] != []
  {
    b[i := if |b[i]| == 1 then [] else [b[i][0]] + b[i][2..]]
  }

  /** The first entry of source bucket i that may move next. */
  function Next(b: Buckets, i: nat): Ptr
    requires i < |b| && b[i] != []
  {
    if |b[i]| == 1 then b[i][0] else b[i][1]
  }

  /** The first overflow entry of source bucket i moves: it is relinked into the overflow of
      its new bucket, or fills an empty bucket head and leaves its node on the free list. */
  function MoveOverflow(h: Hasher, s: State, i: nat): State
    requires 0 < |s.dst| && i < |s.src| && 2 <= |s.src[i]|
  {
    var x := s.src[i][1];
    var k := h(x, |s.dst|);
    var t := s.(src := Take(s.src, i), dst := Put(s.dst, k, x));
    if s.dst[k] != [] then t
    else t.(dstUsed := s.dstUsed + 1, heap := s.heap.(free := s.heap.free + 1))
  }

  /** The head of source bucket i moves: into an empty bucket head, or into the overflow of
      an occupied bucket, which takes a node. */
  function MoveHead(h: Hasher, mem: Outcomes, s: State, i: nat): State
    requires s.ok && 0 < |s.dst| && i < |s.src| && |s.src[i]| == 1
  {
    var x := s.src[i][0];
    var k := h(x, |s.dst|);
    var t := s.(src := Take(s.src, i), srcUsed := s.srcUsed - 1, dst := Put(s.dst, k, x));
    if s.dst[k] != [] then
      var (heap, ok) := AllocateEntry(mem, s.heap);
      if ok then t.(heap := heap) else s.(heap := heap, ok := false)
    else
      t.(dstUsed := s.dstUsed + 1)
  }

  /** The transfer from source bucket i on. With `safe`, bucket heads stay where they are. */
  function Transfer(h: Hasher, mem: Outcomes, s: State, i: nat, safe: bool): (t: State)
    requires s.ok && 0 < |s.dst| && i <= |s.src|
    ensures |t.dst| == |s.dst| && |t.src| == |s.src|
    decreases |s.src| - i, if i < |s.src| then |s.src[i]| else 0
  {
    if i == |s.src| then s
    else if 2 <= |s.src[i]| then Transfer(h, mem, MoveOverflow(h, s, i), i, safe)
    else if |s.src[i]| == 0 || safe then Transfer(h, mem, s, i + 1, safe)
    else
      var t := MoveHead(h, mem, s, i);
      if t.ok then Transfer(h, mem, t, i + 1, safe) else t
  }

  lemma OverflowFirst(h: Hasher, mem: Outcomes, s: State, i: nat, safe: bool)
    requires s.ok && 0 < |s.dst| && i < |s.src| && 2 <= |s.src[i]|
    ensures Transfer(h, mem, s, i, safe) == Transfer(h, mem, MoveOverflow(h, s, i), i, safe)
  {
  }

  /** Once the overflow of bucket i has gone, the head follows, unless there is none or it stays. */
  lemma HeadNext(h: Hasher, mem: Outcomes, s: State, i: nat, safe: bool)
    requires s.ok && 0 < |s.dst| && i < |s.src| && |s.src[i]| <= 1
    ensures Transfer(h, mem, s, i, safe)
            == if s.src[i] == [] || safe then Transfer(h, mem, s, i + 1, safe)
               else
                 var t := MoveHead(h, mem, s, i);
                 if t.ok then Transfer(h, mem, t, i + 1, safe) else t
  {
  }

  lemma TransferDone(h: Hasher, mem: Outcomes, s: State, safe: bool)
    requires s.ok && 0 < |s.dst|
    ensures Transfer(h, mem, s, |s.src|, safe) == s
  {
  }

  /** The buckets when bucket i, which held d, is left with its head and the entries from j on. */
  function Remaining(b: Buckets, i: nat, d: Chain, j: nat): Buckets
    requires i < |b| && 1 <= j <= |d|
  {
    b[i := [d[0]] + d[j..]]
  }

  lemma RemainingStart(b: Buckets, i: nat)
    requires i < |b| && b[i] != []
    ensures Remaining(b, i, b[i], 1) == b
    ensures Remaining(b, i, b[i], |b[i]|) == b[i := [b[i][0]]]
  {
    assert [b[i][0]] + b[i][1..] == b[i];
    assert [b[i][0]] + b[i][|b[i]|..] == [b[i][0]];
  }

  /** From s to t the j-th entry of d has gone over. */
  lemma {:induction false} OverflowGone(h: Hasher, mem: Outcomes, s: State, t: State, b: Buckets, i: nat,
                                        d: Chain, j: nat, safe: bool)
    requires s.ok && 0 < |s.dst| && i < |b| && 1 <= j < |d|
    requires s.src == Remaining(b, i, d, j) && t.src == Remaining(b, i, d, j + 1)
    requires var k := h(d[j], |s.dst|);
             && t.dst == Put(s.dst, k, d[j]) && t.ok && t.srcUsed == s.srcUsed
             && t.dstUsed == s.dstUsed + (if s.dst[k] == [] then 1 else 0)
             && t.heap == s.heap.(free := s.heap.free + if s.dst[k] == [] then 1 else 0)
    ensures Transfer(h, mem, s, i, safe) == Transfer(h, mem, t, i, safe)
  {
    hide Transfer;
    assert s.src[i] == [d[0], d[j]] + d[j + 1..];
    assert Take(s.src, i) == t.src;
    assert MoveOverflow(h, s, i) == t;
    OverflowFirst(h, mem, s, i, safe);
  }

  /** Both arrays are consistent and together hold exactly `all`. */
  ghost predicate Inv(h: Hasher, s: State, all: multiset<Ptr>) {
    && 0 < |s.dst|
    && All(s.dst) + All(s.src) == all
    && Placed(h, s.dst) && Placed(h, s.src)
    && s.dstUsed == |UsedSet(s.dst)|
    && s.srcUsed == |UsedSet(s.src)|
  }

  /** Spare nodes and nodes in chains: what the table has drawn from malloc and still owns. */
  ghost function Nodes(s: State): int {
    s.heap.free + Overflow(s.dst) + Overflow(s.src) - s.heap.grown
  }

  /** From s to t nothing is lost: neither entries, nor nodes, nor consistency. */
  ghost predicate Kept(h: Hasher, s: State, t: State, all: multiset<Ptr>) {
    && |t.dst| == |s.dst| && |t.src| == |s.src|
    && Inv(h, t, all) && Nodes(t) == Nodes(s) && s.heap.grown <= t.heap.grown
  }

  lemma PutPlaced(h: Hasher, b: Buckets, k: nat, x: Ptr)
    requires Placed(h, b) && k < |b| && h(x, |b|) == k
    ensures Placed(h, Put(b, k, x))
  {
    var t := Put(b, k, x);
    forall i, j | 0 <= i < |t| && 0 <= j < |t[i]| ensures h(t[i][j], |t|) == i {
      if i == k {
        if 2 <= j { assert t[k][j] == b[k][j - 1]; }
      } else {
        assert t[i][j] == b[i][j];
      }
    }
  }

  lemma {:induction false} PutKeeps(b: Buckets, k: nat, x: Ptr)
    requires k < |b|
    ensures var t := Put(b, k, x);
            && All(t) == All(b) + multiset{x}
            && |UsedSet(t)| == |UsedSet(b)| + if b[k] == [] then 1 else 0
  {
    var c := Put(b, k, x)[k];
    if b[k] != [] {
      assert b[k] == [b[k][0]] + b[k][1..];
      assert multiset(c) == multiset(b[k]) + multiset{x};
    }
    AllUpdate(b, k, c);
    UsedSetUpdate(b, k, c);
    AddSides(All(Put(b, k, x)), multiset(b[k]), All(b), multiset{x});
  }

  lemma AddSides(l: multiset<Ptr>, m: multiset<Ptr>, r: multiset<Ptr>, d: multiset<Ptr>)
    ensures l + m == r + (m + d) ==> l == r + d
  {
    if l + m == r + (m + d) {
      assert r + (m + d) == (r + d) + m;
      assert forall x :: l[x] == (l + m)[x] - m[x];
    }
  }

  lemma TakePlaced(h: Hasher, b: Buckets, i: nat)
    requires Placed(h, b) && i < |b| && b[i] != []
    ensures Placed(h, Take(b, i))
  {
    var t := Take(b, i);
    forall k, j | 0 <= k < |t| && 0 <= j < |t[k]| ensures h(t[k][j], |t|) == k {
      assert t[k][j] == b[k][if k != i || j == 0 then j else j + 1];
    }
  }

  lemma TakeKeeps(b: Buckets, i: nat)
    requires i < |b| && b[i] != []
    ensures var t := Take(b, i);
            && All(t) + multiset{Next(b, i)} == All(b)
            && |UsedSet(t)| == |UsedSet(b)| - if |b[i]| == 1 then 1 else 0
  {
    var c := Take(b, i)[i];
    var x := Next(b, i);
    if |b[i]| == 1 {
      assert b[i] == [b[i][0]];
    } else {
      assert b[i] == [b[i][0], b[i][1]] + b[i][2..];
    }
    assert multiset(b[i]) == multiset(c) + multiset{x};
    AllUpdate(b, i, c);
    UsedSetUpdate(b, i, c);
    AddSides(All(b), multiset(c), All(Take(b, i)), multiset{x});
  }

  lemma {:induction false} MoveKeeps(h: Hasher, dst: Buckets, src: Buckets, i: nat)
    requires 0 < |dst| && i < |src| && src[i] != [] && Placed(h, dst) && Placed(h, src)
    ensures var k := h(Next(src, i), |dst|); var d, s := Put(dst, k, Next(src, i)), Take(src, i);
            && Placed(h, d) && Placed(h, s)
            && All(d) + All(s) == All(dst) + All(src)
            && |UsedSet(d)| == |UsedSet(dst)| + (if dst[k] == [] then 1 else 0)
            && |UsedSet(s)| == |UsedSet(src)| - (if |src[i]| == 1 then 1 else 0)
            && |All(d)| == |All(dst)| + 1 && |All(s)| == |All(src)| - 1
  {
    var x := Next(src, i);
    TakePlaced(h, src, i);
    TakeKeeps(src, i);
    PutPlaced(h, dst, h(x, |dst|), x);
    PutKeeps(dst, h(x, |dst|), x);
    Regroup(All(dst), All(Take(src, i)), multiset{x});
  }

  lemma Regroup(a: multiset<Ptr>, b: multiset<Ptr>, c: multiset<Ptr>)
    ensures a + c + b == a + (b + c)
  {
  }

  lemma MoveOverflowInv(h: Hasher, s: State, i: nat, all: multiset<Ptr>)
    requires Inv(h, s, all) && i < |s.src| && 2 <= |s.src[i]|
    ensures var t := MoveOverflow(h, s, i);
            && Kept(h, s, t, all)
            && t.ok == s.ok && |t.src[i]| < |s.src[i]|
  {
    MoveKeeps(h, s.dst, s.src, i);
  }

  lemma MoveHeadInv(h: Hasher, mem: Outcomes, s: State, i: nat, all: multiset<Ptr>)
    requires s.ok && Inv(h, s, all) && i < |s.src| && |s.src[i]| == 1
    ensures Kept(h, s, MoveHead(h, mem, s, i), all)
  {
    MoveKeeps(h, s.dst, s.src, i);
  }

  /** Whatever malloc answers, a transfer loses no entry and no node, and keeps both arrays
      consistent even when it stops half way. */
  lemma {:induction false} TransferKeeps(h: Hasher, mem: Outcomes, s: State, i: nat, safe: bool,
                                         all: multiset<Ptr>)
    requires s.ok && 0 < |s.dst| && Inv(h, s, all) && i <= |s.src|
    ensures Kept(h, s, Transfer(h, mem, s, i, safe), all)
    decreases |s.src| - i, if i < |s.src| then |s.src[i]| else 0
  {
    hide Inv, Nodes, MoveOverflow, MoveHead;
    if i == |s.src| {
    } else if 2 <= |s.src[i]| {
      MoveOverflowInv(h, s, i, all);
      TransferKeeps(h, mem, MoveOverflow(h, s, i), i, safe, all);
    } else if |s.src[i]| == 0 || safe {
      TransferKeeps(h, mem, s, i + 1, safe, all);
    } else {
      MoveHeadInv(h, mem, s, i, all);
      var t := MoveHead(h, mem, s, i);
      if t.ok { TransferKeeps(h, mem, t, i + 1, safe, all); }
    }
  }

  /** A transfer fails for one reason only: the last call to malloc was made by it and failed. */
  ghost predicate LastCallFailed(mem: Outcomes, before: nat, now: nat) {
    before < now && !mem(now - 1)
  }

  lemma {:induction false} TransferFails(h: Hasher, mem: Outcomes, s: State, i: nat, safe: bool)
    requires s.ok && 0 < |s.dst| && i <= |s.src|
    ensures var t := Transfer(h, mem, s, i, safe);
            s.heap.calls <= t.heap.calls && (!t.ok ==> LastCallFailed(mem, s.heap.calls, t.heap.calls))
    decreases |s.src| - i, if i < |s.src| then |s.src[i]| else 0
  {
    if i == |s.src| {
    } else if 2 <= |s.src[i]| {
      TransferFails(h, mem, MoveOverflow(h, s, i), i, safe);
    } else if |s.src[i]| == 0 || safe {
      TransferFails(h, mem, s, i + 1, safe);
    } else {
      var t := MoveHead(h, mem, s, i);
      if t.ok { TransferFails(h, mem, t, i + 1, safe); }
    }
  }

  /** A transfer that moves heads too leaves nothing behind when it succeeds. */
  lemma {:induction false} TransferEmpties(h: Hasher, mem: Outcomes, s: State, i: nat)
    requires s.ok && 0 < |s.dst| && i <= |s.src|
    requires forall k | 0 <= k < i :: s.src[k] == []
    ensures var t := Transfer(h, mem, s, i, false); t.ok ==> Empty(t.src)
    decreases |s.src| - i, if i < |s.src| then |s.src[i]| else 0
  {
    if i == |s.src| {
    } else if 2 <= |s.src[i]| {
      TransferEmpties(h, mem, MoveOverflow(h, s, i), i);
    } else if |s.src[i]| == 0 {
      TransferEmpties(h, mem, s, i + 1);
    } else {
      var t := MoveHead(h, mem, s, i);
      if t.ok { TransferEmpties(h, mem, t, i + 1); }
    }
  }

  ghost predicate HeadsOnly(b: Buckets) {
    forall k | 0 <= k < |b| :: |b[k]| <= 1
  }

  /** A safe transfer cannot fail, asks malloc for nothing, and leaves bucket heads only. */
  lemma {:induction false} SafeTransfer(h: Hasher, mem: Outcomes, s: State, i: nat)
    requires s.ok && 0 < |s.dst| && i <= |s.src|
    requires forall k | 0 <= k < i :: |s.src[k]| <= 1
    ensures var t := Transfer(h, mem, s, i, true);
            && t.ok && HeadsOnly(t.src)
            && t.heap.calls == s.heap.calls && t.heap.grown == s.heap.grown
    decreases |s.src| - i, if i < |s.src| then |s.src[i]| else 0
  {
    if i == |s.src| {
    } else if 2 <= |s.src[i]| {
      SafeTransfer(h, mem, MoveOverflow(h, s, i), i);
    } else {
      SafeTransfer(h, mem, s, i + 1);
    }
  }

  /** As many nodes, spare or in chains, as `all` needs for overflow when it is spread over an
      array of n buckets. */
  ghost predicate Enough(h: Hasher, s: State, n: nat, all: multiset<Ptr>) {
    |all| - |HashSet(h, n, all)| <= Nodes(s) + s.heap.grown
  }

  /** The counting argument. With only heads left to move back, a head that collides finds a
      spare node: every other bucket still to be filled needs a head of its own. */
  lemma SpareNode(h: Hasher, s: State, i: nat, all: multiset<Ptr>)
    requires Inv(h, s, all) && Enough(h, s, |s.dst|, all) && HeadsOnly(s.src)
    requires i < |s.src| && s.src[i] != [] && s.dst[h(s.src[i][0], |s.dst|)] != []
    ensures 0 < s.heap.free
  {
    var n, x := |s.dst|, s.src[i][0];
    var rest := All(Take(s.src, i));
    TakeKeeps(s.src, i);
    PlacedUsed(h, s.dst);
    HeadsOnlyOverflow(s.src);
    HashSetBound(h, n, rest);
    var wanted, used := HashSet(h, n, all), UsedSet(s.dst);
    assert wanted <= used + HashSet(h, n, rest);
    SubsetCard(wanted, used + HashSet(h, n, rest));
    assert all == All(s.dst) + rest + multiset{x};
    assert |all| == |All(s.dst)| + |rest| + 1;
  }

  lemma {:induction false} HeadsOnlyOverflow(b: Buckets)
    requires HeadsOnly(b)
    ensures Overflow(b) == 0
    decreases |b|
  {
    if b != [] {
      var n := |b| - 1;
      HeadsOnlyOverflow(b[..n]);
      if b[n] == [] {
        assert UsedSet(b) == UsedSet(b[..n]);
      } else {
        assert UsedSet(b) == UsedSet(b[..n]) + {n};
      }
    }
  }

  lemma HeadReturns(h: Hasher, mem: Outcomes, s: State, i: nat, all: multiset<Ptr>)
    requires s.ok && Inv(h, s, all) && Enough(h, s, |s.dst|, all) && HeadsOnly(s.src)
    requires i < |s.src| && s.src[i] != []
    ensures var t := MoveHead(h, mem, s, i);
            && t.ok && t.heap.calls == s.heap.calls && t.heap.grown == s.heap.grown
            && Kept(h, s, t, all) && Enough(h, t, |t.dst|, all) && HeadsOnly(t.src)
  {
    if s.dst[h(s.src[i][0], |s.dst|)] != [] { SpareNode(h, s, i, all); }
    MoveHeadInv(h, mem, s, i, all);
  }

  /** The second pass of the undo cannot fail and asks malloc for nothing. */
  lemma {:induction false} HeadsReturn(h: Hasher, mem: Outcomes, s: State, i: nat, all: multiset<Ptr>)
    requires s.ok && 0 < |s.dst| && i <= |s.src|
    requires Inv(h, s, all) && Enough(h, s, |s.dst|, all) && HeadsOnly(s.src)
    ensures var t := Transfer(h, mem, s, i, false);
            t.ok && t.heap.calls == s.heap.calls && t.heap.grown == s.heap.grown
    decreases |s.src| - i
  {
    hide Inv, Nodes, Enough, MoveHead;
    if i == |s.src| {
    } else if s.src[i] == [] {
      HeadsReturn(h, mem, s, i + 1, all);
    } else {
      var t := MoveHead(h, mem, s, i);
      HeadReturns(h, mem, s, i, all);
      HeadsReturn(h, mem, t, i + 1, all);
    }
  }

  /** The two-pass undo: with the arrays swapped, first the overflow entries go back, then
      the bucket heads. */
  function Undo(h: Hasher, mem: Outcomes, s: State): State
    requires 0 < |s.dst| && 0 < |s.src|
  {
    var back := State(s.src, s.srcUsed, s.dst, s.dstUsed, s.heap, true);
    var first := Transfer(h, mem, back, 0, true);
    if first.ok then Transfer(h, mem, first, 0, false) else first
  }

  /** From any consistent half-way state with enough nodes the undo succeeds without asking
      malloc for anything, and every entry is back in the old array. */
  lemma UndoSucceeds(h: Hasher, mem: Outcomes, s: State, all: multiset<Ptr>)
    requires Inv(h, s, all) && 0 < |s.src| && Enough(h, s, |s.src|, all)
    ensures var r := Undo(h, mem, s);
            && r.ok && r.heap.calls == s.heap.calls && r.heap.grown == s.heap.grown
            && Empty(r.src) && |r.dst| == |s.src| && Inv(h, r, all) && Nodes(r) == Nodes(s)
  {
    var back := State(s.src, s.srcUsed, s.dst, s.dstUsed, s.heap, true);
    assert Inv(h, back, all);
    SafeTransfer(h, mem, back, 0);
    TransferKeeps(h, mem, back, 0, true, all);
    var first := Transfer(h, mem, back, 0, true);
    HeadsReturn(h, mem, first, 0, all);
    TransferKeeps(h, mem, first, 0, false, all);
    TransferEmpties(h, mem, first, 0);
  }

  function NewArray(n: nat): (b: Buckets)
    ensures |b| == n && Empty(b)
  {
    seq(n, _ => [])
  }

  /** What a change of the number of buckets leads to. */
  datatype Rehashed = Rehashed(b: Buckets, used: int, heap: Heap, ok: bool) | Aborted

  /** Moving a table of entries b into n buckets: one call for the new array, then the
      transfer, then the undo if the transfer ran out of nodes. */
  function Rehash(h: Hasher, mem: Outcomes, b: Buckets, used: int, heap: Heap, n: nat): Rehashed
    requires 0 < n && 0 < |b|
  {
    if n == |b| then Rehashed(b, used, heap, true)
    else
      var called := heap.(calls := heap.calls + 1);
      if !mem(heap.calls) then Rehashed(b, used, called, false)
      else
        var start := State(NewArray(n), 0, b, used, called, true);
        var s := Transfer(h, mem, start, 0, false);
        if s.ok then Rehashed(s.dst, s.dstUsed, s.heap, true)
        else
          var r := Undo(h, mem, s);
          if r.ok then Rehashed(r.dst, r.dstUsed, r.heap, false) else Aborted
  }

  lemma RehashSteps(h: Hasher, mem: Outcomes, b: Buckets, used: int, heap: Heap, n: nat)
    requires 0 < n && 0 < |b| && n != |b|
    ensures var called := heap.(calls := heap.calls + 1);
            var s := Transfer(h, mem, State(NewArray(n), 0, b, used, called, true), 0, false);
            var first := Transfer(h, mem, State(s.src, s.srcUsed, s.dst, s.dstUsed, s.heap, true), 0, true);
            var r := if first.ok then Transfer(h, mem, first, 0, false) else first;
            Rehash(h, mem, b, used, heap, n)
            == if !mem(heap.calls) then Rehashed(b, used, called, false)
               else if s.ok then Rehashed(s.dst, s.dstUsed, s.heap, true)
               else if r.ok then Rehashed(r.dst, r.dstUsed, r.heap, false) else Aborted
  {
  }

  /** For every deterministic in-range hasher and every pattern of allocation failures, a
      rehash never reaches abort. It keeps exactly the same entries, each in its bucket, and
      keeps the counter right; it fails only when a call to malloc has, and then the number of
      buckets and of used buckets are what they were. No node is lost either way. */
  lemma RehashKeeps(h: Hasher, mem: Outcomes, b: Buckets, used: int, heap: Heap, n: nat)
    requires 0 < n && 0 < |b| && Placed(h, b) && used == |UsedSet(b)|
    ensures var r := Rehash(h, mem, b, used, heap, n);
            && r.Rehashed?
            && |r.b| == (if r.ok then n else |b|)
            && All(r.b) == All(b) && Placed(h, r.b)
            && r.used == |UsedSet(r.b)|
            && (!r.ok ==> r.used == used && LastCallFailed(mem, heap.calls, r.heap.calls))
            && heap.calls <= r.heap.calls
            && r.heap.free + Overflow(r.b) - r.heap.grown == heap.free + Overflow(b) - heap.grown
  {
    hide Transfer, Undo, Inv, Nodes, Enough, Overflow, All, UsedSet, HashSet, Placed;
    if n != |b| && mem(heap.calls) {
      var all, called := All(b), heap.(calls := heap.calls + 1);
      FromNewArray(h, mem, b, used, called, n);
      var s := Transfer(h, mem, State(NewArray(n), 0, b, used, called, true), 0, false);
      TransferFails(h, mem, State(NewArray(n), 0, b, used, called, true), 0, false);
      if !s.ok {
        BackToOldArray(h, mem, s, all);
        PlacedUsed(h, b);
      }
    }
  }

  lemma NeverAborts(h: Hasher, mem: Outcomes, b: Buckets, used: int, heap: Heap, n: nat)
    requires 0 < n && 0 < |b| && Placed(h, b) && used == |UsedSet(b)|
    ensures Rehash(h, mem, b, used, heap, n).Rehashed?
  {
    RehashKeeps(h, mem, b, used, heap, n);
  }

  /** What a finished transfer leaves in its destination. */
  ghost predicate Moved(h: Hasher, t: State, all: multiset<Ptr>, nodes: int) {
    && All(t.dst) == all && Placed(h, t.dst) && t.dstUsed == |UsedSet(t.dst)|
    && t.heap.free + Overflow(t.dst) - t.heap.grown == nodes
  }

  lemma {:induction false} FromNewArray(h: Hasher, mem: Outcomes, b: Buckets, used: int, heap: Heap, n: nat)
    requires 0 < n && 0 < |b| && Placed(h, b) && used == |UsedSet(b)|
    ensures var s := Transfer(h, mem, State(NewArray(n), 0, b, used, heap, true), 0, false);
            var nodes := heap.free + Overflow(b) - heap.grown;
            && |s.dst| == n && |s.src| == |b|
            && Inv(h, s, All(b)) && Nodes(s) == nodes && Enough(h, s, |b|, All(b))
            && (s.ok ==> Moved(h, s, All(b), nodes))
  {
    hide Transfer;
    var all := All(b);
    var start := State(NewArray(n), 0, b, used, heap, true);
    AllOfEmpty(start.dst);
    PlacedUsed(h, b);
    assert All(start.dst) + All(b) == all;
    TransferKeeps(h, mem, start, 0, false, all);
    TransferEmpties(h, mem, start, 0);
    var s := Transfer(h, mem, start, 0, false);
    if s.ok { EmptySource(s, all); }
  }

  lemma BackToOldArray(h: Hasher, mem: Outcomes, s: State, all: multiset<Ptr>)
    requires Inv(h, s, all) && 0 < |s.src| && 0 < |s.dst| && Enough(h, s, |s.src|, all)
    ensures var r := Undo(h, mem, s);
            && r.ok && |r.dst| == |s.src| && Moved(h, r, all, Nodes(s)) && r.heap.calls == s.heap.calls
            && r.dstUsed == |HashSet(h, |s.src|, all)|
  {
    hide Transfer, Undo;
    UndoSucceeds(h, mem, s, all);
    var r := Undo(h, mem, s);
    EmptySource(r, all);
    PlacedUsed(h, r.dst);
  }

  lemma EmptySource(s: State, all: multiset<Ptr>)
    requires Empty(s.src) && All(s.dst) + All(s.src) == all
    ensures All(s.dst) == all && Overflow(s.src) == 0
  {
    AllOfEmpty(s.src);
  }
}
