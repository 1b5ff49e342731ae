/** The hash table itself: a bucket array of heads, chains of nodes behind them, counters, and
    a list of spare nodes, all updated in place. */
module HashTable {
  import opened HashChains
  import opened HashContents
  import opened HashNodes
  import opened HashOrder
  import opened HashPrimes
  import opened HashTuning
  import T = HashTransfer
  import opened Wrappers

  class Table {
    const hasher: Hasher
    const comparator: Comparator
    const memory: Malloc
    var tuning: Tuning
    var bucket: array<Node>
    var nBucketsUsed: int
    var nEntries: int
    var freeEntryList: Node?

    /** The nodes of each chain from its head on, the spare nodes, the entries the chains hold,
        and how many nodes the allocator has given. */
    ghost var chains: seq<seq<Node>>
    ghost var spares: seq<Node>
    ghost var contents: Buckets
    ghost var grown: nat

    ghost function ChainNodes(): set<Node>
      reads this`chains
    {
      NodesOf(chains)
    }

    ghost function OtherNodes(i: nat): set<Node>
      reads this`chains
    {
      set l, j | 0 <= l < |chains| && l != i && 0 <= j < |chains[l]| :: chains[l][j]
    }

    /** The nodes of the table: those of its chains and the spare ones. */
    ghost function Nodes(): set<Node>
      reads this`chains, this`spares
    {
      ChainNodes() + set s | s in spares
    }

    ghost predicate Chains()
      reads this`bucket, this`chains, this`contents, bucket, ChainNodes()
    {
      && |chains| == |contents| == bucket.Length
      && forall i | 0 <= i < |chains| :: ChainIs(bucket[i], bucket, i, chains[i], contents[i])
    }

    /** The spare nodes are linked from the list's head on. */
    ghost predicate Spares()
      reads this`freeEntryList, this`spares, spares
    {
      && freeEntryList == (if spares == [] then null else spares[0])
      && forall j | 0 <= j < |spares| ::
           && spares[j].place == Spare(|spares| - 1 - j) && spares[j].data == NULL
           && spares[j].next == After(spares, j)
    }

    /** The invariant of every table between calls. The tuning is the caller's to change. */
    ghost predicate Valid()
      reads this`bucket, this`nBucketsUsed, this`nEntries, this`freeEntryList
      reads this`chains, this`spares, this`contents, bucket, Nodes()
    {
      && 10 < bucket.Length && Prime(bucket.Length) && !Oversized(bucket.Length)
      && Chains() && Spares()
      && Agrees(hasher, comparator)
      && Consistent(hasher, comparator, contents, nBucketsUsed, nEntries)
    }

    /** The contents. While the table is valid no entry occurs twice. */
    ghost function Entries(): multiset<Ptr>
      reads this`contents
    {
      All(contents)
    }

    ghost function HeapNow(): T.Heap
      reads this`spares, this`grown, memory
    {
      T.Heap(|spares|, memory.calls, grown)
    }

    /** Nodes the table owns, in overflow chains or spare, against those the allocator gave. */
    ghost function NodeBalance(): int
      reads this`spares, this`contents, this`grown
    {
      |spares| + Overflow(contents) - grown
    }

    lemma Counts()
      requires Chains()
      ensures bucket.Length == |contents| == |chains|
    {
    }

    /** What is known of a bucket's head. */
    lemma HeadIs(k: nat)
      requires Chains() && k < bucket.Length
      ensures bucket.Length == |contents| == |chains|
      ensures bucket[k].data == NULL <==> contents[k] == []
      ensures contents[k] != [] ==> bucket[k].data == contents[k][0]
      ensures bucket[k].place.InBucket? && bucket[k].place.a == bucket && bucket[k].place.i == k
      ensures |chains[k]| == if contents[k] == [] then 1 else |contents[k]|
      ensures bucket[k] == chains[k][0] && bucket[k] in ChainNodes()
    {
      assert ChainIs(bucket[k], bucket, k, chains[k], contents[k]);
    }

    lemma NodeAt(k: nat, j: nat)
      requires Chains() && k < bucket.Length && j < |contents[k]|
      ensures j < |chains[k]| == |contents[k]|
      ensures chains[k][j].data == contents[k][j] != NULL && chains[k][j].next == After(chains[k], j)
    {
      assert ChainIs(bucket[k], bucket, k, chains[k], contents[k]);
    }

    lemma OwnNodes(k: nat)
      requires Chains() && k < bucket.Length
      ensures bucket[k] in Nodes()
      ensures forall n | n in spares || n in chains[k] || n in OtherNodes(k) :: n in Nodes()
    {
      HeadIs(k);
    }

    lemma Others(i: nat)
      requires Chains()
      ensures OtherChains(this, i)
    {
    }

    /** Only chain k can have a node placed there. */
    lemma Apart(k: nat, n: Node)
      requires Chains() && k < |chains|
      requires n.place.InBucket? ==> n.place.a != bucket || n.place.i == k
      ensures forall i | 0 <= i < |chains| && i != k :: n !in chains[i]
      ensures n !in OtherNodes(k)
    {
      forall i | 0 <= i < |chains| && i != k ensures n !in chains[i] {
        NotInChain(n, bucket[i], bucket, i, chains[i], contents[i]);
      }
    }

    /** A node of chain k is in no other chain and not spare. */
    lemma ChainApart(k: nat)
      requires Chains() && Spares() && k < |chains|
      ensures OtherChains(this, k) && ChainIs(bucket[k], bucket, k, chains[k], contents[k])
      ensures forall l | 0 <= l < |chains[k]| :: chains[k][l] !in spares && chains[k][l] !in OtherNodes(k)
    {
      assert ChainIs(bucket[k], bucket, k, chains[k], contents[k]);
      forall l | 0 <= l < |chains[k]| ensures chains[k][l] !in spares && chains[k][l] !in OtherNodes(k) {
        Apart(k, chains[k][l]);
      }
    }

    /** A node placed elsewhere is in no chain. */
    lemma Outside(n: Node)
      requires Chains() && (n.place.InBucket? ==> n.place.a != bucket)
      ensures n !in ChainNodes()
    {
      forall i | 0 <= i < |chains| ensures n !in chains[i] {
        NotInChain(n, bucket[i], bucket, i, chains[i], contents[i]);
      }
    }

    lemma NotSpare(n: Node)
      requires Spares() && n.place.InBucket?
      ensures n !in spares
    {
    }

    lemma SparesOutside(other: Table)
      requires Spares() && other.Chains()
      ensures forall s | s in spares :: s !in other.ChainNodes()
    {
      forall s | s in spares ensures s !in other.ChainNodes() { other.Outside(s); }
    }

    /** An array of empty bucket heads, and no spare nodes. */
    constructor Raw(hasher: Hasher, comparator: Comparator, memory: Malloc, tuning: Tuning, n: nat)
      ensures this.hasher == hasher && this.comparator == comparator && this.memory == memory
      ensures this.tuning == tuning && nBucketsUsed == 0 && nEntries == 0 && grown == 0
      ensures Chains() && contents == T.NewArray(n) && spares == [] && freeEntryList == null
      ensures fresh(bucket) && fresh(ChainNodes())
    {
      this.hasher := hasher;
      this.comparator := comparator;
      this.memory := memory;
      this.tuning := tuning;
      nBucketsUsed, nEntries, grown := 0, 0, 0;
      freeEntryList := null;
      spares := [];
      contents := T.NewArray(n);
      chains := [];
      var filler := new Node(Spare(0));
      bucket := new Node[n](_ => filler);
      new;
      var i := 0;
      while i < n
        invariant i <= n == bucket.Length == |contents| && |chains| == i && fresh(bucket)
        invariant forall k | 0 <= k < i :: chains[k] == [bucket[k]] && fresh(bucket[k])
        invariant forall k | 0 <= k < i :: bucket[k].place == InBucket(bucket, k, 0)
        invariant forall k | 0 <= k < i :: bucket[k].next == null && bucket[k].data == NULL
        invariant contents == T.NewArray(n) && spares == [] && freeEntryList == null
        invariant nBucketsUsed == 0 && nEntries == 0 && grown == 0 && this.tuning == tuning
        modifies bucket, this`chains
      {
        bucket[i] := new Node(InBucket(bucket, i, 0));
        chains := chains + [[bucket[i]]];
        i := i + 1;
      }
    }

    /** An empty table for at least `candidate` entries, or null when the tuning is out of
        bounds, no array of the size can exist, or memory runs out. */
    static method Initialize(candidate: nat, tuning: Tuning, hasher: Hasher, comparator: Comparator,
                             memory: Malloc) returns (table: Table?)
      requires candidate <= UINT64_MAX && Agrees(hasher, comparator)
      modifies memory
      ensures table != null ==>
                && fresh(table) && fresh(table.bucket) && fresh(table.Nodes()) && table.memory == memory
                && table.hasher == hasher && table.comparator == comparator && table.tuning == tuning
                && Sensible(tuning) && BucketSizeIs(candidate, tuning, table.bucket.Length)
                && table.Valid() && table.Entries() == multiset{} && table.NodeBalance() == 0
      ensures table != null ==>
                && memory.calls == old(memory.calls) + 2
                && memory.outcomes(old(memory.calls)) && memory.outcomes(old(memory.calls) + 1)
      ensures !Sensible(tuning) ==> table == null
      ensures table == null ==>
                !Sensible(tuning) || BucketSizeIs(candidate, tuning, 0)
                || T.LastCallFailed(memory.outcomes, old(memory.calls), memory.calls)
    {
      hide Prime;
      var ok := memory.Call();
      if !ok || !Sensible(tuning) { return null; }
      var n := ComputeBucketSize(candidate, tuning);
      if n == 0 { return null; }
      ok := memory.Call();
      if !ok { return null; }
      table := new Table.Raw(hasher, comparator, memory, tuning, n);
      AllOfEmpty(table.contents);
    }

    /** A node from the list of spare nodes, or a new one from the allocator. */
    method AllocateEntry() returns (node: Node?)
      requires Spares()
      modifies this`freeEntryList, this`spares, this`grown, memory
      ensures Spares()
      ensures (HeapNow(), node != null) == T.AllocateEntry(memory.outcomes, old(HeapNow()))
      ensures node != null ==> node.place == Spare(|spares|)
      ensures node != null ==> fresh(node) || node in old(spares)
      ensures forall s | s in spares :: s in old(spares)
    {
      if freeEntryList != null {
        node := freeEntryList;
        assert spares != [];
        assert node == spares[0];
        assert node.place == Spare(|spares| - 1);
        assert node.next == After(spares, 0);
        freeEntryList := node.next;
        spares := spares[1..];
      } else {
        var ok := memory.Call();
        if !ok { return null; }
        node := new Node(Spare(0));
        grown := grown + 1;
      }
    }

    /** Puts a node that is in no chain any more on the list of spare nodes. */
    method FreeEntry(entry: Node)
      requires Spares() && entry.place.InBucket?
      modifies this`freeEntryList, this`spares, entry
      ensures Spares() && spares == [entry] + old(spares)
    {
      entry.data := NULL;
      entry.next := freeEntryList;
      freeEntryList := entry;
      entry.place := Spare(|spares|);
      spares := [entry] + spares;
    }

    /** Records what has become of chain k. */
    ghost method SetChain(k: nat, c: seq<Node>, d: Chain)
      requires OtherChains(this, k) && k < |chains| && ChainIs(bucket[k], bucket, k, c, d)
      modifies this`chains, this`contents
      ensures Chains() && chains == old(chains)[k := c] && contents == old(contents)[k := d]
      ensures forall n | n in ChainNodes() :: (n in old(OtherNodes(k)) && n in old(ChainNodes())) || n in c
    {
      chains := chains[k := c];
      contents := contents[k := d];
    }

    /** Puts a node that is in no chain of this table right behind an occupied head. */
    method LinkBehind(k: nat, node: Node, data: Ptr)
      requires Chains() && k < bucket.Length && contents[k] != [] && data != NULL
      requires node.place.InBucket? ==> node.place.a != bucket
      modifies this`chains, this`contents, node, bucket[k]
      ensures Chains() && contents == T.Put(old(contents), k, data)
      ensures node.place.InBucket? && bucket[k].place.InBucket?
      ensures ChainNodes() <= old(ChainNodes()) + {node}
    {
      ghost var c, d := chains[k], contents[k];
      var head := bucket[k];
      HeadIs(k);
      Others(k);
      Apart(k, head);
      Apart(k, node);
      NotInChain(node, head, bucket, k, c, d);
      hide ChainIs, After, OtherChains, Chains, NodesOf;
      Link(head, node, data, bucket, k, c, d);
      SetChain(k, [head, node] + c[1..], [d[0], data] + d[1..]);
    }

    /** Puts an entry into an empty head. */
    method FillHead(k: nat, data: Ptr)
      requires Chains() && k < bucket.Length && contents[k] == [] && data != NULL
      modifies this`contents, this`nBucketsUsed, bucket[k]
      ensures Chains() && contents == T.Put(old(contents), k, data)
      ensures nBucketsUsed == old(nBucketsUsed) + 1 && bucket[k].place == old(bucket[k].place)
    {
      var head := bucket[k];
      assert ChainIs(head, bucket, k, chains[k], contents[k]);
      Apart(k, head);
      head.data := data;
      nBucketsUsed := nBucketsUsed + 1;
      assert ChainIs(head, bucket, k, chains[k], [data]);
      contents := contents[k := [data]];
    }

    /** Takes the data out of the head of a bucket without overflow. */
    method EmptyHead(i: nat)
      requires Chains() && i < bucket.Length == |contents| && |contents[i]| == 1
      modifies this`contents, bucket[i]
      ensures Chains() && contents == old(contents)[i := []]
    {
      HeadIs(i);
      Apart(i, bucket[i]);
      bucket[i].data := NULL;
      assert ChainIs(bucket[i], bucket, i, chains[i], []);
      contents := contents[i := []];
    }

    /** Looks for a match in the entry's bucket: the head, then the overflow, where `before` is
        the node in front of the one that matches. */
    method FindEntry(entry: Ptr) returns (k: nat, data: Ptr, before: Node?, ghost j: nat)
      requires Valid()
      ensures Valid() && k == hasher(entry, bucket.Length) < bucket.Length == |contents| == |chains|
      ensures data == NULL <==> !HasMatch(comparator, Entries(), entry)
      ensures data != NULL ==>
                && j < |contents[k]| && data == contents[k][j]
                && Same(comparator, entry, data) && data in Entries()
                && j < |chains[k]| && before == (if j == 0 then null else chains[k][j - 1])
    {
      hide All, Placed, UsedSet, Distinct, HasMatch, Chains, Spares;
      k := hasher(entry, bucket.Length);
      before, j, data := null, 0, NULL;
      HeadIs(k);
      MatchInBucket(hasher, comparator, contents, entry);
      var head := bucket[k];
      if head.data == NULL { return; }
      if entry == head.data || comparator(entry, head.data) {
        AllMember(contents, head.data);
        return k, head.data, null, 0;
      }
      var cursor: Node := head;
      NodeAt(k, 0);
      while cursor.next != null
        invariant j < |chains[k]| == |contents[k]| && cursor == chains[k][j] && cursor.next == After(chains[k], j)
        invariant forall l | 0 <= l <= j :: !Same(comparator, entry, contents[k][l])
        decreases |chains[k]| - j
      {
        NodeAt(k, j + 1);
        if entry == cursor.next.data || comparator(entry, cursor.next.data) {
          AllMember(contents, cursor.next.data);
          return k, cursor.next.data, cursor, j + 1;
        }
        cursor := cursor.next;
        j := j + 1;
      }
    }

    /** The entry of the table that matches, or NULL when there is none. */
    method Lookup(entry: Ptr) returns (data: Ptr)
      requires Valid()
      ensures data == NULL <==> !HasMatch(comparator, Entries(), entry)
      ensures data != NULL ==> data in Entries() && Same(comparator, entry, data)
    {
      hide All, Placed, UsedSet;
      var k, found, at, j := FindEntry(entry);
      data := found;
    }

    /** The table has been sized for c entries, counted by entries, and holds fewer. */
    ghost predicate RoomFor(c: nat)
      reads this`tuning, this`bucket, this`nEntries
    {
      && Sensible(tuning) && !tuning.isNBuckets && 0 < bucket.Length
      && BucketSizeIs(c, tuning, bucket.Length) && nEntries < c
    }

    /** Then the threshold is not reached, however the entries spread over the buckets. */
    lemma RoomNoGrowth()
      requires Valid()
      ensures forall c: nat | RoomFor(c) :: !GrowthReached(tuning, nBucketsUsed, bucket.Length)
    {
      hide Prime, Chains, Spares, BucketSizeIs, GrowthReached;
      UsedBound(hasher, contents);
      forall c: nat | RoomFor(c) ensures !GrowthReached(tuning, nBucketsUsed, bucket.Length) {
        if GrowthReached(tuning, nBucketsUsed, bucket.Length) {
          NoGrowthBefore(c, tuning, bucket.Length, nBucketsUsed, nEntries);
        }
      }
    }

    /** Why an insertion may fail: a call to the allocator has failed since the given one, or the
        table must grow to a size that no array can have. */
    ghost predicate NoRoom(before: nat)
      reads this`tuning, this`bucket, this`nBucketsUsed, memory
    {
      || T.LastCallFailed(memory.outcomes, before, memory.calls)
      || (&& GrowthReached(tuning, nBucketsUsed, bucket.Length)
          && (|| UINT64_MAX as real <= GrowthCandidate(tuning, bucket.Length)
              || (0.0 < tuning.growthThreshold && 0.0 <= GrowthCandidate(tuning, bucket.Length)
                  && BucketSizeIs(GrowthCandidate(tuning, bucket.Length).Floor, tuning, 0))))
    }

    /** The growth threshold is reached, and still is once the tuning has been checked. */
    ghost predicate MustGrow()
      reads this`tuning, this`bucket, this`nBucketsUsed
    {
      && GrowthReached(tuning, nBucketsUsed, bucket.Length)
      && GrowthReached(CheckTuning(tuning), nBucketsUsed, bucket.Length)
    }

    lemma NotReached()
      ensures !GrowthReached(tuning, nBucketsUsed, bucket.Length) ==> !MustGrow()
    {
    }

    /** With the default tuning, more than four fifths of the buckets are in use. */
    ghost predicate CrowdedByDefault()
      reads this`tuning, this`bucket, this`nBucketsUsed
    {
      tuning == DEFAULT_TUNING && 5 * nBucketsUsed > 4 * bucket.Length
    }

    /** The table has the size that a growth from n buckets asks for. */
    ghost predicate GrownFrom(n: nat)
      reads this`tuning, this`bucket
    {
      && Sensible(tuning) && GrewAsAsked(tuning, n, bucket.Length)
      && BucketSizeIs(GrowthCandidate(tuning, n).Floor, tuning, bucket.Length)
    }

    /** Grows the table first when its threshold is reached; -1 is an allocation failure, 0 a
        match already present, 1 an insertion. Only an insertion changes the contents. */
    method InsertIfAbsent(entry: Ptr) returns (r: int, matched: Ptr)
      requires Valid() && entry != NULL
      modifies this, Nodes(), memory
      ensures Valid() && (bucket == old(bucket) || fresh(bucket))
      ensures forall m | m in Nodes() :: fresh(m) || m in old(Nodes())
      ensures r == -1 || r == 0 || r == 1
      ensures r == 0 <==> HasMatch(comparator, old(Entries()), entry)
      ensures r == 0 ==> matched in old(Entries()) && Same(comparator, entry, matched)
      ensures Entries() == old(Entries()) + (if r == 1 then multiset{entry} else multiset{})
      ensures NodeBalance() == old(NodeBalance())
      ensures r == 0 ==> bucket == old(bucket) && contents == old(contents) && tuning == old(tuning)
      ensures r == -1 ==> NoRoom(old(memory.calls))
      ensures old(MustGrow()) && r == 1 ==> GrownFrom(old(bucket.Length))
      ensures old(CrowdedByDefault()) && r == 1 ==> old(bucket.Length) < bucket.Length
      ensures !old(MustGrow()) ==> bucket == old(bucket)
      ensures !GrowthReached(old(tuning), old(nBucketsUsed), old(bucket.Length)) ==> tuning == old(tuning)
      ensures forall c: nat | old(RoomFor(c)) :: bucket == old(bucket) && tuning == old(tuning)
    {
      hide All, Placed, UsedSet, Distinct, Prime, Chains, Spares, Overflow, RoomFor, GrowthReached;
      hide MustGrow, GrownFrom, CrowdedByDefault, NoRoom;
      RoomNoGrowth();
      matched := NULL;
      var k, found, at, j := FindEntry(entry);
      if found != NULL {
        return 0, found;
      }
      var done := GrowAndAdd(entry, k);
      r := if done then 1 else -1;
    }

    /** Puts an absent entry into its bucket k, or into the one it has after growth. */
    method GrowAndAdd(entry: Ptr, k: nat) returns (ok: bool)
      requires Valid() && entry != NULL && k == hasher(entry, bucket.Length) < bucket.Length
      requires !HasMatch(comparator, Entries(), entry)
      modifies this, Nodes(), memory
      ensures Valid() && (bucket == old(bucket) || fresh(bucket))
      ensures forall m | m in Nodes() :: fresh(m) || m in old(Nodes())
      ensures Entries() == old(Entries()) + (if ok then multiset{entry} else multiset{})
      ensures NodeBalance() == old(NodeBalance())
      ensures !ok ==> NoRoom(old(memory.calls))
      ensures old(MustGrow()) && ok ==> GrownFrom(old(bucket.Length))
      ensures old(CrowdedByDefault()) && ok ==> old(bucket.Length) < bucket.Length
      ensures !old(MustGrow()) ==> bucket == old(bucket)
      ensures !GrowthReached(old(tuning), old(nBucketsUsed), old(bucket.Length)) ==>
                bucket == old(bucket) && tuning == old(tuning)
    {
      hide All, Placed, UsedSet, Distinct, Prime, Chains, Spares, Overflow, GrowthReached;
      hide MustGrow, GrownFrom, CrowdedByDefault, NoRoom, T.LastCallFailed;
      NotReached();
      var grew, rehashed := Grow();
      if !grew { return false; }
      var home := k;
      if rehashed {
        var now, found, at, j := FindEntry(entry);
        home := now;
        if found != NULL {
          // abort ()
          assert false;
        }
      }
      ghost var before := memory.calls;
      ok := Add(entry, home);
      if !ok { OutOfMemory(old(memory.calls), before); }
    }

    lemma OutOfMemory(before: nat, since: nat)
      requires before <= since && T.LastCallFailed(memory.outcomes, since, memory.calls)
      ensures NoRoom(before)
    {
    }

    /** The entry now in the table that matches, NULL when memory ran out. */
    method Insert(entry: Ptr) returns (data: Ptr)
      requires Valid() && entry != NULL
      modifies this, Nodes(), memory
      ensures Valid() && (bucket == old(bucket) || fresh(bucket))
      ensures forall m | m in Nodes() :: fresh(m) || m in old(Nodes())
      ensures data == NULL ==> Entries() == old(Entries()) && NoRoom(old(memory.calls))
      ensures data != NULL ==> data in Entries() && Same(comparator, entry, data)
      ensures HasMatch(comparator, old(Entries()), entry) ==>
                data != NULL && Entries() == old(Entries()) && bucket == old(bucket)
      ensures !HasMatch(comparator, old(Entries()), entry) && data != NULL ==>
                data == entry && Entries() == old(Entries()) + multiset{entry}
      ensures !HasMatch(comparator, old(Entries()), entry) && data != NULL && old(MustGrow()) ==>
                GrownFrom(old(bucket.Length))
      ensures !old(MustGrow()) ==> bucket == old(bucket)
      ensures forall c: nat | old(RoomFor(c)) :: bucket == old(bucket) && tuning == old(tuning)
    {
      hide All, Placed, UsedSet, Chains, Spares, NodesOf, RoomFor, GrownFrom, MustGrow, NoRoom;
      var r, matched := InsertIfAbsent(entry);
      data := if r == -1 then NULL else if r == 0 then matched else entry;
    }

    /** Rehashes into more buckets when the growth threshold is reached. */
    method Grow() returns (ok: bool, rehashed: bool)
      requires Valid()
      modifies this, Nodes(), memory
      ensures Valid() && Entries() == old(Entries()) && NodeBalance() == old(NodeBalance())
      ensures forall m | m in Nodes() :: fresh(m) || m in old(Nodes())
      ensures bucket == old(bucket) || (rehashed && fresh(bucket))
      ensures old(memory.calls) <= memory.calls
      ensures !ok ==> bucket == old(bucket) && NoRoom(old(memory.calls))
      ensures ok ==> (rehashed <==> old(MustGrow()))
      ensures !old(MustGrow()) ==> ok && bucket == old(bucket)
      ensures tuning == if GrowthReached(old(tuning), old(nBucketsUsed), old(bucket.Length))
                        then CheckTuning(old(tuning)) else old(tuning)
      ensures ok && rehashed ==> GrownFrom(old(bucket.Length))
      ensures old(CrowdedByDefault()) && ok ==> old(bucket.Length) < bucket.Length
    {
      DefaultReached(nBucketsUsed, bucket.Length);
      hide All, Placed, UsedSet, Distinct, BucketSizeIs, Prime, Chains, Spares, Overflow, GrowthCandidate,
           GrowthReached, GrewAsAsked, T.LastCallFailed;
      if GrowthReached(tuning, nBucketsUsed, bucket.Length) {
        tuning := CheckTuning(tuning);
        if GrowthReached(tuning, nBucketsUsed, bucket.Length) {
          var candidate := GrowthCandidate(tuning, bucket.Length);
          if UINT64_MAX as real <= candidate { return false, false; }
          GrowthCandidateBound(tuning, bucket.Length);
          ghost var n := bucket.Length;
          ok := Rehash(candidate.Floor);
          if ok { GrewIs(tuning, n, bucket.Length); }
          return ok, true;
        }
      }
      return true, false;
    }

    /** Puts an absent entry into its bucket k, behind the head if there is one. */
    method Add(entry: Ptr, k: nat) returns (ok: bool)
      requires Valid() && entry != NULL && k == hasher(entry, bucket.Length) < bucket.Length
      requires !HasMatch(comparator, Entries(), entry)
      modifies this`nBucketsUsed, this`nEntries, this`freeEntryList, this`grown
      modifies this`chains, this`spares, this`contents, Nodes(), memory
      ensures Valid() && NodeBalance() == old(NodeBalance())
      ensures forall m | m in Nodes() :: fresh(m) || m in old(Nodes())
      ensures Entries() == old(Entries()) + (if ok then multiset{entry} else multiset{})
      ensures !ok ==> T.LastCallFailed(memory.outcomes, old(memory.calls), memory.calls)
    {
      hide All, Placed, Distinct, HasMatch, UsedSet, ChainIs, After, Spares, T.Put, NodesOf;
      InsertKeeps(hasher, comparator, contents, nBucketsUsed, nEntries, entry);
      T.PutKeeps(contents, k, entry);
      OwnNodes(k);
      ok := ReceiveHead(k, entry);
      if ok {
        nEntries := nEntries + 1;
      }
    }

    /** Takes in an entry that had no node of its own: into an empty head, or behind an occupied
        one in a node that is spare or new. */
    method ReceiveHead(k: nat, data: Ptr) returns (ok: bool)
      requires Chains() && Spares() && k < bucket.Length && data != NULL
      modifies this`nBucketsUsed, this`freeEntryList, this`chains, this`spares, this`contents, this`grown
      modifies bucket[k], spares, memory
      ensures Chains() && Spares() && fresh(Nodes() - old(Nodes()))
      ensures var (heap, got) := T.AllocateEntry(memory.outcomes, old(HeapNow()));
              if old(contents)[k] == [] then
                && ok && HeapNow() == old(HeapNow()) && contents == T.Put(old(contents), k, data)
                && nBucketsUsed == old(nBucketsUsed) + 1
              else
                && ok == got && HeapNow() == heap && nBucketsUsed == old(nBucketsUsed)
                && contents == if ok then T.Put(old(contents), k, data) else old(contents)
    {
      HeadIs(k);
      if bucket[k].data != NULL {
        ok := ReceiveInNode(k, data);
      } else {
        FillHead(k, data);
        ok := true;
      }
    }

    method ReceiveInNode(k: nat, data: Ptr) returns (ok: bool)
      requires Chains() && Spares() && k < bucket.Length && data != NULL && contents[k] != []
      modifies this`freeEntryList, this`chains, this`spares, this`contents, this`grown
      modifies bucket[k], spares, memory
      ensures Chains() && Spares() && fresh(Nodes() - old(Nodes()))
      ensures (HeapNow(), ok) == T.AllocateEntry(memory.outcomes, old(HeapNow()))
      ensures contents == if ok then T.Put(old(contents), k, data) else old(contents)
    {
      hide ChainIs, After, T.Put;
      HeadIs(k);
      var node := AllocateEntry();
      if node == null { return false; }
      Outside(node);
      LinkBehind(k, node, data);
      ok := true;
    }

    /** The entry's bucket holds a single entry. */
    ghost predicate Alone(entry: Ptr)
      reads this`bucket, this`contents
    {
      |contents| == bucket.Length && 0 < bucket.Length && |contents[hasher(entry, bucket.Length)]| == 1
    }

    /** With that many buckets in use the shrink threshold is reached, and still is once the
        tuning has been checked. */
    ghost predicate MustShrink(used: int)
      reads this`tuning, this`bucket
    {
      && ShrinkReached(tuning, used, bucket.Length)
      && ShrinkReached(CheckTuning(tuning), used, bucket.Length)
    }

    /** The table has the size that shrinking from n buckets asks for. */
    ghost predicate ShrunkFrom(n: nat)
      reads this`tuning, this`bucket
    {
      && Sensible(tuning) && 0.0 <= ShrinkCandidate(tuning, n)
      && BucketSizeIs(ShrinkCandidate(tuning, n).Floor, tuning, bucket.Length)
    }

    /** Shrinking was not possible, and the spare nodes have been given back. */
    ghost predicate KeptSize(before: nat)
      reads this`tuning, this`bucket, this`spares, memory
    {
      && spares == []
      && (|| T.LastCallFailed(memory.outcomes, before, memory.calls)
          || (&& Sensible(tuning) && 0.0 <= ShrinkCandidate(tuning, bucket.Length)
              && BucketSizeIs(ShrinkCandidate(tuning, bucket.Length).Floor, tuning, 0)))
    }

    /** Removes the matching entry and returns it, or returns NULL and leaves the contents
        alone. An emptied bucket may make the table shrink; when memory is short for that, the
        spare nodes are given back instead. */
    method Remove(entry: Ptr) returns (data: Ptr)
      requires Valid()
      modifies this, Nodes(), memory
      ensures Valid() && (bucket == old(bucket) || fresh(bucket))
      ensures forall m | m in Nodes() :: fresh(m) || m in old(Nodes())
      ensures data == NULL <==> !HasMatch(comparator, old(Entries()), entry)
      ensures data == NULL ==> contents == old(contents)
      ensures data != NULL ==> Same(comparator, entry, data) && data in old(Entries())
                               && Entries() + multiset{data} == old(Entries())
      ensures data == NULL ==> bucket == old(bucket) && tuning == old(tuning) && spares == old(spares)
      ensures data != NULL && old(Alone(entry)) && old(MustShrink(nBucketsUsed - 1)) ==>
                || (ShrunkFrom(old(bucket.Length)) && NodeBalance() == old(NodeBalance()))
                || (bucket == old(bucket) && KeptSize(old(memory.calls)))
      ensures !(old(Alone(entry)) && old(MustShrink(nBucketsUsed - 1))) ==>
                bucket == old(bucket) && NodeBalance() == old(NodeBalance())
    {
      hide All, Placed, UsedSet, Distinct, BucketSizeIs, Prime, Chains, Spares, HasMatch, ShrunkFrom, KeptSize;
      hide Overflow;
      var k, found, before, j := FindEntry(entry);
      data := found;
      if data == NULL { return; }
      var emptied := TakeOut(k, before, j);
      if emptied {
        Shrink();
      }
    }

    /** Takes the j-th entry out of bucket k and adjusts the counters. */
    method TakeOut(k: nat, before: Node?, ghost j: nat) returns (emptied: bool)
      requires Valid() && k < bucket.Length == |contents| == |chains|
      requires j < |contents[k]| && j < |chains[k]|
      requires before == if j == 0 then null else chains[k][j - 1]
      modifies this`nBucketsUsed, this`nEntries
      modifies this`freeEntryList, this`chains, this`spares, this`contents, chains[k]
      ensures Valid() && Entries() + multiset{old(contents)[k][j]} == old(Entries())
      ensures nBucketsUsed == old(nBucketsUsed) - (if emptied then 1 else 0)
      ensures emptied <==> |old(contents)[k]| == 1
      ensures NodeBalance() == old(NodeBalance())
      ensures forall m | m in Nodes() :: m in old(Nodes())
    {
      hide All, Placed, UsedSet, Distinct, Spares, ChainIs, NodesOf;
      DropKeeps(hasher, comparator, contents, nBucketsUsed, nEntries, k, j);
      Unlink(k, before, j);
      HeadIs(k);
      emptied := bucket[k].data == NULL;
      nEntries := nEntries - 1;
      if emptied {
        nBucketsUsed := nBucketsUsed - 1;
      }
    }

    /** Takes the j-th entry out of bucket k. Its node, or that of the first overflow entry when
        that one moves up into the head, joins the spare nodes. */
    method Unlink(k: nat, before: Node?, ghost j: nat)
      requires Chains() && Spares() && k < bucket.Length == |contents| == |chains|
      requires j < |contents[k]| && j < |chains[k]|
      requires before == if j == 0 then null else chains[k][j - 1]
      modifies this`freeEntryList, this`chains, this`spares, this`contents, chains[k]
      ensures Chains() && Spares() && contents == Drop(old(contents), k, j)
      ensures |spares| == |old(spares)| + if |old(contents)[k]| == 1 then 0 else 1
      ensures forall n | n in Nodes() :: n in old(Nodes())
    {
      HeadIs(k);
      NodeAt(k, 0);
      OwnNodes(k);
      hide ChainIs, Chains, Spares, OtherNodes, NodesOf;
      var head := bucket[k];
      ghost var d := contents[k];
      var next: Node;
      ghost var c: seq<Node>;
      if before != null {
        next, c := DetachBehind(k, before, j);
      } else if head.next != null {
        next, c := DetachHead(k);
        assert d[..j] + d[j + 1..] == d[1..];
      } else {
        EmptyHead(k);
        assert d[..j] + d[j + 1..] == [];
        return;
      }
      Recycle(k, next, c, d[..j] + d[j + 1..]);
    }

    /** What taking a node out of chain k leaves, before it is recorded. */
    ghost predicate Freed(k: nat, next: Node, c: seq<Node>, d: Chain)
      reads this, bucket, Nodes(), next, c
    {
      && k < bucket.Length && k < |chains|
      && OtherChains(this, k) && Spares() && ChainIs(bucket[k], bucket, k, c, d)
      && next in chains[k] && next !in c && next !in OtherNodes(k) && next.place.InBucket?
      && forall n | n in c :: n in chains[k]
    }

    /** The first overflow entry of bucket k moves up into the head; its node falls free. */
    method DetachHead(k: nat) returns (next: Node, ghost c: seq<Node>)
      requires Chains() && Spares() && k < bucket.Length == |contents| == |chains|
      requires 2 <= |chains[k]| == |contents[k]|
      modifies bucket[k]
      ensures Freed(k, next, c, contents[k][1..])
    {
      ChainApart(k);
      HeadIs(k);
      c := [bucket[k]] + chains[k][2..];
      hide ChainIs, After, NodesOf, OtherChains, Chains, Spares;
      next := BumpHead(bucket[k], bucket, k, chains[k], contents[k]);
    }

    /** The node behind `before` is taken out of bucket k, with the j-th entry. */
    method DetachBehind(k: nat, before: Node, ghost j: nat) returns (next: Node, ghost c: seq<Node>)
      requires Chains() && Spares() && k < bucket.Length == |contents| == |chains|
      requires 1 <= j < |chains[k]| == |contents[k]| && before == chains[k][j - 1]
      modifies chains[k]
      ensures Freed(k, next, c, contents[k][..j] + contents[k][j + 1..])
    {
      hide ChainIs, After, NodesOf, OtherChains, Chains, Spares;
      ChainApart(k);
      HeadIs(k);
      next, c := Unchain(before, bucket, k, chains[k], contents[k], j);
      assert OtherChains(this, k) && Spares();
    }

    /** Records the chain without the freed node and puts the node on the list of spare ones. */
    method Recycle(k: nat, next: Node, ghost c: seq<Node>, ghost d: Chain)
      requires Freed(k, next, c, d)
      modifies this`freeEntryList, this`chains, this`spares, this`contents, next
      ensures Chains() && Spares() && k < |old(contents)| && contents == old(contents)[k := d]
      ensures |spares| == |old(spares)| + 1
      ensures forall n | n in Nodes() :: n in old(Nodes())
    {
      SetChain(k, c, d);
      FreeEntry(next);
    }

    /** Rehashes into fewer buckets when the shrink threshold is reached. */
    method Shrink()
      requires Valid()
      modifies this, Nodes(), memory
      ensures Valid() && Entries() == old(Entries()) && (bucket == old(bucket) || fresh(bucket))
      ensures forall m | m in Nodes() :: fresh(m) || m in old(Nodes())
      ensures old(MustShrink(nBucketsUsed)) ==>
                || (ShrunkFrom(old(bucket.Length)) && NodeBalance() == old(NodeBalance()))
                || (bucket == old(bucket) && KeptSize(old(memory.calls)))
      ensures !old(MustShrink(nBucketsUsed)) ==> bucket == old(bucket) && NodeBalance() == old(NodeBalance())
    {
      hide All, Placed, UsedSet, Distinct, BucketSizeIs, Prime, Chains, Spares, ShrinkReached, ShrinkCandidate,
           T.LastCallFailed;
      if ShrinkReached(tuning, nBucketsUsed, bucket.Length) {
        tuning := CheckTuning(tuning);
        if ShrinkReached(tuning, nBucketsUsed, bucket.Length) {
          var candidate := ShrinkCandidate(tuning, bucket.Length);
          ShrinkCandidateBound(tuning, bucket.Length);
          var shrunk := Rehash(candidate.Floor);
          if !shrunk {
            GiveBackSpares();
          }
        }
      }
    }

    /** Walks the list of spare nodes, giving each one back. */
    method GiveBackSpares()
      requires Valid()
      modifies this`freeEntryList, this`spares
      ensures Valid() && spares == []
    {
      hide All, Placed, UsedSet, Distinct, ChainIs, NodesOf;
      var cursor := freeEntryList;
      ghost var given := 0;
      while cursor != null
        invariant given <= |spares| && cursor == (if given < |spares| then spares[given] else null)
        decreases |spares| - given
      {
        assert cursor.next == After(spares, given);
        cursor := cursor.next;
        given := given + 1;
      }
      freeEntryList := null;
      spares := [];
    }

    /** Empties the table in place. The nodes of all overflow entries become spare, and the
        data freer is called exactly once for every entry. */
    method Clear() returns (ghost freed: seq<Ptr>)
      requires Valid()
      modifies this`nBucketsUsed, this`nEntries, this`freeEntryList
      modifies this`chains, this`spares, this`contents, Nodes()
      ensures Valid() && Entries() == multiset{} && nEntries == 0 && nBucketsUsed == 0
      ensures multiset(freed) == old(Entries()) && NodeBalance() == old(NodeBalance())
      ensures forall m | m in Nodes() :: m in old(Nodes())
    {
      hide All, UsedSet, Spares, ChainIs, NodesOf;
      freed := [];
      var i := 0;
      while i < bucket.Length
        invariant i <= bucket.Length == |contents| && Chains() && Spares()
        invariant forall l | 0 <= l < i :: contents[l] == []
        invariant Entries() + multiset(freed) == old(Entries())
        invariant NodeBalance() == old(NodeBalance())
        invariant forall m | m in Nodes() :: m in old(Nodes())
      {
        HeadIs(i);
        OwnNodes(i);
        if bucket[i].data != NULL {
          freed := ClearBucket(i, freed);
        }
        i := i + 1;
      }
      AllOfEmpty(contents);
      nBucketsUsed, nEntries := 0, 0;
    }

    method ClearBucket(i: nat, ghost before: seq<Ptr>) returns (ghost freed: seq<Ptr>)
      requires Chains() && Spares() && i < bucket.Length == |contents| == |chains| && contents[i] != []
      modifies this`freeEntryList, this`chains, this`spares, this`contents, chains[i]
      ensures Chains() && Spares() && contents == old(contents)[i := []]
      ensures NodeBalance() == old(NodeBalance())
      ensures Entries() + multiset(freed) == old(Entries()) + multiset(before)
      ensures forall m | m in Nodes() :: m in old(Nodes())
    {
      hide All, Overflow, Chains, Spares, Freeing, ChainIs, NodesOf, OtherNodes;
      ghost var b := contents;
      ClearedBucket(b, i, before);
      OwnNodes(i);
      HeadIs(i);
      var head := bucket[i];
      freed := FreeOverflow(i, before);
      freed := freed + [head.data];
      assert freed == before + b[i][1..] + [b[i][0]];
      ResetHead(i);
    }

    /** The overflow of bucket i from position j on is still in place, the part before it spare. */
    ghost predicate Freeing(i: nat, j: nat, cursor: Node?)
      reads this`bucket, this`freeEntryList, this`chains, this`spares, this`contents, bucket, Nodes()
    {
      && i < bucket.Length == |contents| == |chains| && OtherChains(this, i) && Spares()
      && 1 <= j <= |chains[i]| == |contents[i]| && RestOf(bucket, i, chains[i], contents[i], j)
      && cursor == After(chains[i], j - 1) && bucket[i] == chains[i][0]
      && forall l | 0 <= l < |chains[i]| :: chains[i][l] !in OtherNodes(i)
    }

    /** Frees the overflow nodes of bucket i one by one. */
    method FreeOverflow(i: nat, ghost before: seq<Ptr>) returns (ghost freed: seq<Ptr>)
      requires Chains() && Spares() && i < bucket.Length == |contents| == |chains| && contents[i] != []
      modifies this`freeEntryList, this`spares, chains[i]
      ensures Freeing(i, |chains[i]|, null) && bucket[i].data == contents[i][0]
      ensures |spares| == |old(spares)| + |contents[i]| - 1
      ensures freed == before + contents[i][1..]
      ensures forall m | m in spares :: m in old(spares) || m in chains[i]
    {
      hide ChainIs, Chains, Spares, Freeing;
      ghost var c, d := chains[i], contents[i];
      var cursor := bucket[i].next;
      freed := before;
      ghost var j := 1;
      FreeingStart(i);
      while cursor != null
        invariant Freeing(i, j, cursor) && 1 <= j <= |c|
        invariant |spares| == |old(spares)| + j - 1 && freed == before + d[1..j]
        invariant forall m | m in spares :: m in old(spares) || m in c
        decreases |c| - j
      {
        FreeingCursor(i, j, cursor);
        freed := freed + [cursor.data];
        cursor := FreeNext(i, j, cursor);
        j := j + 1;
      }
      FreeingEnd(i, j);
    }

    lemma FreeingStart(i: nat)
      requires Chains() && Spares() && i < bucket.Length == |contents| == |chains| && contents[i] != []
      ensures Freeing(i, 1, bucket[i].next) && 1 <= |chains[i]| == |contents[i]|
    {
      ChainApart(i);
      HeadIs(i);
      StartTaking(i);
    }

    lemma FreeingCursor(i: nat, j: nat, cursor: Node)
      requires Freeing(i, j, cursor)
      ensures j < |chains[i]| == |contents[i]| && cursor == chains[i][j] && cursor.data == contents[i][j]
    {
    }

    lemma FreeingEnd(i: nat, j: nat)
      requires Freeing(i, j, null)
      ensures j == |chains[i]| == |contents[i]| && bucket[i].data == contents[i][0]
    {
    }

    method FreeNext(ghost i: nat, ghost j: nat, cursor: Node) returns (next: Node?)
      requires Freeing(i, j, cursor)
      modifies this`freeEntryList, this`spares, cursor
      ensures Freeing(i, j + 1, next) && spares == [cursor] + old(spares)
    {
      hide After;
      FreeingCursor(i, j, cursor);
      next := cursor.next;
      assert next == After(chains[i], j);
      FreeEntry(cursor);
    }

    /** Empties a head whose overflow has gone. */
    method ResetHead(i: nat)
      requires i < |chains| && Freeing(i, |chains[i]|, null)
      modifies this`chains, this`contents, bucket[i]
      ensures Chains() && Spares() && contents == old(contents)[i := []]
      ensures forall m | m in ChainNodes() :: m in old(ChainNodes())
    {
      NotSpare(bucket[i]);
      assert bucket[i] !in OtherNodes(i) && bucket[i] in ChainNodes();
      hide OtherChains, OtherNodes, Chains, Spares, NodesOf;
      var head := bucket[i];
      head.data := NULL;
      head.next := null;
      head.place := InBucket(bucket, i, 0);
      assert ChainIs(head, bucket, i, [head], []);
      hide ChainIs;
      SetChain(i, [head], []);
    }

    /** Changes the number of buckets. Never aborts. A failure leaves the bucket array, the
        counters and the entries as they were; either way no entry and no node is lost. */
    method Rehash(candidate: nat) returns (ok: bool)
      requires Valid() && candidate <= UINT64_MAX && 0.0 < tuning.growthThreshold
      modifies this, Nodes(), memory
      ensures Valid() && Entries() == old(Entries()) && nEntries == old(nEntries)
      ensures tuning == old(tuning) && NodeBalance() == old(NodeBalance())
      ensures forall m | m in Nodes() :: fresh(m) || m in old(Nodes())
      ensures bucket == old(bucket) || (ok && fresh(bucket))
      ensures ok ==> BucketSizeIs(candidate, tuning, bucket.Length)
      ensures !ok ==> nBucketsUsed == old(nBucketsUsed)
      ensures old(memory.calls) <= memory.calls
      ensures !ok ==> BucketSizeIs(candidate, tuning, 0)
                      || T.LastCallFailed(memory.outcomes, old(memory.calls), memory.calls)
    {
      hide T.Rehash, Prime, Distinct, Overflow, All, Placed, UsedSet, Spares, ChainIs, NodesOf;
      var n := ComputeBucketSize(candidate, tuning);
      if n == 0 { return false; }
      if n == bucket.Length { return true; }
      T.RehashKeeps(hasher, memory.outcomes, contents, nBucketsUsed, HeapNow(), n);
      ok := MoveInto(n);
    }

    /** Moves all entries into an array of n buckets, or back again when nodes run out. */
    method MoveInto(n: nat) returns (ok: bool)
      requires 0 < n && n != bucket.Length && 0 < bucket.Length && Chains() && Spares()
      requires |contents| == bucket.Length
      requires Placed(hasher, contents) && nBucketsUsed == |UsedSet(contents)|
      modifies this`bucket, this`nBucketsUsed, this`freeEntryList
      modifies this`chains, this`spares, this`contents, this`grown, Nodes(), memory
      ensures Chains() && Spares() && 0 < |old(contents)|
      ensures forall m | m in Nodes() :: fresh(m) || m in old(Nodes())
      ensures T.Rehashed(contents, nBucketsUsed, HeapNow(), ok)
              == T.Rehash(hasher, memory.outcomes, old(contents), old(nBucketsUsed), old(HeapNow()), n)
      ensures if ok then fresh(bucket) else bucket == old(bucket)
    {
      hide Pair, PairNodes, Chains, Spares, T.Rehash, T.Transfer, All, Overflow, Placed, UsedSet;
      T.NeverAborts(hasher, memory.outcomes, contents, nBucketsUsed, HeapNow(), n);
      T.RehashSteps(hasher, memory.outcomes, contents, nBucketsUsed, HeapNow(), n);
      ok := memory.Call();
      if !ok { return false; }
      var newTable := Sibling(n);
      ok := TransferEntries(newTable, this, false);
      if ok {
        PairApart(newTable, this);
        Adopt(newTable);
        return true;
      }
      AdoptSpares(newTable);
      var back := Undo(newTable);
      if !back {
        // abort ()
        assert false;
      }
      PairApart(this, newTable);
      return false;
    }

    /** An empty table of n buckets that goes on with this table's spare nodes. */
    method Sibling(n: nat) returns (other: Table)
      requires 0 < n && Chains() && Spares()
      ensures fresh(other) && Pair(other, this) && other.memory == memory && other.hasher == hasher
      ensures other.bucket.Length == n && fresh(other.bucket)
      ensures Snapshot(other, this) == T.State(T.NewArray(n), 0, contents, nBucketsUsed, HeapNow(), true)
      ensures forall m | m in PairNodes(other, this) :: fresh(m) || m in old(Nodes())
    {
      other := new Table.Raw(hasher, comparator, memory, tuning, n);
      other.freeEntryList := freeEntryList;
      other.spares := spares;
      other.grown := grown;
    }

    /** Takes over the list of spare nodes that the other table has been working with. */
    method AdoptSpares(other: Table)
      requires Pair(other, this) && 0 < bucket.Length
      modifies this`freeEntryList, this`spares, this`grown
      ensures Pair(this, other) && HeapNow() == old(T.Heap(|other.spares|, memory.calls, other.grown))
      ensures PairNodes(this, other) == old(PairNodes(other, this))
    {
      freeEntryList := other.freeEntryList;
      spares := other.spares;
      grown := other.grown;
    }

    /** Takes over the bucket array, the counter and the spare nodes of another table. */
    method Adopt(other: Table)
      requires other.Chains() && other.Spares()
      modifies this`bucket, this`nBucketsUsed, this`freeEntryList
      modifies this`chains, this`spares, this`contents, this`grown
      ensures bucket == other.bucket && nBucketsUsed == other.nBucketsUsed && contents == other.contents
      ensures HeapNow() == old(T.Heap(|other.spares|, memory.calls, other.grown))
      ensures Chains() && Spares() && Nodes() == old(other.Nodes())
    {
      hide ChainIs, After, NodesOf;
      bucket := other.bucket;
      nBucketsUsed := other.nBucketsUsed;
      chains := other.chains;
      contents := other.contents;
      freeEntryList := other.freeEntryList;
      spares := other.spares;
      grown := other.grown;
    }

    /** The two passes that put everything back from a half-filled new array. */
    method Undo(other: Table) returns (back: bool)
      requires Pair(this, other) && other.memory == memory && other.hasher == hasher
      modifies this`nBucketsUsed, this`freeEntryList, this`chains, this`spares, this`contents, this`grown
      modifies other`nBucketsUsed, other`chains, other`contents, PairNodes(this, other), memory
      ensures Pair(this, other)
      ensures forall n | n in PairNodes(this, other) :: fresh(n) || n in old(PairNodes(this, other))
      ensures |old(contents)| == bucket.Length && |contents| == bucket.Length
      ensures var mem, s := memory.outcomes, old(Snapshot(this, other));
              var first := T.Transfer(hasher, mem, s, 0, true);
              Snapshot(this, other).(ok := back)
              == if first.ok then T.Transfer(hasher, mem, first, 0, false) else first
    {
      hide Pair, PairNodes, T.Transfer;
      Sizes(this, other);
      back := TransferEntries(this, other, true);
      if back {
        Sizes(this, other);
        back := TransferEntries(this, other, false);
      }
      Sizes(this, other);
    }

    /** Takes in the entry of a node from another table's chain: the node is relinked behind an
        occupied head, or becomes spare when its entry fills an empty head. */
    method ReceiveOverflow(cursor: Node)
      requires Chains() && Spares() && 0 < bucket.Length && cursor.data != NULL
      requires cursor.place.InBucket? && cursor.place.a != bucket
      modifies this`nBucketsUsed, this`freeEntryList, this`chains, this`spares, this`contents
      modifies cursor, bucket[hasher(cursor.data, bucket.Length)]
      ensures Chains() && Spares()
      ensures var b, k := old(contents), hasher(old(cursor.data), bucket.Length);
              && contents == T.Put(b, k, old(cursor.data))
              && nBucketsUsed == old(nBucketsUsed) + (if b[k] == [] then 1 else 0)
              && |spares| == old(|spares|) + (if b[k] == [] then 1 else 0)
      ensures Nodes() <= old(Nodes()) + {cursor}
      ensures bucket[hasher(old(cursor.data), bucket.Length)].place.InBucket?
              && bucket[hasher(old(cursor.data), bucket.Length)].place.a == bucket
    {
      hide After;
      var data := cursor.data;
      var k := hasher(data, bucket.Length);
      HeadIs(k);
      if bucket[k].data != NULL {
        LinkBehind(k, cursor, data);
      } else {
        FillHead(k, data);
        Outside(cursor);
        FreeEntry(cursor);
      }
    }

    /** Before any of its overflow entries is taken out. */
    lemma StartTaking(i: nat)
      requires Chains() && i < |chains| && contents[i] != []
      ensures RestOf(bucket, i, chains[i], contents[i], 1) && bucket[i].next == After(chains[i], 0)
    {
      assert ChainIs(bucket[i], bucket, i, chains[i], contents[i]);
    }

    /** Recounts buckets in use and entries; true when the counters are right. */
    method TableOk() returns (ok: bool)
      requires Chains()
      ensures ok <==> nBucketsUsed == |UsedSet(contents)| && nEntries == |All(contents)|
    {
      hide Chains, NodesOf;
      var used, entries, i := 0, 0, 0;
      Counts();
      while i < bucket.Length
        invariant i <= bucket.Length == |contents| && Chains()
        invariant used == |UsedSet(contents[..i])| && entries == |All(contents[..i])|
      {
        UsedSetPrefix(contents, i);
        HeadIs(i);
        if bucket[i].data != NULL {
          used := used + 1;
          var n := ChainLength(i);
          entries := entries + n;
        }
        i := i + 1;
      }
      assert contents[..i] == contents;
      ok := used == nBucketsUsed && entries == nEntries;
    }

    method ChainLength(k: nat) returns (n: nat)
      requires Chains() && k < bucket.Length == |contents| && contents[k] != []
      ensures Chains() && n == |contents[k]|
    {
      hide Chains, NodesOf;
      Counts();
      NodeAt(k, 0);
      HeadIs(k);
      var cursor := bucket[k];
      n := 1;
      while cursor.next != null
        invariant Chains() && 1 <= n <= |chains[k]| == |contents[k]|
        invariant cursor == chains[k][n - 1] && cursor.next == After(chains[k], n - 1)
        decreases |chains[k]| - n
      {
        cursor := cursor.next;
        NodeAt(k, n);
        n := n + 1;
      }
    }

    /** The first entry of a walk, or NULL for an empty table. Never aborts. */
    method GetFirst() returns (data: Ptr)
      requires Valid()
      ensures var f := Flat(contents); data == if f == [] then NULL else f[0]
      ensures Flat(contents) != [] ==> data != NULL
    {
      hide All, UsedSet, Placed, Chains, Spares;
      FlatAll(contents);
      assert |multiset(Flat(contents))| == nEntries;
      Counts();
      if nEntries == 0 { return NULL; }
      data := FirstFrom(0);
      if data == NULL {
        // abort ()
        assert false;
      }
    }

    /** The head of the first bucket in use from i on, or NULL. */
    method FirstFrom(i: nat) returns (data: Ptr)
      requires Valid() && i <= bucket.Length == |contents|
      ensures var f, p := Flat(contents), Offset(contents, i);
              && p <= |f|
              && (p < |f| ==> data == f[p] && data != NULL)
              && (p == |f| ==> data == NULL)
    {
      hide All, UsedSet, Placed, Flat, Chains, Spares;
      var k := i;
      FlatEnd(contents);
      while k < bucket.Length
        invariant i <= k <= bucket.Length && Chains()
        invariant forall l | i <= l < k :: contents[l] == []
      {
        HeadIs(k);
        if bucket[k].data != NULL {
          FlatSkip(contents, i, k);
          FlatAt(contents, k, 0);
          return bucket[k].data;
        }
        k := k + 1;
      }
      FlatSkip(contents, i, k);
      data := NULL;
    }

    /** The entry that follows in a walk, or NULL after the last one. */
    method GetNext(entry: Ptr, ghost p: nat) returns (data: Ptr)
      requires Valid() && p < |Flat(contents)| && entry == Flat(contents)[p]
      ensures var f := Flat(contents);
              data == if p + 1 < |f| then f[p + 1] else NULL
      ensures p + 1 < |Flat(contents)| ==> data != NULL
    {
      hide All, UsedSet, Flat, Distinct, Placed, Chains, Spares;
      var k := hasher(entry, bucket.Length);
      Counts();
      ghost var at := Locate(entry, p);
      HeadIs(k);
      var cursor: Node? := bucket[k];
      ghost var j := 0;
      while cursor != null
        invariant j <= |chains[k]| == |contents[k]| && cursor == (if j < |chains[k]| then chains[k][j] else null)
        invariant at < j ==> at + 1 == |contents[k]|
        decreases |chains[k]| - j
      {
        NodeAt(k, j);
        if cursor.data == entry {
          FlatAt(contents, k, j);
          OnePosition(Flat(contents), p, Offset(contents, k) + j);
          if cursor.next != null {
            FlatAt(contents, k, j + 1);
            NodeAt(k, j + 1);
            return cursor.next.data;
          }
        }
        cursor := cursor.next;
        j := j + 1;
      }
      FlatStep(contents, k);
      data := FirstFrom(k + 1);
    }

    /** Where the entry at position p of the walk sits in its bucket. */
    lemma Locate(entry: Ptr, p: nat) returns (j: nat)
      requires Valid() && |contents| == bucket.Length && p < |Flat(contents)| && Flat(contents)[p] == entry
      ensures var k := hasher(entry, bucket.Length);
              && j < |contents[k]| && contents[k][j] == entry && p == Offset(contents, k) + j
      ensures multiset(Flat(contents))[entry] == 1
    {
      hide Chains, Spares, All, UsedSet, Flat, Offset;
      var b := contents;
      FlatAll(b);
      assert entry in multiset(Flat(b));
      AllMember(b, entry);
      var i :| 0 <= i < |b| && entry in b[i];
      j :| 0 <= j < |b[i]| && b[i][j] == entry;
      FlatAt(b, i, j);
      OnePosition(Flat(b), p, Offset(b, i) + j);
    }

    /** Copies the first entries of a walk, up to the size of the buffer. */
    method GetEntries(bufferSize: nat) returns (buffer: seq<Ptr>)
      requires Chains()
      ensures var f := Flat(contents);
              buffer == if |f| <= bufferSize then f else f[..bufferSize]
    {
      hide Chains, NodesOf;
      Counts();
      buffer := [];
      var i := 0;
      while i < bucket.Length
        invariant i <= bucket.Length && Chains()
        invariant buffer == Flat(contents[..i]) && |buffer| <= bufferSize
      {
        FlatStep(contents, i);
        HeadIs(i);
        if bucket[i].data != NULL {
          var cursor: Node? := bucket[i];
          ghost var j := 0;
          while cursor != null
            invariant Chains() && j <= |chains[i]| == |contents[i]|
            invariant cursor == (if j < |chains[i]| then chains[i][j] else null)
            invariant buffer == Flat(contents[..i]) + contents[i][..j] && |buffer| <= bufferSize
            decreases |chains[i]| - j
          {
            if |buffer| >= bufferSize {
              FlatAt(contents, i, j);
              return;
            }
            NodeAt(i, j);
            buffer := buffer + [cursor.data];
            cursor := cursor.next;
            j := j + 1;
          }
        }
        i := i + 1;
      }
      assert contents[..i] == contents;
    }

    /** A whole walk terminates and meets every entry exactly once, in the order in which
        GetEntries copies them. */
    method Walk() returns (visited: seq<Ptr>)
      requires Valid()
      ensures visited == Flat(contents) && multiset(visited) == Entries()
    {
      hide All, UsedSet, Placed, Flat;
      FlatAll(contents);
      ghost var f := Flat(contents);
      visited := [];
      var data := GetFirst();
      while data != NULL
        invariant |visited| <= |f| && visited == f[..|visited|]
        invariant |visited| < |f| ==> data == f[|visited|] && data != NULL
        invariant |visited| == |f| ==> data == NULL
        decreases |f| - |visited|
      {
        visited := visited + [data];
        data := GetNext(data, |visited| - 1);
      }
    }
  }

  /** The chains of src other than chain i. */
  ghost predicate OtherChains(src: Table, i: nat)
    reads src`bucket, src`chains, src`contents, src.bucket, src.OtherNodes(i)
  {
    && |src.chains| == |src.contents| == src.bucket.Length
    && forall l | 0 <= l < |src.chains| && l != i ::
         ChainIs(src.bucket[l], src.bucket, l, src.chains[l], src.contents[l])
  }

  /** A node of chain i, or of another array, is in no other chain of src. */
  lemma Elsewhere(src: Table, i: nat, n: Node)
    requires OtherChains(src, i) && n.place.InBucket? && (n.place.a != src.bucket || n.place.i == i)
    ensures forall l | 0 <= l < |src.chains| && l != i :: n !in src.chains[l]
  {
    forall l | 0 <= l < |src.chains| && l != i ensures n !in src.chains[l] {
      NotInChain(n, src.bucket[l], src.bucket, l, src.chains[l], src.contents[l]);
    }
  }

  /** The two tables and the shared heap as one value. */
  ghost function Snapshot(dst: Table, src: Table): T.State
    reads dst, src, dst.memory
  {
    T.State(dst.contents, dst.nBucketsUsed, src.contents, src.nBucketsUsed, dst.HeapNow(), true)
  }

  /** Two tables that share dst's list of spare nodes. */
  ghost predicate Pair(dst: Table, src: Table)
    reads dst, src, dst.bucket, src.bucket, dst.ChainNodes(), src.ChainNodes(), dst.spares
  {
    && dst != src && dst.bucket != src.bucket && 0 < dst.bucket.Length
    && dst.Chains() && dst.Spares() && src.Chains()
  }

  ghost function PairNodes(dst: Table, src: Table): set<Node>
    reads dst`chains, dst`spares, src`chains
  {
    dst.Nodes() + src.ChainNodes()
  }

  lemma InPair(dst: Table, src: Table)
    requires Pair(dst, src)
    ensures forall n | n in dst.bucket[..] || n in dst.spares || n in src.bucket[..] :: n in PairNodes(dst, src)
    ensures forall i, n | 0 <= i < |src.chains| && n in src.chains[i] :: n in PairNodes(dst, src)
  {
    forall k | 0 <= k < dst.bucket.Length ensures dst.bucket[k] in dst.ChainNodes() { dst.HeadIs(k); }
    forall k | 0 <= k < src.bucket.Length ensures src.bucket[k] in src.ChainNodes() { src.HeadIs(k); }
  }

  lemma Sizes(dst: Table, src: Table)
    requires Pair(dst, src)
    ensures dst != src && 0 < dst.bucket.Length == |dst.contents| && src.bucket.Length == |src.contents|
  {
  }

  lemma PairApart(dst: Table, src: Table)
    requires Pair(dst, src)
    ensures dst.Chains() && dst.Spares() && src.Chains()
    ensures forall n | n in dst.Nodes() :: n in PairNodes(dst, src)
  {
  }

  lemma PairHead(dst: Table, src: Table, i: nat)
    requires Pair(dst, src) && i < src.bucket.Length == |src.contents|
    ensures src.bucket[i].data == NULL <==> src.contents[i] == []
    ensures src.contents[i] != [] ==> src.bucket[i].data == src.contents[i][0]
  {
    src.HeadIs(i);
  }

  /** Moves entries from src to dst, bucket by bucket. */
  method TransferEntries(dst: Table, src: Table, safe: bool) returns (ok: bool)
    requires Pair(dst, src)
    modifies dst`nBucketsUsed, dst`freeEntryList, dst`chains, dst`spares, dst`contents, dst`grown
    modifies src`nBucketsUsed, src`chains, src`contents, PairNodes(dst, src), dst.memory
    ensures Pair(dst, src) && forall n | n in PairNodes(dst, src) :: fresh(n) || n in old(PairNodes(dst, src))
    ensures |old(dst.contents)| == dst.bucket.Length
            && Snapshot(dst, src).(ok := ok)
               == T.Transfer(dst.hasher, dst.memory.outcomes, old(Snapshot(dst, src)), 0, safe)
  {
    hide Pair, PairNodes, T.Transfer;
    ghost var h, mem := dst.hasher, dst.memory.outcomes;
    Sizes(dst, src);
    var i := 0;
    while i < src.bucket.Length
      invariant i <= src.bucket.Length == |src.contents| && |dst.contents| == dst.bucket.Length
      invariant Pair(dst, src) && forall n | n in PairNodes(dst, src) :: fresh(n) || n in old(PairNodes(dst, src))
      invariant T.Transfer(h, mem, Snapshot(dst, src), i, safe)
                == T.Transfer(h, mem, old(Snapshot(dst, src)), 0, safe)
    {
      ok := TransferBucket(dst, src, i, safe);
      if !ok { return; }
      i := i + 1;
    }
    T.TransferDone(h, mem, Snapshot(dst, src), safe);
    ok := true;
  }

  /** Moves the entries of bucket i: overflow entries first, which may free nodes, then the
      head, which may take one. */
  method TransferBucket(dst: Table, src: Table, i: nat, safe: bool) returns (ok: bool)
    requires Pair(dst, src) && i < src.bucket.Length
    modifies dst`nBucketsUsed, dst`freeEntryList, dst`chains, dst`spares, dst`contents, dst`grown
    modifies src`nBucketsUsed, src`chains, src`contents, PairNodes(dst, src), dst.memory
    ensures Pair(dst, src) && forall n | n in PairNodes(dst, src) :: fresh(n) || n in old(PairNodes(dst, src))
    ensures |dst.contents| == dst.bucket.Length && |src.contents| == src.bucket.Length == |old(src.contents)|
    ensures T.Transfer(dst.hasher, dst.memory.outcomes, old(Snapshot(dst, src)), i, safe)
            == if ok then T.Transfer(dst.hasher, dst.memory.outcomes, Snapshot(dst, src), i + 1, safe)
               else Snapshot(dst, src).(ok := false)
  {
    hide Pair, PairNodes, T.Transfer, T.MoveHead;
    Sizes(dst, src);
    PairHead(dst, src, i);
    ghost var h, mem := dst.hasher, dst.memory.outcomes;
    if src.bucket[i].data == NULL {
      T.HeadNext(h, mem, Snapshot(dst, src), i, safe);
      return true;
    }
    TransferOverflow(dst, src, i, safe);
    T.HeadNext(h, mem, Snapshot(dst, src), i, safe);
    if safe { return true; }
    ok := TransferHead(dst, src, i);
  }

  /** The overflow loop for one bucket of src: leaves only the head behind. */
  method TransferOverflow(dst: Table, src: Table, i: nat, ghost safe: bool)
    requires Pair(dst, src) && i < src.bucket.Length == |src.contents| && src.contents[i] != []
    modifies dst`nBucketsUsed, dst`freeEntryList, dst`chains, dst`spares, dst`contents
    modifies src`chains, src`contents, PairNodes(dst, src)
    ensures Pair(dst, src) && PairNodes(dst, src) <= old(PairNodes(dst, src))
    ensures |dst.contents| == dst.bucket.Length && |src.contents| == src.bucket.Length && |src.contents[i]| == 1
    ensures 0 < |old(dst.contents)|
            && T.Transfer(dst.hasher, dst.memory.outcomes, Snapshot(dst, src), i, safe)
               == T.Transfer(dst.hasher, dst.memory.outcomes, old(Snapshot(dst, src)), i, safe)
  {
    ghost var s0, nodes := Snapshot(dst, src), dst.Nodes() + src.ChainNodes();
    InPair(dst, src);
    TakingStarts(dst, src, i, safe);
    hide Taking, T.Transfer, Table.Chains, Table.Spares, Table.ChainNodes, Table.Nodes;
    ghost var j := TakeAll(dst, src, i, src.bucket[i].next, s0, nodes, safe);
    FinishTaking(dst, src, i, j, s0, nodes, safe);
  }

  /** The state of the overflow loop for bucket i of src when the entries before j have gone:
      the rest of the chain is intact, and the transfer of what remains is the transfer asked
      for. */
  ghost predicate Taking(dst: Table, src: Table, i: nat, j: nat, cursor: Node?, s0: T.State, nodes: set<Node>,
                         safe: bool)
    requires 0 < |s0.dst| && i < |s0.src| && s0.ok
    reads dst, src, dst.memory, dst.bucket, src.bucket, dst.ChainNodes(), src.ChainNodes(), dst.spares
  {
    && dst != src && dst.bucket != src.bucket && 0 < dst.bucket.Length
    && dst.Chains() && dst.Spares() && OtherChains(src, i)
    && i < |src.chains| && src.contents == s0.src && |s0.dst| == dst.bucket.Length
    && var c, d := src.chains[i], src.contents[i];
    && 1 <= j <= |c| == |d| && cursor == After(c, j - 1) && c[0] == src.bucket[i]
    && RestOf(src.bucket, i, c, d, j)
    && dst.Nodes() + src.ChainNodes() <= nodes
    && T.Transfer(dst.hasher, dst.memory.outcomes, Snapshot(dst, src).(src := T.Remaining(s0.src, i, d, j)), i, safe)
       == T.Transfer(dst.hasher, dst.memory.outcomes, s0, i, safe)
  }

  lemma TakingStarts(dst: Table, src: Table, i: nat, safe: bool)
    requires dst != src && dst.bucket != src.bucket && 0 < dst.bucket.Length
    requires dst.Chains() && dst.Spares() && src.Chains()
    requires i < src.bucket.Length && src.contents[i] != []
    ensures Taking(dst, src, i, 1, src.bucket[i].next, Snapshot(dst, src), dst.Nodes() + src.ChainNodes(), safe)
  {
    hide T.Transfer, T.Remaining;
    src.HeadIs(i);
    src.StartTaking(i);
    src.Others(i);
    T.RemainingStart(src.contents, i);
  }

  method TakeAll(dst: Table, ghost src: Table, ghost i: nat, first: Node?, ghost s0: T.State,
                 ghost nodes: set<Node>, ghost safe: bool)
    returns (ghost j: nat)
    requires 0 < |s0.dst| && i < |s0.src| && s0.ok && i < |src.chains| && dst != src
    requires Taking(dst, src, i, 1, first, s0, nodes, safe)
    modifies dst`nBucketsUsed, dst`freeEntryList, dst`chains, dst`spares, dst`contents, dst.bucket[..]
    modifies src.chains[i]
    ensures Taking(dst, src, i, j, null, s0, nodes, safe)
  {
    hide Taking;
    var cursor := first;
    ghost var c := src.chains[i];
    j := 1;
    TakingBound(dst, src, i, j, cursor, s0, nodes, safe);
    while cursor != null
      invariant Taking(dst, src, i, j, cursor, s0, nodes, safe) && j <= |c|
      invariant src.chains == old(src.chains) && dst.bucket == old(dst.bucket)
      decreases |c| - j
    {
      TakingCursor(dst, src, i, j, cursor, s0, nodes, safe);
      cursor := Advance(dst, src, i, j, cursor, s0, nodes, safe);
      j := j + 1;
    }
  }

  lemma TakingBound(dst: Table, src: Table, i: nat, j: nat, cursor: Node?, s0: T.State, nodes: set<Node>, safe: bool)
    requires 0 < |s0.dst| && i < |s0.src| && s0.ok && Taking(dst, src, i, j, cursor, s0, nodes, safe)
    ensures i < |src.chains| && j <= |src.chains[i]|
  {
  }

  lemma TakingCursor(dst: Table, src: Table, i: nat, j: nat, cursor: Node, s0: T.State, nodes: set<Node>, safe: bool)
    requires 0 < |s0.dst| && i < |s0.src| && s0.ok && Taking(dst, src, i, j, cursor, s0, nodes, safe)
    ensures i < |src.chains| && j < |src.chains[i]| && cursor == src.chains[i][j]
  {
  }

  lemma TakingEnds(dst: Table, src: Table, i: nat, j: nat, s0: T.State, nodes: set<Node>, safe: bool)
    requires 0 < |s0.dst| && i < |s0.src| && s0.ok && Taking(dst, src, i, j, null, s0, nodes, safe)
    ensures j == |src.chains[i]| && s0.src[i] != []
    ensures T.Remaining(s0.src, i, s0.src[i], |s0.src[i]|) == s0.src[i := [s0.src[i][0]]]
  {
    T.RemainingStart(s0.src, i);
  }

  /** One round of the overflow loop. */
  method Advance(dst: Table, ghost src: Table, ghost i: nat, ghost j: nat, cursor: Node, ghost s0: T.State,
                 ghost nodes: set<Node>, ghost safe: bool)
    returns (next: Node?)
    requires 0 < |s0.dst| && i < |s0.src| && s0.ok
    requires Taking(dst, src, i, j, cursor, s0, nodes, safe)
    modifies dst`nBucketsUsed, dst`freeEntryList, dst`chains, dst`spares, dst`contents, dst.bucket[..], cursor
    ensures Taking(dst, src, i, j + 1, next, s0, nodes, safe) && j < |src.chains[i]|
  {
    hide T.Transfer, T.Remaining, T.Put, RestOf, OtherChains, Table.Chains, Table.Spares;
    ghost var c, d := src.chains[i], src.contents[i];
    ghost var before := Snapshot(dst, src).(src := T.Remaining(s0.src, i, d, j));
    next := MoveOne(dst, src, i, j, cursor);
    T.OverflowGone(dst.hasher, dst.memory.outcomes, before,
                   Snapshot(dst, src).(src := T.Remaining(s0.src, i, d, j + 1)), s0.src, i, d, j, safe);
  }

  /** One overflow entry goes over to dst, with its node. */
  method MoveOne(dst: Table, ghost src: Table, ghost i: nat, ghost j: nat, cursor: Node) returns (next: Node?)
    requires dst != src && dst.bucket != src.bucket && 0 < dst.bucket.Length
    requires dst.Chains() && dst.Spares() && OtherChains(src, i) && i < |src.chains|
    requires RestOf(src.bucket, i, src.chains[i], src.contents[i], j)
    requires j < |src.chains[i]| && cursor == src.chains[i][j]
    modifies dst`nBucketsUsed, dst`freeEntryList, dst`chains, dst`spares, dst`contents, dst.bucket[..], cursor
    ensures dst.Chains() && dst.Spares() && OtherChains(src, i)
    ensures RestOf(src.bucket, i, src.chains[i], src.contents[i], j + 1) && next == After(src.chains[i], j)
    ensures dst.Nodes() <= old(dst.Nodes()) + {cursor}
    ensures var b, x := old(dst.contents), src.contents[i][j];
            var k := dst.hasher(x, dst.bucket.Length);
            && dst.contents == T.Put(b, k, x)
            && dst.nBucketsUsed == old(dst.nBucketsUsed) + (if b[k] == [] then 1 else 0)
            && |dst.spares| == old(|dst.spares|) + (if b[k] == [] then 1 else 0)
  {
    hide After;
    next := cursor.next;
    ghost var k := dst.hasher(cursor.data, dst.bucket.Length);
    dst.HeadIs(k);
    Elsewhere(src, i, cursor);
    Elsewhere(src, i, dst.bucket[k]);
    hide ChainIs;
    dst.ReceiveOverflow(cursor);
  }

  method FinishTaking(ghost dst: Table, src: Table, i: nat, ghost j: nat, ghost s0: T.State,
                      ghost nodes: set<Node>, ghost safe: bool)
    requires 0 < |s0.dst| && i < |s0.src| && s0.ok && Taking(dst, src, i, j, null, s0, nodes, safe)
    modifies src`chains, src`contents, src.bucket[i]
    ensures dst.Chains() && dst.Spares() && src.Chains()
    ensures |src.contents| == |s0.src| && |src.contents[i]| == 1
    ensures dst.Nodes() + src.ChainNodes() <= nodes
    ensures |dst.contents| == |s0.dst|
            && T.Transfer(dst.hasher, dst.memory.outcomes, Snapshot(dst, src), i, safe)
               == T.Transfer(dst.hasher, dst.memory.outcomes, s0, i, safe)
  {
    hide T.Transfer, T.Remaining, T.Put;
    TakingEnds(dst, src, i, j, s0, nodes, safe);
    dst.Outside(src.bucket[i]);
    CutBehindHead(src, i);
  }

  /** Cuts off what is left of chain i behind its head. */
  method CutBehindHead(src: Table, i: nat)
    requires OtherChains(src, i) && i < |src.chains|
    requires RestOf(src.bucket, i, src.chains[i], src.contents[i], |src.chains[i]|)
    requires src.chains[i][0] == src.bucket[i]
    modifies src`chains, src`contents, src.bucket[i]
    ensures src.Chains() && src.contents == old(src.contents)[i := [old(src.contents)[i][0]]]
    ensures src.ChainNodes() <= old(src.ChainNodes())
  {
    var head := src.bucket[i];
    Elsewhere(src, i, head);
    head.next := null;
    head.place := InBucket(src.bucket, i, 0);
    src.chains := src.chains[i := [head]];
    src.contents := src.contents[i := [src.contents[i][0]]];
    assert ChainIs(head, src.bucket, i, src.chains[i], src.contents[i]);
  }

  /** The head of one bucket of src. On failure nothing has moved. */
  method TransferHead(dst: Table, src: Table, i: nat) returns (ok: bool)
    requires Pair(dst, src) && i < src.bucket.Length == |src.contents| && |src.contents[i]| == 1
    requires |dst.contents| == dst.bucket.Length
    modifies dst`nBucketsUsed, dst`freeEntryList, dst`chains, dst`spares, dst`contents, dst`grown
    modifies src`nBucketsUsed, src`contents, PairNodes(dst, src), dst.memory
    ensures Pair(dst, src) && forall n | n in PairNodes(dst, src) :: fresh(n) || n in old(PairNodes(dst, src))
    ensures |dst.contents| == dst.bucket.Length && |src.contents| == src.bucket.Length == |old(src.contents)|
    ensures Snapshot(dst, src).(ok := ok)
            == T.MoveHead(dst.hasher, dst.memory.outcomes, old(Snapshot(dst, src)), i)
  {
    hide Pair, PairNodes, T.Put;
    Sizes(dst, src);
    InPair(dst, src);
    PairHead(dst, src, i);
    var data := src.bucket[i].data;
    var k := dst.hasher(data, dst.bucket.Length);
    assert dst.bucket[k] in dst.bucket[..] && src.bucket[i] in src.bucket[..];
    ok := ReceiveApart(dst, src, k, data);
    if ok {
      EmptyApart(dst, src, i);
    }
  }

  /** Receiving an entry leaves the chains of the other table alone. */
  method ReceiveApart(dst: Table, ghost src: Table, k: nat, data: Ptr) returns (ok: bool)
    requires Pair(dst, src) && k < dst.bucket.Length == |dst.contents| && data != NULL
    modifies dst`nBucketsUsed, dst`freeEntryList, dst`chains, dst`spares, dst`contents, dst`grown
    modifies dst.bucket[k], dst.spares, dst.memory
    ensures Pair(dst, src) && |dst.contents| == dst.bucket.Length
    ensures forall n | n in PairNodes(dst, src) :: fresh(n) || n in old(PairNodes(dst, src))
    ensures var (heap, got) := T.AllocateEntry(dst.memory.outcomes, old(dst.HeapNow()));
            if old(dst.contents)[k] == [] then
              && ok && dst.HeapNow() == old(dst.HeapNow()) && dst.contents == T.Put(old(dst.contents), k, data)
              && dst.nBucketsUsed == old(dst.nBucketsUsed) + 1
            else
              && ok == got && dst.HeapNow() == heap && dst.nBucketsUsed == old(dst.nBucketsUsed)
              && dst.contents == if ok then T.Put(old(dst.contents), k, data) else old(dst.contents)
  {
    dst.HeadIs(k);
    src.Outside(dst.bucket[k]);
    dst.SparesOutside(src);
    hide ChainIs, After, Table.Chains, Table.Spares, T.Put, Table.Nodes;
    ok := dst.ReceiveHead(k, data);
  }

  /** Taking a head's data out leaves the other table alone. */
  method EmptyApart(ghost dst: Table, src: Table, i: nat)
    requires Pair(dst, src) && i < src.bucket.Length == |src.contents| && |src.contents[i]| == 1
    modifies src`nBucketsUsed, src`contents, src.bucket[i]
    ensures Pair(dst, src) && src.contents == T.Take(old(src.contents), i)
    ensures src.nBucketsUsed == old(src.nBucketsUsed) - 1
  {
    src.HeadIs(i);
    dst.Outside(src.bucket[i]);
    dst.NotSpare(src.bucket[i]);
    hide ChainIs, After, Table.Chains, Table.Spares, T.Take, Table.Nodes;
    src.EmptyHead(i);
    src.nBucketsUsed := src.nBucketsUsed - 1;
  }
}
