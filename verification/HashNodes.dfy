/** The nodes of a chained hash table: linked lists behind the bucket heads, relinked in place. */
module HashNodes {
  import opened HashChains
  import T = HashTransfer

  const NULL: Ptr := 0

  /** The allocator: its k-th call succeeds or fails as `outcomes` says. */
  class Malloc {
    const outcomes: T.Outcomes
    var calls: nat

    constructor (outcomes: T.Outcomes)
      ensures this.outcomes == outcomes && calls == 0
    {
      this.outcomes := outcomes;
      calls := 0;
    }

    method Call() returns (ok: bool)
      modifies this
      ensures ok == outcomes(old(calls)) && calls == old(calls) + 1
    {
      ok := outcomes(calls);
      calls := calls + 1;
    }
  }

  /** Where a node is: on the list of spare nodes, or in a chain. The rank counts the nodes
      behind it, so that a node put in front leaves the ranks of the others alone. */
  datatype Place = Spare(rank: nat) | InBucket(a: array<Node>, i: nat, rank: nat)

  /** The node after position j of a list, or null at its end. */
  ghost function After(s: seq<Node>, j: nat): Node? {
    if j + 1 < |s| then s[j + 1] else null
  }

  class Node {
    var data: Ptr
    var next: Node?
    ghost var place: Place

    constructor (place: Place)
      ensures data == NULL && next == null && this.place == place
    {
      data, next := NULL, null;
      this.place := place;
    }
  }

  ghost function NodesOf(chains: seq<seq<Node>>): set<Node> {
    set i, j | 0 <= i < |chains| && 0 <= j < |chains[i]| :: chains[i][j]
  }

  /** Chain i of the array a: linked from its head on to its end, and holding exactly d. */
  ghost predicate ChainIs(head: Node, a: array<Node>, i: nat, c: seq<Node>, d: Chain)
    reads c
  {
    && c != [] && c[0] == head
    && (forall j | 0 <= j < |c| :: c[j].place == InBucket(a, i, |c| - 1 - j) && c[j].next == After(c, j))
    && if d == [] then |c| == 1 && c[0].data == NULL
       else |c| == |d| && forall j | 0 <= j < |c| :: c[j].data == d[j] != NULL
  }

  /** The overflow entries of a chain from position j on, while they are being taken out. */
  ghost predicate RestOf(a: array<Node>, i: nat, c: seq<Node>, d: Chain, j: nat)
    reads c
  {
    && |c| == |d| && 1 <= j <= |c|
    && (forall l | j <= l < |c| ::
          c[l].place == InBucket(a, i, |c| - 1 - l) && c[l].next == After(c, l) && c[l].data == d[l] != NULL)
    && c[0].place == InBucket(a, i, |c| - 1) && c[0].data == d[0] != NULL
  }

  /** A node whose place is elsewhere is not in the chain. */
  lemma NotInChain(n: Node, head: Node, a: array<Node>, i: nat, c: seq<Node>, d: Chain)
    requires ChainIs(head, a, i, c, d)
    requires n.place.InBucket? ==> n.place.a != a || n.place.i != i
    ensures n !in c
  {
  }

  /** Puts a node right behind the head of a chain that is in use. */
  method Link(head: Node, node: Node, data: Ptr, ghost a: array<Node>, ghost i: nat, ghost c: seq<Node>,
              ghost d: Chain)
    requires ChainIs(head, a, i, c, d) && d != [] && node !in c && data != NULL
    modifies head, node
    ensures ChainIs(head, a, i, [head, node] + c[1..], [d[0], data] + d[1..])
    ensures node.place == InBucket(a, i, |c| - 1) && head.place == InBucket(a, i, |c|)
  {
    node.data := data;
    node.next := head.next;
    head.next := node;
    node.place := InBucket(a, i, |c| - 1);
    head.place := InBucket(a, i, |c|);
  }

  /** Position l of a chain whose j-th node has just been bypassed. */
  ghost predicate Bypassed(a: array<Node>, i: nat, c: seq<Node>, d: Chain, j: nat, l: nat)
    requires 1 <= j < |c| == |d| && l < |c|
    reads c
  {
    && c[l].place == InBucket(a, i, if l < j then |c| - 2 - l else |c| - 1 - l)
    && c[l].next == After(c, if l == j - 1 then j else l)
    && c[l].data == d[l] != NULL
  }

  /** A sequence without its j-th element, and what follows each position then. */
  lemma WithoutAt(s: seq<Node>, j: nat, m: nat)
    requires j < |s| && m + 1 < |s|
    ensures (s[..j] + s[j + 1..])[m] == s[if m < j then m else m + 1]
    ensures After(s[..j] + s[j + 1..], m) == After(s, if m + 1 < j then m else m + 1)
  {
  }

  lemma ChainWithout(a: array<Node>, i: nat, c: seq<Node>, d: Chain, j: nat)
    requires 1 <= j < |c| == |d| && forall l | 0 <= l < |c| && l != j :: Bypassed(a, i, c, d, j, l)
    ensures ChainIs(c[0], a, i, c[..j] + c[j + 1..], d[..j] + d[j + 1..])
  {
    hide After;
    var c', d' := c[..j] + c[j + 1..], d[..j] + d[j + 1..];
    forall m | 0 <= m < |c'|
      ensures c'[m].place == InBucket(a, i, |c'| - 1 - m) && c'[m].next == After(c', m) && c'[m].data == d'[m] != NULL
    {
      WithoutAt(c, j, m);
      assert Bypassed(a, i, c, d, j, if m < j then m else m + 1);
    }
  }

  lemma WithoutMembers(c: seq<Node>, j: nat) returns (c': seq<Node>)
    requires j < |c| && forall l | 0 <= l < |c| && l != j :: c[l] != c[j]
    ensures c' == c[..j] + c[j + 1..] && c[j] !in c' && forall n | n in c' :: n in c
  {
    c' := c[..j] + c[j + 1..];
  }

  /** The first j nodes of a chain each lose one of the nodes behind them. */
  ghost method LowerRanks(a: array<Node>, i: nat, c: seq<Node>, j: nat)
    requires j < |c| && forall l | 0 <= l < |c| :: c[l].place == InBucket(a, i, |c| - 1 - l)
    modifies c`place
    ensures forall l | 0 <= l < |c| :: c[l].place == InBucket(a, i, if l < j then |c| - 2 - l else |c| - 1 - l)
    ensures forall l | 0 <= l < |c| && l != j :: c[l] != c[j]
  {
    assert forall l | 0 <= l < |c| && l != j :: c[l].place.rank != c[j].place.rank;
    forall l | 0 <= l < j {
      c[l].place := InBucket(a, i, |c| - 2 - l);
    }
  }

  /** Takes the node behind `before` out of a chain. The nodes in front of it move down a rank. */
  method Unchain(before: Node, ghost a: array<Node>, ghost i: nat, ghost c: seq<Node>, ghost d: Chain, ghost j: nat)
    returns (next: Node, ghost rest: seq<Node>)
    requires 1 <= j < |c| && ChainIs(c[0], a, i, c, d) && d != [] && before == c[j - 1]
    modifies c
    ensures ChainIs(c[0], a, i, rest, d[..j] + d[j + 1..])
    ensures next == c[j] && next !in rest && next.place.InBucket? && forall n | n in rest :: n in c
  {
    LowerRanks(a, i, c, j);
    next := before.next;
    assert next == c[j];
    before.next := next.next;
    hide After;
    assert forall l | 0 <= l < |c| && l != j :: Bypassed(a, i, c, d, j, l);
    hide ChainIs, Bypassed;
    ChainWithout(a, i, c, d, j);
    rest := WithoutMembers(c, j);
  }

  lemma ChainBumped(head: Node, a: array<Node>, i: nat, c: seq<Node>, d: Chain)
    requires 2 <= |c| == |d| && head == c[0]
    requires head.place == InBucket(a, i, |c| - 2) && head.next == After(c, 1) && head.data == d[1] != NULL
    requires forall l | 2 <= l < |c| ::
               c[l].place == InBucket(a, i, |c| - 1 - l) && c[l].next == After(c, l) && c[l].data == d[l] != NULL
    ensures ChainIs(head, a, i, [head] + c[2..], d[1..])
  {
    var c' := [head] + c[2..];
    assert c' == c[..1] + c[2..];
    WithoutAt(c, 1, 0);
    hide After;
    forall m | 1 <= m < |c'|
      ensures c'[m].place == InBucket(a, i, |c'| - 1 - m) && c'[m].next == After(c', m)
      ensures c'[m].data == d[1..][m] != NULL
    {
      WithoutAt(c, 1, m);
    }
  }

  /** Moves the first overflow entry up into the head. */
  method BumpHead(head: Node, ghost a: array<Node>, ghost i: nat, ghost c: seq<Node>, ghost d: Chain)
    returns (next: Node)
    requires 2 <= |c| && ChainIs(head, a, i, c, d)
    modifies head
    ensures ChainIs(head, a, i, [head] + c[2..], d[1..])
    ensures next == c[1] && next !in [head] + c[2..] && next.place.InBucket?
  {
    assert head.next == After(c, 0);
    next := head.next;
    assert next == c[1] && next !in [head] + c[2..];
    head.data, head.next := next.data, next.next;
    head.place := InBucket(a, i, |c| - 2);
    hide After;
    ChainBumped(head, a, i, c, d);
  }
}
