/** Cache entries, the circular lists they are on, and the hash table that
    finds them (util/cache.cc). */
module HandleTables {
  import opened Keys

  class LRUHandle {
    const key: Bytes
    const hash: nat
    const charge: nat
    var nextHash: LRUHandle?
    var next: LRUHandle?
    var prev: LRUHandle?
    var inCache: bool
    var refs: nat

    constructor (key: Bytes, hash: nat, charge: nat)
      ensures this.key == key && this.hash == hash && this.charge == charge
      ensures !inCache && refs == 1
    {
      this.key, this.hash, this.charge := key, hash, charge;
      nextHash, next, prev, inCache, refs := null, null, null, false, 1;
    }
  }

  // ----- Circular doubly linked lists -----

  ghost predicate Distinct(nodes: seq<LRUHandle>) {
    forall i, j | 0 <= i < j < |nodes| :: nodes[i] != nodes[j]
  }

  /** Counting past either end of the list leads to its head. */
  ghost function RingNode(head: LRUHandle, nodes: seq<LRUHandle>, i: int): LRUHandle {
    if 0 <= i < |nodes| then nodes[i] else head
  }

  /** `head` is the dummy head of the list of `nodes`. */
  ghost predicate IsRing(head: LRUHandle, nodes: seq<LRUHandle>)
    reads head`next, head`prev, nodes`next, nodes`prev
  {
    && head !in nodes && Distinct(nodes)
    && forall i | -1 <= i < |nodes| ::
         && RingNode(head, nodes, i).next == RingNode(head, nodes, i + 1)
         && RingNode(head, nodes, i + 1).prev == RingNode(head, nodes, i)
  }

  method LruRemove(e: LRUHandle, ghost head: LRUHandle, ghost nodes: seq<LRUHandle>, ghost k: nat)
    requires IsRing(head, nodes) && k < |nodes| && nodes[k] == e
    modifies head`next, head`prev, nodes`next, nodes`prev
    ensures IsRing(head, nodes[..k] + nodes[k + 1..])
  {
    assert e == RingNode(head, nodes, k);
    assert e.next == RingNode(head, nodes, k + 1) && e.prev == RingNode(head, nodes, k - 1);
    e.next.prev := e.prev;
    e.prev.next := e.next;
    ghost var rest := nodes[..k] + nodes[k + 1..];
    forall i | -1 <= i < |rest|
      ensures RingNode(head, rest, i).next == RingNode(head, rest, i + 1)
      ensures RingNode(head, rest, i + 1).prev == RingNode(head, rest, i)
    {
      assert RingNode(head, rest, i) == RingNode(head, nodes, if i < k then i else i + 1);
      assert RingNode(head, rest, i + 1) == RingNode(head, nodes, if i + 1 < k then i + 1 else i + 2);
    }
  }

  /** Makes `e` the newest entry, just before the head. */
  method LruAppend(list: LRUHandle, e: LRUHandle, ghost nodes: seq<LRUHandle>)
    requires IsRing(list, nodes) && e != list && e !in nodes
    modifies list`next, list`prev, nodes`next, nodes`prev, e`next, e`prev
    ensures IsRing(list, nodes + [e])
  {
    assert RingNode(list, nodes, |nodes|) == list;
    assert list.prev == RingNode(list, nodes, |nodes| - 1);
    e.next := list;
    e.prev := list.prev;
    e.prev.next := e;
    e.next.prev := e;
    ghost var longer := nodes + [e];
    forall i | -1 <= i < |longer|
      ensures RingNode(list, longer, i).next == RingNode(list, longer, i + 1)
      ensures RingNode(list, longer, i + 1).prev == RingNode(list, longer, i)
    {
      assert i < |nodes| - 1 ==> RingNode(list, longer, i) == RingNode(list, nodes, i);
      assert i < |nodes| - 1 ==> RingNode(list, longer, i + 1) == RingNode(list, nodes, i + 1);
    }
  }

  ghost predicate DisjointRings(a: LRUHandle, x: seq<LRUHandle>, b: LRUHandle, y: seq<LRUHandle>) {
    a != b && a !in y && b !in x && forall h <- x :: h !in y
  }

  /** Removing from one list leaves another as it is. */
  method RemoveBeside(e: LRUHandle, ghost head: LRUHandle, ghost nodes: seq<LRUHandle>, ghost k: nat,
                      ghost other: LRUHandle, ghost others: seq<LRUHandle>)
    requires IsRing(head, nodes) && k < |nodes| && nodes[k] == e && IsRing(other, others)
    requires DisjointRings(head, nodes, other, others)
    modifies head`next, head`prev, nodes`next, nodes`prev
    ensures IsRing(head, nodes[..k] + nodes[k + 1..]) && IsRing(other, others)
  {
    forall i | -1 <= i <= |others| ensures var x := RingNode(other, others, i); x != head && x !in nodes {
      assert RingNode(other, others, i) == other || RingNode(other, others, i) in others;
    }
    LruRemove(e, head, nodes, k);
    forall i | -1 <= i < |others|
      ensures RingNode(other, others, i).next == RingNode(other, others, i + 1)
      ensures RingNode(other, others, i + 1).prev == RingNode(other, others, i)
    {
      var x, y := RingNode(other, others, i), RingNode(other, others, i + 1);
      assert x.next == old(x.next) && y.prev == old(y.prev);
    }
  }

  method AppendBeside(list: LRUHandle, e: LRUHandle, ghost nodes: seq<LRUHandle>,
                      ghost other: LRUHandle, ghost others: seq<LRUHandle>)
    requires IsRing(list, nodes) && e != list && e !in nodes && IsRing(other, others) && e != other && e !in others
    requires DisjointRings(list, nodes, other, others)
    modifies list`next, list`prev, nodes`next, nodes`prev, e`next, e`prev
    ensures IsRing(list, nodes + [e]) && IsRing(other, others)
  {
    forall i | -1 <= i <= |others| ensures var x := RingNode(other, others, i); x != list && x !in nodes && x != e {
      assert RingNode(other, others, i) == other || RingNode(other, others, i) in others;
    }
    LruAppend(list, e, nodes);
    forall i | -1 <= i < |others|
      ensures RingNode(other, others, i).next == RingNode(other, others, i + 1)
      ensures RingNode(other, others, i + 1).prev == RingNode(other, others, i)
    {
      var x, y := RingNode(other, others, i), RingNode(other, others, i + 1);
      assert x.next == old(x.next) && y.prev == old(y.prev);
    }
  }

  /** Moves `e` to the end of another list. */
  method LruMove(e: LRUHandle, ghost from: LRUHandle, ghost nodes: seq<LRUHandle>, ghost k: nat,
                 to: LRUHandle, ghost others: seq<LRUHandle>)
    requires IsRing(from, nodes) && k < |nodes| && nodes[k] == e && IsRing(to, others)
    requires DisjointRings(from, nodes, to, others)
    modifies from`next, from`prev, nodes`next, nodes`prev, to`next, to`prev, others`next, others`prev
    ensures IsRing(from, nodes[..k] + nodes[k + 1..]) && IsRing(to, others + [e])
  {
    RingRest(from, nodes, k);
    RemoveBeside(e, from, nodes, k, to, others);
    AppendBeside(to, e, others, from, nodes[..k] + nodes[k + 1..]);
  }

  lemma RingRest(head: LRUHandle, nodes: seq<LRUHandle>, k: nat)
    requires IsRing(head, nodes) && k < |nodes|
    ensures nodes[k] != head && forall x <- nodes[..k] + nodes[k + 1..] :: x in nodes && x != nodes[k]
  {
  }

  // ----- Hash chains -----

  ghost function ChainNode(chain: seq<LRUHandle>, j: nat): LRUHandle? {
    if j < |chain| then chain[j] else null
  }

  ghost predicate IsChain(first: LRUHandle?, chain: seq<LRUHandle>)
    reads chain`nextHash
  {
    && first == ChainNode(chain, 0)
    && forall j | 0 <= j < |chain| :: chain[j].nextHash == ChainNode(chain, j + 1)
  }

  /** The bucket of a hash. */
  function Slot(hash: nat, n: nat): (i: nat)
    requires 0 < n
    ensures i < n
  {
    hash % n
  }

  /** The buckets hold exactly `nodes`, each in the bucket of its hash. */
  ghost predicate Spread(buckets: seq<seq<LRUHandle>>, nodes: set<LRUHandle>) {
    && |buckets| > 0
    && (forall i, j | 0 <= i < |buckets| && 0 <= j < |buckets[i]| ::
          buckets[i][j] in nodes && Slot(buckets[i][j].hash, |buckets|) == i)
    && (forall h <- nodes :: h in buckets[Slot(h.hash, |buckets|)])
    && (forall i | 0 <= i < |buckets| :: Distinct(buckets[i]))
  }

  ghost predicate Matches(h: LRUHandle, key: Bytes, hash: nat) {
    h.key == key && h.hash == hash
  }

  ghost predicate UniqueKeys(nodes: set<LRUHandle>) {
    forall a <- nodes, b <- nodes | Matches(a, b.key, b.hash) :: a == b
  }

  lemma SpreadReplaced(buckets: seq<seq<LRUHandle>>, nodes: set<LRUHandle>, i: nat, j: nat, h: LRUHandle)
    requires Spread(buckets, nodes) && i < |buckets| && j < |buckets[i]|
    requires h !in nodes && Slot(h.hash, |buckets|) == i
    ensures Spread(buckets[i := buckets[i][j := h]], nodes - {buckets[i][j]} + {h})
  {
    var gone, chain := buckets[i][j], buckets[i][j := h];
    forall x | x in nodes && x != gone && x in buckets[i] ensures x in chain {
      var k :| 0 <= k < |buckets[i]| && buckets[i][k] == x;
      assert chain[k] == x;
    }
    assert chain[j] == h;
  }

  lemma SpreadAdded(buckets: seq<seq<LRUHandle>>, nodes: set<LRUHandle>, i: nat, h: LRUHandle, chain: seq<LRUHandle>)
    requires Spread(buckets, nodes) && i < |buckets|
    requires h !in nodes && Slot(h.hash, |buckets|) == i
    requires chain == buckets[i] + [h] || chain == [h] + buckets[i]
    ensures Spread(buckets[i := chain], nodes + {h})
  {
    forall x | x == h || x in buckets[i] ensures x in chain {
      assert chain == buckets[i] + [h] ==> chain[|buckets[i]|] == h;
    }
  }

  lemma SpreadRemoved(buckets: seq<seq<LRUHandle>>, nodes: set<LRUHandle>, i: nat, j: nat)
    requires Spread(buckets, nodes) && i < |buckets| && j < |buckets[i]|
    ensures Spread(buckets[i := buckets[i][..j] + buckets[i][j + 1..]], nodes - {buckets[i][j]})
  {
    var gone, chain := buckets[i][j], buckets[i][..j] + buckets[i][j + 1..];
    forall x | x in nodes && x != gone && x in buckets[i] ensures x in chain {
      var k :| 0 <= k < |buckets[i]| && buckets[i][k] == x;
      assert chain[if k < j then k else k - 1] == x;
    }
    forall k | 0 <= k < |chain| ensures chain[k] in nodes && chain[k] != gone && Slot(chain[k].hash, |buckets|) == i {
      assert chain[k] == buckets[i][if k < j then k else k + 1];
    }
  }

  /** An array of chains that spreads `members`. */
  ghost predicate BucketsOk(list: array<LRUHandle?>, buckets: seq<seq<LRUHandle>>, members: set<LRUHandle>)
    reads list, members`nextHash
  {
    && |buckets| == list.Length && Spread(buckets, members)
    && forall i | 0 <= i < |buckets| :: IsChain(list[i], buckets[i])
  }

  lemma BucketFacts(buckets: seq<seq<LRUHandle>>, members: set<LRUHandle>)
    requires Spread(buckets, members)
    ensures |buckets| > 0
    ensures forall i, j | 0 <= i < |buckets| && 0 <= j < |buckets[i]| :: buckets[i][j] in members
  {
  }

  lemma EmptyBuckets(list: array<LRUHandle?>, buckets: seq<seq<LRUHandle>>)
    requires 0 < |buckets| == list.Length
    requires forall i | 0 <= i < |buckets| :: list[i] == null && buckets[i] == []
    ensures BucketsOk(list, buckets, {})
  {
  }

  lemma UniqueAfterInsert(nodes: set<LRUHandle>, h: LRUHandle, replaced: LRUHandle?)
    requires UniqueKeys(nodes) && h !in nodes
    requires replaced != null ==> replaced in nodes && Matches(replaced, h.key, h.hash)
    requires replaced == null ==> forall x <- nodes :: !Matches(x, h.key, h.hash)
    ensures
      var after := (if replaced == null then nodes else nodes - {replaced}) + {h};
      UniqueKeys(after) && |after| == |nodes| + if replaced == null then 1 else 0
  {
  }

  lemma NullChain()
    ensures IsChain(null, [])
  {
  }

  lemma ChainOnto(h: LRUHandle, rest: seq<LRUHandle>)
    requires IsChain(h.nextHash, rest)
    ensures IsChain(h, [h] + rest)
  {
    var chain := [h] + rest;
    forall k | 0 <= k < |chain| ensures chain[k].nextHash == ChainNode(chain, k + 1) {
      assert k > 0 ==> chain[k] == rest[k - 1] && ChainNode(chain, k + 1) == ChainNode(rest, k);
    }
  }

  predicate PowerOfTwo(n: nat) {
    n == 1 || (n > 0 && n % 2 == 0 && PowerOfTwo(n / 2))
  }

  lemma NotZero(n: nat)
    requires PowerOfTwo(n)
    ensures 0 < n
  {
  }

  /** The number of buckets is a power of two, so that masking a hash with
      one less than it takes the remainder. */
  class HandleTable {
    var length: nat
    var elems: nat
    var list: array<LRUHandle?>
    ghost var buckets: seq<seq<LRUHandle>>
    ghost var nodes: set<LRUHandle>

    ghost predicate Linked()
      reads this, list, nodes`nextHash
    {
      PowerOfTwo(length) && length == list.Length && BucketsOk(list, buckets, nodes)
    }

    ghost predicate Valid()
      reads this, list, nodes`nextHash
    {
      Linked() && elems == |nodes| && UniqueKeys(nodes)
    }

    /** Every entry is in the bucket of its hash and in no other. */
    lemma ByHash()
      requires Linked()
      ensures 0 < length == |buckets|
      ensures forall h <- nodes :: h in buckets[h.hash % length]
      ensures forall i | 0 <= i < length :: forall h <- buckets[i] :: h in nodes && h.hash % length == i
    {
      hide UniqueKeys, PowerOfTwo;
      assert 0 < length by { NotZero(length); }
    }

    /** An empty table has the least number of buckets. */
    constructor ()
      ensures Valid() && nodes == {} && fresh(list)
    {
      length, elems := 4, 0;
      list := new LRUHandle?[4](_ => null);
      buckets, nodes := seq(4, _ => []), {};
      new;
      EmptyBuckets(list, buckets);
      assert PowerOfTwo(2) && PowerOfTwo(4);
    }

    /** The slot of the first node of a bucket that matches, or the last slot:
        the next pointer of `before`, or the head of the bucket. */
    method FindPointer(key: Bytes, hash: nat) returns (before: LRUHandle?, h: LRUHandle?, ghost j: nat)
      requires Valid()
      ensures length > 0 && |buckets| == length
      ensures j <= |buckets[Slot(hash, length)]|
      ensures h == ChainNode(buckets[Slot(hash, length)], j)
      ensures before == if j == 0 then null else buckets[Slot(hash, length)][j - 1]
      ensures h != null ==> h in nodes && Matches(h, key, hash)
      ensures h == null ==> forall x <- nodes :: !Matches(x, key, hash)
    {
      hide BucketsOk, PowerOfTwo, Slot, UniqueKeys;
      BucketOf(key, hash);
      ghost var chain := buckets[Slot(hash, length)];
      before, h, j := null, list[Slot(hash, length)], 0;
      while h != null && (h.hash != hash || key != h.key)
        invariant j <= |chain| && h == ChainNode(chain, j)
        invariant before == if j == 0 then null else chain[j - 1]
        invariant forall k | 0 <= k < j :: !Matches(chain[k], key, hash)
        decreases |chain| - j
      {
        before := h;
        h := h.nextHash;
        j := j + 1;
      }
    }

    lemma BucketOf(key: Bytes, hash: nat)
      requires Linked()
      ensures 0 < length == list.Length == |buckets|
      ensures IsChain(list[Slot(hash, length)], buckets[Slot(hash, length)])
      ensures forall x <- buckets[Slot(hash, length)] :: x in nodes
      ensures forall x <- nodes | Matches(x, key, hash) :: x in buckets[Slot(hash, length)]
    {
      hide PowerOfTwo, Slot;
    }

    method Lookup(key: Bytes, hash: nat) returns (h: LRUHandle?)
      requires Valid()
      ensures h != null ==> h in nodes && Matches(h, key, hash)
      ensures h == null ==> forall x <- nodes :: !Matches(x, key, hash)
    {
      var before; ghost var j;
      before, h, j := FindPointer(key, hash);
    }

    /** Stores `to` into the slot after `before`, the first `j` nodes of bucket
        `i`, so that `tail` follows them. */
    method SetSlot(i: nat, before: LRUHandle?, to: LRUHandle?, ghost j: nat, ghost tail: seq<LRUHandle>)
      requires Linked() && i < length && j <= |buckets[i]|
      requires before == if j == 0 then null else buckets[i][j - 1]
      requires IsChain(to, tail) && before !in tail
      modifies list, nodes`nextHash
      ensures IsChain(list[i], buckets[i][..j] + tail)
      ensures forall k | 0 <= k < length && k != i :: IsChain(list[k], buckets[k])
    {
      hide Spread, PowerOfTwo, Slot;
      BucketFacts(buckets, nodes);
      ghost var chain := buckets[i];
      ghost var longer := chain[..j] + tail;
      if before == null {
        list[i] := to;
        assert longer == tail;
      } else {
        OneBucket(before, i, j - 1);
        before.nextHash := to;
        forall k | 0 <= k < |longer| ensures longer[k].nextHash == ChainNode(longer, k + 1) {
          assert k < j ==> longer[k] == chain[k];
          assert k >= j ==> longer[k] == tail[k - j] && ChainNode(longer, k + 1) == ChainNode(tail, k - j + 1);
        }
      }
    }

    lemma ChainTail(i: nat, j: nat)
      requires Linked() && i < length && j < |buckets[i]|
      ensures buckets[i][j] in nodes
      ensures IsChain(buckets[i][j].nextHash, buckets[i][j + 1..])
      ensures j > 0 ==> buckets[i][j - 1] !in buckets[i][j + 1..]
    {
      hide PowerOfTwo, Slot;
      var chain := buckets[i];
      assert IsChain(list[i], chain) && Distinct(chain);
      var tail := chain[j + 1..];
      forall k | 0 <= k < |tail| ensures tail[k].nextHash == ChainNode(tail, k + 1) {
        assert tail[k] == chain[j + 1 + k];
      }
    }

    lemma OneBucket(h: LRUHandle, i: nat, j: nat)
      requires Spread(buckets, nodes) && i < |buckets| && j < |buckets[i]| && buckets[i][j] == h
      ensures forall k, l | 0 <= k < |buckets| && 0 <= l < |buckets[k]| && buckets[k][l] == h :: k == i && l == j
    {
      assert Distinct(buckets[i]);
    }

    /** Adds `h`, in the place of the node with its key if there is one. */
    method Insert(h: LRUHandle) returns (replaced: LRUHandle?)
      requires Valid() && h !in nodes
      modifies this, list, nodes`nextHash, h`nextHash
      ensures Valid() && (list == old(list) || fresh(list))
      ensures replaced != null ==> replaced in old(nodes) && Matches(replaced, h.key, h.hash) && nodes == old(nodes) - {replaced} + {h}
      ensures replaced == null ==> nodes == old(nodes) + {h} && forall x <- old(nodes) :: !Matches(x, h.key, h.hash)
      ensures if replaced == null && |nodes| > old(length) then |nodes| <= length && (length == 4 || length < 2 * |nodes|) else length == old(length)
    {
      hide Linked, Slot, UniqueKeys;
      var before; ghost var j;
      before, replaced, j := FindPointer(h.key, h.hash);
      UniqueAfterInsert(nodes, h, replaced);
      InsertChains(h, before, replaced, j);
      if replaced == null && elems > length {
        Resize();
      }
    }

    /** Puts `h` where the search for it ended, and counts it if it is new. */
    method InsertChains(h: LRUHandle, before: LRUHandle?, replaced: LRUHandle?, ghost j: nat)
      requires Linked() && h !in nodes
      requires
        var chain := buckets[Slot(h.hash, length)];
        j <= |chain| && replaced == ChainNode(chain, j) && before == if j == 0 then null else chain[j - 1]
      modifies this`elems, this`buckets, this`nodes, list, nodes`nextHash, h`nextHash
      ensures Linked() && elems == old(elems) + if replaced == null then 1 else 0
      ensures nodes == (if replaced == null then old(nodes) else old(nodes) - {replaced}) + {h}
    {
      hide Spread, PowerOfTwo, Slot, IsChain, Distinct;
      BucketFacts(buckets, nodes);
      var i := Slot(h.hash, length);
      ghost var chain := buckets[i];
      ghost var rest: seq<LRUHandle> := if replaced == null then [] else chain[j + 1..];
      ghost var tail := [h] + rest;
      if replaced != null {
        ChainTail(i, j);
      }
      NullChain();
      h.nextHash := if replaced == null then null else replaced.nextHash;
      ChainOnto(h, rest);
      SetSlot(i, before, h, j, tail);
      if replaced == null {
        SpreadAdded(buckets, nodes, i, h, chain + [h]);
        assert chain[..j] + tail == chain + [h];
      } else {
        SpreadReplaced(buckets, nodes, i, j, h);
        assert chain[..j] + tail == chain[j := h];
      }
      buckets := buckets[i := chain[..j] + tail];
      nodes := (if replaced == null then nodes else nodes - {replaced}) + {h};
      if replaced == null {
        elems := elems + 1;
      }
    }

    method Remove(key: Bytes, hash: nat) returns (result: LRUHandle?)
      requires Valid()
      modifies this, list, nodes`nextHash
      ensures Valid() && list == old(list)
      ensures result != null ==> result in old(nodes) && Matches(result, key, hash) && nodes == old(nodes) - {result}
      ensures result == null ==> nodes == old(nodes) && forall x <- nodes :: !Matches(x, key, hash)
    {
      hide Spread, PowerOfTwo, Slot, Distinct, IsChain;
      BucketFacts(buckets, nodes);
      var before; ghost var j;
      before, result, j := FindPointer(key, hash);
      if result != null {
        RemoveChains(Slot(hash, length), before, result, j);
        elems := elems - 1;
      }
    }

    /** Takes the node found out of its chain. */
    method RemoveChains(i: nat, before: LRUHandle?, result: LRUHandle, ghost j: nat)
      requires Linked() && i < length && j < |buckets[i]| && buckets[i][j] == result
      requires before == if j == 0 then null else buckets[i][j - 1]
      modifies this`buckets, this`nodes, list, nodes`nextHash
      ensures Linked() && nodes == old(nodes) - {result} && result in old(nodes)
    {
      hide Spread, PowerOfTwo, Slot, Distinct, IsChain;
      BucketFacts(buckets, nodes);
      ghost var chain := buckets[i];
      SpreadRemoved(buckets, nodes, i, j);
      ChainTail(i, j);
      SetSlot(i, before, result.nextHash, j, chain[j + 1..]);
      buckets := buckets[i := chain[..j] + chain[j + 1..]];
      nodes := nodes - {result};
    }

    // ----- Resizing -----

    /** The nodes moved so far are those of the first `i` buckets and the first
        `j` nodes of the next. */
    ghost predicate MovedUpTo(moved: set<LRUHandle>, i: nat, j: nat)
      reads this
    {
      && moved <= nodes
      && forall k, l | 0 <= k < |buckets| && 0 <= l < |buckets[k]| ::
           buckets[k][l] in moved <==> k < i || (k == i && l < j)
    }

    /** Nodes not moved still lead on through their old chains. */
    ghost predicate RestLinked(moved: set<LRUHandle>)
      requires Spread(buckets, nodes)
      reads this, nodes`nextHash
    {
      forall k, l | 0 <= k < |buckets| && 0 <= l < |buckets[k]| && buckets[k][l] !in moved ::
        buckets[k][l].nextHash == ChainNode(buckets[k], l + 1)
    }

    lemma NothingMoved()
      requires Linked()
      ensures RestLinked({}) && MovedUpTo({}, 0, 0)
      ensures forall k | 0 <= k < length :: list[k] == ChainNode(buckets[k], 0)
    {
      hide Spread, PowerOfTwo, Slot, Distinct;
      forall k, l | 0 <= k < |buckets| && 0 <= l < |buckets[k]|
        ensures buckets[k][l].nextHash == ChainNode(buckets[k], l + 1)
      {
        assert IsChain(list[k], buckets[k]);
      }
    }

    lemma AllMoved(moved: set<LRUHandle>)
      requires Spread(buckets, nodes) && MovedUpTo(moved, |buckets|, 0)
      ensures moved == nodes
    {
      forall x <- nodes ensures x in moved {
        var k := Slot(x.hash, |buckets|);
        assert x in buckets[k];
        var l :| 0 <= l < |buckets[k]| && buckets[k][l] == x;
      }
    }

    /** Puts `h` at the front of its new bucket. */
    method MoveNode(h: LRUHandle, newList: array<LRUHandle?>, ghost newBuckets: seq<seq<LRUHandle>>, ghost moved: set<LRUHandle>)
      returns (ghost after: seq<seq<LRUHandle>>)
      requires Spread(buckets, nodes) && h in nodes && h !in moved && moved <= nodes && newList != list
      requires RestLinked(moved) && BucketsOk(newList, newBuckets, moved)
      modifies newList, h`nextHash
      ensures RestLinked(moved + {h}) && BucketsOk(newList, after, moved + {h})
    {
      hide Spread, Slot, Distinct;
      BucketFacts(newBuckets, moved);
      var i := Slot(h.hash, newList.Length);
      ghost var chain := newBuckets[i];
      SpreadAdded(newBuckets, moved, i, h, [h] + chain);
      h.nextHash := newList[i];
      ChainOnto(h, chain);
      newList[i] := h;
      after := newBuckets[i := [h] + chain];
      forall k | 0 <= k < newList.Length ensures IsChain(newList[k], after[k]) {
        assert k != i ==> IsChain(newList[k], newBuckets[k]);
      }
    }

    method Resize()
      requires Valid()
      modifies this, nodes`nextHash
      ensures Valid() && nodes == old(nodes) && fresh(list) && |nodes| <= length && (length == 4 || length < 2 * |nodes|)
      ensures 0 < length == |buckets| && forall h <- nodes :: h in buckets[h.hash % length]
    {
      hide Spread, Slot, Distinct, IsChain;
      var newLength := 4;
      while newLength < elems
        invariant (newLength == 4 || 4 < newLength < 2 * elems) && PowerOfTwo(newLength)
      {
        newLength := newLength * 2;
      }
      var newList := new LRUHandle?[newLength](_ => null);
      var newBuckets := MoveAll(newList);
      list, length, buckets := newList, newLength, newBuckets;
      ByHash();
    }

    /** Moves all nodes to the new buckets. */
    method MoveAll(newList: array<LRUHandle?>) returns (ghost newBuckets: seq<seq<LRUHandle>>)
      requires Valid() && newList != list && newList.Length > 0 && forall i | 0 <= i < newList.Length :: newList[i] == null
      modifies newList, nodes`nextHash
      ensures BucketsOk(newList, newBuckets, nodes)
    {
      hide Spread, Slot, Distinct, IsChain, PowerOfTwo;
      BucketFacts(buckets, nodes);
      newBuckets := seq(newList.Length, _ => []);
      ghost var moved: set<LRUHandle> := {};
      EmptyBuckets(newList, newBuckets);
      NothingMoved();
      var count := 0;
      for i := 0 to length
        invariant MovedUpTo(moved, i, 0) && RestLinked(moved) && BucketsOk(newList, newBuckets, moved)
        invariant count == |moved|
        invariant forall k | i <= k < length :: list[k] == ChainNode(buckets[k], 0)
      {
        var h := list[i];
        ghost var j := 0;
        while h != null
          invariant j <= |buckets[i]| && h == ChainNode(buckets[i], j)
          invariant MovedUpTo(moved, i, j) && RestLinked(moved) && BucketsOk(newList, newBuckets, moved)
          invariant count == |moved|
          decreases |buckets[i]| - j
        {
          var next := h.nextHash;
          OneBucket(h, i, j);
          newBuckets := MoveNode(h, newList, newBuckets, moved);
          moved := moved + {h};
          h := next;
          j := j + 1;
          count := count + 1;
        }
      }
      AllMoved(moved);
    }
  }
}
