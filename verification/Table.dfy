/** Building a table file and looking up a key in it
    (table/table_builder.cc, table/table.cc). */
module Tables {
  import opened Keys
  import opened Coding
  import opened Crc
  import opened InternalKeys
  import opened BlockFormat
  import opened Blocks
  import opened BlockIterators
  import opened TableFormat
  import opened Bloom
  import opened FilterBlocks

  /** An iterator over a stored block. */
  method OpenBlock(extend: Checksum, verify: bool, file: Bytes, h: Handle, ghost pairs: seq<Pair>, ghost interval: nat)
    returns (iter: BlockIter)
    requires IsChecksum(extend) && 0 < interval && StoredAt(extend, file, h, pairs, interval)
    requires Sorted(InternalBefore, pairs) && |BlockBytes(pairs, interval)| < TWO32
    ensures fresh(iter) && iter.Ok() && iter.pairs == pairs && iter.before == InternalBefore
  {
    hide BlockBytes, Stored, Sits, Sorted, InternalBefore;
    BlockRoundTrip(extend, verify, file, h, BlockBytes(pairs, interval));
    InternalBeforeTransitive();
    var contents := ReadBlock(extend, verify, file, h);
    iter := new BlockIter(InternalBefore, contents.value, pairs, interval);
  }

  /** The block that the index gives for a key, if any. */
  method SeekIndex(extend: Checksum, verify: bool, file: Bytes, index: Handle, k: Bytes,
                   ghost separators: seq<Bytes>, ghost handles: seq<Handle>)
    returns (h: Option<Handle>, ghost b: nat)
    requires IsChecksum(extend) && |separators| == |handles|
    requires StoredAt(extend, file, index, IndexPairs(separators, handles), 1)
    requires forall i, j | 0 <= i < j < |separators| :: InternalBefore(separators[i], separators[j])
    requires forall i | 0 <= i < |handles| :: handles[i].offset < TWO64 && handles[i].size < TWO64
    requires |BlockBytes(IndexPairs(separators, handles), 1)| < TWO32
    ensures IndexFinds(separators, k, b)
    ensures h == if b < |handles| then Some(handles[b]) else None
  {
    hide BlockBytes, Stored, Sits, InternalBefore, BlockIter.Ok, EncodeHandle, DecodeHandle;
    ghost var pairs := IndexPairs(separators, handles);
    assert Sorted(InternalBefore, pairs);
    var iter := OpenBlock(extend, verify, file, index, pairs, 1);
    iter.Seek(k);
    b := iter.index;
    iter.ValidIsIndex();
    assert forall i | 0 <= i < |separators| :: pairs[i].key == separators[i];
    if iter.Valid() {
      HandleRoundTrip(handles[b]);
      var value := iter.ValueOf();
      h := DecodeHandle(value);
    } else {
      h := None;
    }
  }

  /** The first entry of a block at or after a key, if any. */
  method SeekBlock(extend: Checksum, verify: bool, file: Bytes, h: Handle, k: Bytes, ghost block: seq<Pair>, ghost interval: nat)
    returns (r: Option<Pair>, ghost q: nat)
    requires IsChecksum(extend) && 0 < interval && StoredAt(extend, file, h, block, interval)
    requires Sorted(InternalBefore, block) && |BlockBytes(block, interval)| < TWO32
    ensures q <= |block| && forall i | 0 <= i < q :: InternalBefore(block[i].key, k)
    ensures q < |block| ==> !InternalBefore(block[q].key, k)
    ensures r == if q < |block| then Some(block[q]) else None
  {
    hide BlockBytes, Stored, Sits, InternalBefore, BlockIter.Ok, Sorted;
    var iter := OpenBlock(extend, verify, file, h, block, interval);
    iter.Seek(k);
    q := iter.index;
    iter.ValidIsIndex();
    if iter.Valid() {
      var key := iter.Key();
      var value := iter.ValueOf();
      r := Some(Pair(key, value));
    } else {
      r := None;
    }
  }

  ghost predicate Delivers(blocks: seq<seq<Pair>>, k: Bytes, p: Pair) {
    exists b: nat, q: nat :: IsFirstAt(blocks, k, b, q) && blocks[b][q] == p
  }

  /** The filter never denies a key whose user key is in the block at the offset. */
  ghost predicate NoFalseNegatives(mayMatch: (nat, Bytes) -> bool, blocks: seq<seq<Pair>>, handles: seq<Handle>, k: Bytes)
    requires |handles| == |blocks|
  {
    forall i, p | 0 <= i < |blocks| && p in blocks[i] && User(p.key) == User(k) :: mayMatch(handles[i].offset, k)
  }

  /** Sizes fit the format's integers. */
  ghost predicate Fits(file: Bytes, interval: nat, blocks: seq<seq<Pair>>, handles: seq<Handle>, separators: seq<Bytes>)
    requires |separators| <= |handles|
  {
    && |file| < TWO64 && |BlockBytes(IndexPairs(separators, handles), 1)| < TWO32
    && forall i | 0 <= i < |blocks| :: |BlockBytes(blocks[i], interval)| < TWO32
  }

  /** A lookup goes through the index to one block, and there to the first entry
      at or after `k`. What it delivers is the first such entry of the whole
      table, and it delivers an entry with the user key of `k` exactly when the
      first such entry of the whole table has that user key. */
  method InternalGet(extend: Checksum, verify: bool, file: Bytes, interval: nat, index: Handle,
                     mayMatch: (nat, Bytes) -> bool, k: Bytes,
                     ghost blocks: seq<seq<Pair>>, ghost handles: seq<Handle>, ghost separators: seq<Bytes>)
    returns (r: Option<Pair>)
    requires IsChecksum(extend) && IsTable(extend, file, interval, index, blocks, handles, separators)
    requires Fits(file, interval, blocks, handles, separators) && NoFalseNegatives(mayMatch, blocks, handles, k)
    ensures r.Some? ==> Delivers(blocks, k, r.value)
    ensures r.Some? && User(r.value.key) == User(k) <==> exists p :: Delivers(blocks, k, p) && User(p.key) == User(k)
  {
    hide BlockBytes, StoredAt, InternalBefore, Sorted, User, SeparatorsOk, BlocksOk, IndexFinds, Delivers;
    TableFacts(extend, file, interval, index, blocks, handles, separators);
    var h; ghost var b;
    h, b := SeekIndex(extend, verify, file, index, k, separators, handles);
    r := None;
    ghost var q := 0;
    if h.Some? && mayMatch(h.value.offset, k) {
      r, q := SeekBlock(extend, verify, file, h.value, k, blocks[b], interval);
      if r.Some? {
        FoundInBlock(blocks, separators, k, b, q);
        IsDelivered(blocks, k, b, q);
      }
    }
    forall p | Delivers(blocks, k, p) && User(p.key) == User(k) ensures r == Some(p) {
      var i := DeliveredFromBlock(blocks, separators, k, b, p);
      assert p in blocks[b];
    }
  }

  lemma IsDelivered(blocks: seq<seq<Pair>>, k: Bytes, b: nat, q: nat)
    requires IsFirstAt(blocks, k, b, q)
    ensures Delivers(blocks, k, blocks[b][q])
  {
  }

  lemma DeliveredFromBlock(blocks: seq<seq<Pair>>, separators: seq<Bytes>, k: Bytes, b: nat, p: Pair) returns (i: nat)
    requires BlocksOk(blocks) && SeparatorsOk(blocks, separators) && |separators| == |blocks|
    requires IndexFinds(separators, k, b) && Delivers(blocks, k, p) && User(p.key) == User(k)
    ensures b < |blocks| && i < |blocks[b]| && blocks[b][i] == p
    ensures !InternalBefore(blocks[b][i].key, k) && forall j | 0 <= j < i :: InternalBefore(blocks[b][j].key, k)
  {
    hide BlocksOk, SeparatorsOk, IndexFinds, InternalBefore;
    var c: nat, q: nat :| IsFirstAt(blocks, k, c, q) && blocks[c][q] == p;
    SameUserIsInBlock(blocks, separators, k, b, c, q);
    i := q;
  }

  lemma TableFacts(extend: Checksum, file: Bytes, interval: nat, index: Handle,
                   blocks: seq<seq<Pair>>, handles: seq<Handle>, separators: seq<Bytes>)
    requires IsTable(extend, file, interval, index, blocks, handles, separators)
    requires Fits(file, interval, blocks, handles, separators)
    ensures forall i | 0 <= i < |blocks| :: Sorted(InternalBefore, blocks[i])
    ensures forall i | 0 <= i < |handles| :: handles[i].offset < TWO64 && handles[i].size < TWO64
    ensures forall i, j | 0 <= i < j < |separators| :: InternalBefore(separators[i], separators[j])
  {
    hide BlockBytes, InternalBefore, Sorted, SeparatesInternal, Stored;
    assert forall i | 0 <= i < |blocks| :: StoredAt(extend, file, handles[i], blocks[i], interval) && BlockOk(blocks[i]);
    forall i, j | 0 <= i < j < |separators| ensures InternalBefore(separators[i], separators[j]) {
      SeparatorsIncrease(blocks, separators, i, j);
    }
  }

  /** A filter that was given the user keys of every block under the block's
      offset denies no lookup that the table could answer. */
  lemma FilterHidesNothing(hash: Hash, contents: Bytes, blocks: seq<seq<Pair>>, handles: seq<Handle>,
                           mayMatch: (nat, Bytes) -> bool, k: Bytes)
    requires |handles| == |blocks|
    requires forall i, p | 0 <= i < |blocks| && p in blocks[i] :: BlockMayMatch(hash, contents, handles[i].offset, User(p.key))
    requires forall offset: nat :: mayMatch(offset, k) <==> BlockMayMatch(hash, contents, offset, User(k))
    ensures NoFalseNegatives(mayMatch, blocks, handles, k)
  {
    hide BlockMayMatch;
    forall i, p | 0 <= i < |blocks| && p in blocks[i] && User(p.key) == User(k) ensures mayMatch(handles[i].offset, k) {
      assert BlockMayMatch(hash, contents, handles[i].offset, User(p.key));
    }
  }
}
