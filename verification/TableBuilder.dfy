/** The table builder (table/table_builder.cc): it cuts the entries into blocks
    and writes an index entry for a block when it sees the key after it. */
module TableBuilders {
  import opened Keys
  import opened Coding
  import opened Crc
  import opened InternalKeys
  import opened BlockFormat
  import opened Blocks
  import opened TableFormat
  import opened Bloom
  import opened FilterBlocks

  function Flat(blocks: seq<seq<Pair>>): seq<Pair> {
    if blocks == [] then [] else Flat(blocks[..|blocks| - 1]) + blocks[|blocks| - 1]
  }

  function Appended(blocks: seq<seq<Pair>>, block: seq<Pair>): (r: seq<seq<Pair>>) {
    if block == [] then blocks else blocks + [block]
  }

  lemma FlatAppended(blocks: seq<seq<Pair>>, block: seq<Pair>)
    ensures Flat(Appended(blocks, block)) == Flat(blocks) + block
  {
    assert (blocks + [block])[..|blocks|] == blocks;
  }

  /** A key after all others makes the last block longer. */
  lemma LastBlockGrows(blocks: seq<seq<Pair>>, block: seq<Pair>, separators: seq<Bytes>, p: Pair)
    requires block != [] && BlocksOk(blocks + [block]) && |separators| == |blocks| && SeparatorsOk(blocks + [block], separators)
    requires InternalBefore(Last(block), p.key) && 8 <= |p.key| < TWO32
    ensures BlocksOk(blocks + [block + [p]]) && SeparatorsOk(blocks + [block + [p]], separators)
  {
    hide InternalBefore, SeparatesInternal;
    var was, now := blocks + [block], blocks + [block + [p]];
    InternalBeforeTransitive();
    assert BlockOk(was[|blocks|]);
    SortedAppend(InternalBefore, block, p);
    assert BlockOk(block + [p]);
    forall i | 0 <= i < |blocks| ensures BlockOk(blocks[i]) {
      assert BlockOk(was[i]) && was[i] == blocks[i];
    }
    forall i, j | 0 <= i < j < |now| ensures InternalBefore(Last(now[i]), First(now[j])) {
      assert InternalBefore(Last(was[i]), First(was[j])) && First(now[j]) == First(was[j]) && now[i] == was[i];
    }
    forall i | 0 <= i < |separators|
      ensures |separators[i]| < TWO32 && !InternalBefore(separators[i], Last(now[i]))
        && SeparatesInternal(Last(now[i]), First(now[i + 1]), separators[i])
    {
      assert was[i] == now[i] && First(was[i + 1]) == First(now[i + 1]);
    }
  }

  /** A key after all others starts a new block. */
  lemma NewBlockStarts(blocks: seq<seq<Pair>>, separators: seq<Bytes>, p: Pair)
    requires BlocksOk(blocks) && SeparatorsOk(blocks, separators) && 8 <= |p.key| < TWO32
    requires blocks != [] ==> InternalBefore(Last(blocks[|blocks| - 1]), p.key)
    requires |separators| == |blocks|
    requires blocks != [] ==> SeparatesInternal(Last(blocks[|blocks| - 1]), p.key, separators[|blocks| - 1])
    ensures BlocksOk(blocks + [[p]]) && SeparatorsOk(blocks + [[p]], separators)
  {
    hide InternalBefore, SeparatesInternal;
    var now := blocks + [[p]];
    assert BlockOk([p]);
    forall i | 0 <= i < |blocks| ensures InternalBefore(Last(now[i]), p.key) {
      BlockOrder(blocks, i, |blocks| - 1);
      AtMostThen(Last(blocks[i]), Last(blocks[|blocks| - 1]), p.key);
    }
  }

  /** The index key for the last block. */
  lemma SeparatorAppended(blocks: seq<seq<Pair>>, separators: seq<Bytes>, separator: Bytes)
    requires BlocksOk(blocks) && SeparatorsOk(blocks, separators) && |separators| + 1 == |blocks|
    requires |separator| < TWO32 && !InternalBefore(separator, Last(blocks[|blocks| - 1]))
    ensures SeparatorsOk(blocks, separators + [separator])
    ensures separators != [] ==> InternalBefore(separators[|separators| - 1], separator)
  {
    hide InternalBefore, SeparatesInternal;
    if separators != [] {
      SeparatorsIncrease(blocks, separators + [separator], |separators| - 1, |separators|);
    }
  }

  lemma SeparatorIsSmall(start: Bytes, limit: Bytes, separator: Bytes)
    requires SeparatesInternal(start, limit, separator) && |start| < TWO32 && InternalBefore(start, limit)
    ensures |separator| < TWO32 && !InternalBefore(separator, start)
  {
    SeparatorFacts(start, limit, separator, start);
  }

  lemma SuccessorIsSmall(key: Bytes, r: Bytes)
    requires |key| < TWO32 && (r == key || (|r| < |key| && Before(User(key), User(r))))
    ensures |r| < TWO32 && !InternalBefore(r, key)
  {
    CompareIsRankOrder(User(key), User(r));
    CompareIsRankOrder(User(r), User(key));
  }

  lemma {:induction false} VarintIsShort(v: nat, n: nat)
    requires 0 < n && v < Power(128, n)
    ensures |Varint(v)| <= n
  {
    assert n == 1 ==> Power(128, n) == 128;
    if v >= 128 {
      VarintIsShort(v / 128, n - 1);
    }
  }

  lemma HandleIsShort(h: Handle)
    requires h.offset < TWO64 && h.size < TWO64
    ensures |EncodeHandle(h)| < TWO32
  {
    VarintPowers();
    VarintIsShort(h.offset, 10);
    VarintIsShort(h.size, 10);
  }

  lemma StoredLonger(extend: Checksum, file: Bytes, h: Handle, pairs: seq<Pair>, interval: nat, more: Bytes)
    requires StoredAt(extend, file, h, pairs, interval)
    ensures StoredAt(extend, file + more, h, pairs, interval)
  {
    hide BlockBytes, Stored;
    SitsLonger(file, h.offset, Stored(extend, BlockBytes(pairs, interval)), more);
  }

  ghost predicate LastIs(blocks: seq<seq<Pair>>, numEntries: nat, key: Bytes) {
    && (numEntries == 0 <==> blocks == [])
    && (blocks != [] ==> blocks[|blocks| - 1] != [] && key == Last(blocks[|blocks| - 1]))
  }

  lemma IndexPairsLonger(separators: seq<Bytes>, handles: seq<Handle>, h: Handle)
    requires |separators| <= |handles|
    ensures IndexPairs(separators, handles + [h]) == IndexPairs(separators, handles)
  {
  }

  class TableBuilder {
    const extend: Checksum
    const interval: nat
    const blockSize: nat
    const dataBlock: BlockBuilder
    const indexBlock: BlockBuilder
    const filterBlock: FilterBlockBuilder?
    var file: Bytes
    var lastKey: Bytes
    var numEntries: nat
    var pendingIndexEntry: bool
    var pendingHandle: Handle
    ghost var blocks: seq<seq<Pair>>    // the blocks written
    ghost var handles: seq<Handle>
    ghost var separators: seq<Bytes>    // the index keys so far

    /** The blocks written and the one being built. */
    ghost function AllBlocks(): seq<seq<Pair>>
      reads `blocks, dataBlock`pairs
    {
      Appended(blocks, dataBlock.pairs)
    }

    /** All entries added. */
    ghost function Entries(): seq<Pair>
      reads `blocks, dataBlock`pairs
    {
      Flat(blocks) + dataBlock.pairs
    }

    ghost predicate BuildersOk()
      reads dataBlock, indexBlock
    {
      && dataBlock != indexBlock
      && dataBlock.Valid() && !dataBlock.finished && dataBlock.interval == interval && dataBlock.before == InternalBefore
      && indexBlock.Valid() && !indexBlock.finished && indexBlock.interval == 1 && indexBlock.before == InternalBefore
    }

    ghost predicate Written()
      reads `file, `blocks, `handles
    {
      && |handles| == |blocks|
      && forall i | 0 <= i < |blocks| ::
           StoredAt(extend, file, handles[i], blocks[i], interval) && handles[i].offset + handles[i].size <= |file|
    }

    ghost predicate Indexed()
      reads `separators, `pendingIndexEntry, `blocks, `handles, dataBlock`pairs, indexBlock`pairs
    {
      && |separators| + (if pendingIndexEntry then 1 else 0) == |blocks| == |handles|
      && indexBlock.pairs == IndexPairs(separators, handles)
      && BlocksOk(AllBlocks()) && SeparatorsOk(AllBlocks(), separators)
    }

    ghost predicate Pending()
      reads this, dataBlock
    {
      && (pendingIndexEntry ==> dataBlock.pairs == [] && blocks != [] && |handles| == |blocks| && pendingHandle == handles[|handles| - 1])
      && (!pendingIndexEntry ==> dataBlock.pairs != [] || blocks == [])
    }

    /** The last key added. */
    ghost predicate LastOk()
      reads `numEntries, `lastKey, `blocks, dataBlock`pairs
    {
      LastIs(AllBlocks(), numEntries, lastKey)
    }

    /** The filter has the user keys of every block under the block's offset. */
    ghost predicate Filtered()
      reads `file, `blocks, `handles, dataBlock`pairs, filterBlock
    {
      filterBlock != null ==>
        && filterBlock.Valid() && filterBlock.blockOffset <= |file| && |handles| == |blocks|
        && (forall i, p | 0 <= i < |blocks| && p in blocks[i] :: Added(handles[i].offset, User(p.key)) in filterBlock.added)
        && (forall p <- dataBlock.pairs :: Added(|file|, User(p.key)) in filterBlock.added)
    }

    /** The filter expects the keys of the block that comes next in the file. */
    ghost predicate FilterOk()
      reads `file, `blocks, `handles, dataBlock`pairs, filterBlock
    {
      Filtered() && (filterBlock != null ==> filterBlock.blockOffset == |file|)
    }

    ghost predicate Valid()
      reads this, dataBlock, indexBlock
    {
      BuildersOk() && Written() && Indexed() && Pending() && LastOk()
    }

    constructor (extend: Checksum, interval: nat, blockSize: nat, policy: BloomFilterPolicy?)
      requires 0 < interval && (policy != null ==> 1 <= policy.k <= 30)
      ensures Valid() && FilterOk() && Entries() == [] && numEntries == 0
      ensures fresh(dataBlock) && fresh(indexBlock) && (filterBlock != null ==> fresh(filterBlock))
      ensures this.extend == extend && this.interval == interval && (filterBlock == null <==> policy == null)
    {
      hide InternalBefore, Transitive, BlocksOk, SeparatorsOk, FilterBlockBuilder.Valid, BlockBuilder.Valid, LastIs, IndexPairs, Sorted;
      InternalBeforeTransitive();
      EmptyIndex();
      this.extend, this.interval, this.blockSize := extend, interval, blockSize;
      dataBlock := new BlockBuilder(interval, InternalBefore);
      indexBlock := new BlockBuilder(1, InternalBefore);
      if policy != null {
        filterBlock := new FilterBlockBuilder(policy);
      } else {
        filterBlock := null;
      }
      file, lastKey, numEntries, pendingIndexEntry, pendingHandle := [], [], 0, false, Handle(0, 0);
      blocks, handles, separators := [], [], [];
    }

    static lemma EmptyIndex()
      ensures BlocksOk([]) && SeparatorsOk([], []) && LastIs([], 0, []) && IndexPairs([], []) == []
    {
    }

    /** Writes the index entry for the last block, now that its key is known. */
    method AddIndexEntry(separator: Bytes)
      requires Valid() && pendingIndexEntry && pendingHandle.offset < TWO64 && pendingHandle.size < TWO64
      requires |separator| < TWO32 && !InternalBefore(separator, lastKey)
      modifies this`pendingIndexEntry, this`separators, indexBlock
      ensures BuildersOk() && Written() && Indexed() && LastOk() && !pendingIndexEntry
      ensures old(Filtered()) ==> Filtered()
      ensures separators == old(separators) + [separator] && dataBlock.pairs == old(dataBlock.pairs)
    {
      hide StoredAt, Sorted, InternalBefore, BlockBuilder.Valid, BlocksOk, SeparatorsOk, Written, LastOk, EncodeHandle, Filtered;
      LastHandle();
      assert AllBlocks() == blocks;
      SeparatorAppended(blocks, separators, separator);
      HandleIsShort(pendingHandle);
      IndexLastKey();
      ghost var shared := indexBlock.Add(separator, EncodeHandle(pendingHandle));
      separators := separators + [separator];
      pendingIndexEntry := false;
    }

    lemma LastHandle()
      requires Valid() && pendingIndexEntry
      ensures handles != [] && pendingHandle == handles[|handles| - 1]
      ensures pendingHandle.offset + pendingHandle.size <= |file|
      ensures blocks != [] && lastKey == Last(blocks[|blocks| - 1])
    {
      hide StoredAt, Sorted, InternalBefore, BlockBuilder.Valid, BlocksOk, SeparatorsOk;
    }

    lemma IndexLastKey()
      requires BuildersOk() && |separators| <= |handles| && indexBlock.pairs == IndexPairs(separators, handles)
      ensures separators != [] ==> indexBlock.pairs != [] && indexBlock.lastKey == separators[|separators| - 1]
      ensures separators == [] ==> indexBlock.pairs == []
    {
    }

    /** Puts the block built so far into the file, as the next block. */
    method WriteBlock(block: BlockBuilder) returns (h: Handle)
      requires block.Valid() && !block.finished
      modifies block, this`file
      ensures block.Valid() && !block.finished && block.pairs == []
      ensures StoredAt(extend, file, h, old(block.pairs), block.interval) && h.offset + h.size <= |file|
      ensures h.offset == |old(file)|
      ensures file == old(file) + Stored(extend, BlockBytes(old(block.pairs), block.interval))
    {
      hide BlockBytes, BlockBuilder.Valid;
      var contents := block.Finish();
      h := Handle(|file|, |contents|);
      SitsLast(file, Stored(extend, contents));
      file := file + Stored(extend, contents);
      block.Reset();
    }

    /** Writes the block being built and remembers where. */
    method WriteDataBlock()
      requires BuildersOk() && Written() && Filtered()
      modifies this`file, this`pendingHandle, this`blocks, this`handles, dataBlock
      ensures BuildersOk() && Written() && Filtered() && dataBlock.pairs == []
      ensures |file| == |old(file)| + |BlockBytes(old(dataBlock.pairs), interval)| + TRAILER
      ensures blocks == old(blocks) + [old(dataBlock.pairs)] && handles == old(handles) + [pendingHandle]
    {
      hide StoredAt, Sorted, InternalBefore, BlockBuilder.Valid, FilterBlockBuilder.Valid, User, BlockBytes;
      ghost var before, block := file, dataBlock.pairs;
      pendingHandle := WriteBlock(dataBlock);
      forall i | 0 <= i < |blocks| ensures StoredAt(extend, file, handles[i], blocks[i], interval) {
        StoredLonger(extend, before, handles[i], blocks[i], interval, Stored(extend, BlockBytes(block, interval)));
      }
      blocks, handles := blocks + [block], handles + [pendingHandle];
    }

    method Flush()
      requires Valid() && FilterOk()
      modifies this`file, this`pendingIndexEntry, this`pendingHandle, this`blocks, this`handles, dataBlock, filterBlock
      ensures Valid() && FilterOk() && Entries() == old(Entries()) && dataBlock.pairs == []
      ensures |file| <= |old(file)| + |BlockBytes(old(dataBlock.pairs), interval)| + TRAILER
      ensures separators == old(separators) && numEntries == old(numEntries) && lastKey == old(lastKey)
      ensures blocks == old(blocks) + if old(dataBlock.pairs) == [] then [] else [old(dataBlock.pairs)]
    {
      hide StoredAt, Sorted, InternalBefore, BlockBuilder.Valid, BlocksOk, SeparatorsOk, Written, LastIs, IndexPairs, BlockBytes, Filtered,
           Flat, Indexed, LastOk, Pending;
      var empty := dataBlock.Empty();
      if empty {
        return;
      }
      FlushBlock();
      StartFilter();
    }

    /** The block being built becomes the last block written. */
    method FlushBlock()
      requires Valid() && Filtered() && dataBlock.pairs != []
      modifies this`file, this`pendingIndexEntry, this`pendingHandle, this`blocks, this`handles, dataBlock
      ensures Valid() && Filtered() && Entries() == old(Entries()) && dataBlock.pairs == []
      ensures |file| == |old(file)| + |BlockBytes(old(dataBlock.pairs), interval)| + TRAILER
      ensures blocks == old(blocks) + [old(dataBlock.pairs)]
    {
      hide StoredAt, Sorted, InternalBefore, BlockBuilder.Valid, BlocksOk, SeparatorsOk, Written, LastIs, IndexPairs, BlockBytes, Filtered,
           Flat;
      FlatAppended(blocks, dataBlock.pairs);
      ghost var all, before := AllBlocks(), handles;
      WriteDataBlock();
      IndexPairsLonger(separators, before, pendingHandle);
      pendingIndexEntry := true;
      assert AllBlocks() == all;
    }

    method StartFilter()
      requires Filtered()
      modifies filterBlock
      ensures FilterOk()
    {
      if filterBlock != null {
        filterBlock.StartBlock(|file|);
      }
    }

    method AddToFilter(user: Bytes)
      requires FilterOk()
      modifies filterBlock
      ensures FilterOk() && (filterBlock != null ==> Added(|file|, user) in filterBlock.added)
    {
      hide User, FilterBlockBuilder.Valid;
      if filterBlock != null {
        filterBlock.AddKey(user);
      }
    }

    /** The key fits between the index so far and what is to come. */
    ghost predicate Fits(key: Bytes)
      reads this, dataBlock
    {
      && 8 <= |key| < TWO32 && !pendingIndexEntry
      && (AllBlocks() != [] ==> InternalBefore(lastKey, key))
      && (dataBlock.pairs == [] && blocks != [] ==>
            |separators| == |blocks| && SeparatesInternal(lastKey, key, separators[|blocks| - 1]))
    }

    lemma AnyEntries()
      requires Valid()
      ensures numEntries == 0 <==> AllBlocks() == []
      ensures |separators| + (if pendingIndexEntry then 1 else 0) == |blocks|
    {
    }

    lemma LastKeyFits()
      requires Valid() && AllBlocks() != []
      ensures 8 <= |lastKey| < TWO32
    {
      hide Sorted, InternalBefore, StoredAt, SeparatesInternal, BlockBuilder.Valid;
      var last := AllBlocks()[|AllBlocks()| - 1];
      assert BlockOk(last) && last[|last| - 1] in last;
    }

    /** Adds the entry to the block being built. */
    method AddEntry(key: Bytes, value: Bytes)
      requires BuildersOk() && Written() && Indexed() && LastOk() && Fits(key) && |value| < TWO32
      requires FilterOk() && (filterBlock != null ==> Added(|file|, User(key)) in filterBlock.added)
      modifies this`lastKey, this`numEntries, dataBlock
      ensures Valid() && FilterOk() && dataBlock.pairs == old(dataBlock.pairs) + [Pair(key, value)]
      ensures numEntries == old(numEntries) + 1 && lastKey == key
    {
      hide StoredAt, Sorted, InternalBefore, BlockBuilder.Valid, BlocksOk, SeparatorsOk, SeparatesInternal, FilterBlockBuilder.Valid, User,
           Written, IndexPairs;
      EntryFits(Pair(key, value));
      DataLastKey();
      ghost var shared := dataBlock.Add(key, value);
      lastKey := key;
      numEntries := numEntries + 1;
    }

    lemma EntryFits(p: Pair)
      requires Indexed() && LastOk() && Fits(p.key)
      ensures BlocksOk(blocks + [dataBlock.pairs + [p]]) && SeparatorsOk(blocks + [dataBlock.pairs + [p]], separators)
      ensures dataBlock.pairs != [] ==> InternalBefore(Last(dataBlock.pairs), p.key)
    {
      hide InternalBefore, BlocksOk, SeparatorsOk, SeparatesInternal;
      var block := dataBlock.pairs;
      if block == [] {
        NewBlockStarts(blocks, separators, p);
        assert block + [p] == [p];
      } else {
        LastBlockGrows(blocks, block, separators, p);
      }
    }

    lemma DataLastKey()
      requires BuildersOk()
      ensures dataBlock.pairs != [] ==> dataBlock.lastKey == Last(dataBlock.pairs)
    {
    }

    /** Keys come in strictly increasing order. */
    method Add(key: Bytes, value: Bytes)
      requires Valid() && FilterOk() && |file| < TWO64 && 8 <= |key| < TWO32 && |value| < TWO32
      requires numEntries > 0 ==> InternalBefore(lastKey, key)
      modifies this, dataBlock, indexBlock, filterBlock
      ensures Valid() && FilterOk() && Entries() == old(Entries()) + [Pair(key, value)] && numEntries == old(numEntries) + 1 && lastKey == key
      ensures
        var open := old(dataBlock.pairs) + [Pair(key, value)];
        if |BlockBytes(open, interval)| >= blockSize then blocks == old(blocks) + [open] && dataBlock.pairs == []
        else blocks == old(blocks) && dataBlock.pairs == open
    {
      hide StoredAt, Sorted, InternalBefore, BlockBuilder.Valid, BlocksOk, SeparatorsOk, Written, Indexed, BuildersOk, LastOk, SeparatesInternal,
           Filtered, BlockBytes;
      FinishIndexBefore(key);
      AddToFilter(User(key));
      AddEntry(key, value);
      assert Entries() == old(Entries()) + [Pair(key, value)];
      FlushIfFull();
    }

    /** Adds the pending index entry, if any, now that the next key is known. */
    method FinishIndexBefore(key: Bytes)
      requires Valid() && |file| < TWO64 && 8 <= |key| < TWO32
      requires numEntries > 0 ==> InternalBefore(lastKey, key)
      modifies this`pendingIndexEntry, this`separators, indexBlock
      ensures BuildersOk() && Written() && Indexed() && LastOk() && Fits(key) && dataBlock.pairs == old(dataBlock.pairs)
    {
      hide StoredAt, Sorted, InternalBefore, BlockBuilder.Valid, BlocksOk, SeparatorsOk, Written, Indexed, BuildersOk, LastOk, SeparatesInternal, Filtered;
      AnyEntries();
      if pendingIndexEntry {
        LastKeyFits();
        ghost var d; var separator; separator, d := FindShortestInternalSeparator(lastKey, key);
        SeparatorIsSmall(lastKey, key, separator);
        SmallHandle();
        AddIndexEntry(separator);
      }
    }

    method FlushIfFull()
      requires Valid() && FilterOk()
      modifies this`file, this`pendingIndexEntry, this`pendingHandle, this`blocks, this`handles, dataBlock, filterBlock
      ensures Valid() && FilterOk() && Entries() == old(Entries()) && numEntries == old(numEntries) && lastKey == old(lastKey)
      ensures
        var open := old(dataBlock.pairs);
        if |BlockBytes(open, interval)| >= blockSize then blocks == old(blocks) + (if open == [] then [] else [open]) && dataBlock.pairs == []
        else blocks == old(blocks) && dataBlock.pairs == open
    {
      hide BlockBytes, BlockBuilder.Valid, Written, Indexed, LastOk, Pending, FilterOk;
      var estimatedBlockSize := dataBlock.CurrentSizeEstimate();
      if estimatedBlockSize >= blockSize {
        Flush();
      }
    }

    ghost predicate RawAt(h: Handle, contents: Bytes)
      reads `file
    {
      h.size == |contents| && Sits(file, h.offset, Stored(extend, contents))
    }

    /** The filter does not deny the user key of any entry of the table. */
    ghost predicate NoneDenied(hash: Hash, contents: Bytes)
      reads `blocks, `handles
    {
      && |handles| == |blocks|
      && forall i, p | 0 <= i < |blocks| && p in blocks[i] :: BlockMayMatch(hash, contents, handles[i].offset, User(p.key))
    }

    /** Writes what is left, the filter block, other blocks the table may have,
        and the index block. */
    method Finish(otherBlocks: Bytes) returns (index: Handle, filter: Option<Handle>, ghost filterContents: Bytes)
      requires Valid() && FilterOk()
      requires |file| + |BlockBytes(dataBlock.pairs, interval)| + TRAILER < TWO64
      modifies this, dataBlock, indexBlock, filterBlock
      ensures IsTable(extend, file, interval, index, blocks, handles, separators)
      ensures Flat(blocks) == old(Entries())
      ensures filter.Some? <==> filterBlock != null
      ensures filter.Some? ==> RawAt(filter.value, filterContents)
      ensures filter.Some? && |filterContents| < TWO32 ==> NoneDenied(filterBlock.policy.hash, filterContents)
    {
      hide StoredAt, Sorted, InternalBefore, BlockBuilder.Valid, BlocksOk, SeparatorsOk, BuildersOk, Indexed, LastOk, Flat,
           Filtered, FilterOk, NoneDenied, Stored, IsTable;
      Flush();
      FlatOnly();
      SmallHandle();
      filter, filterContents := WriteFilter();
      AppendTo(otherBlocks, filter, filterContents);
      FinishIndex();
      IntervalIsPositive();
      index := WriteIndex(filter, filterContents);
    }

    /** Adds the last index entry, if it is pending. */
    method FinishIndex()
      requires Valid() && (pendingIndexEntry ==> pendingHandle.offset < TWO64 && pendingHandle.size < TWO64)
      modifies this`pendingIndexEntry, this`separators, indexBlock
      ensures BuildersOk() && Written() && Indexed() && !pendingIndexEntry && dataBlock.pairs == old(dataBlock.pairs)
    {
      hide StoredAt, Sorted, InternalBefore, BlockBuilder.Valid, BlocksOk, SeparatorsOk, BuildersOk, Indexed, LastOk, Flat, Filtered, Written;
      if pendingIndexEntry {
        LastHandle();
        LastKeyFits();
        ghost var d; var separator; separator, d := FindShortInternalSuccessor(lastKey);
        SuccessorIsSmall(lastKey, separator);
        AddIndexEntry(separator);
      }
    }

    lemma SmallHandle()
      requires Valid() && |file| < TWO64
      ensures pendingIndexEntry ==> pendingHandle.offset < TWO64 && pendingHandle.size < TWO64
    {
      if pendingIndexEntry {
        LastHandle();
      }
    }

    /** Writes the filter block, if there is a filter. */
    method WriteFilter() returns (filter: Option<Handle>, ghost contents: Bytes)
      requires Valid() && FilterOk() && dataBlock.pairs == []
      modifies this`file, filterBlock
      ensures Valid() && (filter.Some? <==> filterBlock != null)
      ensures filter.Some? ==> RawAt(filter.value, contents)
      ensures filter.Some? && |contents| < TWO32 ==> NoneDenied(filterBlock.policy.hash, contents)
    {
      hide StoredAt, BuildersOk, Indexed, LastOk, BlockMayMatch, User, FilterBlockBuilder.Valid, Stored;
      filter, contents := None, [];
      if filterBlock != null {
        var bytes := filterBlock.Finish();
        contents := bytes;
        filter := Some(Handle(|file|, |bytes|));
        SitsLast(file, Stored(extend, bytes));
        FilterIsSmall(contents);
        AppendOther(Stored(extend, bytes));
      }
    }

    lemma FilterIsSmall(contents: Bytes)
      requires filterBlock != null && contents == FilterBlockBytes(filterBlock.filters)
      ensures |Join(filterBlock.filters)| <= |contents|
    {
    }

    /** Appends other blocks. */
    method AppendTo(otherBlocks: Bytes, filter: Option<Handle>, ghost contents: Bytes)
      requires Valid() && (filter.Some? ==> RawAt(filter.value, contents))
      modifies this`file
      ensures Valid() && (filter.Some? ==> RawAt(filter.value, contents))
    {
      hide StoredAt, BuildersOk, Indexed, LastOk, Stored, Written;
      if filter.Some? {
        SitsLonger(file, filter.value.offset, Stored(extend, contents), otherBlocks);
      }
      AppendOther(otherBlocks);
    }

    lemma IntervalIsPositive()
      requires BuildersOk()
      ensures 0 < interval
    {
    }

    lemma FlatOnly()
      ensures dataBlock.pairs == [] ==> Entries() == Flat(blocks)
    {
    }

    method AppendOther(otherBlocks: Bytes)
      requires Valid()
      modifies this`file
      ensures Valid() && file == old(file) + otherBlocks
    {
      hide StoredAt, Sorted, InternalBefore, BlockBuilder.Valid, BlocksOk, SeparatorsOk, BuildersOk, Indexed, LastOk;
      ghost var before := file;
      file := file + otherBlocks;
      forall i | 0 <= i < |blocks| ensures StoredAt(extend, file, handles[i], blocks[i], interval) {
        StoredLonger(extend, before, handles[i], blocks[i], interval, otherBlocks);
      }
    }

    method WriteIndex(filter: Option<Handle>, ghost contents: Bytes) returns (index: Handle)
      requires BuildersOk() && Written() && Indexed() && !pendingIndexEntry && dataBlock.pairs == [] && 0 < interval
      requires filter.Some? ==> RawAt(filter.value, contents)
      modifies this`file, indexBlock
      ensures IsTable(extend, file, interval, index, blocks, handles, separators)
      ensures filter.Some? ==> RawAt(filter.value, contents)
    {
      hide StoredAt, Sorted, InternalBefore, BlockBuilder.Valid, BlocksOk, SeparatorsOk, Stored, BlockBytes;
      assert AllBlocks() == blocks;
      ghost var before, pairs := file, indexBlock.pairs;
      if filter.Some? {
        SitsLonger(file, filter.value.offset, Stored(extend, contents), Stored(extend, BlockBytes(pairs, 1)));
      }
      index := WriteBlock(indexBlock);
      forall i | 0 <= i < |blocks| ensures StoredAt(extend, file, handles[i], blocks[i], interval) {
        StoredLonger(extend, before, handles[i], blocks[i], interval, Stored(extend, BlockBytes(pairs, 1)));
      }
    }
  }
}
