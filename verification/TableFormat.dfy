/** Blocks in a table file, and what an index over them must satisfy
    (table/format.cc, table/table_builder.cc, table/table.cc). */
module TableFormat {
  import opened Keys
  import opened Coding
  import opened Crc
  import opened InternalKeys
  import opened BlockFormat
  import opened Blocks

  // ----- Blocks in a file -----

  datatype Handle = Handle(offset: nat, size: nat)

  function EncodeHandle(h: Handle): Bytes {
    Varint(h.offset) + Varint(h.size)
  }

  function DecodeHandle(input: Bytes): Option<Handle> {
    var offset := GetVarint64(input);
    if offset.None? then None else
    var size := GetVarint64(offset.value.rest);
    if size.None? then None else Some(Handle(offset.value.value, size.value.value))
  }

  lemma HandleRoundTrip(h: Handle)
    requires h.offset < TWO64 && h.size < TWO64
    ensures DecodeHandle(EncodeHandle(h)) == Some(h)
  {
    hide Varint, GetVarint64;
    GetsVarint64(h.offset, Varint(h.size));
    assert Varint(h.size) + [] == Varint(h.size);
    GetsVarint64(h.size, []);
  }

  const NO_COMPRESSION: byte := 0
  const TRAILER: nat := 5

  /** A block as it is stored: the contents, the type, and a checksum of both. */
  function Stored(extend: Checksum, contents: Bytes): (r: Bytes)
    ensures |r| == |contents| + TRAILER
  {
    contents + ([NO_COMPRESSION] + Fixed(Mask(extend(extend(0, contents), [NO_COMPRESSION])), 4))
  }

  function ReadBlock(extend: Checksum, verify: bool, file: Bytes, h: Handle): Option<Bytes> {
    if |file| < h.offset + h.size + TRAILER then None
    else
      var data := file[h.offset..h.offset + h.size + TRAILER];
      if verify && extend(0, data[..h.size + 1]) != Unmask(Unfixed4(data[h.size + 1..])) then None
      else if data[h.size] != NO_COMPRESSION then None
      else Some(data[..h.size])
  }

  lemma BlockRoundTrip(extend: Checksum, verify: bool, file: Bytes, h: Handle, contents: Bytes)
    requires IsChecksum(extend) && h.size == |contents| && Sits(file, h.offset, Stored(extend, contents))
    ensures ReadBlock(extend, verify, file, h) == Some(contents)
  {
    var data := file[h.offset..h.offset + h.size + TRAILER];
    var crc := extend(extend(0, contents), [NO_COMPRESSION]);
    assert data[..h.size + 1] == contents + [NO_COMPRESSION];
    assert data[h.size + 1..] == Fixed(Mask(crc), 4);
    assert data[..h.size] == contents;
    StoredChecksum(crc);
  }

  // ----- The index -----

  lemma InternalBeforeTransitive()
    ensures Transitive(InternalBefore)
  {
    forall a, b, c | InternalBefore(a, b) && InternalBefore(b, c) ensures InternalBefore(a, c) {
      InternalBeforeIsOrder(a, b, c);
    }
  }

  ghost predicate BlockOk(block: seq<Pair>) {
    && block != [] && Sorted(InternalBefore, block)
    && forall p <- block :: 8 <= |p.key| < TWO32
  }

  ghost function First(block: seq<Pair>): Bytes
    requires block != []
  {
    block[0].key
  }

  ghost function Last(block: seq<Pair>): Bytes
    requires block != []
  {
    block[|block| - 1].key
  }

  /** Non-empty sorted blocks, each before the next. */
  ghost predicate BlocksOk(blocks: seq<seq<Pair>>) {
    && (forall i | 0 <= i < |blocks| :: BlockOk(blocks[i]))
    && forall i, j | 0 <= i < j < |blocks| :: InternalBefore(Last(blocks[i]), First(blocks[j]))
  }

  /** The index keys, each between its block and the next one. */
  ghost predicate SeparatorsOk(blocks: seq<seq<Pair>>, separators: seq<Bytes>)
    requires BlocksOk(blocks)
  {
    && |separators| <= |blocks|
    && forall i | 0 <= i < |separators| ::
         && |separators[i]| < TWO32 && !InternalBefore(separators[i], Last(blocks[i]))
         && (i + 1 < |blocks| ==> SeparatesInternal(Last(blocks[i]), First(blocks[i + 1]), separators[i]))
  }

  lemma InBlock(block: seq<Pair>, q: nat)
    requires BlockOk(block) && q < |block|
    ensures q == 0 || InternalBefore(First(block), block[q].key)
    ensures q == |block| - 1 || InternalBefore(block[q].key, Last(block))
    ensures !InternalBefore(block[q].key, First(block)) && !InternalBefore(Last(block), block[q].key)
  {
    InternalBeforeIsOrder(First(block), block[q].key, block[q].key);
    InternalBeforeIsOrder(Last(block), block[q].key, block[q].key);
  }

  /** The weaker order is transitive too. */
  lemma AtMostThen(a: Bytes, b: Bytes, c: Bytes)
    ensures !InternalBefore(b, a) && InternalBefore(b, c) ==> InternalBefore(a, c)
    ensures InternalBefore(a, b) && !InternalBefore(c, b) ==> InternalBefore(a, c)
    ensures !InternalBefore(b, a) && !InternalBefore(c, b) ==> !InternalBefore(c, a)
  {
    CompareIsRankOrder(User(a), User(b));
    CompareIsRankOrder(User(b), User(a));
    CompareIsRankOrder(User(b), User(c));
    CompareIsRankOrder(User(c), User(b));
    CompareIsRankOrder(User(a), User(c));
    CompareIsRankOrder(User(c), User(a));
  }

  /** Each index key is at or after all keys of its block and the blocks before
      it, and before all keys of later blocks. */
  lemma IndexKeySeparates(blocks: seq<seq<Pair>>, separators: seq<Bytes>, i: nat, j: nat, q: nat)
    requires BlocksOk(blocks) && SeparatorsOk(blocks, separators)
    requires i < |separators| && j < |blocks| && q < |blocks[j]|
    ensures j <= i ==> !InternalBefore(separators[i], blocks[j][q].key)
    ensures i < j ==> InternalBefore(separators[i], blocks[j][q].key)
  {
    hide InternalBefore, Sorted, SeparatesInternal;
    InBlock(blocks[j], q);
    var key := blocks[j][q].key;
    if j <= i {
      BlockOrder(blocks, j, i);
      AtMostThen(key, Last(blocks[j]), Last(blocks[i]));
      AtMostThen(key, Last(blocks[i]), separators[i]);
    } else {
      SeparatorFacts(Last(blocks[i]), First(blocks[i + 1]), separators[i], key);
      BlockOrder(blocks, i + 1, j);
      AtMostThen(First(blocks[i + 1]), First(blocks[j]), key);
      AtMostThen(separators[i], First(blocks[i + 1]), key);
    }
  }

  lemma BlockOrder(blocks: seq<seq<Pair>>, i: nat, j: nat)
    requires BlocksOk(blocks) && i <= j < |blocks|
    ensures !InternalBefore(Last(blocks[j]), Last(blocks[i])) && !InternalBefore(First(blocks[j]), First(blocks[i]))
  {
    hide InternalBefore;
    assert BlockOk(blocks[i]) && BlockOk(blocks[j]);
    InBlock(blocks[i], 0);
    InBlock(blocks[j], 0);
    InBlock(blocks[i], |blocks[i]| - 1);
    InBlock(blocks[j], |blocks[j]| - 1);
    if i < j {
      var a, b, c, d := First(blocks[i]), Last(blocks[i]), First(blocks[j]), Last(blocks[j]);
      AtMostThen(b, c, d);
      AtMostThen(a, b, c);
      InternalBeforeIsOrder(b, d, d);
      InternalBeforeIsOrder(a, c, c);
      InternalBeforeIsOrder(b, c, c);
    }
  }

  /** Index keys strictly increase. */
  lemma SeparatorsIncrease(blocks: seq<seq<Pair>>, separators: seq<Bytes>, i: nat, j: nat)
    requires BlocksOk(blocks) && SeparatorsOk(blocks, separators) && i < j < |separators|
    ensures InternalBefore(separators[i], separators[j])
  {
    hide InternalBefore, Sorted;
    assert BlockOk(blocks[j]);
    var q := |blocks[j]| - 1;
    IndexKeySeparates(blocks, separators, i, j, q);
    IndexKeySeparates(blocks, separators, j, j, q);
    AtMostThen(separators[i], Last(blocks[j]), separators[j]);
  }

  // ----- A finished table -----

  function IndexPairs(separators: seq<Bytes>, handles: seq<Handle>): (r: seq<Pair>)
    requires |separators| <= |handles|
    ensures |r| == |separators|
    ensures forall i | 0 <= i < |r| :: r[i] == Pair(separators[i], EncodeHandle(handles[i]))
  {
    seq(|separators|, i requires 0 <= i < |separators| => Pair(separators[i], EncodeHandle(handles[i])))
  }

  ghost predicate StoredAt(extend: Checksum, file: Bytes, h: Handle, pairs: seq<Pair>, interval: nat) {
    h.size == |BlockBytes(pairs, interval)| && Sits(file, h.offset, Stored(extend, BlockBytes(pairs, interval)))
  }

  /** The file holds the blocks and an index over them. */
  ghost predicate IsTable(extend: Checksum, file: Bytes, interval: nat, index: Handle,
                          blocks: seq<seq<Pair>>, handles: seq<Handle>, separators: seq<Bytes>) {
    && 0 < interval && |handles| == |separators| == |blocks|
    && BlocksOk(blocks) && SeparatorsOk(blocks, separators)
    && (forall i | 0 <= i < |blocks| :: StoredAt(extend, file, handles[i], blocks[i], interval))
    && StoredAt(extend, file, index, IndexPairs(separators, handles), 1)
  }

  // ----- Lookups -----

  /** Entry `q` of block `b` is the first of the table at or after `k`. */
  ghost predicate IsFirstAt(blocks: seq<seq<Pair>>, k: Bytes, b: nat, q: nat) {
    && b < |blocks| && q < |blocks[b]| && !InternalBefore(blocks[b][q].key, k)
    && forall j, i | 0 <= j < |blocks| && 0 <= i < |blocks[j]| && (j < b || (j == b && i < q)) ::
         InternalBefore(blocks[j][i].key, k)
  }

  /** `b` is the block that a search for `k` in the index leads to. */
  ghost predicate IndexFinds(separators: seq<Bytes>, k: Bytes, b: nat) {
    && b <= |separators|
    && (forall i | 0 <= i < b :: InternalBefore(separators[i], k))
    && (b < |separators| ==> !InternalBefore(separators[b], k))
  }

  lemma BeforeIndexed(blocks: seq<seq<Pair>>, separators: seq<Bytes>, k: Bytes, b: nat, j: nat, i: nat)
    requires BlocksOk(blocks) && SeparatorsOk(blocks, separators) && |separators| == |blocks|
    requires IndexFinds(separators, k, b) && j < b && i < |blocks[j]|
    ensures InternalBefore(blocks[j][i].key, k)
  {
    hide InternalBefore;
    IndexKeySeparates(blocks, separators, j, j, i);
    AtMostThen(blocks[j][i].key, separators[j], k);
  }

  /** Searching the index and then one block finds the first entry at or after
      `k` if the block has one. */
  lemma FoundInBlock(blocks: seq<seq<Pair>>, separators: seq<Bytes>, k: Bytes, b: nat, q: nat)
    requires BlocksOk(blocks) && SeparatorsOk(blocks, separators) && |separators| == |blocks|
    requires IndexFinds(separators, k, b) && b < |blocks| && q < |blocks[b]|
    requires !InternalBefore(blocks[b][q].key, k) && forall i | 0 <= i < q :: InternalBefore(blocks[b][i].key, k)
    ensures IsFirstAt(blocks, k, b, q)
  {
    hide InternalBefore, BlocksOk, SeparatorsOk, IndexFinds;
    forall j, i | 0 <= j < |blocks| && 0 <= i < |blocks[j]| && (j < b || (j == b && i < q))
      ensures InternalBefore(blocks[j][i].key, k)
    {
      if j < b {
        BeforeIndexed(blocks, separators, k, b, j, i);
      }
    }
  }

  /** Although a shortened index key may lead to a block all of whose keys come
      before `k`, the first entry at or after `k` has the user key of `k` only
      if it is in that block. */
  lemma SameUserIsInBlock(blocks: seq<seq<Pair>>, separators: seq<Bytes>, k: Bytes, b: nat, c: nat, q: nat)
    requires BlocksOk(blocks) && SeparatorsOk(blocks, separators) && |separators| == |blocks|
    requires IndexFinds(separators, k, b) && IsFirstAt(blocks, k, c, q) && User(blocks[c][q].key) == User(k)
    ensures c == b
  {
    hide InternalBefore, BlocksOk, SeparatorsOk, IsFirstAt;
    FirstFacts(blocks, k, c, q);
    if c < b {
      BeforeIndexed(blocks, separators, k, b, c, q);
    } else if b < c {
      IndexedBlock(blocks, separators, k, b, c, q);
    }
  }

  lemma FirstFacts(blocks: seq<seq<Pair>>, k: Bytes, c: nat, q: nat)
    requires IsFirstAt(blocks, k, c, q)
    ensures c < |blocks| && q < |blocks[c]| && !InternalBefore(blocks[c][q].key, k)
  {
  }

  lemma IndexedBlock(blocks: seq<seq<Pair>>, separators: seq<Bytes>, k: Bytes, b: nat, c: nat, q: nat)
    requires BlocksOk(blocks) && SeparatorsOk(blocks, separators) && |separators| == |blocks|
    requires IndexFinds(separators, k, b) && IsFirstAt(blocks, k, c, q) && b < c
    ensures User(blocks[c][q].key) != User(k)
  {
    hide InternalBefore, SeparatesInternal, Sorted;
    var next := blocks[b + 1];
    assert BlockOk(blocks[b]) && BlockOk(next);
    assert InternalBefore(Last(blocks[b]), k);
    SeparatorFacts(Last(blocks[b]), First(next), separators[b], k);
    AfterSeparator(First(next), separators[b], k);
    assert First(next) == blocks[b + 1][0].key;
    assert c == b + 1 && q == 0;
  }

  lemma AfterSeparator(first: Bytes, separator: Bytes, k: Bytes)
    requires InternalBefore(separator, first) && !InternalBefore(separator, k)
    ensures !InternalBefore(first, k)
  {
    InternalBeforeIsOrder(separator, first, k);
  }
}
