/** The stored formats in figures: the bytes of write batches, version edits
    and table blocks with every number written out, and what a reader makes of
    bytes that no writer writes (db/write_batch.cc, db/version_edit.cc,
    table/format.cc). */
module Layouts {
  import opened Keys
  import opened Coding
  import opened Crc
  import opened WriteBatches
  import opened EditCodec
  import opened TableFormat

  // ----- Integers and strings that are cut short -----

  lemma {:induction false} TornVarint(v: nat, k: nat, n: nat)
    requires k < |Varint(v)|
    ensures ParseVarint(Varint(v)[..k], n) == None
  {
    if 0 < k && 0 < n && 128 <= v {
      TornVarint(v / 128, k - 1, n - 1);
      assert Varint(v)[..k][1..] == Varint(v / 128)[..k - 1];
    }
  }

  lemma TornSlice(s: Bytes, k: nat)
    requires |s| < TWO32 && k < |LengthPrefixed(s)|
    ensures GetLengthPrefixedSlice(LengthPrefixed(s)[..k]) == None
  {
    hide Varint, ParseVarint, GetVarint32;
    var head := Varint(|s|);
    if k < |head| {
      TornVarint(|s|, k, 5);
      assert LengthPrefixed(s)[..k] == head[..k];
      NoVarint32(head[..k]);
    } else {
      GetsVarint32(|s|, s[..k - |head|]);
      assert LengthPrefixed(s)[..k] == head + s[..k - |head|];
    }
  }

  lemma NoVarint32(input: Bytes)
    requires ParseVarint(input, 5) == None
    ensures GetVarint32(input) == None
  {
  }

  // ----- Write batches -----

  /** Eight bytes of number, four of count, and then each operation: 1 with key
      and value for a put, and 0 with the key for a deletion. */
  lemma BatchIs(sequence: nat, ops: seq<Op>)
    ensures BatchBytes(sequence, ops) == Digits(sequence) + Digits(sequence / 4294967296) + Digits(|ops|) + OpsBytes(ops)
  {
    hide Fixed;
    FixedIs(sequence);
    FixedIs(sequence / 4294967296);
    FixedIs(|ops|);
  }

  lemma OperationIs(ops: seq<Op>, key: Bytes, value: Bytes)
    ensures OpsBytes([]) == []
    ensures OpsBytes(ops + [Op.Put(key, value)]) == OpsBytes(ops) + ([1] + Varint(|key|) + key + Varint(|value|) + value)
    ensures OpsBytes(ops + [Op.Delete(key)]) == OpsBytes(ops) + ([0] + Varint(|key|) + key)
  {
    hide OpBytes;
    OpsConcat(ops, [Op.Put(key, value)]);
    OneOp(Op.Put(key, value));
    OpsConcat(ops, [Op.Delete(key)]);
    OneOp(Op.Delete(key));
    OpIs(key, value);
  }

  lemma OpIs(key: Bytes, value: Bytes)
    ensures OpBytes(Op.Put(key, value)) == [1] + Varint(|key|) + key + Varint(|value|) + value
    ensures OpBytes(Op.Delete(key)) == [0] + Varint(|key|) + key
  {
    hide Varint;
    Associative([1], Varint(|key|), key);
    Associative([1] + LengthPrefixed(key), Varint(|value|), value);
    Associative([0], Varint(|key|), key);
  }

  /** Operations are applied up to the first that cannot be read. */
  lemma {:induction false} ParsesUpTo(ops: seq<Op>, rest: Bytes)
    requires forall op <- ops :: Fits(op)
    ensures ParseOps(OpsBytes(ops) + rest) == Batch(ops + ParseOps(rest).ops, ParseOps(rest).complete)
  {
    hide OpBytes, ParseOp;
    if ops == [] {
      assert [] + rest == rest;
    } else {
      var more := OpsBytes(ops[1..]) + rest;
      assert OpsBytes(ops) + rest == OpBytes(ops[0]) + more;
      ParsesOp(ops[0], more);
      ParsesUpTo(ops[1..], rest);
      assert ops + ParseOps(rest).ops == [ops[0]] + (ops[1..] + ParseOps(rest).ops);
    }
  }

  /** Bytes that start with no tag, or with an operation that is cut short, end
      the batch. */
  lemma RefusesOp(rest: Bytes, op: Op, n: nat)
    requires Fits(op) && 0 < n < |OpBytes(op)|
    ensures rest != [] && 2 <= rest[0] ==> ParseOps(rest) == Batch([], false)
    ensures ParseOps(OpBytes(op)[..n]) == Batch([], false)
  {
    hide LengthPrefixed, GetLengthPrefixedSlice;
    var torn := OpBytes(op)[..n];
    var key := LengthPrefixed(op.key);
    if op.Put? && |key| <= n - 1 {
      var left := n - 1 - |key|;
      assert torn[1..] == key + LengthPrefixed(op.value)[..left];
      GetsLengthPrefixed(op.key, LengthPrefixed(op.value)[..left]);
      TornSlice(op.value, left);
    } else {
      assert torn[1..] == key[..n - 1];
      TornSlice(op.key, n - 1);
    }
  }

  // ----- Version edits -----

  /** The items of an edit with their tags. */
  lemma ItemIs(name: Bytes, n: nat, level: nat)
    ensures ItemBytes(Comparator(name)) == [1] + (Varint(|name|) + name)
    ensures ItemBytes(LogNumber(n)) == [2] + Varint(n) && ItemBytes(PrevLogNumber(n)) == [9] + Varint(n)
    ensures ItemBytes(NextFile(n)) == [3] + Varint(n) && ItemBytes(EditCodec.LastSequence(n)) == [4] + Varint(n)
    ensures ItemBytes(CompactPointer(level, name)) == [5] + (Varint(level) + (Varint(|name|) + name))
    ensures ItemBytes(DeletedFile(level, n)) == [6] + (Varint(level) + Varint(n))
  {
    OneByte();
    hide Varint;
  }

  lemma NewFileIs(level: nat, number: nat, size: nat, smallest: Bytes, largest: Bytes)
    ensures ItemBytes(NewFile(level, Meta(number, size, smallest, largest)))
         == [7] + (Varint(level) + (Varint(number) + (Varint(size)
            + ((Varint(|smallest|) + smallest) + (Varint(|largest|) + largest)))))
  {
    OneByte();
    hide Varint;
  }

  lemma OneByte()
    ensures forall t: nat | t < 128 :: Varint(t) == [t]
  {
  }

  /** The order of the items: the five numbers and names that are there, the
      pointers, the deleted files and the new files. */
  lemma EditIs(e: VersionEdit)
    ensures
      EditBytes(e)
      == (if e.comparator.Some? then ItemBytes(Comparator(e.comparator.value)) else [])
         + (if e.logNumber.Some? then ItemBytes(LogNumber(e.logNumber.value)) else [])
         + (if e.prevLogNumber.Some? then ItemBytes(PrevLogNumber(e.prevLogNumber.value)) else [])
         + (if e.nextFile.Some? then ItemBytes(NextFile(e.nextFile.value)) else [])
         + (if e.lastSequence.Some? then ItemBytes(EditCodec.LastSequence(e.lastSequence.value)) else [])
         + (ItemsBytes(Pointers(e.compactPointers)) + (ItemsBytes(Deletions(e.deleted)) + ItemsBytes(Additions(e.newFiles))))
  {
    hide ItemBytes, ItemsBytes;
    var p, d, a := Pointers(e.compactPointers), Deletions(e.deleted), Additions(e.newFiles);
    ItemsConcat(Header(e), p + (d + a));
    ItemsConcat(p, d + a);
    ItemsConcat(d, a);
    HeaderIs(e);
  }

  lemma HeaderIs(e: VersionEdit)
    ensures
      ItemsBytes(Header(e))
      == (if e.comparator.Some? then ItemBytes(Comparator(e.comparator.value)) else [])
         + (if e.logNumber.Some? then ItemBytes(LogNumber(e.logNumber.value)) else [])
         + (if e.prevLogNumber.Some? then ItemBytes(PrevLogNumber(e.prevLogNumber.value)) else [])
         + (if e.nextFile.Some? then ItemBytes(NextFile(e.nextFile.value)) else [])
         + (if e.lastSequence.Some? then ItemBytes(EditCodec.LastSequence(e.lastSequence.value)) else [])
  {
    hide ItemBytes, ItemsBytes;
    var a := if e.comparator.Some? then [Comparator(e.comparator.value)] else [];
    var b := if e.logNumber.Some? then [LogNumber(e.logNumber.value)] else [];
    var c := if e.prevLogNumber.Some? then [PrevLogNumber(e.prevLogNumber.value)] else [];
    var d := if e.nextFile.Some? then [NextFile(e.nextFile.value)] else [];
    var f := if e.lastSequence.Some? then [EditCodec.LastSequence(e.lastSequence.value)] else [];
    ItemsConcat(a + b + c + d, f);
    ItemsConcat(a + b + c, d);
    ItemsConcat(a + b, c);
    ItemsConcat(a, b);
    OneItem(a);
    OneItem(b);
    OneItem(c);
    OneItem(d);
    OneItem(f);
  }

  lemma OneItem(items: seq<Item>)
    requires |items| <= 1
    ensures ItemsBytes(items) == if items == [] then [] else ItemBytes(items[0])
  {
    if items != [] {
      assert items[1..] == [];
      assert ItemsBytes(items[1..]) == [];
      assert ItemBytes(items[0]) + [] == ItemBytes(items[0]);
    }
  }

  lemma ListsAre(ps: seq<(nat, Bytes)>, ds: seq<(nat, nat)>, fs: seq<(nat, Meta)>, p: (nat, Bytes), d: (nat, nat), f: (nat, Meta))
    ensures ItemsBytes(Pointers([])) == ItemsBytes(Deletions([])) == ItemsBytes(Additions([])) == []
    ensures ItemsBytes(Pointers(ps + [p])) == ItemsBytes(Pointers(ps)) + ItemBytes(CompactPointer(p.0, p.1))
    ensures ItemsBytes(Deletions(ds + [d])) == ItemsBytes(Deletions(ds)) + ItemBytes(DeletedFile(d.0, d.1))
    ensures ItemsBytes(Additions(fs + [f])) == ItemsBytes(Additions(fs)) + ItemBytes(NewFile(f.0, f.1))
  {
    hide ItemBytes;
    assert Pointers(ps + [p]) == Pointers(ps) + [CompactPointer(p.0, p.1)];
    assert Deletions(ds + [d]) == Deletions(ds) + [DeletedFile(d.0, d.1)];
    assert Additions(fs + [f]) == Additions(fs) + [NewFile(f.0, f.1)];
    ItemAppended(Pointers(ps), CompactPointer(p.0, p.1));
    ItemAppended(Deletions(ds), DeletedFile(d.0, d.1));
    ItemAppended(Additions(fs), NewFile(f.0, f.1));
  }

  /** Items in any order are taken one by one, up to what cannot be read. */
  lemma {:induction false} DecodesUpTo(e: VersionEdit, items: seq<Item>, rest: Bytes)
    requires forall item <- items :: ItemFits(item)
    ensures Decode(e, ItemsBytes(items) + rest) == Decode(ApplyItems(e, items), rest)
    decreases |items|
  {
    hide ItemBytes, ParseItem, ItemFits, ApplyItem;
    if items == [] {
      assert [] + rest == rest;
    } else {
      var more := ItemsBytes(items[1..]) + rest;
      assert ItemsBytes(items) + rest == ItemBytes(items[0]) + more;
      ReadsItem(items[0], more);
      DecodesUpTo(ApplyItem(e, items[0]), items[1..], rest);
    }
  }

  /** Tags that no item has, and levels that there are not, are refused. */
  lemma RefusesItem(e: VersionEdit, tag: nat, level: nat, rest: Bytes)
    requires tag < TWO32 && 7 <= level < TWO32
    ensures tag !in [1, 2, 3, 4, 5, 6, 7, 9] ==> Decode(e, Varint(tag) + rest) == Corrupt("unknown tag")
    ensures Decode(e, [5] + (Varint(level) + rest)) == Corrupt("compaction pointer")
    ensures Decode(e, [6] + (Varint(level) + rest)) == Corrupt("deleted file")
    ensures Decode(e, [7] + (Varint(level) + rest)) == Corrupt("new-file entry")
  {
    hide Varint, GetVarint32;
    GetsVarint32(tag, rest);
    GetsVarint32(level, rest);
    assert GetLevel(Varint(level) + rest) == None;
    forall t: nat | t < 128 ensures GetVarint32([t] + (Varint(level) + rest)) == Some(Parsed(t, Varint(level) + rest)) {
      TagRead(t, Varint(level) + rest);
    }
  }

  lemma TagRead(t: nat, rest: Bytes)
    requires t < 128
    ensures GetVarint32([t] + rest) == Some(Parsed(t, rest))
  {
    OneByte();
    hide Varint;
    GetsVarint32(t, rest);
  }

  /** An item that is cut short behind its tag is refused by the name of its kind. */
  lemma RefusesTornItem(e: VersionEdit, tag: nat)
    requires tag < 128
    ensures
      Decode(e, [tag])
      == Corrupt(match tag
                 case 1 => "comparator name"
                 case 2 => "log number"
                 case 3 => "next file number"
                 case 4 => "last sequence number"
                 case 5 => "compaction pointer"
                 case 6 => "deleted file"
                 case 7 => "new-file entry"
                 case 9 => "previous log number"
                 case _ => "unknown tag")
  {
    TagRead(tag, []);
    assert [tag] + [] == [tag];
    NothingThere();
    hide GetVarint32, GetVarint64, GetLengthPrefixedSlice;
  }

  lemma NothingThere()
    ensures GetVarint32([]) == None && GetVarint64([]) == None && GetLengthPrefixedSlice([]) == None
  {
  }

  /** The deleted files are a set. */
  lemma {:induction false} InsertsPair(ds: seq<(nat, nat)>, d: (nat, nat), x: (nat, nat))
    ensures x in InsertPair(ds, d) <==> x in ds || x == d
  {
    if ds != [] && ds[0] != d && !PairBefore(d, ds[0]) {
      InsertsPair(ds[1..], d, x);
    }
  }

  // ----- Blocks of a table file -----

  /** The contents, the type 0, and the checksum of both. */
  lemma StoredIs(extend: Checksum, contents: Bytes, crc: Word)
    requires crc == extend(extend(0, contents), [0])
    ensures Stored(extend, contents)
         == contents + [0] + Digits((crc / 32768 + crc % 32768 * 131072 + 2726488792) % 4294967296)
  {
    MaskIs(crc);
    hide Mask, Fixed;
  }

  /** Which blocks are read: those that are there, with the right checksum if it
      is looked at, and not compressed. */
  lemma ReadsBlock(extend: Checksum, verify: bool, file: Bytes, offset: nat, size: nat)
    ensures |file| < offset + size + 5 ==> ReadBlock(extend, verify, file, Handle(offset, size)) == None
    ensures offset + size + 5 <= |file| ==>
      var crc := extend(0, file[offset..offset + size + 1]);
      ReadBlock(extend, verify, file, Handle(offset, size))
      == if file[offset + size] == 0
            && (verify ==> file[offset + size + 1..offset + size + 5]
                           == Digits((crc / 32768 + crc % 32768 * 131072 + 2726488792) % 4294967296))
         then Some(file[offset..offset + size]) else None
  {
    hide Mask, Unmask, Unfixed4, Digits;
    if offset + size + 5 <= |file| {
      var data := file[offset..offset + size + 5];
      assert data[..size + 1] == file[offset..offset + size + 1] && data[..size] == file[offset..offset + size];
      assert data[size + 1..] == file[offset + size + 1..offset + size + 5] && data[size] == file[offset + size];
      var crc := extend(0, file[offset..offset + size + 1]);
      SameChecksum(data[size + 1..], crc);
      MaskIs(crc);
    }
  }

  lemma HandleIs(offset: nat, size: nat)
    ensures EncodeHandle(Handle(offset, size)) == Varint(offset) + Varint(size)
  {
  }
}
