/** Version edits as byte strings (db/version_edit.cc). */
module EditCodec {
  import opened Keys
  import opened Coding
  import opened Inputs

  /** The metadata of a table file; the keys are encoded internal keys. */
  datatype Meta = Meta(number: nat, size: nat, smallest: Bytes, largest: Bytes)

  /** The deleted files are kept in order, without repetitions. */
  datatype VersionEdit = VersionEdit(
    comparator: Option<Bytes>,
    logNumber: Option<nat>,
    prevLogNumber: Option<nat>,
    nextFile: Option<nat>,
    lastSequence: Option<nat>,
    compactPointers: seq<(nat, Bytes)>,
    deleted: seq<(nat, nat)>,
    newFiles: seq<(nat, Meta)>)

  const EMPTY := VersionEdit(None, None, None, None, None, [], [], [])

  datatype Item =
    | Comparator(name: Bytes)
    | LogNumber(number: nat)
    | PrevLogNumber(number: nat)
    | NextFile(number: nat)
    | LastSequence(number: nat)
    | CompactPointer(level: nat, key: Bytes)
    | DeletedFile(level: nat, number: nat)
    | NewFile(level: nat, file: Meta)

  // ----- Writing -----

  function MetaBytes(f: Meta): Bytes {
    Varint(f.number) + (Varint(f.size) + (LengthPrefixed(f.smallest) + LengthPrefixed(f.largest)))
  }

  function ItemBytes(item: Item): Bytes {
    match item
    case Comparator(name) => Varint(1) + LengthPrefixed(name)
    case LogNumber(n) => Varint(2) + Varint(n)
    case NextFile(n) => Varint(3) + Varint(n)
    case LastSequence(n) => Varint(4) + Varint(n)
    case CompactPointer(level, key) => Varint(5) + (Varint(level) + LengthPrefixed(key))
    case DeletedFile(level, n) => Varint(6) + (Varint(level) + Varint(n))
    case NewFile(level, f) => Varint(7) + (Varint(level) + MetaBytes(f))
    case PrevLogNumber(n) => Varint(9) + Varint(n)
  }

  function ItemsBytes(items: seq<Item>): Bytes {
    if items == [] then [] else ItemBytes(items[0]) + ItemsBytes(items[1..])
  }

  function Header(e: VersionEdit): seq<Item> {
    (if e.comparator.Some? then [Comparator(e.comparator.value)] else [])
    + (if e.logNumber.Some? then [LogNumber(e.logNumber.value)] else [])
    + (if e.prevLogNumber.Some? then [PrevLogNumber(e.prevLogNumber.value)] else [])
    + (if e.nextFile.Some? then [NextFile(e.nextFile.value)] else [])
    + (if e.lastSequence.Some? then [LastSequence(e.lastSequence.value)] else [])
  }

  function Pointers(ps: seq<(nat, Bytes)>): (r: seq<Item>)
    ensures |r| == |ps|
  {
    seq(|ps|, i requires 0 <= i < |ps| => CompactPointer(ps[i].0, ps[i].1))
  }

  function Deletions(ds: seq<(nat, nat)>): (r: seq<Item>)
    ensures |r| == |ds|
  {
    seq(|ds|, i requires 0 <= i < |ds| => DeletedFile(ds[i].0, ds[i].1))
  }

  function Additions(fs: seq<(nat, Meta)>): (r: seq<Item>)
    ensures |r| == |fs|
  {
    seq(|fs|, i requires 0 <= i < |fs| => NewFile(fs[i].0, fs[i].1))
  }

  function Items(e: VersionEdit): seq<Item> {
    Header(e) + (Pointers(e.compactPointers) + (Deletions(e.deleted) + Additions(e.newFiles)))
  }

  function EditBytes(e: VersionEdit): Bytes {
    ItemsBytes(Items(e))
  }

  lemma {:induction false} ItemsConcat(a: seq<Item>, b: seq<Item>)
    ensures ItemsBytes(a + b) == ItemsBytes(a) + ItemsBytes(b)
  {
    hide ItemBytes;
    if a == [] {
      assert a + b == b;
    } else {
      ItemsConcat(a[1..], b);
      assert (a + b)[1..] == a[1..] + b;
      Associative(ItemBytes(a[0]), ItemsBytes(a[1..]), ItemsBytes(b));
    }
  }

  lemma ItemAppended(items: seq<Item>, item: Item)
    ensures ItemsBytes(items + [item]) == ItemsBytes(items) + ItemBytes(item)
  {
    hide ItemBytes;
    ItemsConcat(items, [item]);
    assert [item][1..] == [];
    assert ItemsBytes([item]) == ItemBytes(item) + ItemsBytes([]);
  }

  method EncodeTo(e: VersionEdit) returns (dst: Bytes)
    ensures dst == EditBytes(e)
  {
    hide ItemsBytes, ItemBytes;
    dst := EncodeHeader(e);
    ghost var written := Header(e);
    for i := 0 to |e.compactPointers|
      invariant dst == ItemsBytes(written) && written == Header(e) + Pointers(e.compactPointers)[..i]
    {
      ghost var item := CompactPointer(e.compactPointers[i].0, e.compactPointers[i].1);
      ItemAppended(written, item);
      dst := dst + ItemBytes(CompactPointer(e.compactPointers[i].0, e.compactPointers[i].1));
      written := written + [item];
    }
    ghost var front := written;
    for i := 0 to |e.deleted|
      invariant dst == ItemsBytes(written) && written == front + Deletions(e.deleted)[..i]
    {
      ghost var item := DeletedFile(e.deleted[i].0, e.deleted[i].1);
      ItemAppended(written, item);
      dst := dst + ItemBytes(DeletedFile(e.deleted[i].0, e.deleted[i].1));
      written := written + [item];
    }
    front := written;
    for i := 0 to |e.newFiles|
      invariant dst == ItemsBytes(written) && written == front + Additions(e.newFiles)[..i]
    {
      ghost var item := NewFile(e.newFiles[i].0, e.newFiles[i].1);
      ItemAppended(written, item);
      dst := dst + ItemBytes(NewFile(e.newFiles[i].0, e.newFiles[i].1));
      written := written + [item];
    }
    assert written == Items(e);
  }

  method EncodeHeader(e: VersionEdit) returns (dst: Bytes)
    ensures dst == ItemsBytes(Header(e))
  {
    hide ItemsBytes, ItemBytes;
    dst := [];
    ghost var written: seq<Item> := [];
    NoItems();
    if e.comparator.Some? {
      ItemAppended(written, Comparator(e.comparator.value));
      dst := dst + ItemBytes(Comparator(e.comparator.value));
      written := written + [Comparator(e.comparator.value)];
    }
    if e.logNumber.Some? {
      ItemAppended(written, LogNumber(e.logNumber.value));
      dst := dst + ItemBytes(LogNumber(e.logNumber.value));
      written := written + [LogNumber(e.logNumber.value)];
    }
    if e.prevLogNumber.Some? {
      ItemAppended(written, PrevLogNumber(e.prevLogNumber.value));
      dst := dst + ItemBytes(PrevLogNumber(e.prevLogNumber.value));
      written := written + [PrevLogNumber(e.prevLogNumber.value)];
    }
    if e.nextFile.Some? {
      ItemAppended(written, NextFile(e.nextFile.value));
      dst := dst + ItemBytes(NextFile(e.nextFile.value));
      written := written + [NextFile(e.nextFile.value)];
    }
    if e.lastSequence.Some? {
      ItemAppended(written, LastSequence(e.lastSequence.value));
      dst := dst + ItemBytes(LastSequence(e.lastSequence.value));
      written := written + [LastSequence(e.lastSequence.value)];
    }
    assert written == Header(e);
  }

  lemma NoItems()
    ensures ItemsBytes([]) == []
  {
  }

  // ----- Reading -----

  function GetLevel(input: Bytes): (r: Option<Parsed<nat>>)
    ensures r.Some? ==> |r.value.rest| < |input| && r.value.value < NUM_LEVELS
  {
    var v := GetVarint32(input);
    if v.None? || NUM_LEVELS <= v.value.value then None else v
  }

  function GetMeta(input: Bytes): (r: Option<Parsed<Meta>>)
    ensures r.Some? ==> |r.value.rest| < |input|
  {
    var number := GetVarint64(input);
    if number.None? then None else
    var size := GetVarint64(number.value.rest);
    if size.None? then None else
    var smallest := GetLengthPrefixedSlice(size.value.rest);
    if smallest.None? then None else
    var largest := GetLengthPrefixedSlice(smallest.value.rest);
    if largest.None? then None else
    Some(Parsed(Meta(number.value.value, size.value.value, smallest.value.value, largest.value.value), largest.value.rest))
  }

  datatype Parse = Got(item: Item, rest: Bytes) | Bad(message: string) | NoTag

  function Payload<T>(p: Option<Parsed<T>>, item: T -> Item, message: string): Parse {
    if p.None? then Bad(message) else Got(item(p.value.value), p.value.rest)
  }

  function GetPointer(input: Bytes): (r: Option<Parsed<Item>>)
    ensures r.Some? ==> |r.value.rest| < |input|
  {
    var level := GetLevel(input);
    if level.None? then None else
    var key := GetLengthPrefixedSlice(level.value.rest);
    if key.None? then None else Some(Parsed(CompactPointer(level.value.value, key.value.value), key.value.rest))
  }

  function GetDeleted(input: Bytes): (r: Option<Parsed<Item>>)
    ensures r.Some? ==> |r.value.rest| < |input|
  {
    var level := GetLevel(input);
    if level.None? then None else
    var number := GetVarint64(level.value.rest);
    if number.None? then None else Some(Parsed(DeletedFile(level.value.value, number.value.value), number.value.rest))
  }

  function GetNewFile(input: Bytes): (r: Option<Parsed<Item>>)
    ensures r.Some? ==> |r.value.rest| < |input|
  {
    var level := GetLevel(input);
    if level.None? then None else
    var f := GetMeta(level.value.rest);
    if f.None? then None else Some(Parsed(NewFile(level.value.value, f.value.value), f.value.rest))
  }

  function ParseItem(input: Bytes): (r: Parse)
    ensures r.Got? ==> |r.rest| < |input|
  {
    var tag := GetVarint32(input);
    if tag.None? then NoTag
    else
      var rest := tag.value.rest;
      match tag.value.value
      case 1 => Payload(GetLengthPrefixedSlice(rest), s => Comparator(s), "comparator name")
      case 2 => Payload(GetVarint64(rest), n => LogNumber(n), "log number")
      case 3 => Payload(GetVarint64(rest), n => NextFile(n), "next file number")
      case 4 => Payload(GetVarint64(rest), n => LastSequence(n), "last sequence number")
      case 5 => Payload(GetPointer(rest), i => i, "compaction pointer")
      case 6 => Payload(GetDeleted(rest), i => i, "deleted file")
      case 7 => Payload(GetNewFile(rest), i => i, "new-file entry")
      case 9 => Payload(GetVarint64(rest), n => PrevLogNumber(n), "previous log number")
      case _ => Bad("unknown tag")
  }

  predicate PairBefore(a: (nat, nat), b: (nat, nat)) {
    a.0 < b.0 || (a.0 == b.0 && a.1 < b.1)
  }

  /** Adds to an ordered set. */
  function InsertPair(ds: seq<(nat, nat)>, d: (nat, nat)): seq<(nat, nat)> {
    if ds == [] then [d]
    else if ds[0] == d then ds
    else if PairBefore(d, ds[0]) then [d] + ds
    else [ds[0]] + InsertPair(ds[1..], d)
  }

  function ApplyItem(e: VersionEdit, item: Item): VersionEdit {
    match item
    case Comparator(name) => e.(comparator := Some(name))
    case LogNumber(n) => e.(logNumber := Some(n))
    case PrevLogNumber(n) => e.(prevLogNumber := Some(n))
    case NextFile(n) => e.(nextFile := Some(n))
    case LastSequence(n) => e.(lastSequence := Some(n))
    case CompactPointer(level, key) => e.(compactPointers := e.compactPointers + [(level, key)])
    case DeletedFile(level, n) => e.(deleted := InsertPair(e.deleted, (level, n)))
    case NewFile(level, f) => e.(newFiles := e.newFiles + [(level, f)])
  }

  datatype Decoded = Ok(edit: VersionEdit) | Corrupt(message: string)

  function Decode(e: VersionEdit, input: Bytes): Decoded
    decreases |input|
  {
    match ParseItem(input)
    case NoTag => if input == [] then Ok(e) else Corrupt("invalid tag")
    case Bad(message) => Corrupt(message)
    case Got(item, rest) => Decode(ApplyItem(e, item), rest)
  }

  method DecodeFrom(src: Bytes) returns (r: Decoded)
    ensures r == Decode(EMPTY, src)
  {
    var edit := EMPTY;
    var input := src;
    while true
      invariant Decode(edit, input) == Decode(EMPTY, src)
      decreases |input|
    {
      hide ParseItem, ApplyItem;
      match ParseItem(input)
      case NoTag =>
        return if input == [] then Ok(edit) else Corrupt("invalid tag");
      case Bad(message) =>
        return Corrupt(message);
      case Got(item, rest) =>
        edit, input := ApplyItem(edit, item), rest;
    }
  }

  // ----- Round trip -----

  ghost predicate MetaFits(f: Meta) {
    f.number < TWO64 && f.size < TWO64 && |f.smallest| < TWO32 && |f.largest| < TWO32
  }

  ghost predicate ItemFits(item: Item) {
    match item
    case Comparator(name) => |name| < TWO32
    case LogNumber(n) => n < TWO64
    case PrevLogNumber(n) => n < TWO64
    case NextFile(n) => n < TWO64
    case LastSequence(n) => n < TWO64
    case CompactPointer(level, key) => level < NUM_LEVELS && |key| < TWO32
    case DeletedFile(level, n) => level < NUM_LEVELS && n < TWO64
    case NewFile(level, f) => level < NUM_LEVELS && MetaFits(f)
  }

  ghost predicate PairsAscend(ds: seq<(nat, nat)>) {
    forall i, j | 0 <= i < j < |ds| :: PairBefore(ds[i], ds[j])
  }

  ghost predicate EditFits(e: VersionEdit) {
    (forall item <- Items(e) :: ItemFits(item)) && PairsAscend(e.deleted)
  }

  lemma ReadsLevel(level: nat, rest: Bytes)
    requires level < NUM_LEVELS
    ensures GetLevel(Varint(level) + rest) == Some(Parsed(level, rest))
  {
    GetsVarint32(level, rest);
  }

  lemma ReadsMeta(f: Meta, rest: Bytes)
    requires MetaFits(f)
    ensures GetMeta(MetaBytes(f) + rest) == Some(Parsed(f, rest))
  {
    hide Varint, LengthPrefixed, GetVarint64, GetLengthPrefixedSlice;
    var d := LengthPrefixed(f.largest) + rest;
    var c := LengthPrefixed(f.smallest) + d;
    var b := Varint(f.size) + c;
    assert MetaBytes(f) + rest == Varint(f.number) + b;
    GetsVarint64(f.number, b);
    GetsVarint64(f.size, c);
    GetsLengthPrefixed(f.smallest, d);
    GetsLengthPrefixed(f.largest, rest);
  }

  function Tag(item: Item): nat {
    match item
    case Comparator(_) => 1
    case LogNumber(_) => 2
    case NextFile(_) => 3
    case LastSequence(_) => 4
    case CompactPointer(_, _) => 5
    case DeletedFile(_, _) => 6
    case NewFile(_, _) => 7
    case PrevLogNumber(_) => 9
  }

  function PayloadBytes(item: Item): Bytes {
    match item
    case Comparator(name) => LengthPrefixed(name)
    case LogNumber(n) => Varint(n)
    case NextFile(n) => Varint(n)
    case LastSequence(n) => Varint(n)
    case CompactPointer(level, key) => Varint(level) + LengthPrefixed(key)
    case DeletedFile(level, n) => Varint(level) + Varint(n)
    case NewFile(level, f) => Varint(level) + MetaBytes(f)
    case PrevLogNumber(n) => Varint(n)
  }

  lemma ReadsTag(item: Item, rest: Bytes)
    ensures GetVarint32(ItemBytes(item) + rest) == Some(Parsed(Tag(item), PayloadBytes(item) + rest))
  {
    hide Varint, LengthPrefixed, GetVarint32, MetaBytes;
    GetsVarint32(Tag(item), PayloadBytes(item) + rest);
    assert ItemBytes(item) + rest == Varint(Tag(item)) + (PayloadBytes(item) + rest);
  }

  lemma ReadsNumber(n: nat, rest: Bytes)
    requires n < TWO64
    ensures GetVarint64(Varint(n) + rest) == Some(Parsed(n, rest))
  {
    GetsVarint64(n, rest);
  }

  lemma ReadsFields(item: Item, rest: Bytes)
    requires ItemFits(item)
    ensures item.CompactPointer? ==> GetPointer(PayloadBytes(item) + rest) == Some(Parsed(item, rest))
    ensures item.DeletedFile? ==> GetDeleted(PayloadBytes(item) + rest) == Some(Parsed(item, rest))
    ensures item.NewFile? ==> GetNewFile(PayloadBytes(item) + rest) == Some(Parsed(item, rest))
  {
    hide Varint, LengthPrefixed, GetVarint64, GetLengthPrefixedSlice, GetLevel, GetMeta, MetaBytes, MetaFits;
    match item
    case CompactPointer(level, key) =>
      assert PayloadBytes(item) + rest == Varint(level) + (LengthPrefixed(key) + rest);
      ReadsLevel(level, LengthPrefixed(key) + rest);
      GetsLengthPrefixed(key, rest);
    case DeletedFile(level, n) =>
      assert PayloadBytes(item) + rest == Varint(level) + (Varint(n) + rest);
      ReadsLevel(level, Varint(n) + rest);
      GetsVarint64(n, rest);
    case NewFile(level, f) =>
      assert PayloadBytes(item) + rest == Varint(level) + (MetaBytes(f) + rest);
      ReadsLevel(level, MetaBytes(f) + rest);
      ReadsMeta(f, rest);
    case _ =>
  }

  lemma ReadsItem(item: Item, rest: Bytes)
    requires ItemFits(item)
    ensures ParseItem(ItemBytes(item) + rest) == Got(item, rest)
  {
    hide ItemBytes, Varint, LengthPrefixed, GetVarint64, GetVarint32, GetLengthPrefixedSlice, GetPointer, GetDeleted, GetNewFile, MetaFits, MetaBytes;
    ReadsTag(item, rest);
    ReadsFields(item, rest);
    match item
    case Comparator(name) => GetsLengthPrefixed(name, rest);
    case LogNumber(n) => ReadsNumber(n, rest);
    case PrevLogNumber(n) => ReadsNumber(n, rest);
    case NextFile(n) => ReadsNumber(n, rest);
    case LastSequence(n) => ReadsNumber(n, rest);
    case _ =>
  }

  function ApplyItems(e: VersionEdit, items: seq<Item>): VersionEdit
    decreases |items|
  {
    if items == [] then e else ApplyItems(ApplyItem(e, items[0]), items[1..])
  }

  lemma {:induction false} DecodesItems(e: VersionEdit, items: seq<Item>)
    requires forall item <- items :: ItemFits(item)
    ensures Decode(e, ItemsBytes(items)) == Ok(ApplyItems(e, items))
    decreases |items|
  {
    hide ItemBytes, ParseItem, ItemFits, ApplyItem;
    if items == [] {
      NothingToParse();
    } else {
      ReadsItem(items[0], ItemsBytes(items[1..]));
      DecodesItems(ApplyItem(e, items[0]), items[1..]);
    }
  }

  lemma NothingToParse()
    ensures ParseItem([]) == NoTag
  {
  }

  lemma {:induction false} ApplyConcat(e: VersionEdit, a: seq<Item>, b: seq<Item>)
    ensures ApplyItems(e, a + b) == ApplyItems(ApplyItems(e, a), b)
    decreases |a|
  {
    hide ApplyItem;
    if a == [] {
      assert a + b == b;
    } else {
      ApplyConcat(ApplyItem(e, a[0]), a[1..], b);
      assert (a + b)[1..] == a[1..] + b;
    }
  }

  lemma {:induction false} ApplyPointers(e: VersionEdit, ps: seq<(nat, Bytes)>)
    ensures ApplyItems(e, Pointers(ps)) == e.(compactPointers := e.compactPointers + ps)
    decreases |ps|
  {
    if ps == [] {
      assert e.compactPointers + ps == e.compactPointers;
    } else {
      ApplyPointers(ApplyItem(e, Pointers(ps)[0]), ps[1..]);
      assert Pointers(ps)[1..] == Pointers(ps[1..]);
      assert e.compactPointers + [ps[0]] + ps[1..] == e.compactPointers + ps;
    }
  }

  lemma {:induction false} ApplyAdditions(e: VersionEdit, fs: seq<(nat, Meta)>)
    ensures ApplyItems(e, Additions(fs)) == e.(newFiles := e.newFiles + fs)
    decreases |fs|
  {
    if fs == [] {
      assert e.newFiles + fs == e.newFiles;
    } else {
      ApplyAdditions(ApplyItem(e, Additions(fs)[0]), fs[1..]);
      assert Additions(fs)[1..] == Additions(fs[1..]);
      assert e.newFiles + [fs[0]] + fs[1..] == e.newFiles + fs;
    }
  }

  lemma {:induction false} InsertsLast(ds: seq<(nat, nat)>, d: (nat, nat))
    requires forall x <- ds :: PairBefore(x, d)
    ensures InsertPair(ds, d) == ds + [d]
  {
    if ds != [] {
      assert PairBefore(ds[0], d);
      InsertsLast(ds[1..], d);
      assert ds == [ds[0]] + ds[1..];
    }
  }

  lemma {:induction false} ApplyDeletions(e: VersionEdit, ds: seq<(nat, nat)>)
    requires PairsAscend(e.deleted + ds)
    ensures ApplyItems(e, Deletions(ds)) == e.(deleted := e.deleted + ds)
    decreases |ds|
  {
    if ds == [] {
      assert e.deleted + ds == e.deleted;
    } else {
      var all := e.deleted + ds;
      forall x <- e.deleted ensures PairBefore(x, ds[0]) {
        var i :| 0 <= i < |e.deleted| && e.deleted[i] == x;
        assert PairBefore(all[i], all[|e.deleted|]);
      }
      InsertsLast(e.deleted, ds[0]);
      assert e.deleted + [ds[0]] + ds[1..] == all;
      ApplyDeletions(ApplyItem(e, Deletions(ds)[0]), ds[1..]);
      assert Deletions(ds)[1..] == Deletions(ds[1..]);
    }
  }

  lemma ApplyHeader(e: VersionEdit)
    ensures ApplyItems(EMPTY, Header(e)) == e.(compactPointers := [], deleted := [], newFiles := [])
  {
    var h1 := if e.comparator.Some? then [Comparator(e.comparator.value)] else [];
    var h2 := if e.logNumber.Some? then [LogNumber(e.logNumber.value)] else [];
    var h3 := if e.prevLogNumber.Some? then [PrevLogNumber(e.prevLogNumber.value)] else [];
    var h4 := if e.nextFile.Some? then [NextFile(e.nextFile.value)] else [];
    var h5 := if e.lastSequence.Some? then [LastSequence(e.lastSequence.value)] else [];
    ApplyConcat(EMPTY, h1 + h2 + h3 + h4, h5);
    ApplyConcat(EMPTY, h1 + h2 + h3, h4);
    ApplyConcat(EMPTY, h1 + h2, h3);
    ApplyConcat(EMPTY, h1, h2);
  }

  /** An edit is read back as it was written. */
  lemma EditRoundTrip(e: VersionEdit)
    requires EditFits(e)
    ensures Decode(EMPTY, EditBytes(e)) == Ok(e)
  {
    hide Header, Pointers, Deletions, Additions, ApplyItem, ItemFits, ApplyItems, Decode, ItemsBytes;
    DecodesItems(EMPTY, Items(e));
    var c := Additions(e.newFiles);
    var b := Deletions(e.deleted) + c;
    ApplyConcat(EMPTY, Header(e), Pointers(e.compactPointers) + b);
    ApplyHeader(e);
    var e0 := e.(compactPointers := [], deleted := [], newFiles := []);
    ApplyConcat(e0, Pointers(e.compactPointers), b);
    ApplyPointers(e0, e.compactPointers);
    var e1 := e0.(compactPointers := e.compactPointers);
    assert [] + e.compactPointers == e.compactPointers;
    ApplyConcat(e1, Deletions(e.deleted), c);
    assert [] + e.deleted == e.deleted;
    ApplyDeletions(e1, e.deleted);
    ApplyAdditions(e1.(deleted := e.deleted), e.newFiles);
    assert [] + e.newFiles == e.newFiles;
  }
}
