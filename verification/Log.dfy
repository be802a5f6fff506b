/** The log writer and reader (db/log_writer.cc, db/log_reader.cc). */
module Log {
  import opened Keys
  import opened Coding
  import opened Crc
  import opened LogFormat

  class Writer {
    const extend: Checksum
    var dest: Bytes
    var blockOffset: nat

    /** The offset may be a whole block at the end of a block. */
    ghost predicate Valid()
      reads this
    {
      blockOffset == |dest| % BLOCK || (blockOffset == BLOCK && |dest| % BLOCK == 0)
    }

    /** Appends to a file that may have contents already. */
    constructor (extend: Checksum, dest: Bytes)
      ensures Valid() && this.extend == extend && this.dest == dest
    {
      this.extend, this.dest, blockOffset := extend, dest, |dest| % BLOCK;
    }

    method AddRecord(slice: Bytes)
      requires Valid()
      modifies this
      ensures Valid() && dest == old(dest) + RecordBytes(extend, slice, |old(dest)|, true)
    {
      hide RecordBytes, Physical, Skip, FragmentAt, Zeros;
      var left := slice;
      var begin := true;
      ghost var goal := dest + RecordBytes(extend, slice, |dest|, true);
      while true
        invariant Valid() && dest + RecordBytes(extend, left, |dest|, begin) == goal
        decreases |left|, Turns(|dest|)
      {
        RecordUnfolds(extend, left, |dest|, begin, dest);
        var n := AddFragment(left, begin);
        if n == |left| {
          return;
        }
        left := left[n..];
        begin := false;
      }
    }

    /** One turn of the loop: emits the first `n` bytes left. */
    method AddFragment(left: Bytes, begin: bool) returns (n: nat)
      requires Valid()
      modifies this
      ensures Valid() && n == FragmentAt(left, |old(dest)|)
      ensures dest == old(dest) + Zeros(Skip(|old(dest)|) - |old(dest)|) + Physical(extend, TypeOf(begin, n == |left|), left[..n])
    {
      hide Physical, Skip, Zeros;
      ghost var p := |dest|;
      SwitchBlock();
      var avail := BLOCK - blockOffset - HEADER;
      n := if |left| < avail then |left| else avail;
      var end := |left| == n;
      var kind := if begin && end then FULL else if begin then FIRST else if end then LAST else MIDDLE;
      EmitPhysicalRecord(kind, left[..n]);
    }

    /** Fills the trailer if no header fits into the block. */
    method SwitchBlock()
      requires Valid()
      modifies this
      ensures Valid() && blockOffset == Skip(|old(dest)|) % BLOCK
      ensures dest == old(dest) + Zeros(Skip(|old(dest)|) - |old(dest)|)
    {
      var leftover := BLOCK - blockOffset;
      SkipFromOffset(|dest|, blockOffset);
      if leftover < HEADER {
        if leftover > 0 {
          dest := dest + Zeros(leftover);
        }
        blockOffset := 0;
      }
    }

    method EmitPhysicalRecord(kind: byte, data: Bytes)
      requires |data| <= 0xffff && Valid() && blockOffset + HEADER + |data| <= BLOCK
      modifies this
      ensures Valid() && dest == old(dest) + Physical(extend, kind, data)
    {
      hide Mask, Fixed;
      OffsetMoves(|dest|, blockOffset, HEADER + |data|);
      var crc := Mask(extend(extend(0, [kind]), data));
      var header := Fixed(crc, 4) + [|data| % 256, |data| / 256, kind];
      assert dest + (header + data) == dest + header + data;
      dest := dest + header;
      dest := dest + data;
      blockOffset := blockOffset + HEADER + |data|;
    }
  }

  lemma OffsetMoves(p: nat, offset: nat, n: nat)
    requires offset == p % BLOCK && 0 < n && offset + n <= BLOCK
    ensures offset + n == (p + n) % BLOCK || (offset + n == BLOCK && (p + n) % BLOCK == 0)
  {
  }

  lemma SkipFromOffset(p: nat, offset: nat)
    requires offset == p % BLOCK || (offset == BLOCK && p % BLOCK == 0)
    ensures BLOCK - offset < HEADER ==> Skip(p) == p + (BLOCK - offset) && Skip(p) % BLOCK == 0
    ensures BLOCK - offset >= HEADER ==> Skip(p) == p && p % BLOCK == offset
  {
  }

  /** Just before a block's last header an empty fragment is emitted. */
  function Turns(p: nat): nat {
    if BLOCK - p % BLOCK == HEADER then 1 else 0
  }

  lemma RecordUnfolds(extend: Checksum, data: Bytes, p: nat, begin: bool, before: Bytes)
    requires |before| == p
    ensures
      var n := FragmentAt(data, p);
      var after := before + Zeros(Skip(p) - p) + Physical(extend, TypeOf(begin, n == |data|), data[..n]);
      && before + RecordBytes(extend, data, p, begin)
         == (if n == |data| then after else after + RecordBytes(extend, data[n..], |after|, false))
      && (n < |data| ==> n > 0 || Turns(|after|) < Turns(p))
  {
    hide Physical, Zeros;
  }

  class Reader {
    const extend: Checksum
    const checked: bool
    const source: Bytes
    var readPos: nat  // how much of the source has been read
    var buffer: Bytes
    var eof: bool
    var drops: seq<nat>
    ghost var blocks: nat  // how many reads there were

    ghost predicate Valid()
      reads this
    {
      && |buffer| <= readPos <= |source| && buffer == source[readPos - |buffer|..readPos]
      && readPos <= BLOCK * blocks <= readPos - |buffer| + BLOCK
      && (if eof then readPos == |source| < BLOCK * blocks else readPos == BLOCK * blocks)
    }

    /** The place in the source from which reading goes on. */
    ghost function Position(): nat
      requires Valid()
      reads this
    {
      readPos - |buffer|
    }

    constructor (extend: Checksum, checked: bool, source: Bytes)
      ensures Valid() && Position() == 0 && drops == []
      ensures this.extend == extend && this.checked == checked && this.source == source
    {
      this.extend, this.checked, this.source := extend, checked, source;
      readPos, buffer, eof, drops, blocks := 0, source[0..0], false, [], 0;
      new;
      assert buffer == source[readPos - |buffer|..readPos];
    }

    /** What the next physical record is. */
    ghost function Here(): Read
      requires Valid()
      reads this
    {
      PhysicalAt(extend, checked, source, Position())
    }

    /** Replaces a trailer by the next block. */
    method ReadBlock()
      requires Valid() && |buffer| < HEADER && !eof
      modifies this
      ensures Valid() && drops == old(drops) && Here() == old(Here())
      ensures eof || readPos > old(readPos)
    {
      hide PhysicalAt, Skip;
      SkipsTrailer(extend, checked, source, Position());
      NearBlockEnd(Position(), blocks);
      var size := if |source| - readPos < BLOCK then |source| - readPos else BLOCK;
      buffer := source[readPos..readPos + size];
      readPos := readPos + size;
      if size < BLOCK {
        eof := true;
      }
      blocks := blocks + 1;
    }

    /** Reads blocks until there is a header in the buffer or the file ends. */
    method FillBuffer() returns (more: bool)
      requires Valid()
      modifies this
      ensures Valid() && drops == old(drops)
      ensures more ==> HEADER <= |buffer| && Here() == old(Here())
      ensures !more ==> old(Here()) == Read(EOF, [], |source|, []) && Position() == |source|
    {
      hide PhysicalAt, Skip;
      while |buffer| < HEADER
        invariant Valid() && drops == old(drops) && Here() == old(Here())
        decreases if eof then 0 else 1, |source| - readPos
      {
        if eof {
          SkipsTrailer(extend, checked, source, Position());
          NearBlockEnd(Position(), blocks);
          buffer := [];
          return false;
        }
        ReadBlock();
      }
      return true;
    }

    method ReadPhysicalRecord() returns (kind: byte, fragment: Bytes)
      requires Valid()
      modifies this
      ensures Valid()
      ensures
        var r := old(Here());
        kind == r.kind && fragment == r.data && Position() == r.next && drops == old(drops) + r.drops
    {
      hide PhysicalAt;
      var more := FillBuffer();
      if !more {
        return EOF, [];
      }
      HereIsBuffer();
      kind, fragment := ParseHeader();
    }

    method ParseHeader() returns (kind: byte, fragment: Bytes)
      requires Valid() && HEADER <= |buffer|
      modifies this
      ensures Valid()
      ensures
        var r := ParseBuffer(extend, checked, old(buffer), !old(eof));
        && kind == r.kind && fragment == r.data && drops == old(drops) + r.drops
        && Position() == old(Position()) + r.used
    {
      var header := buffer;
      var length := header[4] as int + 256 * header[5] as int;
      kind := header[6];
      if HEADER + length > |buffer| {
        var dropSize := |buffer|;
        buffer := [];
        if !eof {
          drops := drops + [dropSize];
          return BAD, [];
        }
        return EOF, [];
      }
      if kind == ZERO_TYPE && length == 0 {
        buffer := [];
        return BAD, [];
      }
      if checked {
        var expected := Unmask(Unfixed4(header[..4]));
        var actual := extend(0, header[6..HEADER + length]);
        if actual != expected {
          drops := drops + [|buffer|];
          buffer := [];
          return BAD, [];
        }
      }
      buffer := buffer[HEADER + length..];
      fragment := header[HEADER..HEADER + length];
    }

    /** Delivers the next logical record, joining its fragments. */
    method ReadRecord() returns (record: Option<Bytes>)
      requires Valid()
      modifies this
      ensures Valid()
      ensures
        var r := RecordAt(extend, checked, source, old(Position()), false, []);
        record == r.record && Position() == r.next && drops == old(drops) + r.drops
    {
      hide PhysicalAt, RecordAt, EffectOf;
      var scratch := [];
      var inRecord := false;
      ghost var goal := RecordAt(extend, checked, source, Position(), false, []);
      while true
        invariant Valid()
        invariant
          var r := RecordAt(extend, checked, source, Position(), inRecord, scratch);
          goal.record == r.record && goal.next == r.next && old(drops) + goal.drops == drops + r.drops
        decreases |source| - Position()
      {
        RecordAtIs(inRecord, scratch);
        var kind, fragment := ReadPhysicalRecord();
        var done;
        done, record, inRecord, scratch := TakeFragment(kind, fragment, inRecord, scratch);
        if done {
          return;
        }
      }
    }

    /** What is done with a fragment: the record ends, or reading goes on. */
    method TakeFragment(kind: byte, fragment: Bytes, inRecord: bool, scratch: Bytes)
      returns (done: bool, record: Option<Bytes>, inRecord1: bool, scratch1: Bytes)
      modifies `drops
      ensures
        match EffectOf(kind, fragment, inRecord, scratch)
        case Delivers(r, d) => done && record == r && drops == old(drops) + d
        case Continues(i, s, d) => !done && inRecord1 == i && scratch1 == s && drops == old(drops) + d
      // Something is reported exactly for fragments without a start, for a record
      // that another one or a bad piece interrupts, and for unknown types.
      ensures drops != old(drops) <==>
        ((kind == 1 || kind == 2) && inRecord && scratch != []) || ((kind == 3 || kind == 4) && !inRecord)
        || (kind == 6 && inRecord) || kind == 0 || kind > 6
    {
      done, record, inRecord1, scratch1 := false, None, inRecord, scratch;
      if kind == FULL {
        if inRecord && scratch != [] {
          drops := drops + [|scratch|];
        }
        done, record := true, Some(fragment);
      } else if kind == FIRST {
        if inRecord && scratch != [] {
          drops := drops + [|scratch|];
        }
        inRecord1, scratch1 := true, fragment;
      } else if kind == MIDDLE {
        if !inRecord {
          drops := drops + [|fragment|];
        } else {
          scratch1 := scratch + fragment;
        }
      } else if kind == LAST {
        if !inRecord {
          drops := drops + [|fragment|];
        } else {
          done, record := true, Some(scratch + fragment);
        }
      } else if kind == EOF {
        done := true;
      } else if kind == BAD {
        if inRecord {
          drops := drops + [|scratch|];
          inRecord1, scratch1 := false, [];
        }
      } else {
        drops := drops + [|fragment| + if inRecord then |scratch| else 0];
        inRecord1, scratch1 := false, [];
      }
    }

    lemma RecordAtIs(inRecord: bool, scratch: Bytes)
      requires Valid()
      ensures
        var r := RecordAt(extend, checked, source, Position(), inRecord, scratch);
        match EffectOf(Here().kind, Here().data, inRecord, scratch)
        case Delivers(record, drops) => r == Record(record, Here().next, Here().drops + drops)
        case Continues(inRecord1, scratch1, drops) =>
          && Position() < Here().next
          && var rest := RecordAt(extend, checked, source, Here().next, inRecord1, scratch1);
             r == rest.(drops := Here().drops + drops + rest.drops)
    {
      hide PhysicalAt;
    }

    lemma HereIsBuffer()
      requires Valid() && HEADER <= |buffer|
      ensures var r := ParseBuffer(extend, checked, buffer, !eof);
        Here() == Read(r.kind, r.data, Position() + r.used, r.drops)
    {
      hide ParseBuffer;
      InsideBlock(Position(), blocks);
    }
  }

  lemma NearBlockEnd(p: nat, blocks: nat)
    requires p <= BLOCK * blocks <= p + BLOCK
    ensures BLOCK * blocks < p + HEADER ==> Skip(p) == BLOCK * blocks
    ensures Skip(p) == p || Skip(p) == BLOCK * blocks
  {
  }

  lemma InsideBlock(p: nat, blocks: nat)
    requires p + HEADER <= BLOCK * blocks <= p + BLOCK
    ensures Skip(p) == p && BlockEnd(p) == BLOCK * blocks
  {
  }

  /** A trailer is passed over before the next header. */
  lemma SkipsTrailer(extend: Checksum, checked: bool, f: Bytes, p: nat)
    requires p <= |f|
    ensures Skip(p) <= |f| ==> PhysicalAt(extend, checked, f, Skip(p)) == PhysicalAt(extend, checked, f, p)
    ensures |f| < Skip(p) + HEADER ==> PhysicalAt(extend, checked, f, p) == Read(EOF, [], |f|, [])
  {
    hide ParseBuffer;
    assert Skip(Skip(p)) == Skip(p);
  }

  /** Reads a log to its end, as recovery does. */
  method ReadLog(extend: Checksum, checked: bool, source: Bytes) returns (records: seq<Bytes>, drops: seq<nat>)
    ensures LogFrom(extend, checked, source, 0) == LogFormat.Log(records, drops)
  {
    hide LogFrom, RecordAt;
    var reader := new Reader(extend, checked, source);
    records := [];
    ghost var goal := LogFrom(extend, checked, source, 0);
    while true
      invariant reader.Valid() && reader.source == source && reader.extend == extend && reader.checked == checked
      invariant goal == Joined(records, reader.drops, LogFrom(extend, checked, source, reader.Position()))
      decreases |source| - reader.Position()
    {
      ghost var before := reader.drops;
      LogStep(extend, checked, source, reader.Position(), records, before);
      var record := reader.ReadRecord();
      if record.None? {
        return records, reader.drops;
      }
      records := records + [record.value];
    }
  }

  ghost function Joined(records: seq<Bytes>, drops: seq<nat>, rest: LogFormat.Log): LogFormat.Log {
    LogFormat.Log(records + rest.records, drops + rest.drops)
  }

  lemma LogStep(extend: Checksum, checked: bool, f: Bytes, p: nat, records: seq<Bytes>, drops: seq<nat>)
    requires p <= |f|
    ensures
      var r := RecordAt(extend, checked, f, p, false, []);
      Joined(records, drops, LogFrom(extend, checked, f, p))
      == if r.record.None? then LogFormat.Log(records, drops + r.drops)
         else Joined(records + [r.record.value], drops + r.drops, LogFrom(extend, checked, f, r.next))
  {
    hide RecordAt;
    var r := RecordAt(extend, checked, f, p, false, []);
    if r.record.Some? {
      var rest := LogFrom(extend, checked, f, r.next);
      assert records + ([r.record.value] + rest.records) == records + [r.record.value] + rest.records;
      assert drops + (r.drops + rest.drops) == drops + r.drops + rest.drops;
    } else {
      assert records + [] == records;
    }
  }

  /** Writes a log into an empty file. */
  method WriteLog(extend: Checksum, records: seq<Bytes>) returns (dest: Bytes)
    ensures dest == FileBytes(extend, records)
  {
    var writer := new Writer(extend, []);
    for i := 0 to |records|
      invariant writer.Valid() && writer.extend == extend && writer.dest == FileBytes(extend, records[..i])
    {
      hide RecordBytes;
      writer.AddRecord(records[i]);
      assert records[..i + 1][..i] == records[..i];
    }
    assert records[..|records|] == records;
    return writer.dest;
  }
}
