/** The log format in figures: the bytes of every record, the fragments that
    it is split into, and what the reader makes of every header
    (db/log_format.h, db/log_writer.cc, db/log_reader.cc). */
module LogLayout {
  import opened Keys
  import opened Coding
  import opened Crc
  import opened LogFormat

  // ----- What is written -----

  /** A physical record: the rotated checksum of type and data plus a constant,
      the length in two bytes, the type, and the data. */
  lemma PhysicalIs(extend: Checksum, kind: byte, data: Bytes, crc: Word)
    requires |data| <= 0xffff && crc == extend(extend(0, [kind]), data)
    ensures Physical(extend, kind, data)
         == Digits((crc / 32768 + crc % 32768 * 131072 + 2726488792) % 4294967296) + [|data| % 256, |data| / 256, kind] + data
  {
    hide Fixed;
    FixedIs(Mask(crc));
  }

  /** How a record, or the rest of one, is laid out at any place: 7 bytes of
      header and up to the block's end of data; less than 7 bytes are a trailer. */
  lemma SplitIs(extend: Checksum, data: Bytes, p: nat, begin: bool, left: nat)
    requires left == 32768 - p % 32768
    ensures left < 7 ==> RecordBytes(extend, data, p, begin) == Zeros(left) + RecordBytes(extend, data, p + left, begin)
    ensures 7 <= left && 7 + |data| <= left ==>
      RecordBytes(extend, data, p, begin) == Physical(extend, if begin then 1 else 4, data)
    ensures 7 <= left < 7 + |data| ==>
      RecordBytes(extend, data, p, begin)
      == Physical(extend, if begin then 2 else 3, data[..left - 7]) + RecordBytes(extend, data[left - 7..], p + left, false)
  {
    hide Physical;
    if left < 7 {
      TrailerIs(extend, data, p, begin, left);
    } else if 7 + |data| <= left {
      assert data[..|data|] == data && Skip(p) == p && FragmentAt(data, p) == |data|;
      NoZeros(Physical(extend, if begin then 1 else 4, data));
    } else {
      assert Skip(p) == p && FragmentAt(data, p) == left - 7;
      NoZeros(Physical(extend, if begin then 2 else 3, data[..left - 7]));
    }
  }

  lemma NoZeros(b: Bytes)
    ensures Zeros(0) + b == b
  {
  }

  lemma TrailerIs(extend: Checksum, data: Bytes, p: nat, begin: bool, left: nat)
    requires left == 32768 - p % 32768 && left < 7
    ensures RecordBytes(extend, data, p, begin) == Zeros(left) + RecordBytes(extend, data, p + left, begin)
  {
    hide Physical, Zeros;
    var o := p + left;
    BlockStart(p, left);
    assert Skip(p) == o == Skip(o) && FragmentAt(data, p) == FragmentAt(data, o);
    var n := FragmentAt(data, o);
    var phys := Physical(extend, TypeOf(begin, n == |data|), data[..n]);
    NoZeros(phys);
    if n < |data| {
      var tail := RecordBytes(extend, data[n..], o + HEADER + n, false);
      Associative(Zeros(left), phys, tail);
    }
  }

  lemma BlockStart(p: nat, left: nat)
    requires left == 32768 - p % 32768
    ensures (p + left) % 32768 == 0
  {
  }

  /** The whole file of one record that fits into a block. */
  lemma ShortRecord(extend: Checksum, data: Bytes, crc: Word)
    requires |data| <= 32761 && crc == extend(extend(0, [1]), data)
    ensures FileBytes(extend, [data])
         == Digits((crc / 32768 + crc % 32768 * 131072 + 2726488792) % 4294967296) + [|data| % 256, |data| / 256, 1] + data
  {
    hide RecordBytes, Physical;
    OnlyRecord(extend, data);
    SplitIs(extend, data, 0, true, 32768);
    PhysicalIs(extend, 1, data, crc);
  }

  lemma OnlyRecord(extend: Checksum, data: Bytes)
    ensures FileBytes(extend, [data]) == RecordBytes(extend, data, 0, true)
  {
    hide RecordBytes;
    assert [data][..0] == [];
    assert FileBytes(extend, []) == [];
    assert [] + RecordBytes(extend, data, 0, true) == RecordBytes(extend, data, 0, true);
  }

  /** A record of more than one block, such as one of 40000 bytes, which is cut
      into 32761 and 7239. */
  lemma TwoFragments(extend: Checksum, data: Bytes)
    requires 32761 < |data| <= 65522
    ensures FileBytes(extend, [data]) == Physical(extend, 2, data[..32761]) + Physical(extend, 4, data[32761..])
  {
    hide RecordBytes, Physical;
    OnlyRecord(extend, data);
    SplitIs(extend, data, 0, true, 32768);
    SplitIs(extend, data[32761..], 32768, false, 32768);
  }

  /** A record from the start of a block on takes 7 bytes for each 32761 bytes begun. */
  lemma {:induction false} SpaceTaken(extend: Checksum, data: Bytes, p: nat, begin: bool)
    requires p % 32768 == 0
    ensures |RecordBytes(extend, data, p, begin)| == |data| + 7 * if data == [] then 1 else (|data| + 32760) / 32761
    decreases |data|
  {
    hide RecordBytes, Physical;
    SplitIs(extend, data, p, begin, 32768);
    if |data| > 32761 {
      SpaceTaken(extend, data[32761..], p + 32768, false);
    } else if data != [] {
      assert (|data| + 32760) / 32761 == 1;
    }
  }

  // ----- What is read -----

  /** The place where the block of `p` or the file ends. */
  function EndAt(f: Bytes, p: nat): nat {
    if p - p % 32768 + 32768 <= |f| then p - p % 32768 + 32768 else |f|
  }

  /** What the reader makes of a header: a record that does not end in its block
      is bad in a whole block and the end of the file in the last; type 0 with
      no data is room that was set aside; a checksum that is not the stored one
      makes it bad; each of these skips the rest of the block. All others are
      taken, whatever their type. */
  lemma HeaderIs(extend: Checksum, checked: bool, f: Bytes, p: nat, length: nat, end: nat)
    requires p % 32768 <= 32761 && p + 7 <= |f| && end == EndAt(f, p)
    requires length == f[p + 4] as int + 256 * f[p + 5] as int
    ensures end < p + 7 + length ==>
      PhysicalAt(extend, checked, f, p) == if end % 32768 == 0 then Read(6, [], end, [end - p]) else Read(5, [], end, [])
    ensures p + 7 + length <= end && f[p + 6] == 0 && length == 0 ==> PhysicalAt(extend, checked, f, p) == Read(6, [], end, [])
    ensures p + 7 + length <= end && (f[p + 6] != 0 || length != 0) ==>
      var crc := extend(0, f[p + 6..p + 7 + length]);
      PhysicalAt(extend, checked, f, p)
      == if checked && f[p..p + 4] != Digits((crc / 32768 + crc % 32768 * 131072 + 2726488792) % 4294967296)
         then Read(6, [], end, [end - p])
         else Read(f[p + 6], f[p + 7..p + 7 + length], p + 7 + length, [])
  {
    hide Mask, Unmask, Unfixed4, Digits;
    var b := f[p..end];
    WholeBlock(f, p, end);
    assert Skip(p) == p && Min(BlockEnd(p), |f|) == end && (end == BlockEnd(p) <==> end % 32768 == 0);
    assert b[4] == f[p + 4] && b[5] == f[p + 5] && b[6] == f[p + 6];
    if p + 7 + length <= end && (f[p + 6] != 0 || length != 0) {
      assert b[6..7 + length] == f[p + 6..p + 7 + length] && b[7..7 + length] == f[p + 7..p + 7 + length];
      assert b[..4] == f[p..p + 4];
      var crc := extend(0, f[p + 6..p + 7 + length]);
      SameChecksum(f[p..p + 4], crc);
      MaskIs(crc);
    }
  }

  lemma WholeBlock(f: Bytes, p: nat, end: nat)
    requires p < |f| && end == EndAt(f, p)
    ensures end % 32768 == 0 <==> p - p % 32768 + 32768 <= |f|
    ensures p < end <= |f|
  {
  }

  /** Where no header fits the next block is read, if there is one. */
  lemma NoHeaderIs(extend: Checksum, checked: bool, f: Bytes, p: nat, left: nat)
    requires p <= |f| && left == 32768 - p % 32768
    ensures 7 <= left && |f| < p + 7 ==> PhysicalAt(extend, checked, f, p) == Read(5, [], |f|, [])
    ensures left < 7 && |f| < p + left ==> PhysicalAt(extend, checked, f, p) == Read(5, [], |f|, [])
    ensures left < 7 && p + left <= |f| ==> PhysicalAt(extend, checked, f, p) == PhysicalAt(extend, checked, f, p + left)
  {
    hide ParseBuffer;
    BlockStart(p, left);
  }
}
