/** The format of log files and what a reader makes of any byte string
    (db/log_format.h, db/log_writer.cc, db/log_reader.cc). */
module LogFormat {
  import opened Keys
  import opened Coding
  import opened Crc

  // ----- Physical records -----

  const BLOCK: nat := 32768
  const HEADER: nat := 7

  const ZERO_TYPE: byte := 0
  const FULL: byte := 1
  const FIRST: byte := 2
  const MIDDLE: byte := 3
  const LAST: byte := 4
  const EOF: byte := 5
  const BAD: byte := 6

  function TypeOf(begin: bool, end: bool): byte {
    if begin then if end then FULL else FIRST else if end then LAST else MIDDLE
  }

  function Physical(extend: Checksum, kind: byte, data: Bytes): (r: Bytes)
    requires |data| <= 0xffff
    ensures |r| == HEADER + |data|
  {
    Fixed(Mask(extend(extend(0, [kind]), data)), 4) + [|data| % 256, |data| / 256, kind] + data
  }

  // ----- Logical records -----

  function Zeros(n: nat): (r: Bytes)
    ensures |r| == n
  {
    seq(n, _ => 0)
  }

  /** Where the next physical record starts: a block's last bytes that cannot
      hold a header are a trailer. */
  function Skip(p: nat): (o: nat)
    ensures p <= o && BLOCK - o % BLOCK >= HEADER
  {
    if BLOCK - p % BLOCK < HEADER then p + (BLOCK - p % BLOCK) else p
  }

  function Min(a: nat, b: nat): nat {
    if a < b then a else b
  }

  /** The length of the fragment that a record starts with at `p`. */
  function FragmentAt(data: Bytes, p: nat): (m: nat)
    ensures m <= |data| && Skip(p) % BLOCK + HEADER + m <= BLOCK
    ensures m < |data| ==> (Skip(p) + HEADER + m) % BLOCK == 0
  {
    Min(|data|, BLOCK - Skip(p) % BLOCK - HEADER)
  }

  /** The bytes that a record, or the rest of one, takes at position `p`. */
  function RecordBytes(extend: Checksum, data: Bytes, p: nat, begin: bool): Bytes
    decreases |data|, if BLOCK - p % BLOCK == HEADER then 1 else 0
  {
    var o, n := Skip(p), FragmentAt(data, p);
    var first := Zeros(o - p) + Physical(extend, TypeOf(begin, n == |data|), data[..n]);
    if n == |data| then first
    else first + RecordBytes(extend, data[n..], o + HEADER + n, false)
  }

  function FileBytes(extend: Checksum, records: seq<Bytes>): Bytes {
    if records == [] then []
    else
      var front := FileBytes(extend, records[..|records| - 1]);
      front + RecordBytes(extend, records[|records| - 1], |front|, true)
  }

  // ----- Reading any byte string -----

  datatype Read = Read(kind: byte, data: Bytes, next: nat, drops: seq<nat>)

  datatype Parse = Parse(kind: byte, data: Bytes, used: nat, drops: seq<nat>)

  /** What the rest of a block from a header on starts with; `complete` says
      that the block is not cut short by the end of the file. */
  function ParseBuffer(extend: Checksum, checked: bool, b: Bytes, complete: bool): (r: Parse)
    requires HEADER <= |b|
    ensures 0 < r.used <= |b|
  {
    var length := b[4] as int + 256 * b[5] as int;
    if HEADER + length > |b| then
      if complete then Parse(BAD, [], |b|, [|b|]) else Parse(EOF, [], |b|, [])
    else if b[6] == ZERO_TYPE && length == 0 then Parse(BAD, [], |b|, [])
    else if checked && extend(0, b[6..HEADER + length]) != Unmask(Unfixed4(b[..4])) then Parse(BAD, [], |b|, [|b|])
    else Parse(b[6], b[HEADER..HEADER + length], HEADER + length, [])
  }

  /** What reading one physical record at `p` finds in file `f`: its type, or
      the marks for the end of the file and for a bad record; its payload; where
      reading goes on; and the sizes of the drops reported. */
  function PhysicalAt(extend: Checksum, checked: bool, f: Bytes, p: nat): (r: Read)
    requires p <= |f|
    ensures p <= r.next <= |f| && (r.kind != EOF ==> p < r.next)
  {
    var o := Skip(p);
    if |f| < o + HEADER then Read(EOF, [], |f|, [])
    else
      var limit := Min(BlockEnd(o), |f|);
      var r := ParseBuffer(extend, checked, f[o..limit], limit == BlockEnd(o));
      Read(r.kind, r.data, o + r.used, r.drops)
  }

  function BlockEnd(p: nat): (e: nat)
    ensures p < e <= p + BLOCK
  {
    p - p % BLOCK + BLOCK
  }

  datatype Record = Record(record: Option<Bytes>, next: nat, drops: seq<nat>)

  /** What a physical record does to the record being put together: it ends
      it, or reading goes on with the fragments so far; and the drops reported. */
  datatype Effect = Delivers(record: Option<Bytes>, drops: seq<nat>) | Continues(inRecord: bool, scratch: Bytes, drops: seq<nat>)

  function EffectOf(kind: byte, data: Bytes, inRecord: bool, scratch: Bytes): Effect {
    var unfinished := if inRecord && scratch != [] then [|scratch|] else [];
    if kind == EOF then Delivers(None, [])
    else if kind == FULL then Delivers(Some(data), unfinished)
    else if kind == FIRST then Continues(true, data, unfinished)
    else if kind == MIDDLE then
      if inRecord then Continues(true, scratch + data, []) else Continues(false, scratch, [|data|])
    else if kind == LAST then
      if inRecord then Delivers(Some(scratch + data), []) else Continues(false, scratch, [|data|])
    else if kind == BAD then
      if inRecord then Continues(false, [], [|scratch|]) else Continues(false, scratch, [])
    else Continues(false, [], [|data| + if inRecord then |scratch| else 0])
  }

  /** What reading one logical record from `p` finds. */
  function RecordAt(extend: Checksum, checked: bool, f: Bytes, p: nat, inRecord: bool, scratch: Bytes): (r: Record)
    requires p <= |f|
    ensures p <= r.next <= |f| && (r.record.Some? ==> p < r.next)
    decreases |f| - p
  {
    var phys := PhysicalAt(extend, checked, f, p);
    match EffectOf(phys.kind, phys.data, inRecord, scratch)
    case Delivers(record, drops) => Record(record, phys.next, phys.drops + drops)
    case Continues(inRecord1, scratch1, drops) =>
      var rest := RecordAt(extend, checked, f, phys.next, inRecord1, scratch1);
      rest.(drops := phys.drops + drops + rest.drops)
  }

  datatype Log = Log(records: seq<Bytes>, drops: seq<nat>)

  /** All records that reading from `p` until no more is found delivers. */
  function LogFrom(extend: Checksum, checked: bool, f: Bytes, p: nat): Log
    requires p <= |f|
    decreases |f| - p
  {
    var r := RecordAt(extend, checked, f, p, false, []);
    if r.record.None? then Log([], r.drops)
    else
      var rest := LogFrom(extend, checked, f, r.next);
      Log([r.record.value] + rest.records, r.drops + rest.drops)
  }

  // ----- Round trip with a torn tail -----

  /** A whole physical record is read back; of one cut short nothing is read
      and nothing is reported. */
  lemma ReadsPhysical(extend: Checksum, checked: bool, whole: Bytes, n: nat, p: nat, kind: byte, data: Bytes)
    requires IsChecksum(extend) && p <= n <= |whole| && 0 < kind < EOF
    requires |data| <= 0xffff && Skip(p) % BLOCK + HEADER + |data| <= BLOCK
    requires Sits(whole, Skip(p), Physical(extend, kind, data))
    ensures PhysicalAt(extend, checked, whole[..n], p)
         == if Skip(p) + HEADER + |data| <= n then Read(kind, data, Skip(p) + HEADER + |data|, [])
            else Read(EOF, [], n, [])
  {
    hide Mask, Unmask;
    var o, f := Skip(p), whole[..n];
    PhysicalSits(extend, whole, o, kind, data);
    if o + HEADER <= n {
      var limit := Min(BlockEnd(o), n);
      var b := f[o..limit];
      assert forall k | 0 <= k < |b| :: b[k] == f[o + k] == whole[o + k];
      assert b[4] == whole[o + 4] && b[5] == whole[o + 5] && b[6] == whole[o + 6];
      if o + HEADER + |data| <= n {
        Slices(whole, n, o, limit, 6, HEADER + |data|);
        Slices(whole, n, o, limit, HEADER, HEADER + |data|);
        Slices(whole, n, o, limit, 0, 4);
        assert b[..4] == b[0..4];
      }
    }
  }

  lemma Slices(whole: Bytes, n: nat, o: nat, limit: nat, i: nat, j: nat)
    requires i <= j && o + j <= limit <= n <= |whole|
    ensures whole[..n][o..limit][i..j] == whole[o + i..o + j]
  {
    var f := whole[..n];
    var b := f[o..limit];
    assert forall k | 0 <= k < |b| :: b[k] == f[o + k] == whole[o + k];
  }

  lemma PhysicalSits(extend: Checksum, whole: Bytes, o: nat, kind: byte, data: Bytes)
    requires IsChecksum(extend) && |data| <= 0xffff && Sits(whole, o, Physical(extend, kind, data))
    ensures o + HEADER + |data| <= |whole|
    ensures whole[o + 4] as int + 256 * whole[o + 5] as int == |data| && whole[o + 6] == kind
    ensures whole[o + HEADER..o + HEADER + |data|] == data
    ensures extend(0, whole[o + 6..o + HEADER + |data|]) == Unmask(Unfixed4(whole[o..o + 4]))
  {
    var crc := extend(extend(0, [kind]), data);
    SitsParts(whole, o, Fixed(Mask(crc), 4) + [|data| % 256, |data| / 256, kind], data);
    SitsParts(whole, o, Fixed(Mask(crc), 4), [|data| % 256, |data| / 256, kind]);
    var mid := whole[o + 4..o + 7];
    assert mid == [|data| % 256, |data| / 256, kind];
    assert whole[o + 4] == mid[0] && whole[o + 5] == mid[1] && whole[o + 6] == mid[2];
    assert whole[o + 6..o + HEADER + |data|] == [kind] + data;
    StoredChecksum(crc);
  }

  /** A record is a fragment followed by the rest of the record. */
  lemma RecordParts(extend: Checksum, whole: Bytes, p: nat, data: Bytes, begin: bool)
    requires Sits(whole, p, RecordBytes(extend, data, p, begin))
    ensures
      var m := FragmentAt(data, p);
      var q := Skip(p) + HEADER + m;
      && Sits(whole, Skip(p), Physical(extend, TypeOf(begin, m == |data|), data[..m]))
      && (m == |data| ==> q == p + |RecordBytes(extend, data, p, begin)|)
      && (m < |data| ==>
            && Sits(whole, q, RecordBytes(extend, data[m..], q, false))
            && q + |RecordBytes(extend, data[m..], q, false)| == p + |RecordBytes(extend, data, p, begin)|)
  {
    hide Physical;
    var o, m := Skip(p), FragmentAt(data, p);
    var phys := Physical(extend, TypeOf(begin, m == |data|), data[..m]);
    var first := Zeros(o - p) + phys;
    if m < |data| {
      SitsParts(whole, p, first, RecordBytes(extend, data[m..], o + HEADER + m, false));
    }
    SitsParts(whole, p, Zeros(o - p), phys);
  }

  /** How reading a logical record goes on after a good fragment or at the end. */
  lemma RecordStep(extend: Checksum, checked: bool, f: Bytes, p: nat, begin: bool, end: bool, data: Bytes, scratch: Bytes)
    requires p <= |f| && (begin ==> scratch == [])
    ensures PhysicalAt(extend, checked, f, p) == Read(EOF, [], |f|, []) ==>
              RecordAt(extend, checked, f, p, !begin, scratch) == Record(None, |f|, [])
    ensures var r := PhysicalAt(extend, checked, f, p);
      r.kind == TypeOf(begin, end) && r.data == data && r.drops == [] ==>
        RecordAt(extend, checked, f, p, !begin, scratch)
        == if end then Record(Some(scratch + data), r.next, [])
           else RecordAt(extend, checked, f, r.next, true, scratch + data)
  {
    hide PhysicalAt;
    assert begin ==> scratch + data == data;
  }

  lemma {:induction false} ReadsRecord(extend: Checksum, checked: bool, whole: Bytes, n: nat, p: nat,
                                       data: Bytes, begin: bool, scratch: Bytes)
    requires IsChecksum(extend) && p <= n <= |whole| && (begin ==> scratch == [])
    requires Sits(whole, p, RecordBytes(extend, data, p, begin))
    ensures
      var end := p + |RecordBytes(extend, data, p, begin)|;
      RecordAt(extend, checked, whole[..n], p, !begin, scratch)
      == if end <= n then Record(Some(scratch + data), end, []) else Record(None, n, [])
    decreases |data|, if BLOCK - p % BLOCK == HEADER then 1 else 0
  {
    hide RecordAt, RecordBytes, PhysicalAt, Physical, Sits, IsChecksum;
    var m := FragmentAt(data, p);
    var q := Skip(p) + HEADER + m;
    RecordParts(extend, whole, p, data, begin);
    ReadsPhysical(extend, checked, whole, n, p, TypeOf(begin, m == |data|), data[..m]);
    RecordStep(extend, checked, whole[..n], p, begin, m == |data|, data[..m], scratch);
    if m == |data| {
      assert data[..m] == data;
    } else if q <= n {
      ReadsRecord(extend, checked, whole, n, q, data[m..], false, scratch + data[..m]);
      assert scratch + data[..m] + data[m..] == scratch + data;
    }
  }

  function EndOf(extend: Checksum, records: seq<Bytes>, k: nat): nat
    requires k <= |records|
  {
    |FileBytes(extend, records[..k])|
  }

  lemma {:induction false} RecordSits(extend: Checksum, records: seq<Bytes>, k: nat)
    requires k < |records|
    ensures Sits(FileBytes(extend, records), EndOf(extend, records, k), RecordBytes(extend, records[k], EndOf(extend, records, k), true))
    ensures EndOf(extend, records, k + 1)
         == EndOf(extend, records, k) + |RecordBytes(extend, records[k], EndOf(extend, records, k), true)|
    ensures EndOf(extend, records, k + 1) <= |FileBytes(extend, records)|
  {
    hide Sits, RecordBytes;
    var m := |records| - 1;
    var front := FileBytes(extend, records[..m]);
    var last := RecordBytes(extend, records[m], |front|, true);
    assert FileBytes(extend, records) == front + last;
    if k == m {
      assert records[..k + 1] == records;
      SitsLast(front, last);
    } else {
      RecordSits(extend, records[..m], k);
      assert records[..m][..k] == records[..k] && records[..m][..k + 1] == records[..k + 1];
      SitsLonger(front, EndOf(extend, records, k), RecordBytes(extend, records[k], EndOf(extend, records, k), true), last);
    }
  }

  /** Main result: from any byte prefix of a log the reader gets exactly the
      records that lie wholly inside it, in order, and reports no corruption. */
  lemma {:induction false} TornLogIsRead(extend: Checksum, checked: bool, records: seq<Bytes>, n: nat, from: nat, k: nat)
    requires IsChecksum(extend) && from <= k <= |records|
    requires EndOf(extend, records, k) <= n <= |FileBytes(extend, records)|
    requires k < |records| ==> n < EndOf(extend, records, k + 1)
    ensures EndOf(extend, records, from) <= n
    ensures LogFrom(extend, checked, FileBytes(extend, records)[..n], EndOf(extend, records, from)) == Log(records[from..k], [])
    decreases k - from
  {
    hide RecordAt, RecordBytes, FileBytes, PhysicalAt, Sits, IsChecksum, EndOf;
    var whole := FileBytes(extend, records);
    if from < k {
      TornLogIsRead(extend, checked, records, n, from + 1, k);
      RecordSits(extend, records, from);
      ReadsRecord(extend, checked, whole, n, EndOf(extend, records, from), records[from], true, []);
      assert records[from..k] == [records[from]] + records[from + 1..k];
      assert [] + records[from] == records[from];
    } else if k < |records| {
      RecordSits(extend, records, k);
      ReadsRecord(extend, checked, whole, n, EndOf(extend, records, k), records[k], true, []);
    } else {
      WholeLog(extend, records);
      NothingAtEnd(extend, checked, whole[..n]);
    }
  }

  lemma WholeLog(extend: Checksum, records: seq<Bytes>)
    ensures EndOf(extend, records, |records|) == |FileBytes(extend, records)|
  {
    assert records[..|records|] == records;
  }

  lemma NothingAtEnd(extend: Checksum, checked: bool, f: Bytes)
    ensures RecordAt(extend, checked, f, |f|, false, []) == Record(None, |f|, [])
  {
  }
}
