/** Replaying a log after a crash (db/db_impl.cc RecoverLogFile). */
module Recovery {
  import opened Keys
  import opened Coding
  import opened Crc
  import opened LogFormat
  import opened WriteQueue
  import opened WriteBatches
  import LogFiles = Log

  /** The memtable entries in order, the largest sequence number met, and
      whether all went well. */
  datatype Replay = Replay(mem: seq<Numbered>, maxSequence: nat, ok: bool)

  /** The number of a batch's last operation, in 64 bits. */
  function LastSequence(batch: Bytes): nat
    requires WriteBatches.HEADER <= |batch|
  {
    (Unfixed(batch[..8]) + Unfixed(batch[8..12]) + TWO64 - 1) % TWO64
  }

  /** One record: a batch is applied as far as it can be read; errors count
      only under paranoid checks. */
  function Applied(s: Replay, record: Bytes, paranoid: bool): Replay {
    if |record| < WriteBatches.HEADER then s.(ok := s.ok && !paranoid)
    else
      var batch := ParseOps(record[WriteBatches.HEADER..]);
      var mem := s.mem + Number(batch.ops, Unfixed(record[..8]));
      var fine := batch.complete && |batch.ops| == Unfixed(record[8..12]);
      if paranoid && !fine then Replay(mem, s.maxSequence, false)
      else Replay(mem, if LastSequence(record) > s.maxSequence then LastSequence(record) else s.maxSequence, s.ok)
  }

  /** Recovery of any byte string from position `p` on. */
  function ReplayFrom(extend: Checksum, f: Bytes, p: nat, s: Replay, paranoid: bool): Replay
    requires p <= |f|
    decreases |f| - p
  {
    var r := RecordAt(extend, true, f, p, false, []);
    var t := s.(ok := s.ok && !(paranoid && r.drops != []));
    if r.record.None? || !t.ok then t
    else
      var u := Applied(t, r.record.value, paranoid);
      if u.ok then ReplayFrom(extend, f, r.next, u, paranoid) else u
  }

  /** The loop of RecoverLogFile; checksums are always verified. */
  method RecoverLogFile(extend: Checksum, file: Bytes, maxSequence: nat, paranoid: bool) returns (s: Replay)
    ensures s == ReplayFrom(extend, file, 0, Replay([], maxSequence, true), paranoid)
  {
    hide RecordAt;
    var reader := new LogFiles.Reader(extend, true, file);
    s := Replay([], maxSequence, true);
    ghost var goal := ReplayFrom(extend, file, 0, s, paranoid);
    while true
      invariant reader.Valid() && reader.source == file && reader.extend == extend && reader.checked
      invariant s.ok && goal == ReplayFrom(extend, file, reader.Position(), s, paranoid)
      decreases |file| - reader.Position()
    {
      var before := |reader.drops|;
      var record := reader.ReadRecord();
      if paranoid && |reader.drops| > before {
        s := s.(ok := false);
      }
      if record.None? || !s.ok {
        return;
      }
      s := ApplyRecord(s, record.value, paranoid);
      if !s.ok {
        return;
      }
    }
  }

  /** The body of the loop for one record. */
  method ApplyRecord(s0: Replay, record: Bytes, paranoid: bool) returns (s: Replay)
    ensures s == Applied(s0, record, paranoid)
  {
    hide ParseOps;
    s := s0;
    if |record| < WriteBatches.HEADER {
      return s.(ok := s.ok && !paranoid);
    }
    var batch := new WriteBatch();
    batch.rep := record;
    var status, mem := batch.InsertInto(s.mem);
    s := s.(mem := mem);
    if !status && paranoid {
      return s.(ok := false);
    }
    var lastSeq := LastSequence(record);
    if lastSeq > s.maxSequence {
      s := s.(maxSequence := lastSeq);
    }
  }

  // ----- Recovery of any file -----

  /** A record that is a whole batch with the right count. */
  predicate Fine(record: Bytes) {
    12 <= |record| && ParseOps(record[12..]).complete && |ParseOps(record[12..]).ops| == Unfixed(record[8..12])
  }

  /** The operations that a record brings: those that can be read, numbered from
      the record's number on. */
  function Brought(record: Bytes): seq<Numbered> {
    if |record| < 12 then [] else Number(ParseOps(record[12..]).ops, Unfixed(record[..8]))
  }

  function AllBrought(records: seq<Bytes>): seq<Numbered> {
    if records == [] then [] else Brought(records[0]) + AllBrought(records[1..])
  }

  /** What one record does. Its last number counts as if all operations that it
      announces were there. */
  lemma AppliedIs(s: Replay, record: Bytes, paranoid: bool)
    requires s.ok
    ensures var r := Applied(s, record, paranoid);
      && r.ok == (paranoid ==> Fine(record)) && r.mem == s.mem + Brought(record)
      && r.maxSequence
         == if 12 <= |record| && r.ok
               && (Unfixed(record[..8]) + Unfixed(record[8..12]) - 1) % 18446744073709551616 > s.maxSequence
            then (Unfixed(record[..8]) + Unfixed(record[8..12]) - 1) % 18446744073709551616 else s.maxSequence
  {
    hide ParseOps, Unfixed, Number;
    if 12 <= |record| {
      WrapsOnce(Unfixed(record[..8]) + Unfixed(record[8..12]));
    } else {
      assert s.mem + [] == s.mem;
    }
  }

  lemma WrapsOnce(n: nat)
    ensures (n + TWO64 - 1) % TWO64 == (n - 1) % 18446744073709551616
  {
  }

  /** What the loop does with one record. */
  lemma ReplayStep(extend: Checksum, f: Bytes, p: nat, s: Replay, paranoid: bool)
    requires p <= |f| && s.ok
    ensures
      var r, log := RecordAt(extend, true, f, p, false, []), LogFrom(extend, true, f, p);
      var t := s.(ok := !(paranoid && r.drops != []));
      && (r.record.None? ==> log.records == [] && log.drops == r.drops && ReplayFrom(extend, f, p, s, paranoid) == t)
      && (r.record.Some? ==>
            var u := Applied(t, r.record.value, paranoid);
            && log.records == [r.record.value] + LogFrom(extend, true, f, r.next).records
            && log.drops == r.drops + LogFrom(extend, true, f, r.next).drops
            && ReplayFrom(extend, f, p, s, paranoid)
               == if !t.ok then t else if u.ok then ReplayFrom(extend, f, r.next, u, paranoid) else u)
  {
    hide RecordAt, Applied;
  }

  /** Main result: of any file, damaged or not, recovery without paranoid checks
      never fails and applies all that can be read of the records delivered. */
  lemma {:induction false} ReplaysRecords(extend: Checksum, f: Bytes, p: nat, s: Replay)
    requires p <= |f| && s.ok
    ensures ReplayFrom(extend, f, p, s, false).ok
    ensures ReplayFrom(extend, f, p, s, false).mem == s.mem + AllBrought(LogFrom(extend, true, f, p).records)
    decreases |f| - p
  {
    hide RecordAt, Applied, LogFrom, ReplayFrom, Brought;
    ReplayStep(extend, f, p, s, false);
    var r := RecordAt(extend, true, f, p, false, []);
    if r.record.Some? {
      AppliedIs(s, r.record.value, false);
      ReplaysRecords(extend, f, r.next, Applied(s, r.record.value, false));
      var log := LogFrom(extend, true, f, p);
      assert log.records[1..] == LogFrom(extend, true, f, r.next).records;
    }
  }

  /** With paranoid checks recovery succeeds exactly when nothing was dropped and
      every record is a whole batch, and then it does the same. */
  lemma {:induction false} ParanoidReplays(extend: Checksum, f: Bytes, p: nat, s: Replay)
    requires p <= |f| && s.ok
    ensures
      var log := LogFrom(extend, true, f, p);
      ReplayFrom(extend, f, p, s, true).ok <==> (log.drops == [] && forall record <- log.records :: Fine(record))
    ensures ReplayFrom(extend, f, p, s, true).ok ==> ReplayFrom(extend, f, p, s, true) == ReplayFrom(extend, f, p, s, false)
    decreases |f| - p
  {
    hide RecordAt, Applied, LogFrom, ReplayFrom, Brought, Fine;
    ReplayStep(extend, f, p, s, true);
    ReplayStep(extend, f, p, s, false);
    var r := RecordAt(extend, true, f, p, false, []);
    if r.record.Some? {
      var record := r.record.value;
      AppliedIs(s, record, true);
      AppliedIs(s, record, false);
      if Fine(record) {
        SameWhenFine(s, record);
        ParanoidReplays(extend, f, r.next, Applied(s, record, true));
      }
    }
  }

  lemma SameWhenFine(s: Replay, record: Bytes)
    requires s.ok && Fine(record)
    ensures Applied(s, record, true) == Applied(s, record, false)
  {
    hide ParseOps, Unfixed, Number, LastSequence;
  }

  // ----- Recovery after a crash -----

  /** The log records of the commit groups as bytes. */
  function Encoded(log: seq<WriteQueue.Record>): (r: seq<Bytes>)
    ensures |r| == |log| && forall i | 0 <= i < |r| :: r[i] == BatchBytes(log[i].base, log[i].ops)
  {
    seq(|log|, i requires 0 <= i < |log| => BatchBytes(log[i].base, log[i].ops))
  }

  predicate Writable(r: WriteQueue.Record) {
    |r.ops| < TWO32 && r.base + |r.ops| <= TWO64 && r.base < TWO64 && forall op <- r.ops :: WriteBatches.Fits(op)
  }

  function Max(a: nat, b: nat): nat {
    if a > b then a else b
  }

  lemma NumberConcat(a: seq<Op>, b: seq<Op>)
    ensures Number(a, 1) + Number(b, 1 + |a|) == Number(a + b, 1)
  {
  }

  lemma AppliesGroup(s: Replay, r: WriteQueue.Record, done: seq<Op>, paranoid: bool, max: nat)
    requires Writable(r) && r.base == 1 + |done| && s == Replay(Number(done, 1), Max(max, |done|), true)
    ensures Applied(s, BatchBytes(r.base, r.ops), paranoid) == Replay(Number(done + r.ops, 1), Max(max, |done + r.ops|), true)
  {
    hide ParseOps, BatchBytes, Unfixed, Number;
    BatchRoundTrip(r.base, r.ops);
    NumberConcat(done, r.ops);
    LastOfGroup(r.base, |r.ops|);
  }

  lemma LastOfGroup(base: nat, n: nat)
    requires 1 <= base && base + n <= TWO64
    ensures (base + n + TWO64 - 1) % TWO64 == base + n - 1
  {
  }

  /** Records that read back cleanly are applied one by one. */
  lemma {:induction false} ReplaysGroups(extend: Checksum, file: Bytes, p: nat, log: seq<WriteQueue.Record>, j: nat, k: nat,
                                         s: Replay, paranoid: bool, max: nat)
    requires p <= |file| && j <= k <= |log| && RangesOk(log) && forall r <- log :: Writable(r)
    requires LogFrom(extend, true, file, p) == LogFormat.Log(Encoded(log)[j..k], [])
    requires s == Replay(Number(LogOps(log[..j]), 1), Max(max, |LogOps(log[..j])|), true)
    ensures ReplayFrom(extend, file, p, s, paranoid)
         == Replay(Number(LogOps(log[..k]), 1), Max(max, |LogOps(log[..k])|), true)
    decreases k - j
  {
    hide RecordAt, LogFrom, Applied, Number, Writable, RangesOk, LogOps, BatchBytes;
    if j < k {
      assert Encoded(log)[j..k] == [Encoded(log)[j]] + Encoded(log)[j + 1..k];
      FirstRecord(extend, file, p, Encoded(log)[j], Encoded(log)[j + 1..k]);
      GroupAt(log, j);
      AppliesGroup(s, log[j], LogOps(log[..j]), paranoid, max);
      var next := RecordAt(extend, true, file, p, false, []).next;
      ReplaysGroups(extend, file, next, log, j + 1, k, Applied(s, Encoded(log)[j], paranoid), paranoid, max);
    } else {
      NoRecord(extend, file, p);
    }
  }

  lemma FirstRecord(extend: Checksum, file: Bytes, p: nat, record: Bytes, others: seq<Bytes>)
    requires p <= |file| && LogFrom(extend, true, file, p) == LogFormat.Log([record] + others, [])
    ensures var r := RecordAt(extend, true, file, p, false, []);
      r.record == Some(record) && r.drops == [] && LogFrom(extend, true, file, r.next) == LogFormat.Log(others, [])
  {
    hide RecordAt;
    var r := RecordAt(extend, true, file, p, false, []);
    if r.record.Some? {
      var rest := LogFrom(extend, true, file, r.next);
      assert ([r.record.value] + rest.records)[1..] == rest.records && ([record] + others)[1..] == others;
    }
  }

  lemma NoRecord(extend: Checksum, file: Bytes, p: nat)
    requires p <= |file| && LogFrom(extend, true, file, p) == LogFormat.Log([], [])
    ensures var r := RecordAt(extend, true, file, p, false, []); r.record == None && r.drops == []
  {
    hide RecordAt;
  }

  lemma GroupAt(log: seq<WriteQueue.Record>, j: nat)
    requires j < |log| && RangesOk(log)
    ensures log[j] in log && log[j].base == 1 + |LogOps(log[..j])|
    ensures LogOps(log[..j + 1]) == LogOps(log[..j]) + log[j].ops
  {
    assert log[..j + 1][..j] == log[..j];
  }

  /** Every length of the file ends in or behind some record. */
  lemma {:induction false} CutAfter(extend: Checksum, records: seq<Bytes>, n: nat, from: nat) returns (k: nat)
    requires from <= |records| && EndOf(extend, records, from) <= n <= |FileBytes(extend, records)|
    ensures from <= k <= |records| && EndOf(extend, records, k) <= n
    ensures k < |records| ==> n < EndOf(extend, records, k + 1)
    decreases |records| - from
  {
    hide FileBytes;
    if from < |records| && EndOf(extend, records, from + 1) <= n {
      k := CutAfter(extend, records, n, from + 1);
    } else {
      k := from;
    }
  }

  lemma LogRecovers(log: seq<WriteQueue.Record>, synced: nat, extend: Checksum, n: nat, paranoid: bool, max: nat) returns (k: nat)
    requires IsChecksum(extend) && RangesOk(log) && (forall r <- log :: Writable(r)) && synced <= |log|
    requires EndOf(extend, Encoded(log), synced) <= n <= |FileBytes(extend, Encoded(log))|
    ensures synced <= k <= |log|
    ensures ReplayFrom(extend, FileBytes(extend, Encoded(log))[..n], 0, Replay([], max, true), paranoid)
         == Replay(Number(LogOps(log[..k]), 1), Max(max, |LogOps(log[..k])|), true)
  {
    hide RecordAt, FileBytes, LogFrom, ReplayFrom, RangesOk, Writable, BatchBytes;
    var records := Encoded(log);
    k := CutAfter(extend, records, n, synced);
    NothingBefore(extend, records);
    TornLogIsRead(extend, true, records, n, 0, k);
    ReplaysGroups(extend, FileBytes(extend, records)[..n], 0, log, 0, k, Replay([], max, true), paranoid, max);
  }

  /** The operations are those of the first calls, and all completed sync writes are among them. */
  ghost predicate HoldsTheSynced(st: WriteQueue.State, ops: seq<Op>) {
    && 0 <= LoggedTo(st) <= |st.requests| && ops <= OpsOf(st.requests, LoggedTo(st))
    && forall id: nat | (id in st.returned || id in st.done) && id < |st.requests|
         && st.requests[id].sync && st.requests[id].batch.Some? :: |OpsOf(st.requests, id + 1)| <= |ops|
  }

  /** What recovery from the first `n` bytes of the log finds: whole groups. */
  ghost predicate Recovers(st: WriteQueue.State, extend: Checksum, n: nat, paranoid: bool, max: nat, k: nat)
    requires n <= |FileBytes(extend, Encoded(st.log))|
  {
    && st.syncedTo <= k <= |st.log| && HoldsTheSynced(st, LogOps(st.log[..k]))
    && ReplayFrom(extend, FileBytes(extend, Encoded(st.log))[..n], 0, Replay([], max, true), paranoid)
       == Replay(Number(LogOps(st.log[..k]), 1), Max(max, |LogOps(st.log[..k])|), true)
  }

  lemma GroupsHoldTheSynced(st: WriteQueue.State, k: nat)
    requires WriteQueue.Invariant(st) && st.syncedTo <= k <= |st.log|
    ensures HoldsTheSynced(st, LogOps(st.log[..k]))
  {
    OrderFollows(st);
    hide OpsOf, LogOps, Number, RangesOk;
    LogPrefix(st.log, st.syncedTo, k);
    LogPrefix(st.log, k, |st.log|);
    assert st.log[..|st.log|] == st.log;
  }

  lemma LogIsInOrder(st: WriteQueue.State)
    requires WriteQueue.Invariant(st)
    ensures RangesOk(st.log)
  {
  }

  /** The file after a crash: at least the synced records, at most all of them. */
  ghost predicate Survives(st: WriteQueue.State, extend: Checksum, n: nat) {
    st.syncedTo <= |st.log| && EndOf(extend, Encoded(st.log), st.syncedTo) <= n <= |FileBytes(extend, Encoded(st.log))|
  }

  /** Main result: after any run of concurrent writers and a crash that leaves
      any prefix of the log file that holds the synced records, recovery yields,
      without an error, the operations of the first `k` commit groups with their
      numbers: a prefix of the calls in order of arrival in which no group is cut
      in two and no completed sync write is missing. */
  lemma CrashRecovers(run: seq<WriteQueue.Step>, extend: Checksum, n: nat, paranoid: bool, max: nat) returns (k: nat)
    requires IsRun(WriteQueue.INITIAL, run) && IsChecksum(extend)
    requires forall r <- WriteQueue.Final(WriteQueue.INITIAL, run).log :: Writable(r)
    requires Survives(WriteQueue.Final(WriteQueue.INITIAL, run), extend, n)
    ensures Recovers(WriteQueue.Final(WriteQueue.INITIAL, run), extend, n, paranoid, max, k)
  {
    WriteQueue.InitiallyHolds();
    hide WriteQueue.Final, WriteQueue.Invariant, FileBytes, ReplayFrom, OpsOf, LogOps, Writable, RangesOk, HoldsTheSynced, Number;
    WriteQueue.RunKeeps(WriteQueue.INITIAL, run);
    var st := WriteQueue.Final(WriteQueue.INITIAL, run);
    LogIsInOrder(st);
    k := LogRecovers(st.log, st.syncedTo, extend, n, paranoid, max);
    GroupsHoldTheSynced(st, k);
  }

  lemma NothingBefore(extend: Checksum, records: seq<Bytes>)
    ensures EndOf(extend, records, 0) == 0
  {
  }

  lemma {:induction false} LogPrefix(log: seq<WriteQueue.Record>, a: nat, b: nat)
    requires a <= b <= |log|
    ensures LogOps(log[..a]) <= LogOps(log[..b])
  {
    if a < b {
      LogPrefix(log, a, b - 1);
      assert log[..b][..b - 1] == log[..b - 1];
    }
  }
}
