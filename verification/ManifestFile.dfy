/** Recovery from the bytes of a manifest, whole or torn (db/version_set.cc). */
module ManifestFiles {
  import opened Keys
  import opened Coding
  import opened Crc
  import opened LogFormat
  import opened EditCodec
  import opened Manifest
  import LogFiles = Log

  /** Reads the manifest and replays it; checksums are verified, and whatever
      the reader reports fails the recovery. */
  method RecoverFile(tables: Tables, comparator: Bytes, extend: Checksum, file: Bytes) returns (r: Recovered)
    requires var log := LogFrom(extend, true, file, 0);
      log.drops == [] ==> Replayable(tables, ScanRecords(log.records, comparator).edits)
    ensures var log := LogFrom(extend, true, file, 0);
      if log.drops == [] then RecoversTo(tables, ScanRecords(log.records, comparator), r) else r == Failed
  {
    hide LogFrom, ScanRecords, Replayable, RecoversTo;
    var records, drops := LogFiles.ReadLog(extend, true, file);
    if drops != [] {
      return Failed;
    }
    r := Recover(tables, comparator, records);
  }

  /** How many records lie whole in the first `n` bytes of the log. */
  lemma {:induction false} WholeRecords(extend: Checksum, records: seq<Bytes>, n: nat, from: nat) returns (k: nat)
    requires from <= |records| && EndOf(extend, records, from) <= n
    ensures from <= k <= |records| && EndOf(extend, records, k) <= n
    ensures k < |records| ==> n < EndOf(extend, records, k + 1)
    decreases |records| - from
  {
    hide EndOf;
    k := from;
    if from < |records| && EndOf(extend, records, from + 1) <= n {
      k := WholeRecords(extend, records, n, from + 1);
    }
  }

  lemma StartsAtZero(extend: Checksum, records: seq<Bytes>)
    ensures EndOf(extend, records, 0) == 0
  {
  }

  /** Main result: a manifest cut off after any number of bytes recovers the
      state after its last whole edit; the whole manifest, that last installed. */
  method ReopenTorn(v: VersionSet, extend: Checksum, n: nat) returns (r: Recovered, ghost k: nat)
    requires v.Valid() && v.hasManifest && IsChecksum(extend) && n <= |FileBytes(extend, v.records)|
    ensures k <= |v.edits| == |v.records| && EndOf(extend, v.records, k) <= n
    ensures k < |v.records| ==> n < EndOf(extend, v.records, k + 1)
    ensures RecoversTo(v.tables, Scan(v.edits[..k], true), r)
    ensures k == |v.records| ==>
      r == Recovered(v.levels, v.logNumber, v.prevLogNumber, v.installedNextFile + 1, v.installedSequence)
  {
    hide LogFrom, ScanRecords, Replayable, RecoversTo, EndOf, FileBytes;
    StartsAtZero(extend, v.records);
    k := WholeRecords(extend, v.records, n, 0);
    TornLogIsRead(extend, true, v.records, n, 0, k);
    v.RecoveryScans(k);
    ReplayablePrefix(v.tables, v.edits, k);
    assert v.records[0..k] == v.records[..k];
    r := RecoverFile(v.tables, v.comparator, extend, FileBytes(extend, v.records)[..n]);
    if k == |v.records| {
      assert v.edits[..k] == v.edits;
      v.WholeReplay(r);
    }
  }
}
