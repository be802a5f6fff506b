/** The manifest (db/version_set.cc LogAndApply, WriteSnapshot, Recover): a log
    of version edits from which the current version can be rebuilt. */
module Manifest {
  import opened Keys
  import opened Coding
  import opened Files
  import opened Inputs
  import opened Engine
  import opened InternalKeys
  import opened VersionBuilder
  import opened EditCodec
  import Database

  /** What is stored in the table file with a number. */
  type Tables = nat -> seq<Entry>

  function KeyOf(ikey: Bytes): InternalKey {
    var p := ParseInternalKey(ikey);
    if p.Some? then Placed(p.value) else InternalKey(0.0, 0, Deletion)
  }

  function FileOf(tables: Tables, m: Meta): File {
    File(m.number, m.size, KeyOf(m.smallest), KeyOf(m.largest), tables(m.number))
  }

  function FileEditOf(tables: Tables, e: VersionEdit): FileEdit {
    FileEdit(e.deleted, seq(|e.newFiles|, i requires 0 <= i < |e.newFiles| => (e.newFiles[i].0, FileOf(tables, e.newFiles[i].1))))
  }

  ghost function FileEdits(tables: Tables, es: seq<VersionEdit>): (r: seq<FileEdit>)
    ensures |r| == |es|
  {
    seq(|es|, i requires 0 <= i < |es| => FileEditOf(tables, es[i]))
  }

  /** The value the last edit that has one gives. */
  function Latest(es: seq<VersionEdit>, get: VersionEdit -> Option<nat>): Option<nat> {
    if es == [] then None
    else
      var last := get(es[|es| - 1]);
      if last.Some? then last else Latest(es[..|es| - 1], get)
  }

  function LogOf(e: VersionEdit): Option<nat> { e.logNumber }
  function PrevLogOf(e: VersionEdit): Option<nat> { e.prevLogNumber }
  function NextFileOf(e: VersionEdit): Option<nat> { e.nextFile }
  function SequenceOf(e: VersionEdit): Option<nat> { e.lastSequence }

  // ----- Recovery -----

  /** The edits that recovery applies: up to the first record that does not
      decode or names another comparator. */
  datatype Scan = Scan(edits: seq<VersionEdit>, ok: bool)

  predicate Acceptable(d: Decoded, comparator: Bytes) {
    d.Ok? && (d.edit.comparator.Some? ==> d.edit.comparator.value == comparator)
  }

  function ScanRecords(records: seq<Bytes>, comparator: Bytes): Scan {
    if records == [] then Scan([], true)
    else
      var front := ScanRecords(records[..|records| - 1], comparator);
      var d := Decode(EMPTY, records[|records| - 1]);
      if front.ok && Acceptable(d, comparator) then Scan(front.edits + [d.edit], true)
      else Scan(front.edits, false)
  }

  /** No file number comes back to a level that has held it. */
  ghost predicate Replayable(tables: Tables, es: seq<VersionEdit>) {
    && (forall e <- es :: GoodEdit(FileEditOf(tables, e)))
    && forall l | 0 <= l < NUM_LEVELS :: NeverAddedAgain({}, FileEdits(tables, es), l)
  }

  datatype Recovered =
    | Recovered(levels: seq<seq<File>>, logNumber: nat, prevLogNumber: nat, nextFileNumber: nat, lastSequence: nat)
    | Failed

  ghost predicate RecoversTo(tables: Tables, scan: Scan, r: Recovered) {
    var log, next, last := Latest(scan.edits, LogOf), Latest(scan.edits, NextFileOf), Latest(scan.edits, SequenceOf);
    var prev := Latest(scan.edits, PrevLogOf);
    if !scan.ok || log.None? || next.None? || last.None? then r == Failed
    else
      && r.Recovered? && r.logNumber == log.value && r.nextFileNumber == next.value + 1 && r.lastSequence == last.value
      && r.prevLogNumber == (if prev.Some? then prev.value else 0)
      && |r.levels| == NUM_LEVELS
      && forall l | 0 <= l < NUM_LEVELS ::
           SortedBySmallest(r.levels[l]) && FilesOf(r.levels[l]) == Fold({}, FileEdits(tables, scan.edits), l)
  }

  lemma EditsAppended(tables: Tables, es: seq<VersionEdit>, e: VersionEdit)
    ensures FileEdits(tables, es + [e]) == FileEdits(tables, es) + [FileEditOf(tables, e)]
  {
    hide FileEditOf;
  }

  lemma {:induction false} ScanPrefix(records: seq<Bytes>, comparator: Bytes, n: nat)
    requires n <= |records|
    ensures ScanRecords(records[..n], comparator).edits <= ScanRecords(records, comparator).edits
    ensures !ScanRecords(records[..n], comparator).ok ==>
      !ScanRecords(records, comparator).ok && ScanRecords(records[..n], comparator).edits == ScanRecords(records, comparator).edits
  {
    hide Decode, Acceptable;
    if n < |records| {
      ScanPrefix(records[..|records| - 1], comparator, n);
      assert records[..|records| - 1][..n] == records[..n];
    } else {
      assert records[..n] == records;
    }
  }

  lemma {:induction false} ReplayablePrefix(tables: Tables, es: seq<VersionEdit>, n: nat)
    requires Replayable(tables, es) && n <= |es|
    ensures Replayable(tables, es[..n])
  {
    hide FileEditOf, GoodEdit;
    if n < |es| {
      var m := |es| - 1;
      assert FileEdits(tables, es)[..m] == FileEdits(tables, es[..m]);
      forall l | 0 <= l < NUM_LEVELS ensures NeverAddedAgain({}, FileEdits(tables, es)[..m], l) {
        assert NeverAddedAgain({}, FileEdits(tables, es), l);
      }
      ReplayablePrefix(tables, es[..m], n);
      assert es[..m][..n] == es[..n];
    } else {
      assert es[..n] == es;
    }
  }

  lemma LatestAppended(es: seq<VersionEdit>, e: VersionEdit, get: VersionEdit -> Option<nat>)
    ensures Latest(es + [e], get) == if get(e).Some? then get(e) else Latest(es, get)
  {
    assert (es + [e])[..|es|] == es;
  }

  lemma ScanStep(records: seq<Bytes>, comparator: Bytes, i: nat)
    requires i < |records|
    ensures
      var d, front := Decode(EMPTY, records[i]), ScanRecords(records[..i], comparator);
      ScanRecords(records[..i + 1], comparator)
      == if front.ok && Acceptable(d, comparator) then Scan(front.edits + [d.edit], true) else Scan(front.edits, false)
  {
    hide Decode, Acceptable;
    assert records[..i + 1][..i] == records[..i];
  }

  /** The next edit may be applied. */
  lemma NextReplays(tables: Tables, records: seq<Bytes>, comparator: Bytes, i: nat, e: VersionEdit)
    requires i < |records| && Replayable(tables, ScanRecords(records, comparator).edits)
    requires ScanRecords(records[..i + 1], comparator).edits == ScanRecords(records[..i], comparator).edits + [e]
    ensures GoodEdit(FileEditOf(tables, e))
    ensures forall l | 0 <= l < NUM_LEVELS ::
      NeverAddedAgain({}, FileEdits(tables, ScanRecords(records[..i], comparator).edits) + [FileEditOf(tables, e)], l)
  {
    hide Decode, Acceptable, NeverAddedAgain, FileEditOf, GoodEdit, ScanRecords;
    var all, now := ScanRecords(records, comparator).edits, ScanRecords(records[..i + 1], comparator).edits;
    ScanPrefix(records, comparator, i + 1);
    assert all[..|now|] == now;
    ReplayablePrefix(tables, all, |now|);
    EditsAppended(tables, ScanRecords(records[..i], comparator).edits, e);
    assert e in now;
  }

  /** Replays the records of a manifest. */
  method Recover(tables: Tables, comparator: Bytes, records: seq<Bytes>) returns (r: Recovered)
    requires Replayable(tables, ScanRecords(records, comparator).edits)
    ensures RecoversTo(tables, ScanRecords(records, comparator), r)
  {
    hide Decode, NeverAddedAgain, Fold, FileEditOf, GoodEdit, ScanRecords, Latest, Builder.Valid, Replayable;
    var empty: seq<seq<File>> := seq(NUM_LEVELS, _ => []);
    var builder := new Builder(empty);
    var log, prevLog, next, last: Option<nat> := None, None, None, None;
    var ok := true;
    var i := 0;
    NothingScanned(tables, records, comparator);
    while i < |records| && ok
      invariant i <= |records| && builder.Valid() && builder.base == empty
      invariant
        var scan := ScanRecords(records[..i], comparator);
        && ok == scan.ok && builder.edits == FileEdits(tables, scan.edits)
        && log == Latest(scan.edits, LogOf) && prevLog == Latest(scan.edits, PrevLogOf)
        && next == Latest(scan.edits, NextFileOf) && last == Latest(scan.edits, SequenceOf)
    {
      ghost var before := ScanRecords(records[..i], comparator).edits;
      ScanStep(records, comparator, i);
      var d := DecodeFrom(records[i]);
      if !Acceptable(d, comparator) {
        ok := false;
      } else {
        var edit := d.edit;
        NextReplays(tables, records, comparator, i, edit);
        EmptyBase();
        EditsAppended(tables, before, edit);
        builder.Apply(FileEditOf(tables, edit));
        LatestAppended(before, edit, LogOf);
        LatestAppended(before, edit, PrevLogOf);
        LatestAppended(before, edit, NextFileOf);
        LatestAppended(before, edit, SequenceOf);
        log := if edit.logNumber.Some? then edit.logNumber else log;
        prevLog := if edit.prevLogNumber.Some? then edit.prevLogNumber else prevLog;
        next := if edit.nextFile.Some? then edit.nextFile else next;
        last := if edit.lastSequence.Some? then edit.lastSequence else last;
      }
      i := i + 1;
    }
    ScanEnd(records, comparator, i);
    if !ok || next.None? || log.None? || last.None? {
      return Failed;
    }
    var levels := SaveAll(builder, empty);
    r := Recovered(levels, log.value, if prevLog.Some? then prevLog.value else 0, next.value + 1, last.value);
  }

  lemma NothingScanned(tables: Tables, records: seq<Bytes>, comparator: Bytes)
    ensures ScanRecords(records[..0], comparator) == Scan([], true) && FileEdits(tables, []) == []
    ensures forall get: VersionEdit -> Option<nat> :: Latest([], get) == None
  {
  }

  lemma EmptyBase()
    ensures FilesOf([]) == {}
  {
  }

  lemma ScanEnd(records: seq<Bytes>, comparator: Bytes, i: nat)
    requires i <= |records| && (i == |records| || !ScanRecords(records[..i], comparator).ok)
    ensures ScanRecords(records, comparator) == ScanRecords(records[..i], comparator)
  {
    ScanPrefix(records, comparator, i);
    assert records[..|records|] == records;
  }

  method SaveAll(builder: Builder, ghost base: seq<seq<File>>) returns (levels: seq<seq<File>>)
    requires builder.Valid() && builder.base == base && |base| == NUM_LEVELS && forall l | 0 <= l < NUM_LEVELS :: base[l] == []
    ensures |levels| == NUM_LEVELS
    ensures forall l | 0 <= l < NUM_LEVELS ::
      SortedBySmallest(levels[l]) && FilesOf(levels[l]) == Fold({}, builder.edits, l)
  {
    hide Fold, Builder.Valid, SortedBySmallest;
    levels := [];
    EmptyBase();
    for level := 0 to NUM_LEVELS
      invariant |levels| == level
      invariant forall l | 0 <= l < level ::
        SortedBySmallest(levels[l]) && FilesOf(levels[l]) == Fold({}, builder.edits, l)
    {
      var files := builder.SaveTo(level);
      levels := levels + [files];
    }
  }

  // ----- Writing the manifest -----

  /** The file numbers of an edit's additions name the metadata they are known by. */
  ghost predicate Agrees(metas: map<nat, Meta>, e: VersionEdit) {
    forall i | 0 <= i < |e.newFiles| && e.newFiles[i].1.number in metas :: metas[e.newFiles[i].1.number] == e.newFiles[i].1
  }

  lemma AddedByEdit(tables: Tables, edit: VersionEdit, l: nat, f: File) returns (i: nat)
    requires f in AddedAt(FileEditOf(tables, edit), l)
    ensures i < |edit.newFiles| && FileOf(tables, edit.newFiles[i].1) == f && edit.newFiles[i].1.number == f.number
  {
    i :| 0 <= i < |edit.newFiles| && FileEditOf(tables, edit).added[i] == (l, f);
  }

  /** Replaying the edits leads to the levels. */
  ghost predicate ReplaysTo(tables: Tables, es: seq<VersionEdit>, levels: seq<seq<File>>) {
    && Replayable(tables, es) && |levels| == NUM_LEVELS
    && forall l | 0 <= l < NUM_LEVELS :: Fold({}, FileEdits(tables, es), l) == FilesOf(levels[l])
  }

  ghost predicate FreshIn(es: seq<FileEdit>, edit: FileEdit) {
    forall l | 0 <= l < NUM_LEVELS :: forall f <- AddedAt(edit, l), g <- EverAdded(es, l) :: f.number != g.number
  }

  ghost predicate LevelsAfter(levels: seq<seq<File>>, edit: FileEdit, r: seq<seq<File>>)
    requires |levels| == |r| == NUM_LEVELS
  {
    forall l | 0 <= l < NUM_LEVELS :: forall f :: f in r[l] <==> (f in levels[l] && f.number !in DeletedAt(edit, l)) || f in AddedAt(edit, l)
  }

  lemma ReplayStep(tables: Tables, es: seq<VersionEdit>, e: VersionEdit, levels: seq<seq<File>>, r: seq<seq<File>>)
    requires ReplaysTo(tables, es, levels) && |r| == NUM_LEVELS && GoodEdit(FileEditOf(tables, e))
    requires FreshIn(FileEdits(tables, es), FileEditOf(tables, e)) && LevelsAfter(levels, FileEditOf(tables, e), r)
    ensures ReplaysTo(tables, es + [e], r)
  {
    hide FileEditOf, GoodEdit, AddedIn, DeletedIn;
    var fes, fe := FileEdits(tables, es), FileEditOf(tables, e);
    EditsAppended(tables, es, e);
    assert (fes + [fe])[..|fes|] == fes;
    forall l | 0 <= l < NUM_LEVELS
      ensures NeverAddedAgain({}, fes + [fe], l) && Fold({}, fes + [fe], l) == FilesOf(r[l])
    {
      var now := (set f | f in Fold({}, fes, l) && f.number !in DeletedAt(fe, l)) + AddedAt(fe, l);
      assert forall f :: f in now <==> f in FilesOf(r[l]);
    }
  }

  /** A snapshot alone replays to the version. */
  lemma SnapshotReplays(tables: Tables, e: VersionEdit, levels: seq<seq<File>>)
    requires |levels| == NUM_LEVELS && GoodEdit(FileEditOf(tables, e)) && e.deleted == []
    requires forall l | 0 <= l < NUM_LEVELS :: AddedAt(FileEditOf(tables, e), l) == FilesOf(levels[l])
    ensures ReplaysTo(tables, [e], levels)
    ensures forall l | 0 <= l < NUM_LEVELS :: EverAdded(FileEdits(tables, [e]), l) == FilesOf(levels[l])
  {
    hide FileEditOf, GoodEdit, AddedIn, DeletedIn;
    var fe := FileEditOf(tables, e);
    assert FileEdits(tables, [e]) == [fe] && [fe][..0] == [];
    forall l | 0 <= l < NUM_LEVELS
      ensures NeverAddedAgain({}, [fe], l) && Fold({}, [fe], l) == FilesOf(levels[l]) == EverAdded([fe], l)
    {
      assert EverAdded([], l) == {} && NeverAddedAgain({}, [], l) && Fold({}, [], l) == {};
    }
  }

  class VersionSet {
    const tables: Tables
    const comparator: Bytes
    var levels: seq<seq<File>>
    var metas: map<nat, Meta>  // the metadata of every file ever added
    var logNumber: nat
    var prevLogNumber: nat
    var nextFileNumber: nat
    var lastSequence: nat
    var hasManifest: bool
    var records: seq<Bytes>
    ghost var edits: seq<VersionEdit>
    ghost var installedSequence: nat  // as of the last edit logged
    ghost var installedNextFile: nat

    ghost predicate LevelsOk()
      reads `levels, `metas
    {
      && |levels| == NUM_LEVELS
      && (forall l | 0 <= l < NUM_LEVELS :: SortedBySmallest(levels[l]))
      && (forall l | 0 <= l < NUM_LEVELS :: forall f <- levels[l] :: f.number in metas && FileOf(tables, metas[f.number]) == f)
      && (forall n <- metas :: metas[n].number == n && MetaFits(metas[n]))
    }

    /** The records encode the edits, which lead to the current version. */
    ghost predicate ManifestOk()
      reads `levels, `records, `edits, `logNumber, `prevLogNumber, `installedSequence, `installedNextFile
    {
      EncodedOk() && ReplaysTo(tables, edits, levels) && NumbersOk()
    }

    ghost predicate EncodedOk()
      reads `records, `edits
    {
      && |records| == |edits|
      && (forall i | 0 <= i < |edits| :: records[i] == EditBytes(edits[i]) && EditFits(edits[i]))
      && (forall i | 0 <= i < |edits| :: edits[i].comparator.Some? ==> edits[i].comparator.value == comparator)
    }

    ghost predicate NumbersOk()
      reads `edits, `logNumber, `prevLogNumber, `installedSequence, `installedNextFile
    {
      && Latest(edits, LogOf) == Some(logNumber) && Latest(edits, PrevLogOf) == Some(prevLogNumber)
      && Latest(edits, SequenceOf) == Some(installedSequence) && Latest(edits, NextFileOf) == Some(installedNextFile)
    }

    ghost predicate Valid()
      reads this
    {
      && LevelsOk() && |comparator| < TWO32
      && (if hasManifest then ManifestOk() else records == [] && edits == [])
    }

    constructor (tables: Tables, comparator: Bytes)
      requires |comparator| < TWO32
      ensures Valid() && !hasManifest && this.tables == tables && this.comparator == comparator
      ensures forall l | 0 <= l < NUM_LEVELS :: levels[l] == []
    {
      this.tables, this.comparator := tables, comparator;
      levels, metas := seq(NUM_LEVELS, _ => []), map[];
      logNumber, prevLogNumber, nextFileNumber, lastSequence := 0, 0, 2, 0;
      hasManifest, records, edits, installedSequence, installedNextFile := false, [], [], 0, 0;
    }

    lemma RecoveryScans(n: nat)
      requires ManifestOk() && n <= |records|
      ensures ScanRecords(records[..n], comparator) == Scan(edits[..n], true)
    {
      hide Replayable, Fold, EditBytes, EditFits, Decode;
      if n > 0 {
        RecoveryScans(n - 1);
        EditRoundTrip(edits[n - 1]);
        ScanStep(records, comparator, n - 1);
      }
    }

    /** The record that lists all files of the current version. */
    method WriteSnapshot() returns (e: VersionEdit)
      requires LevelsOk() && |comparator| < TWO32
      ensures EditFits(e) && e.deleted == [] && e.comparator == Some(comparator)
      ensures GoodEdit(FileEditOf(tables, e))
      ensures forall l | 0 <= l < NUM_LEVELS :: AddedAt(FileEditOf(tables, e), l) == FilesOf(levels[l])
    {
      hide SortedBySmallest, AddedIn, FilesOf, FileOf;
      var newFiles: seq<(nat, Meta)> := [];
      NothingAdded();
      for level := 0 to NUM_LEVELS
        invariant Listed(newFiles, level, 0)
      {
        for i := 0 to |levels[level]|
          invariant Listed(newFiles, level, i)
        {
          ListStep(newFiles, level, i);
          newFiles := newFiles + [(level, metas[levels[level][i].number])];
        }
        LevelDone(newFiles, level);
      }
      e := EMPTY.(comparator := Some(comparator), newFiles := newFiles);
      SnapshotFits(newFiles);
      assert FileEditOf(tables, e).added == FilesAt(newFiles);
      ListIsGood(newFiles);
    }

    lemma ListIsGood(newFiles: seq<(nat, Meta)>)
      requires Listed(newFiles, NUM_LEVELS, 0)
      ensures GoodEdit(FileEdit([], FilesAt(newFiles)))
    {
      hide AddedIn;
    }

    ghost function FilesAt(newFiles: seq<(nat, Meta)>): (r: seq<(nat, File)>)
      ensures |r| == |newFiles|
    {
      seq(|newFiles|, i requires 0 <= i < |newFiles| => (newFiles[i].0, FileOf(tables, newFiles[i].1)))
    }

    /** The files of the levels below `level` and the first `n` of that level
        are listed, with distinct numbers in each level. */
    ghost predicate Listed(newFiles: seq<(nat, Meta)>, level: nat, n: nat)
      reads `levels
    {
      && |levels| == NUM_LEVELS && (level < NUM_LEVELS ==> n <= |levels[level]|)
      && (forall i | 0 <= i < |newFiles| :: newFiles[i].0 < NUM_LEVELS && MetaFits(newFiles[i].1))
      && (forall i, j | 0 <= i < j < |newFiles| && newFiles[i].0 == newFiles[j].0 :: newFiles[i].1.number != newFiles[j].1.number)
      && forall l | 0 <= l < NUM_LEVELS ::
           AddedIn(FilesAt(newFiles), l)
           == if l < level then FilesOf(levels[l]) else if l == level then FilesOf(levels[l][..n]) else {}
    }

    lemma NothingAdded()
      requires LevelsOk()
      ensures Listed([], 0, 0)
    {
      assert FilesAt([]) == [];
      assert levels[0][..0] == [];
    }

    lemma LevelDone(newFiles: seq<(nat, Meta)>, level: nat)
      requires LevelsOk() && level < NUM_LEVELS && Listed(newFiles, level, |levels[level]|)
      ensures Listed(newFiles, level + 1, 0)
    {
      hide AddedIn;
      assert levels[level][..|levels[level]|] == levels[level];
      assert FilesOf([]) == {};
      if level + 1 < NUM_LEVELS {
        assert levels[level + 1][..0] == [];
      }
    }

    lemma ListStep(newFiles: seq<(nat, Meta)>, level: nat, i: nat)
      requires LevelsOk() && level < NUM_LEVELS && i < |levels[level]| && Listed(newFiles, level, i)
      ensures levels[level][i].number in metas
      ensures Listed(newFiles + [(level, metas[levels[level][i].number])], level, i + 1)
    {
      hide SortedBySmallest, AddedIn, FilesOf, MetaFits, FileOf;
      var f := levels[level][i];
      var m := metas[f.number];
      var longer := newFiles + [(level, m)];
      assert FilesAt(longer)[..|newFiles|] == FilesAt(newFiles) && FilesAt(longer)[|newFiles|] == (level, f);
      assert FilesAt(longer)[..|newFiles| + 1] == FilesAt(longer);
      FilesOfTake(levels[level], i);
      forall l | 0 <= l < NUM_LEVELS
        ensures AddedIn(FilesAt(longer), l) == AddedIn(FilesAt(newFiles), l) + if level == l then {f} else {}
      {
        AddedInStep(FilesAt(longer), |newFiles|, l);
      }
      forall j | 0 <= j < |newFiles| && newFiles[j].0 == level ensures newFiles[j].1.number != m.number {
        NotListedYet(newFiles, level, i, j);
      }
    }

    lemma NotListedYet(newFiles: seq<(nat, Meta)>, level: nat, i: nat, j: nat)
      requires LevelsOk() && level < NUM_LEVELS && i < |levels[level]| && Listed(newFiles, level, i)
      requires j < |newFiles| && newFiles[j].0 == level
      ensures newFiles[j].1.number != levels[level][i].number
    {
      var g := FilesAt(newFiles)[j].1;
      assert FilesAt(newFiles)[j].0 == level;
      assert g in AddedIn(FilesAt(newFiles), level);
      assert g in FilesOf(levels[level][..i]);
      var k :| 0 <= k < i && levels[level][k] == g;
      assert BySmallest(levels[level][k], levels[level][i]);
      assert levels[level][k] in levels[level] && levels[level][i] in levels[level];
    }

    lemma SnapshotFits(newFiles: seq<(nat, Meta)>)
      requires forall i | 0 <= i < |newFiles| :: newFiles[i].0 < NUM_LEVELS && MetaFits(newFiles[i].1)
      requires |comparator| < TWO32
      ensures EditFits(EMPTY.(comparator := Some(comparator), newFiles := newFiles))
    {
      hide MetaFits;
    }

    /** The first record of a new manifest. */
    method StartManifest()
      requires LevelsOk() && |comparator| < TWO32 && records == [] && edits == []
      modifies `records, `edits, `hasManifest
      ensures hasManifest && EncodedOk() && ReplaysTo(tables, edits, levels)
      ensures forall l | 0 <= l < NUM_LEVELS :: EverAdded(FileEdits(tables, edits), l) == FilesOf(levels[l])
    {
      hide LevelsOk, GoodEdit, AddedIn, EditFits, FilesOf, EverAdded, ReplaysTo, EditBytes;
      LevelsSorted();
      var snapshot := WriteSnapshot();
      SnapshotReplays(tables, snapshot, levels);
      var record := EncodeTo(snapshot);
      records, hasManifest := records + [record], true;
      edits := edits + [snapshot];
      assert edits == [snapshot];
    }

    lemma ManifestParts()
      requires ManifestOk()
      ensures EncodedOk() && ReplaysTo(tables, edits, levels)
    {
    }

    /** Logs an edit that leads to the new levels. */
    method AppendEdit(e: VersionEdit, ghost newLevels: seq<seq<File>>)
      requires EncodedOk() && EditFits(e) && e.comparator == None
      requires ReplaysTo(tables, edits, levels) && |levels| == |newLevels| == NUM_LEVELS && GoodEdit(FileEditOf(tables, e))
      requires FreshIn(FileEdits(tables, edits), FileEditOf(tables, e)) && LevelsAfter(levels, FileEditOf(tables, e), newLevels)
      modifies `records, `edits
      ensures EncodedOk() && ReplaysTo(tables, edits, newLevels)
      ensures old(records) <= records && edits == old(edits) + [e]
    {
      hide ReplaysTo, EditFits, EditBytes, GoodEdit, FreshIn, LevelsAfter, FileEditOf;
      ReplayStep(tables, edits, e, levels, newLevels);
      var record := EncodeTo(e);
      records := records + [record];
      edits := edits + [e];
    }

    lemma NewFilesFit(e: VersionEdit)
      requires EditFits(e)
      ensures forall i | 0 <= i < |e.newFiles| :: e.newFiles[i].0 < NUM_LEVELS && MetaFits(e.newFiles[i].1)
    {
      hide MetaFits;
      forall i | 0 <= i < |e.newFiles| ensures e.newFiles[i].0 < NUM_LEVELS && MetaFits(e.newFiles[i].1) {
        var item := NewFile(e.newFiles[i].0, e.newFiles[i].1);
        assert Additions(e.newFiles)[i] == item;
        assert item in Items(e);
      }
    }

    /** Remembers the metadata of the files an edit adds. */
    method NoteFiles(edit: VersionEdit, ghost before: seq<seq<File>>, ghost after: seq<seq<File>>)
      requires LevelsOk() && before == levels && |after| == NUM_LEVELS && Agrees(metas, edit)
      requires forall i | 0 <= i < |edit.newFiles| :: MetaFits(edit.newFiles[i].1)
      requires forall i, j | 0 <= i < j < |edit.newFiles| && edit.newFiles[i].1.number == edit.newFiles[j].1.number ::
        edit.newFiles[i].1 == edit.newFiles[j].1
      requires LevelsAfter(levels, FileEditOf(tables, edit), after)
      requires forall l | 0 <= l < NUM_LEVELS :: SortedBySmallest(after[l])
      modifies `metas
      ensures forall l | 0 <= l < NUM_LEVELS :: forall f <- after[l] :: f.number in metas && FileOf(tables, metas[f.number]) == f
      ensures forall n <- metas :: metas[n].number == n && MetaFits(metas[n])
    {
      hide SortedBySmallest, MetaFits, DeletedIn, AddedIn, FileEditOf, FileOf;
      for i := 0 to |edit.newFiles|
        invariant forall n <- metas :: metas[n].number == n && MetaFits(metas[n])
        invariant forall n <- old(metas) :: n in metas && metas[n] == old(metas)[n]
        invariant forall n <- metas :: n in old(metas) || exists j | 0 <= j < i :: edit.newFiles[j].1 == metas[n]
        invariant forall j | 0 <= j < i :: edit.newFiles[j].1.number in metas && metas[edit.newFiles[j].1.number] == edit.newFiles[j].1
      {
        var m := edit.newFiles[i].1;
        metas := metas[m.number := m];
      }
      forall l, f | 0 <= l < NUM_LEVELS && f in after[l]
        ensures f.number in metas && FileOf(tables, metas[f.number]) == f
      {
        if f in AddedAt(FileEditOf(tables, edit), l) {
          var i := AddedByEdit(tables, edit, l, f);
        } else {
          assert f in levels[l];
        }
      }
    }

    /** The edit with the numbers that every logged edit carries. */
    function Completed(edit: VersionEdit): VersionEdit
      reads this
    {
      edit.(logNumber := if edit.logNumber.Some? then edit.logNumber else Some(logNumber),
            prevLogNumber := if edit.prevLogNumber.Some? then edit.prevLogNumber else Some(prevLogNumber),
            nextFile := Some(nextFileNumber), lastSequence := Some(lastSequence))
    }

    /** What an edit must satisfy: it does not bring back a file number to a
        level that has held it. */
    ghost predicate MayApply(edit: VersionEdit)
      reads this
    {
      && |levels| == NUM_LEVELS && EditFits(Completed(edit)) && edit.comparator == None && GoodEdit(FileEditOf(tables, edit)) && Agrees(metas, edit)
      && (edit.logNumber.Some? ==> logNumber <= edit.logNumber.value < nextFileNumber)
      && (forall i, j | 0 <= i < j < |edit.newFiles| && edit.newFiles[i].1.number == edit.newFiles[j].1.number ::
            edit.newFiles[i].1 == edit.newFiles[j].1)
      && forall l | 0 <= l < NUM_LEVELS ::
           forall f <- AddedAt(FileEditOf(tables, edit), l), g <- FilesOf(levels[l]) + EverAdded(FileEdits(tables, edits), l) ::
             f.number != g.number
    }

    /** Applies an edit to the current version and logs it, after a snapshot of
        the version if there is no manifest yet. */
    method LogAndApply(edit: VersionEdit)
      requires Valid() && MayApply(edit)
      modifies this
      ensures Valid() && hasManifest && old(records) <= records
      ensures forall l | 0 <= l < NUM_LEVELS :: forall f ::
        f in levels[l] <==>
          (f in old(levels)[l] && f.number !in DeletedAt(FileEditOf(tables, edit), l)) || f in AddedAt(FileEditOf(tables, edit), l)
      ensures logNumber == (if edit.logNumber.Some? then edit.logNumber.value else old(logNumber))
      ensures prevLogNumber == (if edit.prevLogNumber.Some? then edit.prevLogNumber.value else old(prevLogNumber))
      // The record written last carries all four numbers and the edit's files.
      ensures edits != [] && edits[|edits| - 1]
        == edit.(logNumber := Some(logNumber), prevLogNumber := Some(prevLogNumber),
                 nextFile := Some(old(nextFileNumber)), lastSequence := Some(old(lastSequence)))
      ensures installedSequence == lastSequence == old(lastSequence) && installedNextFile == nextFileNumber == old(nextFileNumber)
    {
      hide Replayable, Fold, EverAdded, EditFits, SortedBySmallest, AddedIn, DeletedIn, FilesOf, GoodEdit, LevelsOk, EncodedOk,
           NumbersOk, ReplaysTo, Agrees;
      var e := Completed(edit);
      LevelsSorted();
      assert FileEditOf(tables, e) == FileEditOf(tables, edit);
      FreshHere(edit);
      var newLevels := Database.LogAndApply(levels, FileEditOf(tables, edit));
      LogEdit(edit, e, newLevels);
      Install(edit, e, newLevels);
    }

    /** Writes the edit to the manifest, which it starts if there is none. */
    method LogEdit(edit: VersionEdit, e: VersionEdit, ghost newLevels: seq<seq<File>>)
      requires Valid() && MayApply(edit) && e == Completed(edit)
      requires |newLevels| == NUM_LEVELS && LevelsAfter(levels, FileEditOf(tables, edit), newLevels)
      modifies `records, `edits, `hasManifest
      ensures hasManifest && EncodedOk() && ReplaysTo(tables, edits, newLevels) && LevelsOk()
      ensures old(records) <= records && edits != [] && edits[|edits| - 1] == e
    {
      hide Replayable, Fold, EverAdded, EditFits, SortedBySmallest, AddedIn, DeletedIn, FilesOf, GoodEdit, LevelsOk, EncodedOk,
           NumbersOk, ReplaysTo, Agrees, LevelsAfter;
      assert FileEditOf(tables, e) == FileEditOf(tables, edit);
      if !hasManifest {
        StartManifest();
      } else {
        ManifestParts();
      }
      AppendEdit(e, newLevels);
    }

    /** Makes the new version current. */
    method Install(edit: VersionEdit, e: VersionEdit, newLevels: seq<seq<File>>)
      requires LevelsOk() && |newLevels| == NUM_LEVELS && forall l | 0 <= l < NUM_LEVELS :: SortedBySmallest(newLevels[l])
      requires LevelsAfter(levels, FileEditOf(tables, edit), newLevels) && e == Completed(edit) && EditFits(e)
      requires Agrees(metas, edit) && |comparator| < TWO32 && hasManifest && EncodedOk()
      requires ReplaysTo(tables, edits, newLevels) && edits != [] && edits[|edits| - 1] == e
      requires forall i, j | 0 <= i < j < |edit.newFiles| && edit.newFiles[i].1.number == edit.newFiles[j].1.number ::
        edit.newFiles[i].1 == edit.newFiles[j].1
      modifies `levels, `metas, `logNumber, `prevLogNumber, `installedSequence, `installedNextFile
      ensures Valid() && levels == newLevels && logNumber == e.logNumber.value && prevLogNumber == e.prevLogNumber.value
      ensures installedSequence == lastSequence && installedNextFile == nextFileNumber
    {
      hide EditFits, SortedBySmallest, LevelsOk, EncodedOk, NumbersOk, ReplaysTo, Agrees, LevelsAfter, FileEditOf, FileOf, MetaFits;
      NewFilesFit(e);
      NoteFiles(edit, levels, newLevels);
      levels := newLevels;
      logNumber, prevLogNumber := e.logNumber.value, e.prevLogNumber.value;
      installedSequence, installedNextFile := lastSequence, nextFileNumber;
      NumbersInstalled(e);
      NowValid();
    }

    lemma NumbersInstalled(e: VersionEdit)
      requires edits != [] && edits[|edits| - 1] == e && e.logNumber == Some(logNumber) && e.prevLogNumber == Some(prevLogNumber)
      requires e.nextFile == Some(installedNextFile) && e.lastSequence == Some(installedSequence)
      ensures NumbersOk()
    {
    }

    lemma NowValid()
      requires |levels| == NUM_LEVELS && forall l | 0 <= l < NUM_LEVELS :: SortedBySmallest(levels[l])
      requires forall l | 0 <= l < NUM_LEVELS :: forall f <- levels[l] :: f.number in metas && FileOf(tables, metas[f.number]) == f
      requires forall n <- metas :: metas[n].number == n && MetaFits(metas[n])
      requires |comparator| < TWO32 && hasManifest && EncodedOk() && ReplaysTo(tables, edits, levels) && NumbersOk()
      ensures Valid()
    {
    }

    lemma LevelsSorted()
      requires LevelsOk()
      ensures |levels| == NUM_LEVELS && forall l | 0 <= l < NUM_LEVELS :: SortedBySmallest(levels[l])
    {
    }

    lemma FreshHere(edit: VersionEdit)
      requires MayApply(edit)
      ensures forall l | 0 <= l < NUM_LEVELS ::
        forall f <- AddedAt(FileEditOf(tables, edit), l), g <- levels[l] :: f.number != g.number
    {
      hide EditFits, GoodEdit, AddedIn, EverAdded;
      forall l, f, g | 0 <= l < NUM_LEVELS && f in AddedAt(FileEditOf(tables, edit), l) && g in levels[l]
        ensures f.number != g.number
      {
        assert g in FilesOf(levels[l]) + EverAdded(FileEdits(tables, edits), l);
      }
    }

    /** Main result: recovery rebuilds the levels and the numbers that the last
        edit installed. */
    method Reopen() returns (r: Recovered)
      requires Valid() && hasManifest
      ensures r == Recovered(levels, logNumber, prevLogNumber, installedNextFile + 1, installedSequence)
    {
      hide Replayable, Fold, EditBytes, EditFits, Decode, SortedBySmallest, ScanRecords, FileOf, RecoversTo;
      RecoveryScans(|records|);
      assert records[..|records|] == records && edits[..|edits|] == edits;
      r := Recover(tables, comparator, records);
      WholeReplay(r);
    }

    /** Replaying all edits leads to the current version. */
    lemma WholeReplay(r: Recovered)
      requires Valid() && hasManifest && RecoversTo(tables, Scan(edits, true), r)
      ensures r == Recovered(levels, logNumber, prevLogNumber, installedNextFile + 1, installedSequence)
    {
      hide Replayable, Fold, EditBytes, EditFits, SortedBySmallest, FileOf;
      forall l | 0 <= l < NUM_LEVELS ensures r.levels[l] == levels[l] {
        SameFiles(r.levels[l], levels[l]);
      }
    }
  }

  lemma SameFiles(a: seq<File>, b: seq<File>)
    requires SortedBySmallest(a) && SortedBySmallest(b) && FilesOf(a) == FilesOf(b)
    ensures a == b
  {
    Database.SortedUnique(a, b);
  }

  lemma FilesOfTake(files: seq<File>, i: nat)
    requires i < |files|
    ensures FilesOf(files[..i + 1]) == FilesOf(files[..i]) + {files[i]}
  {
    assert files[..i + 1] == files[..i] + [files[i]];
    FilesOfAppended(files[..i], files[i]);
  }
}
