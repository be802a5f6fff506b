/** What recovery makes of the records of a manifest, in terms of the records
    alone (db/version_set.cc Recover): all of them are taken or it fails. */
module ManifestLaws {
  import opened Keys
  import opened Files
  import opened Inputs
  import opened VersionBuilder
  import opened EditCodec
  import opened InternalKeys
  import opened Manifest

  // ----- The files -----

  /** Some edit adds the file to the level and no later one deletes its number there. */
  ghost predicate AddedLast(edits: seq<FileEdit>, level: nat, f: File, i: nat) {
    i < |edits| && (level, f) in edits[i].added && forall j | i < j < |edits| :: (level, f.number) !in edits[j].deleted
  }

  lemma EditsPlain(edit: FileEdit, level: nat)
    ensures forall f :: f in AddedAt(edit, level) <==> (level, f) in edit.added
    ensures forall n :: n in DeletedAt(edit, level) <==> (level, n) in edit.deleted
  {
    forall f | (level, f) in edit.added ensures f in AddedAt(edit, level) {
      var i :| 0 <= i < |edit.added| && edit.added[i] == (level, f);
    }
    forall n | (level, n) in edit.deleted ensures n in DeletedAt(edit, level) {
      var i :| 0 <= i < |edit.deleted| && edit.deleted[i] == (level, n);
    }
  }

  lemma AddedLastStep(edits: seq<FileEdit>, level: nat, f: File, n: nat, i: nat)
    requires |edits| == n + 1
    ensures AddedLast(edits, level, f, i)
        <==> (if i == n then (level, f) in edits[n].added
              else AddedLast(edits[..n], level, f, i) && (level, f.number) !in edits[n].deleted)
  {
    var front := edits[..n];
    if i < n && AddedLast(front, level, f, i) && (level, f.number) !in edits[n].deleted {
      forall j | i < j < |edits| ensures (level, f.number) !in edits[j].deleted {
        assert j < n ==> edits[j] == front[j];
      }
    }
    if i < n && AddedLast(edits, level, f, i) {
      forall j | i < j < n ensures (level, f.number) !in front[j].deleted {
        assert edits[j] == front[j];
      }
    }
  }

  /** The files that a list of edits leads to from an empty store. */
  lemma {:induction false} FoldIs(edits: seq<FileEdit>, level: nat, f: File)
    ensures f in Fold({}, edits, level) <==> exists i: nat :: AddedLast(edits, level, f, i)
  {
    if edits != [] {
      hide AddedLast, AddedAt, DeletedAt;
      var n := |edits| - 1;
      FoldIs(edits[..n], level, f);
      EditsPlain(edits[n], level);
      forall i: nat
        ensures AddedLast(edits, level, f, i)
            <==> (if i == n then (level, f) in edits[n].added
                  else AddedLast(edits[..n], level, f, i) && (level, f.number) !in edits[n].deleted)
      {
        AddedLastStep(edits, level, f, n, i);
      }
      if (level, f) in edits[n].added {
        assert AddedLast(edits, level, f, n);
      }
      if i: nat :| AddedLast(edits[..n], level, f, i) {
        OnlyInside(edits[..n], level, f, i);
      }
    }
  }

  lemma OnlyInside(edits: seq<FileEdit>, level: nat, f: File, i: nat)
    requires AddedLast(edits, level, f, i)
    ensures i < |edits|
  {
  }

  /** The file that an item of an edit stands for. */
  lemma FileIs(tables: Tables, number: nat, size: nat, smallest: ParsedInternalKey, largest: ParsedInternalKey)
    ensures FileOf(tables, Meta(number, size, Encode(smallest), Encode(largest)))
         == File(number, size,
                 InternalKey(Rank(smallest.user), smallest.sequence, smallest.kind),
                 InternalKey(Rank(largest.user), largest.sequence, largest.kind), tables(number))
  {
    ParsesEncoded(smallest);
    ParsesEncoded(largest);
    hide Encode, ParseInternalKey;
  }

  // ----- The records -----

  /** The records decode to the edits, and none names another comparator. */
  ghost predicate AllDecode(records: seq<Bytes>, comparator: Bytes, es: seq<VersionEdit>) {
    |es| == |records|
    && forall i | 0 <= i < |es| ::
         Decode(EMPTY, records[i]) == Ok(es[i]) && (es[i].comparator.Some? ==> es[i].comparator.value == comparator)
  }

  lemma AllDecodeParts(records: seq<Bytes>, comparator: Bytes, es: seq<VersionEdit>, n: nat)
    requires AllDecode(records, comparator, es) && |records| == n + 1
    ensures AllDecode(records[..n], comparator, es[..n])
    ensures Decode(EMPTY, records[n]) == Ok(es[n]) && Acceptable(Ok(es[n]), comparator)
    ensures es == es[..n] + [es[n]]
  {
    hide Decode;
  }

  lemma {:induction false} ScanIs(records: seq<Bytes>, comparator: Bytes, es: seq<VersionEdit>)
    requires AllDecode(records, comparator, es)
    ensures ScanRecords(records, comparator) == Scan(es, true)
  {
    if records == [] {
      assert es == [];
    } else {
      var n := |records| - 1;
      AllDecodeParts(records, comparator, es, n);
      hide Decode, ScanRecords, Acceptable, AllDecode;
      ScanIs(records[..n], comparator, es[..n]);
      ScanStep(records, comparator, n);
      assert records[..n + 1] == records;
    }
  }

  lemma ScanFails(records: seq<Bytes>, comparator: Bytes, i: nat)
    requires i < |records|
    requires match Decode(EMPTY, records[i])
      case Corrupt(_) => true
      case Ok(e) => e.comparator.Some? && e.comparator.value != comparator
    ensures !ScanRecords(records, comparator).ok
  {
    hide Decode;
    ScanStep(records, comparator, i);
    ScanPrefix(records, comparator, i + 1);
  }

  /** A record that does not decode, or that names another comparator, makes
      recovery fail, whatever else the manifest holds. */
  lemma ForeignFails(tables: Tables, comparator: Bytes, records: seq<Bytes>, i: nat, r: Recovered)
    requires i < |records| && RecoversTo(tables, ScanRecords(records, comparator), r)
    requires match Decode(EMPTY, records[i])
      case Corrupt(_) => true
      case Ok(e) => e.comparator.Some? && e.comparator.value != comparator
    ensures r == Failed
  {
    hide Decode, ScanRecords;
    ScanFails(records, comparator, i);
  }

  // ----- The numbers -----

  /** The last that is given. */
  ghost predicate IsLast(given: seq<Option<nat>>, n: nat) {
    exists i | 0 <= i < |given| :: given[i] == Some(n) && forall j | i < j < |given| :: given[j] == None
  }

  /** It is not given at all. */
  ghost predicate Missing(given: seq<Option<nat>>) {
    forall i | 0 <= i < |given| :: given[i] == None
  }

  lemma {:induction false} LatestIs(es: seq<VersionEdit>, get: VersionEdit -> Option<nat>, given: seq<Option<nat>>)
    requires |given| == |es| && forall i | 0 <= i < |es| :: given[i] == get(es[i])
    ensures Latest(es, get) == None <==> Missing(given)
    ensures forall n: nat :: Latest(es, get) == Some(n) <==> IsLast(given, n)
  {
    if es != [] {
      var n := |es| - 1;
      hide IsLast, Missing, Latest;
      LatestIs(es[..n], get, given[..n]);
      LastStep(given, n);
      assert es == es[..n] + [es[n]];
      LatestAppended(es[..n], es[n], get);
    } else {
      assert given == [];
    }
  }

  lemma LastStep(given: seq<Option<nat>>, n: nat)
    requires |given| == n + 1
    ensures Missing(given) <==> Missing(given[..n]) && given[n] == None
    ensures forall m: nat :: IsLast(given, m) <==> (if given[n].Some? then given[n] == Some(m) else IsLast(given[..n], m))
  {
    var front := given[..n];
    forall m: nat
      ensures IsLast(given, m) <==> (if given[n].Some? then given[n] == Some(m) else IsLast(front, m))
    {
      if given[n] == Some(m) {
        assert IsLast(given, m);
      } else if given[n].None? && IsLast(front, m) {
        var i :| 0 <= i < |front| && front[i] == Some(m) && forall j | i < j < |front| :: front[j] == None;
        assert given[i] == Some(m);
        forall j | i < j < |given| ensures given[j] == None {
          assert j < n ==> given[j] == front[j];
        }
      }
    }
  }

  /** What the edits say about the four numbers. */
  ghost predicate Say(es: seq<VersionEdit>, logs: seq<Option<nat>>, prevs: seq<Option<nat>>, nexts: seq<Option<nat>>, lasts: seq<Option<nat>>) {
    && |es| == |logs| == |prevs| == |nexts| == |lasts|
    && forall i | 0 <= i < |es| ::
         es[i].logNumber == logs[i] && es[i].prevLogNumber == prevs[i] && es[i].nextFile == nexts[i] && es[i].lastSequence == lasts[i]
  }

  /** Main result: when every record decodes and none names another comparator,
      recovery fails only if one of three numbers is given nowhere, and otherwise
      yields the numbers given last and, in order, the files added and not deleted
      since. */
  lemma AllAreTaken(tables: Tables, comparator: Bytes, records: seq<Bytes>, es: seq<VersionEdit>, r: Recovered,
                    logs: seq<Option<nat>>, prevs: seq<Option<nat>>, nexts: seq<Option<nat>>, lasts: seq<Option<nat>>)
    requires RecoversTo(tables, ScanRecords(records, comparator), r) && AllDecode(records, comparator, es)
    requires Say(es, logs, prevs, nexts, lasts)
    ensures r.Failed? <==> Missing(logs) || Missing(nexts) || Missing(lasts)
    ensures r.Recovered? ==>
      && IsLast(logs, r.logNumber) && 0 < r.nextFileNumber && IsLast(nexts, r.nextFileNumber - 1) && IsLast(lasts, r.lastSequence)
      && (if Missing(prevs) then r.prevLogNumber == 0 else IsLast(prevs, r.prevLogNumber))
    ensures r.Recovered? ==>
      |r.levels| == 7
      && forall l | 0 <= l < 7 ::
        && (forall f :: f in r.levels[l] <==> exists i: nat :: AddedLast(FileEdits(tables, es), l, f, i))
        && forall a, b | 0 <= a < b < |r.levels[l]| ::
             var f, g := r.levels[l][a], r.levels[l][b];
             Less(f.smallest, g.smallest) || (f.smallest == g.smallest && f.number < g.number)
  {
    hide AllDecode, Decode, Fold, Latest, ScanRecords, FileEdits, IsLast, Missing, AddedLast;
    ScanIs(records, comparator, es);
    LatestIs(es, LogOf, logs);
    LatestIs(es, NextFileOf, nexts);
    LatestIs(es, SequenceOf, lasts);
    LatestIs(es, PrevLogOf, prevs);
    if r.Recovered? {
      forall l, f | 0 <= l < 7 ensures f in r.levels[l] <==> exists i: nat :: AddedLast(FileEdits(tables, es), l, f, i) {
        FoldIs(FileEdits(tables, es), l, f);
        assert f in r.levels[l] <==> f in FilesOf(r.levels[l]);
      }
    }
  }
}
