/** The store as an object whose methods run the atomic steps (db/db_impl.cc). */
module Database {
  import opened Keys
  import opened Files
  import opened View
  import opened Cursors
  import opened Inputs
  import opened Compaction
  import opened DropRules
  import opened Engine
  import opened Search
  import opened Steps
  import opened VersionBuilder
  import opened LevelSteps
  import opened MoveDown
  import opened Compactions
  import opened Merging
  import opened Picking
  import opened Runs

  // ----- Sorted runs -----

  method InsertEntry(es: seq<Entry>, e: Entry) returns (r: seq<Entry>)
    requires Ascending(es) && forall x <- es :: x.key.user != e.key.user || x.key.sequence != e.key.sequence
    ensures Ascending(r) && Elements(r) == Elements(es) + {e}
  {
    hide Ascending, IsSeek, Elements;
    var i := Seek(es, e.key);
    r := es[..i] + [e] + es[i..];
    SplicedAscending(es, i, e);
    SplicedElements(es, i, e);
  }

  lemma SplicedElements(es: seq<Entry>, i: nat, e: Entry)
    requires i <= |es|
    ensures Elements(es[..i] + [e] + es[i..]) == Elements(es) + {e}
  {
    assert es == es[..i] + es[i..];
  }

  lemma SplicedAscending(es: seq<Entry>, i: nat, e: Entry)
    requires Ascending(es) && IsSeek(es, e.key, i)
    requires forall x <- es :: x.key.user != e.key.user || x.key.sequence != e.key.sequence
    ensures Ascending(es[..i] + [e] + es[i..])
  {
    var r := es[..i] + [e] + es[i..];
    assert forall k | 0 <= k < |r| :: r[k] == if k < i then es[k] else if k == i then e else es[k - 1];
    forall k | i <= k < |es| ensures Less(e.key, es[k].key) {
      assert es[i] in es;
    }
  }

  /** One cursor for every table. */
  method OpenTables(files: seq<File>) returns (cursors: seq<Cursor>)
    ensures |cursors| == |files| && forall i | 0 <= i < |files| :: fresh(cursors[i]) && cursors[i].entries == files[i].entries
    ensures forall i, j | 0 <= i < j < |cursors| :: cursors[i] != cursors[j]
  {
    cursors := [];
    for i := 0 to |files|
      invariant |cursors| == i
      invariant forall j | 0 <= j < i :: fresh(cursors[j]) && cursors[j].entries == files[j].entries
      invariant forall j, k | 0 <= j < k < i :: cursors[j] != cursors[k]
    {
      var c := new Cursor(files[i].entries);
      cursors := cursors + [c];
    }
  }

  /** The entries of the files as the merging iterator over them delivers them. */
  method MergeFiles(files: seq<File>) returns (r: seq<Entry>)
    requires DistinctKeys(Tables(files))
    ensures Ascending(r) && Elements(r) == Contents(files)
  {
    hide DistinctKeys, Contents, Elements, Ascending, MergingIterator.Ok, Placed;
    var cursors := OpenTables(files);
    ghost var merged, place := MergeExists(Tables(files));
    MergedContents(files, merged, place);
    assert Tables(files) == seq(|cursors|, c requires 0 <= c < |cursors| => cursors[c].entries);
    var iter := new MergingIterator(cursors, merged, place);
    StartsFixed(iter);
    iter.SeekToFirst();
    r := [];
    while iter.Valid()
      invariant iter.Ok() && iter.children == cursors && iter.merged == merged
      invariant iter.index <= |merged| && r == merged[..iter.index]
      decreases |merged| - iter.index
    {
      var e := iter.CurrentEntry();
      r := r + [e];
      iter.Next();
      IndexInside(iter);
    }
    IndexInside(iter);
    assert merged[..|merged|] == merged;
  }

  lemma StartsFixed(iter: MergingIterator)
    requires iter.Ok()
    ensures iter.Fixed()
  {
  }

  lemma IndexInside(iter: MergingIterator)
    requires iter.Ok()
    ensures iter.index <= |iter.merged| && (iter.Valid() <==> iter.index < |iter.merged|)
  {
  }

  lemma MergedContents(files: seq<File>, merged: seq<Entry>, place: seq<seq<nat>>)
    requires IsMerge(merged, Tables(files), place)
    ensures Ascending(merged) && Elements(merged) == Contents(files)
  {
    hide Ascending;
    var lists := Tables(files);
    forall e ensures e in Elements(merged) <==> e in Contents(files) {
      if e in merged {
        var k :| 0 <= k < |merged| && merged[k] == e;
        assert Placed(lists, place, k);
        var c, i :| 0 <= c < |lists| && 0 <= i < |lists[c]| && place[c][i] == k;
        assert lists[c] == files[c].entries && files[c] in files && e in files[c].entries;
      }
      if e in Contents(files) {
        var f :| f in files && e in f.entries;
        var c :| 0 <= c < |files| && files[c] == f;
        var i :| 0 <= i < |f.entries| && f.entries[i] == e;
        assert lists[c][i] == e && merged[place[c][i]] == e;
      }
    }
  }

  // ----- Installing a new version -----

  lemma {:induction false} SortedUnique(a: seq<File>, b: seq<File>)
    requires SortedBySmallest(a) && SortedBySmallest(b) && FilesOf(a) == FilesOf(b)
    ensures a == b
  {
    EmptyFiles(a);
    EmptyFiles(b);
    if a != [] {
      assert a[0] in FilesOf(b);
      var j :| 0 <= j < |b| && b[j] == a[0];
      assert b[0] in FilesOf(a);
      var i :| 0 <= i < |a| && a[i] == b[0];
      FirstOfSorted(a, b, i, j);
      TailFiles(a);
      TailFiles(b);
      SortedUnique(a[1..], b[1..]);
      assert a == [a[0]] + a[1..] && b == [b[0]] + b[1..];
    }
  }

  lemma EmptyFiles(a: seq<File>)
    ensures a == [] <==> FilesOf(a) == {}
  {
    if a != [] {
      assert a[0] in FilesOf(a);
    }
  }

  lemma FirstOfSorted(a: seq<File>, b: seq<File>, i: nat, j: nat)
    requires SortedBySmallest(a) && SortedBySmallest(b) && i < |a| && j < |b|
    requires b[j] == a[0] && a[i] == b[0]
    ensures i == 0 && j == 0
  {
    assert i == 0 || BySmallest(a[0], a[i]);
    assert j == 0 || BySmallest(b[0], b[j]);
  }

  lemma TailFiles(a: seq<File>)
    requires SortedBySmallest(a) && a != []
    ensures SortedBySmallest(a[1..]) && FilesOf(a[1..]) == FilesOf(a) - {a[0]}
  {
    forall f <- FilesOf(a) - {a[0]} ensures f in FilesOf(a[1..]) {
      var i :| 0 <= i < |a| && a[i] == f;
      assert a[1..][i - 1] == f;
    }
    forall i | 0 < i < |a| ensures a[i] != a[0] {
      assert BySmallest(a[0], a[i]);
    }
  }

  /** One edit applied to the current version. */
  method LogAndApply(levels: seq<seq<File>>, edit: FileEdit) returns (r: seq<seq<File>>)
    requires |levels| == NUM_LEVELS && forall l | 0 <= l < NUM_LEVELS :: SortedBySmallest(levels[l])
    requires GoodEdit(edit)
    requires forall l | 0 <= l < NUM_LEVELS :: forall f <- AddedAt(edit, l), g <- levels[l] :: f.number != g.number
    ensures |r| == NUM_LEVELS && forall l | 0 <= l < NUM_LEVELS :: SortedBySmallest(r[l])
    ensures forall l | 0 <= l < NUM_LEVELS ::
      forall f :: f in r[l] <==> (f in levels[l] && f.number !in DeletedAt(edit, l)) || f in AddedAt(edit, l)
  {
    hide SortedBySmallest, GoodEdit;
    var builder := new Builder(levels);
    forall l | 0 <= l < NUM_LEVELS ensures NeverAddedAgain(FilesOf(levels[l]), builder.edits + [edit], l) {
      FirstEdit(levels[l], edit, l);
      assert builder.edits + [edit] == [edit];
    }
    builder.Apply(edit);
    assert builder.edits == [edit];
    r := [];
    for level := 0 to NUM_LEVELS
      invariant builder.Valid() && builder.base == levels && builder.edits == [edit]
      invariant |r| == level
      invariant forall l | 0 <= l < level :: SortedBySmallest(r[l]) && FilesOf(r[l]) == Fold(FilesOf(levels[l]), [edit], l)
    {
      var files := builder.SaveTo(level);
      r := r + [files];
    }
    forall l | 0 <= l < NUM_LEVELS
      ensures forall f :: f in r[l] <==> (f in levels[l] && f.number !in DeletedAt(edit, l)) || f in AddedAt(edit, l)
    {
      OneEdit(levels[l], edit, l, r[l]);
    }
  }

  lemma FirstEdit(files: seq<File>, edit: FileEdit, l: nat)
    requires forall f <- AddedAt(edit, l), g <- files :: f.number != g.number
    ensures NeverAddedAgain(FilesOf(files), [edit], l)
  {
    assert [edit][..0] == [];
    assert NeverAddedAgain(FilesOf(files), [], l);
    assert EverAdded([], l) == {};
  }

  lemma OneEdit(files: seq<File>, edit: FileEdit, l: nat, r: seq<File>)
    requires FilesOf(r) == Fold(FilesOf(files), [edit], l)
    ensures forall f :: f in r <==> (f in files && f.number !in DeletedAt(edit, l)) || f in AddedAt(edit, l)
  {
    assert [edit][..0] == [];
    assert Fold(FilesOf(files), [], l) == FilesOf(files);
    forall f ensures f in r <==> (f in files && f.number !in DeletedAt(edit, l)) || f in AddedAt(edit, l) {
      assert f in r <==> f in FilesOf(r);
    }
  }

  lemma UntouchedLevel(files: seq<File>, edit: FileEdit, l: nat, r: seq<File>)
    requires SortedBySmallest(files) && SortedBySmallest(r)
    requires forall f :: f in r <==> (f in files && f.number !in DeletedAt(edit, l)) || f in AddedAt(edit, l)
    requires DeletedAt(edit, l) == {} && AddedAt(edit, l) == {}
    ensures r == files
  {
    assert FilesOf(r) == FilesOf(files);
    SortedUnique(r, files);
  }

  // ----- Edits of the steps -----

  /** The edit that deletes `gone0` from a level and `gone1` from the next,
      and adds `added` at the level given. */
  function MoveEdit(level: nat, gone0: seq<File>, gone1: seq<File>, at: nat, added: seq<File>): FileEdit {
    FileEdit(seq(|gone0|, i requires 0 <= i < |gone0| => (level, gone0[i].number))
             + seq(|gone1|, i requires 0 <= i < |gone1| => (level + 1, gone1[i].number)),
             seq(|added|, i requires 0 <= i < |added| => (at, added[i])))
  }

  lemma MoveEditDeletes(level: nat, gone0: seq<File>, gone1: seq<File>, at: nat, added: seq<File>, l: nat)
    ensures DeletedAt(MoveEdit(level, gone0, gone1, at, added), l)
         == if l == level then Numbers(gone0) else if l == level + 1 then Numbers(gone1) else {}
  {
    var d := MoveEdit(level, gone0, gone1, at, added).deleted;
    var want := if l == level then Numbers(gone0) else if l == level + 1 then Numbers(gone1) else {};
    forall n <- want ensures n in DeletedIn(d, l) {
      if l == level {
        var f :| f in gone0 && f.number == n;
        var i :| 0 <= i < |gone0| && gone0[i] == f;
        assert d[i] == (l, n);
      } else {
        var f :| f in gone1 && f.number == n;
        var i :| 0 <= i < |gone1| && gone1[i] == f;
        assert d[|gone0| + i] == (l, n);
      }
    }
    forall n <- DeletedIn(d, l) ensures n in want {
      var i :| 0 <= i < |d| && d[i].0 == l && d[i].1 == n;
      if i < |gone0| {
        assert gone0[i] in gone0;
      } else {
        assert gone1[i - |gone0|] in gone1;
      }
    }
  }

  lemma MoveEditAdds(level: nat, gone0: seq<File>, gone1: seq<File>, at: nat, added: seq<File>, l: nat)
    ensures AddedAt(MoveEdit(level, gone0, gone1, at, added), l) == if l == at then FilesOf(added) else {}
  {
    var a := MoveEdit(level, gone0, gone1, at, added).added;
    if l == at {
      forall f <- FilesOf(added) ensures f in AddedIn(a, l) {
        var i :| 0 <= i < |added| && added[i] == f;
        assert a[i] == (at, f);
      }
    }
  }

  /** Installs a version that differs from the current one in two levels. */
  method InstallMove(levels: seq<seq<File>>, level: nat, gone0: seq<File>, gone1: seq<File>, at: nat, added: seq<File>)
    returns (r: seq<seq<File>>)
    requires |levels| == NUM_LEVELS && level + 1 < NUM_LEVELS && level <= at <= level + 1
    requires forall l | 0 <= l < NUM_LEVELS :: SortedBySmallest(levels[l])
    requires forall i, j | 0 <= i < j < |added| :: added[i].number != added[j].number
    requires forall f <- added, g <- levels[at] :: f.number != g.number
    ensures |r| == NUM_LEVELS && r == levels[level := r[level]][level + 1 := r[level + 1]]
    ensures forall l | 0 <= l < NUM_LEVELS :: SortedBySmallest(r[l])
    ensures IsEdited(levels[level], Numbers(gone0), if at == level then added else [], r[level])
    ensures IsEdited(levels[level + 1], Numbers(gone1), if at == level then [] else added, r[level + 1])
  {
    hide SortedBySmallest, Numbers, DeletedIn, AddedIn;
    var edit := MoveEdit(level, gone0, gone1, at, added);
    forall l | 0 <= l < NUM_LEVELS
      ensures DeletedAt(edit, l) == if l == level then Numbers(gone0) else if l == level + 1 then Numbers(gone1) else {}
      ensures AddedAt(edit, l) == if l == at then FilesOf(added) else {}
    {
      MoveEditDeletes(level, gone0, gone1, at, added, l);
      MoveEditAdds(level, gone0, gone1, at, added, l);
    }
    r := LogAndApply(levels, edit);
    forall l | 0 <= l < NUM_LEVELS && l != level && l != level + 1 ensures r[l] == levels[l] {
      UntouchedLevel(levels[l], edit, l, r[l]);
    }
  }

  /** Merges the inputs, drops what the rules allow, and cuts the rest into tables. */
  method MergeTables(levels: seq<seq<File>>, level: nat, chosen: seq<File>, parents: seq<File>,
                     smallestSnapshot: SequenceNumber, firstNumber: nat,
                     stopBefore: nat -> bool, full: nat -> bool, sizeOf: seq<Entry> -> nat)
    returns (merged: seq<Entry>, outputs: seq<File>)
    requires smallestSnapshot < MAX_SEQUENCE && forall l | level + 2 <= l < |levels| :: SortedDisjoint(levels[l])
    requires DistinctKeys(Tables(chosen + parents))
    ensures Ascending(merged) && Elements(merged) == Contents(chosen) + Contents(parents)
    ensures OutputsOk(outputs, Merge(merged, smallestSnapshot, level, levels).Output(), firstNumber, firstNumber + |outputs|)
    ensures forall i | 0 <= i < |outputs| :: outputs[i].number == firstNumber + i
  {
    hide Ascending, SortedDisjoint, Contents, OutputsOk, DistinctKeys;
    merged := MergeFiles(chosen + parents);
    ContentsOfBoth(chosen, parents);
    var chunks := DoCompactionWork(merged, smallestSnapshot, level, levels, stopBefore, full);
    outputs := MakeTables(chunks, firstNumber, sizeOf);
    MadeTablesOk(Merge(merged, smallestSnapshot, level, levels), chunks, outputs, firstNumber);
  }

  /** Writes a nonempty memtable as a table file of the level picked for it. */
  method FlushTable(levels: seq<seq<File>>, entries: seq<Entry>, number: nat, grandparentLimit: nat,
                    sizeOf: seq<Entry> -> nat)
    returns (file: File, level: nat, newLevels: seq<seq<File>>)
    requires |levels| == NUM_LEVELS && forall l | 0 < l < NUM_LEVELS :: SortedDisjoint(levels[l])
    requires forall l | 0 <= l < NUM_LEVELS :: SortedBySmallest(levels[l]) && forall f <- levels[l] :: f.number < number
    requires Ascending(entries) && entries != []
    ensures FileOk(file) && file.entries == entries && file.number == number
    ensures level <= 2
    ensures (forall i, f | 0 <= i <= 3 && f in levels[i] :: f.largest.user < file.smallest.user || file.largest.user < f.smallest.user) ==>
      level == 2
    ensures level > 0 ==> forall l | 0 <= l <= level :: NoOverlap(levels[l], file.smallest.user, file.largest.user)
    ensures |newLevels| == NUM_LEVELS && newLevels == levels[level := newLevels[level]]
    ensures IsEdited(levels[level], {}, [file], newLevels[level])
    ensures forall l | 0 <= l < NUM_LEVELS :: SortedBySmallest(newLevels[l])
  {
    hide SortedDisjoint, SortedBySmallest, NoOverlap, IsEdited, Ascending, FileOk, Numbers;
    file := File(number, sizeOf(entries), entries[0].key, entries[|entries| - 1].key, entries);
    TableOfRun(file);
    level := PickLevelForMemTableOutput(levels, file.smallest.user, file.largest.user, grandparentLimit);
    newLevels := InstallMove(levels, level, [], [], level, [file]);
    NoNumbers();
    UnchangedLevel(levels[level + 1], newLevels[level + 1]);
  }

  /** The files and the version a merge installs. */
  method PlanMerge(ghost st: State, levels: seq<seq<File>>, level: nat, chosen: seq<File>, parents: seq<File>,
                   smallestSnapshot: SequenceNumber, nextFile: nat,
                   stopBefore: nat -> bool, full: nat -> bool, sizeOf: seq<Entry> -> nat)
    returns (ghost step: Step, outputs: seq<File>, newLevels: seq<seq<File>>)
    requires Layered(st) && OneVersion(Stored(st)) && st.levels == levels && st.nextFile == nextFile
    requires SmallestSnapshot(st) == smallestSnapshot < MAX_SEQUENCE
    requires |levels| == NUM_LEVELS && forall l | 0 <= l < NUM_LEVELS :: SortedBySmallest(levels[l])
    requires forall l | 0 < l < NUM_LEVELS :: SortedDisjoint(levels[l])
    requires forall l | 0 <= l < NUM_LEVELS :: forall f <- levels[l] :: f.number < nextFile
    requires level + 1 < NUM_LEVELS && InputsOk(st, level, chosen, parents)
    ensures step.Compact? && step.level == level && step.chosen == chosen && step.parents == parents && IsCompaction(st, step)
    ensures step.nextFile == nextFile + |outputs|
    ensures newLevels == levels[level := step.files][level + 1 := step.nextFiles]
    ensures forall l | 0 <= l < NUM_LEVELS :: SortedBySmallest(newLevels[l])
  {
    hide Layered, SortedDisjoint, SortedBySmallest, IsEdited, Ascending, FileOk, InputsOk, OutputsOk, Numbers,
         IsCompaction, Contents, Elements, Stored, OneVersion, DistinctKeys, LevelsOk;
    LayeredLevels(st);
    InputKeysDistinct(st, level, chosen, parents);
    var merged;
    merged, outputs := MergeTables(levels, level, chosen, parents, smallestSnapshot, nextFile, stopBefore, full, sizeOf);
    newLevels := InstallMove(levels, level, chosen, parents, level + 1, outputs);
    step := Compact(level, chosen, parents, merged, outputs, newLevels[level], newLevels[level + 1], nextFile + |outputs|);
    IsCompactionByParts(st, step);
  }

  lemma NoFiles(levels: seq<seq<File>>)
    ensures (forall files <- levels :: files == []) ==> forall i | 0 <= i < |levels| :: levels[i] == []
  {
    assert forall i | 0 <= i < |levels| :: levels[i] in levels;
  }

  // ----- The store -----

  class Db {
    var mem: seq<Entry>
    var imm: Option<seq<Entry>>
    var levels: seq<seq<File>>
    var lastSequence: SequenceNumber
    var snapshots: seq<SequenceNumber>
    var nextFile: nat
    /** All operations written so far. */
    ghost var ops: seq<Op>

    ghost function Model(): State
      reads this
    {
      State(Elements(mem), if imm.Some? then Some(Elements(imm.value)) else None, levels, lastSequence, snapshots, nextFile)
    }

    /** Whatever happened before, the reads of live snapshots are those of `ops`. */
    ghost predicate Valid()
      reads this
    {
      && Ascending(mem) && (imm.Some? ==> Ascending(imm.value))
      && Describes(ops, Model())
      && forall l | 0 <= l < NUM_LEVELS :: SortedBySmallest(levels[l])
    }

    constructor ()
      ensures Valid() && ops == [] && Model() == INITIAL
    {
      mem, imm, levels := [], None, [[], [], [], [], [], [], []];
      lastSequence, snapshots, nextFile := 0, [], 2;
      ops := [];
      new;
      hide Describes;
      EmptyRun();
      assert Model() == INITIAL;
      InitialDescribes();
    }

    /** Main result: a read returns what a plain map holds after the first `s`
        operations, for the latest `s` and for every live snapshot. */
    method Get(user: UserKey, s: SequenceNumber) returns (value: Option<Bytes>)
      requires Valid() && Live(Model(), s)
      ensures s <= |ops| && value == Lookup(ops[..s], user)
    {
      hide Invariant, Describes, Finds, Layered, Ascending, Stored, SortedBySmallest;
      ReadyToRead(ops, Model(), user, s);
      var r := RunGet(mem, user, s);
      ghost var part := Elements(mem);
      if r.None? && imm.Some? {
        r := RunGet(imm.value, user, s);
        part := Elements(imm.value);
      }
      assert r.Some? ==> Finds(part, user, s, r);
      if r.None? {
        r := VersionGet(levels, user, s);
        part := AllContents(levels);
      }
      LayersDecide(Model(), user, s, part, r);
      value := if r.Some? then Outcome(r.value) else None;
    }

    /** A group of operations goes to the memtable under new numbers. */
    method Write(batch: seq<Op>)
      requires Valid() && lastSequence + |batch| < MAX_SEQUENCE
      modifies this
      ensures Valid() && ops == old(ops) + batch
      ensures Enabled(old(Model()), Step.Write(batch)) && Model() == After(old(Model()), Step.Write(batch))
    {
      hide Invariant, Describes, Ascending, SortedBySmallest, BatchEntries;
      ghost var before := Model();
      var base := lastSequence;
      NumbersBelow(ops, before);
      assert batch[..0] == [];
      assert BatchEntries(batch[..0], base) == {} by { EmptyBatch(base); }
      for i := 0 to |batch|
        invariant Model() == before.(mem := before.mem + BatchEntries(batch[..i], base))
        invariant ops == old(ops) && imm == old(imm) && Ascending(mem)
        invariant forall x <- mem :: x.key.sequence <= base + i
        invariant forall x <- mem :: x in Elements(mem)
      {
        var e := OpEntry(batch[i], base + 1 + i);
        var grown := InsertEntry(mem, e);
        BatchStep(batch, i, base);
        assert forall x <- grown :: x in Elements(grown);
        mem := grown;
      }
      assert batch[..|batch|] == batch;
      lastSequence := base + |batch|;
      ops := ops + batch;
      assert Model() == After(before, Step.Write(batch));
      StepDescribes(before, Step.Write(batch), old(ops), batch);
    }

    /** The memtable becomes immutable and a new one takes its place. */
    method SwitchMemTable()
      requires Valid() && imm.None?
      modifies this
      ensures Valid() && ops == old(ops)
      ensures Enabled(old(Model()), Rotate) && Model() == After(old(Model()), Rotate)
    {
      hide Invariant, Describes;
      ghost var before := Model();
      NumbersBelow(ops, before);
      imm := Some(mem);
      mem := [];
      assert Model() == After(before, Rotate);
      StepDescribes(before, Rotate, ops, []);
      assert ops + [] == ops;
    }

    method GetSnapshot() returns (s: SequenceNumber)
      requires Valid()
      modifies this
      ensures Valid() && ops == old(ops) && s == lastSequence && s in snapshots
      ensures Enabled(old(Model()), TakeSnapshot) && Model() == After(old(Model()), TakeSnapshot)
    {
      hide Invariant, Describes;
      ghost var before := Model();
      NumbersBelow(ops, before);
      s := lastSequence;
      snapshots := snapshots + [s];
      StepDescribes(before, TakeSnapshot, ops, []);
      assert ops + [] == ops;
    }

    method ReleaseSnapshot(index: nat)
      requires Valid() && index < |snapshots|
      modifies this
      ensures Valid() && ops == old(ops)
      ensures Enabled(old(Model()), Step.ReleaseSnapshot(index)) && Model() == After(old(Model()), Step.ReleaseSnapshot(index))
    {
      hide Invariant, Describes;
      ghost var before := Model();
      NumbersBelow(ops, before);
      snapshots := snapshots[..index] + snapshots[index + 1..];
      StepDescribes(before, Step.ReleaseSnapshot(index), ops, []);
      assert ops + [] == ops;
    }
  
    /** The immutable memtable becomes a table file. */
    method CompactMemTable(grandparentLimit: nat, sizeOf: seq<Entry> -> nat) returns (ghost step: Step)
      requires Valid() && imm.Some?
      modifies this
      ensures Valid() && ops == old(ops)
      ensures step.Flush? && Enabled(old(Model()), step) && Model() == After(old(Model()), step)
      ensures old(imm).value != [] && (forall files <- old(levels) :: files == []) ==> step.level == 2
    {
      hide Invariant, Describes, Layered, LevelsOk, SortedDisjoint, SortedBySmallest, NoOverlap, IsEdited, Ascending,
           FileOk, Numbers;
      ghost var before := Model();
      LevelFacts(ops, before);
      EmptyRun();
      if imm.value == [] {
        step := Flush(None, 0, []);
      } else {
        var file, level, newLevels := FlushTable(levels, imm.value, nextFile, grandparentLimit, sizeOf);
        NoFiles(levels);
        step := Flush(Some(file), level, newLevels[level]);
        assert FlushGuard(before, Some(file), level, newLevels[level]);
        levels := newLevels;
      }
      imm := None;
      nextFile := nextFile + 1;
      assert Model() == After(before, step);
      StepDescribes(before, step, ops, []);
      assert ops + [] == ops;
    }

    /** Moves a single input without parents to the next level. */
    method MoveFile(level: nat, file: File) returns (ghost step: Step)
      requires Valid() && level + 1 < NUM_LEVELS && |levels| == NUM_LEVELS && InputsOk(Model(), level, [file], [])
      modifies this
      ensures Valid() && ops == old(ops)
      ensures step.TrivialMove? && step.level == level && step.file == file
      ensures Enabled(old(Model()), step) && Model() == After(old(Model()), step)
    {
      hide Invariant, Describes, Layered, LevelsOk, SortedDisjoint, SortedBySmallest, IsEdited, InputsClosed, PicksParents,
           FileOk, Numbers;
      ghost var before := Model();
      LevelFacts(ops, before);
      assert file in levels[level] by { assert file in [file]; }
      MovedNumber(before, level, file);
      var newLevels := InstallMove(levels, level, [file], [], level + 1, [file]);
      NoNumbers();
      step := TrivialMove(level, file, newLevels[level], newLevels[level + 1]);
      levels := newLevels;
      assert Model() == After(before, step);
      StepDescribes(before, step, ops, []);
      assert ops + [] == ops;
    }

    /** Merges the inputs into new files of the next level. */
    method MergeDown(level: nat, chosen: seq<File>, parents: seq<File>,
                     stopBefore: nat -> bool, full: nat -> bool, sizeOf: seq<Entry> -> nat)
      returns (ghost step: Step)
      requires Valid() && level + 1 < NUM_LEVELS && |levels| == NUM_LEVELS && InputsOk(Model(), level, chosen, parents)
      modifies this
      ensures ops == old(ops) && |levels| == NUM_LEVELS && forall l | 0 <= l < NUM_LEVELS :: SortedBySmallest(levels[l])
      ensures step.Compact? && IsCompaction(old(Model()), step) && step.level == level && step.chosen == chosen && step.parents == parents
      ensures Model() == Compacted(old(Model()), step) && Layered(Model())
      ensures ParentsClosed(old(Model()), level, parents) ==> Valid()
    {
      hide Invariant, Describes, Layered, LevelsOk, SortedDisjoint, SortedBySmallest, IsEdited, Ascending, FileOk,
           InputsOk, OutputsOk, Numbers, IsCompaction, Compacted, ParentsClosed, Contents, Elements, Stored;
      ghost var before := Model();
      LevelFacts(ops, before);
      var smallestSnapshot := if snapshots == [] then lastSequence else snapshots[0];
      var outputs, newLevels;
      step, outputs, newLevels :=
        PlanMerge(before, levels, level, chosen, parents, smallestSnapshot, nextFile, stopBefore, full, sizeOf);
      levels := newLevels;
      nextFile := nextFile + |outputs|;
      assert Model() == Compacted(before, step) by { CompactedIs(before, step); }
      CompactKeepsLayers(before, step);
      if ParentsClosed(before, level, parents) {
        ClosedDescribes(before, step, ops);
      }
    }

    /** Moves the one file, if the code allows, or merges the inputs. */
    method RunCompaction(level: nat, chosen: seq<File>, parents: seq<File>, moveAllowed: bool,
                         stopBefore: nat -> bool, full: nat -> bool, sizeOf: seq<Entry> -> nat)
      returns (ghost step: Step)
      requires Valid() && level + 1 < NUM_LEVELS && |levels| == NUM_LEVELS && InputsOk(Model(), level, chosen, parents)
      modifies this
      ensures ops == old(ops) && IsStepOf(old(Model()), step, Model(), Valid())
      ensures step.TrivialMove? <==> |chosen| == 1 && parents == [] && moveAllowed
      ensures step.TrivialMove? ==> step.level == level && [step.file] == chosen
      ensures !step.TrivialMove? ==> step.Compact? && step.level == level && step.chosen == chosen && step.parents == parents
    {
      hide Db.Valid, InputsClosed, PicksParents, SortedDisjoint, IsCompaction, Enabled, ParentsClosed, Layered, Compacted, After, Distinct;
      if |chosen| == 1 && |parents| == 0 && moveAllowed {
        assert chosen == [chosen[0]] && parents == [];
        step := MoveFile(level, chosen[0]);
      } else {
        step := MergeDown(level, chosen, parents, stopBefore, full, sizeOf);
      }
    }

    /** One round of background work: a frozen memtable is flushed first; else
        the inputs of a manual or an automatic compaction are picked and moved
        or merged. */
    method BackgroundCompaction(level: nat, job: Job, limits: Limits, fewGrandparents: bool,
                                stopBefore: nat -> bool, full: nat -> bool, sizeOf: seq<Entry> -> nat)
      returns (ghost step: Option<Step>)
      requires Valid() && level + 1 < NUM_LEVELS == |levels| && IsJob(job, levels[level])
      modifies this
      ensures ops == old(ops)
      ensures old(imm).Some? <==> step.Some? && step.value.Flush?
      ensures step.None? ==> Valid() && Model() == old(Model()) && NothingToDo(job, levels[level])
      ensures step.Some? ==> IsStepOf(old(Model()), step.value, Model(), Valid())
      ensures step.Some? && !step.value.Flush? ==>
        Serves(job, old(levels[level]), InputsOf(step.value)) && (step.value.TrivialMove? ==> job.Automatic?)
    {
      hide Db.Valid, InputsClosed, PicksParents, SortedDisjoint, IsCompaction, Enabled, ParentsClosed, Layered, Compacted, After, Distinct;
      if imm.Some? {
        var flush := CompactMemTable(limits.grandparents, sizeOf);
        return Some(flush);
      }
      ValidLevels(this);
      LevelIsPickable(this, level);
      var taken, chosen, parents;
      ghost var seed, first;
      match job {
        case Manual(begin, end) =>
          taken, chosen, parents, seed := CompactRange(level, levels[level], levels[level + 1], begin, end, limits.range, limits.expansion);
          if taken {
            RangeIsServed(level, levels[level], begin, end, seed, chosen);
          }
        case Automatic(bySize, pointer, due) =>
          taken, chosen, parents, first :=
            PickCompaction(level, levels[level], levels[level + 1], bySize, pointer, due, limits.expansion);
      }
      if !taken {
        return None;
      }
      var done := RunCompaction(level, chosen, parents, job.Automatic? && fewGrandparents, stopBefore, full, sizeOf);
      step := Some(done);
    }
  }

  lemma RangeIsServed(level: nat, files: seq<File>, begin: Bound, end: Bound, seed: seq<File>, chosen: seq<File>)
    requires AllIn(seed, chosen) && seed != []
    requires level > 0 ==> seed <= Overlapping(files, begin, end)
    requires level == 0 ==> (exists f <- files :: Overlaps(begin, end, f)) && forall f <- files | Overlaps(begin, end, f) :: f in seed
    ensures Serves(Manual(begin, end), files, chosen)
  {
    OverlappingMembers(files, begin, end);
    assert seed[0] in seed;
  }

  /** What a background compaction is asked for: a range of user keys, or the
      file that is due by size or by seeks. */
  datatype Job = Manual(begin: Bound, end: Bound)
               | Automatic(bySize: bool, pointer: Option<InternalKey>, due: Option<File>)

  datatype Limits = Limits(range: nat, expansion: nat, grandparents: nat)

  predicate IsJob(job: Job, files: seq<File>) {
    job.Automatic? ==> (job.bySize ==> files != []) && (job.due.Some? ==> job.due.value in files)
  }

  ghost function InputsOf(step: Step): seq<File> {
    match step
    case Compact(_, chosen, _, _, _, _, _, _) => chosen
    case TrivialMove(_, file, _, _) => [file]
    case _ => []
  }

  /** The inputs hold a file of the range asked for, or the file that is due. */
  ghost predicate Serves(job: Job, files: seq<File>, inputs: seq<File>) {
    match job
    case Manual(begin, end) => exists f <- inputs :: Overlaps(begin, end, f)
    case Automatic(bySize, pointer, due) =>
      if bySize then
        if pointer.Some? && exists f <- files :: Less(pointer.value, f.largest) then
          exists f <- inputs :: Less(pointer.value, f.largest)
        else files != [] ==> files[0] in inputs
      else due.Some? && due.value in inputs
  }

  ghost predicate NothingToDo(job: Job, files: seq<File>) {
    match job
    case Manual(begin, end) => forall f <- files :: !Overlaps(begin, end, f)
    case Automatic(bySize, _, due) => !bySize && due.None?
  }

  /** The store took the step. A compaction is sure to keep all reads if its
      parents are closed. */
  ghost predicate IsStepOf(st: State, step: Step, after: State, valid: bool) {
    if step.Compact? then
      && IsCompaction(st, step) && after == Compacted(st, step) && Layered(after)
      && (ParentsClosed(st, step.level, step.parents) ==> valid)
    else Enabled(st, step) && after == After(st, step) && valid
  }

  lemma LevelIsPickable(db: Db, level: nat)
    requires db.Valid() && level + 1 < NUM_LEVELS == |db.levels|
    ensures LevelIsSorted(level, db.levels[level]) && SortedDisjoint(db.levels[level + 1])
  {
    hide Newer, UniqueNumbers, YoungerIsNewer, Ascending, ReadsAgree, OneVersion, BySmallest;
    LevelFacts(db.ops, db.Model());
    BySmallestDistinct(db.levels[level]);
    forall f <- db.levels[level] ensures Ranged(f) {
      FileIsRanged(f);
    }
  }

  lemma FileIsRanged(f: File)
    requires FileOk(f)
    ensures Ranged(f)
  {
    var n := |f.entries| - 1;
    assert n == 0 || Less(f.entries[0].key, f.entries[n].key);
  }

  lemma BySmallestDistinct(files: seq<File>)
    requires SortedBySmallest(files)
    ensures Distinct(files)
  {
    forall i, j | 0 <= i < j < |files| ensures files[i] != files[j] {
      assert BySmallest(files[i], files[j]);
    }
  }

  lemma ValidLevels(db: Db)
    requires db.Valid()
    ensures |db.levels| == NUM_LEVELS && forall l | 0 < l < NUM_LEVELS :: SortedDisjoint(db.levels[l])
  {
  }

  // ----- Files for memtables and outputs -----

  lemma LevelFacts(ops: seq<Op>, st: State)
    requires Describes(ops, st)
    ensures |st.levels| == NUM_LEVELS && LevelsOk(st.levels) && Layered(st) && OneVersion(Stored(st))
    ensures forall l | 0 < l < NUM_LEVELS :: SortedDisjoint(st.levels[l])
    ensures forall l | 0 <= l < NUM_LEVELS :: forall f <- st.levels[l] :: f.number < st.nextFile
    ensures SmallestSnapshot(st) < MAX_SEQUENCE
  {
    assert st.snapshots == [] || st.snapshots[0] in st.snapshots;
  }

  lemma EmptyRun()
    ensures Ascending([]) && Elements([]) == {}
  {
  }

  lemma TableOfRun(f: File)
    requires f.entries != [] && Ascending(f.entries)
    requires f.smallest == f.entries[0].key && f.largest == f.entries[|f.entries| - 1].key
    ensures FileOk(f)
  {
  }

  lemma NoNumbers()
    ensures Numbers([]) == {}
    ensures forall f: File :: Numbers([f]) == {f.number}
  {
    forall f: File ensures Numbers([f]) == {f.number} {
      assert f in [f];
    }
  }

  lemma UnchangedLevel(files: seq<File>, r: seq<File>)
    requires SortedBySmallest(files) && IsEdited(files, Numbers([]), [], r)
    ensures r == files
  {
    NoNumbers();
    assert FilesOf(r) == FilesOf(files);
    SortedUnique(r, files);
  }

  lemma MovedNumber(st: State, level: nat, file: File)
    requires LevelsOk(st.levels) && level + 1 < NUM_LEVELS && file in st.levels[level]
    ensures forall g <- st.levels[level + 1] :: g.number != file.number
  {
    LevelsUnique(st.levels);
  }

  lemma ContentsOfBoth(a: seq<File>, b: seq<File>)
    ensures Contents(a + b) == Contents(a) + Contents(b)
  {
    assert forall f :: f in a + b <==> f in a || f in b;
  }

  /** Different files have no key in common. */
  lemma FilesShareNoKey(st: State, l: nat, m: nat, f: File, g: File, x: Entry, y: Entry)
    requires LevelsOk(st.levels) && OneVersion(Stored(st)) && l < NUM_LEVELS && m < NUM_LEVELS
    requires f in st.levels[l] && g in st.levels[m] && x in f.entries && y in g.entries
    requires l != m || f != g
    ensures x.key != y.key
  {
    hide SortedDisjoint, FileOk, Stored, YoungerIsNewer;
    LevelOfLevels(st.levels, l);
    assert x in Contents(st.levels[l]) && y in Contents(st.levels[m]);
    LevelsApart(st.levels, l, m);
    if l == m {
      EntryInRange(f, x);
      EntryInRange(g, y);
      if l > 0 {
        DisjointIsApart(st.levels[l], f, g);
      } else {
        YoungerShareNone(st.levels, f, g, x, y);
      }
    }
  }

  lemma YoungerShareNone(levels: seq<seq<File>>, f: File, g: File, x: Entry, y: Entry)
    requires LevelsOk(levels) && f in levels[0] && g in levels[0] && f != g && x in f.entries && y in g.entries
    ensures x.key != y.key
  {
    assert f.number != g.number;
    assert x in Elements(f.entries) && y in Elements(g.entries);
  }

  lemma ParentFacts(st: State, level: nat, chosen: seq<File>, parents: seq<File>)
    requires |st.levels| == NUM_LEVELS && LevelsOk(st.levels) && InputsOk(st, level, chosen, parents)
    ensures level + 1 < NUM_LEVELS && Distinct(parents) && AllIn(parents, st.levels[level + 1])
    ensures chosen != [] && Distinct(chosen) && AllIn(chosen, st.levels[level])
  {
    hide InputsClosed, Distinct, FileOk, Newer, UniqueNumbers, YoungerIsNewer;
    RangeExists(chosen);
    var lo, hi :| IsSmallest(chosen, lo) && IsLargest(chosen, hi);
    var next := st.levels[level + 1];
    OverlappingMembers(next, Some(lo.user), Some(hi.user));
    SortedIsDistinct(next);
    OverlappingDistinct(next, Some(lo.user), Some(hi.user));
  }

  lemma SortedIsDistinct(files: seq<File>)
    requires SortedDisjoint(files)
    ensures Distinct(files)
  {
  }

  lemma InputKeysDistinct(st: State, level: nat, chosen: seq<File>, parents: seq<File>)
    requires |st.levels| == NUM_LEVELS && LevelsOk(st.levels) && OneVersion(Stored(st))
    requires InputsOk(st, level, chosen, parents)
    ensures DistinctKeys(Tables(chosen + parents))
  {
    hide InputsOk, LevelsOk, Stored, OneVersion, FileOk;
    ParentFacts(st, level, chosen, parents);
    var all := chosen + parents;
    var lists := Tables(all);
    forall c | 0 <= c < |lists| ensures Ascending(lists[c]) {
      InputFile(st, level, chosen, parents, c);
    }
    forall c, i, d, j | 0 <= c < d < |lists| && 0 <= i < |lists[c]| && 0 <= j < |lists[d]|
      ensures lists[c][i].key != lists[d][j].key
    {
      var l, m := if c < |chosen| then level else level + 1, if d < |chosen| then level else level + 1;
      InputFile(st, level, chosen, parents, c);
      InputFile(st, level, chosen, parents, d);
      FilesShareNoKey(st, l, m, all[c], all[d], lists[c][i], lists[d][j]);
    }
  }

  lemma InputFile(st: State, level: nat, chosen: seq<File>, parents: seq<File>, c: nat)
    requires |st.levels| == NUM_LEVELS && LevelsOk(st.levels) && level + 1 < NUM_LEVELS && c < |chosen| + |parents|
    requires AllIn(chosen, st.levels[level]) && AllIn(parents, st.levels[level + 1])
    ensures (chosen + parents)[c] in st.levels[if c < |chosen| then level else level + 1]
    ensures FileOk((chosen + parents)[c]) && Ascending((chosen + parents)[c].entries)
  {
    hide Ascending, SortedDisjoint, UniqueNumbers, YoungerIsNewer, Newer;
    if c < |chosen| {
      assert (chosen + parents)[c] == chosen[c] && chosen[c] in chosen;
    } else {
      assert (chosen + parents)[c] == parents[c - |chosen|] && parents[c - |chosen|] in parents;
    }
  }

  method MakeTables(chunks: seq<seq<Entry>>, firstNumber: nat, sizeOf: seq<Entry> -> nat) returns (files: seq<File>)
    requires forall c <- chunks :: c != []
    ensures Tables(files) == chunks
    ensures forall i | 0 <= i < |files| ::
      && files[i].number == firstNumber + i && files[i].entries != []
      && files[i].smallest == files[i].entries[0].key && files[i].largest == files[i].entries[|files[i].entries| - 1].key
  {
    files := [];
    for i := 0 to |chunks|
      invariant |files| == i && forall k | 0 <= k < i :: files[k].entries == chunks[k]
      invariant forall k | 0 <= k < i ::
        && files[k].number == firstNumber + k && files[k].entries != []
        && files[k].smallest == files[k].entries[0].key && files[k].largest == files[k].entries[|files[k].entries| - 1].key
    {
      var c := chunks[i];
      assert c in chunks;
      files := files + [File(firstNumber + i, sizeOf(c), c[0].key, c[|c| - 1].key, c)];
    }
  }

  lemma {:induction false} ChunksAscending(chunks: seq<seq<Entry>>)
    requires Ascending(Concat(chunks))
    ensures forall c <- chunks :: Ascending(c)
  {
    if chunks != [] {
      var n := |chunks| - 1;
      var whole, head, last := Concat(chunks), Concat(chunks[..n]), chunks[n];
      assert forall i | 0 <= i < |head| :: head[i] == whole[i];
      assert forall i | 0 <= i < |last| :: last[i] == whole[|head| + i];
      ChunksAscending(chunks[..n]);
      assert chunks == chunks[..n] + [last];
    }
  }

  lemma MadeTablesOk(m: Merge, chunks: seq<seq<Entry>>, outputs: seq<File>, firstNumber: nat)
    requires Ascending(m.input) && Concat(chunks) == m.Output() && Tables(outputs) == chunks
    requires forall i | 0 <= i < |outputs| ::
      && outputs[i].number == firstNumber + i && outputs[i].entries != []
      && outputs[i].smallest == outputs[i].entries[0].key
      && outputs[i].largest == outputs[i].entries[|outputs[i].entries| - 1].key
    ensures OutputsOk(outputs, m.Output(), firstNumber, firstNumber + |outputs|)
  {
    hide Ascending;
    KeptInOrder(m.input, |m.input|, m.smallestSnapshot, m.level, m.levels);
    ChunksAscending(chunks);
    forall f <- outputs ensures FileOk(f) && firstNumber <= f.number < firstNumber + |outputs| {
      var i :| 0 <= i < |outputs| && outputs[i] == f;
      assert chunks[i] == f.entries && chunks[i] in chunks;
    }
  }

  lemma IsCompactionByParts(st: State, step: Step)
    requires step.Compact? && |st.levels| == NUM_LEVELS
    requires CompactGuard(st, step.level, step.chosen, step.parents, step.input, step.outputs, step.files,
                          step.nextFiles, step.nextFile)
    ensures IsCompaction(st, step)
  {
  }

  lemma CompactedIs(st: State, step: Step)
    requires IsCompaction(st, step)
    ensures step.level + 1 < NUM_LEVELS == |st.levels|
    ensures Compacted(st, step)
         == st.(levels := st.levels[step.level := step.files][step.level + 1 := step.nextFiles], nextFile := step.nextFile)
  {
  }

  lemma ClosedDescribes(st: State, step: Step, ops: seq<Op>)
    requires Describes(ops, st) && IsCompaction(st, step)
    requires step.level + 1 < NUM_LEVELS && ParentsClosed(st, step.level, step.parents)
    ensures Describes(ops, Compacted(st, step))
  {
    hide Describes, CompactGuard, ParentsClosed;
    assert Enabled(st, step) && After(st, step) == Compacted(st, step);
    StepDescribes(st, step, ops, []);
    assert ops + [] == ops;
  }

  // ----- Reading -----

  lemma ReadyToRead(ops: seq<Op>, st: State, user: UserKey, s: SequenceNumber)
    requires Describes(ops, st) && Live(st, s)
    ensures s <= |ops| && Read(Stored(st), user, s) == Lookup(ops[..s], user)
    ensures Layered(st) && OneVersion(Stored(st)) && LevelsOk(st.levels)
  {
    hide Layered, Stored, Read, History;
    LiveIsCovered(st, History(ops), s);
    ReadIsLookup(ops, user, s);
    InvariantFacts(st, History(ops));
  }

  /** The first layer with a visible version decides. */
  lemma LayersDecide(st: State, user: UserKey, s: SequenceNumber, part: set<Entry>, r: Option<Entry>)
    requires Layered(st) && OneVersion(Stored(st))
    requires Finds(part, user, s, r)
    requires
      || part == st.mem
      || (part == Frozen(st) && Unseen(st.mem, user, s))
      || (part == AllContents(st.levels) && Unseen(st.mem, user, s) && Unseen(Frozen(st), user, s))
    requires r.None? ==> part == AllContents(st.levels) && Unseen(st.mem, user, s) && Unseen(Frozen(st), user, s)
    ensures Read(Stored(st), user, s) == if r.Some? then Outcome(r.value) else None
  {
    if r.Some? {
      forall x <- Stored(st) | Visible(x, user, s) ensures x.key.sequence <= r.value.key.sequence {
        AllContentsIn(st.levels, x);
      }
      ReadNewest(Stored(st), user, s, r.value);
    } else {
      assert Unseen(Stored(st), user, s) by {
        forall x <- Stored(st) ensures !Visible(x, user, s) {
          assert x in st.mem || x in Frozen(st) || x in AllContents(st.levels);
        }
      }
      ReadUnseen(Stored(st), user, s);
    }
  }

  // ----- Writing -----

  lemma NumbersBelow(ops: seq<Op>, st: State)
    requires Describes(ops, st)
    ensures forall x <- st.mem :: x.key.sequence <= st.lastSequence
    ensures |st.levels| == NUM_LEVELS
  {
  }

  lemma EmptyBatch(base: SequenceNumber)
    ensures BatchEntries([], base) == {}
  {
  }

  lemma BatchStep(batch: seq<Op>, i: nat, base: SequenceNumber)
    requires i < |batch| && base + |batch| <= MAX_SEQUENCE
    ensures BatchEntries(batch[..i + 1], base) == BatchEntries(batch[..i], base) + {OpEntry(batch[i], base + 1 + i)}
  {
    var p, q := batch[..i + 1], batch[..i];
    forall e <- BatchEntries(p, base) ensures e in BatchEntries(q, base) + {OpEntry(batch[i], base + 1 + i)} {
      var k :| 0 <= k < |p| && e == OpEntry(p[k], base + 1 + k);
      if k < i {
        assert OpEntry(q[k], base + 1 + k) in BatchEntries(q, base);
      }
    }
    forall e <- BatchEntries(q, base) ensures e in BatchEntries(p, base) {
      var k :| 0 <= k < |q| && e == OpEntry(q[k], base + 1 + k);
      assert OpEntry(p[k], base + 1 + k) in BatchEntries(p, base);
    }
    assert OpEntry(p[i], base + 1 + i) in BatchEntries(p, base);
  }
}
