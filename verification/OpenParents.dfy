/** A run of the store after which the code's compaction changes a read.
    Boundary files are added for the chosen inputs only
    (db/version_set.cc:1407-1411), so a parent's user key can continue in a
    file that stays behind. */
module OpenParents {
  import opened Keys
  import opened Files
  import opened View
  import opened Inputs
  import opened Compaction
  import opened DropRules
  import opened Engine
  import opened Steps
  import opened Compactions
  import opened MoveDown
  import opened Runs

  const OLD := Entry(InternalKey(2.0, 1, Value), [5])
  const PALE := Entry(InternalKey(1.0, 2, Value), [6])
  const GONE := Entry(InternalKey(2.0, 3, Deletion), [])
  const WHITE := Entry(InternalKey(1.0, 4, Value), [7])

  const FIRST := File(2, 1, PALE.key, OLD.key, [PALE, GONE, OLD])
  const PARENT := File(3, 1, PALE.key, GONE.key, [PALE, GONE])
  const BEHIND := File(4, 1, OLD.key, OLD.key, [OLD])
  const CHOSEN := File(5, 1, WHITE.key, WHITE.key, [WHITE])
  const OUTPUT := File(6, 1, WHITE.key, WHITE.key, [WHITE])

  // ----- The run -----

  /** A manual compaction, which merges even a single file without parents. A
      snapshot keeps the first value of 2.0 from being dropped, and an output
      ends between the two versions of 2.0. */
  const SPLIT := Step.Compact(2, [FIRST], [], [PALE, GONE, OLD], [PARENT, BEHIND], [], [PARENT, BEHIND], 5)

  const START: seq<Step> := [
    Write([Put(2.0, [5])]), TakeSnapshot, Write([Put(1.0, [6]), Delete(2.0)]), Rotate, Flush(Some(FIRST), 2, [FIRST])]

  const REST: seq<Step> := [ReleaseSnapshot(0), Write([Put(1.0, [7])]), Rotate, Flush(Some(CHOSEN), 2, [CHOSEN])]

  const RUN := START + ([SPLIT] + REST)

  const EMPTY: seq<seq<File>> := [[], [], [], [], [], [], []]
  const FLUSHED := State({}, None, [[], [], [FIRST], [], [], [], []], 3, [1], 3)
  const DEEP: seq<seq<File>> := [[], [], [], [PARENT, BEHIND], [], [], []]
  const PARTED := State({}, None, DEEP, 3, [1], 5)
  const STORE := State({}, None, [[], [], [CHOSEN], [PARENT, BEHIND], [], [], []], 4, [], 6)

  /** The compaction that the code may take next. */
  const STEP := Step.Compact(2, [CHOSEN], [PARENT], [WHITE, PALE, GONE], [OUTPUT], [], [OUTPUT, BEHIND], 7)

  lemma OneStep(st: State, step: Step, next: State, rest: seq<Step>)
    requires Enabled(st, step) && After(st, step) == next && IsRun(next, rest)
    ensures IsRun(st, [step] + rest) && Final(st, [step] + rest) == Final(next, rest)
  {
    hide Enabled, After;
    assert ([step] + rest)[1..] == rest;
  }

  lemma FilesOk()
    ensures FileOk(FIRST) && FileOk(CHOSEN) && FileOk(PARENT) && FileOk(BEHIND) && FileOk(OUTPUT)
  {
  }

  lemma FileContents()
    ensures Contents([]) == {} && Contents([FIRST]) == {PALE, GONE, OLD} && Contents([CHOSEN]) == {WHITE}
    ensures Contents([PARENT]) == {PALE, GONE}
    ensures Elements(FIRST.entries) == {PALE, GONE, OLD} && Elements(CHOSEN.entries) == {WHITE}
    ensures Elements(PARENT.entries) == {PALE, GONE} && Elements(BEHIND.entries) == {OLD}
  {
    ContentsOfAppended([], FIRST);
    ContentsOfAppended([], CHOSEN);
    ContentsOfAppended([], PARENT);
    assert [] + [FIRST] == [FIRST] && [] + [CHOSEN] == [CHOSEN] && [] + [PARENT] == [PARENT];
    assert FIRST.entries[0] == PALE && FIRST.entries[1] == GONE && FIRST.entries[2] == OLD;
    assert PARENT.entries[0] == PALE && PARENT.entries[1] == GONE;
  }

  lemma BatchIs()
    ensures BatchEntries([Put(2.0, [5])], 0) == {OLD}
    ensures BatchEntries([Put(1.0, [6]), Delete(2.0)], 1) == {PALE, GONE}
    ensures BatchEntries([Put(1.0, [7])], 3) == {WHITE}
  {
    assert OpEntry(Put(2.0, [5]), 1) == OLD && OpEntry(Put(1.0, [6]), 2) == PALE;
    assert OpEntry(Delete(2.0), 3) == GONE && OpEntry(Put(1.0, [7]), 4) == WHITE;
    var two := [Put(1.0, [6]), Delete(2.0)];
    assert OpEntry(two[0], 1 + 1 + 0) in BatchEntries(two, 1) && OpEntry(two[1], 1 + 1 + 1) in BatchEntries(two, 1);
    var one, last := [Put(2.0, [5])], [Put(1.0, [7])];
    assert OpEntry(one[0], 0 + 1 + 0) in BatchEntries(one, 0) && OpEntry(last[0], 3 + 1 + 0) in BatchEntries(last, 3);
  }

  lemma FirstFlush()
    ensures var st := State({}, Some({PALE, GONE, OLD}), EMPTY, 3, [1], 2);
      FlushGuard(st, Some(FIRST), 2, [FIRST]) && After(st, Flush(Some(FIRST), 2, [FIRST])) == FLUSHED
  {
    hide FileOk, Elements;
    FilesOk();
    FileContents();
    assert EMPTY[2 := [FIRST]] == FLUSHED.levels;
  }

  lemma SecondFlush()
    ensures var st := State({}, Some({WHITE}), DEEP, 4, [], 5);
      FlushGuard(st, Some(CHOSEN), 2, [CHOSEN]) && After(st, Flush(Some(CHOSEN), 2, [CHOSEN])) == STORE
  {
    hide FileOk, Elements;
    FilesOk();
    FileContents();
    assert DEEP[2 := [CHOSEN]] == STORE.levels;
  }

  /** With the snapshot at 1 live nothing is dropped. */
  lemma NothingDropped()
    ensures MergeOf(FLUSHED, 2, SPLIT.input).Output() == [PALE, GONE, OLD]
  {
    hide NoneCovers;
    var input, levels := SPLIT.input, FLUSHED.levels;
    forall i | 0 <= i < 3 ensures !Dropped(input, i, 1, 2, levels) {
    }
    NothingKept(input, 1, 2, levels);
    KeptStep(input, 0, 1, 2, levels);
    KeptStep(input, 1, 1, 2, levels);
    KeptStep(input, 2, 1, 2, levels);
    assert [] + [PALE] + [GONE] + [OLD] == [PALE, GONE, OLD];
  }

  lemma PartsAreBuilt()
    ensures OutputsOk([PARENT, BEHIND], [PALE, GONE, OLD], 3, 5)
  {
    FilesOk();
    var t := Tables([PARENT, BEHIND]);
    assert t[..1] == [PARENT.entries] && t[..1][..0] == [];
    assert Concat(t[..1]) == [] + PARENT.entries;
    assert Concat(t) == PARENT.entries + BEHIND.entries;
  }

  lemma SplitIsEnabled()
    ensures Enabled(FLUSHED, SPLIT) && After(FLUSHED, SPLIT) == PARTED
  {
    hide Kept, FileOk, OutputsOk, Elements;
    FileContents();
    NothingDropped();
    PartsAreBuilt();
    assert Ascending(SPLIT.input);
    assert SPLIT.input == FIRST.entries;
    assert IsEdited(FLUSHED.levels[2], Numbers([FIRST]), [], []) by {
      assert FIRST.number in Numbers([FIRST]);
    }
    assert FLUSHED.levels[2 := []][3 := [PARENT, BEHIND]] == DEEP;
  }

  lemma StartRuns(rest: seq<Step>)
    requires IsRun(FLUSHED, rest)
    ensures IsRun(INITIAL, START + rest) && Final(INITIAL, START + rest) == Final(FLUSHED, rest)
  {
    hide IsRun, Final, FlushGuard, BatchEntries;
    BatchIs();
    FirstFlush();
    var s1 := State({OLD}, None, EMPTY, 1, [], 2);
    var s2 := State({OLD}, None, EMPTY, 1, [1], 2);
    var s3 := State({PALE, GONE, OLD}, None, EMPTY, 3, [1], 2);
    var s4 := State({}, Some({PALE, GONE, OLD}), EMPTY, 3, [1], 2);
    OneStep(s4, START[4], FLUSHED, rest);
    OneStep(s3, START[3], s4, [START[4]] + rest);
    OneStep(s2, START[2], s3, [START[3]] + ([START[4]] + rest));
    OneStep(s1, START[1], s2, [START[2]] + ([START[3]] + ([START[4]] + rest)));
    OneStep(INITIAL, START[0], s1, [START[1]] + ([START[2]] + ([START[3]] + ([START[4]] + rest))));
    assert START + rest == [START[0]] + ([START[1]] + ([START[2]] + ([START[3]] + ([START[4]] + rest))));
  }

  lemma RestRuns()
    ensures IsRun(PARTED, REST) && Final(PARTED, REST) == STORE
  {
    hide FlushGuard, BatchEntries;
    BatchIs();
    SecondFlush();
    var s1 := State({}, None, DEEP, 3, [], 5);
    var s2 := State({WHITE}, None, DEEP, 4, [], 5);
    var s3 := State({}, Some({WHITE}), DEEP, 4, [], 5);
    OneStep(s3, REST[3], STORE, []);
    OneStep(s2, REST[2], s3, [REST[3]] + []);
    OneStep(s1, REST[1], s2, [REST[2]] + ([REST[3]] + []));
    OneStep(PARTED, REST[0], s1, [REST[1]] + ([REST[2]] + ([REST[3]] + [])));
    assert REST == [REST[0]] + ([REST[1]] + ([REST[2]] + ([REST[3]] + [])));
  }

  /** The store is reached by steps that are all enabled. */
  lemma StoreIsReached()
    ensures IsRun(INITIAL, RUN) && Final(INITIAL, RUN) == STORE
  {
    hide IsRun, Final, Enabled, After;
    RestRuns();
    SplitIsEnabled();
    OneStep(FLUSHED, SPLIT, PARTED, REST);
    StartRuns([SPLIT] + REST);
  }

  lemma OneOperation(step: Step, rest: seq<Step>)
    ensures Operations([step] + rest) == (match step case Write(ops) => ops case _ => []) + Operations(rest)
  {
    assert ([step] + rest)[1..] == rest;
  }

  /** The deletion of 2.0 is its last write. */
  lemma LastWriteDeletes()
    ensures Lookup(Operations(RUN), 2.0) == None && |Operations(RUN)| == 4
  {
    OneOperation(REST[3], []);
    OneOperation(REST[2], [REST[3]]);
    OneOperation(REST[1], [REST[2]] + [REST[3]]);
    OneOperation(REST[0], [REST[1]] + ([REST[2]] + [REST[3]]));
    var rest := [SPLIT] + REST;
    assert REST == [REST[0]] + ([REST[1]] + ([REST[2]] + [REST[3]]));
    OneOperation(SPLIT, REST);
    OneOperation(START[4], rest);
    OneOperation(START[3], [START[4]] + rest);
    OneOperation(START[2], [START[3]] + ([START[4]] + rest));
    OneOperation(START[1], [START[2]] + ([START[3]] + ([START[4]] + rest)));
    OneOperation(START[0], [START[1]] + ([START[2]] + ([START[3]] + ([START[4]] + rest))));
    assert RUN == [START[0]] + ([START[1]] + ([START[2]] + ([START[3]] + ([START[4]] + rest))));
    var ops := [Put(2.0, [5]), Put(1.0, [6]), Delete(2.0), Put(1.0, [7])];
    assert Operations(RUN) == ops;
    assert ops[..3][2] == Delete(2.0);
  }

  // ----- The next compaction -----

  lemma SomeIsIn(files: seq<File>, f: File)
    requires forall i | 0 <= i < |files| :: files[i] == f
    ensures files == [] || f in files
  {
    if files != [] {
      assert files[0] == f;
    }
  }

  lemma OneChoice(r: seq<File>, start: seq<File>)
    requires ExtendsByBoundaries([CHOSEN], start, r) && |start| <= 1 && AllIn(start, [CHOSEN])
    ensures |r| <= 1
  {
    forall k | 0 <= k < |r| ensures r[k] == CHOSEN {
      if k < |start| {
        assert r[k] == start[k] && start[k] in start;
      }
    }
    if r != [] {
      var front := r[..|r| - 1];
      assert |start| < |r| ==> CHOSEN !in front;
      SomeIsIn(front, CHOSEN);
    }
  }

  lemma NothingToExpand(parents: seq<File>, r: seq<File>)
    requires IsExpansion(2, [CHOSEN], [CHOSEN] + parents, r)
    ensures |r| <= 1
  {
    hide Overlaps, IsSmallest, IsLargest, ExtendsByBoundaries, NoBoundaryLeft;
    var s, l, lo, hi :| IsSmallest([CHOSEN] + parents, s) && IsLargest([CHOSEN] + parents, l)
      && IsRange(2, [CHOSEN], Some(s.user), Some(l.user), lo, hi)
      && ExtendsByBoundaries([CHOSEN], Overlapping([CHOSEN], lo, hi), r) && NoBoundaryLeft([CHOSEN], r);
    OverlappingMembers([CHOSEN], lo, hi);
    OneChoice(r, Overlapping([CHOSEN], lo, hi));
  }

  lemma OneOverlaps()
    ensures Overlapping([PARENT, BEHIND], Some(1.0), Some(1.0)) == [PARENT]
  {
    var next := [PARENT, BEHIND];
    OverlappingStep(next, 0, Some(1.0), Some(1.0));
    OverlappingStep(next, 1, Some(1.0), Some(1.0));
    assert next[..2] == next && next[..0] == [];
  }

  lemma ParentsAreOne(parents: seq<File>)
    requires PicksParents([PARENT, BEHIND], [CHOSEN], parents)
    ensures parents == [PARENT]
  {
    assert IsSmallest([CHOSEN], WHITE.key) && IsLargest([CHOSEN], WHITE.key);
    OneOverlaps();
  }

  /** Starting from the one file of level 2, the code takes these inputs, for
      every limit on the size of an expansion. */
  method InputsArePicked(limit: nat) returns (chosen: seq<File>, parents: seq<File>)
    ensures chosen == [CHOSEN] && parents == [PARENT]
  {
    hide ExtendsByBoundaries, NoBoundaryLeft, IsExpansion, PicksParents, InputsClosed;
    assert GoodSeed(2, [CHOSEN], [CHOSEN]) && SortedDisjoint([PARENT, BEHIND]);
    ghost var base, expanded;
    chosen, parents, base, expanded := SetupOtherInputs(2, STORE.levels[2], STORE.levels[3], [CHOSEN], limit);
    BaseIs(base);
    if parents != [] {
      NothingToExpand(parents, expanded);
    }
    ParentsAreOne(parents);
  }

  lemma BaseIs(base: seq<File>)
    requires ExtendsByBoundaries([CHOSEN], [CHOSEN], base)
    ensures base == [CHOSEN]
  {
    OneChoice(base, [CHOSEN]);
  }

  lemma InputsAreOk()
    ensures InputsOk(STORE, 2, [CHOSEN], [PARENT])
  {
    OneOverlaps();
  }

  /** The deletion goes: no deeper level has its key. */
  lemma OutputIsWhite()
    ensures MergeOf(STORE, 2, STEP.input).Output() == [WHITE]
  {
    var input, levels := STEP.input, STORE.levels;
    assert !Dropped(input, 0, 4, 2, levels);
    assert Dropped(input, 1, 4, 2, levels);
    assert NoneCovers(levels, 4, 2.0);
    assert Dropped(input, 2, 4, 2, levels);
    NothingKept(input, 4, 2, levels);
    KeptStep(input, 0, 4, 2, levels);
    KeptStep(input, 1, 4, 2, levels);
    KeptStep(input, 2, 4, 2, levels);
  }

  lemma OutputIsBuilt()
    ensures OutputsOk([OUTPUT], [WHITE], 6, 7)
  {
    FilesOk();
    assert Tables([OUTPUT])[..0] == [];
    assert Concat(Tables([OUTPUT])) == [] + [WHITE];
  }

  /** The step takes the inputs the code picks and does what the code does. */
  lemma StepIsCompaction()
    ensures IsCompaction(STORE, STEP)
  {
    hide Contents, Kept, FileOk, InputsOk, OutputsOk, NoneCovers, MergeOf;
    FileContents();
    InputsAreOk();
    OutputIsBuilt();
    OutputIsWhite();
    assert CHOSEN.number in Numbers([CHOSEN]) && PARENT.number in Numbers([PARENT]);
    assert Ascending(STEP.input);
    assert Elements(STEP.input) == {WHITE, PALE, GONE} by {
      assert STEP.input[0] == WHITE && STEP.input[1] == PALE && STEP.input[2] == GONE;
    }
  }

  lemma StoreContents()
    ensures Stored(STORE) == {WHITE, PALE, GONE, OLD}
  {
    hide Contents;
    FileContents();
    var levels := STORE.levels;
    forall x ensures x in AllContents(levels) <==> x in {WHITE, PALE, GONE, OLD} {
      assert x == WHITE ==> CHOSEN in levels[2] && x in CHOSEN.entries;
      assert x == PALE || x == GONE ==> PARENT in levels[3] && x in PARENT.entries;
      assert x == OLD ==> BEHIND in levels[3] && x in BEHIND.entries;
      if l, f: File :| 0 <= l < |levels| && f in levels[l] && x in f.entries {
        assert l == 2 || l == 3;
        assert x in Elements(f.entries);
      }
    }
  }

  /** All runs keep the invariant. */
  lemma StoreKeepsTheInvariant()
    ensures Layered(STORE) && OneVersion(Stored(STORE))
    ensures Read(Stored(STORE), 2.0, 4) == None
  {
    hide Layered, Stored, Read, Operations, IsRun, Final, Invariant, Lookup;
    StoreIsReached();
    LastWriteDeletes();
    InitialDescribes();
    RunKeeps(INITIAL, RUN, []);
    assert [] + Operations(RUN) == Operations(RUN);
    InvariantFacts(STORE, History(Operations(RUN)));
    RunsReadLikeTheMap(RUN, 2.0, 4);
    assert Operations(RUN)[..4] == Operations(RUN);
  }

  lemma InvariantFacts(st: State, written: set<Entry>)
    requires Invariant(st, written)
    ensures Layered(st) && OneVersion(Stored(st))
  {
  }

  lemma RestIsOld()
    ensures Rest(STORE, CompactShift(STEP)) == {OLD}
  {
    hide Layered, IsCompaction, Stored, Rest, IsShift, OneVersion;
    StoreKeepsTheInvariant();
    StepIsCompaction();
    CompactIsShift(STORE, STEP);
    StoredIsRestAndInput(STORE, CompactShift(STEP));
    RestIsApart(STORE, CompactShift(STEP));
    StoreContents();
    FileContents();
    assert {WHITE} + {PALE, GONE} == {WHITE, PALE, GONE};
  }

  /** The deleted key 2.0 has its old value again: the parents are not closed. */
  lemma CompactionResurrects()
    ensures IsRun(INITIAL, RUN) && Final(INITIAL, RUN) == STORE && STORE.lastSequence == 4
    ensures IsCompaction(STORE, STEP) && !ParentsClosed(STORE, 2, [PARENT])
    ensures Read(Stored(STORE), 2.0, 4) == None
    ensures Read(Stored(Compacted(STORE, STEP)), 2.0, 4) == Some([5])
  {
    hide Layered, IsCompaction, Read, Kept, IsRun, Final;
    StoreIsReached();
    StoreKeepsTheInvariant();
    StepIsCompaction();
    OutputIsWhite();
    CompactKeepsLayers(STORE, STEP);
    RestIsOld();
    assert Elements([WHITE]) == {WHITE};
    assert IsNewest({OLD, WHITE}, 2.0, 4, OLD);
    ReadNewest({OLD, WHITE}, 2.0, 4, OLD);
    assert {OLD} + {WHITE} == {OLD, WHITE};
    assert PARENT in [PARENT] && BEHIND in [PARENT, BEHIND] && BEHIND !in [PARENT];
  }
}
