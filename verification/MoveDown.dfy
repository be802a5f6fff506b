/** Trivial moves and compactions keep the invariant: both take files out of
    one level and put a merge of them and their parents into the next. */
module MoveDown {
  import opened Keys
  import opened Files
  import opened View
  import opened Inputs
  import opened Compaction
  import opened DropRules
  import opened Engine
  import opened Search
  import opened Steps
  import opened LevelSteps

  datatype Shift = Shift(level: nat, chosen: seq<File>, parents: seq<File>, outputs: seq<File>,
                         files: seq<File>, nextFiles: seq<File>)

  ghost function Merged(sh: Shift): set<Entry> {
    Contents(sh.chosen) + Contents(sh.parents)
  }

  ghost predicate IsShift(st: State, sh: Shift) {
    && |st.levels| == NUM_LEVELS
    && InputsOk(st, sh.level, sh.chosen, sh.parents)
    && IsEdited(st.levels[sh.level], Numbers(sh.chosen), [], sh.files)
    && IsEdited(st.levels[sh.level + 1], Numbers(sh.parents), sh.outputs, sh.nextFiles)
    && (forall o <- sh.outputs :: FileOk(o))
    && (forall o <- sh.outputs, p <- sh.outputs | o != p :: Apart(o, p))
    && Contents(sh.outputs) <= Merged(sh)
  }

  ghost function Shifted(levels: seq<seq<File>>, sh: Shift): seq<seq<File>>
    requires sh.level + 1 < |levels|
  {
    levels[sh.level := sh.files][sh.level + 1 := sh.nextFiles]
  }

  lemma {:induction false} RangeExists(files: seq<File>)
    requires files != []
    ensures exists lo, hi :: IsSmallest(files, lo) && IsLargest(files, hi)
  {
    var n := |files| - 1;
    var f := files[n];
    if n == 0 {
      assert IsSmallest(files, f.smallest) && IsLargest(files, f.largest);
    } else {
      var rest := files[..n];
      assert files == rest + [f];
      RangeExists(rest);
      var lo, hi :| IsSmallest(rest, lo) && IsLargest(rest, hi);
      RangeOfAppended(rest, f, lo, hi);
    }
  }

  lemma RangeOfAppended(files: seq<File>, f: File, lo: InternalKey, hi: InternalKey)
    requires IsSmallest(files, lo) && IsLargest(files, hi)
    ensures IsSmallest(files + [f], if Less(f.smallest, lo) then f.smallest else lo)
    ensures IsLargest(files + [f], if Less(hi, f.largest) then f.largest else hi)
  {
    var all := files + [f];
    assert f in all;
    var g :| g in files && g.smallest == lo;
    var h :| h in files && h.largest == hi;
    assert g in all && h in all;
  }

  lemma ParentsAre(st: State, sh: Shift, lo: InternalKey, hi: InternalKey)
    requires IsShift(st, sh) && IsSmallest(sh.chosen, lo) && IsLargest(sh.chosen, hi)
    ensures forall f :: f in sh.parents <==> f in st.levels[sh.level + 1] && Overlaps(Some(lo.user), Some(hi.user), f)
  {
    hide Distinct, InputsClosed, IsEdited, Contents, FileOk, Overlapping, AllIn, Apart, IsSmallest, IsLargest;
    OverlappingMembers(st.levels[sh.level + 1], Some(lo.user), Some(hi.user));
  }

  lemma ParentsIn(st: State, sh: Shift)
    requires IsShift(st, sh)
    ensures AllIn(sh.parents, st.levels[sh.level + 1])
  {
    RangeExists(sh.chosen);
    var lo, hi :| IsSmallest(sh.chosen, lo) && IsLargest(sh.chosen, hi);
    ParentsAre(st, sh, lo, hi);
  }

  /** Removing by number removes exactly the named files. */
  lemma StayingFiles(levels: seq<seq<File>>, l: nat, part: seq<File>, f: File)
    requires UniqueNumbers(levels) && l < |levels| && AllIn(part, levels[l]) && f in levels[l]
    ensures f.number in Numbers(part) <==> f in part
  {
  }

  // ----- The level that loses files -----

  lemma SourceLevel(st: State, sh: Shift)
    requires Layered(st) && IsShift(st, sh)
    ensures forall f :: f in sh.files <==> f in st.levels[sh.level] && f !in sh.chosen
    ensures LevelOk(sh.level, sh.files)
  {
    hide Newer, FileOk;
    var before := st.levels[sh.level];
    LevelOfLevels(st.levels, sh.level);
    forall f ensures f in sh.files <==> f in before && f !in sh.chosen {
      if f in before {
        StayingFiles(st.levels, sh.level, sh.chosen, f);
      }
    }
    if sh.level > 0 {
      forall f <- sh.files, g <- sh.files | f != g ensures Apart(f, g) {
        DisjointIsApart(before, f, g);
      }
      SortedApartIsDisjoint(sh.files);
    }
  }

  /** What stays behind is newer than what leaves. */
  lemma StayingIsNewer(st: State, sh: Shift)
    requires Layered(st) && IsShift(st, sh) && OneVersion(Stored(st))
    requires forall f :: f in sh.files <==> f in st.levels[sh.level] && f !in sh.chosen
    ensures Newer(Contents(sh.files), Contents(sh.chosen))
  {
    hide UniqueNumbers, YoungerIsNewer, LevelsNewer, IsEdited, PicksParents;
    LevelOfLevels(st.levels, sh.level);
    forall x <- Contents(sh.files), y <- Contents(sh.chosen) | x.key.user == y.key.user
      ensures x.key.sequence > y.key.sequence
    {
      var f :| f in sh.files && x in f.entries;
      var g :| g in sh.chosen && y in g.entries;
      StayingFileIsNewer(st, sh, f, g, x, y);
    }
  }

  lemma StayingFileIsNewer(st: State, sh: Shift, f: File, g: File, x: Entry, y: Entry)
    requires LevelsOk(st.levels) && IsShift(st, sh) && OneVersion(Stored(st))
    requires f in st.levels[sh.level] && f !in sh.chosen && x in f.entries
    requires g in sh.chosen && y in g.entries && x.key.user == y.key.user
    ensures x.key.sequence > y.key.sequence
  {
    hide UniqueNumbers, YoungerIsNewer, IsEdited, PicksParents, Newer, IsShift;
    assert AllIn(sh.chosen, st.levels[sh.level]) && InputsClosed(sh.level, st.levels[sh.level], sh.chosen) by {
      ShiftInputs(st, sh);
    }
    EntryInRange(f, x);
    EntryInRange(g, y);
    if sh.level > 0 {
      InOrder(st.levels[sh.level], f, g);
      assert Less(x.key, y.key);
      assert x in Stored(st) && y in Stored(st);
    }
  }

  lemma ShiftInputs(st: State, sh: Shift)
    requires IsShift(st, sh)
    ensures sh.level + 1 < |st.levels| == NUM_LEVELS && sh.chosen != []
    ensures AllIn(sh.chosen, st.levels[sh.level]) && InputsClosed(sh.level, st.levels[sh.level], sh.chosen)
  {
  }

  // ----- The level that gains files -----

  /** A file of the next level that is no parent lies entirely before or
      entirely after all inputs. */
  lemma AsideOfInputs(st: State, sh: Shift, g: File)
    requires LevelsOk(st.levels) && IsShift(st, sh)
    requires g in st.levels[sh.level + 1] && g !in sh.parents
    ensures (forall e <- Merged(sh) :: Less(g.largest, e.key)) || (forall e <- Merged(sh) :: Less(e.key, g.smallest))
  {
    hide LevelsOk, IsShift, IsSmallest, IsLargest, Merged, Less;
    ShiftInputs(st, sh);
    RangeExists(sh.chosen);
    var lo, hi :| IsSmallest(sh.chosen, lo) && IsLargest(sh.chosen, hi);
    ParentsAre(st, sh, lo, hi);
    forall e <- Merged(sh)
      ensures g.largest.user < lo.user ==> Less(g.largest, e.key)
      ensures hi.user < g.smallest.user ==> Less(e.key, g.smallest)
    {
      InputBeside(st, sh, g, lo, hi, e);
    }
  }

  lemma InRange(files: seq<File>, lo: InternalKey, hi: InternalKey, f: File)
    requires IsSmallest(files, lo) && IsLargest(files, hi) && f in files
    ensures AtMost(lo, f.smallest) && AtMost(f.largest, hi)
  {
  }

  lemma InputBeside(st: State, sh: Shift, g: File, lo: InternalKey, hi: InternalKey, e: Entry)
    requires LevelsOk(st.levels) && IsShift(st, sh)
    requires g in st.levels[sh.level + 1]
    requires IsSmallest(sh.chosen, lo) && IsLargest(sh.chosen, hi)
    requires e in Merged(sh)
    ensures g.largest.user < lo.user ==> Less(g.largest, e.key)
    ensures hi.user < g.smallest.user ==> Less(e.key, g.smallest)
  {
    hide LevelsOk, IsShift, IsSmallest, IsLargest, FileOk, SortedDisjoint;
    ShiftInputs(st, sh);
    if f :| f in sh.chosen && e in f.entries {
      assert f in st.levels[sh.level];
      LevelOfLevels(st.levels, sh.level);
      EntryInRange(f, e);
      InRange(sh.chosen, lo, hi, f);
      LevelOfLevels(st.levels, sh.level + 1);
    } else {
      ParentsAre(st, sh, lo, hi);
      var p :| p in sh.parents && e in p.entries;
      LevelOfLevels(st.levels, sh.level + 1);
      EntryInRange(p, e);
      InOrder(st.levels[sh.level + 1], p, g);
    }
  }

  lemma ShiftOutputs(st: State, sh: Shift)
    requires IsShift(st, sh)
    ensures forall o <- sh.outputs :: FileOk(o)
    ensures forall o <- sh.outputs, p <- sh.outputs | o != p :: Apart(o, p)
    ensures Contents(sh.outputs) <= Merged(sh)
    ensures SortedBySmallest(sh.nextFiles)
  {
  }

  lemma OutputApart(st: State, sh: Shift, g: File, o: File)
    requires LevelsOk(st.levels) && IsShift(st, sh)
    requires g in st.levels[sh.level + 1] && g !in sh.parents && o in sh.outputs
    ensures Apart(g, o)
  {
    hide LevelsOk, IsShift, Merged, Less;
    AsideOfInputs(st, sh, g);
    ShiftOutputs(st, sh);
    var first, last := o.entries[0], o.entries[|o.entries| - 1];
    assert first in o.entries && last in o.entries;
    assert first in Contents(sh.outputs) && last in Contents(sh.outputs);
  }

  lemma NextMembers(st: State, sh: Shift)
    requires LevelsOk(st.levels) && IsShift(st, sh)
    ensures forall f :: f in sh.nextFiles <==> (f in st.levels[sh.level + 1] && f !in sh.parents) || f in sh.outputs
  {
    hide IsShift, LevelsOk, Numbers, UniqueNumbers;
    ShiftInputs(st, sh);
    ParentsIn(st, sh);
    LevelsUnique(st.levels);
    forall f | f in st.levels[sh.level + 1] ensures f.number in Numbers(sh.parents) <==> f in sh.parents {
      StayingFiles(st.levels, sh.level + 1, sh.parents, f);
    }
    ShiftEdit(st, sh);
  }

  lemma LevelsUnique(levels: seq<seq<File>>)
    requires LevelsOk(levels)
    ensures UniqueNumbers(levels)
  {
  }

  lemma ShiftEdit(st: State, sh: Shift)
    requires IsShift(st, sh)
    ensures IsEdited(st.levels[sh.level + 1], Numbers(sh.parents), sh.outputs, sh.nextFiles)
  {
  }

  lemma TargetLevel(st: State, sh: Shift)
    requires LevelsOk(st.levels) && IsShift(st, sh)
    ensures LevelOk(sh.level + 1, sh.nextFiles)
  {
    hide LevelsOk, IsShift, Less, FileOk, Apart, SortedDisjoint;
    ShiftInputs(st, sh);
    LevelOfLevels(st.levels, sh.level + 1);
    NextMembers(st, sh);
    ShiftOutputs(st, sh);
    forall f <- sh.nextFiles, g <- sh.nextFiles | f != g ensures Apart(f, g) {
      if f in sh.outputs && g !in sh.outputs {
        OutputApart(st, sh, g, f);
        ApartSymmetric(f, g);
      } else if f !in sh.outputs && g in sh.outputs {
        OutputApart(st, sh, f, g);
      } else if f !in sh.outputs && g !in sh.outputs {
        DisjointIsApart(st.levels[sh.level + 1], f, g);
      }
    }
    SortedApartIsDisjoint(sh.nextFiles);
  }

  lemma ApartSymmetric(f: File, g: File)
    requires Apart(g, f)
    ensures Apart(f, g)
  {
  }

  // ----- All levels -----

  lemma ShiftedContents(st: State, sh: Shift)
    requires LevelsOk(st.levels) && IsShift(st, sh)
    requires forall f :: f in sh.files <==> f in st.levels[sh.level] && f !in sh.chosen
    ensures Contents(sh.files) <= Contents(st.levels[sh.level])
    ensures Contents(sh.nextFiles) <= Contents(st.levels[sh.level]) + Contents(st.levels[sh.level + 1])
    ensures Contents(sh.nextFiles) <= Contents(sh.chosen) + Contents(st.levels[sh.level + 1])
  {
    hide LevelsOk, IsShift;
    NextMembers(st, sh);
    ShiftOutputs(st, sh);
    ShiftInputs(st, sh);
    ParentsIn(st, sh);
    forall f, e | f in sh.nextFiles && e in f.entries
      ensures e in Contents(sh.chosen) + Contents(st.levels[sh.level + 1])
    {
      if f in sh.outputs {
        assert e in Contents(sh.outputs);
      }
    }
  }

  lemma ShiftedNewer(st: State, sh: Shift)
    requires LevelsOk(st.levels) && IsShift(st, sh) && OneVersion(Stored(st))
    requires forall f :: f in sh.files <==> f in st.levels[sh.level] && f !in sh.chosen
    requires Newer(Contents(sh.files), Contents(sh.chosen))
    ensures LevelsNewer(Shifted(st.levels, sh))
  {
    hide IsShift, FileOk, SortedDisjoint, YoungerIsNewer, UniqueNumbers, Contents, Newer;
    ShiftInputs(st, sh);
    ShiftedContents(st, sh);
    var levels := Shifted(st.levels, sh);
    var c := Contents(st.levels[sh.level]);
    var d := Contents(st.levels[sh.level + 1]);
    forall l, m | 0 <= l < m < NUM_LEVELS ensures Newer(Contents(levels[l]), Contents(levels[m])) {
      var a, b := Contents(st.levels[l]), Contents(st.levels[m]);
      assert Newer(a, b);
      if l == sh.level && m == sh.level + 1 {
        NewerParts(Contents(sh.files), d, c, d);
        NewerUnion2(Contents(sh.files), Contents(sh.chosen), d);
        NewerParts(Contents(sh.files), Contents(sh.nextFiles), Contents(sh.files), Contents(sh.chosen) + d);
      } else if l < sh.level && m == sh.level + 1 {
        assert Newer(a, c);
        NewerUnion2(a, c, d);
        NewerParts(a, Contents(sh.nextFiles), a, c + d);
      } else if l == sh.level + 1 {
        assert Newer(c, b);
        NewerUnion(c, d, b);
        NewerParts(Contents(sh.nextFiles), b, c + d, b);
      } else if l == sh.level {
        NewerParts(Contents(sh.files), b, c, b);
      } else if m == sh.level {
        NewerParts(a, Contents(sh.files), a, c);
      }
    }
  }

  lemma NewerParts(a: set<Entry>, b: set<Entry>, a1: set<Entry>, b1: set<Entry>)
    requires Newer(a1, b1) && a <= a1 && b <= b1
    ensures Newer(a, b)
  {
  }

  lemma NewerLevel(a: set<Entry>, st: State, sh: Shift, l: nat)
    requires LevelsOk(st.levels) && IsShift(st, sh) && l < NUM_LEVELS
    requires forall f :: f in sh.files <==> f in st.levels[sh.level] && f !in sh.chosen
    requires forall k | 0 <= k < NUM_LEVELS :: Newer(a, Contents(st.levels[k]))
    ensures Newer(a, Contents(Shifted(st.levels, sh)[l]))
  {
    hide IsShift, LevelsOk, Contents, Newer;
    ShiftInputs(st, sh);
    ShiftedContents(st, sh);
    var c := Contents(st.levels[sh.level]);
    var d := Contents(st.levels[sh.level + 1]);
    NewerUnion2(a, c, d);
    NewerParts(a, Contents(sh.nextFiles), a, c + d);
    NewerParts(a, Contents(sh.files), a, c);
  }

  /** Shape of the state after a move down, given that file numbers stay unique. */
  lemma ShiftKeepsLayers(st: State, sh: Shift, nextFile: nat)
    requires Layered(st) && IsShift(st, sh) && OneVersion(Stored(st))
    requires UniqueNumbers(Shifted(st.levels, sh))
    requires st.nextFile <= nextFile && forall o <- sh.outputs :: o.number < nextFile
    ensures Layered(st.(levels := Shifted(st.levels, sh), nextFile := nextFile))
  {
    hide IsShift, Contents, Newer, UniqueNumbers, FileOk, SortedDisjoint, YoungerIsNewer;
    ShiftInputs(st, sh);
    SourceLevel(st, sh);
    StayingIsNewer(st, sh);
    TargetLevel(st, sh);
    NextMembers(st, sh);
    ShiftedNewer(st, sh);
    var levels := Shifted(st.levels, sh);
    forall l | 0 <= l < NUM_LEVELS ensures LevelOk(l, levels[l]) {
      LevelOfLevels(st.levels, l);
    }
    LevelsFromParts(levels);
    forall l | 0 <= l < NUM_LEVELS
      ensures Newer(st.mem, Contents(levels[l])) && Newer(Frozen(st), Contents(levels[l]))
    {
      NewerLevel(st.mem, st, sh, l);
      NewerLevel(Frozen(st), st, sh, l);
    }
  }

  // ----- Trivial move -----

  function MoveShift(level: nat, file: File, files: seq<File>, nextFiles: seq<File>): Shift {
    Shift(level, [file], [], [file], files, nextFiles)
  }

  lemma MoveIsShift(st: State, level: nat, file: File, files: seq<File>, nextFiles: seq<File>)
    requires LevelsOk(st.levels) && TrivialMoveGuard(st, level, file, files, nextFiles)
    ensures IsShift(st, MoveShift(level, file, files, nextFiles))
  {
    hide Newer, UniqueNumbers, SortedDisjoint, YoungerIsNewer, InputsOk, IsEdited, FileOk, Apart;
    OneInput(st, level, file, files, nextFiles);
    assert Contents([file]) <= Merged(MoveShift(level, file, files, nextFiles));
  }

  lemma OneInput(st: State, level: nat, file: File, files: seq<File>, nextFiles: seq<File>)
    requires LevelsOk(st.levels) && TrivialMoveGuard(st, level, file, files, nextFiles)
    ensures |st.levels| == NUM_LEVELS && level + 1 < NUM_LEVELS && InputsOk(st, level, [file], []) && FileOk(file)
    ensures IsEdited(st.levels[level], Numbers([file]), [], files)
    ensures IsEdited(st.levels[level + 1], Numbers([]), [file], nextFiles)
  {
    hide Newer, UniqueNumbers, SortedDisjoint, YoungerIsNewer;
    assert file in [file];
    assert Numbers([]) == {};
    assert Numbers([file]) == {file.number};
  }

  lemma MoveNumbers(st: State, level: nat, file: File, files: seq<File>, nextFiles: seq<File>)
    requires Layered(st) && TrivialMoveGuard(st, level, file, files, nextFiles)
    ensures UniqueNumbers(st.levels[level := files][level + 1 := nextFiles])
    ensures file.number < st.nextFile
  {
    hide Newer, SortedDisjoint, YoungerIsNewer, FileOk, InputsClosed, PicksParents, SortedBySmallest;
    assert file in [file];
    var levels := st.levels[level := files][level + 1 := nextFiles];
    forall l, m, g: File, h: File | 0 <= l < |levels| && 0 <= m < |levels| && g in levels[l] && h in levels[m] && g.number == h.number
      ensures l == m && g == h
    {
      var a := if l == level + 1 && g == file then level else l;
      var b := if m == level + 1 && h == file then level else m;
      assert g in st.levels[a] && h in st.levels[b];
    }
  }

  lemma MoveKeepsContents(st: State, level: nat, file: File, files: seq<File>, nextFiles: seq<File>)
    requires LevelsOk(st.levels) && TrivialMoveGuard(st, level, file, files, nextFiles)
    ensures AllContents(st.levels[level := files][level + 1 := nextFiles]) == AllContents(st.levels)
  {
    hide LevelsOk, TrivialMoveGuard, AllContents, Outside, IsShift;
    var sh := MoveShift(level, file, files, nextFiles);
    MoveIsShift(st, level, file, files, nextFiles);
    ShiftInputs(st, sh);
    ShiftedAllContents(st, sh);
    OutsideShift(st, sh);
    assert Contents([]) == {};
  }

  /** The entries of files that take no part in a move down. */
  ghost function Outside(levels: seq<seq<File>>, sh: Shift): set<Entry> {
    set l, f, e | 0 <= l < |levels| && f in levels[l] && e in f.entries
      && !(l == sh.level && f in sh.chosen) && !(l == sh.level + 1 && f in sh.parents) :: e
  }

  lemma OutsideShift(st: State, sh: Shift)
    requires IsShift(st, sh)
    ensures Outside(st.levels, sh) + Merged(sh) == AllContents(st.levels)
  {
    hide IsShift;
    ShiftInputs(st, sh);
    ParentsIn(st, sh);
    forall e <- AllContents(st.levels) ensures e in Outside(st.levels, sh) + Merged(sh) {
      var l, f: File :| 0 <= l < |st.levels| && f in st.levels[l] && e in f.entries;
      if l == sh.level && f in sh.chosen {
        assert e in Contents(sh.chosen);
      } else if l == sh.level + 1 && f in sh.parents {
        assert e in Contents(sh.parents);
      } else {
        assert e in Outside(st.levels, sh);
      }
    }
  }

  /** After a move down the levels hold what was outside, and the outputs. */
  lemma ShiftedAllContents(st: State, sh: Shift)
    requires LevelsOk(st.levels) && IsShift(st, sh)
    ensures AllContents(Shifted(st.levels, sh)) == Outside(st.levels, sh) + Contents(sh.outputs)
  {
    hide LevelsOk, IsShift;
    ShiftInputs(st, sh);
    NextMembers(st, sh);
    SourceMembers(st, sh);
    var levels := Shifted(st.levels, sh);
    forall e <- AllContents(levels) ensures e in Outside(st.levels, sh) + Contents(sh.outputs) {
      var l, f: File :| 0 <= l < |levels| && f in levels[l] && e in f.entries;
      if !(l == sh.level + 1 && f in sh.outputs) {
        assert f in st.levels[l];
        assert e in Outside(st.levels, sh);
      }
    }
    forall e <- Outside(st.levels, sh) ensures e in AllContents(levels) {
      var l, f: File :| 0 <= l < |st.levels| && f in st.levels[l] && e in f.entries
        && !(l == sh.level && f in sh.chosen) && !(l == sh.level + 1 && f in sh.parents);
      assert f in levels[l];
    }
    forall f, e | f in sh.outputs && e in f.entries ensures e in AllContents(levels) {
      assert f in levels[sh.level + 1];
    }
  }

  lemma SourceMembers(st: State, sh: Shift)
    requires LevelsOk(st.levels) && IsShift(st, sh)
    ensures forall f :: f in sh.files <==> f in st.levels[sh.level] && f !in sh.chosen
  {
    hide LevelsOk, Numbers, UniqueNumbers, FileOk, Apart, InputsClosed, PicksParents;
    LevelsUnique(st.levels);
    forall f ensures f in sh.files <==> f in st.levels[sh.level] && f !in sh.chosen {
      if f in st.levels[sh.level] {
        StayingFiles(st.levels, sh.level, sh.chosen, f);
      }
    }
  }

  lemma InvariantFacts(st: State, written: set<Entry>)
    requires Invariant(st, written)
    ensures |st.levels| == NUM_LEVELS && LevelsOk(st.levels) && Layered(st) && OneVersion(Stored(st))
  {
  }

  lemma MoveLevel(st: State, level: nat, file: File, files: seq<File>, nextFiles: seq<File>)
    requires |st.levels| == NUM_LEVELS && TrivialMoveGuard(st, level, file, files, nextFiles)
    ensures level + 1 < NUM_LEVELS
  {
  }

  lemma MoveKeeps(st: State, level: nat, file: File, files: seq<File>, nextFiles: seq<File>, written: set<Entry>)
    requires Invariant(st, written)
    requires |st.levels| == NUM_LEVELS && TrivialMoveGuard(st, level, file, files, nextFiles)
    ensures level + 1 < NUM_LEVELS
    ensures Invariant(st.(levels := st.levels[level := files][level + 1 := nextFiles]), written)
  {
    hide Invariant, Layered, LevelsOk, TrivialMoveGuard, AllContents, OneVersion, IsShift, UniqueNumbers;
    InvariantFacts(st, written);
    MoveLevel(st, level, file, files, nextFiles);
    var sh := MoveShift(level, file, files, nextFiles);
    var st1 := st.(levels := Shifted(st.levels, sh), nextFile := st.nextFile);
    assert st1 == st.(levels := st.levels[level := files][level + 1 := nextFiles]);
    MoveIsShift(st, level, file, files, nextFiles);
    MoveNumbers(st, level, file, files, nextFiles);
    MoveKeepsContents(st, level, file, files, nextFiles);
    ShiftKeepsLayers(st, sh, st.nextFile);
    SameStored(st, st1, written);
  }

  lemma TrivialMoveKeeps(st: State, step: Step, written: set<Entry>)
    requires Invariant(st, written) && Enabled(st, step) && step.TrivialMove?
    ensures Invariant(After(st, step), written)
  {
    hide Invariant, TrivialMoveGuard;
    InvariantFacts(st, written);
    var TrivialMove(level, file, files, nextFiles) := step;
    MoveKeeps(st, level, file, files, nextFiles, written);
  }
}
