/** Compactions keep the invariant. */
module Compactions {
  import opened Keys
  import opened Files
  import opened View
  import opened Inputs
  import opened Compaction
  import opened DropRules
  import opened Engine
  import opened Search
  import opened Steps
  import opened LevelSteps
  import opened MoveDown

  // ----- The output files are pieces of one ascending sequence -----

  lemma {:induction false} OutputPieces(outputs: seq<File>)
    requires forall f <- outputs :: FileOk(f)
    ensures Elements(Concat(Tables(outputs))) == Contents(outputs)
    ensures Ascending(Concat(Tables(outputs))) ==>
              forall i, j | 0 <= i < j < |outputs| :: Less(outputs[i].largest, outputs[j].smallest)
  {
    if outputs != [] {
      var n := |outputs| - 1;
      var front, last := outputs[..n], outputs[n];
      var head := Concat(Tables(front));
      assert Tables(outputs)[..n] == Tables(front);
      var whole := Concat(Tables(outputs));
      assert whole == head + last.entries;
      assert outputs == front + [last];
      assert FileOk(last);
      OutputPieces(front);
      assert Elements(whole) == Elements(head) + Elements(last.entries);
      ContentsOfAppended(front, last);
      if Ascending(whole) {
        assert forall i, j | 0 <= i < j < |head| :: head[i] == whole[i] && head[j] == whole[j];
        assert Ascending(head);
        forall i | 0 <= i < n ensures Less(outputs[i].largest, last.smallest) {
          var f := front[i];
          assert FileOk(f);
          var e := f.entries[|f.entries| - 1];
          assert f in front && e in f.entries && e in Contents(front);
          var k :| 0 <= k < |head| && head[k] == e;
          assert whole[k] == e && whole[|head|] == last.entries[0];
        }
      }
    }
  }

  lemma ContentsOfAppended(files: seq<File>, f: File)
    ensures Contents(files + [f]) == Contents(files) + Elements(f.entries)
  {
  }

  function CompactShift(step: Step): Shift
    requires step.Compact?
  {
    Shift(step.level, step.chosen, step.parents, step.outputs, step.files, step.nextFiles)
  }

  ghost predicate IsCompaction(st: State, step: Step) {
    && step.Compact? && |st.levels| == NUM_LEVELS
    && CompactGuard(st, step.level, step.chosen, step.parents, step.input, step.outputs, step.files, step.nextFiles,
                    step.nextFile)
  }

  lemma CompactionFacts(st: State, step: Step)
    requires IsCompaction(st, step)
    ensures step.Compact? && step.level + 1 < NUM_LEVELS && st.nextFile <= step.nextFile
    ensures Ascending(step.input) && Elements(step.input) == Merged(CompactShift(step))
    ensures OutputsOk(step.outputs, MergeOf(st, step.level, step.input).Output(), st.nextFile, step.nextFile)
  {
  }

  lemma OutputsAre(st: State, step: Step)
    requires IsCompaction(st, step)
    ensures Contents(step.outputs) == Elements(MergeOf(st, step.level, step.input).Output())
    ensures Contents(step.outputs) <= Merged(CompactShift(step))
    ensures forall f <- step.outputs :: FileOk(f)
    ensures forall f <- step.outputs, g <- step.outputs | f != g :: Apart(f, g)
  {
    hide IsCompaction, Merged, FileOk;
    CompactionFacts(st, step);
    var m := MergeOf(st, step.level, step.input);
    OutputPieces(step.outputs);
    KeptInOrder(m.input, |m.input|, m.smallestSnapshot, m.level, m.levels);
    OutputIsInput(m);
  }

  /** The output of a compaction in terms of the entries alone: the inputs less
      those behind a version of their user key that the oldest live snapshot
      sees, and less the deletions that it sees and that no file from two levels
      down on has the key of. */
  lemma OutputExactly(st: State, step: Step, e: Entry)
    requires IsCompaction(st, step)
    ensures
      var oldest := if st.snapshots == [] then st.lastSequence else st.snapshots[0];
      var inputs := Contents(step.chosen) + Contents(step.parents);
      e in Contents(step.outputs) <==>
        && e in inputs
        && !(exists x <- inputs ::
               && x.key.user == e.key.user && x.key.sequence <= oldest
               && (x.key.sequence > e.key.sequence || (x.key.sequence == e.key.sequence && x.key.kind == Value && e.key.kind == Deletion)))
        && !(e.key.kind == Deletion && e.key.sequence <= oldest
             && forall l, f: File | step.level + 2 <= l < |st.levels| && f in st.levels[l] ::
                  !(f.smallest.user <= e.key.user <= f.largest.user))
  {
    hide IsCompaction, FileOk, Apart, Ascending, Kept;
    CompactionFacts(st, step);
    OutputsAre(st, step);
    var m := MergeOf(st, step.level, step.input);
    KeptExactly(m.input, m.smallestSnapshot, m.level, m.levels, e);
    assert forall x :: x in Elements(m.input) <==> x in m.input;
  }

  lemma CompactIsShift(st: State, step: Step)
    requires IsCompaction(st, step)
    ensures IsShift(st, CompactShift(step))
  {
    OutputsAre(st, step);
  }

  lemma CompactNumbers(st: State, step: Step)
    requires Layered(st) && IsCompaction(st, step)
    ensures step.level + 1 < NUM_LEVELS
    ensures UniqueNumbers(st.levels[step.level := step.files][step.level + 1 := step.nextFiles])
  {
    hide Newer, SortedDisjoint, YoungerIsNewer, FileOk, InputsClosed, PicksParents, SortedBySmallest, Contents, Ascending,
         Concat, Kept;
    var levels := st.levels[step.level := step.files][step.level + 1 := step.nextFiles];
    forall l, m, g: File, h: File | 0 <= l < |levels| && 0 <= m < |levels| && g in levels[l] && h in levels[m] && g.number == h.number
      ensures l == m && g == h
    {
      assert g in st.levels[l] || (l == step.level + 1 && g in step.outputs);
      assert h in st.levels[m] || (m == step.level + 1 && h in step.outputs);
    }
  }

  // ----- Entries that take no part -----

  ghost function Rest(st: State, sh: Shift): set<Entry> {
    st.mem + Frozen(st) + Outside(st.levels, sh)
  }

  lemma StoredIsRestAndInput(st: State, sh: Shift)
    requires IsShift(st, sh)
    ensures Stored(st) == Rest(st, sh) + Merged(sh)
  {
    hide IsShift, Outside, AllContents, Merged;
    OutsideShift(st, sh);
  }

  lemma MergedLevel(st: State, sh: Shift, e: Entry)
    requires IsShift(st, sh) && e in Merged(sh)
    ensures e in Contents(st.levels[sh.level]) || e in Contents(st.levels[sh.level + 1])
  {
    hide IsShift;
    ShiftInputs(st, sh);
    ParentsIn(st, sh);
  }

  /** `f` stays in the next level although it starts with the user key on which
      a parent in front of it ends. */
  ghost predicate BehindParent(nextFiles: seq<File>, parents: seq<File>, f: File) {
    f in nextFiles && f !in parents
    && exists p <- parents :: p.largest.user == f.smallest.user && Less(p.largest, f.smallest)
  }

  ghost predicate StaysBehind(nextFiles: seq<File>, parents: seq<File>, x: Entry) {
    exists f <- nextFiles :: BehindParent(nextFiles, parents, f) && f.smallest.user == x.key.user && x in f.entries
  }

  lemma ClosedLeavesNone(st: State, level: nat, parents: seq<File>, x: Entry)
    requires level + 1 < NUM_LEVELS == |st.levels| && ParentsClosed(st, level, parents)
    ensures !StaysBehind(st.levels[level + 1], parents, x)
  {
  }

  /** An entry outside the inputs is no input, and no deeper than the next
      level it is newer than every input it shares a user key with, unless it
      stays behind a parent. */
  lemma OutsideEntry(st: State, sh: Shift, l: nat, f: File, x: Entry, e: Entry)
    requires LevelsOk(st.levels) && IsShift(st, sh) && OneVersion(Stored(st))
    requires l < NUM_LEVELS && f in st.levels[l] && x in f.entries
    requires !(l == sh.level && f in sh.chosen) && !(l == sh.level + 1 && f in sh.parents)
    requires e in Merged(sh) && x.key.user == e.key.user
    ensures x != e && sh.level + 1 < NUM_LEVELS
    ensures l <= sh.level + 1 ==> x.key.sequence > e.key.sequence || StaysBehind(st.levels[sh.level + 1], sh.parents, x)
  {
    hide IsShift, LevelsOk, StaysBehind;
    ShiftInputs(st, sh);
    MergedLevel(st, sh, e);
    assert x in Contents(st.levels[l]);
    LevelsApart(st.levels, l, sh.level);
    LevelsApart(st.levels, l, sh.level + 1);
    if l == sh.level {
      if g :| g in sh.chosen && e in g.entries {
        StayingFileIsNewer(st, sh, f, g, x, e);
      } else {
        ParentsIn(st, sh);
        assert e in Contents(st.levels[sh.level + 1]);
        LevelsApart(st.levels, sh.level, sh.level + 1);
      }
    } else if l == sh.level + 1 {
      NextLevelEntry(st, sh, f, x, e);
    }
  }

  lemma NextLevelEntry(st: State, sh: Shift, f: File, x: Entry, e: Entry)
    requires LevelsOk(st.levels) && IsShift(st, sh) && OneVersion(Stored(st))
    requires f in st.levels[sh.level + 1] && f !in sh.parents && x in f.entries
    requires e in Merged(sh) && x.key.user == e.key.user
    ensures x != e
    ensures x.key.sequence > e.key.sequence || StaysBehind(st.levels[sh.level + 1], sh.parents, x)
  {
    hide IsShift, LevelsOk, SortedDisjoint, FileOk;
    ShiftInputs(st, sh);
    LevelOfLevels(st.levels, sh.level + 1);
    EntryInRange(f, x);
    if p :| p in sh.parents && e in p.entries {
      ParentsIn(st, sh);
      EntryInRange(p, e);
      InOrder(st.levels[sh.level + 1], f, p);
      assert x in Stored(st) && e in Stored(st) by {
        assert x in Contents(st.levels[sh.level + 1]) && e in Contents(st.levels[sh.level + 1]);
        AllContentsIn(st.levels, x);
        AllContentsIn(st.levels, e);
      }
    } else {
      var g :| g in sh.chosen && e in g.entries;
      LevelOfLevels(st.levels, sh.level);
      EntryInRange(g, e);
      RangeExists(sh.chosen);
      var lo, hi :| IsSmallest(sh.chosen, lo) && IsLargest(sh.chosen, hi);
      ParentsAre(st, sh, lo, hi);
      assert false;
    }
  }

  /** The same for all entries outside the inputs. */
  lemma RestEntry(st: State, sh: Shift, x: Entry, e: Entry)
    requires Layered(st) && IsShift(st, sh) && OneVersion(Stored(st))
    requires x in Rest(st, sh) && e in Merged(sh) && x.key.user == e.key.user
    ensures x != e && sh.level + 1 < NUM_LEVELS
    ensures NoneCovers(st.levels, sh.level + 2, e.key.user) ==>
              x.key.sequence > e.key.sequence || StaysBehind(st.levels[sh.level + 1], sh.parents, x)
  {
    hide IsShift, LevelsOk, StaysBehind;
    ShiftInputs(st, sh);
    MergedLevel(st, sh, e);
    if x in Outside(st.levels, sh) {
      var l, f: File :| 0 <= l < |st.levels| && f in st.levels[l] && x in f.entries
        && !(l == sh.level && f in sh.chosen) && !(l == sh.level + 1 && f in sh.parents);
      OutsideEntry(st, sh, l, f, x, e);
      if l >= sh.level + 2 {
        LevelOfLevels(st.levels, l);
        EntryInRange(f, x);
        var i :| 0 <= i < |st.levels[l]| && st.levels[l][i] == f;
      }
    }
  }

  lemma RestIsApart(st: State, sh: Shift)
    requires Layered(st) && IsShift(st, sh) && OneVersion(Stored(st))
    ensures Rest(st, sh) !! Merged(sh)
  {
    hide IsShift, Layered, Rest, Merged;
    forall x | x in Rest(st, sh) && x in Merged(sh) ensures false {
      RestEntry(st, sh, x, x);
    }
  }

  /** With closed parents no older value comes back to life. */
  lemma NoResurrection(st: State, step: Step, user: UserKey)
    requires Layered(st) && IsCompaction(st, step) && OneVersion(Stored(st))
    requires IsShift(st, CompactShift(step)) && ParentsClosed(st, step.level, step.parents)
    ensures !Resurrects(MergeOf(st, step.level, step.input), Rest(st, CompactShift(step)), user)
  {
    hide IsShift, Layered, Rest, Merged, IsCompaction, ParentsClosed, NoneCovers, OneVersion, StaysBehind;
    CompactionFacts(st, step);
    var sh := CompactShift(step);
    ShiftInputs(st, sh);
    var m, rest := MergeOf(st, step.level, step.input), Rest(st, sh);
    if Resurrects(m, rest, user) {
      var i :| 0 <= i < |m.input| && m.IsObsolete(i) && m.input[i].key.user == user
        && IsNewest(rest + Elements(m.input), user, m.smallestSnapshot, m.input[i]);
      var x :| IsNewest(rest, user, m.smallestSnapshot, x);
      assert m.input[i] in Elements(step.input);
      RestEntry(st, sh, x, m.input[i]);
      ClosedLeavesNone(st, step.level, step.parents, x);
      assert false;
    }
  }

  ghost function Compacted(st: State, step: Step): State
    requires IsCompaction(st, step)
  {
    CompactionFacts(st, step);
    st.(levels := Shifted(st.levels, CompactShift(step)), nextFile := step.nextFile)
  }

  /** The store keeps its shape, and loses only what the drop rules drop. */
  lemma CompactKeepsLayers(st: State, step: Step)
    requires Layered(st) && IsCompaction(st, step) && OneVersion(Stored(st))
    ensures Layered(Compacted(st, step))
    ensures Stored(Compacted(st, step))
         == Rest(st, CompactShift(step)) + Elements(MergeOf(st, step.level, step.input).Output())
  {
    hide IsShift, Layered, Merged, IsCompaction, AllContents, Outside, UniqueNumbers, LevelsOk;
    CompactionFacts(st, step);
    var sh := CompactShift(step);
    CompactIsShift(st, step);
    CompactNumbers(st, step);
    LayeredLevels(st);
    ShiftKeepsLayers(st, sh, step.nextFile);
    ShiftedAllContents(st, sh);
    OutputsAre(st, step);
  }

  lemma LayeredLevels(st: State)
    requires Layered(st)
    ensures LevelsOk(st.levels)
  {
  }

  /** Main result: a compaction keeps every read at a live snapshot or later
      exactly when no user key's older value comes back to life. */
  lemma CompactionKeepsReads(st: State, step: Step)
    requires Layered(st) && IsCompaction(st, step) && OneVersion(Stored(st))
    ensures
      (forall user, s: SequenceNumber | SmallestSnapshot(st) <= s ::
         Read(Stored(Compacted(st, step)), user, s) == Read(Stored(st), user, s))
      <==>
      (forall user :: !Resurrects(MergeOf(st, step.level, step.input), Rest(st, CompactShift(step)), user))
  {
    hide IsShift, Layered, Rest, Merged, IsCompaction, Resurrects, Read, Compacted, Stored, OneVersion, Ascending;
    CompactionFacts(st, step);
    var sh := CompactShift(step);
    CompactIsShift(st, step);
    CompactKeepsLayers(st, step);
    RestIsApart(st, sh);
    StoredIsRestAndInput(st, sh);
    var m, rest := MergeOf(st, step.level, step.input), Rest(st, sh);
    forall user ensures SameReads(m, rest, user) <==> !Resurrects(m, rest, user) {
      DropsKeepReads(m, rest, user);
    }
    ReadsKeyByKey(m, rest);
  }

  lemma ReadsKeyByKey(m: Merge, rest: set<Entry>)
    ensures
      (forall user, s: SequenceNumber | m.smallestSnapshot <= s ::
         Read(rest + Elements(m.Output()), user, s) == Read(rest + Elements(m.input), user, s))
      <==> forall user :: SameReads(m, rest, user)
  {
    hide Read;
    if forall user :: SameReads(m, rest, user) {
      forall user, s: SequenceNumber | m.smallestSnapshot <= s
        ensures Read(rest + Elements(m.Output()), user, s) == Read(rest + Elements(m.input), user, s)
      {
        assert SameReads(m, rest, user);
      }
    }
  }

  lemma CompactKeeps(st: State, step: Step, written: set<Entry>)
    requires Invariant(st, written) && Enabled(st, step) && step.Compact?
    ensures Invariant(After(st, step), written)
  {
    hide IsShift, Layered, Rest, Merged, Resurrects, Stored, OneVersion, ParentsClosed, CompactGuard;
    InvariantFacts(st, written);
    assert IsCompaction(st, step);
    var st1 := After(st, step);
    assert st1 == Compacted(st, step);
    CompactKeepsLayers(st, step);
    CompactIsShift(st, step);
    forall user ensures !Resurrects(MergeOf(st, step.level, step.input), Rest(st, CompactShift(step)), user) {
      NoResurrection(st, step, user);
    }
    CompactionKeepsReads(st, step);
    SubsetStored(st, step);
    KeptReadsAgree(st, st1, written);
  }

  lemma SubsetStored(st: State, step: Step)
    requires Layered(st) && IsCompaction(st, step) && OneVersion(Stored(st))
    ensures Stored(Compacted(st, step)) <= Stored(st)
  {
    hide IsShift, Layered, Rest, Merged, IsCompaction, Stored, OneVersion;
    CompactionFacts(st, step);
    CompactIsShift(st, step);
    CompactKeepsLayers(st, step);
    StoredIsRestAndInput(st, CompactShift(step));
    OutputIsInput(MergeOf(st, step.level, step.input));
  }

  lemma KeptReadsAgree(st: State, st1: State, written: set<Entry>)
    requires Invariant(st, written) && Layered(st1) && Stored(st1) <= Stored(st)
    requires st1.lastSequence == st.lastSequence && st1.snapshots == st.snapshots
    requires forall user, s: SequenceNumber | SmallestSnapshot(st) <= s ::
      Read(Stored(st1), user, s) == Read(Stored(st), user, s)
    ensures Invariant(st1, written)
  {
    hide Layered, Stored, Read;
  }
}
