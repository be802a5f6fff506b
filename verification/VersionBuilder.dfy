/** Applying a list of edits to a version without building the versions in
    between (db/version_set.cc VersionSet::Builder). */
module VersionBuilder {
  import opened Keys
  import opened Files
  import opened Inputs
  import opened Engine
  import opened Steps

  /** The deletions and additions of one edit, as (level, file) pairs. */
  datatype FileEdit = FileEdit(deleted: seq<(nat, nat)>, added: seq<(nat, File)>)

  ghost predicate GoodEdit(edit: FileEdit) {
    && (forall i | 0 <= i < |edit.deleted| :: edit.deleted[i].0 < NUM_LEVELS)
    && (forall i | 0 <= i < |edit.added| :: edit.added[i].0 < NUM_LEVELS)
    && (forall i, j | 0 <= i < j < |edit.added| && edit.added[i].0 == edit.added[j].0 ::
          edit.added[i].1.number != edit.added[j].1.number)
  }

  ghost function DeletedIn(deleted: seq<(nat, nat)>, level: nat): set<nat> {
    set i | 0 <= i < |deleted| && deleted[i].0 == level :: deleted[i].1
  }

  ghost function AddedIn(added: seq<(nat, File)>, level: nat): set<File> {
    set i | 0 <= i < |added| && added[i].0 == level :: added[i].1
  }

  ghost function DeletedAt(edit: FileEdit, level: nat): set<nat> {
    DeletedIn(edit.deleted, level)
  }

  ghost function AddedAt(edit: FileEdit, level: nat): set<File> {
    AddedIn(edit.added, level)
  }

  // ----- Reference: one edit after the other, on sets of files -----

  ghost function Fold(files: set<File>, edits: seq<FileEdit>, level: nat): set<File> {
    if edits == [] then files
    else
      var n := |edits| - 1;
      (set f | f in Fold(files, edits[..n], level) && f.number !in DeletedAt(edits[n], level)) + AddedAt(edits[n], level)
  }

  ghost function EverAdded(edits: seq<FileEdit>, level: nat): set<File> {
    if edits == [] then {}
    else EverAdded(edits[..|edits| - 1], level) + AddedAt(edits[|edits| - 1], level)
  }

  ghost function FilesOf(files: seq<File>): set<File> {
    set f | f in files
  }

  /** No file number comes back to a level that has held it. */
  ghost predicate NeverAddedAgain(files: set<File>, edits: seq<FileEdit>, level: nat) {
    edits != [] ==>
      var n := |edits| - 1;
      && NeverAddedAgain(files, edits[..n], level)
      && (forall f <- AddedAt(edits[n], level), g <- files + EverAdded(edits[..n], level) :: f.number != g.number)
  }

  // ----- Sorted file sets -----

  lemma BySmallestTotal(f: File, g: File)
    requires f.number != g.number
    ensures BySmallest(f, g) || BySmallest(g, f)
  {
  }

  /** The position of `f` in a file list ordered by smallest key. */
  method UpperBound(files: seq<File>, from: nat, f: File) returns (r: nat)
    requires SortedBySmallest(files) && from <= |files|
    ensures from <= r <= |files|
    ensures forall i | from <= i < r :: !BySmallest(f, files[i])
    ensures forall i | r <= i < |files| :: BySmallest(f, files[i])
  {
    r := from;
    while r < |files| && !BySmallest(f, files[r])
      invariant from <= r <= |files|
      invariant forall i | from <= i < r :: !BySmallest(f, files[i])
    {
      r := r + 1;
    }
    forall i | r < i < |files| ensures BySmallest(f, files[i]) {
      assert BySmallest(files[r], files[i]);
    }
  }

  method InsertFile(files: seq<File>, f: File) returns (r: seq<File>)
    requires SortedBySmallest(files) && forall g <- files :: g.number != f.number
    ensures SortedBySmallest(r) && FilesOf(r) == FilesOf(files) + {f}
  {
    var i := UpperBound(files, 0, f);
    r := files[..i] + [f] + files[i..];
    forall a | 0 <= a < i ensures BySmallest(files[a], f) {
      assert files[a] in files;
      BySmallestTotal(f, files[a]);
    }
    assert files == files[..i] + files[i..];
    SplicedSorted(files, i, f);
  }

  lemma SplicedSorted(files: seq<File>, i: nat, f: File)
    requires SortedBySmallest(files) && i <= |files|
    requires forall a | 0 <= a < i :: BySmallest(files[a], f)
    requires forall a | i <= a < |files| :: BySmallest(f, files[a])
    ensures SortedBySmallest(files[..i] + [f] + files[i..])
  {
    var r := files[..i] + [f] + files[i..];
    assert forall a | 0 <= a < |r| :: r[a] == if a < i then files[a] else if a == i then f else files[a - 1];
  }

  // ----- The builder -----

  ghost function NumbersOf(files: set<File>): set<nat> {
    set f <- files :: f.number
  }

  /** The files of the base and the added ones that are not marked deleted. */
  ghost function Surviving(base: set<File>, added: set<File>, deleted: set<nat>): set<File> {
    set f | f in base + added && f.number !in deleted
  }

  /** One edit has the same effect on the builder as on the set of files. */
  lemma EditStep(base: set<File>, added: set<File>, deleted: set<nat>, gone: set<nat>, new_: set<File>)
    requires forall f <- new_, g <- base + added :: f.number != g.number
    ensures Surviving(base, added + new_, (deleted + gone) - NumbersOf(new_))
         == (set f | f in Surviving(base, added, deleted) && f.number !in gone) + new_
  {
    var left := Surviving(base, added + new_, (deleted + gone) - NumbersOf(new_));
    var right := (set f | f in Surviving(base, added, deleted) && f.number !in gone) + new_;
    forall f ensures f in left <==> f in right {
      if f in base + added {
        assert f.number !in NumbersOf(new_);
      } else if f in new_ {
        assert f.number in NumbersOf(new_);
      }
    }
  }

  lemma AddedInStep(added: seq<(nat, File)>, i: nat, level: nat)
    requires i < |added|
    ensures AddedIn(added[..i + 1], level)
         == AddedIn(added[..i], level) + if added[i].0 == level then {added[i].1} else {}
  {
    var p, q := added[..i + 1], added[..i];
    forall f <- AddedIn(p, level) ensures f in AddedIn(q, level) || (added[i].0 == level && f == added[i].1) {
      var k :| 0 <= k < |p| && p[k].0 == level && p[k].1 == f;
      if k < i {
        assert q[k] == p[k];
      }
    }
    forall f <- AddedIn(q, level) ensures f in AddedIn(p, level) {
      var k :| 0 <= k < |q| && q[k].0 == level && q[k].1 == f;
      assert p[k] == q[k];
    }
    assert p[i] == added[i];
  }

  lemma DeletedInStep(deleted: seq<(nat, nat)>, i: nat, level: nat)
    requires i < |deleted|
    ensures DeletedIn(deleted[..i + 1], level)
         == DeletedIn(deleted[..i], level) + if deleted[i].0 == level then {deleted[i].1} else {}
  {
    var p, q := deleted[..i + 1], deleted[..i];
    forall n <- DeletedIn(p, level) ensures n in DeletedIn(q, level) || (deleted[i].0 == level && n == deleted[i].1) {
      var k :| 0 <= k < |p| && p[k].0 == level && p[k].1 == n;
      if k < i {
        assert q[k] == p[k];
      }
    }
    forall n <- DeletedIn(q, level) ensures n in DeletedIn(p, level) {
      var k :| 0 <= k < |q| && q[k].0 == level && q[k].1 == n;
      assert p[k] == q[k];
    }
    assert p[i] == deleted[i];
  }

  /** The state of one level of a builder. */
  datatype LevelState = LevelState(deleted: set<nat>, added: seq<File>)

  ghost predicate LevelMatches(base: seq<File>, state: LevelState, edits: seq<FileEdit>, level: nat) {
    && SortedBySmallest(base) && SortedBySmallest(state.added)
    && FilesOf(state.added) == EverAdded(edits, level)
    && NeverAddedAgain(FilesOf(base), edits, level)
    && Surviving(FilesOf(base), FilesOf(state.added), state.deleted) == Fold(FilesOf(base), edits, level)
  }

  /** A level after some additions of an edit. */
  ghost predicate AddProgress(start: LevelState, now: LevelState, new_: set<File>) {
    && SortedBySmallest(now.added)
    && FilesOf(now.added) == FilesOf(start.added) + new_
    && now.deleted == start.deleted - NumbersOf(new_)
  }

  lemma FreshNumber(base: set<File>, edits: seq<FileEdit>, edit: FileEdit, l: nat, i: nat, start: LevelState, now: LevelState)
    requires NeverAddedAgain(base, edits + [edit], l) && GoodEdit(edit)
    requires i < |edit.added| && edit.added[i].0 == l
    requires FilesOf(start.added) == EverAdded(edits, l)
    requires AddProgress(start, now, AddedIn(edit.added[..i], l))
    ensures SortedBySmallest(now.added)
    ensures forall g <- now.added :: g.number != edit.added[i].1.number
  {
    var f := edit.added[i].1;
    assert (edits + [edit])[..|edits|] == edits && (edits + [edit])[|edits|] == edit;
    assert f in AddedAt(edit, l);
    forall g <- now.added ensures g.number != f.number {
      assert g in FilesOf(now.added);
      if g in AddedIn(edit.added[..i], l) {
        var k :| 0 <= k < i && edit.added[..i][k].0 == l && edit.added[..i][k].1 == g;
        assert edit.added[k] == edit.added[..i][k];
      }
    }
  }

  lemma NoProgress(start: LevelState, added: seq<(nat, File)>, l: nat)
    requires SortedBySmallest(start.added)
    ensures AddProgress(start, start, AddedIn(added[..0], l))
  {
  }

  lemma AddOne(start: LevelState, now: LevelState, next: LevelState, new_: set<File>, f: File)
    requires AddProgress(start, now, new_)
    requires SortedBySmallest(next.added) && FilesOf(next.added) == FilesOf(now.added) + {f}
    requires next.deleted == now.deleted - {f.number}
    ensures AddProgress(start, next, new_ + {f})
  {
  }

  lemma ApplyMatches(base: seq<File>, before: LevelState, marked: LevelState, now: LevelState, edits: seq<FileEdit>,
                     edit: FileEdit, l: nat)
    requires LevelMatches(base, before, edits, l)
    requires marked == LevelState(before.deleted + DeletedAt(edit, l), before.added)
    requires AddProgress(marked, now, AddedAt(edit, l))
    requires NeverAddedAgain(FilesOf(base), edits + [edit], l)
    ensures LevelMatches(base, now, edits + [edit], l)
  {
    hide SortedBySmallest, AddedIn, DeletedIn, Surviving, NumbersOf, FilesOf;
    assert (edits + [edit])[..|edits|] == edits && (edits + [edit])[|edits|] == edit;
    var b, a, new_ := FilesOf(base), FilesOf(before.added), AddedAt(edit, l);
    forall f: File, g: File | f in new_ && g in b + a ensures f.number != g.number {
    }
    EditStep(b, a, before.deleted, DeletedAt(edit, l), new_);
  }

  class Builder {
    const base: seq<seq<File>>
    var levels: seq<LevelState>
    ghost var edits: seq<FileEdit>

    ghost predicate Valid()
      reads this
    {
      && |base| == |levels| == NUM_LEVELS
      && forall l | 0 <= l < NUM_LEVELS :: LevelMatches(base[l], levels[l], edits, l)
    }

    constructor (base: seq<seq<File>>)
      requires |base| == NUM_LEVELS && forall l | 0 <= l < NUM_LEVELS :: SortedBySmallest(base[l])
      ensures Valid() && this.base == base && edits == []
    {
      this.base := base;
      levels := seq(NUM_LEVELS, _ => LevelState({}, []));
      edits := [];
      new;
      forall l | 0 <= l < NUM_LEVELS ensures LevelMatches(base[l], levels[l], edits, l) {
        assert Surviving(FilesOf(base[l]), {}, {}) == FilesOf(base[l]);
      }
    }

    method Apply(edit: FileEdit)
      requires Valid() && GoodEdit(edit)
      requires forall l | 0 <= l < NUM_LEVELS :: NeverAddedAgain(FilesOf(base[l]), edits + [edit], l)
      modifies this
      ensures Valid() && edits == old(edits) + [edit]
    {
      hide SortedBySmallest, FilesOf, NeverAddedAgain, Fold, Surviving, AddedIn, DeletedIn, NumbersOf;
      var before := levels;
      MarkDeleted(edit.deleted);
      ghost var marked := levels;
      forall l | 0 <= l < NUM_LEVELS
        ensures SortedBySmallest(before[l].added) && FilesOf(before[l].added) == EverAdded(edits, l)
      {
        assert LevelMatches(base[l], before[l], edits, l);
      }
      ghost var sofar := edits;
      forall l | 0 <= l < NUM_LEVELS ensures AddProgress(marked[l], levels[l], AddedIn(edit.added[..0], l)) {
        NoProgress(marked[l], edit.added, l);
      }
      assert (edits + [edit])[..|edits|] == edits;
      for i := 0 to |edit.added|
        invariant |levels| == NUM_LEVELS && edits == sofar
        invariant forall l | 0 <= l < NUM_LEVELS :: AddProgress(marked[l], levels[l], AddedIn(edit.added[..i], l))
      {
        hide SortedBySmallest, FilesOf, NeverAddedAgain, LevelMatches, Fold, Surviving, AddProgress;
        var (l, f) := edit.added[i];
        assert SortedBySmallest(levels[l].added) && forall g <- levels[l].added :: g.number != f.number by {
          FreshNumber(FilesOf(base[l]), sofar, edit, l, i, marked[l], levels[l]);
        }
        var grown := InsertFile(levels[l].added, f);
        ghost var previous := levels;
        levels := levels[l := LevelState(levels[l].deleted - {f.number}, grown)];
        forall k | 0 <= k < NUM_LEVELS ensures AddProgress(marked[k], levels[k], AddedIn(edit.added[..i + 1], k)) {
          AddedInStep(edit.added, i, k);
          if k == l {
            AddOne(marked[l], previous[l], levels[l], AddedIn(edit.added[..i], l), f);
          } else {
            assert AddedIn(edit.added[..i + 1], k) == AddedIn(edit.added[..i], k);
          }
        }
      }
      assert edit.added[..|edit.added|] == edit.added;
      edits := edits + [edit];
      forall l | 0 <= l < NUM_LEVELS ensures LevelMatches(base[l], levels[l], edits, l) {
        assert AddProgress(marked[l], levels[l], AddedIn(edit.added, l));
        ApplyMatches(base[l], before[l], marked[l], levels[l], sofar, edit, l);
      }
    }

    method MarkDeleted(deleted: seq<(nat, nat)>)
      requires |levels| == NUM_LEVELS && forall i | 0 <= i < |deleted| :: deleted[i].0 < NUM_LEVELS
      modifies this`levels
      ensures |levels| == NUM_LEVELS
      ensures forall l | 0 <= l < NUM_LEVELS ::
        levels[l] == LevelState(old(levels)[l].deleted + DeletedIn(deleted, l), old(levels)[l].added)
    {
      for i := 0 to |deleted|
        invariant |levels| == NUM_LEVELS
        invariant forall l | 0 <= l < NUM_LEVELS ::
          levels[l] == LevelState(old(levels)[l].deleted + DeletedIn(deleted[..i], l), old(levels)[l].added)
      {
        hide DeletedIn;
        var (level, number) := deleted[i];
        forall l ensures DeletedIn(deleted[..i + 1], l)
          == DeletedIn(deleted[..i], l) + if deleted[i].0 == l then {deleted[i].1} else {}
        {
          DeletedInStep(deleted, i, l);
        }
        levels := levels[level := levels[level].(deleted := levels[level].deleted + {number})];
      }
      assert deleted[..|deleted|] == deleted;
    }

    /** Writes out one level: a merge of the base and the added files. */
    method SaveTo(level: nat) returns (files: seq<File>)
      requires Valid() && level < NUM_LEVELS
      ensures SortedBySmallest(files)
      ensures FilesOf(files) == Fold(FilesOf(base[level]), edits, level)
    {
      hide Fold, NeverAddedAgain;
      var state := levels[level];
      var baseFiles := base[level];
      assert LevelMatches(baseFiles, state, edits, level);
      NumbersApart(baseFiles, state, edits, level);
      files := SaveLevel(baseFiles, state);
    }
  }

  lemma NumbersApart(base: seq<File>, state: LevelState, edits: seq<FileEdit>, level: nat)
    requires LevelMatches(base, state, edits, level)
    ensures forall f <- base, g <- state.added :: f.number != g.number
  {
    forall f <- base, g <- state.added ensures f.number != g.number {
      assert f in FilesOf(base) && g in FilesOf(state.added);
      AddedNumbersApart(FilesOf(base), edits, level, f, g);
    }
  }

  lemma {:induction false} AddedNumbersApart(base: set<File>, edits: seq<FileEdit>, level: nat, f: File, g: File)
    requires NeverAddedAgain(base, edits, level) && f in base && g in EverAdded(edits, level)
    ensures f.number != g.number
  {
    var n := |edits| - 1;
    if g !in AddedAt(edits[n], level) {
      AddedNumbersApart(base, edits[..n], level, f, g);
    }
  }

  /** What has been written when the base has been read up to `b` and the
      added files up to `a`. */
  ghost predicate SaveProgress(base: seq<File>, state: LevelState, b: nat, a: nat, files: seq<File>)
    requires b <= |base| && a <= |state.added|
  {
    && SortedBySmallest(files)
    && FilesOf(files) == Surviving(FilesOf(base[..b]), FilesOf(state.added[..a]), state.deleted)
    && (forall f <- files, i | b <= i < |base| :: BySmallest(f, base[i]))
    && (forall f <- files, i | a <= i < |state.added| :: BySmallest(f, state.added[i]))
  }

  lemma FilesOfAppended(files: seq<File>, f: File)
    ensures FilesOf(files + [f]) == FilesOf(files) + {f}
  {
  }

  lemma SaveBase(base: seq<File>, state: LevelState, b: nat, a: nat, files: seq<File>)
    requires SortedBySmallest(base) && SortedBySmallest(state.added)
    requires b < |base| && a <= |state.added| && SaveProgress(base, state, b, a, files)
    requires forall i | a <= i < |state.added| :: BySmallest(base[b], state.added[i])
    ensures SaveProgress(base, state, b + 1, a, if base[b].number in state.deleted then files else files + [base[b]])
  {
    assert base[..b + 1] == base[..b] + [base[b]];
    FilesOfAppended(base[..b], base[b]);
    FilesOfAppended(files, base[b]);
    var r := if base[b].number in state.deleted then files else files + [base[b]];
    assert FilesOf(r) == Surviving(FilesOf(base[..b]) + {base[b]}, FilesOf(state.added[..a]), state.deleted);
    forall i, j | 0 <= i < j < |r| ensures BySmallest(r[i], r[j]) {
      if j == |files| {
        assert files[i] in files;
      }
    }
  }

  lemma SaveAdded(base: seq<File>, state: LevelState, b: nat, a: nat, files: seq<File>)
    requires SortedBySmallest(base) && SortedBySmallest(state.added)
    requires b <= |base| && a < |state.added| && SaveProgress(base, state, b, a, files)
    requires forall i | b <= i < |base| :: BySmallest(state.added[a], base[i])
    ensures SaveProgress(base, state, b, a + 1,
              if state.added[a].number in state.deleted then files else files + [state.added[a]])
  {
    var f := state.added[a];
    assert state.added[..a + 1] == state.added[..a] + [f];
    FilesOfAppended(state.added[..a], f);
    FilesOfAppended(files, f);
    var r := if f.number in state.deleted then files else files + [f];
    assert FilesOf(r) == Surviving(FilesOf(base[..b]), FilesOf(state.added[..a]) + {f}, state.deleted);
    forall i, j | 0 <= i < j < |r| ensures BySmallest(r[i], r[j]) {
      if j == |files| {
        assert files[i] in files;
      }
    }
  }

  method MaybeAddFile(files: seq<File>, f: File, deleted: set<nat>) returns (r: seq<File>)
    ensures r == if f.number in deleted then files else files + [f]
  {
    if f.number in deleted {
      r := files;
    } else {
      r := files + [f];
    }
  }

  method SaveLevel(base: seq<File>, state: LevelState) returns (files: seq<File>)
    requires SortedBySmallest(base) && SortedBySmallest(state.added)
    requires forall f <- base, g <- state.added :: f.number != g.number
    ensures SortedBySmallest(files)
    ensures FilesOf(files) == Surviving(FilesOf(base), FilesOf(state.added), state.deleted)
  {
    hide SortedBySmallest, FilesOf, Surviving, SaveProgress;
    files := [];
    assert SaveProgress(base, state, 0, 0, files) by { NothingSaved(base, state); }
    var b := 0;
    for a := 0 to |state.added|
      invariant b <= |base| && SaveProgress(base, state, b, a, files)
    {
      var bpos := UpperBound(base, b, state.added[a]);
      while b < bpos
        invariant b <= bpos && SaveProgress(base, state, b, a, files)
      {
        BaseBeforeAdded(base, state, b, a);
        SaveBase(base, state, b, a, files);
        files := MaybeAddFile(files, base[b], state.deleted);
        b := b + 1;
      }
      SaveAdded(base, state, b, a, files);
      files := MaybeAddFile(files, state.added[a], state.deleted);
    }
    while b < |base|
      invariant b <= |base| && SaveProgress(base, state, b, |state.added|, files)
    {
      SaveBase(base, state, b, |state.added|, files);
      files := MaybeAddFile(files, base[b], state.deleted);
      b := b + 1;
    }
    AllSaved(base, state, files);
  }

  lemma NothingSaved(base: seq<File>, state: LevelState)
    ensures SaveProgress(base, state, 0, 0, [])
  {
  }

  lemma AllSaved(base: seq<File>, state: LevelState, files: seq<File>)
    requires SaveProgress(base, state, |base|, |state.added|, files)
    ensures SortedBySmallest(files)
    ensures FilesOf(files) == Surviving(FilesOf(base), FilesOf(state.added), state.deleted)
  {
    assert base[..|base|] == base && state.added[..|state.added|] == state.added;
  }

  lemma BaseBeforeAdded(base: seq<File>, state: LevelState, b: nat, a: nat)
    requires SortedBySmallest(state.added) && b < |base| && a < |state.added|
    requires !BySmallest(state.added[a], base[b]) && state.added[a].number != base[b].number
    ensures forall i | a <= i < |state.added| :: BySmallest(base[b], state.added[i])
  {
    BySmallestTotal(base[b], state.added[a]);
    forall i | a < i < |state.added| ensures BySmallest(base[b], state.added[i]) {
      assert BySmallest(state.added[a], state.added[i]);
    }
  }
}
