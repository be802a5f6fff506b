/** Steps that change the levels keep the invariant. */
module LevelSteps {
  import opened Keys
  import opened Files
  import opened View
  import opened Inputs
  import opened Compaction
  import opened DropRules
  import opened Engine
  import opened Search
  import opened Steps

  /** The ranges of two files do not touch. */
  ghost predicate Apart(f: File, g: File) {
    Less(f.largest, g.smallest) || Less(g.largest, f.smallest)
  }

  lemma SortedApartIsDisjoint(files: seq<File>)
    requires SortedBySmallest(files) && forall f <- files :: FileOk(f)
    requires forall f <- files, g <- files | f != g :: Apart(f, g)
    ensures SortedDisjoint(files)
  {
    forall i | 0 <= i < |files| ensures Ranged(files[i]) {
      assert files[i] in files;
      EntryInRange(files[i], files[i].entries[0]);
    }
    forall i, j | 0 <= i < j < |files| ensures Less(files[i].largest, files[j].smallest) {
      assert files[i] in files && files[j] in files && BySmallest(files[i], files[j]);
    }
  }

  lemma DisjointIsApart(files: seq<File>, f: File, g: File)
    requires SortedDisjoint(files) && f in files && g in files && f != g
    ensures Apart(f, g)
  {
    InOrder(files, f, g);
  }

  /** What one level must satisfy on its own. */
  ghost predicate LevelOk(level: nat, files: seq<File>) {
    && (forall f <- files :: FileOk(f))
    && (level > 0 ==> SortedDisjoint(files))
    && (level == 0 ==> YoungerIsNewer(files))
  }

  lemma LevelOfLevels(levels: seq<seq<File>>, l: nat)
    requires LevelsOk(levels) && l < NUM_LEVELS
    ensures LevelOk(l, levels[l])
  {
  }

  ghost predicate LevelsNewer(levels: seq<seq<File>>) {
    forall l, m | 0 <= l < m < |levels| :: Newer(Contents(levels[l]), Contents(levels[m]))
  }

  lemma LevelsFromParts(levels: seq<seq<File>>)
    requires |levels| == NUM_LEVELS
    requires forall l | 0 <= l < NUM_LEVELS :: LevelOk(l, levels[l])
    requires UniqueNumbers(levels) && LevelsNewer(levels)
    ensures LevelsOk(levels)
  {
  }

  /** The contents of an edited level lie in what stays and what is added. */
  lemma EditedContents(files: seq<File>, gone: set<nat>, added: seq<File>, r: seq<File>, e: Entry)
    requires IsEdited(files, gone, added, r)
    ensures e in Contents(r) <==>
              (exists f | f in files && f.number !in gone :: e in f.entries) || e in Contents(added)
  {
    if f :| f in files && f.number !in gone && e in f.entries {
      assert f in r;
    } else if f :| f in added && e in f.entries {
      assert f in r;
    }
  }

  // ----- Flush -----

  lemma FlushedLevelOk(st: State, f: File, level: nat, files: seq<File>)
    requires Layered(st) && FlushGuard(st, Some(f), level, files)
    ensures LevelOk(level, files)
  {
    hide Newer, UniqueNumbers;
    LevelOfLevels(st.levels, level);
    if level > 0 {
      FlushedApart(st.levels[level], f, files);
    } else {
      FlushedNewest(st, f, files);
    }
  }

  lemma FlushedApart(before: seq<File>, f: File, files: seq<File>)
    requires SortedDisjoint(before) && NoOverlap(before, f.smallest.user, f.largest.user)
    requires FileOk(f) && forall g <- before :: FileOk(g)
    requires IsEdited(before, {}, [f], files)
    ensures SortedDisjoint(files)
  {
    hide SortedDisjoint;
    forall g <- files, h <- files | g != h ensures Apart(g, h) {
      if g in before && h in before {
        DisjointIsApart(before, g, h);
      } else {
        var o := if g in before then g else h;
        var i :| 0 <= i < |before| && before[i] == o;
        assert !Overlaps(Some(f.smallest.user), Some(f.largest.user), before[i]);
      }
    }
    SortedApartIsDisjoint(files);
  }

  lemma FlushedNewest(st: State, f: File, files: seq<File>)
    requires Layered(st) && FlushGuard(st, Some(f), 0, files)
    ensures YoungerIsNewer(files)
  {
    hide UniqueNumbers, SortedDisjoint, FileOk;
    assert Newer(st.imm.value, Contents(st.levels[0]));
    forall g <- files, h <- files | g.number > h.number ensures Newer(Elements(g.entries), Elements(h.entries)) {
      assert g == f || g in st.levels[0];
      assert h == f || h in st.levels[0];
    }
  }

  /** Levels above the flushed table share no user key with it. */
  lemma NoOverlapNoSharing(files: seq<File>, f: File)
    requires NoOverlap(files, f.smallest.user, f.largest.user)
    requires FileOk(f) && forall g <- files :: FileOk(g)
    ensures Newer(Contents(files), Elements(f.entries))
  {
    forall x <- Contents(files), y <- Elements(f.entries) ensures x.key.user != y.key.user {
      var g :| g in files && x in g.entries;
      var i :| 0 <= i < |files| && files[i] == g;
      EntryInRange(g, x);
      EntryInRange(f, y);
      assert !Overlaps(Some(f.smallest.user), Some(f.largest.user), files[i]);
    }
  }

  lemma FlushedContents(st: State, f: File, level: nat, files: seq<File>)
    requires |st.levels| == NUM_LEVELS && FlushGuard(st, Some(f), level, files)
    ensures Contents(files) == Contents(st.levels[level]) + st.imm.value
  {
    forall e ensures e in Contents(files) <==> e in Contents(st.levels[level]) || e in st.imm.value {
      EditedContents(st.levels[level], {}, [f], files, e);
      assert e in Contents([f]) <==> e in Elements(f.entries);
    }
  }

  lemma FlushLevelsNewer(st: State, f: File, level: nat, files: seq<File>)
    requires Layered(st) && FlushGuard(st, Some(f), level, files)
    ensures LevelsNewer(st.levels[level := files])
  {
    hide UniqueNumbers, YoungerIsNewer, SortedDisjoint, Contents, Newer, NoOverlap, IsEdited;
    FlushedContents(st, f, level, files);
    var levels := st.levels[level := files];
    forall l, m | 0 <= l < m < NUM_LEVELS ensures Newer(Contents(levels[l]), Contents(levels[m])) {
      assert Newer(Contents(st.levels[l]), Contents(st.levels[m]));
      if l == level {
        assert Newer(Frozen(st), Contents(st.levels[m]));
        NewerUnion(Contents(st.levels[l]), st.imm.value, Contents(st.levels[m]));
      } else if m == level {
        assert NoOverlap(st.levels[l], f.smallest.user, f.largest.user);
        NoOverlapNoSharing(st.levels[l], f);
        NewerUnion2(Contents(st.levels[l]), Contents(st.levels[m]), st.imm.value);
      }
    }
  }

  lemma NewerUnion(a: set<Entry>, b: set<Entry>, c: set<Entry>)
    requires Newer(a, c) && Newer(b, c)
    ensures Newer(a + b, c)
  {
  }

  lemma NewerUnion2(a: set<Entry>, b: set<Entry>, c: set<Entry>)
    requires Newer(a, b) && Newer(a, c)
    ensures Newer(a, b + c)
  {
  }

  /** Files with fresh numbers, or moved from the neighbour level, stay unique. */
  lemma FlushNumbers(st: State, f: File, level: nat, files: seq<File>)
    requires Layered(st) && FlushGuard(st, Some(f), level, files)
    ensures UniqueNumbers(st.levels[level := files])
    ensures forall g <- files :: g.number < st.nextFile + 1
  {
    hide SortedDisjoint, YoungerIsNewer, Newer, FileOk, Contents, NoOverlap;
    var levels := st.levels[level := files];
    forall l, m, g: File, h: File | 0 <= l < |levels| && 0 <= m < |levels| && g in levels[l] && h in levels[m] && g.number == h.number
      ensures l == m && g == h
    {
      assert g in st.levels[l] || (l == level && g == f);
      assert h in st.levels[m] || (m == level && h == f);
    }
  }

  lemma AllContentsOfReplaced(levels: seq<seq<File>>, l: nat, files: seq<File>, gain: set<Entry>)
    requires l < |levels| && Contents(files) == Contents(levels[l]) + gain
    ensures AllContents(levels[l := files]) == AllContents(levels) + gain
  {
    forall e ensures e in AllContents(levels[l := files]) <==> e in AllContents(levels) || e in gain {
      AllContentsIn(levels[l := files], e);
      AllContentsIn(levels, e);
      if k :| 0 <= k < |levels| && e in Contents(levels[k]) {
        assert e in Contents(levels[l := files][k]);
      }
      if e in gain {
        assert e in Contents(levels[l := files][l]);
      }
    }
  }

  lemma FlushKeepsLayers(st: State, f: File, level: nat, files: seq<File>)
    requires Layered(st) && FlushGuard(st, Some(f), level, files)
    ensures Layered(st.(imm := None, levels := st.levels[level := files], nextFile := st.nextFile + 1))
  {
    hide UniqueNumbers, YoungerIsNewer, SortedDisjoint, Contents, Newer, NoOverlap, IsEdited, FileOk;
    var levels := st.levels[level := files];
    forall l | 0 <= l < NUM_LEVELS ensures LevelOk(l, levels[l]) {
      LevelOfLevels(st.levels, l);
      FlushedLevelOk(st, f, level, files);
    }
    FlushNumbers(st, f, level, files);
    FlushLevelsNewer(st, f, level, files);
    LevelsFromParts(levels);
    FlushedContents(st, f, level, files);
    forall l | 0 <= l < NUM_LEVELS
      ensures Newer(st.mem, Contents(levels[l])) && Newer({}, Contents(levels[l]))
    {
      NothingNewer(Contents(levels[l]));
      NewerUnion2(st.mem, Contents(st.levels[level]), Frozen(st));
    }
    NothingNewer(st.mem);
  }

  lemma NothingNewer(a: set<Entry>)
    ensures Newer({}, a) && Newer(a, {})
  {
  }

  lemma SameStored(st: State, st1: State, written: set<Entry>)
    requires Invariant(st, written)
    requires Layered(st1) && Stored(st1) == Stored(st)
    requires st1.lastSequence == st.lastSequence && st1.snapshots == st.snapshots
    ensures Invariant(st1, written)
  {
    hide Layered;
    forall user, s: SequenceNumber | SmallestSnapshot(st1) <= s
      ensures Read(Stored(st1), user, s) == Read(written, user, s)
    {
      assert Read(Stored(st), user, s) == Read(written, user, s);
    }
  }

  /** A flush at the level the code picks keeps newer versions in smaller levels. */
  lemma FlushKeeps(st: State, table: Option<File>, level: nat, files: seq<File>, written: set<Entry>)
    requires Invariant(st, written) && Enabled(st, Flush(table, level, files))
    ensures Invariant(After(st, Flush(table, level, files)), written)
  {
    hide ReadsAgree, LevelsOk, Newer, Contents, AllContents, FileOk, NoOverlap, IsEdited;
    var st1 := After(st, Flush(table, level, files));
    match table
    case None =>
      assert Layered(st1) by { EmptyFlushKeepsLayers(st); }
      SameStored(st, st1, written);
    case Some(f) =>
      FlushKeepsLayers(st, f, level, files);
      FlushedContents(st, f, level, files);
      AllContentsOfReplaced(st.levels, level, files, st.imm.value);
      assert Stored(st1) == Stored(st);
      SameStored(st, st1, written);
  }

  lemma EmptyFlushKeepsLayers(st: State)
    requires Layered(st) && st.imm == Some({})
    ensures Layered(st.(imm := None, nextFile := st.nextFile + 1))
  {
  }
}
