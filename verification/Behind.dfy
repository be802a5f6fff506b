/** Which files bring an older value back when a compaction leaves them behind:
    the exact condition on the file lists (db/version_set.cc, db/db_impl.cc). */
module Behind {
  import opened Keys
  import opened Files
  import opened View
  import opened Inputs
  import opened Compaction
  import opened DropRules
  import opened Engine
  import opened Search
  import opened Steps
  import opened LevelSteps
  import opened MoveDown
  import opened Compactions

  predicate Continues(p: File, g: File) {
    p.largest.user == g.smallest.user && Less(p.largest, g.smallest)
  }

  ghost predicate NoneBetween(files: seq<File>, p: File, g: File) {
    forall f <- files :: !(Less(p.largest, f.smallest) && Less(f.largest, g.smallest))
  }

  /** `g` stays in the next level, starts with the user key on which a parent
      ends, and no other file lies between the two. */
  ghost predicate DirectlyBehind(nextFiles: seq<File>, parents: seq<File>, g: File) {
    && g in nextFiles && g !in parents
    && exists p <- parents :: Continues(p, g) && NoneBetween(nextFiles, p, g)
  }

  /** The newest version of `user` that the oldest live snapshot sees is a
      deletion that the compaction drops because no deeper level has the key. */
  ghost predicate DeletionGoes(st: State, step: Step, user: UserKey)
    requires step.Compact?
  {
    var m := MergeOf(st, step.level, step.input);
    exists i | 0 <= i < |m.input| ::
      m.IsObsolete(i) && m.input[i].key.user == user && IsNewest(Stored(st), user, SmallestSnapshot(st), m.input[i])
  }

  // ----- The files of the next level -----

  /** The range of the inputs ends before the user key of a file left behind. */
  lemma RangeEndsBefore(files: seq<File>, lo: UserKey, hi: UserKey, p: File, f: File)
    requires SortedDisjoint(files) && f in files && Overlaps(Some(lo), Some(hi), p) && !Overlaps(Some(lo), Some(hi), f)
    requires Continues(p, f)
    ensures hi < f.smallest.user
  {
    InOrder(files, f, f);
  }

  lemma {:induction false} FirstBehind(files: seq<File>, p: File, f: File) returns (g: File)
    requires SortedDisjoint(files) && p in files && f in files && Continues(p, f)
    ensures g in files && Continues(p, g) && NoneBetween(files, p, g) && g.smallest.user == f.smallest.user
    ensures g == f || Less(g.largest, f.smallest)
  {
    var j :| 0 <= j < |files| && files[j] == p;
    var k :| 0 <= k < |files| && files[k] == f;
    assert Ranged(p) && Ranged(f);
    assert j < k;
    g := files[j + 1];
    assert Ranged(g);
    forall h <- files ensures !(Less(p.largest, h.smallest) && Less(h.largest, g.smallest)) {
      var i :| 0 <= i < |files| && files[i] == h;
      assert Ranged(h);
      assert i <= j || i >= j + 1;
    }
  }

  lemma NextLevelSorted(st: State, sh: Shift)
    requires Layered(st) && IsShift(st, sh)
    ensures sh.level + 1 < NUM_LEVELS == |st.levels| && SortedDisjoint(st.levels[sh.level + 1])
    ensures forall f <- st.levels[sh.level + 1] :: FileOk(f)
  {
  }

  /** Behind a parent that a file continues there is a first such file. */
  lemma BehindIsDirect(st: State, sh: Shift, f: File) returns (g: File)
    requires Layered(st) && IsShift(st, sh)
    requires sh.level + 1 < |st.levels| && BehindParent(st.levels[sh.level + 1], sh.parents, f)
    ensures DirectlyBehind(st.levels[sh.level + 1], sh.parents, g) && g.smallest.user == f.smallest.user
    ensures g == f || Less(g.largest, f.smallest)
  {
    hide Layered, IsShift, NoneBetween, SortedDisjoint, FileOk;
    NextLevelSorted(st, sh);
    var files := st.levels[sh.level + 1];
    var p :| p in sh.parents && Continues(p, f);
    RangeExists(sh.chosen) by { ShiftInputs(st, sh); }
    var lo, hi :| IsSmallest(sh.chosen, lo) && IsLargest(sh.chosen, hi);
    ParentsAre(st, sh, lo, hi);
    g := FirstBehind(files, p, f);
    RangeEndsBefore(files, lo.user, hi.user, p, f);
  }

  /** Two files directly behind parents that start with the same user key are one. */
  lemma OneBehind(st: State, sh: Shift, g: File, h: File)
    requires Layered(st) && IsShift(st, sh) && sh.level + 1 < |st.levels|
    requires DirectlyBehind(st.levels[sh.level + 1], sh.parents, g) && DirectlyBehind(st.levels[sh.level + 1], sh.parents, h)
    requires g.smallest.user == h.smallest.user
    ensures g == h
  {
    hide Layered, IsShift, SortedDisjoint, FileOk;
    NextLevelSorted(st, sh);
    var files := st.levels[sh.level + 1];
    var p :| p in sh.parents && Continues(p, g) && NoneBetween(files, p, g);
    var q :| q in sh.parents && Continues(q, h) && NoneBetween(files, q, h);
    RangeExists(sh.chosen) by { ShiftInputs(st, sh); }
    var lo, hi :| IsSmallest(sh.chosen, lo) && IsLargest(sh.chosen, hi);
    ParentsAre(st, sh, lo, hi);
    InOrder(files, g, h);
    InOrder(files, p, q);
    InOrder(files, p, h);
    InOrder(files, q, g);
    RangeEndsBefore(files, lo.user, hi.user, p, g);
    assert hi.user < g.smallest.user;
  }

  // ----- What reads fall back to -----

  /** The input's versions of the key are newer than the file behind them. */
  lemma BehindIsOlder(st: State, sh: Shift, g: File, e: Entry)
    requires Layered(st) && IsShift(st, sh) && sh.level + 1 < |st.levels|
    requires DirectlyBehind(st.levels[sh.level + 1], sh.parents, g)
    requires e in Merged(sh) && e.key.user == g.smallest.user
    ensures Less(e.key, g.smallest)
  {
    hide Layered, IsShift, SortedDisjoint, FileOk, NoneBetween;
    NextLevelSorted(st, sh);
    var files := st.levels[sh.level + 1];
    var p :| p in sh.parents && Continues(p, g) && NoneBetween(files, p, g);
    RangeExists(sh.chosen) by { ShiftInputs(st, sh); }
    var lo, hi :| IsSmallest(sh.chosen, lo) && IsLargest(sh.chosen, hi);
    ParentsAre(st, sh, lo, hi);
    RangeEndsBefore(files, lo.user, hi.user, p, g);
    if c :| c in sh.chosen && e in c.entries {
      ChosenInRange(st, sh, c, e, hi);
      assert false;
    } else {
      var q :| q in sh.parents && e in q.entries;
      EntryInRange(q, e);
      InOrder(files, q, g);
      assert Ranged(g) by { InOrder(files, g, g); }
    }
  }

  lemma ChosenInRange(st: State, sh: Shift, c: File, e: Entry, hi: InternalKey)
    requires Layered(st) && IsShift(st, sh) && c in sh.chosen && e in c.entries && IsLargest(sh.chosen, hi)
    ensures e.key.user <= hi.user
  {
    hide IsShift;
    ShiftInputs(st, sh);
    assert FileOk(c);
    EntryInRange(c, e);
  }

  lemma FirstEntry(g: File)
    requires FileOk(g)
    ensures g.entries != [] && g.entries[0].key == g.smallest
    ensures forall y <- g.entries :: AtMost(g.smallest, y.key)
  {
  }

  lemma BehindInRest(st: State, sh: Shift, g: File)
    requires Layered(st) && IsShift(st, sh) && sh.level + 1 < |st.levels|
    requires g in st.levels[sh.level + 1] && g !in sh.parents
    ensures g.entries != [] && g.entries[0].key == g.smallest
    ensures g.entries[0] in Rest(st, sh)
  {
    hide Layered, IsShift, FileOk;
    NextLevelSorted(st, sh);
    FirstEntry(g);
    assert g.entries[0] in g.entries;
  }

  /** A version of the key that stays behind is no newer than the first entry
      of the file directly behind the parents. */
  lemma FirstOfBehind(st: State, sh: Shift, g: File, y: Entry)
    requires Layered(st) && IsShift(st, sh) && sh.level + 1 < |st.levels|
    requires DirectlyBehind(st.levels[sh.level + 1], sh.parents, g) && y.key.user == g.smallest.user
    requires StaysBehind(st.levels[sh.level + 1], sh.parents, y)
    ensures AtMost(g.smallest, y.key)
  {
    hide Layered, IsShift, FileOk, DirectlyBehind, BehindParent;
    NextLevelSorted(st, sh);
    var files := st.levels[sh.level + 1];
    var f :| f in files && BehindParent(files, sh.parents, f) && f.smallest.user == y.key.user && y in f.entries;
    var h := BehindIsDirect(st, sh, f);
    OneBehind(st, sh, g, h);
    FirstEntry(f);
    if g != f {
      assert g in files by { assert DirectlyBehind(files, sh.parents, g); BehindIsFile(files, sh.parents, g); }
      assert Ranged(g) by { InOrder(files, g, g); }
    }
  }

  lemma BehindIsFile(files: seq<File>, parents: seq<File>, g: File)
    requires DirectlyBehind(files, parents, g)
    ensures g in files && g !in parents
  {
  }

  /** With the newest version gone, a reader finds the first entry of the file
      directly behind the parents. */
  lemma NewestBehind(st: State, sh: Shift, g: File, e: Entry, s: SequenceNumber)
    requires Layered(st) && IsShift(st, sh) && OneVersion(Stored(st)) && sh.level + 1 < |st.levels|
    requires DirectlyBehind(st.levels[sh.level + 1], sh.parents, g) && e.key.user == g.smallest.user
    requires e in Merged(sh) && IsNewest(Stored(st), e.key.user, s, e)
    requires NoneCovers(st.levels, sh.level + 2, e.key.user)
    ensures g.entries != [] && g.entries[0].key == g.smallest
    ensures IsNewest(Rest(st, sh), e.key.user, s, g.entries[0])
  {
    hide Layered, IsShift, FileOk, DirectlyBehind, NoneCovers, Rest, Merged, Stored, StaysBehind;
    BehindIsFile(st.levels[sh.level + 1], sh.parents, g);
    BehindInRest(st, sh, g);
    BehindIsOlder(st, sh, g, e);
    StoredIsRestAndInput(st, sh);
    forall y <- Rest(st, sh) | Visible(y, e.key.user, s) ensures y.key.sequence <= g.smallest.sequence {
      RestEntry(st, sh, y, e);
      assert y in Stored(st) && y.key.sequence <= e.key.sequence;
      FirstOfBehind(st, sh, g, y);
    }
  }

  /** What a reader finds outside the inputs stays behind a parent. */
  lemma OlderIsBehind(st: State, sh: Shift, x: Entry, e: Entry, s: SequenceNumber) returns (g: File)
    requires Layered(st) && IsShift(st, sh) && OneVersion(Stored(st)) && sh.level + 1 < |st.levels|
    requires e in Merged(sh) && IsNewest(Stored(st), e.key.user, s, e) && NoneCovers(st.levels, sh.level + 2, e.key.user)
    requires x in Rest(st, sh) && Visible(x, e.key.user, s)
    ensures DirectlyBehind(st.levels[sh.level + 1], sh.parents, g) && g.smallest.user == e.key.user
  {
    hide Layered, IsShift, DirectlyBehind, NoneCovers, Rest, Merged, Stored;
    StoredIsRestAndInput(st, sh);
    RestEntry(st, sh, x, e);
    assert x in Stored(st);
    var f :| f in st.levels[sh.level + 1] && BehindParent(st.levels[sh.level + 1], sh.parents, f) && f.smallest.user == x.key.user;
    g := BehindIsDirect(st, sh, f);
  }

  // ----- Main results -----

  ghost predicate ValueBehind(st: State, step: Step, user: UserKey)
    requires step.Compact? && step.level + 1 < |st.levels|
  {
    exists g <- st.levels[step.level + 1] ::
      DirectlyBehind(st.levels[step.level + 1], step.parents, g) && g.smallest.user == user && g.smallest.kind.Value?
  }

  /** An older value comes back exactly when the compaction drops the key's
      newest version, a deletion, and the file directly behind the parents
      starts with a value of the key. */
  lemma ResurrectsFromBehind(st: State, step: Step, user: UserKey)
    requires Layered(st) && IsCompaction(st, step) && OneVersion(Stored(st))
    ensures step.Compact? && step.level + 1 < |st.levels|
    ensures Resurrects(MergeOf(st, step.level, step.input), Rest(st, CompactShift(step)), user)
       <==> DeletionGoes(st, step, user) && ValueBehind(st, step, user)
  {
    hide Layered, IsShift, Rest, Merged, IsCompaction, NoneCovers, OneVersion, Stored, DirectlyBehind, Read, IsNewest, FileOk;
    CompactionFacts(st, step);
    CompactIsShift(st, step);
    var sh := CompactShift(step);
    ShiftInputs(st, sh);
    StoredIsRestAndInput(st, sh);
    RestHasOneVersion(st, sh);
    var m, rest, s := MergeOf(st, step.level, step.input), Rest(st, sh), SmallestSnapshot(st);
    forall i | 0 <= i < |m.input| && m.IsObsolete(i) && m.input[i].key.user == user && IsNewest(Stored(st), user, s, m.input[i])
      ensures Read(rest, user, s).Some? <==> ValueBehind(st, step, user)
    {
      assert m.input[i] in Elements(step.input);
      ReadsBehind(st, step, m.input[i]);
    }
  }

  lemma RestHasOneVersion(st: State, sh: Shift)
    requires OneVersion(Stored(st)) && IsShift(st, sh)
    ensures OneVersion(Rest(st, sh))
  {
    hide Stored, Rest, Merged, IsShift;
    StoredIsRestAndInput(st, sh);
  }

  lemma ReadsBehind(st: State, step: Step, e: Entry)
    requires Layered(st) && IsCompaction(st, step) && OneVersion(Stored(st)) && IsShift(st, CompactShift(step))
    requires step.Compact? && step.level + 1 < |st.levels| && OneVersion(Rest(st, CompactShift(step)))
    requires e in Merged(CompactShift(step)) && IsNewest(Stored(st), e.key.user, SmallestSnapshot(st), e)
    requires NoneCovers(st.levels, step.level + 2, e.key.user)
    ensures Read(Rest(st, CompactShift(step)), e.key.user, SmallestSnapshot(st)).Some? <==> ValueBehind(st, step, e.key.user)
  {
    hide Layered, IsShift, Rest, Merged, IsCompaction, NoneCovers, OneVersion, Stored, DirectlyBehind, Read, IsNewest, FileOk;
    var sh, user, s := CompactShift(step), e.key.user, SmallestSnapshot(st);
    var rest, files := Rest(st, sh), st.levels[step.level + 1];
    if g :| g in files && DirectlyBehind(files, step.parents, g) && g.smallest.user == user {
      NewestBehind(st, sh, g, e, s);
      ReadNewest(rest, user, s, g.entries[0]);
      forall h | h in files && DirectlyBehind(files, step.parents, h) && h.smallest.user == user ensures h == g {
        OneBehind(st, sh, g, h);
      }
    } else {
      NewestExists(rest, user, s);
      if x :| IsNewest(rest, user, s, x) {
        assert x in rest && Visible(x, user, s) by { NewestIsVisible(rest, user, s, x); }
        var g := OlderIsBehind(st, sh, x, e, s);
        BehindIsFile(files, step.parents, g);
        assert false;
      }
      ReadUnseen(rest, user, s);
    }
  }

  lemma NewestIsVisible(es: set<Entry>, user: UserKey, s: SequenceNumber, x: Entry)
    requires IsNewest(es, user, s, x)
    ensures x in es && Visible(x, user, s)
  {
  }

  /** Main result: a compaction keeps every read at a live snapshot or later
      exactly when no file that starts with a value is left directly behind a
      parent with the same user key whose deletion goes. */
  lemma CompactionKeepsReadsUnlessBehind(st: State, step: Step)
    requires Layered(st) && IsCompaction(st, step) && OneVersion(Stored(st))
    ensures step.Compact? && step.level + 1 < |st.levels|
    ensures
      (forall user, s: SequenceNumber | SmallestSnapshot(st) <= s ::
         Read(Stored(Compacted(st, step)), user, s) == Read(Stored(st), user, s))
      <==>
      (forall g <- st.levels[step.level + 1] |
         DirectlyBehind(st.levels[step.level + 1], step.parents, g) && g.smallest.kind.Value? ::
         !DeletionGoes(st, step, g.smallest.user))
  {
    hide Layered, Rest, IsCompaction, Resurrects, Read, Compacted, Stored, OneVersion, DirectlyBehind, DeletionGoes;
    CompactionFacts(st, step);
    CompactIsShift(st, step);
    ShiftInputs(st, CompactShift(step));
    CompactionKeepsReads(st, step);
    forall user
      ensures Resurrects(MergeOf(st, step.level, step.input), Rest(st, CompactShift(step)), user)
         <==> DeletionGoes(st, step, user) && ValueBehind(st, step, user)
    {
      ResurrectsFromBehind(st, step, user);
    }
  }
}
