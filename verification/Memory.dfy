/** Steps that change memtables and snapshots keep the invariant. */
module Memory {
  import opened Keys
  import opened Files
  import opened View
  import opened Inputs
  import opened Engine
  import opened Steps

  lemma BatchIsNew(ops: seq<Op>, base: SequenceNumber, written: set<Entry>)
    requires base + |ops| <= MAX_SEQUENCE
    requires OneVersion(written) && forall e <- written :: e.key.sequence <= base
    ensures forall e <- BatchEntries(ops, base) :: base < e.key.sequence <= base + |ops|
    ensures Newer(BatchEntries(ops, base), written)
    ensures OneVersion(BatchEntries(ops, base) + written)
  {
  }

  lemma WriteKeepsReads(batch: set<Entry>, stored: set<Entry>, written: set<Entry>, user: UserKey, s: SequenceNumber)
    requires OneVersion(batch + written) && stored <= written && Newer(batch, written)
    requires Unseen(batch, user, s) ==> Read(stored, user, s) == Read(written, user, s)
    ensures Read(batch + stored, user, s) == Read(batch + written, user, s)
  {
    ReadOfUnion(batch, stored, user, s);
    ReadOfUnion(batch, written, user, s);
  }

  /** A group write numbers its operations after every earlier entry. */
  lemma WriteKeeps(st: State, ops: seq<Op>, written: set<Entry>)
    requires Invariant(st, written) && Enabled(st, Step.Write(ops))
    ensures Invariant(After(st, Step.Write(ops)), WrittenAfter(st, Step.Write(ops), written))
  {
    hide LevelsOk;
    var batch := BatchEntries(ops, st.lastSequence);
    var st1 := After(st, Step.Write(ops));
    BatchIsNew(ops, st.lastSequence, written);
    assert Stored(st1) == batch + Stored(st);
    assert written + batch == batch + written;
    assert Layered(st1) by {
      WriteKeepsLayers(st, batch);
    }
    forall user, s: SequenceNumber | SmallestSnapshot(st1) <= s
      ensures Read(Stored(st1), user, s) == Read(written + batch, user, s)
    {
      if Unseen(batch, user, s) {
        LaterSeesSame(st, written, user, s);
      }
      WriteKeepsReads(batch, Stored(st), written, user, s);
    }
  }

  lemma LaterSeesSame(st: State, written: set<Entry>, user: UserKey, s: SequenceNumber)
    requires ReadsAgree(st, written) && SmallestSnapshot(st) <= s
    ensures Read(Stored(st), user, s) == Read(written, user, s)
  {
  }

  lemma LevelInStored(st: State, l: nat)
    requires l < |st.levels|
    ensures Contents(st.levels[l]) <= Stored(st)
  {
  }

  lemma WriteKeepsLayers(st: State, batch: set<Entry>)
    requires Layered(st) && Newer(batch, Stored(st))
    ensures Layered(st.(mem := st.mem + batch))
  {
    hide LevelsOk, Stored;
    assert |st.levels| == NUM_LEVELS by { LevelCount(st); }
    assert Newer(batch, Frozen(st)) by { NewerThanFrozen(st, batch); }
    forall l | 0 <= l < NUM_LEVELS ensures Newer(st.mem + batch, Contents(st.levels[l])) {
      LevelInStored(st, l);
    }
  }

  lemma LevelCount(st: State)
    requires LevelsOk(st.levels)
    ensures |st.levels| == NUM_LEVELS
  {
  }

  lemma NewerThanFrozen(st: State, batch: set<Entry>)
    requires Newer(batch, Stored(st))
    ensures Newer(batch, Frozen(st))
  {
  }

  lemma RotateKeeps(st: State, written: set<Entry>)
    requires Invariant(st, written) && Enabled(st, Rotate)
    ensures Invariant(After(st, Rotate), written)
  {
    assert Stored(After(st, Rotate)) == Stored(st);
  }

  lemma SnapshotsOnly(st: State, st1: State, written: set<Entry>)
    requires Invariant(st, written)
    requires st1 == st.(snapshots := st1.snapshots)
    requires forall i, j | 0 <= i < j < |st1.snapshots| :: st1.snapshots[i] <= st1.snapshots[j]
    requires forall s <- st1.snapshots :: s <= st1.lastSequence
    requires SmallestSnapshot(st) <= SmallestSnapshot(st1)
    ensures Invariant(st1, written)
  {
    assert Stored(st1) == Stored(st);
    forall user, s: SequenceNumber | SmallestSnapshot(st1) <= s
      ensures Read(Stored(st1), user, s) == Read(written, user, s)
    {
      LaterSeesSame(st, written, user, s);
    }
  }

  lemma TakeSnapshotKeeps(st: State, written: set<Entry>)
    requires Invariant(st, written) && Enabled(st, TakeSnapshot)
    ensures Invariant(After(st, TakeSnapshot), written)
  {
    hide Layered, ReadsAgree;
    var st1 := After(st, TakeSnapshot);
    forall i, j | 0 <= i < j < |st1.snapshots| ensures st1.snapshots[i] <= st1.snapshots[j] {
      if j == |st.snapshots| {
        assert st.snapshots[i] in st.snapshots;
      }
    }
    SnapshotsOnly(st, st1, written);
  }

  lemma ReleaseSnapshotKeeps(st: State, k: nat, written: set<Entry>)
    requires Invariant(st, written) && Enabled(st, ReleaseSnapshot(k))
    ensures Invariant(After(st, ReleaseSnapshot(k)), written)
  {
    hide Layered, ReadsAgree;
    var st1 := After(st, ReleaseSnapshot(k));
    var before, after := st.snapshots, st1.snapshots;
    assert forall i | 0 <= i < |after| :: after[i] == before[if i < k then i else i + 1];
    forall s <- after ensures s <= st.lastSequence {
      var i :| 0 <= i < |after| && after[i] == s;
      assert before[if i < k then i else i + 1] in before;
    }
    assert before[0] in before;
    SnapshotsOnly(st, st1, written);
  }
}
