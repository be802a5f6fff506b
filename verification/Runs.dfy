/** Whole runs of the store: every read at a live snapshot returns what a
    plain map holds after the operations the snapshot counts. */
module Runs {
  import opened Keys
  import opened Files
  import opened View
  import opened Inputs
  import opened Compaction
  import opened DropRules
  import opened Engine
  import opened Steps
  import opened Memory
  import opened LevelSteps
  import opened MoveDown
  import opened Compactions

  lemma StepKeeps(st: State, step: Step, written: set<Entry>)
    requires Invariant(st, written) && Enabled(st, step)
    ensures Invariant(After(st, step), WrittenAfter(st, step, written))
  {
    hide Invariant, FlushGuard, TrivialMoveGuard, CompactGuard, ParentsClosed;
    match step
    case Write(ops) => WriteKeeps(st, ops, written);
    case Rotate => RotateKeeps(st, written);
    case Flush(table, level, files) => FlushKeeps(st, table, level, files, written);
    case TrivialMove(_, _, _, _) => TrivialMoveKeeps(st, step, written);
    case Compact(_, _, _, _, _, _, _, _) => CompactKeeps(st, step, written);
    case TakeSnapshot => TakeSnapshotKeeps(st, written);
    case ReleaseSnapshot(index) => ReleaseSnapshotKeeps(st, index, written);
  }

  // ----- Runs -----

  ghost predicate IsRun(st: State, run: seq<Step>)
    decreases |run|
  {
    run != [] ==> Enabled(st, run[0]) && IsRun(After(st, run[0]), run[1..])
  }

  ghost function Final(st: State, run: seq<Step>): State
    requires IsRun(st, run)
    decreases |run|
  {
    if run == [] then st else Final(After(st, run[0]), run[1..])
  }

  /** The operations of a run in the order of their writes. */
  ghost function Operations(run: seq<Step>): seq<Op> {
    if run == [] then []
    else (match run[0] case Write(ops) => ops case _ => []) + Operations(run[1..])
  }

  /** The entries of a sequence of operations; operation `i` has number `i + 1`. */
  ghost function History(ops: seq<Op>): set<Entry>
    requires |ops| <= MAX_SEQUENCE
  {
    BatchEntries(ops, 0)
  }

  ghost predicate Describes(ops: seq<Op>, st: State) {
    |ops| == st.lastSequence && Invariant(st, History(ops))
  }

  lemma HistoryGrows(ops: seq<Op>, more: seq<Op>)
    requires |ops| + |more| <= MAX_SEQUENCE
    ensures History(ops + more) == History(ops) + BatchEntries(more, |ops|)
  {
    var all := ops + more;
    forall i | 0 <= i < |more| ensures OpEntry(more[i], |ops| + 1 + i) in History(all) {
      assert all[|ops| + i] == more[i];
      assert OpEntry(all[|ops| + i], 0 + 1 + (|ops| + i)) in History(all);
    }
    forall i | 0 <= i < |ops| ensures OpEntry(ops[i], 0 + 1 + i) in History(all) {
      assert all[i] == ops[i];
      assert OpEntry(all[i], 0 + 1 + i) in History(all);
    }
    forall e <- History(all) ensures e in History(ops) + BatchEntries(more, |ops|) {
      var i :| 0 <= i < |all| && e == OpEntry(all[i], 0 + 1 + i);
      if i < |ops| {
        assert OpEntry(ops[i], 0 + 1 + i) in History(ops);
      } else {
        assert OpEntry(more[i - |ops|], |ops| + 1 + (i - |ops|)) in BatchEntries(more, |ops|);
      }
    }
  }

  lemma {:induction false} RunKeeps(st: State, run: seq<Step>, ops: seq<Op>)
    requires Describes(ops, st) && IsRun(st, run)
    ensures Describes(ops + Operations(run), Final(st, run))
    decreases |run|
  {
    hide Invariant, Enabled, History;
    if run == [] {
      assert ops + Operations(run) == ops;
    } else {
      var step, rest := run[0], run[1..];
      var gained := match step case Write(more) => more case _ => [];
      StepDescribes(st, step, ops, gained);
      RunKeeps(After(st, step), rest, ops + gained);
      assert ops + Operations(run) == (ops + gained) + Operations(rest);
    }
  }

  lemma StepDescribes(st: State, step: Step, ops: seq<Op>, gained: seq<Op>)
    requires Describes(ops, st) && Enabled(st, step)
    requires gained == match step case Write(more) => more case _ => []
    ensures Describes(ops + gained, After(st, step))
  {
    hide Invariant, FlushGuard, TrivialMoveGuard, CompactGuard, ParentsClosed, History;
    StepKeeps(st, step, History(ops));
    if step.Write? {
      HistoryGrows(ops, step.ops);
    } else {
      assert ops + gained == ops;
    }
  }

  lemma EmptyLevels(levels: seq<seq<File>>)
    requires |levels| == NUM_LEVELS && forall l | 0 <= l < NUM_LEVELS :: levels[l] == []
    ensures LevelsOk(levels) && AllContents(levels) == {}
    ensures forall l | 0 <= l < NUM_LEVELS :: Contents(levels[l]) == {}
  {
  }

  lemma InitialDescribes()
    ensures Describes([], INITIAL)
  {
    hide LevelsOk, Contents, AllContents;
    EmptyLevels(INITIAL.levels);
    assert Stored(INITIAL) == {} == History([]);
  }

  // ----- The plain map -----

  /** The value of `user` after the operations, one after the other. */
  function Lookup(ops: seq<Op>, user: UserKey): Option<Bytes> {
    if ops == [] then None
    else match ops[|ops| - 1]
      case Put(u, value) => if u == user then Some(value) else Lookup(ops[..|ops| - 1], user)
      case Delete(u) => if u == user then None else Lookup(ops[..|ops| - 1], user)
  }

  /** Reading at `s` is looking up after the first `s` operations. */
  lemma {:induction false} ReadIsLookup(ops: seq<Op>, user: UserKey, s: SequenceNumber)
    requires s <= |ops| <= MAX_SEQUENCE
    ensures Read(History(ops), user, s) == Lookup(ops[..s], user)
  {
    hide Read, History;
    if s == 0 {
      NothingAtZero(ops, user);
    } else {
      assert ops[..s][..s - 1] == ops[..s - 1] && ops[..s][s - 1] == ops[s - 1];
      if ops[s - 1].user == user {
        ReadLastOp(ops, user, s);
      } else {
        ReadIsLookup(ops, user, s - 1);
        OtherKeyUnchanged(ops, user, s);
      }
    }
  }

  lemma NothingAtZero(ops: seq<Op>, user: UserKey)
    requires |ops| <= MAX_SEQUENCE
    ensures Read(History(ops), user, 0) == None
  {
    ReadUnseen(History(ops), user, 0);
  }

  lemma ReadLastOp(ops: seq<Op>, user: UserKey, s: SequenceNumber)
    requires 0 < s <= |ops| <= MAX_SEQUENCE && ops[s - 1].user == user
    ensures Read(History(ops), user, s) == Outcome(OpEntry(ops[s - 1], s))
  {
    var e := OpEntry(ops[s - 1], 0 + 1 + (s - 1));
    assert e in History(ops);
    assert IsNewest(History(ops), user, s, e);
    HistoryIsOneVersion(ops);
    ReadNewest(History(ops), user, s, e);
  }

  lemma OtherKeyUnchanged(ops: seq<Op>, user: UserKey, s: SequenceNumber)
    requires 0 < s <= |ops| <= MAX_SEQUENCE && ops[s - 1].user != user
    ensures Read(History(ops), user, s) == Read(History(ops), user, s - 1)
  {
    var es := History(ops);
    forall x | x in es ensures Visible(x, user, s) <==> Visible(x, user, s - 1) {
      var i :| 0 <= i < |ops| && x == OpEntry(ops[i], 0 + 1 + i);
    }
    HistoryIsOneVersion(ops);
    SameNewest(es, user, s - 1, s);
  }

  lemma HistoryIsOneVersion(ops: seq<Op>)
    requires |ops| <= MAX_SEQUENCE
    ensures OneVersion(History(ops))
  {
  }

  lemma SameNewest(es: set<Entry>, user: UserKey, s: SequenceNumber, t: SequenceNumber)
    requires OneVersion(es)
    requires forall e :: IsNewest(es, user, s, e) <==> IsNewest(es, user, t, e)
    ensures Read(es, user, s) == Read(es, user, t)
  {
    NewestExists(es, user, s);
    NewestExists(es, user, t);
    if e :| IsNewest(es, user, s, e) {
      ReadNewest(es, user, s, e);
      ReadNewest(es, user, t, e);
    } else {
      ReadUnseen(es, user, s);
      ReadUnseen(es, user, t);
    }
  }

  // ----- Main results -----

  ghost predicate Live(st: State, s: SequenceNumber) {
    s == st.lastSequence || s in st.snapshots
  }

  lemma LiveIsCovered(st: State, written: set<Entry>, s: SequenceNumber)
    requires Invariant(st, written) && Live(st, s)
    ensures SmallestSnapshot(st) <= s <= st.lastSequence
  {
    if s in st.snapshots {
      var i :| 0 <= i < |st.snapshots| && st.snapshots[i] == s;
      assert i == 0 || st.snapshots[0] <= st.snapshots[i];
    } else if st.snapshots != [] {
      assert st.snapshots[0] in st.snapshots;
    }
  }

  /** Along every run, a read at the latest sequence number or at a live
      snapshot returns what the plain map holds after that many operations. */
  lemma RunsReadLikeTheMap(run: seq<Step>, user: UserKey, s: SequenceNumber)
    requires IsRun(INITIAL, run) && Live(Final(INITIAL, run), s)
    ensures Layered(Final(INITIAL, run))
    ensures s <= |Operations(run)|
    ensures Read(Stored(Final(INITIAL, run)), user, s) == Lookup(Operations(run)[..s], user)
  {
    hide Layered, Stored, Read, Enabled, History, IsRun, Final;
    InitialDescribes();
    RunKeeps(INITIAL, run, []);
    var st, ops := Final(INITIAL, run), Operations(run);
    assert [] + ops == ops;
    LiveIsCovered(st, History(ops), s);
    ReadIsLookup(ops, user, s);
  }
}
