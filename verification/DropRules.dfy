/** The drop rules of a compaction keep every read a live snapshot can make
    (db/db_impl.cc:906-999), and exactly when they do. */
module DropRules {
  import opened Keys
  import opened Files
  import opened View
  import opened Compaction

  /** The parameters of one merge: its sorted input, the oldest live snapshot,
      and the levels in which a key may still have versions. */
  datatype Merge = Merge(input: seq<Entry>, smallestSnapshot: SequenceNumber, level: nat, levels: seq<seq<File>>) {
    ghost predicate Drops(i: nat)
      requires i < |input|
    {
      Dropped(input, i, smallestSnapshot, level, levels)
    }

    ghost function Output(): seq<Entry> {
      Kept(input, |input|, smallestSnapshot, level, levels)
    }

    ghost predicate IsObsolete(i: nat)
      requires i < |input|
    {
      Obsolete(input, i, smallestSnapshot, level, levels)
    }
  }

  lemma KeptMembers(m: Merge, n: nat, e: Entry)
    requires n <= |m.input|
    ensures e in Kept(m.input, n, m.smallestSnapshot, m.level, m.levels) <==>
              exists i | 0 <= i < n :: m.input[i] == e && !m.Drops(i)
  {
    hide Dropped;
    KeptIs(m.input, n, m.smallestSnapshot, m.level, m.levels, e);
  }

  /** Every older version of the user key of a version that no live snapshot
      looks past is dropped. */
  lemma OlderIsHidden(m: Merge, i: nat, j: nat)
    requires Ascending(m.input) && i < j < |m.input|
    requires m.input[i].key.user == m.input[j].key.user && m.input[i].key.sequence <= m.smallestSnapshot
    ensures m.Drops(j)
  {
    assert Less(m.input[j - 1].key, m.input[j].key);
    if i < j - 1 {
      assert Less(m.input[i].key, m.input[j - 1].key);
    }
  }

  lemma OutputMember(m: Merge, e: Entry) returns (i: nat)
    requires e in m.Output()
    ensures i < |m.input| && m.input[i] == e && !m.Drops(i)
  {
    KeptMembers(m, |m.input|, e);
    i :| 0 <= i < |m.input| && m.input[i] == e && !m.Drops(i);
  }

  /** A dropped newest version is an obsolete deletion, and nothing of its key
      survives in the output for a reader at `s`. */
  lemma DroppedNewest(m: Merge, rest: set<Entry>, user: UserKey, s: SequenceNumber, e: Entry)
    requires Ascending(m.input) && m.smallestSnapshot <= s
    requires OneVersion(rest + Elements(m.input))
    requires IsNewest(rest + Elements(m.input), user, s, e)
    requires e !in rest + Elements(m.Output())
    ensures exists i | 0 <= i < |m.input| :: m.input[i] == e && m.IsObsolete(i)
    ensures Unseen(Elements(m.Output()), user, s)
  {
    hide Ascending, Kept, NoneCovers, OneVersion, IsNewest, Hidden;
    var i :| 0 <= i < |m.input| && m.input[i] == e by { NewestIsIn(m, rest, user, s, e); }
    KeptMembers(m, |m.input|, e);
    assert m.Drops(i);
    NewestNotHidden(m, rest, user, s, i);
    forall x <- Elements(m.Output()) ensures !Visible(x, user, s) {
      var j := OutputMember(m, x);
      OlderNotVisible(m, rest, user, s, i, j);
    }
  }

  lemma NewestIsIn(m: Merge, rest: set<Entry>, user: UserKey, s: SequenceNumber, e: Entry)
    requires IsNewest(rest + Elements(m.input), user, s, e) && e !in rest
    ensures e in m.input && Visible(e, user, s)
  {
  }

  /** The newest visible version is not hidden by the one in front of it. */
  lemma NewestNotHidden(m: Merge, rest: set<Entry>, user: UserKey, s: SequenceNumber, i: nat)
    requires Ascending(m.input) && m.smallestSnapshot <= s && i < |m.input|
    requires OneVersion(rest + Elements(m.input)) && IsNewest(rest + Elements(m.input), user, s, m.input[i])
    ensures !Hidden(m.input, i, m.smallestSnapshot)
  {
    hide NoneCovers;
    if 0 < i {
      assert Less(m.input[i - 1].key, m.input[i].key);
      assert m.input[i - 1] in Elements(m.input) && m.input[i] in Elements(m.input);
    }
  }

  /** Nothing of the user key that is kept is visible once the newest is dropped as obsolete. */
  lemma OlderNotVisible(m: Merge, rest: set<Entry>, user: UserKey, s: SequenceNumber, i: nat, j: nat)
    requires Ascending(m.input) && i < |m.input| && j < |m.input| && m.Drops(i) && !m.Drops(j)
    requires m.input[i].key.sequence <= m.smallestSnapshot
    requires OneVersion(rest + Elements(m.input)) && IsNewest(rest + Elements(m.input), user, s, m.input[i])
    ensures !Visible(m.input[j], user, s)
  {
    hide Dropped, NoneCovers;
    assert m.input[j] in Elements(m.input);
    if i < j && Visible(m.input[j], user, s) {
      OlderIsHidden(m, i, j);
    } else if j < i {
      assert Less(m.input[j].key, m.input[i].key);
    }
  }

  /** The compaction brings an older value of `user` back to life: the newest
      visible version at the oldest live snapshot is an obsolete deletion of
      the input, and the entries outside the input still have a value. */
  ghost predicate Resurrects(m: Merge, rest: set<Entry>, user: UserKey) {
    && Read(rest, user, m.smallestSnapshot).Some?
    && exists i | 0 <= i < |m.input| ::
         && m.IsObsolete(i) && m.input[i].key.user == user
         && IsNewest(rest + Elements(m.input), user, m.smallestSnapshot, m.input[i])
  }

  ghost predicate SameReads(m: Merge, rest: set<Entry>, user: UserKey) {
    forall s: SequenceNumber | m.smallestSnapshot <= s ::
      Read(rest + Elements(m.Output()), user, s) == Read(rest + Elements(m.input), user, s)
  }

  lemma OutputIsInput(m: Merge)
    ensures Elements(m.Output()) <= Elements(m.input)
  {
    forall e <- m.Output() ensures e in Elements(m.input) {
      var i := OutputMember(m, e);
    }
  }

  lemma KeepsRead(m: Merge, rest: set<Entry>, user: UserKey, s: SequenceNumber)
    requires Ascending(m.input) && m.smallestSnapshot <= s
    requires OneVersion(rest + Elements(m.input)) && rest !! Elements(m.input)
    requires !Resurrects(m, rest, user)
    ensures Read(rest + Elements(m.Output()), user, s) == Read(rest + Elements(m.input), user, s)
  {
    var before, after := rest + Elements(m.input), rest + Elements(m.Output());
    OutputIsInput(m);
    NewestExists(before, user, s);
    if e :| IsNewest(before, user, s, e) && e !in after {
      DroppedNewest(m, rest, user, s, e);
      var i :| 0 <= i < |m.input| && m.input[i] == e && m.IsObsolete(i);
      assert IsNewest(before, user, m.smallestSnapshot, e);
      assert Read(rest, user, m.smallestSnapshot) == None;
      ReadNewest(before, user, s, e);
      ReadOfRest(m, rest, user, s, e);
    } else {
      ReadOfSubset(before, after, user, s);
    }
  }

  /** With the newest version gone and none of its key in the output, reads
      fall through to the entries outside the input. */
  lemma ReadOfRest(m: Merge, rest: set<Entry>, user: UserKey, s: SequenceNumber, e: Entry)
    requires m.smallestSnapshot <= s && e.key.sequence <= m.smallestSnapshot
    requires OneVersion(rest + Elements(m.input))
    requires Elements(m.Output()) <= Elements(m.input)
    requires IsNewest(rest + Elements(m.input), user, s, e)
    requires e !in rest && Unseen(Elements(m.Output()), user, s)
    ensures Read(rest + Elements(m.Output()), user, s) == Read(rest, user, m.smallestSnapshot)
  {
    var after := rest + Elements(m.Output());
    assert forall x | Visible(x, user, s) && x in after :: x in rest && Visible(x, user, m.smallestSnapshot);
    NewestExists(rest, user, m.smallestSnapshot);
    if r :| IsNewest(rest, user, m.smallestSnapshot, r) {
      assert IsNewest(after, user, s, r);
      ReadNewest(after, user, s, r);
      ReadNewest(rest, user, m.smallestSnapshot, r);
    }
  }

  /** Main result: a compaction keeps all reads of a key from every live
      snapshot if and only if it does not bring an older value back. */
  lemma DropsKeepReads(m: Merge, rest: set<Entry>, user: UserKey)
    requires Ascending(m.input)
    requires OneVersion(rest + Elements(m.input)) && rest !! Elements(m.input)
    ensures SameReads(m, rest, user) <==> !Resurrects(m, rest, user)
  {
    if Resurrects(m, rest, user) {
      var s := m.smallestSnapshot;
      var i :| 0 <= i < |m.input| && m.IsObsolete(i) && m.input[i].key.user == user
        && IsNewest(rest + Elements(m.input), user, s, m.input[i]);
      var e := m.input[i];
      OutputIsInput(m);
      OutputLacks(m, i);
      DroppedNewest(m, rest, user, s, e);
      ReadOfRest(m, rest, user, s, e);
      ReadNewest(rest + Elements(m.input), user, s, e);
      assert Read(rest + Elements(m.Output()), user, s) != Read(rest + Elements(m.input), user, s);
    } else {
      forall s: SequenceNumber | m.smallestSnapshot <= s
        ensures Read(rest + Elements(m.Output()), user, s) == Read(rest + Elements(m.input), user, s)
      {
        KeepsRead(m, rest, user, s);
      }
    }
  }

  lemma OutputLacks(m: Merge, i: nat)
    requires Ascending(m.input) && i < |m.input| && m.Drops(i)
    ensures m.input[i] !in m.Output()
  {
    KeptMembers(m, |m.input|, m.input[i]);
    forall j | 0 <= j < |m.input| && j != i ensures m.input[j] != m.input[i] {
      if j < i {
        assert Less(m.input[j].key, m.input[i].key);
      } else {
        assert Less(m.input[i].key, m.input[j].key);
      }
    }
  }
}
