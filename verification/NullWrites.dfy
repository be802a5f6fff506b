/** Writes without a batch, which only ask for room, in the group commit queue
    (db/db_impl.cc Write and BuildBatchGroup). */
module NullWrites {
  import opened Keys
  import opened WriteBatches
  import opened WriteQueue

  /** The steps of a leader from choosing its group to completing it. */
  function GroupSteps(count: nat, sync: bool): seq<Step> {
    [Lead(count)] + ([AppendLog] + LaterSteps(sync))
  }

  function LaterSteps(sync: bool): seq<Step> {
    if sync then [SyncLog, Insert, Finish] else [Insert, Finish]
  }

  /** Which requests ride in the group: those that every rule before them lets
      in; a request without a batch needs only the sync rule for itself. */
  lemma RidesExactly(queue: seq<Request>, count: nat, i: nat)
    requires IsGroup(queue, count) && 0 < i < |queue|
    ensures i < count <==> forall j | 0 < j <= i :: Takes(queue[..j], queue[j])
    ensures queue[i].batch.None? ==> (Takes(queue[..i], queue[i]) <==> (queue[i].sync ==> queue[0].sync))
  {
    assert queue[..i][0] == queue[0];
    if count <= i {
      assert !Takes(queue[..count], queue[count]);
    }
  }

  /** Running `rest` after `step`. */
  lemma Extends(st: State, step: Step, rest: seq<Step>)
    requires Invariant(st) && Enabled(st, step) && Invariant(After(st, step)) && IsRun(After(st, step), rest)
    ensures IsRun(st, [step] + rest) && Final(st, [step] + rest) == Final(After(st, step), rest)
  {
    hide Invariant, Enabled, After;
    assert ([step] + rest)[1..] == rest;
  }

  ghost predicate RunEnds(st: State, run: seq<Step>, done: set<nat>) {
    Invariant(st) && IsRun(st, run) && Final(st, run).done == done
  }

  lemma Prepend(st: State, step: Step, rest: seq<Step>, done: set<nat>)
    requires Invariant(st) && Enabled(st, step) && RunEnds(After(st, step), rest, done)
    ensures RunEnds(st, [step] + rest, done)
  {
    hide Invariant, Enabled, After;
    Extends(st, step, rest);
  }

  function DoneBehind(st: State, count: nat): set<nat>
    requires count <= |st.queue|
  {
    st.done + set k | 0 < k < count :: st.queue[k]
  }

  lemma FinishRuns(st: State)
    requires Invariant(st) && st.group.Some? && st.group.value.inserted
    ensures st.group.value.count <= |st.queue|
    ensures RunEnds(st, [Finish], DoneBehind(st, st.group.value.count))
  {
    StepKeeps(st, Finish);
    hide WrittenOk, FinishedOk, DurableOk;
    assert RunEnds(After(st, Finish), [], DoneBehind(st, st.group.value.count));
    Prepend(st, Finish, [], DoneBehind(st, st.group.value.count));
  }

  lemma InsertRuns(st: State)
    requires Invariant(st) && Enabled(st, Insert)
    ensures st.group.value.count <= |st.queue|
    ensures RunEnds(st, [Insert, Finish], DoneBehind(st, st.group.value.count))
  {
    StepKeeps(st, Insert);
    hide Invariant, WrittenOk, FinishedOk, DurableOk, RunEnds;
    FinishRuns(After(st, Insert));
    Prepend(st, Insert, [Finish], DoneBehind(st, st.group.value.count));
  }

  lemma SyncRuns(st: State)
    requires Invariant(st) && Enabled(st, SyncLog) && st.queue != []
    ensures st.group.value.count <= |st.queue|
    ensures RunEnds(st, [SyncLog, Insert, Finish], DoneBehind(st, st.group.value.count))
  {
    StepKeeps(st, SyncLog);
    hide Invariant, WrittenOk, FinishedOk, DurableOk, RunEnds;
    InsertRuns(After(st, SyncLog));
    Prepend(st, SyncLog, [Insert, Finish], DoneBehind(st, st.group.value.count));
    assert [SyncLog] + [Insert, Finish] == [SyncLog, Insert, Finish];
  }

  lemma Logged(st: State)
    requires Invariant(st) && Enabled(st, AppendLog) && st.queue != [] && !st.group.value.inserted
    ensures GroupOk(st) && st.group.Some? && st.group.value.count <= |st.queue|
    ensures
      var next, sync := After(st, AppendLog), st.requests[st.queue[0]].sync;
      && Invariant(next) && next.queue == st.queue && next.group.Some? && next.group.value.count == st.group.value.count
      && Enabled(next, if sync then SyncLog else Insert)
      && DoneBehind(next, st.group.value.count) == DoneBehind(st, st.group.value.count)
  {
    hide WrittenOk, FinishedOk, DurableOk, OpsFrom, IsGroup;
    StepKeeps(st, AppendLog);
    var next := After(st, AppendLog);
    assert GroupOk(st) && GroupOk(next);
    hide Invariant, GroupOk;
  }

  lemma LogRuns(st: State)
    requires Invariant(st) && Enabled(st, AppendLog) && st.queue != [] && !st.group.value.inserted
    ensures st.group.value.count <= |st.queue|
    ensures RunEnds(st, [AppendLog] + LaterSteps(st.requests[st.queue[0]].sync), DoneBehind(st, st.group.value.count))
  {
    hide Invariant, Enabled, After, DoneBehind, RunEnds;
    Logged(st);
    var next, sync := After(st, AppendLog), st.requests[st.queue[0]].sync;
    if sync {
      SyncRuns(next);
    } else {
      InsertRuns(next);
    }
    Prepend(st, AppendLog, LaterSteps(sync), DoneBehind(st, st.group.value.count));
  }

  /** A group's steps are a run, and its finish completes exactly its members
      behind the leader. */
  lemma GroupRuns(st: State, count: nat, i: nat)
    requires Invariant(st) && Enabled(st, Lead(count)) && 0 < i < |st.queue|
    ensures IsRun(st, GroupSteps(count, st.requests[st.queue[0]].sync))
    ensures st.queue[i] in Final(st, GroupSteps(count, st.requests[st.queue[0]].sync)).done <==> i < count
  {
    hide WrittenOk, DurableOk, FinishedOk, OpsFrom, OpsOf, Number, IsGroup;
    IsGroupBounds(QueueRequests(st), count);
    StepKeeps(st, Lead(count));
    var sync := st.requests[st.queue[0]].sync;
    LogRuns(After(st, Lead(count)));
    Prepend(st, Lead(count), [AppendLog] + LaterSteps(sync), DoneBehind(st, count));
    NotDoneYet(st, i);
    if i < count {
      assert st.queue[i] in DoneBehind(st, count);
    }
  }

  lemma NotDoneYet(st: State, i: nat)
    requires Invariant(st) && i < |st.queue|
    ensures st.queue[i] !in st.done && st.queue[i] == Head(st) + i
  {
    hide WrittenOk, DurableOk;
  }

  /** A write without a batch that waits behind a leader is completed by it,
      and so returns without having made room, exactly when the requests in front
      of it ride along and, if it asks for a sync, the leader syncs. */
  lemma NullIsAbsorbed(st: State, count: nat, i: nat)
    requires Invariant(st) && Enabled(st, Lead(count)) && 0 < i < |st.queue|
    requires st.requests[st.queue[i]].batch.None?
    ensures IsRun(st, GroupSteps(count, st.requests[st.queue[0]].sync))
    ensures
      var q := QueueRequests(st);
      st.queue[i] in Final(st, GroupSteps(count, st.requests[st.queue[0]].sync)).done
      <==> (forall j | 0 < j < i :: Takes(q[..j], q[j])) && (q[i].sync ==> q[0].sync)
  {
    hide WrittenOk, FinishedOk, DurableOk, IsRun, Final, Takes, IsGroup;
    GroupRuns(st, count, i);
    RidesExactly(QueueRequests(st), count, i);
  }

  const PUT := Request(Some([Op.Put([1], [2])]), 20, false)
  const SWITCH := Request(None, 0, false)

  /** An instance: a forced switch behind a small put returns, and the queue is
      empty, without any step that makes room for it. */
  lemma SwitchIsSkipped()
    ensures
      var run := [Arrive(PUT), Arrive(SWITCH), Lead(2), AppendLog, Insert, Finish, Return(1)];
      && Invariant(INITIAL) && IsRun(INITIAL, run)
      && Final(INITIAL, run).returned == {0, 1} && Final(INITIAL, run).queue == []
      && forall step <- run :: !step.LeadNull?
  {
    var s1 := State([PUT], [0], {}, {}, None, [], 0, [], 0);
    var s2 := State([PUT, SWITCH], [0, 1], {}, {}, None, [], 0, [], 0);
    var s3 := s2.(group := Some(Group(2, 1, [Op.Put([1], [2])], false, false, false)));
    InitiallyHolds();
    hide Invariant, IsRun, Final, OpsFrom, Number, GroupOk;
    StepTo(INITIAL, Arrive(PUT), s1);
    StepTo(s1, Arrive(SWITCH), s2);
    Leads(s2, s3);
    SwitchEnds(s3);
    Extends(s2, Lead(2), [AppendLog, Insert, Finish, Return(1)]);
    Extends(s1, Arrive(SWITCH), [Lead(2), AppendLog, Insert, Finish, Return(1)]);
    Extends(INITIAL, Arrive(PUT), [Arrive(SWITCH), Lead(2), AppendLog, Insert, Finish, Return(1)]);
  }

  lemma SwitchEnds(s3: State)
    requires s3 == State([PUT, SWITCH], [0, 1], {}, {}, Some(Group(2, 1, [Op.Put([1], [2])], false, false, false)), [], 0, [], 0)
    requires Invariant(s3)
    ensures IsRun(s3, [AppendLog, Insert, Finish, Return(1)])
    ensures var end := Final(s3, [AppendLog, Insert, Finish, Return(1)]); end.returned == {0, 1} && end.queue == []
  {
    var g := s3.group.value;
    var s4 := s3.(log := [Record(1, g.ops)], group := Some(g.(logged := true)));
    var s5 := s4.(mem := [] + Number(g.ops, 1), group := Some(g.(logged := true, inserted := true)));
    var s6 := s5.(queue := [], returned := {0}, done := {1}, group := None, lastSequence := 1);
    var s7 := s6.(returned := {0, 1}, done := {});
    hide Invariant, IsRun, Final, OpsFrom, Number, GroupOk;
    Grouped(s3);
    StepTo(s3, AppendLog, s4);
    Grouped(s4);
    StepTo(s4, Insert, s5);
    SwitchReturns(s5, s6, s7);
    Extends(s4, Insert, [Finish, Return(1)]);
    Extends(s3, AppendLog, [Insert, Finish, Return(1)]);
  }

  lemma Grouped(st: State)
    requires Invariant(st)
    ensures GroupOk(st) && QueueOk(st)
  {
  }

  lemma SwitchReturns(s5: State, s6: State, s7: State)
    requires Invariant(s5) && s5.group.Some? && s5.group.value.inserted && s5.group.value.count == 2
    requires s5.queue == [0, 1] && s5.returned == {} && s5.done == {} && s5.lastSequence == 0 && |s5.group.value.ops| == 1
    requires s6 == s5.(queue := [], returned := {0}, done := {1}, group := None, lastSequence := 1)
    requires s7 == s6.(returned := {0, 1}, done := {})
    ensures IsRun(s5, [Finish, Return(1)]) && Final(s5, [Finish, Return(1)]) == s7
  {
    Finishes(s5, s6);
    StepKeeps(s5, Finish);
    Grouped(s6);
    Returns(s6, s7);
    hide Invariant, IsRun, Final, GroupOk, Enabled, After;
    StepTo(s5, Finish, s6);
    StepTo(s6, Return(1), s7);
    NoSteps(s7);
    Extends(s6, Return(1), []);
    Extends(s5, Finish, [Return(1)]);
  }

  lemma Finishes(s5: State, s6: State)
    requires Invariant(s5) && s5.group.Some? && s5.group.value.inserted && s5.group.value.count == 2
    requires s5.queue == [0, 1] && s5.returned == {} && s5.done == {} && s5.lastSequence == 0 && |s5.group.value.ops| == 1
    requires s6 == s5.(queue := [], returned := {0}, done := {1}, group := None, lastSequence := 1)
    ensures Enabled(s5, Finish) && After(s5, Finish) == s6
  {
    hide WrittenOk, FinishedOk, DurableOk, OpsFrom;
    assert (set i | 0 < i < 2 :: [0, 1][i]) == {1} by { assert [0, 1][1] == 1; }
  }

  lemma Returns(s6: State, s7: State)
    requires GroupOk(s6) && s6.done == {1} && s6.returned == {0}
    requires s7 == s6.(returned := {0, 1}, done := {})
    ensures Enabled(s6, Return(1)) && After(s6, Return(1)) == s7
  {
    hide GroupOk;
  }

  lemma StepTo(st: State, step: Step, next: State)
    requires Invariant(st) && Enabled(st, step) && After(st, step) == next
    ensures Invariant(next)
  {
    hide Invariant, Enabled, After;
    StepKeeps(st, step);
  }

  lemma Leads(st: State, next: State)
    requires Invariant(st) && st.group.None? && st.requests == [PUT, SWITCH] && st.queue == [0, 1]
    requires next == st.(group := Some(Group(2, st.lastSequence + 1, [Op.Put([1], [2])], false, false, false)))
    ensures Enabled(st, Lead(2)) && After(st, Lead(2)) == next && Invariant(next)
  {
    assert QueueRequests(st) == [PUT, SWITCH];
    SwitchRides();
    hide Invariant, IsGroup, OpsFrom;
    StepKeeps(st, Lead(2));
  }

  lemma NoSteps(st: State)
    requires Invariant(st)
    ensures IsRun(st, []) && Final(st, []) == st
  {
    hide Invariant;
  }

  lemma SwitchRides()
    ensures IsGroup([PUT, SWITCH], 2) && OpsFrom([PUT, SWITCH], 0, 2) == [Op.Put([1], [2])]
    ensures [] + Number([Op.Put([1], [2])], 1) == Number([Op.Put([1], [2])], 1)
  {
    assert OpsFrom([PUT, SWITCH], 0, 1) == [Op.Put([1], [2])];
    assert [PUT, SWITCH][..1] == [PUT];
    assert GroupSize([PUT]) == 20;
  }
}
