/** From every state of the group commit queue all waiting writers can be
    served (db/db_impl.cc Write). */
module Draining {
  import opened Keys
  import opened WriteBatches
  import opened WriteQueue
  import NullWrites

  /** What is left to do for the leader's group. */
  function Stage(st: State): nat {
    match st.group
    case None => 5
    case Some(g) => if !g.logged then 4 else if g.inserted then 1 else if g.synced then 2 else 3
  }

  lemma GroupExists(queue: seq<Request>) returns (count: nat)
    requires queue != [] && queue[0].batch.Some?
    ensures IsGroup(queue, count)
  {
    count := 1;
    while count < |queue| && Takes(queue[..count], queue[count])
      invariant 0 < count <= |queue|
      invariant forall i | 0 < i < count :: Takes(queue[..i], queue[i])
    {
      count := count + 1;
    }
  }

  /** What happens next when no further call arrives. */
  lemma NextStep(st: State) returns (step: Step)
    requires Invariant(st) && (st.queue != [] || st.done != {})
    ensures Enabled(st, step) && !step.Arrive?
    ensures GroupOk(After(st, step)) && After(st, step).requests == st.requests
    ensures var next := After(st, step);
      || |next.queue| < |st.queue|
      || (next.queue == st.queue && Stage(next) < Stage(st))
      || (next.queue == st.queue && Stage(next) == Stage(st) && next.done < st.done)
  {
    hide WrittenOk, FinishedOk, DurableOk, Takes;
    if st.group.Some? {
      var g := st.group.value;
      step := if !g.logged then AppendLog
              else if g.inserted then Finish
              else if g.synced || !st.requests[Head(st)].sync then Insert
              else SyncLog;
    } else if st.queue == [] {
      var id :| id in st.done;
      step := Return(id);
    } else if st.requests[st.queue[0]].batch.Some? {
      var count := GroupExists(QueueRequests(st));
      step := Lead(count);
    } else {
      step := LeadNull;
    }
    StepKeeps(st, step);
  }

  /** A run without further calls that ends with every call returned. */
  lemma {:induction false} AllReturn(st: State) returns (run: seq<Step>)
    requires Invariant(st)
    ensures forall step <- run :: !step.Arrive?
    ensures IsRun(st, run)
    ensures var end := Final(st, run);
      && end.requests == st.requests && end.queue == [] && end.done == {}
      && forall id :: id in end.returned <==> 0 <= id < |st.requests|
    decreases |st.queue|, Stage(st), st.done
  {
    hide WrittenOk, DurableOk, Enabled, After, IsRun, Final, GroupOk, Stage;
    if st.queue == [] && st.done == {} {
      run := [];
      Finished(st);
    } else {
      var step := NextStep(st);
      StepKeeps(st, step);
      var rest := AllReturn(After(st, step));
      NullWrites.Extends(st, step, rest);
      run := [step] + rest;
    }
  }

  lemma Finished(st: State)
    requires Invariant(st) && st.queue == [] && st.done == {}
    ensures IsRun(st, []) && Final(st, []) == st
    ensures forall id :: id in st.returned <==> 0 <= id < |st.requests|
  {
    hide WrittenOk, DurableOk, GroupOk;
  }
}
