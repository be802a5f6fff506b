/** Group commit (db/db_impl.cc Write and BuildBatchGroup): writers queue up,
    and the first in the queue writes for a group of them. Every section under
    the mutex is one step, and so is every action outside it. */
module WriteQueue {
  import opened Keys
  import opened WriteBatches

  /** One call of Write; a null batch only makes room. */
  datatype Request = Request(batch: Option<seq<Op>>, size: nat, sync: bool)

  function BatchOps(r: Request): seq<Op> {
    if r.batch.Some? then r.batch.value else []
  }

  /** The operations of the first `n` requests, in order of arrival. */
  function OpsOf(requests: seq<Request>, n: nat): seq<Op>
    requires n <= |requests|
  {
    if n == 0 then [] else OpsOf(requests, n - 1) + BatchOps(requests[n - 1])
  }

  function OpsFrom(requests: seq<Request>, from: nat, to: nat): seq<Op>
    requires from <= to <= |requests|
  {
    if from == to then [] else OpsFrom(requests, from, to - 1) + BatchOps(requests[to - 1])
  }

  // ----- Building a group -----

  const KB128: nat := 131072
  const MB: nat := 1048576

  function MaxSize(first: Request): nat {
    if first.size <= KB128 then first.size + KB128 else MB
  }

  function GroupSize(group: seq<Request>): nat {
    if group == [] then 0
    else
      var last := group[|group| - 1];
      GroupSize(group[..|group| - 1]) + if last.batch.Some? then last.size else 0
  }

  /** Whether the group takes the request after it. */
  predicate Takes(group: seq<Request>, next: Request)
    requires group != []
  {
    && (next.sync ==> group[0].sync)
    && (next.batch.Some? ==> GroupSize(group) + next.size <= MaxSize(group[0]))
  }

  /** The group is as large as the rules allow: every member after the first is
      taken by those before it, and the request after the last is not. */
  ghost predicate IsGroup(queue: seq<Request>, count: nat) {
    && 0 < count <= |queue|
    && (forall i | 0 < i < count :: Takes(queue[..i], queue[i]))
    && (count < |queue| ==> !Takes(queue[..count], queue[count]))
  }

  /** The bytes of all batches. */
  function BatchSizes(queue: seq<Request>): nat {
    if queue == [] then 0 else (if queue[0].batch.Some? then queue[0].size else 0) + BatchSizes(queue[1..])
  }

  lemma {:induction false} SizesAppend(queue: seq<Request>, r: Request)
    ensures BatchSizes(queue + [r]) == BatchSizes(queue) + if r.batch.Some? then r.size else 0
  {
    if queue == [] {
      assert [] + [r] == [r];
    } else {
      SizesAppend(queue[1..], r);
      assert (queue + [r])[1..] == queue[1..] + [r];
    }
  }

  lemma {:induction false} SizesAgree(group: seq<Request>)
    ensures GroupSize(group) == BatchSizes(group)
  {
    if group != [] {
      var front := group[..|group| - 1];
      SizesAgree(front);
      SizesAppend(front, group[|group| - 1]);
      assert group == front + [group[|group| - 1]];
    }
  }

  lemma {:induction false} SizesGrow(queue: seq<Request>, i: nat)
    requires i <= |queue|
    ensures BatchSizes(queue[..i]) <= BatchSizes(queue)
  {
    if i > 0 {
      SizesGrow(queue[1..], i - 1);
      assert queue[..i][1..] == queue[1..][..i - 1];
    }
  }

  lemma OneMoreSize(queue: seq<Request>, i: nat)
    requires i < |queue|
    ensures BatchSizes(queue[..i + 1]) == BatchSizes(queue[..i]) + if queue[i].batch.Some? then queue[i].size else 0
  {
    SizesAppend(queue[..i], queue[i]);
    assert queue[..i + 1] == queue[..i] + [queue[i]];
  }

  /** Taking a request in figures: 128 KB more than a small first batch, 1 MB
      for a large one; requests without a batch always fit. */
  lemma TakesExactly(queue: seq<Request>, i: nat)
    requires 0 < i < |queue| && queue[0].batch.Some?
    ensures Takes(queue[..i], queue[i]) <==>
      && (queue[i].sync ==> queue[0].sync)
      && (queue[i].batch.Some? ==>
            BatchSizes(queue[..i + 1]) <= if queue[0].size <= 131072 then queue[0].size + 131072 else 1048576)
  {
    SizesAgree(queue[..i]);
    OneMoreSize(queue, i);
  }

  /** Who rides: everyone up to the first request that asks for a sync the
      leader does not do, or whose batch would make the group too large. */
  lemma GroupExactly(queue: seq<Request>, count: nat)
    requires queue != [] && queue[0].batch.Some?
    ensures IsGroup(queue, count) <==>
      var limit := if queue[0].size <= 131072 then queue[0].size + 131072 else 1048576;
      && 0 < count <= |queue|
      && (forall i | 0 < i < count :: queue[i].sync ==> queue[0].sync)
      && (forall i | 0 < i < count :: queue[i].batch.Some? ==> BatchSizes(queue[..i + 1]) <= limit)
      && (count < |queue| ==>
            || (queue[count].sync && !queue[0].sync)
            || (queue[count].batch.Some? && BatchSizes(queue[..count + 1]) > limit))
  {
    hide Takes, BatchSizes;
    forall i {:trigger queue[i]} | 0 < i < |queue|
      ensures Takes(queue[..i], queue[i]) <==>
        && (queue[i].sync ==> queue[0].sync)
        && (queue[i].batch.Some? ==>
              BatchSizes(queue[..i + 1]) <= if queue[0].size <= 131072 then queue[0].size + 131072 else 1048576)
    {
      TakesExactly(queue, i);
    }
  }

  /** A queue that needs no sync its leader does not do, and whose batches fit, goes as one group. */
  lemma AllRide(queue: seq<Request>, count: nat)
    requires queue != [] && queue[0].batch.Some? && IsGroup(queue, count)
    requires forall i | 0 < i < |queue| :: queue[i].sync ==> queue[0].sync
    requires BatchSizes(queue) <= if queue[0].size <= 131072 then queue[0].size + 131072 else 1048576
    ensures count == |queue|
  {
    hide IsGroup;
    GroupExactly(queue, count);
    if count < |queue| {
      SizesGrow(queue, count + 1);
    }
  }

  method BuildBatchGroup(queue: seq<Request>) returns (count: nat, ops: seq<Op>)
    requires queue != [] && queue[0].batch.Some?
    ensures IsGroup(queue, count) && ops == OpsFrom(queue, 0, count)
    ensures
      var limit := if queue[0].size <= 131072 then queue[0].size + 131072 else 1048576;
      && (forall i | 0 < i < count :: queue[i].sync ==> queue[0].sync)
      && (forall i | 0 < i < count :: queue[i].batch.Some? ==> BatchSizes(queue[..i + 1]) <= limit)
      && (count < |queue| ==>
            || (queue[count].sync && !queue[0].sync)
            || (queue[count].batch.Some? && BatchSizes(queue[..count + 1]) > limit))
    ensures
      && (forall i | 0 < i < |queue| :: queue[i].sync ==> queue[0].sync)
      && BatchSizes(queue) <= (if queue[0].size <= 131072 then queue[0].size + 131072 else 1048576)
      ==> count == |queue|
  {
    count, ops := GatherGroup(queue);
    GroupExactly(queue, count);
    if (forall i | 0 < i < |queue| :: queue[i].sync ==> queue[0].sync)
      && BatchSizes(queue) <= (if queue[0].size <= 131072 then queue[0].size + 131072 else 1048576) {
      AllRide(queue, count);
    }
  }

  /** The loop over the writers waiting. */
  method GatherGroup(queue: seq<Request>) returns (count: nat, ops: seq<Op>)
    requires queue != [] && queue[0].batch.Some?
    ensures IsGroup(queue, count) && ops == OpsFrom(queue, 0, count)
  {
    var first := queue[0];
    var size := first.size;
    var maxSize := MaxSize(first);
    ops := first.batch.value;
    count := 1;
    FirstOnly(queue);
    while count < |queue|
      invariant 0 < count <= |queue| && size == GroupSize(queue[..count])
      invariant ops == OpsFrom(queue, 0, count)
      invariant forall i | 0 < i < count :: Takes(queue[..i], queue[i])
      invariant queue[..count][0] == first
    {
      var w := queue[count];
      if w.sync && !first.sync {
        return;
      }
      assert queue[..count + 1][..count] == queue[..count];
      if w.batch.Some? {
        size := size + w.size;
        if size > maxSize {
          return;
        }
        ops := ops + w.batch.value;
      }
      count := count + 1;
    }
  }

  lemma FirstOnly(queue: seq<Request>)
    requires queue != []
    ensures queue[..1][0] == queue[0] && GroupSize(queue[..1]) == if queue[0].batch.Some? then queue[0].size else 0
    ensures OpsFrom(queue, 0, 1) == BatchOps(queue[0])
  {
    assert queue[..1][..0] == [];
    assert GroupSize(queue[..1]) == GroupSize([]) + if queue[0].batch.Some? then queue[0].size else 0;
    assert OpsFrom(queue, 0, 1) == OpsFrom(queue, 0, 0) + BatchOps(queue[0]);
  }

  /** No sync request rides in the group of a leader that does not sync. */
  lemma SyncLeads(queue: seq<Request>, count: nat, i: nat)
    requires IsGroup(queue, count) && i < count && queue[i].sync
    ensures queue[0].sync
  {
    if i > 0 {
      assert Takes(queue[..i], queue[i]) && queue[..i][0] == queue[0];
    }
  }

  // ----- The protocol -----

  datatype Record = Record(base: nat, ops: seq<Op>)

  /** What the leader has done for its group so far. */
  datatype Group = Group(count: nat, base: nat, ops: seq<Op>, logged: bool, synced: bool, inserted: bool)

  datatype State = State(
    requests: seq<Request>,  // every call so far, in order of arrival
    queue: seq<nat>,         // the calls waiting, leader first
    returned: set<nat>,
    done: set<nat>,          // calls another writer has completed
    group: Option<Group>,
    log: seq<Record>,
    syncedTo: nat,           // how many records are known to be on disk
    mem: seq<Numbered>,
    lastSequence: nat)

  datatype Step =
    | Arrive(request: Request)
    | Lead(count: nat)
    | AppendLog
    | SyncLog
    | Insert
    | Finish
    | LeadNull
    | Return(id: nat)

  /** How many requests have left the queue. */
  function Head(st: State): int {
    |st.requests| - |st.queue|
  }

  /** The queue holds the latest requests. */
  predicate QueueOk(st: State) {
    |st.queue| <= |st.requests| && forall i | 0 <= i < |st.queue| :: st.queue[i] == Head(st) + i
  }

  function QueueRequests(st: State): seq<Request>
    requires QueueOk(st)
  {
    seq(|st.queue|, i requires 0 <= i < |st.queue| => st.requests[st.queue[i]])
  }

  function LogOps(log: seq<Record>): seq<Op> {
    if log == [] then [] else LogOps(log[..|log| - 1]) + log[|log| - 1].ops
  }

  /** The numbers of the records are contiguous and disjoint. */
  ghost predicate RangesOk(log: seq<Record>) {
    forall j | 0 <= j < |log| :: log[j].base == 1 + |LogOps(log[..j])|
  }

  ghost predicate GroupOk(st: State) {
    QueueOk(st) &&
    match st.group
    case None => true
    case Some(g) =>
      && 0 < g.count <= |st.queue| && st.requests[Head(st)].batch.Some?
      && g.base == st.lastSequence + 1 && g.ops == OpsFrom(st.requests, Head(st), Head(st) + g.count)
      && (forall id | Head(st) <= id < Head(st) + g.count && st.requests[id].sync :: st.requests[Head(st)].sync)
      && (g.inserted || g.synced ==> g.logged) && (g.synced ==> st.syncedTo == |st.log|)
      && (g.inserted && st.requests[Head(st)].sync ==> g.synced)
  }

  /** How many requests are in the log, and in the memtable. */
  function LoggedTo(st: State): int {
    Head(st) + if st.group.Some? && st.group.value.logged then st.group.value.count else 0
  }

  function InMemoryTo(st: State): int {
    Head(st) + if st.group.Some? && st.group.value.inserted then st.group.value.count else 0
  }

  /** The log and the memtable hold the operations of the requests so far, in
      order of arrival, each once. */
  ghost predicate WrittenOk(st: State)
    requires GroupOk(st)
  {
    && st.lastSequence == |OpsOf(st.requests, Head(st))|
    && LogOps(st.log) == OpsOf(st.requests, LoggedTo(st)) && RangesOk(st.log)
    && st.mem == Number(OpsOf(st.requests, InMemoryTo(st)), 1)
  }

  /** The calls that have left the queue are those completed. */
  ghost predicate FinishedOk(st: State) {
    forall id :: id in st.returned || id in st.done <==> 0 <= id < Head(st)
  }

  /** The operations of completed calls that asked for it are on disk. */
  ghost predicate DurableOk(st: State)
    requires QueueOk(st)
  {
    && st.syncedTo <= |st.log|
    && forall id | 0 <= id < Head(st) && st.requests[id].sync && st.requests[id].batch.Some? ::
         |OpsOf(st.requests, id + 1)| <= |LogOps(st.log[..st.syncedTo])|
  }

  ghost predicate Invariant(st: State) {
    GroupOk(st) && WrittenOk(st) && FinishedOk(st) && DurableOk(st)
  }

  /** A leader that syncs does so before it applies the group. */
  ghost predicate Enabled(st: State, step: Step)
    requires QueueOk(st)
  {
    match step
    case Arrive(request) => true
    case Lead(count) =>
      && st.group.None? && st.queue != [] && st.requests[st.queue[0]].batch.Some?
      && IsGroup(QueueRequests(st), count)
    case AppendLog => st.group.Some? && !st.group.value.logged
    case SyncLog => st.group.Some? && st.group.value.logged && !st.group.value.inserted
    case Insert =>
      && st.group.Some? && st.group.value.logged && !st.group.value.inserted && st.queue != []
      && (st.requests[st.queue[0]].sync ==> st.group.value.synced)
    case Finish => st.group.Some? && st.group.value.inserted
    case LeadNull => st.group.None? && st.queue != [] && st.requests[st.queue[0]].batch.None?
    case Return(id) => id in st.done
  }

  function After(st: State, step: Step): State
    requires GroupOk(st) && Enabled(st, step)
  {
    match step
    case Arrive(request) => st.(requests := st.requests + [request], queue := st.queue + [|st.requests|])
    case Lead(count) =>
      st.(group := Some(Group(count, st.lastSequence + 1, OpsFrom(QueueRequests(st), 0, count), false, false, false)))
    case AppendLog =>
      var g := st.group.value;
      st.(log := st.log + [Record(g.base, g.ops)], group := Some(g.(logged := true)))
    case SyncLog => st.(syncedTo := |st.log|, group := Some(st.group.value.(synced := true)))
    case Insert =>
      var g := st.group.value;
      st.(mem := st.mem + Number(g.ops, g.base), group := Some(g.(inserted := true)))
    case Finish =>
      var g := st.group.value;
      st.(lastSequence := st.lastSequence + |g.ops|, group := None, queue := st.queue[g.count..],
          returned := st.returned + {st.queue[0]}, done := st.done + set i | 0 < i < g.count :: st.queue[i])
    case LeadNull => st.(queue := st.queue[1..], returned := st.returned + {st.queue[0]})
    case Return(id) => st.(done := st.done - {id}, returned := st.returned + {id})
  }

  const INITIAL := State([], [], {}, {}, None, [], 0, [], 0)

  // ----- Operations of requests -----

  lemma {:induction false} OpsGrow(requests: seq<Request>, r: Request, n: nat)
    requires n <= |requests|
    ensures OpsOf(requests + [r], n) == OpsOf(requests, n)
  {
    if n > 0 {
      OpsGrow(requests, r, n - 1);
    }
  }

  lemma {:induction false} OpsFromGrow(requests: seq<Request>, r: Request, from: nat, to: nat)
    requires from <= to <= |requests|
    ensures OpsFrom(requests + [r], from, to) == OpsFrom(requests, from, to)
  {
    if from < to {
      OpsFromGrow(requests, r, from, to - 1);
    }
  }

  lemma {:induction false} OpsSplit(requests: seq<Request>, a: nat, b: nat)
    requires a <= b <= |requests|
    ensures OpsOf(requests, a) + OpsFrom(requests, a, b) == OpsOf(requests, b)
  {
    if a < b {
      OpsSplit(requests, a, b - 1);
    }
  }

  lemma {:induction false} OpsPrefix(requests: seq<Request>, a: nat, b: nat)
    requires a <= b <= |requests|
    ensures OpsOf(requests, a) <= OpsOf(requests, b)
  {
    OpsSplit(requests, a, b);
  }

  lemma {:induction false} OpsOfQueue(st: State, n: nat)
    requires QueueOk(st) && n <= |st.queue|
    ensures OpsFrom(QueueRequests(st), 0, n) == OpsFrom(st.requests, Head(st), Head(st) + n)
  {
    if n > 0 {
      OpsOfQueue(st, n - 1);
    }
  }

  lemma LogGrows(log: seq<Record>, r: Record)
    requires RangesOk(log) && r.base == 1 + |LogOps(log)|
    ensures LogOps(log + [r]) == LogOps(log) + r.ops && RangesOk(log + [r])
    ensures forall n | 0 <= n <= |log| :: (log + [r])[..n] == log[..n]
  {
    assert (log + [r])[..|log|] == log;
    assert forall n | 0 <= n <= |log| :: (log + [r])[..n] == log[..n];
  }

  // ----- Every step keeps the invariant -----

  lemma StepKeeps(st: State, step: Step)
    requires Invariant(st) && Enabled(st, step)
    ensures Invariant(After(st, step))
  {
    hide Invariant, GroupOk, WrittenOk, DurableOk, FinishedOk, Enabled, After;
    match step
    case Arrive(request) => ArriveKeeps(st, request);
    case Lead(count) => LeadKeeps(st, count);
    case AppendLog => AppendLogKeeps(st);
    case SyncLog => SyncLogKeeps(st);
    case Insert => InsertKeeps(st);
    case Finish => FinishKeeps(st);
    case LeadNull => LeadNullKeeps(st);
    case Return(id) => ReturnKeeps(st, id);
  }

  lemma ReturnKeeps(st: State, id: nat)
    requires Invariant(st) && Enabled(st, Return(id))
    ensures Invariant(After(st, Return(id)))
  {
    hide OpsOf, OpsFrom, LogOps, RangesOk;
  }

  lemma ArriveKeeps(st: State, request: Request)
    requires Invariant(st)
    ensures Invariant(After(st, Arrive(request)))
  {
    hide OpsOf, OpsFrom, LogOps, RangesOk;
    var st1 := After(st, Arrive(request));
    if st.group.Some? {
      OpsFromGrow(st.requests, request, Head(st), Head(st) + st.group.value.count);
    }
    assert GroupOk(st1);
    OpsGrow(st.requests, request, Head(st));
    OpsGrow(st.requests, request, LoggedTo(st));
    OpsGrow(st.requests, request, InMemoryTo(st));
    assert WrittenOk(st1);
    forall id | 0 <= id < Head(st) && st.requests[id].sync
      ensures OpsOf(st1.requests, id + 1) == OpsOf(st.requests, id + 1)
    {
      OpsGrow(st.requests, request, id + 1);
    }
    assert DurableOk(st1);
  }

  lemma LeadKeeps(st: State, count: nat)
    requires Invariant(st) && Enabled(st, Lead(count))
    ensures Invariant(After(st, Lead(count)))
  {
    hide OpsOf, OpsFrom, LogOps, IsGroup;
    var queue := QueueRequests(st);
    IsGroupBounds(queue, count);
    OpsOfQueue(st, count);
    forall id | Head(st) <= id < Head(st) + count && st.requests[id].sync ensures st.requests[Head(st)].sync {
      assert queue[id - Head(st)] == st.requests[id] && queue[0] == st.requests[Head(st)];
      SyncLeads(queue, count, id - Head(st));
    }
  }

  lemma IsGroupBounds(queue: seq<Request>, count: nat)
    requires IsGroup(queue, count)
    ensures 0 < count <= |queue|
  {
  }

  lemma AppendLogKeeps(st: State)
    requires Invariant(st) && Enabled(st, AppendLog)
    ensures Invariant(After(st, AppendLog))
  {
    hide OpsOf, OpsFrom, LogOps, RangesOk;
    var g := st.group.value;
    OpsSplit(st.requests, Head(st), Head(st) + g.count);
    LogGrows(st.log, Record(g.base, g.ops));
    var st1 := After(st, AppendLog);
    assert st1.log[..st.syncedTo] == st.log[..st.syncedTo];
    assert GroupOk(st1);
    assert WrittenOk(st1);
    assert DurableOk(st1);
  }

  lemma SyncLogKeeps(st: State)
    requires Invariant(st) && Enabled(st, SyncLog)
    ensures Invariant(After(st, SyncLog))
  {
    hide OpsOf, OpsFrom, LogOps, RangesOk;
    assert st.log[..|st.log|] == st.log;
    var st1 := After(st, SyncLog);
    forall id | 0 <= id < Head(st) && st.requests[id].sync ensures |OpsOf(st.requests, id + 1)| <= |LogOps(st.log)| {
      OpsPrefix(st.requests, id + 1, LoggedTo(st));
    }
    assert GroupOk(st1) && WrittenOk(st1) && FinishedOk(st1);
    assert DurableOk(st1);
  }

  lemma InsertKeeps(st: State)
    requires Invariant(st) && Enabled(st, Insert)
    ensures Invariant(After(st, Insert))
  {
    hide OpsOf, OpsFrom, LogOps, RangesOk;
    var g := st.group.value;
    OpsSplit(st.requests, Head(st), Head(st) + g.count);
    assert Number(OpsOf(st.requests, Head(st)), 1) + Number(g.ops, g.base) == Number(OpsOf(st.requests, Head(st)) + g.ops, 1);
    var st1 := After(st, Insert);
    assert GroupOk(st1);
    assert WrittenOk(st1);
    assert DurableOk(st1);
  }

  lemma FinishKeeps(st: State)
    requires Invariant(st) && Enabled(st, Finish)
    ensures Invariant(After(st, Finish))
  {
    hide OpsOf, OpsFrom, LogOps, RangesOk;
    var g, st1 := st.group.value, After(st, Finish);
    OpsSplit(st.requests, Head(st), Head(st) + g.count);
    assert Head(st1) == Head(st) + g.count;
    forall id ensures id in st1.returned || id in st1.done <==> 0 <= id < Head(st1) {
      assert Head(st) < id < Head(st1) ==> id == st.queue[id - Head(st)];
    }
    assert st.log[..|st.log|] == st.log;
    forall id | Head(st) <= id < Head(st1) && st.requests[id].sync
      ensures |OpsOf(st.requests, id + 1)| <= |LogOps(st.log[..st.syncedTo])|
    {
      assert st.requests[Head(st)].sync;
      OpsPrefix(st.requests, id + 1, Head(st1));
    }
  }

  lemma LeadNullKeeps(st: State)
    requires Invariant(st) && Enabled(st, LeadNull)
    ensures Invariant(After(st, LeadNull))
  {
    hide LogOps, RangesOk;
  }

  // ----- All interleavings -----

  /** Any interleaving of enabled steps, from a state that meets the invariant:
      `StepKeeps` makes the next one meaningful. */
  ghost predicate IsRun(st: State, run: seq<Step>)
    requires Invariant(st)
    decreases |run|
  {
    run != [] ==> Enabled(st, run[0]) && (StepKeeps(st, run[0]); IsRun(After(st, run[0]), run[1..]))
  }

  ghost function Final(st: State, run: seq<Step>): State
    requires Invariant(st) && IsRun(st, run)
    decreases |run|
  {
    if run == [] then st
    else
      StepKeeps(st, run[0]);
      Final(After(st, run[0]), run[1..])
  }

  lemma InitiallyHolds()
    ensures Invariant(INITIAL)
  {
  }

  lemma {:induction false} RunKeeps(st: State, run: seq<Step>)
    requires Invariant(st) && IsRun(st, run)
    ensures Invariant(Final(st, run))
    decreases |run|
  {
    hide WrittenOk, FinishedOk, DurableOk, Enabled, After;
    if run != [] {
      StepKeeps(st, run[0]);
      RunKeeps(After(st, run[0]), run[1..]);
    }
  }

  /** A call that has returned: its operations are in the log and in the
      memtable, after those of all earlier calls, with consecutive numbers; and
      if it asked for it, they are on disk. */
  ghost predicate Committed(st: State, id: nat)
    requires id < |st.requests|
  {
    var ops, before := BatchOps(st.requests[id]), |OpsOf(st.requests, id)|;
    && before + |ops| <= |LogOps(st.log)| && before + |ops| <= |st.mem|
    && LogOps(st.log)[before..before + |ops|] == ops
    && st.mem[before..before + |ops|] == Number(ops, before + 1)
    && st.syncedTo <= |st.log|
    && (st.requests[id].sync && st.requests[id].batch.Some? ==> before + |ops| <= |LogOps(st.log[..st.syncedTo])|)
  }

  lemma OpsOfPart(requests: seq<Request>, id: nat, n: nat)
    requires id < n <= |requests|
    ensures
      var ops, before, all := BatchOps(requests[id]), |OpsOf(requests, id)|, OpsOf(requests, n);
      && before + |ops| <= |all| && all[before..before + |ops|] == ops
      && Number(all, 1)[before..before + |ops|] == Number(ops, before + 1)
      && |OpsOf(requests, id + 1)| == before + |ops|
  {
    hide OpsFrom, Number;
    OpsPrefix(requests, id + 1, n);
    assert OpsOf(requests, id + 1) == OpsOf(requests, id) + BatchOps(requests[id]);
    hide OpsOf;
    MiddlePart(OpsOf(requests, id), BatchOps(requests[id]), OpsOf(requests, n));
  }

  lemma MiddlePart(before: seq<Op>, ops: seq<Op>, all: seq<Op>)
    requires before + ops <= all
    ensures |before| + |ops| <= |all| && all[|before|..|before| + |ops|] == ops
    ensures Number(all, 1)[|before|..|before| + |ops|] == Number(ops, |before| + 1)
  {
    var whole := before + ops;
    assert forall i | 0 <= i < |ops| :: all[|before| + i] == whole[|before| + i] == ops[i];
  }

  /** Main result: in every interleaving, the log holds the batches of the calls
      in order of arrival, each once, its records' numbers are contiguous, the
      memtable holds the same operations with the same numbers, and a call
      returns only after its batch is in both. */
  lemma GroupsCommitInOrder(run: seq<Step>)
    requires IsRun(INITIAL, run)
    ensures InOrder(Final(INITIAL, run))
    ensures var st := Final(INITIAL, run);
      forall id | id in st.returned || id in st.done :: id < |st.requests| && Committed(st, id)
  {
    hide Final, Committed, InOrder;
    RunKeeps(INITIAL, run);
    var st := Final(INITIAL, run);
    OrderFollows(st);
    forall id | id in st.returned || id in st.done ensures id < |st.requests| && Committed(st, id) {
      CommitFollows(st, id);
    }
  }

  ghost predicate InOrder(st: State) {
    && 0 <= LoggedTo(st) <= |st.requests| && LogOps(st.log) == OpsOf(st.requests, LoggedTo(st)) && RangesOk(st.log)
    && st.mem <= Number(LogOps(st.log), 1)
  }

  lemma OrderFollows(st: State)
    requires Invariant(st)
    ensures InOrder(st)
  {
    hide OpsOf, OpsFrom, LogOps, RangesOk, Number;
    OpsPrefix(st.requests, InMemoryTo(st), LoggedTo(st));
    NumberPrefix(OpsOf(st.requests, InMemoryTo(st)), LogOps(st.log));
  }

  lemma NumberPrefix(a: seq<Op>, b: seq<Op>)
    requires a <= b
    ensures Number(a, 1) <= Number(b, 1)
  {
  }

  lemma CommitFollows(st: State, id: nat)
    requires Invariant(st) && (id in st.returned || id in st.done)
    ensures id < |st.requests| && Committed(st, id)
  {
    hide OpsOf, OpsFrom, LogOps, RangesOk, Number;
    OpsOfPart(st.requests, id, LoggedTo(st));
    OpsOfPart(st.requests, id, InMemoryTo(st));
  }
}
