/** What the reader delivers and reports from any file, damaged or not
    (db/log_reader.cc ReadRecord): exactly the whole runs of fragments, and every
    byte of the others is reported. */
module LogReads {
  import opened Keys
  import opened Crc
  import opened LogFormat

  /** The physical records from `p` on, up to the end of the file. */
  function Pieces(extend: Checksum, checked: bool, f: Bytes, p: nat): seq<Read>
    requires p <= |f|
    decreases |f| - p
  {
    var r := PhysicalAt(extend, checked, f, p);
    if r.kind == 5 then [] else [r] + Pieces(extend, checked, f, r.next)
  }

  // ----- The runs of fragments -----

  /** A full record, or a first fragment, middle fragments and a last one. */
  predicate Whole(ps: seq<Read>, i: nat, j: nat) {
    i <= j < |ps|
    && if i == j then ps[i].kind == 1
       else ps[i].kind == 2 && ps[j].kind == 4 && forall k | i < k < j :: ps[k].kind == 3
  }

  function Joined(ps: seq<Read>, i: nat, j: nat): Bytes
    requires i <= j <= |ps|
  {
    if i == j then [] else Joined(ps, i, j - 1) + ps[j - 1].data
  }

  /** The contents of the whole runs, in order of their ends. */
  ghost function WholeRuns(ps: seq<Read>, n: nat): seq<Bytes>
    requires n <= |ps|
  {
    if n == 0 then []
    else
      var last: nat := n - 1;
      WholeRuns(ps, last) + if exists i: nat :: Whole(ps, i, last) then var i: nat :| Whole(ps, i, last); [Joined(ps, i, n)] else []
  }

  /** A run that may still become whole. */
  predicate Open(ps: seq<Read>, i: nat, n: nat) {
    i < n <= |ps| && ps[i].kind == 2 && forall k | i < k < n :: ps[k].kind == 3
  }

  // ----- The loop of the reader -----

  datatype State = State(records: seq<Bytes>, drops: seq<nat>, inRecord: bool, scratch: Bytes)

  function Step(st: State, r: Read): State {
    match EffectOf(r.kind, r.data, st.inRecord, st.scratch)
    case Delivers(record, d) =>
      State(st.records + (if record.Some? then [record.value] else []), st.drops + r.drops + d, false, [])
    case Continues(inRecord, scratch, d) => State(st.records, st.drops + r.drops + d, inRecord, scratch)
  }

  function Run(st: State, ps: seq<Read>, n: nat): State
    requires n <= |ps|
  {
    if n == 0 then st else Step(Run(st, ps, n - 1), ps[n - 1])
  }

  lemma {:induction false} RunSplits(st: State, ps: seq<Read>, n: nat)
    requires 0 < n <= |ps|
    ensures Run(st, ps, n) == Run(Step(st, ps[0]), ps[1..], n - 1)
  {
    hide Step;
    if n > 1 {
      RunSplits(st, ps, n - 1);
    }
  }

  const START := State([], [], false, [])

  /** The records and drops of a log are those of the loop over its pieces. */
  ghost predicate LogIs(extend: Checksum, checked: bool, f: Bytes, p: nat, st: State, end: State)
    requires p <= |f|
  {
    var r := RecordAt(extend, checked, f, p, st.inRecord, st.scratch);
    if r.record.None? then end.records == st.records && end.drops == st.drops + r.drops
    else
      var rest := LogFrom(extend, checked, f, r.next);
      end.records == st.records + ([r.record.value] + rest.records) && end.drops == st.drops + (r.drops + rest.drops)
  }

  lemma {:induction false} LogIsRun(extend: Checksum, checked: bool, f: Bytes, p: nat, st: State)
    requires p <= |f|
    ensures
      var ps := Pieces(extend, checked, f, p);
      LogIs(extend, checked, f, p, st, Run(st, ps, |ps|))
    decreases |f| - p
  {
    hide PhysicalAt, EffectOf;
    var phys := PhysicalAt(extend, checked, f, p);
    if phys.kind == 5 {
      NothingMore(extend, checked, f, p, st);
    } else {
      var ps := Pieces(extend, checked, f, p);
      RunSplits(st, ps, |ps|);
      LogIsRun(extend, checked, f, phys.next, Step(st, phys));
      GoesOn(extend, checked, f, p, st, Run(st, ps, |ps|));
    }
  }

  lemma GoesOn(extend: Checksum, checked: bool, f: Bytes, p: nat, st: State, end: State)
    requires p <= |f| && PhysicalAt(extend, checked, f, p).kind != 5
    requires LogIs(extend, checked, f, PhysicalAt(extend, checked, f, p).next, Step(st, PhysicalAt(extend, checked, f, p)), end)
    ensures LogIs(extend, checked, f, p, st, end)
  {
    var phys := PhysicalAt(extend, checked, f, p);
    match EffectOf(phys.kind, phys.data, st.inRecord, st.scratch)
    case Delivers(record, d) =>
      Delivered(extend, checked, f, p, st, end, record, d);
    case Continues(inRecord, scratch, d) =>
      Continued(extend, checked, f, p, st, end, inRecord, scratch, d);
  }

  lemma Delivered(extend: Checksum, checked: bool, f: Bytes, p: nat, st: State, end: State, record: Option<Bytes>, d: seq<nat>)
    requires p <= |f| && PhysicalAt(extend, checked, f, p).kind != 5
    requires
      var phys := PhysicalAt(extend, checked, f, p);
      && EffectOf(phys.kind, phys.data, st.inRecord, st.scratch) == Delivers(record, d)
      && LogIs(extend, checked, f, phys.next, Step(st, phys), end)
    ensures LogIs(extend, checked, f, p, st, end)
  {
    var phys := PhysicalAt(extend, checked, f, p);
    AlwaysSome(phys.kind, phys.data, st.inRecord, st.scratch);
    EndsHere(extend, checked, f, p, st, record, d);
    hide PhysicalAt, EffectOf, RecordAt, LogFrom, LogIs;
    var log := LogFrom(extend, checked, f, phys.next);
    var next := State(st.records + [record.value], st.drops + phys.drops + d, false, []);
    Unfolded(extend, checked, f, phys.next, next, end);
    assert st.drops + (phys.drops + d) == next.drops;
    Folded(extend, checked, f, p, st, end, Record(record, phys.next, phys.drops + d), log);
  }

  lemma Folded(extend: Checksum, checked: bool, f: Bytes, p: nat, st: State, end: State, r: Record, log: Log)
    requires p <= |f| && RecordAt(extend, checked, f, p, st.inRecord, st.scratch) == r && r.record.Some?
    requires LogFrom(extend, checked, f, r.next) == log
    requires end.records == st.records + [r.record.value] + log.records && end.drops == st.drops + r.drops + log.drops
    ensures LogIs(extend, checked, f, p, st, end)
  {
    hide RecordAt, LogFrom;
    assert st.records + [r.record.value] + log.records == st.records + ([r.record.value] + log.records);
    assert st.drops + r.drops + log.drops == st.drops + (r.drops + log.drops);
  }

  lemma EndsHere(extend: Checksum, checked: bool, f: Bytes, p: nat, st: State, record: Option<Bytes>, d: seq<nat>)
    requires p <= |f|
    requires
      var phys := PhysicalAt(extend, checked, f, p);
      EffectOf(phys.kind, phys.data, st.inRecord, st.scratch) == Delivers(record, d)
    ensures
      var phys := PhysicalAt(extend, checked, f, p);
      RecordAt(extend, checked, f, p, st.inRecord, st.scratch) == Record(record, phys.next, phys.drops + d)
  {
    hide PhysicalAt, EffectOf;
  }

  lemma Unfolded(extend: Checksum, checked: bool, f: Bytes, p: nat, st: State, end: State)
    requires p <= |f| && !st.inRecord && st.scratch == [] && LogIs(extend, checked, f, p, st, end)
    ensures
      var log := LogFrom(extend, checked, f, p);
      end.records == st.records + log.records && end.drops == st.drops + log.drops
  {
    hide RecordAt;
    assert st.records + [] == st.records;
  }

  lemma AlwaysSome(kind: byte, data: Bytes, inRecord: bool, scratch: Bytes)
    requires kind != 5
    ensures var e := EffectOf(kind, data, inRecord, scratch); e.Delivers? ==> e.record.Some?
  {
  }

  lemma Continued(extend: Checksum, checked: bool, f: Bytes, p: nat, st: State, end: State, inRecord: bool, scratch: Bytes, d: seq<nat>)
    requires p <= |f|
    requires
      var phys := PhysicalAt(extend, checked, f, p);
      && phys.kind != 5
      && EffectOf(phys.kind, phys.data, st.inRecord, st.scratch) == Continues(inRecord, scratch, d)
      && LogIs(extend, checked, f, phys.next, Step(st, phys), end)
    ensures LogIs(extend, checked, f, p, st, end)
  {
    hide PhysicalAt, EffectOf;
    var phys := PhysicalAt(extend, checked, f, p);
    var rest := RecordAt(extend, checked, f, phys.next, inRecord, scratch);
    assert RecordAt(extend, checked, f, p, st.inRecord, st.scratch) == rest.(drops := phys.drops + d + rest.drops);
    var tail := if rest.record.None? then [] else LogFrom(extend, checked, f, rest.next).drops;
    assert st.drops + phys.drops + d + (rest.drops + tail) == st.drops + (phys.drops + d + rest.drops + tail);
    assert rest.drops + [] == rest.drops;
  }

  lemma NothingMore(extend: Checksum, checked: bool, f: Bytes, p: nat, st: State)
    requires p <= |f| && PhysicalAt(extend, checked, f, p).kind == 5
    ensures RecordAt(extend, checked, f, p, st.inRecord, st.scratch).record == None
    ensures RecordAt(extend, checked, f, p, st.inRecord, st.scratch).drops == []
  {
    AtTheEnd(extend, checked, f, p);
  }

  lemma AtTheEnd(extend: Checksum, checked: bool, f: Bytes, p: nat)
    requires p <= |f| && PhysicalAt(extend, checked, f, p).kind == 5
    ensures PhysicalAt(extend, checked, f, p).drops == []
  {
  }

  // ----- Exactly the whole runs are delivered -----

  ghost predicate OpenWith(ps: seq<Read>, i: nat, n: nat, scratch: Bytes) {
    i < n <= |ps| && Open(ps, i, n) && scratch == Joined(ps, i, n)
  }

  /** What the loop knows after `n` pieces. */
  ghost predicate RunIs(ps: seq<Read>, n: nat, st: State)
    requires n <= |ps|
  {
    && st.records == WholeRuns(ps, n)
    && (st.inRecord ==> exists i: nat :: OpenWith(ps, i, n, st.scratch))
    && (!st.inRecord ==> st.scratch == [] && forall i: nat :: !Open(ps, i, n))
  }

  lemma OpenNext(ps: seq<Read>, n: nat, m: nat, i: nat)
    requires n < |ps| && m == n + 1
    ensures Open(ps, i, m) <==> (if i == n then ps[n].kind == 2 else ps[n].kind == 3 && Open(ps, i, n))
    ensures Whole(ps, i, n) <==> (if i == n then ps[n].kind == 1 else ps[n].kind == 4 && Open(ps, i, n))
  {
    if Open(ps, i, m) && i < n {
      assert ps[n].kind == 3;
    }
  }

  lemma OpenStep(ps: seq<Read>, n: nat, m: nat)
    requires n < |ps| && m == n + 1
    ensures forall i: nat :: Open(ps, i, m) <==> (if i == n then ps[n].kind == 2 else ps[n].kind == 3 && Open(ps, i, n))
    ensures forall i: nat :: Whole(ps, i, n) <==> (if i == n then ps[n].kind == 1 else ps[n].kind == 4 && Open(ps, i, n))
  {
    hide Open, Whole;
    forall i: nat
      ensures Open(ps, i, m) <==> (if i == n then ps[n].kind == 2 else ps[n].kind == 3 && Open(ps, i, n))
      ensures Whole(ps, i, n) <==> (if i == n then ps[n].kind == 1 else ps[n].kind == 4 && Open(ps, i, n))
    {
      OpenNext(ps, n, m, i);
    }
  }

  lemma OneWhole(ps: seq<Read>, i: nat, j: nat, n: nat)
    requires Whole(ps, i, n) && Whole(ps, j, n)
    ensures i == j
  {
  }

  lemma WholeStep(ps: seq<Read>, n: nat, i: nat)
    requires n < |ps| && Whole(ps, i, n)
    ensures WholeRuns(ps, n + 1) == WholeRuns(ps, n) + [Joined(ps, i, n + 1)]
  {
    hide Whole, Joined;
    forall j: nat | Whole(ps, j, n) ensures j == i {
      OneWhole(ps, i, j, n);
    }
  }

  lemma NoWholeStep(ps: seq<Read>, n: nat)
    requires n < |ps| && forall i: nat :: !Whole(ps, i, n)
    ensures WholeRuns(ps, n + 1) == WholeRuns(ps, n)
  {
  }

  lemma JoinedNext(ps: seq<Read>, i: nat, n: nat)
    requires i <= n < |ps|
    ensures Joined(ps, i, n + 1) == Joined(ps, i, n) + ps[n].data
    ensures i == n ==> Joined(ps, i, n + 1) == ps[n].data
  {
  }

  lemma PieceTaken(ps: seq<Read>, n: nat, m: nat, st: State)
    requires n < |ps| && m == n + 1 && RunIs(ps, n, st) && ps[n].kind != 5
    ensures RunIs(ps, m, Step(st, ps[n]))
  {
    hide WholeRuns, Open, Whole, Joined;
    OpenStep(ps, n, m);
    if ps[n].kind == 1 {
      WholeStep(ps, n, n);
      JoinedNext(ps, n, n);
    } else if ps[n].kind == 4 && st.inRecord {
      var i: nat :| OpenWith(ps, i, n, st.scratch);
      JoinedNext(ps, i, n);
      WholeStep(ps, n, i);
    } else {
      NoWholeStep(ps, n);
      if ps[n].kind == 2 {
        JoinedNext(ps, n, n);
        assert OpenWith(ps, n, m, ps[n].data);
      } else if ps[n].kind == 3 && st.inRecord {
        var i: nat :| OpenWith(ps, i, n, st.scratch);
        JoinedNext(ps, i, n);
        assert OpenWith(ps, i, m, st.scratch + ps[n].data);
      }
    }
  }

  lemma {:induction false} PiecesGoOn(extend: Checksum, checked: bool, f: Bytes, p: nat)
    requires p <= |f|
    ensures forall r <- Pieces(extend, checked, f, p) :: r.kind != 5
    decreases |f| - p
  {
    hide PhysicalAt;
    var r := PhysicalAt(extend, checked, f, p);
    if r.kind != 5 {
      PiecesGoOn(extend, checked, f, r.next);
    }
  }

  lemma {:induction false} RunTakes(ps: seq<Read>, n: nat)
    requires n <= |ps| && forall r <- ps :: r.kind != 5
    ensures RunIs(ps, n, Run(START, ps, n))
  {
    if n > 0 {
      hide Step, RunIs;
      RunTakes(ps, n - 1);
      PieceTaken(ps, n - 1, n, Run(START, ps, n - 1));
    }
  }

  /** Main result: whatever the file holds, the records delivered are the whole
      runs of its pieces, in order. */
  lemma DeliversWholeRuns(extend: Checksum, checked: bool, f: Bytes, p: nat)
    requires p <= |f|
    ensures
      var ps := Pieces(extend, checked, f, p);
      LogFrom(extend, checked, f, p).records == WholeRuns(ps, |ps|)
  {
    hide Run, WholeRuns, Pieces;
    var ps := Pieces(extend, checked, f, p);
    LogIsRun(extend, checked, f, p, START);
    PiecesGoOn(extend, checked, f, p);
    RunTakes(ps, |ps|);
    Unfolded(extend, checked, f, p, START, Run(START, ps, |ps|));
    assert [] + LogFrom(extend, checked, f, p).records == LogFrom(extend, checked, f, p).records;
  }

  // ----- What is not delivered is reported -----

  function Sum(ns: seq<nat>): nat {
    if ns == [] then 0 else Sum(ns[..|ns| - 1]) + ns[|ns| - 1]
  }

  lemma {:induction false} SumConcat(a: seq<nat>, b: seq<nat>)
    ensures Sum(a + b) == Sum(a) + Sum(b)
  {
    if b == [] {
      assert a + b == a;
    } else {
      SumConcat(a, b[..|b| - 1]);
      assert (a + b)[..|a + b| - 1] == a + b[..|b| - 1];
    }
  }

  function Lengths(records: seq<Bytes>): nat {
    if records == [] then 0 else Lengths(records[..|records| - 1]) + |records[|records| - 1]|
  }

  /** The payload of the first `n` pieces, and what was reported when they were
      read; type 6 stands for a piece that is bad. */
  function Found(ps: seq<Read>, n: nat): nat
    requires n <= |ps|
  {
    if n == 0 then 0 else Found(ps, n - 1) + (if ps[n - 1].kind == 6 then 0 else |ps[n - 1].data|) + Sum(ps[n - 1].drops)
  }

  function Accounted(st: State): nat {
    Lengths(st.records) + Sum(st.drops) + |st.scratch|
  }

  lemma OneRecordMore(records: seq<Bytes>, record: Bytes)
    ensures Lengths(records + [record]) == Lengths(records) + |record|
    ensures Lengths(records + []) == Lengths(records)
  {
    assert (records + [record])[..|records|] == records;
    assert records + [] == records;
  }

  lemma EffectCounts(kind: byte, data: Bytes, inRecord: bool, scratch: Bytes)
    requires kind != 5 && (!inRecord ==> scratch == [])
    ensures
      var size := if kind == 6 then 0 else |data|;
      match EffectOf(kind, data, inRecord, scratch)
      case Delivers(record, d) => record.Some? && |record.value| + Sum(d) == |scratch| + size
      case Continues(inRecord1, scratch1, d) => |scratch1| + Sum(d) == |scratch| + size
  {
    OneSum(|scratch|);
    OneSum(|data|);
    OneSum(|data| + if inRecord then |scratch| else 0);
  }

  lemma OneSum(n: nat)
    ensures Sum([n]) == n && Sum([]) == 0
  {
    assert [n][..0] == [];
  }

  lemma StepCounts(st: State, r: Read)
    requires r.kind != 5 && (!st.inRecord ==> st.scratch == [])
    ensures Accounted(Step(st, r)) == Accounted(st) + (if r.kind == 6 then 0 else |r.data|) + Sum(r.drops)
  {
    EffectCounts(r.kind, r.data, st.inRecord, st.scratch);
    hide EffectOf, Sum, Lengths;
    SumConcat(st.drops, r.drops);
    match EffectOf(r.kind, r.data, st.inRecord, st.scratch)
    case Delivers(record, d) =>
      SumConcat(st.drops + r.drops, d);
      OneRecordMore(st.records, record.value);
      NothingLeft();
    case Continues(_, _, d) =>
      SumConcat(st.drops + r.drops, d);
  }

  lemma NothingLeft()
    ensures Sum([]) == 0
  {
  }

  lemma {:induction false} RunCounts(ps: seq<Read>, n: nat)
    requires n <= |ps| && forall r <- ps :: r.kind != 5
    ensures Accounted(Run(START, ps, n)) == Found(ps, n)
  {
    if n > 0 {
      hide Step, RunIs, Accounted;
      RunCounts(ps, n - 1);
      RunTakes(ps, n - 1);
      NotOpen(ps, n - 1, Run(START, ps, n - 1));
      StepCounts(Run(START, ps, n - 1), ps[n - 1]);
    }
  }

  lemma NotOpen(ps: seq<Read>, n: nat, st: State)
    requires n <= |ps| && RunIs(ps, n, st)
    ensures !st.inRecord ==> st.scratch == []
    ensures st.inRecord <==> exists i: nat :: Open(ps, i, n)
    ensures forall i: nat | Open(ps, i, n) :: st.scratch == Joined(ps, i, n)
  {
    hide Joined;
    forall i: nat, j: nat | Open(ps, i, n) && Open(ps, j, n) ensures i == j {
      OneOpen(ps, i, j, n);
    }
  }

  lemma OneOpen(ps: seq<Read>, i: nat, j: nat, n: nat)
    requires Open(ps, i, n) && Open(ps, j, n)
    ensures i == j
  {
  }

  /** Main result: every byte of payload is delivered or reported, but for those
      of a run that the file ends in, which are taken for a write that was cut short. */
  lemma AllIsAccountedFor(extend: Checksum, checked: bool, f: Bytes, p: nat)
    requires p <= |f|
    ensures
      var ps, log := Pieces(extend, checked, f, p), LogFrom(extend, checked, f, p);
      && (forall i: nat | Open(ps, i, |ps|) :: Lengths(log.records) + Sum(log.drops) + |Joined(ps, i, |ps|)| == Found(ps, |ps|))
      && ((forall i: nat :: !Open(ps, i, |ps|)) ==> Lengths(log.records) + Sum(log.drops) == Found(ps, |ps|))
  {
    hide Run, Pieces, LogFrom, Open, Joined, Found, Lengths, Sum, RunIs;
    var ps := Pieces(extend, checked, f, p);
    var log, end := LogFrom(extend, checked, f, p), Run(START, ps, |ps|);
    LogIsRun(extend, checked, f, p, START);
    PiecesGoOn(extend, checked, f, p);
    RunTakes(ps, |ps|);
    RunCounts(ps, |ps|);
    Unfolded(extend, checked, f, p, START, end);
    assert [] + log.records == log.records && [] + log.drops == log.drops;
    NotOpen(ps, |ps|, end);
  }
}
