/** The atomic steps of the store (db/db_impl.cc). */
module Steps {
  import opened Keys
  import opened Files
  import opened View
  import opened Inputs
  import opened Compaction
  import opened DropRules
  import opened Engine

  datatype Op = Put(user: UserKey, value: Bytes) | Delete(user: UserKey)

  function OpEntry(op: Op, sequence: SequenceNumber): Entry {
    match op
    case Put(user, value) => Entry(InternalKey(user, sequence, Value), value)
    case Delete(user) => Entry(InternalKey(user, sequence, Deletion), [])
  }

  /** The entries of a batch whose first operation has number `base + 1`. */
  ghost function BatchEntries(ops: seq<Op>, base: SequenceNumber): set<Entry>
    requires base + |ops| <= MAX_SEQUENCE
  {
    set i | 0 <= i < |ops| :: OpEntry(ops[i], base + 1 + i)
  }

  ghost function Numbers(files: seq<File>): set<nat> {
    set f <- files :: f.number
  }

  /** The file list of a level after an edit. */
  ghost predicate IsEdited(files: seq<File>, gone: set<nat>, added: seq<File>, r: seq<File>) {
    && SortedBySmallest(r)
    && forall f :: f in r <==> (f in files && f.number !in gone) || f in added
  }

  ghost predicate IsTable(f: File, entries: set<Entry>) {
    FileOk(f) && Elements(f.entries) == entries
  }

  datatype Step =
    | Write(ops: seq<Op>)
    | Rotate
    | Flush(table: Option<File>, level: nat, files: seq<File>)
    | TrivialMove(level: nat, file: File, files: seq<File>, nextFiles: seq<File>)
    | Compact(level: nat, chosen: seq<File>, parents: seq<File>, input: seq<Entry>, outputs: seq<File>,
              files: seq<File>, nextFiles: seq<File>, nextFile: nat)
    | TakeSnapshot
    | ReleaseSnapshot(index: nat)

  // ----- Guards: what holds when the code takes the step -----

  ghost predicate FlushGuard(st: State, table: Option<File>, level: nat, files: seq<File>)
    requires |st.levels| == NUM_LEVELS
  {
    && st.imm.Some? && level <= MAX_MEM_COMPACT_LEVEL
    && match table
       case None => st.imm.value == {}
       case Some(f) =>
         && IsTable(f, st.imm.value) && f.number == st.nextFile
         && (level > 0 ==> forall l | 0 <= l <= level :: NoOverlap(st.levels[l], f.smallest.user, f.largest.user))
         && IsEdited(st.levels[level], {}, [f], files)
  }

  /** Inputs as `SetupOtherInputs` delivers them. */
  ghost predicate InputsOk(st: State, level: nat, chosen: seq<File>, parents: seq<File>)
    requires |st.levels| == NUM_LEVELS
  {
    && level + 1 < NUM_LEVELS
    && chosen != [] && Distinct(chosen) && AllIn(chosen, st.levels[level])
    && InputsClosed(level, st.levels[level], chosen)
    && PicksParents(st.levels[level + 1], chosen, parents)
  }

  /** The condition under which the drop rules are safe: no file of the next
      level that stays behind continues the user key of a parent. */
  ghost predicate ParentsClosed(st: State, level: nat, parents: seq<File>)
    requires level + 1 < NUM_LEVELS == |st.levels|
  {
    InputsClosed(level + 1, st.levels[level + 1], parents)
  }

  ghost predicate TrivialMoveGuard(st: State, level: nat, file: File, files: seq<File>, nextFiles: seq<File>)
    requires |st.levels| == NUM_LEVELS
  {
    && InputsOk(st, level, [file], [])
    && IsEdited(st.levels[level], {file.number}, [], files)
    && IsEdited(st.levels[level + 1], {}, [file], nextFiles)
  }

  ghost predicate OutputsOk(outputs: seq<File>, entries: seq<Entry>, firstNumber: nat, nextNumber: nat) {
    && Concat(Tables(outputs)) == entries
    && (forall f <- outputs :: FileOk(f) && firstNumber <= f.number < nextNumber)
    && (forall i, j | 0 <= i < j < |outputs| :: outputs[i].number < outputs[j].number)
  }

  ghost function Tables(files: seq<File>): seq<seq<Entry>> {
    seq(|files|, i requires 0 <= i < |files| => files[i].entries)
  }

  ghost function MergeOf(st: State, level: nat, input: seq<Entry>): Merge {
    Merge(input, SmallestSnapshot(st), level, st.levels)
  }

  ghost predicate CompactGuard(st: State, level: nat, chosen: seq<File>, parents: seq<File>, input: seq<Entry>,
                               outputs: seq<File>, files: seq<File>, nextFiles: seq<File>, nextFile: nat)
    requires |st.levels| == NUM_LEVELS
  {
    && InputsOk(st, level, chosen, parents)
    && Ascending(input) && Elements(input) == Contents(chosen) + Contents(parents)
    && st.nextFile <= nextFile
    && OutputsOk(outputs, MergeOf(st, level, input).Output(), st.nextFile, nextFile)
    && IsEdited(st.levels[level], Numbers(chosen), [], files)
    && IsEdited(st.levels[level + 1], Numbers(parents), outputs, nextFiles)
  }

  ghost predicate Enabled(st: State, step: Step) {
    |st.levels| == NUM_LEVELS &&
    match step
    case Write(ops) => st.lastSequence + |ops| < MAX_SEQUENCE
    case Rotate => st.imm.None?
    case Flush(table, level, files) => FlushGuard(st, table, level, files)
    case TrivialMove(level, file, files, nextFiles) => TrivialMoveGuard(st, level, file, files, nextFiles)
    case Compact(level, chosen, parents, input, outputs, files, nextFiles, nextFile) =>
      && CompactGuard(st, level, chosen, parents, input, outputs, files, nextFiles, nextFile)
      && ParentsClosed(st, level, parents)
    case TakeSnapshot => true
    case ReleaseSnapshot(index) => index < |st.snapshots|
  }

  // ----- Effects -----

  ghost function After(st: State, step: Step): State
    requires Enabled(st, step)
  {
    match step
    case Write(ops) =>
      st.(mem := st.mem + BatchEntries(ops, st.lastSequence), lastSequence := st.lastSequence + |ops|)
    case Rotate => st.(mem := {}, imm := Some(st.mem))
    case Flush(table, level, files) =>
      if table.None? then st.(imm := None, nextFile := st.nextFile + 1)
      else st.(imm := None, levels := st.levels[level := files], nextFile := st.nextFile + 1)
    case TrivialMove(level, file, files, nextFiles) =>
      st.(levels := st.levels[level := files][level + 1 := nextFiles])
    case Compact(level, chosen, parents, input, outputs, files, nextFiles, nextFile) =>
      st.(levels := st.levels[level := files][level + 1 := nextFiles], nextFile := nextFile)
    case TakeSnapshot => st.(snapshots := st.snapshots + [st.lastSequence])
    case ReleaseSnapshot(index) => st.(snapshots := st.snapshots[..index] + st.snapshots[index + 1..])
  }

  /** What the specification gains by a step. */
  ghost function WrittenAfter(st: State, step: Step, written: set<Entry>): set<Entry>
    requires Enabled(st, step)
  {
    match step
    case Write(ops) => written + BatchEntries(ops, st.lastSequence)
    case _ => written
  }

  const INITIAL := State({}, None, [[], [], [], [], [], [], []], 0, [], 2)
}
