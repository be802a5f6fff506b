/** The state of the store between its atomic steps and what all steps keep
    (db/db_impl.cc, db/version_set.cc). */
module Engine {
  import opened Keys
  import opened Files
  import opened View
  import opened Inputs
  import opened Compaction
  import opened DropRules

  datatype State = State(
    mem: set<Entry>,
    imm: Option<set<Entry>>,
    levels: seq<seq<File>>,
    lastSequence: SequenceNumber,
    snapshots: seq<SequenceNumber>,
    nextFile: nat)

  // ----- Contents -----

  ghost function Contents(files: seq<File>): set<Entry> {
    set f, e | f in files && e in f.entries :: e
  }

  ghost function AllContents(levels: seq<seq<File>>): set<Entry> {
    set l, f, e | 0 <= l < |levels| && f in levels[l] && e in f.entries :: e
  }

  ghost function Frozen(st: State): set<Entry> {
    if st.imm.Some? then st.imm.value else {}
  }

  ghost function Stored(st: State): set<Entry> {
    st.mem + Frozen(st) + AllContents(st.levels)
  }

  /** The oldest sequence number a new or live snapshot can have. */
  function SmallestSnapshot(st: State): SequenceNumber {
    if st.snapshots == [] then st.lastSequence else st.snapshots[0]
  }

  // ----- The shape of the state -----

  /** Shared user keys have strictly newer versions in `a`. */
  ghost predicate Newer(a: set<Entry>, b: set<Entry>) {
    forall x <- a, y <- b | x.key.user == y.key.user :: x.key.sequence > y.key.sequence
  }

  ghost predicate FileOk(f: File) {
    && f.entries != [] && Ascending(f.entries)
    && f.smallest == f.entries[0].key && f.largest == f.entries[|f.entries| - 1].key
  }

  /** The order in which a version lists the files of a level. */
  predicate BySmallest(f: File, g: File) {
    Less(f.smallest, g.smallest) || (f.smallest == g.smallest && f.number < g.number)
  }

  ghost predicate SortedBySmallest(files: seq<File>) {
    forall i, j | 0 <= i < j < |files| :: BySmallest(files[i], files[j])
  }

  /** Level-0 files with larger numbers are newer. */
  ghost predicate YoungerIsNewer(files: seq<File>) {
    forall f <- files, g <- files | f.number > g.number :: Newer(Elements(f.entries), Elements(g.entries))
  }

  ghost predicate UniqueNumbers(levels: seq<seq<File>>) {
    forall l, m | 0 <= l < |levels| && 0 <= m < |levels| ::
      forall f <- levels[l], g <- levels[m] | f.number == g.number :: l == m && f == g
  }

  ghost predicate LevelsOk(levels: seq<seq<File>>) {
    && |levels| == NUM_LEVELS
    && (forall l | 0 <= l < NUM_LEVELS :: forall f <- levels[l] :: FileOk(f))
    && (forall l | 0 < l < NUM_LEVELS :: SortedDisjoint(levels[l]))
    && YoungerIsNewer(levels[0])
    && UniqueNumbers(levels)
    && (forall l, m | 0 <= l < m < NUM_LEVELS :: Newer(Contents(levels[l]), Contents(levels[m])))
  }

  ghost predicate Layered(st: State) {
    && LevelsOk(st.levels)
    && Newer(st.mem, Frozen(st))
    && (forall l | 0 <= l < NUM_LEVELS :: Newer(st.mem, Contents(st.levels[l])) && Newer(Frozen(st), Contents(st.levels[l])))
    && (forall l | 0 <= l < NUM_LEVELS :: forall f <- st.levels[l] :: f.number < st.nextFile)
  }

  /** `written` is everything ever written; the state may have dropped entries
      of it, but no read at a live snapshot or later can tell. */
  ghost predicate ReadsAgree(st: State, written: set<Entry>) {
    forall user, s: SequenceNumber | SmallestSnapshot(st) <= s ::
      Read(Stored(st), user, s) == Read(written, user, s)
  }

  ghost predicate Invariant(st: State, written: set<Entry>) {
    && Layered(st)
    && Stored(st) <= written && OneVersion(written)
    && (forall e <- written :: e.key.sequence <= st.lastSequence)
    && st.lastSequence < MAX_SEQUENCE
    && (forall i, j | 0 <= i < j < |st.snapshots| :: st.snapshots[i] <= st.snapshots[j])
    && (forall s <- st.snapshots :: s <= st.lastSequence)
    && ReadsAgree(st, written)
  }
}
