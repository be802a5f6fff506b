/** The skip list (db/skiplist.h) with one writer and any number of readers,
    every load and store of a pointer being one step. */
module SkipLists {
  const MAX_HEIGHT: nat := 12

  type Key = real

  /** Nodes are named by their keys, which are distinct. The head comes before
      all keys; a null pointer counts as infinitely large. */
  datatype Node = Head | At(key: Key) | Null

  predicate Before(a: Node, b: Node) {
    a != b && (a.Head? || b.Null? || (a.At? && b.At? && a.key < b.key))
  }

  /** The towers of next pointers. */
  type Memory = map<Node, seq<Node>>

  /** The keys linked at each level, lowest level first. */
  type Levels = levels: seq<set<Key>> | |levels| == MAX_HEIGHT witness seq(MAX_HEIGHT, _ => {})

  predicate OnLevel(levels: Levels, l: nat, x: Node)
    requires l < MAX_HEIGHT
  {
    x.Head? || (x.At? && x.key in levels[l])
  }

  predicate NoneBetween(keys: set<Key>, x: Node, y: Node) {
    forall z <- keys :: !(Before(x, At(z)) && Before(At(z), y))
  }

  /** `y` is the next node after `x` in a list of `keys`. */
  predicate IsSuccessor(keys: set<Key>, x: Node, y: Node) {
    Before(x, y) && (y.At? ==> y.key in keys) && NoneBetween(keys, x, y)
  }

  /** Each level's pointers run through exactly its keys, in order. */
  ghost predicate Linked(next: Memory, levels: Levels) {
    forall l, x | 0 <= l < MAX_HEIGHT && OnLevel(levels, l, x) ::
      x in next && l < |next[x]| && IsSuccessor(levels[l], x, next[x][l])
  }

  predicate Nested(levels: Levels) {
    forall l, m | 0 <= l < m < MAX_HEIGHT :: levels[m] <= levels[l]
  }

  // ----- The writer -----

  datatype Writer =
    | Idle
    | Found(key: Key, height: nat, prev: seq<Node>)
    | Linking(key: Key, height: nat, prev: seq<Node>, level: nat, half: bool)

  /** `prev[l]` is the node after which the key belongs, for the levels from `from`. */
  ghost predicate Predecessors(levels: Levels, key: Key, prev: seq<Node>, from: nat) {
    && |prev| <= MAX_HEIGHT
    && forall l | from <= l < |prev| ::
         OnLevel(levels, l, prev[l]) && Before(prev[l], At(key)) && NoneBetween(levels[l], prev[l], At(key))
  }

  ghost predicate WriterOk(w: Writer, next: Memory, levels: Levels) {
    match w
    case Idle => true
    case Found(key, height, prev) =>
      && 0 < height <= MAX_HEIGHT && |prev| == height
      && key !in levels[0] && Predecessors(levels, key, prev, 0)
    case Linking(key, height, prev, level, half) =>
      && level < height <= MAX_HEIGHT && |prev| == height
      && (forall l | 0 <= l < MAX_HEIGHT :: key in levels[l] <==> l < level)
      && Predecessors(levels, key, prev, level)
      && At(key) in next && |next[At(key)]| == height
      && (half ==> prev[level] in next && level < |next[prev[level]]| && next[At(key)][level] == next[prev[level]][level])
  }

  // ----- The readers -----

  /** A search for the first node at or after `target`, or, if `back`, for the
      last node before it. `begun` holds the keys linked when it began, `moment`
      those linked at its last load. */
  datatype Reader =
    | Searching(target: Node, back: bool, at: Node, level: nat, begun: set<Key>)
    | Done(target: Node, back: bool, result: Node, begun: set<Key>, moment: set<Key>)

  predicate IsFirstFrom(keys: set<Key>, target: Node, r: Node) {
    !Before(r, target) && (r.At? ==> r.key in keys) && forall z <- keys :: !Before(At(z), target) ==> !Before(At(z), r)
  }

  predicate IsLastBefore(keys: set<Key>, target: Node, r: Node) {
    Before(r, target) && (r.At? ==> r.key in keys) && forall z <- keys :: Before(At(z), target) ==> !Before(r, At(z))
  }

  ghost predicate ReaderOk(r: Reader, levels: Levels) {
    match r
    case Searching(target, back, at, level, begun) =>
      level < MAX_HEIGHT && begun <= levels[0] && OnLevel(levels, level, at) && Before(at, target)
    case Done(target, back, result, begun, moment) =>
      && begun <= moment <= levels[0]
      && if back then IsLastBefore(moment, target, result) else IsFirstFrom(moment, target, result)
  }

  // ----- Steps -----

  datatype State = State(next: Memory, maxHeight: nat, levels: Levels, writer: Writer, readers: seq<Reader>)

  datatype Step =
    | FindPlace(key: Key, height: nat, prev: seq<Node>)
    | NewNode(garbage: seq<Node>)
    | LinkOut
    | LinkIn
    | StartSearch(target: Node, back: bool, level: nat)
    | Load(reader: nat)

  ghost predicate Invariant(st: State) {
    && Linked(st.next, st.levels) && Nested(st.levels)
    && WriterOk(st.writer, st.next, st.levels)
    && (forall r <- st.readers :: ReaderOk(r, st.levels))
    && 0 < st.maxHeight <= MAX_HEIGHT
    && (forall l | st.maxHeight <= l < MAX_HEIGHT :: st.levels[l] == {})
    && (st.writer.Linking? ==> st.writer.height <= st.maxHeight)
    && (forall x <- st.next :: Known(st, x))
  }

  /** No tower belongs to a key that was never inserted. */
  ghost predicate Known(st: State, x: Node) {
    x.Head? || (x.At? && (x.key in st.levels[0] || (st.writer.Linking? && st.writer.key == x.key)))
  }

  /** A search may begin at any level: it may see an old or a new maximal height. */
  ghost predicate Enabled(st: State, step: Step) {
    match step
    case FindPlace(key, height, prev) => st.writer.Idle? && WriterOk(Found(key, height, prev), st.next, st.levels)
    case NewNode(garbage) => st.writer.Found? && |garbage| == st.writer.height
    case LinkOut => st.writer.Linking? && !st.writer.half
    case LinkIn => st.writer.Linking? && st.writer.half
    case StartSearch(target, back, level) => level < MAX_HEIGHT && !target.Head?
    case Load(reader) => reader < |st.readers| && st.readers[reader].Searching?
  }

  function Store(next: Memory, x: Node, l: nat, y: Node): Memory
    requires x in next && l < |next[x]|
  {
    next[x := next[x][l := y]]
  }

  function Loaded(r: Reader, next: Node, contents: set<Key>): Reader
    requires r.Searching?
  {
    if Before(next, r.target) then r.(at := next)
    else if r.level > 0 then r.(level := r.level - 1)
    else Done(r.target, r.back, if r.back then r.at else next, r.begun, contents)
  }

  ghost function After(st: State, step: Step): State
    requires Invariant(st) && Enabled(st, step)
  {
    match step
    case FindPlace(key, height, prev) => st.(writer := Found(key, height, prev))
    case NewNode(garbage) =>
      var w := st.writer;
      st.(maxHeight := if w.height > st.maxHeight then w.height else st.maxHeight,
          next := st.next[At(w.key) := garbage], writer := Linking(w.key, w.height, w.prev, 0, false))
    case LinkOut =>
      var w := st.writer;
      assert OnLevel(st.levels, w.level, w.prev[w.level]);
      st.(next := Store(st.next, At(w.key), w.level, st.next[w.prev[w.level]][w.level]), writer := w.(half := true))
    case LinkIn =>
      var w := st.writer;
      st.(next := Store(st.next, w.prev[w.level], w.level, At(w.key)),
          levels := st.levels[w.level := st.levels[w.level] + {w.key}],
          writer := if w.level + 1 < w.height then w.(level := w.level + 1, half := false) else Idle)
    case StartSearch(target, back, level) =>
      st.(readers := st.readers + [Searching(target, back, Head, level, st.levels[0])])
    case Load(reader) =>
      var r := st.readers[reader];
      assert ReaderOk(r, st.levels);
      st.(readers := st.readers[reader := Loaded(r, st.next[r.at][r.level], st.levels[0])])
  }

  // ----- Every step keeps the invariant -----

  lemma LoadKeeps(next: Memory, levels: Levels, r: Reader)
    requires Linked(next, levels) && Nested(levels) && ReaderOk(r, levels) && r.Searching?
    ensures r.at in next && r.level < |next[r.at]|
    ensures ReaderOk(Loaded(r, next[r.at][r.level], levels[0]), levels)
  {
    assert OnLevel(levels, r.level, r.at);
  }

  /** Linking a key at a level keeps all pointers of the level right. */
  lemma LinkInKeepsLinks(next: Memory, levels: Levels, key: Key, prev: Node, l: nat)
    requires Linked(next, levels) && l < MAX_HEIGHT && key !in levels[l]
    requires OnLevel(levels, l, prev) && Before(prev, At(key)) && NoneBetween(levels[l], prev, At(key))
    requires At(key) in next && l < |next[At(key)]| && prev in next && l < |next[prev]| && next[At(key)][l] == next[prev][l]
    ensures Linked(Store(next, prev, l, At(key)), levels[l := levels[l] + {key}])
  {
    var next1 := Store(next, prev, l, At(key));
    var levels1: Levels := levels[l := levels[l] + {key}];
    forall m, x | 0 <= m < MAX_HEIGHT && OnLevel(levels1, m, x)
      ensures x in next1 && m < |next1[x]| && IsSuccessor(levels1[m], x, next1[x][m])
    {
      if m != l {
        assert OnLevel(levels, m, x);
      } else if x != At(key) {
        assert OnLevel(levels, l, x);
        assert x != prev && prev.At? ==> prev.key in levels[l];
      }
    }
  }

  /** A store to an unlinked tower is invisible. */
  lemma PrivateStoreKeepsLinks(next: Memory, levels: Levels, key: Key, from: nat, tower: seq<Node>)
    requires Linked(next, levels)
    requires forall l | 0 <= l < MAX_HEIGHT :: key in levels[l] ==> l < from
    requires 0 < from ==> At(key) in next && from <= |tower| && from <= |next[At(key)]| && tower[..from] == next[At(key)][..from]
    ensures Linked(next[At(key) := tower], levels)
  {
    var next1 := next[At(key) := tower];
    forall l, x | 0 <= l < MAX_HEIGHT && OnLevel(levels, l, x)
      ensures x in next1 && l < |next1[x]| && IsSuccessor(levels[l], x, next1[x][l])
    {
      if x == At(key) {
        assert tower[l] == tower[..from][l] == next[x][..from][l] == next[x][l];
      }
    }
  }

  lemma LinkOutKeeps(st: State)
    requires Invariant(st) && Enabled(st, LinkOut)
    ensures Invariant(After(st, LinkOut))
  {
    var w := st.writer;
    var tower := st.next[At(w.key)];
    assert OnLevel(st.levels, w.level, w.prev[w.level]);
    PrivateStoreKeepsLinks(st.next, st.levels, w.key, w.level, tower[w.level := st.next[w.prev[w.level]][w.level]]);
  }

  lemma LinkInKeeps(st: State)
    requires Invariant(st) && Enabled(st, LinkIn)
    ensures Invariant(After(st, LinkIn))
  {
    var w := st.writer;
    LinkInKeepsLinks(st.next, st.levels, w.key, w.prev[w.level], w.level);
  }

  lemma StepKeeps(st: State, step: Step)
    requires Invariant(st) && Enabled(st, step)
    ensures Invariant(After(st, step))
  {
    match step
    case FindPlace(key, height, prev) =>
    case NewNode(garbage) =>
      PrivateStoreKeepsLinks(st.next, st.levels, st.writer.key, 0, garbage);
    case LinkOut => LinkOutKeeps(st);
    case LinkIn => LinkInKeeps(st);
    case StartSearch(target, back, level) =>
    case Load(reader) =>
      LoadKeeps(st.next, st.levels, st.readers[reader]);
  }

  // ----- All interleavings -----

  const INITIAL := State(map[Head := seq(MAX_HEIGHT, _ => Null)], 1, seq(MAX_HEIGHT, _ => {}), Idle, [])

  lemma InitiallyHolds()
    ensures Invariant(INITIAL)
  {
  }

  /** Any interleaving of enabled steps, from a state that meets the invariant:
      `StepKeeps` makes the next one meaningful. */
  ghost predicate IsRun(st: State, run: seq<Step>)
    requires Invariant(st)
    decreases |run|
  {
    run != [] ==> Enabled(st, run[0]) && (StepKeeps(st, run[0]); IsRun(After(st, run[0]), run[1..]))
  }

  ghost function Final(st: State, run: seq<Step>): State
    requires Invariant(st) && IsRun(st, run)
    decreases |run|
  {
    if run == [] then st
    else
      StepKeeps(st, run[0]);
      Final(After(st, run[0]), run[1..])
  }

  lemma {:induction false} RunKeeps(st: State, run: seq<Step>)
    requires Invariant(st) && IsRun(st, run)
    ensures Invariant(Final(st, run))
    decreases |run|
  {
    hide Invariant, Enabled, After;
    if run != [] {
      StepKeeps(st, run[0]);
      RunKeeps(After(st, run[0]), run[1..]);
    }
  }

  /** What a search remembers of its start, and its target, stay. */
  ghost predicate SameSearch(a: Reader, b: Reader) {
    a.begun == b.begun && a.target == b.target && a.back == b.back
  }

  lemma {:induction false} ReadersStay(st: State, run: seq<Step>, i: nat)
    requires Invariant(st) && IsRun(st, run) && i < |st.readers|
    ensures i < |Final(st, run).readers| && SameSearch(st.readers[i], Final(st, run).readers[i])
    decreases |run|
  {
    hide Invariant;
    if run != [] {
      StepKeeps(st, run[0]);
      ReadersStay(After(st, run[0]), run[1..], i);
    }
  }

  /** What an ended search has found, given the keys linked when it began and
      those linked by its end. */
  ghost predicate IsRight(search: Step, r: Reader, begun: set<Key>, now: set<Key>)
    requires search.StartSearch?
  {
    r.Done? ==>
      && begun <= r.moment <= now
      && (if search.back then IsLastBefore(r.moment, search.target, r.result)
          else IsFirstFrom(r.moment, search.target, r.result))
      && (!search.back && search.target.At? && search.target.key in begun ==> r.result == search.target)
  }

  lemma SearchFrom(st: State, search: Step, run: seq<Step>)
    requires Invariant(st) && Enabled(st, search) && search.StartSearch?
    requires Invariant(After(st, search)) && IsRun(After(st, search), run)
    ensures
      var end := Final(After(st, search), run);
      |st.readers| < |end.readers| && IsRight(search, end.readers[|st.readers|], st.levels[0], end.levels[0])
  {
    var end := Final(After(st, search), run);
    ReadersStay(After(st, search), run, |st.readers|);
    RunKeeps(After(st, search), run);
    assert ReaderOk(end.readers[|st.readers|], end.levels);
  }

  lemma {:induction false} RunParts(st: State, a: seq<Step>, b: seq<Step>)
    requires Invariant(st) && IsRun(st, a + b)
    ensures IsRun(st, a) && Invariant(Final(st, a)) && IsRun(Final(st, a), b)
    ensures Final(st, a + b) == Final(Final(st, a), b)
    decreases |a|
  {
    hide Invariant, Enabled, After;
    if a == [] {
      assert a + b == b;
    } else {
      StepKeeps(st, a[0]);
      assert (a + b)[1..] == a[1..] + b;
      RunParts(After(st, a[0]), a[1..], b);
    }
  }

  /** Main result: in every interleaving from the empty list, whatever the
      writer and other readers do meanwhile, a search that has ended gives the
      right answer for some set of keys that holds all keys linked when it began
      and only keys linked by its end. */
  lemma SearchIsRight(before: seq<Step>, search: Step, after: seq<Step>)
    requires search.StartSearch? && IsRun(INITIAL, before + ([search] + after))
    ensures IsRun(INITIAL, before)
    ensures
      var begin, end := Final(INITIAL, before), Final(INITIAL, before + ([search] + after));
      |begin.readers| < |end.readers| && IsRight(search, end.readers[|begin.readers|], begin.levels[0], end.levels[0])
  {
    hide Invariant, Enabled, After, IsRight;
    InitiallyHolds();
    RunParts(INITIAL, before, [search] + after);
    var begin := Final(INITIAL, before);
    assert ([search] + after)[1..] == after;
    StepKeeps(begin, search);
    SearchFrom(begin, search, after);
  }

  // ----- Every search can end -----

  /** What a search still has in front of it. */
  ghost function Remaining(r: Reader, levels: Levels): set<Key> {
    if r.Searching? then Ahead(levels[0], r.at) else {}
  }

  lemma LoadAdvances(st: State, i: nat)
    requires Invariant(st) && i < |st.readers| && st.readers[i].Searching?
    ensures Enabled(st, Load(i)) && After(st, Load(i)).levels == st.levels
    ensures |After(st, Load(i)).readers| == |st.readers|
    ensures var r, next := st.readers[i], After(st, Load(i)).readers[i];
      next.Searching? ==>
        || Remaining(next, st.levels) < Remaining(r, st.levels)
        || (Remaining(next, st.levels) == Remaining(r, st.levels) && next.level < r.level)
    // It goes along its level, or one level down, or ends on the lowest.
    ensures var r, next := st.readers[i], After(st, Load(i)).readers[i];
      if next.Searching? then
        next.target == r.target && (if next.at == r.at then next.level == r.level - 1 else next.level == r.level && Before(r.at, next.at))
      else r.level == 0
  {
    var r := st.readers[i];
    assert ReaderOk(r, st.levels);
    assert OnLevel(st.levels, r.level, r.at);
    var n := st.next[r.at][r.level];
    assert IsSuccessor(st.levels[r.level], r.at, n);
    if Before(n, r.target) {
      StepsAhead(st.levels, r.level, r.at, n);
    }
  }

  /** Left to itself, a search comes to its end, whatever the writer has begun. */
  lemma {:induction false} SearchEnds(st: State, i: nat) returns (run: seq<Step>)
    requires Invariant(st) && i < |st.readers|
    ensures forall step <- run :: step == Load(i)
    ensures IsRun(st, run) && i < |Final(st, run).readers| && Final(st, run).readers[i].Done?
    decreases Remaining(st.readers[i], st.levels), if st.readers[i].Searching? then st.readers[i].level + 1 else 0
  {
    hide Invariant, Enabled, After, Remaining;
    if st.readers[i].Done? {
      run := [];
    } else {
      LoadAdvances(st, i);
      StepKeeps(st, Load(i));
      var next := After(st, Load(i));
      if next.readers[i].Done? {
        run := [Load(i)];
        OneStepRun(st, Load(i), []);
      } else {
        var rest := SearchEnds(next, i);
        run := [Load(i)] + rest;
        OneStepRun(st, Load(i), rest);
      }
    }
  }

  lemma OneStepRun(st: State, step: Step, rest: seq<Step>)
    requires Invariant(st) && Enabled(st, step) && Invariant(After(st, step)) && IsRun(After(st, step), rest)
    ensures IsRun(st, [step] + rest) && Final(st, [step] + rest) == Final(After(st, step), rest)
  {
    hide Invariant, Enabled, After;
    assert ([step] + rest)[1..] == rest;
  }

  // ----- The lists behind the level sets -----

  /** The nodes met by following the pointers of level `l` from the head. */
  ghost predicate IsChain(next: Memory, l: nat, path: seq<Node>) {
    && path != [] && path[0] == Head
    && (forall i | 0 <= i < |path| :: path[i] != Null && path[i] in next && l < |next[path[i]]|)
    && (forall i | 0 < i < |path| :: path[i] == next[path[i - 1]][l])
    && next[path[|path| - 1]][l] == Null
  }

  lemma {:induction false} ChainClimbs(next: Memory, levels: Levels, l: nat, path: seq<Node>, n: nat)
    requires Linked(next, levels) && l < MAX_HEIGHT && IsChain(next, l, path) && n <= |path|
    ensures forall i | 0 <= i < n :: OnLevel(levels, l, path[i])
    ensures forall i, j | 0 <= i < j < n :: Before(path[i], path[j])
    ensures forall k <- levels[l] | 0 < n && !Before(path[n - 1], At(k)) :: At(k) in path[..n]
  {
    hide Linked, IsChain, Before, IsSuccessor;
    if n == 1 {
      ChainStarts(next, levels[l], l, path);
    } else if n > 1 {
      ChainClimbs(next, levels, l, path, n - 1);
      ChainLink(next, levels, l, path, n - 2);
      ClimbsOne(levels[l], path[..n]);
    }
  }

  lemma ChainStarts(next: Memory, keys: set<Key>, l: nat, path: seq<Node>)
    requires IsChain(next, l, path)
    ensures path != [] && path[0] == Head && forall k <- keys :: Before(Head, At(k))
  {
  }

  lemma ChainLink(next: Memory, levels: Levels, l: nat, path: seq<Node>, i: nat)
    requires Linked(next, levels) && l < MAX_HEIGHT && IsChain(next, l, path)
    requires i + 1 < |path| && OnLevel(levels, l, path[i])
    ensures path[i + 1] != Null && OnLevel(levels, l, path[i + 1]) && IsSuccessor(levels[l], path[i], path[i + 1])
  {
    assert path[i + 1] == next[path[i]][l];
  }

  lemma ClimbsOne(level: set<Key>, path: seq<Node>)
    requires 2 <= |path|
    requires var n := |path|;
      && path[n - 1] != Null && IsSuccessor(level, path[n - 2], path[n - 1])
      && (forall i, j | 0 <= i < j < n - 1 :: Before(path[i], path[j]))
      && (forall k <- level | !Before(path[n - 2], At(k)) :: At(k) in path[..n - 1])
    ensures forall i, j | 0 <= i < j < |path| :: Before(path[i], path[j])
    ensures forall k <- level | !Before(path[|path| - 1], At(k)) :: At(k) in path
  {
    var n := |path|;
    assert path == path[..n - 1] + [path[n - 1]];
    forall i | 0 <= i < n - 1 ensures Before(path[i], path[n - 1]) {
      assert i == n - 2 || Before(path[i], path[n - 2]);
    }
  }

  /** In every state of an insertion each level's list holds exactly the keys
      of the level, sorted, and is a sublist of the list of every lower level. */
  lemma ListsAreLevels(st: State, l: nat, path: seq<Node>, m: nat, lower: seq<Node>)
    requires Invariant(st) && m <= l < MAX_HEIGHT
    requires IsChain(st.next, l, path) && IsChain(st.next, m, lower)
    ensures forall i, j | 0 <= i < j < |path| :: Before(path[i], path[j])
    ensures forall k :: k in st.levels[l] <==> At(k) in path
    ensures forall x <- path :: x in lower
  {
    ListIsLevel(st, l, path);
    ListIsLevel(st, m, lower);
    forall x <- path ensures x in lower {
      assert x.At? ==> x.key in st.levels[m];
    }
  }

  lemma ListIsLevel(st: State, l: nat, path: seq<Node>)
    requires Invariant(st) && l < MAX_HEIGHT && IsChain(st.next, l, path)
    ensures forall i, j | 0 <= i < j < |path| :: Before(path[i], path[j])
    ensures forall k :: k in st.levels[l] <==> At(k) in path
    ensures forall x <- path :: x == Head || x.At?
  {
    ChainClimbs(st.next, st.levels, l, path, |path|);
    var last := path[|path| - 1];
    assert OnLevel(st.levels, l, last) && IsSuccessor(st.levels[l], last, Null);
    assert path[..|path|] == path;
    forall k | At(k) in path ensures k in st.levels[l] {
      var i :| 0 <= i < |path| && path[i] == At(k);
      assert OnLevel(st.levels, l, path[i]);
    }
  }

  function Ahead(keys: set<Key>, x: Node): set<Key> {
    set k <- keys | Before(x, At(k))
  }

  /** Following the pointers always reaches the end of the list. */
  lemma {:induction false} ListEnds(next: Memory, levels: Levels, l: nat, front: seq<Node>) returns (path: seq<Node>)
    requires Linked(next, levels) && l < MAX_HEIGHT
    requires front != [] && front[0] == Head && OnLevel(levels, l, front[|front| - 1])
    requires forall i | 0 <= i < |front| :: front[i] != Null && front[i] in next && l < |next[front[i]]|
    requires forall i | 0 < i < |front| :: front[i] == next[front[i - 1]][l]
    ensures IsChain(next, l, path)
    decreases Ahead(levels[l], front[|front| - 1])
  {
    var x := front[|front| - 1];
    var y := next[x][l];
    assert IsSuccessor(levels[l], x, y);
    if y == Null {
      path := front;
    } else {
      assert OnLevel(levels, l, y);
      assert Ahead(levels[l], y) < Ahead(levels[l], x) by {
        assert y.key in Ahead(levels[l], x) && y.key !in Ahead(levels[l], y);
      }
      path := ListEnds(next, levels, l, front + [y]);
    }
  }

  // ----- The list as an object, used by one thread -----

  class SkipList {
    var next: Memory
    var maxHeight: nat
    ghost var levels: Levels

    ghost predicate Valid()
      reads this
    {
      Invariant(Now(Idle))
    }

    ghost function Now(w: Writer): State
      reads this
    {
      State(next, maxHeight, levels, w, [])
    }

    ghost function Contents(): set<Key>
      reads this
    {
      levels[0]
    }

    constructor ()
      ensures Valid() && Contents() == {} && |levels| == 12 && maxHeight == 1
    {
      next, maxHeight, levels := INITIAL.next, INITIAL.maxHeight, INITIAL.levels;
    }

    /** The first node at or after the key, and on every level the node before it. */
    method FindGreaterOrEqual(key: Key) returns (r: Node, prev: seq<Node>)
      requires Valid()
      ensures IsFirstFrom(Contents(), At(key), r)
      ensures |prev| == maxHeight && Predecessors(levels, key, prev, 0)
    {
      var x, level := Head, maxHeight - 1;
      prev := seq(maxHeight, _ => Null);
      while true
        invariant 0 <= level < maxHeight && OnLevel(levels, level, x) && Before(x, At(key))
        invariant |prev| == maxHeight && Predecessors(levels, key, prev, level + 1)
        decreases Ahead(levels[0], x), level
      {
        var n := next[x][level];
        assert IsSuccessor(levels[level], x, n);
        if Before(n, At(key)) {
          StepsAhead(levels, level, x, n);
          x := n;
        } else {
          prev := prev[level := x];
          if level == 0 {
            return n, prev;
          }
          level := level - 1;
        }
      }
    }

    /** The last node before `target`; with a null target, the last node. */
    method FindLessThan(target: Node) returns (r: Node)
      requires Valid() && !target.Head?
      ensures IsLastBefore(Contents(), target, r)
    {
      var x, level := Head, maxHeight - 1;
      while true
        invariant 0 <= level < maxHeight && OnLevel(levels, level, x) && Before(x, target)
        decreases Ahead(levels[0], x), level
      {
        var n := next[x][level];
        assert IsSuccessor(levels[level], x, n);
        if Before(n, target) {
          StepsAhead(levels, level, x, n);
          x := n;
        } else if level == 0 {
          return x;
        } else {
          level := level - 1;
        }
      }
    }

    method Contains(key: Key) returns (b: bool)
      requires Valid()
      ensures b <==> key in Contents()
    {
      var x, prev := FindGreaterOrEqual(key);
      b := x == At(key);
    }

    /** Links the key at its levels, one pointer store at a time; `height` is
        the random height drawn for it. */
    method Insert(key: Key, height: nat)
      requires Valid() && key !in Contents() && 0 < height <= MAX_HEIGHT
      modifies this
      ensures Valid() && Contents() == old(Contents()) + {key}
      ensures forall l | 0 <= l < 12 :: levels[l] == old(levels[l]) + if l < height then {key} else {}
      ensures maxHeight == if height > old(maxHeight) then height else old(maxHeight)
    {
      var x, prev := FindGreaterOrEqual(key);
      if height > maxHeight {
        for i := maxHeight to height
          invariant |prev| == i && Predecessors(levels, key, prev, 0)
        {
          prev := prev + [Head];
        }
        maxHeight := height;
      }
      prev := prev[..height];
      var garbage := seq(height, _ => Null);
      next := next[At(key) := garbage];
      assert Invariant(Now(Linking(key, height, prev, 0, false))) by {
        BeginLinking(old(Now(Idle)), key, height, prev, garbage);
      }
      Link(key, height, prev);
    }

    method Link(key: Key, height: nat, prev: seq<Node>)
      requires 0 < height == |prev| && Invariant(Now(Linking(key, height, prev, 0, false)))
      modifies this
      ensures Valid() && Contents() == old(Contents()) + {key} && maxHeight == old(maxHeight)
      ensures forall l | 0 <= l < 12 :: levels[l] == old(levels[l]) + if l < height then {key} else {}
    {
      hide Invariant;
      for i := 0 to height
        invariant Invariant(Now(if i < height then Linking(key, height, prev, i, false) else Idle))
        invariant Contents() == old(Contents()) + if i == 0 then {} else {key}
        invariant maxHeight == old(maxHeight)
        invariant forall l | 0 <= l < 12 :: levels[l] == old(levels[l]) + if l < i then {key} else {}
      {
        ghost var st := Now(Linking(key, height, prev, i, false));
        LinkLevel(st);
        next := Store(next, At(key), i, next[prev[i]][i]);
        next := Store(next, prev[i], i, At(key));
        levels := levels[i := levels[i] + {key}];
        assert Now(if i + 1 < height then Linking(key, height, prev, i + 1, false) else Idle) == After(After(st, LinkOut), LinkIn);
      }
    }
  }

  lemma BeginLinking(st: State, key: Key, height: nat, prev: seq<Node>, garbage: seq<Node>)
    requires Invariant(st) && st.writer.Idle? && |garbage| == height && Enabled(st, FindPlace(key, height, prev))
    ensures Invariant(st.(writer := Linking(key, height, prev, 0, false), next := st.next[At(key) := garbage],
                          maxHeight := if height > st.maxHeight then height else st.maxHeight))
  {
    StepKeeps(st, FindPlace(key, height, prev));
    StepKeeps(After(st, FindPlace(key, height, prev)), NewNode(garbage));
  }

  /** The two stores that link the new node at one level. */
  lemma LinkLevel(st: State)
    requires Invariant(st) && st.writer.Linking? && !st.writer.half
    ensures var w := st.writer;
      && At(w.key) in st.next && w.level < |st.next[At(w.key)]|
      && w.prev[w.level] in st.next && w.level < |st.next[w.prev[w.level]]| && w.prev[w.level] != At(w.key)
    ensures Invariant(After(st, LinkOut)) && Invariant(After(After(st, LinkOut), LinkIn))
  {
    assert OnLevel(st.levels, st.writer.level, st.writer.prev[st.writer.level]);
    StepKeeps(st, LinkOut);
    StepKeeps(After(st, LinkOut), LinkIn);
  }

  lemma StepsAhead(levels: Levels, l: nat, x: Node, y: Node)
    requires Nested(levels) && l < MAX_HEIGHT && Before(x, y) && y.At? && y.key in levels[l]
    ensures Ahead(levels[0], y) < Ahead(levels[0], x)
  {
    assert y.key in Ahead(levels[0], x) && y.key !in Ahead(levels[0], y);
  }
}
