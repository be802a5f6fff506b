/** Finding the newest visible version of a user key: in one sorted run, in
    one level, and in all levels (db/memtable.cc, table/table.cc,
    db/version_set.cc Version::Get). */
module Search {
  import opened Keys
  import opened Files
  import opened View
  import opened Cursors
  import opened Inputs
  import opened Engine

  /** `r` is the newest visible version in `es`, or there is none. */
  ghost predicate Finds(es: set<Entry>, user: UserKey, s: SequenceNumber, r: Option<Entry>) {
    match r
    case Some(e) => IsNewest(es, user, s, e)
    case None => Unseen(es, user, s)
  }

  /** The first entry at or after the lookup key is the newest visible version
      if it has the sought user key; otherwise there is no visible version. */
  lemma SeekFinds(es: seq<Entry>, user: UserKey, s: SequenceNumber, i: nat)
    requires Ascending(es) && IsSeek(es, LookupKey(user, s), i)
    ensures Finds(Elements(es), user, s, if i < |es| && es[i].key.user == user then Some(es[i]) else None)
  {
    forall x <- Elements(es) | Visible(x, user, s)
      ensures i < |es| && es[i].key.user == user && x.key.sequence <= es[i].key.sequence
    {
      var j :| 0 <= j < |es| && es[j] == x;
      assert i <= j;
      if i < j {
        assert Less(es[i].key, es[j].key);
      }
    }
  }

  /** A lookup in one sorted run: a memtable or a table. */
  method RunGet(es: seq<Entry>, user: UserKey, s: SequenceNumber) returns (r: Option<Entry>)
    requires Ascending(es)
    ensures Finds(Elements(es), user, s, r)
  {
    var i := Seek(es, LookupKey(user, s));
    SeekFinds(es, user, s, i);
    r := if i < |es| && es[i].key.user == user then Some(es[i]) else None;
  }

  // ----- A sorted level -----

  lemma EntryInRange(f: File, e: Entry)
    requires FileOk(f) && e in f.entries
    ensures AtMost(f.smallest, e.key) && AtMost(e.key, f.largest)
  {
    var i :| 0 <= i < |f.entries| && f.entries[i] == e;
    if 0 < i {
      assert Less(f.entries[0].key, f.entries[i].key);
    }
    if i < |f.entries| - 1 {
      assert Less(f.entries[i].key, f.entries[|f.entries| - 1].key);
    }
  }

  /** Only the first file that reaches the lookup key can hold the newest
      visible version, even if versions of the user key go on in later files. */
  lemma OneFileDecides(files: seq<File>, user: UserKey, s: SequenceNumber, index: nat, r: Option<Entry>)
    requires SortedDisjoint(files) && forall f <- files :: FileOk(f)
    requires IsFirstReaching(files, LookupKey(user, s), index)
    requires index < |files| ==> Finds(Elements(files[index].entries), user, s, r)
    requires index == |files| ==> r == None
    ensures Finds(Contents(files), user, s, r)
  {
    forall f <- files, x <- f.entries | Visible(x, user, s)
      ensures r.Some? && x.key.sequence <= r.value.key.sequence
    {
      EntryInRange(f, x);
      var j :| 0 <= j < |files| && files[j] == f;
      assert index <= j;
      var g := files[index];
      assert FileOk(g);
      var last := g.entries[|g.entries| - 1];
      if index < j {
        assert Less(g.largest, f.smallest) && g.largest == last.key;
        assert last in Elements(g.entries) && Visible(last, user, s);
      }
    }
    if r.Some? {
      assert r.value in files[index].entries && files[index] in files;
    }
  }

  method LevelGet(files: seq<File>, user: UserKey, s: SequenceNumber) returns (r: Option<Entry>)
    requires SortedDisjoint(files) && forall f <- files :: FileOk(f)
    ensures Finds(Contents(files), user, s, r)
  {
    var index := FindFile(files, LookupKey(user, s));
    if index >= |files| {
      r := None;
    } else if user < files[index].smallest.user {
      r := None;
      forall x <- files[index].entries ensures !Visible(x, user, s) {
        EntryInRange(files[index], x);
      }
    } else {
      r := RunGet(files[index].entries, user, s);
    }
    OneFileDecides(files, user, s, index, r);
  }

  // ----- Level 0 -----

  ghost predicate NewestFirst(files: seq<File>) {
    forall i, j | 0 <= i < j < |files| :: files[i].number >= files[j].number
  }

  ghost predicate SameFiles(a: seq<File>, b: seq<File>) {
    forall f :: f in a <==> f in b
  }

  method InsertByNumber(files: seq<File>, f: File) returns (r: seq<File>)
    requires NewestFirst(files)
    ensures NewestFirst(r) && SameFiles(r, files + [f])
  {
    var i := 0;
    while i < |files| && files[i].number >= f.number
      invariant i <= |files|
      invariant forall j | 0 <= j < i :: files[j].number >= f.number
    {
      i := i + 1;
    }
    r := files[..i] + [f] + files[i..];
    assert files == files[..i] + files[i..];
  }

  /** The files that may hold the user key, newest first. */
  method CandidatesNewestFirst(files: seq<File>, user: UserKey) returns (r: seq<File>)
    ensures NewestFirst(r)
    ensures forall f :: f in r <==> f in files && f.smallest.user <= user <= f.largest.user
  {
    r := [];
    for i := 0 to |files|
      invariant NewestFirst(r)
      invariant forall f :: f in r <==> f in files[..i] && f.smallest.user <= user <= f.largest.user
    {
      assert files[..i + 1] == files[..i] + [files[i]];
      var f := files[i];
      if f.smallest.user <= user <= f.largest.user {
        var sorted := InsertByNumber(r, f);
        assert forall g :: g in r + [f] <==> g in r || g == f;
        r := sorted;
      }
    }
    assert files[..|files|] == files;
  }

  /** The first hit among the candidates is the newest visible version. */
  lemma FirstHitDecides(files: seq<File>, tmp: seq<File>, user: UserKey, s: SequenceNumber, i: nat, e: Entry)
    requires YoungerIsNewer(files) && forall f <- files :: FileOk(f)
    requires forall f, g | f in files && g in files && f.number == g.number :: f == g
    requires NewestFirst(tmp) && i < |tmp|
    requires forall f :: f in tmp <==> f in files && f.smallest.user <= user <= f.largest.user
    requires forall j | 0 <= j < i :: Unseen(Elements(tmp[j].entries), user, s)
    requires IsNewest(Elements(tmp[i].entries), user, s, e)
    ensures IsNewest(Contents(files), user, s, e)
  {
    hide YoungerIsNewer, FileOk, NewestFirst;
    assert tmp[i] in files;
    forall x <- Contents(files) | Visible(x, user, s) ensures x.key.sequence <= e.key.sequence {
      var f :| f in files && x in f.entries;
      EntryInRange(f, x);
      assert f in tmp;
      var j :| 0 <= j < |tmp| && tmp[j] == f;
      assert x in Elements(f.entries);
      if f != tmp[i] {
        HitIsNewer(files, tmp, i, j);
      }
    }
  }

  lemma HitIsNewer(files: seq<File>, tmp: seq<File>, i: nat, j: nat)
    requires YoungerIsNewer(files) && NewestFirst(tmp) && i < |tmp| && j < |tmp|
    requires tmp[i] in files && tmp[j] in files && tmp[i].number != tmp[j].number
    ensures i < j ==> Newer(Elements(tmp[i].entries), Elements(tmp[j].entries))
  {
    assert i < j ==> tmp[i].number > tmp[j].number;
  }

  lemma NoHitDecides(files: seq<File>, tmp: seq<File>, user: UserKey, s: SequenceNumber)
    requires forall f <- files :: FileOk(f)
    requires forall f :: f in tmp <==> f in files && f.smallest.user <= user <= f.largest.user
    requires forall j | 0 <= j < |tmp| :: Unseen(Elements(tmp[j].entries), user, s)
    ensures Unseen(Contents(files), user, s)
  {
    forall f <- files, x <- f.entries ensures !Visible(x, user, s) {
      EntryInRange(f, x);
      if f in tmp {
        var j :| 0 <= j < |tmp| && tmp[j] == f;
        assert x in Elements(f.entries);
      }
    }
  }

  method LevelZeroGet(files: seq<File>, user: UserKey, s: SequenceNumber) returns (r: Option<Entry>)
    requires YoungerIsNewer(files) && forall f <- files :: FileOk(f)
    requires forall f, g | f in files && g in files && f.number == g.number :: f == g
    ensures Finds(Contents(files), user, s, r)
  {
    hide YoungerIsNewer, NewestFirst, Contents;
    var tmp := CandidatesNewestFirst(files, user);
    for i := 0 to |tmp|
      invariant forall j | 0 <= j < i :: Unseen(Elements(tmp[j].entries), user, s)
    {
      assert tmp[i] in files;
      r := RunGet(tmp[i].entries, user, s);
      if r.Some? {
        FirstHitDecides(files, tmp, user, s, i, r.value);
        return;
      }
    }
    NoHitDecides(files, tmp, user, s);
    r := None;
  }

  // ----- All levels -----

  lemma AllContentsIn(levels: seq<seq<File>>, e: Entry)
    ensures e in AllContents(levels) <==> exists l | 0 <= l < |levels| :: e in Contents(levels[l])
  {
    if e in AllContents(levels) {
      var l, f :| 0 <= l < |levels| && f in levels[l] && e in f.entries;
      assert e in Contents(levels[l]);
    }
  }

  lemma SmallerLevelDecides(levels: seq<seq<File>>, user: UserKey, s: SequenceNumber, l: nat, e: Entry)
    requires LevelsOk(levels) && l < NUM_LEVELS
    requires forall m | 0 <= m < l :: Unseen(Contents(levels[m]), user, s)
    requires IsNewest(Contents(levels[l]), user, s, e)
    ensures IsNewest(AllContents(levels), user, s, e)
  {
    hide LevelsOk, Contents, AllContents;
    LevelsApart(levels, l, l);
    AllContentsIn(levels, e);
    forall x <- AllContents(levels) | Visible(x, user, s) ensures x.key.sequence <= e.key.sequence {
      AllContentsIn(levels, x);
      var m :| 0 <= m < |levels| && x in Contents(levels[m]);
      LevelsApart(levels, l, m);
    }
  }

  lemma LevelsApart(levels: seq<seq<File>>, l: nat, m: nat)
    requires LevelsOk(levels) && l < NUM_LEVELS && m < NUM_LEVELS
    ensures |levels| == NUM_LEVELS
    ensures l < m ==> Newer(Contents(levels[l]), Contents(levels[m]))
    ensures m < l ==> Newer(Contents(levels[m]), Contents(levels[l]))
  {
  }

  /** Main result: searching level by level finds the newest visible version
      over all files. */
  method VersionGet(levels: seq<seq<File>>, user: UserKey, s: SequenceNumber) returns (r: Option<Entry>)
    requires LevelsOk(levels)
    ensures Finds(AllContents(levels), user, s, r)
  {
    hide AllContents, Contents, Unseen, IsNewest;
    var level := 0;
    while level < NUM_LEVELS
      invariant 0 <= level <= NUM_LEVELS
      invariant forall m | 0 <= m < level :: Unseen(Contents(levels[m]), user, s)
    {
      if level == 0 {
        r := LevelZeroGet(levels[0], user, s);
      } else {
        r := LevelGet(levels[level], user, s);
      }
      if r.Some? {
        SmallerLevelDecides(levels, user, s, level, r.value);
        return;
      }
      level := level + 1;
    }
    NoLevelDecides(levels, user, s);
    r := None;
  }

  lemma NoLevelDecides(levels: seq<seq<File>>, user: UserKey, s: SequenceNumber)
    requires forall m | 0 <= m < |levels| :: Unseen(Contents(levels[m]), user, s)
    ensures Unseen(AllContents(levels), user, s)
  {
    forall x <- AllContents(levels) ensures !Visible(x, user, s) {
      AllContentsIn(levels, x);
    }
  }
}
