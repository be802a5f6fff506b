/** The iterator a user sees (db/db_iter.cc): it walks the internal entries in
    both directions and shows, once per user key, the newest version visible
    at its sequence number unless that is a deletion. */
module DbIterator {
  import opened Keys
  import opened View
  import opened Cursors

  /** Entry `i` is what the iterator at `s` shows for its user key. */
  ghost predicate Shows(es: seq<Entry>, s: SequenceNumber, i: int) {
    && 0 <= i < |es| && es[i].key.kind.Value? && es[i].key.sequence <= s
    && forall j | 0 <= j < i && es[j].key.user == es[i].key.user :: es[j].key.sequence > s
  }

  /** The sorted map visible at `s`, as far as the first `n` entries tell. */
  ghost function Shown(es: seq<Entry>, s: SequenceNumber, n: nat): seq<Entry>
    requires n <= |es|
  {
    if n == 0 then []
    else Shown(es, s, n - 1) + if Shows(es, s, n - 1) then [es[n - 1]] else []
  }

  ghost function VisibleMap(es: seq<Entry>, s: SequenceNumber): seq<Entry> {
    Shown(es, s, |es|)
  }

  // ----- The map is the one that single reads see -----

  lemma ByUser(es: seq<Entry>, i: nat, j: nat)
    requires Ascending(es) && i <= j < |es|
    ensures es[i].key.user <= es[j].key.user
    ensures i < j && es[i].key.user == es[j].key.user ==> es[j].key.sequence <= es[i].key.sequence
  {
    assert i == j || Less(es[i].key, es[j].key);
  }

  // ----- Going backward -----

  ghost predicate NoneShown(es: seq<Entry>, s: SequenceNumber, from: int, to: int) {
    forall i | from < i <= to :: !Shows(es, s, i)
  }

  /** Entry `c` is a visible value, and between it and `from` there is nothing visible. */
  ghost predicate Candidate(es: seq<Entry>, s: SequenceNumber, c: int, from: int) {
    && 0 <= c < |es| && from < c && es[c].key.kind.Value? && es[c].key.sequence <= s
    && forall j | from < j < c && 0 <= j :: es[j].key.sequence > s
  }

  /** What is known once entry `from` and those before it are still to come:
      the last entry shown is the candidate or lies further back. */
  ghost predicate Scanned(es: seq<Entry>, s: SequenceNumber, candidate: bool, c: int, from: int, to: int) {
    if candidate then Candidate(es, s, c, from) && c <= to && NoneShown(es, s, c, to) else NoneShown(es, s, from, to)
  }

  lemma InvisibleScanned(es: seq<Entry>, s: SequenceNumber, candidate: bool, c: int, p: nat, to: int)
    requires p < |es| && es[p].key.sequence > s && Scanned(es, s, candidate, c, p, to)
    ensures Scanned(es, s, candidate, c, p - 1, to)
  {
  }

  /** A visible entry hides a later candidate of its user key. */
  lemma VisibleScanned(es: seq<Entry>, s: SequenceNumber, candidate: bool, c: int, p: nat, to: int)
    requires Ascending(es) && p < |es| && p <= to && es[p].key.sequence <= s && Scanned(es, s, candidate, c, p, to)
    requires candidate ==> 0 <= c < |es| && es[c].key.user <= es[p].key.user
    ensures Scanned(es, s, es[p].key.kind.Value?, p, p - 1, to)
  {
    if candidate {
      ByUser(es, p, c);
      forall i | p < i <= to ensures !Shows(es, s, i) {
        assert i < c ==> es[i].key.sequence > s;
      }
    }
  }

  /** With only smaller user keys in front, the candidate is shown. */
  lemma CandidateIsShown(es: seq<Entry>, s: SequenceNumber, c: int, p: int)
    requires Ascending(es) && Candidate(es, s, c, p) && -1 <= p
    requires 0 <= p ==> es[p].key.user < es[c].key.user
    ensures Shows(es, s, c)
  {
    forall j | 0 <= j < c && es[j].key.user == es[c].key.user ensures es[j].key.sequence > s {
      if j <= p {
        ByUser(es, j, p);
      }
    }
  }

  lemma ShowsIsNewest(es: seq<Entry>, s: SequenceNumber, i: nat)
    requires Ascending(es) && Shows(es, s, i)
    ensures IsNewest(Elements(es), es[i].key.user, s, es[i])
  {
    forall x <- Elements(es) | Visible(x, es[i].key.user, s) ensures x.key.sequence <= es[i].key.sequence {
      var j :| 0 <= j < |es| && es[j] == x;
      if i <= j {
        ByUser(es, i, j);
      }
    }
  }

  lemma NewestShows(es: seq<Entry>, s: SequenceNumber, i: nat)
    requires Ascending(es) && OneVersion(Elements(es)) && i < |es| && es[i].key.kind.Value?
    requires IsNewest(Elements(es), es[i].key.user, s, es[i])
    ensures Shows(es, s, i)
  {
    forall j | 0 <= j < i && es[j].key.user == es[i].key.user ensures es[j].key.sequence > s {
      assert es[j] in Elements(es) && Less(es[j].key, es[i].key);
    }
  }

  lemma {:induction false} ShownMembers(es: seq<Entry>, s: SequenceNumber, n: nat, e: Entry)
    requires n <= |es|
    ensures e in Shown(es, s, n) <==> exists i | 0 <= i < n :: es[i] == e && Shows(es, s, i)
  {
    if n > 0 {
      ShownMembers(es, s, n - 1, e);
    }
  }

  lemma {:induction false} ShownByUser(es: seq<Entry>, s: SequenceNumber, n: nat)
    requires n <= |es| && Ascending(es)
    ensures forall k, l | 0 <= k < l < |Shown(es, s, n)| :: Shown(es, s, n)[k].key.user < Shown(es, s, n)[l].key.user
  {
    if n > 0 {
      ShownByUser(es, s, n - 1);
      var front := Shown(es, s, n - 1);
      if Shows(es, s, n - 1) {
        forall k | 0 <= k < |front| ensures front[k].key.user < es[n - 1].key.user {
          ShownMembers(es, s, n - 1, front[k]);
          var i :| 0 <= i < n - 1 && es[i] == front[k] && Shows(es, s, i);
          ByUser(es, i, n - 1);
        }
      }
    }
  }

  /** Main result: the iterator's map has each user key at most once, in
      order, and holds exactly the values a read at `s` finds. */
  lemma VisibleMapIsRead(es: seq<Entry>, s: SequenceNumber, user: UserKey, value: Bytes)
    requires Ascending(es) && OneVersion(Elements(es))
    ensures forall k, l | 0 <= k < l < |VisibleMap(es, s)| ::
              VisibleMap(es, s)[k].key.user < VisibleMap(es, s)[l].key.user
    ensures Read(Elements(es), user, s) == Some(value) <==>
              exists e <- VisibleMap(es, s) :: e.key.user == user && e.value == value
  {
    ShownByUser(es, s, |es|);
    if e :| e in VisibleMap(es, s) && e.key.user == user && e.value == value {
      ShownMembers(es, s, |es|, e);
      var i :| 0 <= i < |es| && es[i] == e && Shows(es, s, i);
      ShowsIsNewest(es, s, i);
      ReadNewest(Elements(es), user, s, e);
    }
    if Read(Elements(es), user, s) == Some(value) {
      var e :| IsNewest(Elements(es), user, s, e) && e.key.kind.Value?;
      ReadNewest(Elements(es), user, s, e);
      var i :| 0 <= i < |es| && es[i] == e;
      NewestShows(es, s, i);
      ShownMembers(es, s, |es|, e);
    }
  }

  // ----- Positions in the map -----

  lemma {:induction false} NothingShownBetween(es: seq<Entry>, s: SequenceNumber, a: nat, b: nat)
    requires a <= b <= |es| && forall i | a <= i < b :: !Shows(es, s, i)
    ensures Shown(es, s, b) == Shown(es, s, a)
  {
    if a < b {
      NothingShownBetween(es, s, a, b - 1);
    }
  }

  lemma {:induction false} ShownPrefix(es: seq<Entry>, s: SequenceNumber, a: nat, b: nat)
    requires a <= b <= |es|
    ensures Shown(es, s, a) <= Shown(es, s, b)
  {
    if a < b {
      ShownPrefix(es, s, a, b - 1);
    }
  }

  lemma ShownAt(es: seq<Entry>, s: SequenceNumber, i: nat)
    requires i < |es| && Shows(es, s, i)
    ensures |Shown(es, s, i)| < |VisibleMap(es, s)| && VisibleMap(es, s)[|Shown(es, s, i)|] == es[i]
  {
    ShownPrefix(es, s, i + 1, |es|);
    assert Shown(es, s, i + 1) == Shown(es, s, i) + [es[i]];
  }

  /** From one shown entry to the next is one step in the map. */
  lemma ShownStep(es: seq<Entry>, s: SequenceNumber, i: nat, j: nat)
    requires i < j <= |es| && Shows(es, s, i) && forall k | i < k < j :: !Shows(es, s, k)
    ensures |Shown(es, s, j)| == |Shown(es, s, i)| + 1
  {
    NothingShownBetween(es, s, i + 1, j);
  }

  /** The keys of the map before and after the place of `n`. */
  lemma MapAround(es: seq<Entry>, s: SequenceNumber, n: nat, target: UserKey)
    requires Ascending(es) && n <= |es| && (n < |es| ==> Shows(es, s, n) && target <= es[n].key.user)
    requires forall i | 0 <= i < n && Shows(es, s, i) :: es[i].key.user < target
    ensures |Shown(es, s, n)| <= |VisibleMap(es, s)|
    ensures forall k | 0 <= k < |Shown(es, s, n)| :: VisibleMap(es, s)[k].key.user < target
    ensures forall k | |Shown(es, s, n)| <= k < |VisibleMap(es, s)| :: target <= VisibleMap(es, s)[k].key.user
  {
    ShownPrefix(es, s, n, |es|);
    forall k | 0 <= k < |Shown(es, s, n)| ensures VisibleMap(es, s)[k].key.user < target {
      ShownMembers(es, s, n, Shown(es, s, n)[k]);
    }
    if n < |es| {
      ShownAt(es, s, n);
      ShownByUser(es, s, |es|);
    }
  }

  datatype Direction = Forward | Reverse

  class DbIter {
    const iter: Cursor
    const sequence: SequenceNumber
    var direction: Direction
    var valid: bool
    var savedKey: Option<UserKey>
    var savedValue: Bytes
    ghost var index: nat  // the entry shown, or the number of entries

    /** In forward direction the internal iterator stands at the entry shown.
        In reverse it stands before all entries of the user key shown, with
        only invisible entries in between. */
    ghost predicate Ok()
      reads this, iter
    {
      && Ascending(iter.entries) && index <= |iter.entries|
      && valid == (index < |iter.entries|)
      && (valid ==> Shows(iter.entries, sequence, index))
      && (valid && direction.Forward? ==> iter.position == index)
      && (valid && direction.Reverse? ==> ReverseOk())
    }

    ghost predicate ReverseOk()
      requires index < |iter.entries|
      reads this, iter
    {
      var es := iter.entries;
      && savedKey == Some(es[index].key.user) && savedValue == es[index].value
      && (iter.Valid() ==> iter.position < index && es[iter.position].key.user < es[index].key.user)
      && (forall k | Reached() < k < index :: es[k].key.sequence > sequence)
    }

    /** The internal position, with -1 for "before the first entry". */
    ghost function Reached(): int
      reads this, iter
    {
      if iter.Valid() then iter.position else -1
    }

    /** The map the iterator walks and its place in it. */
    ghost function Map(): seq<Entry> {
      VisibleMap(iter.entries, sequence)
    }

    ghost function Position(): nat
      requires Ok()
      reads this, iter
    {
      |Shown(iter.entries, sequence, index)|
    }

    constructor (iter: Cursor, sequence: SequenceNumber)
      requires Ascending(iter.entries)
      ensures this.iter == iter && this.sequence == sequence
      ensures Ok() && Position() == |Map()| && !valid
    {
      this.iter, this.sequence, direction, valid, savedKey, savedValue := iter, sequence, Forward, false, None, [];
      index := |iter.entries|;
    }

    /** What the iterator shows is the entry of the map at its position. */
    lemma ShowsMap()
      requires Ok()
      ensures valid == (Position() < |Map()|)
      ensures valid ==> Map()[Position()] == iter.entries[index]
    {
      if valid {
        ShownAt(iter.entries, sequence, index);
      }
    }

    method Key() returns (user: UserKey)
      requires Ok() && valid
      ensures Position() < |Map()| && user == Map()[Position()].key.user
    {
      ShowsMap();
      user := if direction.Forward? then iter.Current().key.user else savedKey.value;
    }

    method ValueOf() returns (value: Bytes)
      requires Ok() && valid
      ensures Position() < |Map()| && value == Map()[Position()].value
    {
      ShowsMap();
      value := if direction.Forward? then iter.Current().value else savedValue;
    }

    ghost predicate Wanted(i: int, floor: Option<UserKey>) {
      Shows(iter.entries, sequence, i) && (floor.Some? ==> iter.entries[i].key.user > floor.value)
    }

    ghost predicate NoneWanted(from: int, to: int, floor: Option<UserKey>) {
      forall i | from <= i < to :: !Wanted(i, floor)
    }

    /** Finds the next shown entry with a user key above `savedKey`, if
        skipping. Entries before the start share a user key with entries after
        it only where those are skipped anyway. */
    method FindNextUserEntry(skipping: bool)
      requires Ascending(iter.entries) && iter.Valid() && direction.Forward?
      requires skipping ==> savedKey.Some?
      requires skipping ==> forall i | iter.position <= i < |iter.entries| && iter.entries[i].key.sequence <= sequence ::
        savedKey.value <= iter.entries[i].key.user
      requires forall j, i | 0 <= j < iter.position <= i < |iter.entries| && iter.entries[j].key.user == iter.entries[i].key.user
        && iter.entries[j].key.sequence <= sequence :: skipping && iter.entries[i].key.user <= savedKey.value
      modifies this, iter
      ensures Ok() && direction.Forward? && old(iter.position) <= index
      ensures valid ==> Wanted(index, if skipping then old(savedKey) else None)
      ensures NoneWanted(old(iter.position), index, if skipping then old(savedKey) else None)
    {
      hide Ascending, Shown;
      var skip, hides := savedKey, skipping;
      ghost var floor := if skipping then savedKey else None;
      var es := iter.entries;
      while true
        invariant direction.Forward? && iter.Valid() && old(iter.position) <= iter.position
        invariant hides ==> skip.Some? && (floor.Some? ==> floor.value <= skip.value)
        invariant floor.Some? ==> hides
        invariant NoneWanted(old(iter.position), iter.position, floor)
        invariant forall i | iter.position <= i < |es| && hides && es[i].key.user <= skip.value :: !Wanted(i, floor)
        invariant forall j, i | 0 <= j < iter.position <= i < |es| && es[j].key.user == es[i].key.user
                    && es[j].key.sequence <= sequence :: hides && es[i].key.user <= skip.value
        decreases |es| - iter.position
      {
        var ikey := iter.Current().key;
        if ikey.sequence <= sequence {
          if ikey.kind.Deletion? {
            skip, hides := Some(ikey.user), true;
          } else if !(hides && ikey.user <= skip.value) {
            valid, index, savedKey := true, iter.position, None;
            return;
          }
        }
        forall i | iter.position <= i < |es| ensures ikey.user <= es[i].key.user {
          ByUser(es, iter.position, i);
        }
        forall i | 0 <= i < iter.position ensures es[i].key.user <= ikey.user {
          ByUser(es, i, iter.position);
        }
        iter.Next();
        if !iter.Valid() {
          break;
        }
      }
      savedKey, valid, index := None, false, |es|;
    }

    /** Finds the last shown entry at or before the internal position. */
    method FindPrevUserEntry()
      requires Ascending(iter.entries) && direction.Reverse?
      modifies this, iter
      ensures Ok() && (valid ==> direction.Reverse? && index <= old(Reached()))
      ensures forall i | 0 <= i <= old(Reached()) && (valid ==> index < i) :: !Shows(iter.entries, sequence, i)
    {
      hide Ascending, Shown, Shows, Candidate, NoneShown;
      var es := iter.entries;
      var kind := Deletion;
      ghost var start, c, from := Reached(), |es|, Reached();
      NoneAhead(es, sequence, start);
      if iter.Valid() {
        while true
          invariant direction.Reverse? && iter.Valid() && from == iter.position <= start < |es|
          invariant Scanned(es, sequence, kind.Value?, c, from, start)
          invariant kind.Value? ==> 0 <= c < |es| && savedKey == Some(es[c].key.user) && savedValue == es[c].value
          invariant kind.Deletion? || kind.Value?
          decreases iter.position
        {
          var e := iter.Current();
          if e.key.sequence <= sequence {
            if !kind.Deletion? && e.key.user < savedKey.value {
              break;
            }
            VisibleScanned(es, sequence, kind.Value?, c, iter.position, start);
            kind := e.key.kind;
            if kind.Deletion? {
              savedKey, savedValue := None, [];
            } else {
              savedKey, savedValue := Some(e.key.user), e.value;
            }
            c := iter.position;
          } else {
            InvisibleScanned(es, sequence, kind.Value?, c, iter.position, start);
          }
          iter.Prev();
          from := from - 1;
          if !iter.Valid() {
            break;
          }
        }
      }
      ScanEnds(es, sequence, kind.Value?, c, from, start);
      if kind.Deletion? {
        valid, index, savedKey, savedValue, direction := false, |es|, None, [], Forward;
      } else {
        CandidateIsShown(es, sequence, c, from);
        valid, index := true, c;
      }
    }

    lemma NoneAhead(es: seq<Entry>, s: SequenceNumber, start: int)
      ensures NoneShown(es, s, start, start)
    {
    }

    lemma ScanEnds(es: seq<Entry>, s: SequenceNumber, candidate: bool, c: int, from: int, to: int)
      requires Scanned(es, s, candidate, c, from, to)
      ensures forall i | (if candidate then c else from) < i <= to :: !Shows(es, s, i)
      ensures candidate ==> 0 <= c < |es| && from < c <= to && forall j | from < j < c && 0 <= j :: es[j].key.sequence > s
    {
    }

    /** Where a step forward from the entry shown starts. */
    ghost predicate AtStepStart(i: nat)
      reads this, iter
    {
      var es := iter.entries;
      && i < |es| && Shows(es, sequence, i) && iter.position <= i && savedKey == Some(es[i].key.user)
      && (forall k | iter.position <= k < i :: es[k].key.sequence > sequence || es[k].key.user == es[i].key.user)
      && (forall k | 0 <= k < iter.position :: es[k].key.user < es[i].key.user || iter.position == i)
    }

    lemma StepStart(i: nat)
      requires Ascending(iter.entries) && AtStepStart(i)
      ensures forall k | iter.position <= k < |iter.entries| && iter.entries[k].key.sequence <= sequence ::
                savedKey.value <= iter.entries[k].key.user
      ensures forall j, k | 0 <= j < iter.position <= k < |iter.entries| && iter.entries[j].key.user == iter.entries[k].key.user
                && iter.entries[j].key.sequence <= sequence :: iter.entries[k].key.user <= savedKey.value
    {
      var es := iter.entries;
      forall k | i <= k < |es| ensures es[i].key.user <= es[k].key.user {
        ByUser(es, i, k);
      }
      forall k | 0 <= k <= i ensures es[k].key.user <= es[i].key.user {
        ByUser(es, k, i);
      }
    }

    /** After a shown entry, every shown entry has a larger user key. */
    lemma LaterIsLarger(i: nat, k: nat)
      requires Ascending(iter.entries) && Shows(iter.entries, sequence, i) && Shows(iter.entries, sequence, k)
      ensures i < k ==> iter.entries[i].key.user < iter.entries[k].key.user
      ensures k <= i ==> iter.entries[k].key.user <= iter.entries[i].key.user
    {
      if i < k {
        ByUser(iter.entries, i, k);
      } else {
        ByUser(iter.entries, k, i);
      }
    }

    method Next()
      requires Ok() && valid
      modifies this, iter
      ensures Ok() && Position() == old(Position()) + 1
    {
      ghost var i := index;
      var es := iter.entries;
      if direction.Reverse? {
        direction := Forward;
        if !iter.Valid() {
          iter.SeekToFirst();
        } else {
          iter.Next();
        }
        if !iter.Valid() {
          assert false;
        }
      } else {
        savedKey := Some(iter.Current().key.user);
      }
      StepStart(i);
      FindNextUserEntry(true);
      forall k | 0 <= k < |es| && Shows(es, sequence, k) ensures Wanted(k, Some(es[i].key.user)) <==> i < k {
        LaterIsLarger(i, k);
      }
      ShownStep(es, sequence, i, index);
    }

    method Prev()
      requires Ok() && valid
      modifies this, iter
      ensures Ok() && Position() == PrevOf(|Map()|, old(Position()))
      ensures if old(Position()) == 0 then !valid else valid && Position() == old(Position()) - 1
    {
      ghost var i := index;
      var es := iter.entries;
      if direction.Forward? {
        savedKey := Some(iter.Current().key.user);
        while true
          invariant savedKey == Some(es[i].key.user) && direction.Forward?
          invariant iter.Valid() && iter.position <= i
          invariant forall k | iter.position <= k < i :: !Shows(es, sequence, k)
          decreases iter.position
        {
          iter.Prev();
          if !iter.Valid() {
            valid, index, savedKey, savedValue := false, |es|, None, [];
            NothingShownBetween(es, sequence, 0, i);
            return;
          }
          ByUser(es, iter.position, i);
          if iter.Current().key.user < savedKey.value {
            break;
          }
        }
        direction := Reverse;
      }
      FindPrevUserEntry();
      if valid {
        ShownStep(es, sequence, index, i);
      } else {
        NothingShownBetween(es, sequence, 0, i);
      }
    }

    /** Moves to the first key of the map at or after `target`. */
    method Seek(target: UserKey)
      requires Ascending(iter.entries)
      modifies this, iter
      ensures Ok()
      ensures Position() <= |Map()|
      ensures forall k | 0 <= k < Position() :: Map()[k].key.user < target
      ensures forall k | Position() <= k < |Map()| :: target <= Map()[k].key.user
    {
      direction, savedValue, savedKey := Forward, [], None;
      iter.SeekTo(LookupKey(target, sequence));
      ghost var start := iter.position;
      if iter.Valid() {
        FindNextUserEntry(false);
      } else {
        valid, index := false, |iter.entries|;
      }
      forall i | 0 <= i < index && Shows(iter.entries, sequence, i) ensures iter.entries[i].key.user < target {
        assert Wanted(i, None);
      }
      if valid {
        ByUser(iter.entries, start, index);
      }
      MapAround(iter.entries, sequence, index, target);
    }

    method SeekToFirst()
      requires Ascending(iter.entries)
      modifies this, iter
      ensures Ok() && Position() == 0
    {
      direction, savedValue := Forward, [];
      iter.SeekToFirst();
      if iter.Valid() {
        FindNextUserEntry(false);
      } else {
        valid, index := false, |iter.entries|;
      }
      forall i | 0 <= i < index ensures !Shows(iter.entries, sequence, i) {
        assert !Wanted(i, None);
      }
      NothingShownBetween(iter.entries, sequence, 0, index);
    }

    method SeekToLast()
      requires Ascending(iter.entries)
      modifies this, iter
      ensures Ok() && Position() == LastOf(|Map()|)
      ensures if Map() == [] then !valid else valid && Position() == |Map()| - 1
    {
      direction, savedValue := Reverse, [];
      iter.SeekToLast();
      FindPrevUserEntry();
      if valid {
        ShownStep(iter.entries, sequence, index, |iter.entries|);
      } else {
        NothingShownBetween(iter.entries, sequence, 0, |iter.entries|);
      }
    }
  }
}
