/** Table files and the searches over lists of them (db/version_set.cc). */
module Files {
  import opened Keys

  /** A table file: its metadata, and the entries stored in it. */
  datatype File = File(number: nat, size: nat, smallest: InternalKey, largest: InternalKey, entries: seq<Entry>)

  ghost predicate Ranged(f: File) {
    AtMost(f.smallest, f.largest)
  }

  /** The files of a level above 0: disjoint ranges in increasing order. */
  ghost predicate SortedDisjoint(files: seq<File>) {
    && (forall i | 0 <= i < |files| :: Ranged(files[i]))
    && (forall i, j | 0 <= i < j < |files| :: Less(files[i].largest, files[j].smallest))
  }

  /** A user-key bound; `None` is unbounded. */
  type Bound = Option<UserKey>

  predicate AfterFile(user: Bound, f: File) {
    user.Some? && user.value > f.largest.user
  }

  predicate BeforeFile(user: Bound, f: File) {
    user.Some? && user.value < f.smallest.user
  }

  /** Some user key lies both in the range [lo, hi] and in the range of `f`. */
  predicate Overlaps(lo: Bound, hi: Bound, f: File) {
    !AfterFile(lo, f) && !BeforeFile(hi, f)
  }

  predicate Within(u: UserKey, lo: Bound, hi: Bound) {
    (lo.Some? ==> lo.value <= u) && (hi.Some? ==> u <= hi.value)
  }

  lemma OverlapIsShared(lo: Bound, hi: Bound, f: File)
    requires f.smallest.user <= f.largest.user && (lo.Some? && hi.Some? ==> lo.value <= hi.value)
    ensures Overlaps(lo, hi, f) <==> exists u :: Within(u, lo, hi) && Within(u, Some(f.smallest.user), Some(f.largest.user))
  {
    if Overlaps(lo, hi, f) {
      var u := if lo.Some? && f.smallest.user < lo.value then lo.value else f.smallest.user;
      assert Within(u, lo, hi) && Within(u, Some(f.smallest.user), Some(f.largest.user));
    }
  }

  // ----- Binary search -----

  /** The least index whose file ends at or after `key`. */
  ghost predicate IsFirstReaching(files: seq<File>, key: InternalKey, r: nat) {
    && r <= |files|
    && (forall i | 0 <= i < r :: Less(files[i].largest, key))
    && (r < |files| ==> AtMost(key, files[r].largest))
  }

  method FindFile(files: seq<File>, key: InternalKey) returns (r: nat)
    requires SortedDisjoint(files)
    ensures IsFirstReaching(files, key, r)
    ensures forall i | r <= i < |files| :: AtMost(key, files[i].largest)
  {
    var left, right := 0, |files|;
    while left < right
      invariant 0 <= left <= right <= |files|
      invariant forall i | 0 <= i < left :: Less(files[i].largest, key)
      invariant forall i | right <= i < |files| :: AtMost(key, files[i].largest)
    {
      var mid := (left + right) / 2;
      if Less(files[mid].largest, key) {
        forall i | 0 <= i < mid ensures Less(files[i].largest, key) {
          assert Less(files[i].largest, files[mid].smallest) && Ranged(files[mid]);
        }
        left := mid + 1;
      } else {
        forall i | mid < i < |files| ensures AtMost(key, files[i].largest) {
          assert Less(files[mid].largest, files[i].smallest) && Ranged(files[i]);
        }
        right := mid;
      }
    }
    r := right;
  }

  /** The binary branch answers like the linear one on a sorted level. */
  method SomeFileOverlapsRange(disjointSorted: bool, files: seq<File>, smallest: Bound, largest: Bound)
    returns (b: bool)
    requires disjointSorted ==> SortedDisjoint(files)
    ensures b <==> exists i | 0 <= i < |files| :: Overlaps(smallest, largest, files[i])
  {
    if !disjointSorted {
      for i := 0 to |files|
        invariant forall j | 0 <= j < i :: !Overlaps(smallest, largest, files[j])
      {
        if AfterFile(smallest, files[i]) || BeforeFile(largest, files[i]) {
        } else {
          return true;
        }
      }
      return false;
    }
    var index := 0;
    if smallest.Some? {
      index := FindFile(files, InternalKey(smallest.value, MAX_SEQUENCE, Value));
    }
    assert forall i | 0 <= i < index :: AfterFile(smallest, files[i]);
    if index >= |files| {
      return false;
    }
    b := !BeforeFile(largest, files[index]);
    assert b ==> Overlaps(smallest, largest, files[index]);
    forall i | index < i < |files| ensures Overlaps(smallest, largest, files[i]) ==> b {
      assert Less(files[index].largest, files[i].smallest) && Ranged(files[index]);
    }
  }
}
