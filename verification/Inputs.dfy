/** Choosing the inputs of a compaction and the level of a flushed memtable
    (db/version_set.cc). */
module Inputs {
  import opened Keys
  import opened Files

  // ----- Overlapping files -----

  /** The files that overlap [lo, hi], in list order. */
  ghost function Overlapping(files: seq<File>, lo: Bound, hi: Bound): seq<File> {
    if files == [] then []
    else
      var rest := Overlapping(files[..|files| - 1], lo, hi);
      var last := files[|files| - 1];
      if Overlaps(lo, hi, last) then rest + [last] else rest
  }

  lemma {:induction false} OverlappingMembers(files: seq<File>, lo: Bound, hi: Bound)
    ensures forall f :: f in Overlapping(files, lo, hi) <==> f in files && Overlaps(lo, hi, f)
    ensures |Overlapping(files, lo, hi)| <= |files|
  {
    if files != [] {
      var rest := files[..|files| - 1];
      OverlappingMembers(rest, lo, hi);
      assert files == rest + [files[|files| - 1]];
    }
  }

  lemma OverlappingStep(files: seq<File>, i: nat, lo: Bound, hi: Bound)
    requires i < |files|
    ensures Overlapping(files[..i + 1], lo, hi)
         == Overlapping(files[..i], lo, hi) + if Overlaps(lo, hi, files[i]) then [files[i]] else []
  {
    assert files[..i + 1][..i] == files[..i];
  }

  /** The range [lo1, hi1] contains the range [lo, hi]. */
  predicate Contains(lo1: Bound, hi1: Bound, lo: Bound, hi: Bound) {
    && (lo1.Some? ==> lo.Some? && lo1.value <= lo.value)
    && (hi1.Some? ==> hi.Some? && hi.value <= hi1.value)
  }

  /** For ranges with a key in them that is to contain every key. */
  lemma ContainsIsSubset(lo1: Bound, hi1: Bound, lo: Bound, hi: Bound)
    requires lo.Some? && hi.Some? ==> lo.value <= hi.value
    ensures Contains(lo1, hi1, lo, hi) <==> forall u | Within(u, lo, hi) :: Within(u, lo1, hi1)
  {
    if lo1.Some? && !(lo.Some? && lo1.value <= lo.value) {
      var u := if lo.Some? then lo.value else if hi.Some? && hi.value < lo1.value then hi.value else lo1.value - 1.0;
      assert Within(u, lo, hi) && !Within(u, lo1, hi1);
    } else if hi1.Some? && !(hi.Some? && hi.value <= hi1.value) {
      var u := if hi.Some? then hi.value else if lo.Some? && hi1.value < lo.value then lo.value else hi1.value + 1.0;
      assert Within(u, lo, hi) && !Within(u, lo1, hi1);
    }
  }

  /** No file sticks out of [lo, hi]. */
  ghost predicate OverlapClosed(files: seq<File>, lo: Bound, hi: Bound) {
    forall f <- files | Overlaps(lo, hi, f) ::
      Contains(lo, hi, Some(f.smallest.user), Some(f.largest.user))
  }

  lemma EmptyScan(files: seq<File>, lo: Bound, hi: Bound)
    ensures Overlapping(files[..0], lo, hi) == [] && OverlapClosed(files[..0], lo, hi)
  {
  }

  lemma OverlapClosedStep(files: seq<File>, i: nat, lo: Bound, hi: Bound)
    requires i < |files| && OverlapClosed(files[..i], lo, hi)
    requires var f := files[i];
      Overlaps(lo, hi, f) ==> Contains(lo, hi, Some(f.smallest.user), Some(f.largest.user))
    ensures OverlapClosed(files[..i + 1], lo, hi)
  {
    assert files[..i + 1] == files[..i] + [files[i]];
  }

  /** Every overlap-closed range that contains [begin, end] also contains [lo, hi]. */
  ghost predicate Forced(files: seq<File>, begin: Bound, end: Bound, lo: Bound, hi: Bound) {
    forall lo1, hi1 | Contains(lo1, hi1, begin, end) && OverlapClosed(files, lo1, hi1) ::
      Contains(lo1, hi1, lo, hi)
  }

  /** [lo, hi] is the least overlap-closed range that contains [begin, end]. */
  ghost predicate IsLeastClosed(files: seq<File>, begin: Bound, end: Bound, lo: Bound, hi: Bound) {
    && Contains(lo, hi, begin, end)
    && OverlapClosed(files, lo, hi)
    && Forced(files, begin, end, lo, hi)
  }

  lemma RequestIsForced(files: seq<File>, begin: Bound, end: Bound)
    ensures Forced(files, begin, end, begin, end)
  {
  }

  lemma WideningIsForced(files: seq<File>, begin: Bound, end: Bound, lo: Bound, hi: Bound, f: File)
    requires Forced(files, begin, end, lo, hi) && f in files && Overlaps(lo, hi, f)
    ensures Forced(files, begin, end, Some(f.smallest.user), hi)
    ensures Forced(files, begin, end, lo, Some(f.largest.user))
  {
    forall lo1, hi1 | Contains(lo1, hi1, begin, end) && OverlapClosed(files, lo1, hi1)
      ensures Contains(lo1, hi1, Some(f.smallest.user), hi)
      ensures Contains(lo1, hi1, lo, Some(f.largest.user))
    {
      assert Contains(lo1, hi1, lo, hi) && Overlaps(lo1, hi1, f);
    }
  }

  ghost function StartsBefore(files: seq<File>, lo: Bound): set<int> {
    set i | 0 <= i < |files| && lo.Some? && files[i].smallest.user < lo.value
  }

  ghost function EndsAfter(files: seq<File>, hi: Bound): set<int> {
    set i | 0 <= i < |files| && hi.Some? && files[i].largest.user > hi.value
  }

  lemma Shrinks<T>(a: set<T>, b: set<T>, x: T)
    requires a <= b && x in b && x !in a
    ensures |a| < |b|
  {
    assert a <= b - {x};
    SubsetSize(a, b - {x});
  }

  lemma SubsetSize<T>(a: set<T>, b: set<T>)
    requires a <= b
    ensures |a| <= |b|
  {
    if x :| x in a {
      SubsetSize(a - {x}, b - {x});
    }
  }

  /** The range that a request comes down to: itself, on level 0 the least
      overlap-closed one around it. */
  ghost predicate IsRange(level: nat, files: seq<File>, begin: Bound, end: Bound, lo: Bound, hi: Bound) {
    if level == 0 then IsLeastClosed(files, begin, end, lo, hi) else lo == begin && hi == end
  }

  /** Level 0 restarts whenever a file it takes widens the range. */
  method GetOverlappingInputs(level: nat, files: seq<File>, begin: Bound, end: Bound) returns (inputs: seq<File>)
    ensures exists lo, hi :: IsRange(level, files, begin, end, lo, hi) && inputs == Overlapping(files, lo, hi)
  {
    hide Forced, Overlapping, OverlapClosed;
    var userBegin, userEnd := begin, end;
    assert Forced(files, begin, end, begin, end) by { RequestIsForced(files, begin, end); }
    inputs := [];
    EmptyScan(files, begin, end);
    var i := 0;
    while i < |files|
      invariant 0 <= i <= |files|
      invariant inputs == Overlapping(files[..i], userBegin, userEnd)
      invariant level > 0 ==> userBegin == begin && userEnd == end
      invariant Contains(userBegin, userEnd, begin, end)
      invariant level == 0 ==> OverlapClosed(files[..i], userBegin, userEnd)
      invariant Forced(files, begin, end, userBegin, userEnd)
      decreases |StartsBefore(files, userBegin)| + |EndsAfter(files, userEnd)|, |files| - i
    {
      var f := files[i];
      OverlappingStep(files, i, userBegin, userEnd);
      i := i + 1;
      if userBegin.Some? && f.largest.user < userBegin.value {
      } else if userEnd.Some? && f.smallest.user > userEnd.value {
      } else {
        inputs := inputs + [f];
        if level == 0 {
          WideningIsForced(files, begin, end, userBegin, userEnd, f);
          if userBegin.Some? && f.smallest.user < userBegin.value {
            Shrinks(StartsBefore(files, Some(f.smallest.user)), StartsBefore(files, userBegin), i - 1);
            userBegin := Some(f.smallest.user);
            inputs, i := [], 0;
            EmptyScan(files, userBegin, userEnd);
          } else if userEnd.Some? && f.largest.user > userEnd.value {
            Shrinks(EndsAfter(files, Some(f.largest.user)), EndsAfter(files, userEnd), i - 1);
            userEnd := Some(f.largest.user);
            inputs, i := [], 0;
            EmptyScan(files, userBegin, userEnd);
          }
        }
      }
      if level == 0 && 0 < i {
        OverlapClosedStep(files, i - 1, userBegin, userEnd);
      }
    }
    assert files[..|files|] == files;
    assert IsRange(level, files, begin, end, userBegin, userEnd);
  }

  // ----- Ranges and boundary files -----

  /** `key` is the largest key of the files. */
  ghost predicate IsLargest(files: seq<File>, key: InternalKey) {
    && (exists f <- files :: f.largest == key)
    && (forall f <- files :: AtMost(f.largest, key))
  }

  ghost predicate IsSmallest(files: seq<File>, key: InternalKey) {
    && (exists f <- files :: f.smallest == key)
    && (forall f <- files :: AtMost(key, f.smallest))
  }

  method FindLargestKey(files: seq<File>) returns (key: Option<InternalKey>)
    ensures key.None? <==> files == []
    ensures key.Some? ==> IsLargest(files, key.value)
    ensures key.Some? ==> (exists f <- files :: f.largest == key.value) && forall f <- files :: !Less(key.value, f.largest)
  {
    if files == [] {
      return None;
    }
    var largest := files[0].largest;
    for i := 1 to |files|
      invariant IsLargest(files[..i], largest)
    {
      assert files[..i + 1] == files[..i] + [files[i]];
      if Less(largest, files[i].largest) {
        largest := files[i].largest;
      }
    }
    assert files[..|files|] == files;
    key := Some(largest);
  }

  method GetRange(files: seq<File>) returns (smallest: InternalKey, largest: InternalKey)
    requires files != []
    ensures IsSmallest(files, smallest) && IsLargest(files, largest)
    ensures (exists f <- files :: f.smallest == smallest) && forall f <- files :: !Less(f.smallest, smallest)
    ensures (exists f <- files :: f.largest == largest) && forall f <- files :: !Less(largest, f.largest)
  {
    smallest, largest := files[0].smallest, files[0].largest;
    for i := 1 to |files|
      invariant IsSmallest(files[..i], smallest) && IsLargest(files[..i], largest)
    {
      assert files[..i + 1] == files[..i] + [files[i]];
      if Less(files[i].smallest, smallest) {
        smallest := files[i].smallest;
      }
      if Less(largest, files[i].largest) {
        largest := files[i].largest;
      }
    }
    assert files[..|files|] == files;
  }

  /** `f` starts after `key` but with the same user key. */
  predicate IsBoundaryFile(f: File, key: InternalKey) {
    Less(key, f.smallest) && f.smallest.user == key.user
  }

  method FindSmallestBoundaryFile(levelFiles: seq<File>, largestKey: InternalKey) returns (r: Option<File>)
    ensures r.None? <==> forall f <- levelFiles :: !IsBoundaryFile(f, largestKey)
    ensures r.Some? ==>
      && r.value in levelFiles && IsBoundaryFile(r.value, largestKey)
      && forall f <- levelFiles | IsBoundaryFile(f, largestKey) :: AtMost(r.value.smallest, f.smallest)
    ensures r.None? <==> forall f <- levelFiles :: !(Less(largestKey, f.smallest) && f.smallest.user == largestKey.user)
    ensures r.Some? ==> Less(largestKey, r.value.smallest) && r.value.smallest.user == largestKey.user
    ensures r.Some? ==> forall f <- levelFiles | Less(largestKey, f.smallest) && f.smallest.user == largestKey.user ::
      !Less(f.smallest, r.value.smallest)
  {
    r := None;
    for i := 0 to |levelFiles|
      invariant r.None? <==> forall j | 0 <= j < i :: !IsBoundaryFile(levelFiles[j], largestKey)
      invariant r.Some? ==>
        && r.value in levelFiles && IsBoundaryFile(r.value, largestKey)
        && forall j | 0 <= j < i && IsBoundaryFile(levelFiles[j], largestKey) ::
             AtMost(r.value.smallest, levelFiles[j].smallest)
    {
      var f := levelFiles[i];
      if Less(largestKey, f.smallest) && f.smallest.user == largestKey.user {
        if r.None? || Less(f.smallest, r.value.smallest) {
          r := Some(f);
        }
      }
    }
  }

  /** No file of the level continues the versions of the user key on which
      the chosen files end. */
  ghost predicate NoBoundaryLeft(levelFiles: seq<File>, chosen: seq<File>) {
    forall key | IsLargest(chosen, key) :: forall f <- levelFiles :: !IsBoundaryFile(f, key)
  }

  ghost function EndsAbove(files: seq<File>, key: InternalKey): set<int> {
    set i | 0 <= i < |files| && Less(key, files[i].largest)
  }

  /** `r` is `start` followed by distinct files of the level, each of which
      continues the user key on which an earlier file ends. */
  ghost predicate ExtendsByBoundaries(levelFiles: seq<File>, start: seq<File>, r: seq<File>) {
    && start <= r
    && (forall f <- r :: Ranged(f))
    && (forall k | |start| <= k < |r| :: r[k] in levelFiles && r[k] !in r[..k] && ContinuesEarlier(r, k))
  }

  /** File `k` starts with a user key on which an earlier file ends. */
  ghost predicate ContinuesEarlier(files: seq<File>, k: nat)
    requires k < |files|
  {
    exists j | 0 <= j < k :: files[j].largest.user == files[k].smallest.user
  }

  lemma LargestOfExtended(r: seq<File>, key: InternalKey, f: File)
    requires IsLargest(r, key) && Less(key, f.largest)
    ensures IsLargest(r + [f], f.largest)
  {
    assert f in r + [f];
  }

  lemma ExtendRun(levelFiles: seq<File>, start: seq<File>, r: seq<File>, f: File, j: nat)
    requires ExtendsByBoundaries(levelFiles, start, r)
    requires f in levelFiles && Ranged(f) && f !in r
    requires j < |r| && r[j].largest.user == f.smallest.user
    ensures ExtendsByBoundaries(levelFiles, start, r + [f])
  {
    var r1 := r + [f];
    forall k | |start| <= k < |r1| ensures r1[k] in levelFiles && r1[k] !in r1[..k] && ContinuesEarlier(r1, k) {
      assert r1[..k] == r[..k];
      if k < |r| {
        assert r[k] !in r[..k] && ContinuesEarlier(r, k);
        var i :| 0 <= i < k && r[i].largest.user == r[k].smallest.user;
        assert r1[i].largest.user == r1[k].smallest.user;
      } else {
        assert r[..k] == r;
        assert r1[j].largest.user == r1[k].smallest.user;
      }
    }
  }

  lemma FewerEndAbove(levelFiles: seq<File>, key: InternalKey, f: File)
    requires f in levelFiles && Ranged(f) && Less(key, f.smallest)
    ensures |EndsAbove(levelFiles, f.largest)| < |EndsAbove(levelFiles, key)|
  {
    var i :| 0 <= i < |levelFiles| && levelFiles[i] == f;
    Shrinks(EndsAbove(levelFiles, f.largest), EndsAbove(levelFiles, key), i);
  }

  lemma TakeBoundary(levelFiles: seq<File>, start: seq<File>, r: seq<File>, key: InternalKey, f: File)
    requires ExtendsByBoundaries(levelFiles, start, r) && IsLargest(r, key)
    requires f in levelFiles && Ranged(f) && IsBoundaryFile(f, key)
    ensures ExtendsByBoundaries(levelFiles, start, r + [f])
    ensures IsLargest(r + [f], f.largest)
    ensures |EndsAbove(levelFiles, f.largest)| < |EndsAbove(levelFiles, key)|
  {
    hide EndsAbove;
    assert Less(key, f.largest);
    assert f !in r;
    var j :| 0 <= j < |r| && r[j].largest == key;
    ExtendRun(levelFiles, start, r, f, j);
    LargestOfExtended(r, key, f);
    FewerEndAbove(levelFiles, key, f);
  }

  ghost predicate AllIn(part: seq<File>, whole: seq<File>) {
    forall f <- part :: f in whole
  }

  /** No file of the level lies between two chosen ones. */
  ghost predicate GapFree(files: seq<File>, chosen: seq<File>) {
    forall f <- chosen, g <- files, h <- chosen | Less(f.largest, g.smallest) && Less(g.largest, h.smallest) ::
      g in chosen
  }

  /** On a sorted level the first boundary file leaves no gap. */
  lemma BoundaryLeavesNoGap(files: seq<File>, chosen: seq<File>, key: InternalKey, f: File)
    requires SortedDisjoint(files) && GapFree(files, chosen) && IsLargest(chosen, key)
    requires f in files && IsBoundaryFile(f, key)
    requires forall g <- files | IsBoundaryFile(g, key) :: AtMost(f.smallest, g.smallest)
    requires AllIn(chosen, files)
    ensures GapFree(files, chosen + [f])
  {
    var h :| h in chosen && h.largest == key;
    forall a <- chosen + [f], g <- files, b <- chosen + [f] | Less(a.largest, g.smallest) && Less(g.largest, b.smallest)
      ensures g in chosen + [f]
    {
      InOrder(files, g, h);
      InOrder(files, g, f);
    }
  }

  lemma InOrder(files: seq<File>, g: File, h: File)
    requires SortedDisjoint(files) && g in files && h in files
    ensures g == h || Less(g.largest, h.smallest) || Less(h.largest, g.smallest)
    ensures Ranged(g) && Ranged(h)
  {
  }

  method AddBoundaryInputs(levelFiles: seq<File>, compactionFiles: seq<File>) returns (r: seq<File>)
    requires forall f | f in levelFiles || f in compactionFiles :: Ranged(f)
    ensures ExtendsByBoundaries(levelFiles, compactionFiles, r)
    ensures NoBoundaryLeft(levelFiles, r)
    ensures SortedDisjoint(levelFiles) && AllIn(compactionFiles, levelFiles) && GapFree(levelFiles, compactionFiles) ==>
              AllIn(r, levelFiles) && GapFree(levelFiles, r)
  {
    r := compactionFiles;
    var largest := FindLargestKey(compactionFiles);
    if largest.None? {
      return;
    }
    var largestKey := largest.value;
    var continueSearching := true;
    while continueSearching
      invariant ExtendsByBoundaries(levelFiles, compactionFiles, r)
      invariant IsLargest(r, largestKey)
      invariant SortedDisjoint(levelFiles) && AllIn(compactionFiles, levelFiles) && GapFree(levelFiles, compactionFiles) ==>
                  AllIn(r, levelFiles) && GapFree(levelFiles, r)
      invariant !continueSearching ==> forall f <- levelFiles :: !IsBoundaryFile(f, largestKey)
      decreases continueSearching, |EndsAbove(levelFiles, largestKey)|
    {
      hide ExtendsByBoundaries, IsLargest, EndsAbove, SortedDisjoint, GapFree;
      var boundary := FindSmallestBoundaryFile(levelFiles, largestKey);
      if boundary.Some? {
        TakeBoundary(levelFiles, compactionFiles, r, largestKey, boundary.value);
        if SortedDisjoint(levelFiles) && AllIn(compactionFiles, levelFiles) && GapFree(levelFiles, compactionFiles) {
          BoundaryLeavesNoGap(levelFiles, r, largestKey, boundary.value);
        }
        r := r + [boundary.value];
        largestKey := boundary.value.largest;
      } else {
        continueSearching := false;
      }
    }
    assert forall key | IsLargest(r, key) :: key == largestKey;
  }

  // ----- All inputs of a compaction -----

  /** Which files may stay behind when `chosen` leaves the level: on level 0
      only files with no user key in common with a chosen one, on a sorted
      level also earlier files, whose versions of a shared user key are newer. */
  ghost predicate InputsClosed(level: nat, files: seq<File>, chosen: seq<File>) {
    forall f <- chosen, g <- files | g !in chosen ::
      && (level == 0 ==> !Overlaps(Some(f.smallest.user), Some(f.largest.user), g))
      && (level > 0 && Less(f.largest, g.smallest) ==> f.largest.user < g.smallest.user)
  }

  /** `parents` are the files of the next level that overlap `chosen`. */
  ghost predicate PicksParents(nextFiles: seq<File>, chosen: seq<File>, parents: seq<File>) {
    forall lo, hi | IsSmallest(chosen, lo) && IsLargest(chosen, hi) ::
      parents == Overlapping(nextFiles, Some(lo.user), Some(hi.user))
  }

  lemma GapFreeIsClosed(level: nat, files: seq<File>, chosen: seq<File>, key: InternalKey)
    requires level > 0 && SortedDisjoint(files) && AllIn(chosen, files)
    requires GapFree(files, chosen) && NoBoundaryLeft(files, chosen) && IsLargest(chosen, key)
    ensures InputsClosed(level, files, chosen)
  {
    var h :| h in chosen && h.largest == key;
    forall f <- chosen, g <- files | g !in chosen && Less(f.largest, g.smallest)
      ensures f.largest.user < g.smallest.user
    {
      InOrder(files, g, h);
      assert !IsBoundaryFile(g, key);
    }
  }

  lemma FirstAddedSharesKey(files: seq<File>, chosen: seq<File>, r: seq<File>)
    requires ExtendsByBoundaries(files, chosen, r) && |chosen| < |r|
    ensures exists f <- chosen, g <- files :: g !in chosen && f.largest.user == g.smallest.user
  {
    var k := |chosen|;
    assert r[..k] == chosen;
    assert r[k] in files && r[k] !in chosen && ContinuesEarlier(r, k);
    var j :| 0 <= j < k && r[j].largest.user == r[k].smallest.user;
    assert chosen[j] == r[j];
  }

  /** On level 0 a closed choice has no boundary files left to add. */
  lemma ClosedAddsNothing(files: seq<File>, chosen: seq<File>, r: seq<File>)
    requires InputsClosed(0, files, chosen) && AllIn(chosen, files)
    requires forall f <- files :: Ranged(f)
    requires ExtendsByBoundaries(files, chosen, r)
    ensures r == chosen
  {
    if |chosen| < |r| {
      FirstAddedSharesKey(files, chosen, r);
      assert false;
    }
  }

  /** Widening the range can only add files, and adds none if the count stays. */
  lemma {:induction false} SameCountSameFiles(files: seq<File>, lo: Bound, hi: Bound, lo1: Bound, hi1: Bound)
    requires Contains(lo1, hi1, lo, hi)
    ensures |Overlapping(files, lo, hi)| <= |Overlapping(files, lo1, hi1)|
    ensures |Overlapping(files, lo, hi)| == |Overlapping(files, lo1, hi1)| ==>
              Overlapping(files, lo, hi) == Overlapping(files, lo1, hi1)
  {
    if files != [] {
      SameCountSameFiles(files[..|files| - 1], lo, hi, lo1, hi1);
    }
  }

  lemma OverlappingIsGapFree(files: seq<File>, lo: Bound, hi: Bound)
    requires SortedDisjoint(files)
    ensures GapFree(files, Overlapping(files, lo, hi))
  {
    OverlappingMembers(files, lo, hi);
    forall g <- files ensures Ranged(g) {
    }
  }

  lemma LeastClosedIsClosed(files: seq<File>, lo: Bound, hi: Bound, chosen: seq<File>)
    requires OverlapClosed(files, lo, hi) && chosen == Overlapping(files, lo, hi)
    ensures InputsClosed(0, files, chosen)
  {
    OverlappingMembers(files, lo, hi);
    forall f <- chosen, g <- files | g !in chosen
      ensures !Overlaps(Some(f.smallest.user), Some(f.largest.user), g)
    {
      assert Overlaps(lo, hi, f) && !Overlaps(lo, hi, g);
    }
  }

  function TotalFileSize(files: seq<File>): nat {
    if files == [] then 0 else files[0].size + TotalFileSize(files[1..])
  }

  lemma {:induction false} SizesAdd(files: seq<File>, f: File)
    ensures TotalFileSize([]) == 0 && TotalFileSize(files + [f]) == TotalFileSize(files) + f.size
  {
    if files == [] {
      assert [f][1..] == [];
      assert TotalFileSize([f]) == f.size + TotalFileSize([]);
    } else {
      SizesAdd(files[1..], f);
      assert (files + [f])[1..] == files[1..] + [f];
    }
  }

  ghost predicate Distinct(files: seq<File>) {
    forall i, j | 0 <= i < j < |files| :: files[i] != files[j]
  }

  lemma {:induction false} OverlappingDistinct(files: seq<File>, lo: Bound, hi: Bound)
    requires Distinct(files)
    ensures Distinct(Overlapping(files, lo, hi))
  {
    if files != [] {
      var rest := files[..|files| - 1];
      OverlappingDistinct(rest, lo, hi);
      OverlappingMembers(rest, lo, hi);
      assert forall f <- Overlapping(rest, lo, hi) :: f != files[|files| - 1];
    }
  }

  lemma ExtensionDistinct(files: seq<File>, seed: seq<File>, r: seq<File>)
    requires ExtendsByBoundaries(files, seed, r) && Distinct(seed)
    ensures Distinct(r)
  {
    forall i, j | 0 <= i < j < |r| ensures r[i] != r[j] {
      if j >= |seed| {
        assert r[j] !in r[..j] && r[i] in r[..j];
      } else {
        assert r[i] == seed[i] && r[j] == seed[j];
      }
    }
  }

  /** What the picked inputs of a level look like before they are completed. */
  ghost predicate GoodSeed(level: nat, files: seq<File>, seed: seq<File>) {
    && seed != []
    && AllIn(seed, files) && Distinct(files) && Distinct(seed)
    && (forall f <- files :: Ranged(f))
    && (level == 0 ==> InputsClosed(0, files, seed))
    && (level > 0 ==> SortedDisjoint(files) && GapFree(files, seed))
  }

  method Complete(level: nat, files: seq<File>, seed: seq<File>) returns (r: seq<File>)
    requires GoodSeed(level, files, seed)
    ensures ExtendsByBoundaries(files, seed, r) && NoBoundaryLeft(files, r)
    ensures AllIn(r, files) && Distinct(r) && InputsClosed(level, files, r)
    ensures level > 0 ==> GapFree(files, r)
  {
    r := AddBoundaryInputs(files, seed);
    ExtensionDistinct(files, seed, r);
    var key := FindLargestKey(r);
    if level == 0 {
      ClosedAddsNothing(files, seed, r);
    } else {
      GapFreeIsClosed(level, files, r, key.value);
    }
  }

  lemma InRangeOverlaps(files: seq<File>, part: seq<File>, smallest: InternalKey, largest: InternalKey, lo: Bound, hi: Bound)
    requires IsSmallest(part, smallest) && IsLargest(part, largest)
    requires Contains(lo, hi, Some(smallest.user), Some(largest.user))
    requires forall f <- part :: f in files ==> Ranged(f)
    ensures forall f <- part | f in files :: f in Overlapping(files, lo, hi)
  {
    OverlappingMembers(files, lo, hi);
  }

  lemma RangesNest(part: seq<File>, whole: seq<File>, s: InternalKey, l: InternalKey, ns: InternalKey, nl: InternalKey)
    requires AllIn(part, whole)
    requires IsSmallest(part, s) && IsLargest(part, l) && IsSmallest(whole, ns) && IsLargest(whole, nl)
    ensures Contains(Some(ns.user), Some(nl.user), Some(s.user), Some(l.user))
  {
  }

  /** The parents of `chosen`. */
  method OverlappingParents(level: nat, nextFiles: seq<File>, chosen: seq<File>)
    returns (parents: seq<File>, smallest: InternalKey, largest: InternalKey)
    requires chosen != []
    ensures IsSmallest(chosen, smallest) && IsLargest(chosen, largest)
    ensures parents == Overlapping(nextFiles, Some(smallest.user), Some(largest.user))
    ensures PicksParents(nextFiles, chosen, parents)
  {
    smallest, largest := GetRange(chosen);
    parents := GetOverlappingInputs(level + 1, nextFiles, Some(smallest.user), Some(largest.user));
    assert forall key | IsSmallest(chosen, key) :: key == smallest;
    assert forall key | IsLargest(chosen, key) :: key == largest;
  }

  /** `r` is the files of the level that overlap the range of `all` (on level 0
      the least overlap-closed one around it), completed by boundary files. */
  ghost predicate IsExpansion(level: nat, files: seq<File>, all: seq<File>, r: seq<File>) {
    exists s, l, lo, hi ::
      && IsSmallest(all, s) && IsLargest(all, l)
      && IsRange(level, files, Some(s.user), Some(l.user), lo, hi)
      && ExtendsByBoundaries(files, Overlapping(files, lo, hi), r) && NoBoundaryLeft(files, r)
  }

  method Expand(level: nat, files: seq<File>, base: seq<File>, parents: seq<File>) returns (r: seq<File>)
    requires GoodSeed(level, files, base)
    ensures AllIn(base, r) && AllIn(r, files) && Distinct(r) && InputsClosed(level, files, r)
    ensures IsExpansion(level, files, base + parents, r)
  {
    hide IsSmallest, IsLargest, Overlapping, OverlapClosed, Forced, ExtendsByBoundaries, InputsClosed, NoBoundaryLeft;
    var all := base + parents;
    var allStart, allLimit := GetRange(all);
    var seed := GetOverlappingInputs(level, files, Some(allStart.user), Some(allLimit.user));
    ghost var lo, hi :| IsRange(level, files, Some(allStart.user), Some(allLimit.user), lo, hi) && seed == Overlapping(files, lo, hi);
    OverlappingMembers(files, lo, hi);
    OverlappingDistinct(files, lo, hi);
    InRangeOverlaps(files, all, allStart, allLimit, lo, hi);
    assert AllIn(base, all) && AllIn(base, seed);
    assert base[0] in seed;
    if level == 0 {
      LeastClosedIsClosed(files, lo, hi, seed);
    } else {
      OverlappingIsGapFree(files, lo, hi);
    }
    r := Complete(level, files, seed);
    ExtensionKeeps(files, seed, r, base);
  }

  lemma ExtensionKeeps(files: seq<File>, seed: seq<File>, r: seq<File>, part: seq<File>)
    requires ExtendsByBoundaries(files, seed, r) && AllIn(part, seed)
    ensures AllIn(part, r)
  {
    forall f <- part ensures f in r {
      var i :| 0 <= i < |seed| && seed[i] == f;
      assert r[i] == f;
    }
  }

  /** Completes the inputs of a compaction: the first choice `base`, or its
      expansion exactly when that adds files, stays below the limit and has the
      same parents. */
  method SetupOtherInputs(level: nat, files: seq<File>, nextFiles: seq<File>, seed: seq<File>, limit: nat)
    returns (chosen: seq<File>, parents: seq<File>, ghost base: seq<File>, ghost expanded0: seq<File>)
    requires GoodSeed(level, files, seed) && SortedDisjoint(nextFiles)
    ensures chosen != [] && AllIn(seed, chosen) && AllIn(chosen, files) && Distinct(chosen)
    ensures InputsClosed(level, files, chosen)
    ensures PicksParents(nextFiles, chosen, parents)
    ensures ExtendsByBoundaries(files, seed, base) && NoBoundaryLeft(files, base) && PicksParents(nextFiles, base, parents)
    ensures parents == [] ==> chosen == base
    ensures parents != [] ==>
      && IsExpansion(level, files, base + parents, expanded0)
      && chosen == if |expanded0| > |base| && TotalFileSize(parents) + TotalFileSize(expanded0) < limit
                      && PicksParents(nextFiles, expanded0, parents) then expanded0 else base
  {
    hide InputsClosed, ExtendsByBoundaries, NoBoundaryLeft, IsExpansion, GoodSeed, SortedDisjoint, PicksParents, GapFree, Distinct;
    assert seed != [] by { SeedFacts(level, files, seed); }
    chosen := Complete(level, files, seed);
    base, expanded0 := chosen, [];
    ExtensionKeeps(files, seed, chosen, seed);
    assert GoodSeed(level, files, chosen) by { CompletedIsGood(level, files, seed, chosen); }
    assert chosen != [] by { SeedFacts(level, files, chosen); }
    var smallest, largest;
    parents, smallest, largest := OverlappingParents(level, nextFiles, chosen);
    if parents != [] {
      var expanded := Expand(level, files, chosen, parents);
      expanded0 := expanded;
      assert chosen[0] in expanded;
      if |expanded| > |chosen| && TotalFileSize(parents) + TotalFileSize(expanded) < limit {
        var expandedParents, newStart, newLimit := OverlappingParents(level, nextFiles, expanded);
        RangesNest(chosen, expanded, smallest, largest, newStart, newLimit);
        SameCountSameFiles(nextFiles, Some(smallest.user), Some(largest.user), Some(newStart.user), Some(newLimit.user));
        if |expandedParents| == |parents| {
          chosen, parents := expanded, expandedParents;
        } else {
          OtherParents(nextFiles, expanded, parents, expandedParents, newStart, newLimit);
        }
      }
    }
  }

  /** The parents of given files are determined. */
  lemma OtherParents(nextFiles: seq<File>, chosen: seq<File>, parents: seq<File>, others: seq<File>, s: InternalKey, l: InternalKey)
    requires PicksParents(nextFiles, chosen, others) && parents != others && IsSmallest(chosen, s) && IsLargest(chosen, l)
    ensures !PicksParents(nextFiles, chosen, parents)
  {
  }

  lemma SeedFacts(level: nat, files: seq<File>, seed: seq<File>)
    requires GoodSeed(level, files, seed)
    ensures seed != []
  {
  }

  lemma CompletedIsGood(level: nat, files: seq<File>, seed: seq<File>, r: seq<File>)
    requires GoodSeed(level, files, seed) && ExtendsByBoundaries(files, seed, r)
    requires AllIn(r, files) && Distinct(r) && InputsClosed(level, files, r)
    requires level > 0 ==> GapFree(files, r)
    ensures GoodSeed(level, files, r)
  {
  }

  // ----- The level of a flushed memtable -----

  method PickLevelForMemTableOutput(levels: seq<seq<File>>, smallest: UserKey, largest: UserKey, grandparentLimit: nat)
    returns (level: nat)
    requires |levels| == NUM_LEVELS && forall i | 0 < i < NUM_LEVELS :: SortedDisjoint(levels[i])
    ensures level <= 2
    ensures level > 0 ==> forall i | 0 <= i <= level :: NoOverlap(levels[i], smallest, largest)
    ensures forall i | 2 <= i < level + 2 ::
      TotalFileSize(Overlapping(levels[i], Some(smallest), Some(largest))) <= grandparentLimit
    ensures level < 2 ==>
      || !NoOverlap(levels[0], smallest, largest)
      || !NoOverlap(levels[level + 1], smallest, largest)
      || TotalFileSize(Overlapping(levels[level + 2], Some(smallest), Some(largest))) > grandparentLimit
    // Without files in the range in levels 0 to 3 the table goes to level 2.
    ensures (forall i, f | 0 <= i <= 3 && f in levels[i] :: f.largest.user < smallest || largest < f.smallest.user) ==> level == 2
    ensures level > 0 ==> forall i, f | 0 <= i <= level && f in levels[i] :: f.largest.user < smallest || largest < f.smallest.user
  {
    level := 0;
    var overlap := SomeFileOverlapsRange(false, levels[0], Some(smallest), Some(largest));
    if !overlap {
      while level < MAX_MEM_COMPACT_LEVEL
        invariant level <= MAX_MEM_COMPACT_LEVEL
        invariant forall i | 0 <= i <= level :: NoOverlap(levels[i], smallest, largest)
        invariant forall i | 2 <= i < level + 2 ::
          TotalFileSize(Overlapping(levels[i], Some(smallest), Some(largest))) <= grandparentLimit
      {
        overlap := SomeFileOverlapsRange(true, levels[level + 1], Some(smallest), Some(largest));
        if overlap {
          break;
        }
        var overlaps := GetOverlappingInputs(level + 2, levels[level + 2], Some(smallest), Some(largest));
        if TotalFileSize(overlaps) > grandparentLimit {
          break;
        }
        level := level + 1;
      }
    }
    PickedLevel(levels, smallest, largest, grandparentLimit, level);
  }

  lemma PickedLevel(levels: seq<seq<File>>, smallest: UserKey, largest: UserKey, grandparentLimit: nat, level: nat)
    requires |levels| == NUM_LEVELS && level <= 2
    requires level > 0 ==> forall i | 0 <= i <= level :: NoOverlap(levels[i], smallest, largest)
    requires level < 2 ==>
      || !NoOverlap(levels[0], smallest, largest)
      || !NoOverlap(levels[level + 1], smallest, largest)
      || TotalFileSize(Overlapping(levels[level + 2], Some(smallest), Some(largest))) > grandparentLimit
    ensures (forall i, f | 0 <= i <= 3 && f in levels[i] :: f.largest.user < smallest || largest < f.smallest.user) ==> level == 2
    ensures level > 0 ==> forall i, f | 0 <= i <= level && f in levels[i] :: f.largest.user < smallest || largest < f.smallest.user
  {
    if level < 2 && forall i, f | 0 <= i <= 3 && f in levels[i] :: f.largest.user < smallest || largest < f.smallest.user {
      hide NoOverlap, Overlapping, TotalFileSize;
      NothingOverlaps(levels[0], smallest, largest);
      NothingOverlaps(levels[level + 1], smallest, largest);
      NothingOverlaps(levels[level + 2], smallest, largest);
    }
  }

  lemma NothingOverlaps(files: seq<File>, smallest: UserKey, largest: UserKey)
    requires forall f <- files :: f.largest.user < smallest || largest < f.smallest.user
    ensures NoOverlap(files, smallest, largest) && TotalFileSize(Overlapping(files, Some(smallest), Some(largest))) == 0
  {
    forall f | f in Overlapping(files, Some(smallest), Some(largest)) ensures false {
      OverlappingMembers(files, Some(smallest), Some(largest));
    }
  }

  const NUM_LEVELS := 7
  const MAX_MEM_COMPACT_LEVEL := 2

  ghost predicate NoOverlap(files: seq<File>, smallest: UserKey, largest: UserKey) {
    forall i | 0 <= i < |files| :: !Overlaps(Some(smallest), Some(largest), files[i])
  }
}
