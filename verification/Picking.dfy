/** Where a compaction starts: the file that is due, or the range asked for
    (db/version_set.cc). */
module Picking {
  import opened Keys
  import opened Files
  import opened Inputs

  ghost predicate LevelIsSorted(level: nat, files: seq<File>) {
    (forall f <- files :: Ranged(f)) && Distinct(files) && (level > 0 ==> SortedDisjoint(files))
  }

  /** What a compaction of `level` that starts from the files in `seed` may take. */
  ghost predicate IsCompleted(level: nat, files: seq<File>, nextFiles: seq<File>, seed: seq<File>,
                              chosen: seq<File>, parents: seq<File>) {
    && chosen != [] && AllIn(seed, chosen) && AllIn(chosen, files) && Distinct(chosen)
    && InputsClosed(level, files, chosen) && PicksParents(nextFiles, chosen, parents)
  }

  predicate IsAfter(f: File, pointer: Option<InternalKey>) {
    pointer.None? || Less(pointer.value, f.largest)
  }

  /** The first file that ends after the pointer; the first of all if none does. */
  method NextFile(files: seq<File>, pointer: Option<InternalKey>) returns (f: File)
    requires files != []
    ensures exists n | 0 <= n < |files| ::
      && f == files[n]
      && (if exists i | 0 <= i < |files| :: IsAfter(files[i], pointer) then
            IsAfter(f, pointer) && forall i | 0 <= i < n :: !IsAfter(files[i], pointer)
          else n == 0)
    ensures pointer == None ==> f == files[0]
    ensures pointer.Some? ==> exists n | 0 <= n < |files| ::
      && f == files[n]
      && (if exists i | 0 <= i < |files| :: Less(pointer.value, files[i].largest) then
            Less(pointer.value, f.largest) && forall i | 0 <= i < n :: !Less(pointer.value, files[i].largest)
          else n == 0)
  {
    for i := 0 to |files|
      invariant forall j | 0 <= j < i :: !IsAfter(files[j], pointer)
    {
      if IsAfter(files[i], pointer) {
        return files[i];
      }
    }
    f := files[0];
  }

  /** The seed of a compaction that one file is due for. */
  method SeedFrom(level: nat, files: seq<File>, f: File) returns (seed: seq<File>)
    requires LevelIsSorted(level, files) && f in files
    ensures GoodSeed(level, files, seed) && f in seed
  {
    seed := [f];
    if level == 0 {
      var smallest, largest := GetRange(seed);
      seed := GetOverlappingInputs(0, files, Some(smallest.user), Some(largest.user));
      ghost var lo, hi :| IsRange(0, files, Some(smallest.user), Some(largest.user), lo, hi) && seed == Overlapping(files, lo, hi);
      OverlappingMembers(files, lo, hi);
      OverlappingDistinct(files, lo, hi);
      LeastClosedIsClosed(files, lo, hi, seed);
    }
  }

  /** A file that is too much for its level, or one that too many seeks went
      through, `due`; nothing when there is neither. */
  method PickCompaction(level: nat, files: seq<File>, nextFiles: seq<File>, sizeCompaction: bool,
                        pointer: Option<InternalKey>, due: Option<File>, limit: nat)
    returns (taken: bool, chosen: seq<File>, parents: seq<File>, ghost first: Option<File>)
    requires LevelIsSorted(level, files) && SortedDisjoint(nextFiles)
    requires (sizeCompaction ==> files != []) && (due.Some? ==> due.value in files)
    ensures taken <==> sizeCompaction || due.Some?
    ensures taken ==> first.Some? && first.value in files && IsCompleted(level, files, nextFiles, [first.value], chosen, parents)
    ensures taken && !sizeCompaction ==> first == due
    ensures sizeCompaction && pointer.Some? && (exists f <- files :: Less(pointer.value, f.largest)) ==>
      Less(pointer.value, first.value.largest)
    ensures sizeCompaction && (pointer.None? || forall f <- files :: !Less(pointer.value, f.largest)) ==> first == Some(files[0])
  {
    hide InputsClosed, PicksParents, GoodSeed, ExtendsByBoundaries, NoBoundaryLeft, IsExpansion;
    chosen, parents, first := [], [], None;
    taken := sizeCompaction || due.Some?;
    if !taken {
      return;
    }
    var f;
    if sizeCompaction {
      f := NextFile(files, pointer);
    } else {
      f := due.value;
    }
    first := Some(f);
    var seed := SeedFrom(level, files, f);
    ghost var base, expanded;
    chosen, parents, base, expanded := SetupOtherInputs(level, files, nextFiles, seed, limit);
  }

  lemma SortedFront(files: seq<File>)
    requires SortedDisjoint(files) && files != []
    ensures SortedDisjoint(files[..|files| - 1])
    ensures forall f <- files[..|files| - 1] :: f in files && Ranged(f) && Less(f.largest, files[|files| - 1].smallest)
  {
  }

  lemma GapFreeBefore(files: seq<File>, part: seq<File>)
    requires SortedDisjoint(files) && files != []
    requires var front := files[..|files| - 1]; AllIn(part, front) && GapFree(front, part)
    ensures GapFree(files, part)
  {
    hide SortedDisjoint;
    SortedFront(files);
    var front, last := files[..|files| - 1], files[|files| - 1];
    assert files == front + [last];
    forall f <- part, g <- files, h <- part | Less(f.largest, g.smallest) && Less(g.largest, h.smallest) ensures g in part {
      assert h in front;
      if g == last && g !in front {
        InOrder(files, g, h);
        assert false;
      }
    }
  }

  lemma {:induction false} PrefixIsGapFree(files: seq<File>, lo: Bound, hi: Bound, n: nat)
    requires SortedDisjoint(files) && n <= |Overlapping(files, lo, hi)|
    ensures GapFree(files, Overlapping(files, lo, hi)[..n])
  {
    hide SortedDisjoint, GapFree, Overlaps;
    var all := Overlapping(files, lo, hi);
    if n == |all| {
      assert all[..n] == all;
      OverlappingIsGapFree(files, lo, hi);
    } else {
      SortedFront(files);
      var front := files[..|files| - 1];
      var part := Overlapping(front, lo, hi)[..n];
      assert part == all[..n];
      PrefixIsGapFree(front, lo, hi, n);
      OverlappingMembers(front, lo, hi);
      GapFreeBefore(files, part);
    }
  }

  /** Above level 0 only the first files of a large range, whose sizes reach `limit`. */
  method CutToLimit(inputs: seq<File>, limit: nat) returns (n: nat)
    requires inputs != []
    ensures 0 < n <= |inputs|
    ensures TotalFileSize(inputs[..n - 1]) < limit || n == 1
    ensures TotalFileSize(inputs[..n]) < limit ==> n == |inputs|
  {
    var total := 0;
    for i := 0 to |inputs|
      invariant total == TotalFileSize(inputs[..i]) && (total < limit || i == 0)
    {
      TotalOfLonger(inputs, i);
      total := total + inputs[i].size;
      if total >= limit {
        return i + 1;
      }
    }
    n := |inputs|;
    assert inputs[..n] == inputs;
    TotalOfLonger(inputs, n - 1);
  }

  lemma {:induction false} TotalOfLonger(files: seq<File>, i: nat)
    requires i < |files|
    ensures TotalFileSize(files[..i + 1]) == TotalFileSize(files[..i]) + files[i].size
  {
    if i > 0 {
      TotalOfLonger(files[1..], i - 1);
      assert files[..i + 1][1..] == files[1..][..i] && files[..i][1..] == files[1..][..i - 1];
    }
  }

  /** Widening a range takes in nothing when nothing overlaps it. */
  lemma SomethingInRange(level: nat, files: seq<File>, begin: Bound, end: Bound, lo: Bound, hi: Bound)
    requires IsRange(level, files, begin, end, lo, hi)
    ensures forall f <- files | Overlaps(begin, end, f) :: Overlaps(lo, hi, f)
    ensures (exists f <- files :: Overlaps(lo, hi, f)) ==> exists f <- files :: Overlaps(begin, end, f)
  {
    if level == 0 && forall f <- files :: !Overlaps(begin, end, f) {
      assert OverlapClosed(files, begin, end);
      assert Contains(begin, end, lo, hi);
    }
  }

  /** A manual compaction of the range [begin, end]; nothing when no file of the
      level overlaps it. */
  method CompactRange(level: nat, files: seq<File>, nextFiles: seq<File>, begin: Bound, end: Bound, sizeLimit: nat, limit: nat)
    returns (taken: bool, chosen: seq<File>, parents: seq<File>, ghost seed: seq<File>)
    requires LevelIsSorted(level, files) && SortedDisjoint(nextFiles)
    ensures taken <==> exists f <- files :: Overlaps(begin, end, f)
    ensures taken ==>
      && seed != [] && IsCompleted(level, files, nextFiles, seed, chosen, parents)
      && (level > 0 ==> seed <= Overlapping(files, begin, end))
      && (level == 0 ==> forall f <- files | Overlaps(begin, end, f) :: f in seed)
  {
    hide InputsClosed, PicksParents, ExtendsByBoundaries, NoBoundaryLeft, IsExpansion, Overlapping;
    chosen, parents, seed := [], [], [];
    var inputs := GetOverlappingInputs(level, files, begin, end);
    ghost var lo, hi :| IsRange(level, files, begin, end, lo, hi) && inputs == Overlapping(files, lo, hi);
    OverlappingMembers(files, lo, hi);
    OverlappingDistinct(files, lo, hi);
    SomethingInRange(level, files, begin, end, lo, hi);
    taken := inputs != [];
    if !taken {
      return;
    }
    assert inputs[0] in inputs;
    if level > 0 {
      var n := CutToLimit(inputs, sizeLimit);
      PrefixIsGapFree(files, lo, hi, n);
      inputs := inputs[..n];
    } else {
      LeastClosedIsClosed(files, lo, hi, inputs);
    }
    seed := inputs;
    ghost var base, expanded;
    chosen, parents, base, expanded := SetupOtherInputs(level, files, nextFiles, inputs, limit);
  }
}
