/** The filter block of a table (table/filter_block.cc): one filter for every
    2 KB of file offsets, and an array of where the filters start. */
module FilterBlocks {
  import opened Keys
  import opened Coding
  import opened Bloom
  import opened BlockFormat

  const BASE_LG: byte := 11
  const BASE: nat := 2048

  function Join(parts: seq<Bytes>): Bytes {
    if parts == [] then [] else Join(parts[..|parts| - 1]) + parts[|parts| - 1]
  }

  function JoinStart(parts: seq<Bytes>, i: nat): nat
    requires i <= |parts|
  {
    |Join(parts[..i])|
  }

  lemma {:induction false} JoinPart(parts: seq<Bytes>, i: nat)
    requires i < |parts|
    ensures JoinStart(parts, i) + |parts[i]| == JoinStart(parts, i + 1) <= |Join(parts)|
    ensures Join(parts)[JoinStart(parts, i)..JoinStart(parts, i + 1)] == parts[i]
  {
    var m := |parts| - 1;
    assert parts[..i + 1][..i] == parts[..i];
    if i == m {
      assert parts[..i + 1] == parts;
    } else {
      JoinPart(parts[..m], i);
      assert parts[..m][..i] == parts[..i] && parts[..m][..i + 1] == parts[..i + 1];
      var whole, front := Join(parts), Join(parts[..m]);
      assert whole[JoinStart(parts, i)..JoinStart(parts, i + 1)] == front[JoinStart(parts, i)..JoinStart(parts, i + 1)];
    }
  }

  // ----- Reading a filter block -----

  function Word(contents: Bytes, at: nat): nat
    requires at + 4 <= |contents|
  {
    Unfixed(contents[at..at + 4])
  }

  /** What the block answers for a key in the data block at an offset; errors
      count as potential matches. */
  ghost predicate BlockMayMatch(hash: Hash, contents: Bytes, blockOffset: nat, key: Bytes) {
    var n := |contents|;
    if n < 5 || Word(contents, n - 5) > n - 5 then true
    else
      var arrayStart := Word(contents, n - 5);
      var num := (n - 5 - arrayStart) / 4;
      var index := blockOffset / Power(2, contents[n - 1]);
      if num <= index then true
      else
        var start, limit := Word(contents, arrayStart + index * 4), Word(contents, arrayStart + index * 4 + 4);
        if start <= limit <= arrayStart then MayMatch(hash, key, contents[start..limit]) else start != limit
  }

  class FilterBlockReader {
    const policy: BloomFilterPolicy
    const contents: Bytes
    const arrayStart: nat  // where the offsets start
    const num: nat
    const baseLg: nat

    ghost predicate Valid() {
      var n := |contents|;
      if n < 5 || Word(contents, n - 5) > n - 5 then num == 0
      else arrayStart == Word(contents, n - 5) && num == (n - 5 - arrayStart) / 4 && baseLg == contents[n - 1]
    }

    constructor (policy: BloomFilterPolicy, contents: Bytes)
      ensures Valid() && this.policy == policy && this.contents == contents
    {
      this.policy, this.contents := policy, contents;
      var n := |contents|;
      if n < 5 || Word(contents, n - 5) > n - 5 {
        arrayStart, num, baseLg := 0, 0, 0;
      } else {
        var lastWord := Word(contents, n - 5);
        arrayStart, num, baseLg := lastWord, (n - 5 - lastWord) / 4, contents[n - 1];
      }
    }

    method KeyMayMatch(blockOffset: nat, key: Bytes) returns (b: bool)
      requires Valid()
      ensures b <==> BlockMayMatch(policy.hash, contents, blockOffset, key)
    {
      hide MayMatch, Word, Power, IsOne, Places;
      var index := blockOffset / Power(2, baseLg);
      if index < num {
        var start := Word(contents, arrayStart + index * 4);
        var limit := Word(contents, arrayStart + index * 4 + 4);
        if start <= limit && limit <= arrayStart {
          b := policy.KeyMayMatch(key, contents[start..limit]);
          return;
        } else if start == limit {
          return false;
        }
      }
      return true;
    }
  }

  // ----- Building a filter block -----

  datatype Added = Added(blockOffset: nat, key: Bytes)

  class FilterBlockBuilder {
    const policy: BloomFilterPolicy
    var keys: Bytes        // the keys for the next filter, one after the other
    var start: seq<nat>    // where each of them starts
    var result: Bytes
    var filterOffsets: seq<nat>
    ghost var pending: seq<Bytes>
    ghost var filters: seq<Bytes>
    ghost var covered: seq<seq<Bytes>>  // the keys of each filter
    ghost var blockOffset: nat
    ghost var added: set<Added>

    ghost predicate PendingOk()
      reads this
    {
      && keys == Join(pending) && |start| == |pending|
      && forall i | 0 <= i < |start| :: start[i] == JoinStart(pending, i)
    }

    ghost predicate FiltersOk()
      reads `result, `filters, `filterOffsets, `covered
    {
      && result == Join(filters) && |filterOffsets| == |filters| == |covered|
      && (forall i | 0 <= i < |filterOffsets| :: filterOffsets[i] == JoinStart(filters, i))
      && (forall i, key | 0 <= i < |filters| && key in covered[i] :: MayMatch(policy.hash, key, filters[i]))
      && forall i | 0 <= i < |filters| :: IsPartFor(covered[i], filters[i])
    }

    /** No keys have an empty filter, others theirs. */
    ghost predicate IsPartFor(ks: seq<Bytes>, filter: Bytes) {
      if ks == [] then filter == [] else IsFilterOf(policy.hash, policy.k, policy.bitsPerKey, ks, filter)
    }

    /** Each key is in the filter for the offset of its block, or waits for it. */
    ghost predicate AddedOk()
      reads this
    {
      blockOffset / BASE == |covered| && KeysOk()
    }

    ghost predicate Valid()
      reads this
    {
      1 <= policy.k <= 30 && PendingOk() && FiltersOk() && AddedOk()
    }

    constructor (policy: BloomFilterPolicy)
      requires 1 <= policy.k <= 30
      ensures Valid() && added == {} && blockOffset == 0 && this.policy == policy
    {
      this.policy := policy;
      keys, start, result, filterOffsets := [], [], [], [];
      pending, filters, covered, blockOffset, added := [], [], [], 0, {};
    }

    /** Turns the waiting keys into the next filter. */
    method GenerateFilter()
      requires 1 <= policy.k <= 30 && PendingOk() && FiltersOk()
      modifies this
      ensures PendingOk() && FiltersOk() && pending == [] && start == []
      ensures covered == old(covered) + [old(pending)] && added == old(added) && blockOffset == old(blockOffset)
    {
      hide MayMatch, Join, FiltersOk, IsFilterOf, IsOne, Places, HasExactly;
      var filter := [];
      if |start| > 0 {
        var tmpKeys := SplitKeys();
        filter := policy.CreateFilter(tmpKeys);
      }
      AppendFilter(filter, pending);
      if |start| > 0 {
        keys := [];
        start := [];
      }
      NoParts();
      pending := [];
    }

    lemma NoParts()
      ensures Join([]) == [] && (PendingOk() && start == [] ==> keys == [])
    {
    }

    method AppendFilter(filter: Bytes, ghost ks: seq<Bytes>)
      requires FiltersOk() && IsPartFor(ks, filter) && forall key <- ks :: MayMatch(policy.hash, key, filter)
      modifies `filterOffsets, `result, `filters, `covered
      ensures FiltersOk() && covered == old(covered) + [ks]
    {
      hide MayMatch, Join, IsPartFor;
      JoinAppended(filters, filter);
      filterOffsets := filterOffsets + [|result|];
      result := result + filter;
      filters, covered := filters + [filter], covered + [ks];
    }

    /** The waiting keys, cut at their starts. */
    method SplitKeys() returns (tmpKeys: seq<Bytes>)
      requires PendingOk()
      ensures tmpKeys == pending
    {
      var starts := start + [|keys|];
      assert pending[..|pending|] == pending;
      tmpKeys := [];
      for i := 0 to |start|
        invariant tmpKeys == pending[..i]
      {
        JoinPart(pending, i);
        tmpKeys := tmpKeys + [keys[starts[i]..starts[i + 1]]];
      }
    }

    /** Generates the filters up to the one for a new data block. */
    method StartBlock(offset: nat)
      requires Valid() && blockOffset <= offset
      modifies this
      ensures Valid() && blockOffset == offset && added == old(added)
    {
      hide MayMatch, Join;
      var filterIndex := offset / BASE;
      while filterIndex > |filterOffsets|
        invariant 1 <= policy.k <= 30 && PendingOk() && FiltersOk() && |filters| <= filterIndex
        invariant added == old(added) && blockOffset == old(blockOffset) && KeysOk()
        decreases filterIndex - |filterOffsets|
      {
        GenerateFilter();
      }
      blockOffset := offset;
    }

    ghost predicate KeysOk()
      reads this
    {
      && (forall a <- added ::
            if a.blockOffset / BASE < |covered| then a.key in covered[a.blockOffset / BASE]
            else a.blockOffset / BASE == |covered| && a.key in pending)
      && (forall i, key | 0 <= i < |covered| && key in covered[i] :: AddedFor(i, key))
      && forall key <- pending :: AddedFor(|covered|, key)
    }

    /** The key was added while a data block of the `i`th 2 KB was being built. */
    ghost predicate AddedFor(i: nat, key: Bytes)
      reads `added
    {
      exists a <- added :: a.key == key && 2048 * i <= a.blockOffset < 2048 * (i + 1)
    }

    /** The finished block never denies a key that was added while a data block
        at the offset was being built. */
    method Finish() returns (contents: Bytes)
      requires Valid()
      modifies this
      ensures contents == FilterBlockBytes(filters) && added == old(added)
      ensures |Join(filters)| < TWO32 ==> forall a <- added :: BlockMayMatch(policy.hash, contents, a.blockOffset, a.key)
      ensures |filters| == |covered| && forall i | 0 <= i < |filters| :: IsPartFor(covered[i], filters[i])
      ensures forall i, key | 0 <= i < |covered| :: key in covered[i] <==> AddedFor(i, key)
      ensures forall a <- added :: a.blockOffset < 2048 * |covered|
      ensures contents != [] && contents[|contents| - 1] == 11
    {
      hide MayMatch, Join, BlockMayMatch, FixedAll, IsPartFor;
      if |start| > 0 {
        GenerateFilter();
      }
      var arrayOffset := |result|;
      var offsets := filterOffsets;
      contents := result;
      NoWords();
      for i := 0 to |offsets|
        invariant contents == result + FixedAll(offsets[..i])
        modifies {}
      {
        AppendWord(offsets, i);
        contents := contents + Fixed(offsets[i], 4);
      }
      contents := contents + Fixed(arrayOffset, 4);
      contents := contents + [BASE_LG];
      BoundsAre(contents, offsets);
      forall i, key | 0 <= i < |covered| && AddedFor(i, key) ensures key in covered[i] {
        var a :| a in added && a.key == key && 2048 * i <= a.blockOffset < 2048 * (i + 1);
        assert a.blockOffset / BASE == i;
      }
    }

    lemma BoundsAre(contents: Bytes, offsets: seq<nat>)
      requires FiltersOk() && KeysOk() && pending == [] && offsets == filterOffsets
      requires contents == result + FixedAll(offsets[..|offsets|]) + Fixed(|result|, 4) + [BASE_LG]
      ensures contents == FilterBlockBytes(filters)
      ensures |Join(filters)| < TWO32 ==> forall a <- added :: BlockMayMatch(policy.hash, contents, a.blockOffset, a.key)
    {
      hide MayMatch, Join, BlockMayMatch, FixedAll;
      assert filters[..|filters|] == filters && offsets[..|offsets|] == offsets;
      assert Bounds(filters) == offsets + [|result|];
      AppendWord(Bounds(filters), |offsets|);
      assert Bounds(filters)[..|offsets|] == offsets && Bounds(filters)[..|offsets| + 1] == Bounds(filters);
      assert contents == FilterBlockBytes(filters);
      if |Join(filters)| < TWO32 {
        forall a <- added ensures BlockMayMatch(policy.hash, contents, a.blockOffset, a.key) {
          assert a.blockOffset / BASE < |filters| && a.key in covered[a.blockOffset / BASE];
          assert MayMatch(policy.hash, a.key, filters[a.blockOffset / BASE]);
          AsksOneFilter(policy.hash, filters, a.blockOffset, a.key);
        }
      }
    }

    method AddKey(key: Bytes)
      requires Valid()
      modifies this
      ensures Valid() && blockOffset == old(blockOffset) && added == old(added) + {Added(blockOffset, key)}
    {
      hide MayMatch, FiltersOk;
      JoinAppended(pending, key);
      start := start + [|keys|];
      keys := keys + key;
      pending := pending + [key];
      added := added + {Added(blockOffset, key)};
      assert Added(blockOffset, key) in added;
    }
  }

  lemma NoWords()
    ensures FixedAll([]) == []
  {
  }

  lemma AppendWord(words: seq<nat>, i: nat)
    requires i < |words|
    ensures FixedAll(words[..i + 1]) == FixedAll(words[..i]) + Fixed(words[i], 4)
  {
    assert words[..i + 1][..i] == words[..i];
  }

  // ----- No false negatives -----

  /** The start of each filter, and the end of the last one. */
  ghost function Bounds(filters: seq<Bytes>): (r: seq<nat>)
    ensures |r| == |filters| + 1
  {
    seq(|filters| + 1, i requires 0 <= i <= |filters| => JoinStart(filters, i))
  }

  ghost function FilterBlockBytes(filters: seq<Bytes>): Bytes {
    Join(filters) + FixedAll(Bounds(filters)) + [BASE_LG]
  }

  lemma WordIs(filters: seq<Bytes>, i: nat)
    requires i <= |filters| && |Join(filters)| < TWO32
    ensures |FilterBlockBytes(filters)| == |Join(filters)| + 4 * |filters| + 5
    ensures Word(FilterBlockBytes(filters), |Join(filters)| + 4 * i) == JoinStart(filters, i) <= |Join(filters)|
  {
    hide Join, Fixed, FixedAll, Unfixed;
    var bounds := Bounds(filters);
    var joined, words := Join(filters), FixedAll(bounds);
    FixedWord(bounds, i);
    MiddleSlice(joined, words, [BASE_LG], 4 * i, 4 * i + 4);
    StartIsInside(filters, i);
    WordRoundTrip(bounds[i]);
  }

  lemma WordRoundTrip(w: nat)
    requires w < TWO32
    ensures Unfixed(Fixed(w, 4)) == w
  {
    Powers();
    FixedRoundTrip(w, 4);
  }

  lemma StartIsInside(filters: seq<Bytes>, i: nat)
    requires i <= |filters|
    ensures JoinStart(filters, i) <= |Join(filters)|
  {
    if i < |filters| {
      JoinPart(filters, i);
    } else {
      assert filters[..i] == filters;
    }
  }

  lemma TwoKilobytes()
    ensures Power(2, BASE_LG) == BASE
  {
    assert Power(2, 4) == 16;
    assert Power(2, 6) == 2 * Power(2, 5) == 4 * Power(2, 4);
    assert Power(2, 8) == 2 * Power(2, 7) == 4 * Power(2, 6);
    assert Power(2, 10) == 2 * Power(2, 9) == 4 * Power(2, 8);
    assert Power(2, 11) == 2 * Power(2, 10);
  }

  /** The reader asks exactly the filter of the block's offset. */
  lemma AsksOneFilter(hash: Hash, filters: seq<Bytes>, blockOffset: nat, key: Bytes)
    requires |Join(filters)| < TWO32 && blockOffset / BASE < |filters|
    ensures BlockMayMatch(hash, FilterBlockBytes(filters), blockOffset, key) <==> MayMatch(hash, key, filters[blockOffset / BASE])
  {
    hide Join, FixedAll, MayMatch, Word, Power;
    var i, contents := blockOffset / BASE, FilterBlockBytes(filters);
    WordIs(filters, |filters|);
    WordIs(filters, i);
    WordIs(filters, i + 1);
    JoinPart(filters, i);
    TwoKilobytes();
    assert filters[..|filters|] == filters;
    PrefixSlice(Join(filters), FixedAll(Bounds(filters)) + [BASE_LG], JoinStart(filters, i), JoinStart(filters, i + 1));
    assert contents == Join(filters) + (FixedAll(Bounds(filters)) + [BASE_LG]);
  }

  lemma PrefixSlice(a: Bytes, b: Bytes, i: nat, j: nat)
    requires i <= j <= |a|
    ensures (a + b)[i..j] == a[i..j]
  {
  }

  lemma JoinAppended(parts: seq<Bytes>, part: Bytes)
    ensures Join(parts + [part]) == Join(parts) + part
    ensures forall i | 0 <= i <= |parts| :: JoinStart(parts + [part], i) == JoinStart(parts, i)
    ensures JoinStart(parts + [part], |parts|) == |Join(parts)|
  {
    hide Join;
    assert (parts + [part])[..|parts|] == parts;
    assert Join(parts + [part]) == Join(parts) + part by { JoinStep(parts, part); }
    assert parts[..|parts|] == parts;
    assert forall i | 0 <= i <= |parts| :: (parts + [part])[..i] == parts[..i];
  }

  lemma JoinStep(parts: seq<Bytes>, part: Bytes)
    ensures Join(parts + [part]) == Join(parts) + part
  {
    assert (parts + [part])[..|parts|] == parts;
  }
}
