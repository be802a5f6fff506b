/** The iterator over a finished block (table/block.cc): it refines a cursor
    over the pairs the block was built from. */
module BlockIterators {
  import opened Keys
  import opened Coding
  import opened Cursors
  import opened BlockFormat
  import opened Blocks

  class BlockIter {
    const before: Order
    const data: Bytes
    const restarts: nat
    const numRestarts: nat
    var current: nat  // where the entry starts; `restarts` or more if not valid
    var restartIndex: nat
    var key: Bytes
    var valueOffset: nat
    var valueSize: nat
    ghost const pairs: seq<Pair>
    ghost const interval: nat
    ghost var index: nat

    /** The data are a finished block of less than 4 GB over sorted pairs. */
    ghost predicate Fixed() {
      && 0 < interval && Transitive(before) && Sorted(before, pairs)
      && data == BlockBytes(pairs, interval) && |data| < TWO32
      && restarts == |Body(pairs, interval)| && numRestarts == |Starts(pairs, interval)|
    }

    ghost function Start(k: nat): nat
      requires k < |Starts(pairs, interval)|
    {
      Starts(pairs, interval)[k]
    }

    ghost function EntryOffset(i: nat): nat
      requires i <= |pairs|
    {
      Offset(pairs, interval, i)
    }

    function NextEntryOffset(): nat
      reads `valueOffset, `valueSize
    {
      valueOffset + valueSize
    }

    /** The iterator stands at entry `i`. */
    ghost predicate At(i: nat)
      reads `current, `restartIndex, `key, `valueOffset, `valueSize
    {
      && i < |pairs| && current == EntryOffset(i) && key == pairs[i].key
      && NextEntryOffset() == EntryOffset(i + 1) && NextEntryOffset() <= |data|
      && data[valueOffset..NextEntryOffset()] == pairs[i].value
      && InRestart(i)
    }

    /** Entry `i` lies in the restart block, or is the first one after it. */
    ghost predicate InRestart(i: nat)
      reads `restartIndex
    {
      && restartIndex < |Starts(pairs, interval)| && Start(restartIndex) <= i
      && (restartIndex + 1 < |Starts(pairs, interval)| ==> i <= Start(restartIndex + 1))
    }

    /** Parsing goes on with entry `i`, or there is no more. */
    ghost predicate Ready(i: nat)
      reads `restartIndex, `key, `valueOffset, `valueSize
    {
      && i <= |pairs| && NextEntryOffset() == EntryOffset(i)
      && (i < |pairs| ==> KeyReady(pairs, interval, i, key))
      && restartIndex < |Starts(pairs, interval)| && Start(restartIndex) <= i
    }

    ghost predicate Ok()
      reads this
    {
      && Fixed() && index <= |pairs|
      && (index < |pairs| ==> At(index))
      && (index == |pairs| ==> current == restarts)
    }

    constructor (before: Order, data: Bytes, ghost pairs: seq<Pair>, ghost interval: nat)
      requires 0 < interval && Transitive(before) && Sorted(before, pairs)
      requires data == BlockBytes(pairs, interval) && |data| < TWO32
      ensures Ok() && index == |pairs| && this.pairs == pairs && this.before == before
    {
      hide Body, Starts, FixedAll, Sorted, Transitive, Coding.Fixed;
      NumRestartsIs(pairs, interval);
      var n := Unfixed(data[|data| - 4..]);
      this.before, this.data, this.pairs, this.interval := before, data, pairs, interval;
      restarts, numRestarts := |data| - (1 + n) * 4, n;
      current, restartIndex, key, valueOffset, valueSize := |data| - (1 + n) * 4, n, [], 0, 0;
      index := |pairs|;
    }

    predicate Valid()
      reads `current
    {
      current < restarts
    }

    lemma ValidIsIndex()
      requires Ok()
      ensures Valid() <==> index < |pairs|
    {
      hide Body, Starts;
      if index < |pairs| {
        OffsetsGrow(pairs, interval, index, |pairs|);
        assert pairs[..|pairs|] == pairs;
      }
    }

    method Key() returns (k: Bytes)
      requires Ok() && Valid()
      ensures index < |pairs| && k == pairs[index].key
    {
      ValidIsIndex();
      k := key;
    }

    method ValueOf() returns (v: Bytes)
      requires Ok() && Valid()
      ensures index < |pairs| && v == pairs[index].value
    {
      ValidIsIndex();
      v := data[valueOffset..NextEntryOffset()];
    }

    method GetRestartPoint(k: nat) returns (offset: nat)
      requires Fixed() && k < numRestarts
      ensures Start(k) <= |pairs| && offset == EntryOffset(Start(k))
    {
      hide Body, Starts, Sorted, Transitive;
      RestartPointIs(pairs, interval, k);
      offset := RestartPoint(data, restarts, k);
    }

    method SeekToRestartPoint(k: nat)
      requires Fixed() && k < numRestarts
      modifies `key, `restartIndex, `valueOffset, `valueSize
      ensures Start(k) <= |pairs| && Ready(Start(k)) && restartIndex == k
    {
      hide Body, Starts, Sorted, Transitive, SharedNext;
      key := [];
      restartIndex := k;
      valueOffset := GetRestartPoint(k);
      valueSize := 0;
      if Start(k) < |pairs| {
        StartsShareNothing(pairs, interval, k);
      }
    }

    /** Moves on to the next entry, or to the end. */
    method ParseNextKey(ghost i: nat) returns (found: bool)
      requires Fixed() && Ready(i)
      modifies `current, `restartIndex, `key, `valueOffset, `valueSize
      ensures found <==> i < |pairs|
      ensures if found then At(i) else current == restarts && restartIndex == numRestarts
    {
      hide Fixed, KeyReady;
      current := NextEntryOffset();
      FixedFacts();
      BeforeEnd(i);
      if current >= restarts {
        current := restarts;
        restartIndex := numRestarts;
        return false;
      }
      ParseEntry(i);
      AdvanceRestartIndex(i);
      found := true;
    }

    /** Decodes the entry at `current`. */
    method ParseEntry(ghost i: nat)
      requires Fixed() && i < |pairs| && current == EntryOffset(i) < restarts <= |data| && KeyReady(pairs, interval, i, key)
      modifies `key, `valueOffset, `valueSize
      ensures key == pairs[i].key && NextEntryOffset() == EntryOffset(i + 1) && NextEntryOffset() <= |data|
      ensures data[valueOffset..NextEntryOffset()] == pairs[i].value
    {
      hide Fixed, KeyReady, DecodeEntry, Body, Starts, SharedNext;
      BodyHeld();
      ParsesEntry(data, restarts, pairs, interval, i, key);
      var h := DecodeEntry(data, current, restarts);
      if h.None? || |key| < h.value.shared {
        assert false;  // a corrupt entry, which the builder does not write
      }
      valueOffset := h.value.keyOffset + h.value.nonShared;
      key := key[..h.value.shared] + data[h.value.keyOffset..valueOffset];
      valueSize := h.value.valueLength;
    }

    method AdvanceRestartIndex(ghost i: nat)
      requires Fixed() && i < |pairs| && current == EntryOffset(i)
      requires restartIndex < numRestarts && Start(restartIndex) <= i
      modifies `restartIndex
      ensures InRestart(i)
    {
      hide Fixed, EntryOffset, Start;
      FixedFacts();
      while restartIndex + 1 < numRestarts
        invariant restartIndex < numRestarts && Start(restartIndex) <= i
        decreases numRestarts - restartIndex
      {
        var next := GetRestartPoint(restartIndex + 1);
        OffsetOrder(Start(restartIndex + 1), i);
        if next >= current {
          break;
        }
        restartIndex := restartIndex + 1;
      }
    }

    lemma FixedFacts()
      requires Fixed()
      ensures restarts <= |data| && numRestarts == |Starts(pairs, interval)| > 0 && 0 < interval
      ensures forall k | 0 <= k < numRestarts :: Start(k) <= |pairs|
    {
      hide Body, FixedAll, Sorted, Transitive;
      StartsGrow(pairs, interval);
    }

    lemma OffsetOrder(i: nat, j: nat)
      requires i <= |pairs| && j <= |pairs|
      ensures EntryOffset(i) < EntryOffset(j) <==> i < j
    {
      hide Body;
      if i < j {
        OffsetsGrow(pairs, interval, i, j);
      } else {
        OffsetsGrow(pairs, interval, j, i);
      }
    }

    /** After an entry, parsing goes on with the next one. */
    lemma NextReady(i: nat)
      requires At(i)
      ensures Ready(i + 1)
    {
      hide Body, Starts, Counter;
      if i + 1 < |pairs| {
        assert LastKey(pairs[..i + 1]) == pairs[i].key;
      }
    }

    method Next()
      requires Ok() && Valid()
      modifies this
      ensures Ok() && index == old(index) + 1
    {
      hide Fixed, At, Ready;
      ValidIsIndex();
      NextReady(index);
      var found := ParseNextKey(index + 1);
      index := index + 1;
    }

    method SeekToFirst()
      requires Ok()
      modifies this
      ensures Ok() && index == 0
    {
      hide Fixed, At, Ready;
      FixedFacts();
      SeekToRestartPoint(0);
      var found := ParseNextKey(0);
      index := 0;
    }

    method SeekToLast()
      requires Ok()
      modifies this
      ensures Ok() && index == LastOf(|pairs|)
      ensures if pairs == [] then !Valid() else Valid() && index == |pairs| - 1
    {
      hide Fixed, At, Ready, InRestart;
      FixedFacts();
      SeekToRestartPoint(numRestarts - 1);
      ghost var i := Start(numRestarts - 1);
      var more := true;
      while more
        invariant Fixed() && i <= |pairs| && (i == |pairs| ==> i == 0)
        invariant more ==> Ready(i)
        invariant !more ==> i == LastOf(|pairs|) && (i < |pairs| ==> At(i)) && (i == |pairs| ==> current == restarts)
        decreases more, |pairs| - i
      {
        more := ParseNextKey(i);
        if more {
          NextReady(i);
          BeforeEnd(i + 1);
          AtEnd(i);
          more := NextEntryOffset() < restarts;
          if more {
            i := i + 1;
          }
        }
      }
      index := i;
      ValidIsIndex();
    }

    /** Goes back to the last restart point before the entry and parses on from
        there to the entry before it. */
    method Prev()
      requires Ok() && Valid()
      modifies this
      ensures Ok() && index == PrevOf(|pairs|, old(index))
      ensures if old(index) == 0 then !Valid() else Valid() && index == old(index) - 1
    {
      hide Fixed, Ready, EntryOffset, Start;
      ValidIsIndex();
      FixedFacts();
      ghost var i := index;
      var original := current;
      var k: nat := restartIndex;
      while true
        invariant k < numRestarts && Start(k) <= i
        decreases k
      {
        var point := GetRestartPoint(k);
        OffsetOrder(Start(k), i);
        if point < original {
          break;
        }
        if k == 0 {
          FirstStart();
          current := restarts;
          restartIndex := numRestarts;
          index := |pairs|;
          return;
        }
        StartsInOrder(k);
        k := k - 1;
      }
      SeekToRestartPoint(k);
      ParseUpTo(original, Start(k), i);
      index := i - 1;
      ValidIsIndex();
    }

    lemma StartsInOrder(k: nat)
      requires Fixed() && 0 < k < numRestarts
      ensures Start(k - 1) < Start(k)
    {
      hide Body, FixedAll, Sorted, Transitive;
      StartsGrow(pairs, interval);
    }

    lemma FirstStart()
      requires Fixed()
      ensures numRestarts > 0 && Start(0) == 0
    {
      hide Body, FixedAll, Sorted, Transitive;
    }

    /** Parses entries until one ends where the original entry starts. */
    method ParseUpTo(original: nat, ghost from: nat, ghost i: nat)
      requires Fixed() && Ready(from) && from < i <= |pairs| && original == EntryOffset(i)
      modifies `current, `restartIndex, `key, `valueOffset, `valueSize
      ensures At(i - 1)
    {
      hide Fixed, Ready;
      ghost var j := from;
      var more := true;
      while more
        invariant from <= j < i && (more ==> Ready(j)) && (!more ==> At(i - 1))
        decreases more, i - j
      {
        var found := ParseNextKey(j);
        AtEnd(j);
        NextReady(j);
        OffsetOrder(j + 1, i);
        more := found && NextEntryOffset() < original;
        if more {
          j := j + 1;
        } else {
          assert j + 1 == i;
        }
      }
    }

    // ----- Seeking -----

    /** `p` is the first position whose key is not before the target. */
    ghost predicate IsLowerBound(target: Bytes, p: nat) {
      && p <= |pairs|
      && (forall i | 0 <= i < p :: before(pairs[i].key, target))
      && (forall i | p <= i < |pairs| :: !before(pairs[i].key, target))
    }

    /** The key at a restart point, which is stored whole. */
    method RestartKey(k: nat) returns (midKey: Bytes)
      requires Fixed() && k < numRestarts && Start(k) < |pairs|
      ensures midKey == pairs[Start(k)].key
    {
      hide Fixed, DecodeEntry;
      FixedFacts();
      BeforeEnd(Start(k));
      BodyHeld();
      var offset := GetRestartPoint(k);
      StartsShareNothing(pairs, interval, k);
      DecodesAt(data, restarts, pairs, interval, Start(k));
      var h := DecodeEntry(data, offset, restarts);
      if h.None? || h.value.shared != 0 {
        assert false;  // a corrupt entry, which the builder does not write
      }
      midKey := data[h.value.keyOffset..h.value.keyOffset + h.value.nonShared];
    }

    /** Binary search for the last restart point with a key before the target. */
    method FindRestart(target: Bytes) returns (left: nat)
      requires Fixed()
      ensures left < numRestarts && Start(left) <= |pairs|
      ensures forall i | 0 <= i < Start(left) :: before(pairs[i].key, target)
    {
      hide Fixed;
      FixedFacts();
      FirstStart();
      left := 0;
      var right := numRestarts - 1;
      while left < right
        invariant left <= right < numRestarts
        invariant forall i | 0 <= i < Start(left) :: before(pairs[i].key, target)
      {
        var mid := (left + right + 1) / 2;
        LaterStart(mid);
        var midKey := RestartKey(mid);
        if before(midKey, target) {
          AllBefore(Start(mid), target);
          left := mid;
        } else {
          right := mid - 1;
        }
      }
    }

    lemma LaterStart(k: nat)
      requires Fixed() && 0 < k < numRestarts
      ensures Start(k) < |pairs|
    {
      hide Body, FixedAll, Sorted, Transitive;
      StartsGrow(pairs, interval);
    }

    lemma AllBefore(i: nat, target: Bytes)
      requires Fixed() && i < |pairs| && before(pairs[i].key, target)
      ensures forall j | 0 <= j <= i :: before(pairs[j].key, target)
    {
      hide Body, FixedAll, Starts;
      forall j | 0 <= j < i ensures before(pairs[j].key, target) {
        assert before(pairs[j].key, pairs[i].key);
      }
    }

    lemma NoneBeforeAfter(i: nat, target: Bytes)
      requires Fixed() && i < |pairs| && !before(pairs[i].key, target)
      ensures forall j | i <= j < |pairs| :: !before(pairs[j].key, target)
    {
      hide Body, FixedAll, Starts;
      forall j | i < j < |pairs| ensures !before(pairs[j].key, target) {
        assert before(pairs[i].key, pairs[j].key);
      }
    }

    /** Moves to the first key not before the target: a binary search among the
        restart points, then a linear one. */
    method Seek(target: Bytes)
      requires Ok()
      modifies this
      ensures Ok() && IsLowerBound(target, index)
    {
      hide Fixed, At, Ready, EntryOffset, Start;
      FixedFacts();
      var left := FindRestart(target);
      SeekToRestartPoint(left);
      ghost var i := Start(left);
      while true
        invariant Fixed() && i <= |pairs| && Ready(i)
        invariant forall j | 0 <= j < i :: before(pairs[j].key, target)
        decreases |pairs| - i
      {
        var found := ParseNextKey(i);
        index := i;
        if !found {
          return;
        }
        AtEnd(i);
        if !before(key, target) {
          NoneBeforeAfter(i, target);
          return;
        }
        NextReady(i);
        i := i + 1;
      }
    }

    lemma AtEnd(i: nat)
      requires At(i)
      ensures NextEntryOffset() == EntryOffset(i + 1) && key == pairs[i].key
    {
      hide Body, Starts;
    }

    lemma BodyHeld()
      requires Fixed()
      ensures HoldsBody(data, restarts, pairs, interval)
    {
      hide Body, Starts, FixedAll;
    }

    lemma BeforeEnd(i: nat)
      requires Fixed() && i <= |pairs|
      ensures EntryOffset(i) < restarts <==> i < |pairs|
    {
      hide Body, Starts;
      OffsetsGrow(pairs, interval, i, |pairs|);
      assert pairs[..|pairs|] == pairs;
    }
  }
}
