/** The block builder and the iterator over a finished block
    (table/block_builder.cc, table/block.cc). */
module Blocks {
  import opened Keys
  import opened Coding
  import opened Cursors
  import opened BlockFormat

  /** The comparator of the table: whether one key comes before another. */
  type Order = (Bytes, Bytes) -> bool

  ghost predicate Transitive(before: Order) {
    forall a, b, c | before(a, b) && before(b, c) :: before(a, c)
  }

  ghost predicate Sorted(before: Order, ps: seq<Pair>) {
    forall i, j | 0 <= i < j < |ps| :: before(ps[i].key, ps[j].key)
  }

  lemma PrefixIsCommon(a: Bytes, b: Bytes, n: nat)
    requires n <= |a| && n <= |b| && a[..n] == b[..n]
    requires n == |a| || n == |b| || a[n] != b[n]
    ensures n == CommonPrefix(a, b)
  {
    var m := CommonPrefix(a, b);
    assert forall k | 0 <= k < n :: a[..n][k] == b[..n][k];
    assert forall k | 0 <= k < m :: a[..m][k] == b[..m][k];
    assert forall k | 0 <= k < n || 0 <= k < m :: a[k] == b[k];
  }

  lemma OffsetsAppend(ps: seq<Pair>, interval: nat, p: Pair)
    requires 0 < interval
    ensures Offsets(ps + [p], interval)
         == Offsets(ps, interval) + if Counter(ps, interval) < interval then [] else [|Body(ps, interval)|]
  {
    hide Body, Counter;
    var longer := ps + [p];
    assert longer[..|ps|] == ps;
    assert Starts(longer, interval) == if Counter(ps, interval) < interval then Starts(ps, interval) else Starts(ps, interval) + [|ps|];
    StartsGrow(ps, interval);
    forall k | 0 <= k < |Starts(ps, interval)| ensures longer[..Starts(ps, interval)[k]] == ps[..Starts(ps, interval)[k]] {
    }
  }

  class BlockBuilder {
    const interval: nat
    ghost const before: Order
    var buffer: Bytes
    var restarts: seq<nat>
    var counter: nat
    var lastKey: Bytes
    var finished: bool
    ghost var pairs: seq<Pair>

    ghost predicate ExceptBuffer()
      reads this
    {
      && 0 < interval && Transitive(before) && Sorted(before, pairs)
      && lastKey == LastKey(pairs) && counter == Counter(pairs, interval)
      && restarts == Offsets(pairs, interval)
    }

    ghost predicate Valid()
      reads this
    {
      && ExceptBuffer()
      && buffer == if finished then BlockBytes(pairs, interval) else Body(pairs, interval)
    }

    constructor (interval: nat, ghost before: Order)
      requires 0 < interval && Transitive(before)
      ensures Valid() && pairs == [] && !finished && this.interval == interval && this.before == before
    {
      this.interval, this.before := interval, before;
      buffer, restarts, counter, lastKey, finished, pairs := [], [0], 0, [], false, [];
    }

    /** Whether nothing has been added. */
    method Empty() returns (b: bool)
      requires Valid() && !finished
      ensures b <==> pairs == []
    {
      b := buffer == [];
      assert pairs != [] ==> |Body(pairs, interval)| >= 3;
    }

    method CurrentSizeEstimate() returns (size: nat)
      requires Valid() && !finished
      ensures size == |BlockBytes(pairs, interval)| == |buffer| + 4 * |restarts| + 4
    {
      hide Fixed, Starts, Body, Sorted, Transitive;
      size := |buffer| + |restarts| * 4 + 4;
    }

    method Reset()
      requires Valid()
      modifies this
      ensures Valid() && pairs == [] && !finished
    {
      buffer, restarts, counter, lastKey, finished, pairs := [], [0], 0, [], false, [];
    }

    /** Keys come in strictly increasing order. */
    method Add(key: Bytes, value: Bytes) returns (ghost shared0: nat)
      requires Valid() && !finished && |key| < TWO32 && |value| < TWO32
      requires pairs == [] || before(lastKey, key)
      modifies this
      ensures Valid() && !finished && pairs == old(pairs) + [Pair(key, value)] && lastKey == key
      ensures shared0 <= |key| && shared0 <= |old(lastKey)| && old(lastKey)[..shared0] == key[..shared0]
      ensures if old(|pairs|) % interval == 0 then shared0 == 0
              else shared0 == |key| || shared0 == |old(lastKey)| || old(lastKey)[shared0] != key[shared0]
      ensures buffer == old(buffer) + (Varint(shared0) + Varint(|key| - shared0) + Varint(|value|) + key[shared0..] + value)
      ensures restarts == old(restarts) + if old(pairs) != [] && old(|pairs|) % interval == 0 then [|old(buffer)|] else []
    {
      hide Starts, Transitive, Varint, Body, Counter, Offsets, EntryBytes, SharedNext, Sorted;
      ghost var p := Pair(key, value);
      OffsetsAppend(pairs, interval, p);
      SortedAppend(before, pairs, p);
      BodyAppend(pairs, interval, p);
      var shared := SharedPart(key);
      shared0 := shared;
      CounterIs(pairs, interval);
      if counter >= interval {
        restarts := restarts + [|buffer|];
        counter := 0;
      }
      assert restarts == Offsets(pairs + [p], interval) && counter + 1 == Counter(pairs + [p], interval);
      var nonShared := |key| - shared;
      EntryIs(shared, key, value);
      KeyJoined(lastKey, key, shared);
      buffer := buffer + (Varint(shared) + Varint(nonShared) + Varint(|value|) + key[shared..] + value);
      lastKey := lastKey[..shared] + key[shared..];
      counter := counter + 1;
      pairs := pairs + [p];
    }

    /** How much of the key the last key shares, unless a restart is due. */
    method SharedPart(key: Bytes) returns (shared: nat)
      requires Valid()
      ensures shared == SharedNext(pairs, interval, key)
      ensures shared <= |lastKey| && lastKey[..shared] == key[..shared]
      ensures if |pairs| % interval == 0 then shared == 0
              else shared == |key| || shared == |lastKey| || lastKey[shared] != key[shared]
    {
      hide Starts, Sorted, Transitive, Body, Offsets;
      shared := 0;
      CounterIs(pairs, interval);
      assert pairs == [] ==> lastKey == [] && 0 % interval == 0;
      if counter < interval {
        var minLength := if |lastKey| < |key| then |lastKey| else |key|;
        while shared < minLength && lastKey[shared] == key[shared]
          invariant shared <= minLength && lastKey[..shared] == key[..shared]
        {
          shared := shared + 1;
        }
        PrefixIsCommon(lastKey, key, shared);
      }
    }

    method Finish() returns (block: Bytes)
      requires Valid() && !finished
      modifies this
      ensures Valid() && finished && pairs == old(pairs) && block == BlockBytes(pairs, interval)
      ensures restarts == old(restarts) && |block| == |old(buffer)| + 4 * |restarts| + 4 && block[..|old(buffer)|] == old(buffer)
      ensures forall k | 0 <= k < |restarts| ::
        block[|old(buffer)| + 4 * k..|old(buffer)| + 4 * k + 4] == Fixed(restarts[k], 4)
      ensures block[|block| - 4..] == Fixed(|restarts|, 4)
    {
      hide Starts, Sorted, Transitive, Body, Fixed;
      var words := restarts;
      for i := 0 to |words|
        invariant ExceptBuffer() && words == restarts && !finished && pairs == old(pairs)
        invariant buffer == Body(pairs, interval) + FixedAll(words[..i])
      {
        assert words[..i + 1][..i] == words[..i];
        buffer := buffer + Fixed(words[i], 4);
      }
      assert words[..|words|] == words;
      ghost var body, tail := old(buffer), FixedAll(words);
      assert buffer == body + tail;
      buffer := buffer + Fixed(|words|, 4);
      forall k | 0 <= k < |words| ensures buffer[|body| + 4 * k..|body| + 4 * k + 4] == Fixed(words[k], 4) {
        FixedWord(words, k);
        assert buffer[|body| + 4 * k..|body| + 4 * k + 4] == tail[4 * k..4 * k + 4];
      }
      finished := true;
      return buffer;
    }
  }

  lemma SortedAppend(before: Order, ps: seq<Pair>, p: Pair)
    requires Transitive(before) && Sorted(before, ps) && (ps == [] || before(LastKey(ps), p.key))
    ensures Sorted(before, ps + [p])
  {
  }

  lemma BodyAppend(ps: seq<Pair>, interval: nat, p: Pair)
    ensures Body(ps + [p], interval) == Body(ps, interval) + EntryBytes(SharedNext(ps, interval, p.key), p.key, p.value)
    ensures Counter(ps + [p], interval) == if Counter(ps, interval) < interval then Counter(ps, interval) + 1 else 1
    ensures LastKey(ps + [p]) == p.key
  {
    hide EntryBytes, SharedNext;
    assert (ps + [p])[..|ps|] == ps;
  }

  lemma KeyJoined(last: Bytes, key: Bytes, n: nat)
    requires n <= |last| && n <= |key| && last[..n] == key[..n]
    ensures last[..n] + key[n..] == key
  {
  }

  lemma EntryIs(shared: nat, key: Bytes, value: Bytes)
    requires shared <= |key|
    ensures EntryBytes(shared, key, value) == Varint(shared) + Varint(|key| - shared) + Varint(|value|) + key[shared..] + value
  {
  }
}
