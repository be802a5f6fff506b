/** The simple cursor that every iterator of the store refines: an index into
    an ascending sequence (include/leveldb/iterator.h). The index equal to the
    length stands for "not valid". */
module Cursors {
  import opened Keys

  function LastOf(n: nat): nat {
    if n == 0 then 0 else n - 1
  }

  function PrevOf(n: nat, p: nat): nat {
    if p == 0 then n else p - 1
  }

  /** `i` is the first entry at or after `key`. */
  ghost predicate IsSeek(es: seq<Entry>, key: InternalKey, i: nat) {
    && i <= |es|
    && (forall j | 0 <= j < i :: Less(es[j].key, key))
    && (i < |es| ==> AtMost(key, es[i].key))
  }

  method Seek(es: seq<Entry>, key: InternalKey) returns (i: nat)
    ensures IsSeek(es, key, i)
  {
    i := 0;
    while i < |es| && Less(es[i].key, key)
      invariant i <= |es|
      invariant forall j | 0 <= j < i :: Less(es[j].key, key)
    {
      i := i + 1;
    }
  }

  class Cursor {
    const entries: seq<Entry>
    var position: nat

    constructor (entries: seq<Entry>)
      ensures this.entries == entries && position == |entries|
    {
      this.entries, position := entries, |entries|;
    }

    predicate Valid()
      reads this
    {
      position < |entries|
    }

    function Current(): Entry
      requires Valid()
      reads this
    {
      entries[position]
    }

    method SeekToFirst()
      modifies this
      ensures position == 0
    {
      position := 0;
    }

    method SeekToLast()
      modifies this
      ensures position == LastOf(|entries|)
    {
      position := LastOf(|entries|);
    }

    method Next()
      requires Valid()
      modifies this
      ensures position == old(position) + 1
    {
      position := position + 1;
    }

    method Prev()
      requires Valid()
      modifies this
      ensures position == PrevOf(|entries|, old(position))
    {
      position := PrevOf(|entries|, position);
    }

    method SeekTo(target: InternalKey)
      modifies this
      ensures IsSeek(entries, target, position)
    {
      position := Seek(entries, target);
    }
  }
}
