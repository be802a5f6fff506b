/** The two-level iterator (table/two_level_iterator.cc): it refines a cursor
    over the concatenation of the blocks an index lists, skipping empty blocks
    in both directions. */
module TwoLevel {
  import opened Keys
  import opened Cursors

  class TwoLevelIterator {
    const indexIter: Cursor
    const blockFunction: Bytes -> seq<Entry>
    var dataIter: Cursor?
    var dataBlockHandle: Bytes

    ghost function Block(i: int): seq<Entry>
      requires 0 <= i < |indexIter.entries|
    {
      blockFunction(indexIter.entries[i].value)
    }

    /** The first `n` blocks, one after the other. */
    ghost function Flat(n: nat): seq<Entry>
      requires n <= |indexIter.entries|
    {
      if n == 0 then [] else Flat(n - 1) + Block(n - 1)
    }

    ghost function All(): seq<Entry> {
      Flat(|indexIter.entries|)
    }

    ghost function Offset(n: nat): nat
      requires n <= |indexIter.entries|
    {
      |Flat(n)|
    }

    ghost predicate Ok()
      reads this, indexIter, dataIter
    {
      && dataIter != indexIter
      && (dataIter != null ==> dataIter.entries == blockFunction(dataBlockHandle))
      && (Valid() ==> indexIter.Valid() && dataBlockHandle == indexIter.Current().value)
    }

    predicate Valid()
      reads this, dataIter
    {
      dataIter != null && dataIter.Valid()
    }

    ghost function Position(): nat
      requires Ok()
      reads this, indexIter, dataIter
    {
      if Valid() then Offset(indexIter.position) + dataIter.position else |All()|
    }

    constructor (indexIter: Cursor, blockFunction: Bytes -> seq<Entry>)
      ensures Ok() && Position() == |All()|
      ensures this.indexIter == indexIter && this.blockFunction == blockFunction && dataIter == null
    {
      this.indexIter, this.blockFunction, dataIter, dataBlockHandle := indexIter, blockFunction, null, [];
    }

    lemma {:induction false} FlatPrefix(m: nat, n: nat)
      requires m <= n <= |indexIter.entries|
      ensures Flat(m) <= Flat(n)
    {
      if m < n {
        FlatPrefix(m, n - 1);
      }
    }

    lemma FlatAt(m: nat, i: nat)
      requires m < |indexIter.entries| && i < |Block(m)|
      ensures Offset(m) + i < |All()| && All()[Offset(m) + i] == Block(m)[i]
      ensures Offset(m + 1) == Offset(m) + |Block(m)|
    {
      FlatPrefix(m + 1, |indexIter.entries|);
    }

    /** What the iterator shows is the entry of the concatenation at its position. */
    method CurrentEntry() returns (e: Entry)
      requires Ok() && Valid()
      ensures Position() < |All()| && e == All()[Position()]
    {
      e := dataIter.Current();
      FlatAt(indexIter.position, dataIter.position);
    }

    /** The data iterator is over the block the index iterator stands at. */
    ghost predicate OnBlock()
      reads this, indexIter, dataIter
    {
      && dataIter != indexIter
      && (dataIter != null ==> dataIter.entries == blockFunction(dataBlockHandle))
      && (indexIter.Valid() <==> dataIter != null)
      && (indexIter.Valid() ==> dataBlockHandle == indexIter.Current().value)
    }

    method InitDataBlock()
      requires dataIter != indexIter
      requires dataIter != null ==> dataIter.entries == blockFunction(dataBlockHandle)
      modifies this
      ensures OnBlock()
      ensures dataIter == null || dataIter == old(dataIter) || fresh(dataIter)
    {
      if !indexIter.Valid() {
        dataIter := null;
      } else {
        var handle := indexIter.Current().value;
        if dataIter == null || handle != dataBlockHandle {
          dataIter := new Cursor(blockFunction(handle));
          dataBlockHandle := handle;
        }
      }
    }

    /** Moves from the place `p`, which may be the end of a block, to the entry there. */
    method SkipEmptyDataBlocksForward(ghost p: nat)
      requires OnBlock() && indexIter.position <= |indexIter.entries|
      requires indexIter.Valid() ==> dataIter.position <= |dataIter.entries| && p == Offset(indexIter.position) + dataIter.position
      requires !indexIter.Valid() ==> p == |All()|
      modifies this, indexIter, dataIter
      ensures Ok() && Position() == p
      ensures dataIter == null || dataIter == old(dataIter) || fresh(dataIter)
    {
      while dataIter == null || !dataIter.Valid()
        invariant OnBlock() && indexIter.position <= |indexIter.entries|
        invariant indexIter.Valid() ==> dataIter.position <= |dataIter.entries| && p == Offset(indexIter.position) + dataIter.position
        invariant !indexIter.Valid() ==> p == |All()|
        invariant dataIter == null || dataIter == old(dataIter) || fresh(dataIter)
        decreases |indexIter.entries| - indexIter.position
      {
        if !indexIter.Valid() {
          dataIter := null;
          return;
        }
        indexIter.Next();
        InitDataBlock();
        if dataIter != null {
          dataIter.SeekToFirst();
        }
      }
    }

    /** Moves to the last entry before the place `b`. */
    method SkipEmptyDataBlocksBackward(ghost b: nat)
      requires OnBlock()
      requires indexIter.Valid() ==> b == Offset(indexIter.position) + if dataIter.Valid() then dataIter.position + 1 else 0
      requires !indexIter.Valid() ==> b == 0
      modifies this, indexIter, dataIter
      ensures Ok() && Position() == PrevOf(|All()|, b)
      ensures dataIter == null || dataIter == old(dataIter) || fresh(dataIter)
    {
      while dataIter == null || !dataIter.Valid()
        invariant OnBlock()
        invariant indexIter.Valid() ==> b == Offset(indexIter.position) + if dataIter.Valid() then dataIter.position + 1 else 0
        invariant !indexIter.Valid() ==> b == 0
        invariant dataIter == null || dataIter == old(dataIter) || fresh(dataIter)
        decreases if indexIter.Valid() then indexIter.position + 1 else 0
      {
        if !indexIter.Valid() {
          dataIter := null;
          return;
        }
        indexIter.Prev();
        InitDataBlock();
        if dataIter != null {
          dataIter.SeekToLast();
        }
      }
    }

    method SeekToFirst()
      requires Ok()
      modifies this, indexIter, dataIter
      ensures Ok() && Position() == 0
      ensures dataIter == null || dataIter == old(dataIter) || fresh(dataIter)
    {
      indexIter.SeekToFirst();
      InitDataBlock();
      if dataIter != null {
        dataIter.SeekToFirst();
      }
      SkipEmptyDataBlocksForward(0);
    }

    method SeekToLast()
      requires Ok()
      modifies this, indexIter, dataIter
      ensures Ok() && Position() == LastOf(|All()|)
      ensures All() != [] ==> Position() == |All()| - 1
      ensures dataIter == null || dataIter == old(dataIter) || fresh(dataIter)
    {
      indexIter.SeekToLast();
      InitDataBlock();
      if dataIter != null {
        dataIter.SeekToLast();
      }
      SkipEmptyDataBlocksBackward(|All()|);
    }

    method Next()
      requires Ok() && Valid()
      modifies this, indexIter, dataIter
      ensures Ok() && Position() == old(Position()) + 1
      ensures dataIter == null || dataIter == old(dataIter) || fresh(dataIter)
    {
      ghost var p := Position() + 1;
      dataIter.Next();
      SkipEmptyDataBlocksForward(p);
    }

    method Prev()
      requires Ok() && Valid()
      modifies this, indexIter, dataIter
      ensures Ok() && Position() == PrevOf(|All()|, old(Position()))
      ensures if old(Position()) == 0 then Position() == |All()| else Position() == old(Position()) - 1
      ensures dataIter == null || dataIter == old(dataIter) || fresh(dataIter)
    {
      ghost var p := Position();
      dataIter.Prev();
      SkipEmptyDataBlocksBackward(p);
    }

    // ----- Seeking through the index -----

    /** Each index key separates its block from all later ones. */
    ghost predicate Separates() {
      forall i, j, e | 0 <= i < |indexIter.entries| && 0 <= j < |indexIter.entries| && e in Block(j) ::
        if j <= i then AtMost(e.key, indexIter.entries[i].key) else Less(indexIter.entries[i].key, e.key)
    }

    lemma {:induction false} FlatMember(n: nat, p: nat) returns (m: nat, i: nat)
      requires n <= |indexIter.entries| && p < |Flat(n)|
      ensures m < n && i < |Block(m)| && p == Offset(m) + i && Flat(n)[p] == Block(m)[i]
    {
      if p < |Flat(n - 1)| {
        m, i := FlatMember(n - 1, p);
      } else {
        m, i := n - 1, p - |Flat(n - 1)|;
      }
    }

    lemma OffsetsGrow(m: nat, n: nat)
      requires m <= n <= |indexIter.entries|
      ensures Offset(m) <= Offset(n)
      ensures m < n ==> Offset(m) + |Block(m)| <= Offset(n)
    {
      FlatPrefix(m, n);
      if m < n {
        FlatPrefix(m + 1, n);
      }
    }

    /** Seeking in the index and then in one block seeks in the concatenation. */
    lemma SeekThroughIndex(target: InternalKey, b: nat, q: nat)
      requires Separates() && Ascending(All()) && IsSeek(indexIter.entries, target, b)
      requires b < |indexIter.entries| ==> IsSeek(Block(b), target, q)
      requires b == |indexIter.entries| ==> q == 0
      ensures IsSeek(All(), target, Offset(b) + q)
    {
      OffsetsGrow(b, |indexIter.entries|);
      var n := |indexIter.entries|;
      forall p | 0 <= p < |All()|
        ensures p < Offset(b) + q ==> Less(All()[p].key, target)
        ensures p == Offset(b) + q ==> AtMost(target, All()[p].key)
      {
        var m, i := FlatMember(n, p);
        if m < b {
          assert AtMost(Block(m)[i].key, indexIter.entries[m].key);
          OffsetsGrow(m, b);
        } else if b < m {
          OffsetsGrow(b, m);
          assert Less(indexIter.entries[b].key, Block(m)[i].key);
        }
      }
    }

    method Seek(target: InternalKey)
      requires Ok() && Separates() && Ascending(All())
      modifies this, indexIter, dataIter
      ensures Ok() && IsSeek(All(), target, Position())
      ensures dataIter == null || dataIter == old(dataIter) || fresh(dataIter)
    {
      indexIter.SeekTo(target);
      InitDataBlock();
      if dataIter != null {
        dataIter.SeekTo(target);
      }
      SeekThroughIndex(target, indexIter.position, if dataIter != null then dataIter.position else 0);
      SkipEmptyDataBlocksForward(Offset(indexIter.position) + if dataIter != null then dataIter.position else 0);
    }
  }
}
