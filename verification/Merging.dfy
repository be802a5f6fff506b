/** The merging iterator (table/merger.cc): it refines a cursor over the sorted
    merge of its children, in both directions. */
module Merging {
  import opened Keys
  import opened Cursors

  datatype Direction = Forward | Reverse

  /** `merged` interleaves the lists; `place[c][i]` is where it puts entry `i`
      of list `c`. */
  ghost predicate IsMerge(merged: seq<Entry>, lists: seq<seq<Entry>>, place: seq<seq<nat>>) {
    && Ascending(merged) && |place| == |lists|
    && (forall c | 0 <= c < |lists| :: Ascending(lists[c]))
    && (forall c | 0 <= c < |lists| :: |place[c]| == |lists[c]|)
    && (forall c, i | 0 <= c < |lists| && 0 <= i < |lists[c]| ::
          place[c][i] < |merged| && merged[place[c][i]] == lists[c][i])
    && (forall c, i, d, j | 0 <= c < |lists| && 0 <= i < |lists[c]| && 0 <= d < |lists| && 0 <= j < |lists[d]|
          && place[c][i] == place[d][j] :: c == d && i == j)
    && (forall k | 0 <= k < |merged| :: Placed(lists, place, k))
  }

  ghost predicate Placed(lists: seq<seq<Entry>>, place: seq<seq<nat>>, k: int)
    requires |place| == |lists| && forall c | 0 <= c < |lists| :: |place[c]| == |lists[c]|
  {
    exists c, i | 0 <= c < |lists| && 0 <= i < |lists[c]| :: place[c][i] == k
  }

  lemma SeekExists(es: seq<Entry>, target: InternalKey) returns (b: nat)
    ensures IsSeek(es, target, b)
  {
    b := 0;
    while b < |es| && Less(es[b].key, target)
      invariant b <= |es|
      invariant forall j | 0 <= j < b :: Less(es[j].key, target)
    {
      b := b + 1;
    }
  }

  // ----- Every family of lists with distinct keys has a merge -----

  /** No key occurs twice, neither in one list nor in two. */
  ghost predicate DistinctKeys(lists: seq<seq<Entry>>) {
    && (forall c | 0 <= c < |lists| :: Ascending(lists[c]))
    && forall c, i, d, j | 0 <= c < d < |lists| && 0 <= i < |lists[c]| && 0 <= j < |lists[d]| ::
         lists[c][i].key != lists[d][j].key
  }

  ghost function Pool(lists: seq<seq<Entry>>): set<Entry> {
    set c, i | 0 <= c < |lists| && 0 <= i < |lists[c]| :: lists[c][i]
  }

  lemma {:induction false} SortedExists(es: set<Entry>) returns (r: seq<Entry>)
    requires forall a <- es, b <- es | a.key == b.key :: a == b
    ensures Ascending(r) && Elements(r) == es
  {
    if es == {} {
      r := [];
    } else {
      var x :| x in es;
      var rest := SortedExists(es - {x});
      var i := SeekExists(rest, x.key);
      r := rest[..i] + [x] + rest[i..];
      forall k | 0 <= k < |rest| ensures (k < i ==> Less(rest[k].key, x.key)) && (i <= k ==> Less(x.key, rest[k].key)) {
        assert rest[k] in Elements(rest);
        FromSeek(rest, x.key, i, k);
      }
      assert Elements(r) == Elements(rest) + {x} by {
        assert forall e :: e in r <==> e in rest[..i] || e == x || e in rest[i..];
        assert rest == rest[..i] + rest[i..];
      }
    }
  }

  ghost function PlaceIn(merged: seq<Entry>, e: Entry): (k: nat)
    requires e in merged
    ensures k < |merged| && merged[k] == e
  {
    var k :| 0 <= k < |merged| && merged[k] == e;
    k
  }

  lemma DifferentKeys(es: seq<Entry>, i: nat, j: nat)
    requires Ascending(es) && i < |es| && j < |es| && i != j
    ensures es[i].key != es[j].key
  {
    if i < j {
      assert Less(es[i].key, es[j].key);
    } else {
      assert Less(es[j].key, es[i].key);
    }
  }

  lemma AllDifferent(lists: seq<seq<Entry>>)
    requires DistinctKeys(lists)
    ensures forall c, i, d, j | 0 <= c < |lists| && 0 <= i < |lists[c]| && 0 <= d < |lists| && 0 <= j < |lists[d]|
              && lists[c][i].key == lists[d][j].key :: c == d && i == j
  {
    forall c, i, d, j | 0 <= c < |lists| && 0 <= i < |lists[c]| && 0 <= d < |lists| && 0 <= j < |lists[d]| && (c != d || i != j)
      ensures lists[c][i].key != lists[d][j].key
    {
      if c == d {
        DifferentKeys(lists[c], i, j);
      }
    }
  }

  lemma MergeExists(lists: seq<seq<Entry>>) returns (merged: seq<Entry>, place: seq<seq<nat>>)
    requires DistinctKeys(lists)
    ensures IsMerge(merged, lists, place)
  {
    AllDifferent(lists);
    var pool := Pool(lists);
    forall a <- pool, b <- pool | a.key == b.key ensures a == b {
      KeysApart(lists, a, b);
    }
    merged := SortedExists(pool);
    forall c, i | 0 <= c < |lists| && 0 <= i < |lists[c]| ensures lists[c][i] in merged {
      assert lists[c][i] in Elements(merged);
    }
    var m := merged;
    place := seq(|lists|, c requires 0 <= c < |lists| =>
      seq(|lists[c]|, i requires 0 <= i < |lists[c]| && lists[c][i] in m => PlaceIn(m, lists[c][i])));
    forall c, i, d, j | 0 <= c < |lists| && 0 <= i < |lists[c]| && 0 <= d < |lists| && 0 <= j < |lists[d]|
      && place[c][i] == place[d][j]
      ensures c == d && i == j
    {
      assert lists[c][i] == lists[d][j];
    }
    forall k | 0 <= k < |merged| ensures Placed(lists, place, k) {
      assert merged[k] in Elements(merged);
      var c, i :| 0 <= c < |lists| && 0 <= i < |lists[c]| && lists[c][i] == merged[k];
      assert Ascending(merged) && merged[place[c][i]] == merged[k];
      assert place[c][i] == k;
    }
  }

  lemma KeysApart(lists: seq<seq<Entry>>, a: Entry, b: Entry)
    requires DistinctKeys(lists) && a in Pool(lists) && b in Pool(lists) && a.key == b.key
    ensures a == b
  {
    AllDifferent(lists);
    var c, i :| 0 <= c < |lists| && 0 <= i < |lists[c]| && lists[c][i] == a;
    var d, j :| 0 <= d < |lists| && 0 <= j < |lists[d]| && lists[d][j] == b;
  }

  class MergingIterator {
    const children: seq<Cursor>
    var current: nat  // the number of children stands for a null pointer
    var direction: Direction
    ghost const merged: seq<Entry>
    ghost const place: seq<seq<nat>>
    ghost var index: nat

    ghost function Lists(): seq<seq<Entry>> {
      seq(|children|, c requires 0 <= c < |children| => children[c].entries)
    }

    ghost predicate Fixed() {
      && (forall c, d | 0 <= c < d < |children| :: children[c] != children[d])
      && IsMerge(merged, Lists(), place)
    }

    /** The internal position of a child, with -1 for "not valid". */
    ghost function Reached(c: int): int
      requires 0 <= c < |children|
      reads children
    {
      if children[c].Valid() then children[c].position else -1
    }

    /** Every child stands at its first entry not before place `b`. */
    ghost predicate SplitAt(b: nat)
      requires Fixed()
      reads children
    {
      forall c, i | 0 <= c < |children| && 0 <= i < |children[c].entries| ::
        i < children[c].position <==> place[c][i] < b
    }

    /** Every child stands at its last entry before place `b`. */
    ghost predicate SplitBefore(b: nat)
      requires Fixed()
      reads children
    {
      forall c, i | 0 <= c < |children| && 0 <= i < |children[c].entries| ::
        i <= Reached(c) <==> place[c][i] < b
    }

    ghost predicate Ok()
      reads this, children
    {
      && Fixed() && current <= |children| && index <= |merged|
      && (current < |children| <==> index < |merged|)
      && (current < |children| ==>
            && children[current].Valid() && place[current][children[current].position] == index
            && (if direction.Forward? then SplitAt(index) else SplitBefore(index + 1)))
    }

    constructor (children: seq<Cursor>, ghost merged: seq<Entry>, ghost place: seq<seq<nat>>)
      requires forall c, d | 0 <= c < d < |children| :: children[c] != children[d]
      requires IsMerge(merged, seq(|children|, c requires 0 <= c < |children| => children[c].entries), place)
      ensures Ok() && this.children == children && this.merged == merged && index == |merged|
    {
      this.children, this.merged, this.place := children, merged, place;
      current, direction, index := |children|, Forward, |merged|;
      new;
      assert Lists() == seq(|children|, c requires 0 <= c < |children| => children[c].entries);
    }

    predicate Valid()
      reads this
    {
      current < |children|
    }

    method CurrentEntry() returns (e: Entry)
      requires Ok() && Valid()
      ensures index < |merged| && e == merged[index]
    {
      e := children[current].Current();
      assert Lists()[current][children[current].position] == e;
    }

    lemma Sizes()
      requires Fixed()
      ensures |place| == |children|
      ensures forall c | 0 <= c < |children| :: |place[c]| == |children[c].entries|
      ensures forall c, i | 0 <= c < |children| && 0 <= i < |children[c].entries| :: 0 <= place[c][i] < |merged|
    {
      assert forall c | 0 <= c < |children| :: Lists()[c] == children[c].entries;
    }

    lemma PlaceOf(c: nat, i: nat)
      requires Fixed() && c < |children| && i < |children[c].entries|
      ensures |place| == |children| && |place[c]| == |children[c].entries|
      ensures place[c][i] < |merged| && merged[place[c][i]] == children[c].entries[i]
    {
      assert Lists()[c][i] == children[c].entries[i];
    }

    lemma PlaceIsOrder(c: nat, i: nat, d: nat, j: nat)
      requires Fixed() && c < |children| && i < |children[c].entries| && d < |children| && j < |children[d].entries|
      ensures |place| == |children| && |place[c]| == |children[c].entries| && |place[d]| == |children[d].entries|
      ensures Less(children[c].entries[i].key, children[d].entries[j].key) <==> place[c][i] < place[d][j]
      ensures place[c][i] == place[d][j] ==> c == d && i == j
    {
      PlaceOf(c, i);
      PlaceOf(d, j);
      assert place[c][i] < place[d][j] || place[d][j] < place[c][i] || place[c][i] == place[d][j];
    }

    lemma SomewherePlaced(k: nat) returns (c: nat, i: nat)
      requires Fixed() && k < |merged|
      ensures c < |children| && i < |children[c].entries|
      ensures |place| == |children| && |place[c]| == |children[c].entries| && place[c][i] == k
    {
      assert Placed(Lists(), place, k);
      c, i :| 0 <= c < |children| && 0 <= i < |children[c].entries| && place[c][i] == k;
    }

    /** The place of the entry a child stands at. */
    ghost function Spot(c: int): int
      requires Fixed() && 0 <= c < |children| && children[c].Valid()
      reads children
    {
      PlaceOf(c, children[c].position);
      place[c][children[c].position]
    }

    /** `c` is the child with the smallest entry if `sign` is 1, with the
        largest if it is -1; or no child in the range is valid. */
    ghost predicate Extreme(c: nat, from: int, to: int, sign: int)
      requires Fixed() && 0 <= from && to <= |children|
      reads children
    {
      && c <= |children|
      && (c < |children| ==> from <= c < to && children[c].Valid())
      && forall d | from <= d < to && children[d].Valid() :: c < |children| && sign * Spot(c) <= sign * Spot(d)
    }

    method FindSmallest(ghost b: nat)
      requires Fixed() && SplitAt(b) && direction.Forward? && b <= |merged|
      modifies `current, `index
      ensures Ok() && index == b
    {
      hide Ascending, IsMerge, Placed;
      var smallest: nat := |children|;
      for i := 0 to |children|
        invariant Extreme(smallest, 0, i, 1)
      {
        var child := children[i];
        if child.Valid() {
          if smallest == |children| {
            smallest := i;
          } else {
            PlaceIsOrder(i, child.position, smallest, children[smallest].position);
            if Less(child.Current().key, children[smallest].Current().key) {
              smallest := i;
            }
          }
        }
      }
      SmallestIsNext(smallest, b);
      current := smallest;
      index := b;
    }

    lemma SmallestIsNext(c: nat, b: nat)
      requires Fixed() && SplitAt(b) && b <= |merged| && Extreme(c, 0, |children|, 1)
      ensures c < |children| <==> b < |merged|
      ensures c < |children| ==> Spot(c) == b
    {
      hide Ascending, IsMerge, Placed;
      if b < |merged| {
        var d, j := SomewherePlaced(b);
        Onward(d, j, b);
      }
      if c < |children| {
        PlaceOf(c, children[c].position);
      }
    }

    lemma Onward(d: nat, j: nat, b: nat)
      requires Fixed() && SplitAt(b) && d < |children| && j < |children[d].entries|
      requires |place| == |children| && |place[d]| == |children[d].entries| && place[d][j] == b
      ensures children[d].Valid() && Spot(d) <= b
    {
      hide Placed;
      PlaceIsOrder(d, children[d].position, d, j);
      assert Ascending(Lists()[d]);
    }

    method FindLargest(ghost b: nat)
      requires Fixed() && SplitBefore(b) && direction.Reverse? && b <= |merged|
      modifies `current, `index
      ensures Ok() && index == PrevOf(|merged|, b)
    {
      hide Ascending, IsMerge, Placed;
      var largest: nat := |children|;
      for i := |children| downto 0
        invariant Extreme(largest, i, |children|, -1)
      {
        var child := children[i];
        if child.Valid() {
          if largest == |children| {
            largest := i;
          } else {
            PlaceIsOrder(largest, children[largest].position, i, child.position);
            if Less(children[largest].Current().key, child.Current().key) {
              largest := i;
            }
          }
        }
      }
      LargestIsPrevious(largest, b);
      current := largest;
      index := PrevOf(|merged|, b);
    }

    lemma LargestIsPrevious(c: nat, b: nat)
      requires Fixed() && SplitBefore(b) && b <= |merged| && Extreme(c, 0, |children|, -1)
      ensures c < |children| <==> b > 0
      ensures c < |children| ==> Spot(c) == b - 1
    {
      hide Ascending, IsMerge, Placed;
      if b > 0 {
        var d, j := SomewherePlaced(b - 1);
        Backward(d, j, b);
      }
      if c < |children| {
        PlaceOf(c, children[c].position);
      }
    }

    lemma Backward(d: nat, j: nat, b: nat)
      requires Fixed() && SplitBefore(b) && d < |children| && j < |children[d].entries|
      requires |place| == |children| && |place[d]| == |children[d].entries| && place[d][j] == b - 1
      ensures children[d].Valid() && Spot(d) >= b - 1
    {
      hide Placed;
      assert j <= Reached(d);
      PlaceIsOrder(d, children[d].position, d, j);
      assert Ascending(Lists()[d]);
    }

    method SeekToFirst()
      requires Fixed()
      modifies this, children
      ensures Ok() && index == 0
    {
      hide IsMerge;
      for i := 0 to |children|
        invariant forall c | 0 <= c < i :: children[c].position == 0
      {
        children[i].SeekToFirst();
      }
      direction := Forward;
      Sizes();
      FindSmallest(0);
    }

    method SeekToLast()
      requires Fixed()
      modifies this, children
      ensures Ok() && index == LastOf(|merged|)
      ensures if merged == [] then !Valid() else Valid() && index == |merged| - 1
    {
      hide IsMerge;
      for i := 0 to |children|
        invariant forall c | 0 <= c < i :: children[c].position == LastOf(|children[c].entries|)
      {
        children[i].SeekToLast();
      }
      direction := Reverse;
      Sizes();
      FindLargest(|merged|);
    }

    method Seek(target: InternalKey)
      requires Fixed()
      modifies this, children
      ensures Ok() && IsSeek(merged, target, index)
    {
      hide IsMerge;
      for i := 0 to |children|
        invariant forall c | 0 <= c < i :: IsSeek(children[c].entries, target, children[c].position)
      {
        children[i].SeekTo(target);
      }
      direction := Forward;
      ghost var b := SeekExists(merged, target);
      SoughtIsSplit(target, b);
      FindSmallest(b);
    }

    /** Positions all other children after the current key. */
    method TurnForward()
      requires Ok() && Valid() && direction.Reverse?
      modifies children
      ensures Fixed() && SplitAt(index)
      ensures children[current].position == old(children[current].position)
    {
      hide IsMerge;
      ghost var b := index;
      Sizes();
      var key := CurrentEntry();
      for i := 0 to |children|
        invariant children[current].position == old(children[current].position)
        invariant forall c | 0 <= c < i && c != current :: IsSeek(children[c].entries, merged[b].key, children[c].position)
      {
        if i != current {
          children[i].SeekTo(key.key);
          NoEqualKey(i, b);
          if children[i].Valid() && children[i].Current().key == key.key {
            assert false;  // the code would step past an equal key; keys are distinct
          }
        }
      }
      OthersAtSeek(b);
    }

    method Next()
      requires Ok() && Valid()
      modifies this, children
      ensures Ok() && index == old(index) + 1
    {
      hide IsMerge;
      ghost var b := index;
      Sizes();
      if !direction.Forward? {
        TurnForward();
        direction := Forward;
      }
      OnlyHere();
      children[current].Next();
      FindSmallest(b + 1);
    }

    /** Positions all other children before the current key. */
    method TurnBack()
      requires Ok() && Valid() && direction.Forward?
      modifies children
      ensures Fixed() && SplitBefore(index + 1)
      ensures children[current].position == old(children[current].position)
    {
      hide IsMerge;
      ghost var b := index;
      Sizes();
      var key := CurrentEntry();
      for i := 0 to |children|
        invariant children[current].position == old(children[current].position)
        invariant forall c | 0 <= c < i && c != current :: IsSeek(children[c].entries, merged[b].key, Reached(c) + 1)
      {
        if i != current {
          children[i].SeekTo(key.key);
          ghost var sought := children[i].position;
          if children[i].Valid() {
            children[i].Prev();
          } else {
            children[i].SeekToLast();
          }
          assert Reached(i) + 1 == sought;
        }
      }
      OthersBefore(b);
    }

    method Prev()
      requires Ok() && Valid()
      modifies this, children
      ensures Ok() && index == PrevOf(|merged|, old(index))
      ensures if old(index) == 0 then !Valid() else Valid() && index == old(index) - 1
    {
      hide IsMerge;
      ghost var b := index;
      Sizes();
      if !direction.Reverse? {
        TurnBack();
        direction := Reverse;
      }
      OnlyHere();
      children[current].Prev();
      FindLargest(b);
    }

    /** Keys are distinct, so no other child has the current key. */
    lemma NoEqualKey(c: nat, b: nat)
      requires Fixed() && c < |children| && current < |children| && c != current && b < |merged|
      requires children[current].Valid() && Spot(current) == b
      ensures children[c].Valid() ==> children[c].Current().key != merged[b].key
    {
      hide IsMerge;
      PlaceOf(current, children[current].position);
      if children[c].Valid() {
        PlaceIsOrder(c, children[c].position, current, children[current].position);
        PlaceIsOrder(current, children[current].position, c, children[c].position);
      }
    }

    lemma OnlyHere()
      requires Fixed() && Valid() && children[current].Valid()
      ensures |place| == |children| && forall c | 0 <= c < |children| :: |place[c]| == |children[c].entries|
      ensures forall c, i | 0 <= c < |children| && 0 <= i < |children[c].entries| && place[c][i] == Spot(current) ::
                c == current && i == children[current].position
    {
      Sizes();
      var lists := Lists();
      assert forall c | 0 <= c < |children| :: lists[c] == children[c].entries;
    }

    lemma OthersAtSeek(b: nat)
      requires Fixed() && current < |children| && b < |merged|
      requires children[current].Valid() && Spot(current) == b
      requires forall c | 0 <= c < |children| && c != current :: IsSeek(children[c].entries, merged[b].key, children[c].position)
      ensures SplitAt(b)
    {
      Sizes();
      forall c, i | 0 <= c < |children| && 0 <= i < |children[c].entries|
        ensures i < children[c].position <==> place[c][i] < b
      {
        PlaceIsOrder(c, i, current, children[current].position);
        assert Ascending(Lists()[c]);
        if c != current {
          FromSeek(children[c].entries, merged[b].key, children[c].position, i);
          PlaceOf(current, children[current].position);
        }
      }
    }

    lemma OthersBefore(b: nat)
      requires Fixed() && current < |children| && b < |merged|
      requires children[current].Valid() && Spot(current) == b
      requires forall c | 0 <= c < |children| && c != current :: IsSeek(children[c].entries, merged[b].key, Reached(c) + 1)
      ensures SplitBefore(b + 1)
    {
      Sizes();
      OnlyHere();
      forall c, i | 0 <= c < |children| && 0 <= i < |children[c].entries|
        ensures i <= Reached(c) <==> place[c][i] < b + 1
      {
        PlaceIsOrder(c, i, current, children[current].position);
        assert Ascending(Lists()[c]);
        if c != current {
          FromSeek(children[c].entries, merged[b].key, Reached(c) + 1, i);
          PlaceOf(current, children[current].position);
        }
      }
    }

    lemma SoughtIsSplit(target: InternalKey, b: nat)
      requires Fixed() && IsSeek(merged, target, b)
      requires forall c | 0 <= c < |children| :: IsSeek(children[c].entries, target, children[c].position)
      ensures SplitAt(b)
    {
      forall c, i | 0 <= c < |children| && 0 <= i < |children[c].entries|
        ensures i < children[c].position <==> place[c][i] < b
      {
        PlaceOf(c, i);
        FromSeek(merged, target, b, place[c][i]);
        assert Ascending(Lists()[c]);
        FromSeek(children[c].entries, target, children[c].position, i);
      }
    }
  }

  lemma FromSeek(es: seq<Entry>, target: InternalKey, b: nat, i: nat)
    requires Ascending(es) && IsSeek(es, target, b) && i < |es|
    ensures i < b <==> Less(es[i].key, target)
  {
    if b < i {
      assert Less(es[b].key, es[i].key);
    }
  }
}
