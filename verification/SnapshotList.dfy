/** The circular list of snapshots (db/snapshot.h). */
module SnapshotLists {
  import opened Keys

  class SnapshotImpl {
    const sequenceNumber: SequenceNumber
    var prev: SnapshotImpl?
    var next: SnapshotImpl?

    constructor (sequenceNumber: SequenceNumber)
      ensures this.sequenceNumber == sequenceNumber
    {
      this.sequenceNumber, prev, next := sequenceNumber, null, null;
    }
  }

  /** The node at place `i` of the circle; the head stands at both ends. */
  ghost function Node(head: SnapshotImpl, live: seq<SnapshotImpl>, i: int): SnapshotImpl {
    if 0 <= i < |live| then live[i] else head
  }

  ghost predicate Ordered(head: SnapshotImpl, live: seq<SnapshotImpl>) {
    && head !in live
    && forall i, j :: 0 <= i < j < |live| ==> live[i] != live[j] && live[i].sequenceNumber <= live[j].sequenceNumber
  }

  ghost predicate Linked(head: SnapshotImpl, live: seq<SnapshotImpl>)
    reads head`next, head`prev, live`next, live`prev
  {
    forall i :: -1 <= i < |live| ==>
      && Node(head, live, i).next == Node(head, live, i + 1)
      && Node(head, live, i + 1).prev == Node(head, live, i)
  }

  ghost function Numbers(live: seq<SnapshotImpl>): (s: seq<SequenceNumber>)
    ensures |s| == |live| && forall i :: 0 <= i < |s| ==> s[i] == live[i].sequenceNumber
  {
    seq(|live|, i requires 0 <= i < |live| => live[i].sequenceNumber)
  }

  class SnapshotList {
    const head: SnapshotImpl
    ghost var live: seq<SnapshotImpl>

    /** The nodes are linked both ways in the order of `live`, oldest first. */
    ghost predicate Valid()
      reads this, head`next, head`prev, live`next, live`prev
    {
      Ordered(head, live) && Linked(head, live)
    }

    constructor ()
      ensures Valid() && live == [] && fresh(head)
    {
      var dummy := new SnapshotImpl(0);
      head := dummy;
      live := [];
      new;
      head.prev := head;
      head.next := head;
    }

    method Empty() returns (empty: bool)
      requires Valid()
      ensures empty <==> live == []
    {
      assert head.next == Node(head, live, 0) by { assert Node(head, live, -1) == head; }
      empty := head.next == head;
    }

    /** Its number is the least of the live ones: compactions keep all from there on. */
    method Oldest() returns (snapshot: SnapshotImpl)
      requires Valid() && live != []
      ensures snapshot == live[0]
      ensures forall s <- Numbers(live) :: snapshot.sequenceNumber <= s
    {
      assert head.next == Node(head, live, 0) by { assert Node(head, live, -1) == head; }
      snapshot := head.next;
    }

    method Newest() returns (snapshot: SnapshotImpl)
      requires Valid() && live != []
      ensures snapshot == live[|live| - 1]
      ensures forall s <- Numbers(live) :: s <= snapshot.sequenceNumber
    {
      assert Node(head, live, |live|) == head;
      assert head.prev == Node(head, live, |live| - 1);
      snapshot := head.prev;
    }

    /** Appends a snapshot; numbers never go back. */
    method New(sequenceNumber: SequenceNumber) returns (snapshot: SnapshotImpl)
      requires Valid() && (forall s <- Numbers(live) :: s <= sequenceNumber)
      modifies this, head`next, head`prev, live`next, live`prev
      ensures Valid() && fresh(snapshot) && live == old(live) + [snapshot]
      ensures Numbers(live) == old(Numbers(live)) + [sequenceNumber]
    {
      snapshot := new SnapshotImpl(sequenceNumber);
      assert Node(head, live, |live|) == head;
      assert head.prev == Node(head, live, |live| - 1);
      snapshot.next := head;
      snapshot.prev := head.prev;
      snapshot.prev.next := snapshot;
      snapshot.next.prev := snapshot;
      ghost var longer := live + [snapshot];
      forall i | -1 <= i < |longer|
        ensures Node(head, longer, i).next == Node(head, longer, i + 1)
        ensures Node(head, longer, i + 1).prev == Node(head, longer, i)
      {
        assert i < |live| - 1 ==> Node(head, longer, i) == Node(head, live, i);
        assert i < |live| - 1 ==> Node(head, longer, i + 1) == Node(head, live, i + 1);
      }
      OrderedLonger(head, live, snapshot);
      live := longer;
    }

    /** Unlinks a snapshot, wherever it stands. */
    method Delete(snapshot: SnapshotImpl)
      requires Valid() && snapshot in live
      modifies this, head`next, head`prev, live`next, live`prev
      ensures Valid()
      ensures exists k :: 0 <= k < |old(live)| && old(live)[k] == snapshot && live == old(live)[..k] + old(live)[k + 1..]
    {
      ghost var k: nat :| k < |live| && live[k] == snapshot;
      assert snapshot == Node(head, live, k);
      assert snapshot.next == Node(head, live, k + 1) && snapshot.prev == Node(head, live, k - 1);
      snapshot.prev.next := snapshot.next;
      snapshot.next.prev := snapshot.prev;
      ghost var rest := live[..k] + live[k + 1..];
      forall i | -1 <= i < |rest|
        ensures Node(head, rest, i).next == Node(head, rest, i + 1)
        ensures Node(head, rest, i + 1).prev == Node(head, rest, i)
      {
        assert Node(head, rest, i) == Node(head, live, if i < k then i else i + 1);
        assert Node(head, rest, i + 1) == Node(head, live, if i + 1 < k then i + 1 else i + 2);
      }
      live := rest;
    }
  }

  lemma OrderedLonger(head: SnapshotImpl, live: seq<SnapshotImpl>, s: SnapshotImpl)
    requires Ordered(head, live) && s != head && s !in live
    requires forall n <- Numbers(live) :: n <= s.sequenceNumber
    ensures Ordered(head, live + [s])
  {
    assert forall i :: 0 <= i < |live| ==> Numbers(live)[i] in Numbers(live);
  }
}
