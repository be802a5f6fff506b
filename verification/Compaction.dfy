/** The merge loop of a compaction and its rules for dropping entries
    (db/db_impl.cc DoCompactionWork, db/version_set.cc IsBaseLevelForKey). */
module Compaction {
  import opened Keys
  import opened Files
  import opened View

  /** No file of the levels from `from` on covers the user key. */
  ghost predicate NoneCovers(levels: seq<seq<File>>, from: int, user: UserKey) {
    forall l, i | from <= l < |levels| && 0 <= l && 0 <= i < |levels[l]| ::
      !Overlaps(Some(user), Some(user), levels[l][i])
  }

  /** The progress of one compaction through the deeper levels. */
  class BaseLevelScan {
    const level: nat
    const levels: seq<seq<File>>
    var levelPtrs: seq<nat>

    /** The files passed over end before every key still to come. */
    ghost predicate Valid(lastKey: Option<UserKey>)
      reads this
    {
      && |levelPtrs| == |levels|
      && (forall l | level + 2 <= l < |levels| :: SortedDisjoint(levels[l]) && levelPtrs[l] <= |levels[l]|)
      && (forall l, i | level + 2 <= l < |levels| && 0 <= i < levelPtrs[l] ::
            lastKey.Some? && levels[l][i].largest.user < lastKey.value)
    }

    constructor (level: nat, levels: seq<seq<File>>)
      requires forall l | level + 2 <= l < |levels| :: SortedDisjoint(levels[l])
      ensures this.level == level && this.levels == levels && Valid(None)
    {
      this.level, this.levels := level, levels;
      levelPtrs := seq(|levels|, _ => 0);
    }

    /** Remembering how far earlier, smaller keys got does not change the answer. */
    method IsBaseLevelForKey(user: UserKey, ghost lastKey: Option<UserKey>) returns (b: bool)
      requires Valid(lastKey) && (lastKey.Some? ==> lastKey.value <= user)
      modifies this
      ensures Valid(Some(user))
      ensures b <==> NoneCovers(levels, level + 2, user)
    {
      var l := level + 2;
      while l < |levels|
        invariant level + 2 <= l
        invariant Valid(Some(user))
        invariant forall k, i | level + 2 <= k < l && k < |levels| && 0 <= i < |levels[k]| ::
                    !Overlaps(Some(user), Some(user), levels[k][i])
      {
        while levelPtrs[l] < |levels[l]|
          invariant Valid(Some(user))
          decreases |levels[l]| - levelPtrs[l]
        {
          var f := levels[l][levelPtrs[l]];
          if user <= f.largest.user {
            if user >= f.smallest.user {
              return false;
            }
            break;
          }
          levelPtrs := levelPtrs[l := levelPtrs[l] + 1];
        }
        BeyondPointer(levels[l], levelPtrs[l], user);
        l := l + 1;
      }
      return true;
    }
  }

  lemma BeyondPointer(files: seq<File>, p: nat, user: UserKey)
    requires SortedDisjoint(files) && p <= |files|
    requires forall i | 0 <= i < p :: files[i].largest.user < user
    requires p < |files| ==> user < files[p].smallest.user
    ensures forall i | 0 <= i < |files| :: !Overlaps(Some(user), Some(user), files[i])
  {
    forall i | p < i < |files| ensures user < files[i].smallest.user {
      assert Less(files[p].largest, files[i].smallest) && Ranged(files[p]);
    }
  }

  // ----- The drop rules -----

  /** Entry `i` is hidden from every live snapshot by the entry before it. */
  ghost predicate Hidden(input: seq<Entry>, i: nat, smallestSnapshot: SequenceNumber)
    requires i < |input|
  {
    && 0 < i && input[i - 1].key.user == input[i].key.user
    && input[i - 1].key.sequence <= smallestSnapshot
  }

  /** Entry `i` is a deletion with nothing left to delete in deeper levels. */
  ghost predicate Obsolete(input: seq<Entry>, i: nat, smallestSnapshot: SequenceNumber, level: nat, levels: seq<seq<File>>)
    requires i < |input|
  {
    && input[i].key.kind.Deletion?
    && input[i].key.sequence <= smallestSnapshot
    && NoneCovers(levels, level + 2, input[i].key.user)
  }

  ghost predicate Dropped(input: seq<Entry>, i: nat, smallestSnapshot: SequenceNumber, level: nat, levels: seq<seq<File>>)
    requires i < |input|
  {
    Hidden(input, i, smallestSnapshot) || Obsolete(input, i, smallestSnapshot, level, levels)
  }

  /** What survives of the first `n` entries. */
  ghost function Kept(input: seq<Entry>, n: nat, smallestSnapshot: SequenceNumber, level: nat, levels: seq<seq<File>>): seq<Entry>
    requires n <= |input|
  {
    if n == 0 then []
    else
      Kept(input, n - 1, smallestSnapshot, level, levels)
      + if Dropped(input, n - 1, smallestSnapshot, level, levels) then [] else [input[n - 1]]
  }

  function Concat(chunks: seq<seq<Entry>>): seq<Entry> {
    if chunks == [] then [] else Concat(chunks[..|chunks| - 1]) + chunks[|chunks| - 1]
  }

  lemma ConcatAppend(chunks: seq<seq<Entry>>, chunk: seq<Entry>)
    ensures Concat(chunks + [chunk]) == Concat(chunks) + chunk
  {
    assert (chunks + [chunk])[..|chunks|] == chunks;
  }

  lemma KeptStep(input: seq<Entry>, i: nat, smallestSnapshot: SequenceNumber, level: nat, levels: seq<seq<File>>)
    requires i < |input|
    ensures Kept(input, i + 1, smallestSnapshot, level, levels)
         == Kept(input, i, smallestSnapshot, level, levels)
            + if Dropped(input, i, smallestSnapshot, level, levels) then [] else [input[i]]
  {
  }

  lemma NothingKept(input: seq<Entry>, smallestSnapshot: SequenceNumber, level: nat, levels: seq<seq<File>>)
    ensures Concat([]) == Kept(input, 0, smallestSnapshot, level, levels) == []
  {
  }

  lemma Adjacent(input: seq<Entry>, i: nat)
    requires Ascending(input) && 0 < i < |input|
    ensures input[i - 1].key.user <= input[i].key.user
  {
    assert Less(input[i - 1].key, input[i].key);
  }

  lemma {:induction false} KeptIs(input: seq<Entry>, n: nat, smallestSnapshot: SequenceNumber, level: nat, levels: seq<seq<File>>, e: Entry)
    requires n <= |input|
    ensures e in Kept(input, n, smallestSnapshot, level, levels) <==>
      exists i | 0 <= i < n :: input[i] == e && !Dropped(input, i, smallestSnapshot, level, levels)
  {
    hide Dropped;
    if n > 0 {
      KeptIs(input, n - 1, smallestSnapshot, level, levels, e);
    }
  }

  lemma {:induction false} KeptInOrder(input: seq<Entry>, n: nat, smallestSnapshot: SequenceNumber, level: nat, levels: seq<seq<File>>)
    requires n <= |input| && Ascending(input)
    ensures Ascending(Kept(input, n, smallestSnapshot, level, levels))
  {
    hide Dropped;
    if n > 0 {
      KeptInOrder(input, n - 1, smallestSnapshot, level, levels);
      var kept := Kept(input, n - 1, smallestSnapshot, level, levels);
      forall j | 0 <= j < |kept| ensures Less(kept[j].key, input[n - 1].key) {
        KeptIs(input, n - 1, smallestSnapshot, level, levels, kept[j]);
      }
    }
  }

  /** `x` comes before `e` among the versions of one user key: its number is
      larger, or the same and it is the value. */
  predicate Precedes(x: Entry, e: Entry) {
    && x.key.user == e.key.user
    && (x.key.sequence > e.key.sequence || (x.key.sequence == e.key.sequence && x.key.kind == Value && e.key.kind == Deletion))
  }

  lemma HiddenExactly(input: seq<Entry>, i: nat, smallestSnapshot: SequenceNumber)
    requires Ascending(input) && i < |input|
    ensures Hidden(input, i, smallestSnapshot) <==>
      exists x <- input :: x.key.sequence <= smallestSnapshot && Precedes(x, input[i])
  {
    var e := input[i];
    if Hidden(input, i, smallestSnapshot) {
      assert Less(input[i - 1].key, e.key) && input[i - 1] in input;
    }
    if x :| x in input && x.key.sequence <= smallestSnapshot && Precedes(x, e) {
      var j :| 0 <= j < |input| && input[j] == x;
      assert i < j ==> Less(e.key, x.key);
      assert j < i - 1 ==> Less(x.key, input[i - 1].key);
      assert Less(input[i - 1].key, e.key);
    }
  }

  lemma ObsoleteExactly(input: seq<Entry>, i: nat, smallestSnapshot: SequenceNumber, level: nat, levels: seq<seq<File>>)
    requires i < |input|
    ensures Obsolete(input, i, smallestSnapshot, level, levels) <==>
      && input[i].key.kind == Deletion && input[i].key.sequence <= smallestSnapshot
      && forall l, f: File | level + 2 <= l < |levels| && f in levels[l] ::
           !(f.smallest.user <= input[i].key.user <= f.largest.user)
  {
    var user := input[i].key.user;
    if forall l, f: File | level + 2 <= l < |levels| && f in levels[l] :: !(f.smallest.user <= user <= f.largest.user) {
      forall l, k | level + 2 <= l < |levels| && 0 <= l && 0 <= k < |levels[l]|
        ensures !Overlaps(Some(user), Some(user), levels[l][k])
      {
        assert levels[l][k] in levels[l];
      }
    }
  }

  /** What a merge keeps, in terms of the entries alone. */
  lemma KeptExactly(input: seq<Entry>, smallestSnapshot: SequenceNumber, level: nat, levels: seq<seq<File>>, e: Entry)
    requires Ascending(input)
    ensures e in Kept(input, |input|, smallestSnapshot, level, levels) <==>
      && e in input
      && (forall x <- input | x.key.sequence <= smallestSnapshot :: !Precedes(x, e))
      && !(e.key.kind == Deletion && e.key.sequence <= smallestSnapshot
           && forall l, f: File | level + 2 <= l < |levels| && f in levels[l] ::
                !(f.smallest.user <= e.key.user <= f.largest.user))
  {
    hide Ascending, Hidden, Obsolete, Precedes;
    KeptIs(input, |input|, smallestSnapshot, level, levels, e);
    forall i | 0 <= i < |input| && input[i] == e
      ensures Dropped(input, i, smallestSnapshot, level, levels) <==>
        || (exists x <- input :: x.key.sequence <= smallestSnapshot && Precedes(x, e))
        || (e.key.kind == Deletion && e.key.sequence <= smallestSnapshot
            && forall l, f: File | level + 2 <= l < |levels| && f in levels[l] ::
                 !(f.smallest.user <= e.key.user <= f.largest.user))
    {
      HiddenExactly(input, i, smallestSnapshot);
      ObsoleteExactly(input, i, smallestSnapshot, level, levels);
    }
  }

  /** The loop over the merged input. `stopBefore` and `full` stand for the
      decisions to close an output file, which depend on sizes only. */
  method DoCompactionWork(input: seq<Entry>, smallestSnapshot: SequenceNumber, level: nat, levels: seq<seq<File>>,
                          stopBefore: nat -> bool, full: nat -> bool) returns (outputs: seq<seq<Entry>>)
    requires Ascending(input) && smallestSnapshot < MAX_SEQUENCE
    requires forall l | level + 2 <= l < |levels| :: SortedDisjoint(levels[l])
    ensures Concat(outputs) == Kept(input, |input|, smallestSnapshot, level, levels)
    ensures Ascending(Concat(outputs)) && forall o <- outputs :: o != []
    ensures forall e :: e in Concat(outputs) <==>
      && e in input
      && !(exists x <- input ::
             && x.key.user == e.key.user && x.key.sequence <= smallestSnapshot
             && (x.key.sequence > e.key.sequence || (x.key.sequence == e.key.sequence && x.key.kind == Value && e.key.kind == Deletion)))
      && !(e.key.kind == Deletion && e.key.sequence <= smallestSnapshot
           && forall l, f: File | level + 2 <= l < |levels| && f in levels[l] ::
                !(f.smallest.user <= e.key.user <= f.largest.user))
  {
    hide Ascending, Concat, Kept, NoneCovers, BaseLevelScan.Valid;
    var scan := new BaseLevelScan(level, levels);
    assert Concat([]) + [] == Kept(input, 0, smallestSnapshot, level, levels) by {
      NothingKept(input, smallestSnapshot, level, levels);
    }
    outputs := [];
    var builder := [];  // the open output file, if not empty
    var currentUserKey: Option<UserKey> := None;
    var lastSequenceForKey := MAX_SEQUENCE;
    ghost var lastAsked: Option<UserKey> := None;
    for i := 0 to |input|
      invariant scan.level == level && scan.levels == levels && scan.Valid(lastAsked)
      invariant lastAsked.Some? ==> currentUserKey.Some? && lastAsked.value <= currentUserKey.value
      invariant currentUserKey == if i == 0 then None else Some(input[i - 1].key.user)
      invariant 0 < i ==> lastSequenceForKey == input[i - 1].key.sequence
      invariant Concat(outputs) + builder == Kept(input, i, smallestSnapshot, level, levels)
      invariant forall o <- outputs :: o != []
    {
      var ikey := input[i].key;
      if stopBefore(i) && builder != [] {
        ConcatAppend(outputs, builder);
        outputs, builder := outputs + [builder], [];
      }
      if 0 < i {
        Adjacent(input, i);
      }
      KeptStep(input, i, smallestSnapshot, level, levels);
      var drop := false;
      if currentUserKey.None? || currentUserKey.value != ikey.user {
        currentUserKey := Some(ikey.user);
        lastSequenceForKey := MAX_SEQUENCE;
      }
      if lastSequenceForKey <= smallestSnapshot {
        drop := true;
      } else if ikey.kind.Deletion? && ikey.sequence <= smallestSnapshot {
        var base := scan.IsBaseLevelForKey(ikey.user, lastAsked);
        lastAsked := Some(ikey.user);
        drop := base;
      }
      lastSequenceForKey := ikey.sequence;
      if !drop {
        builder := builder + [input[i]];
        if full(i) {
          ConcatAppend(outputs, builder);
          outputs, builder := outputs + [builder], [];
        }
      }
    }
    if builder != [] {
      ConcatAppend(outputs, builder);
      outputs := outputs + [builder];
    }
    KeptInOrder(input, |input|, smallestSnapshot, level, levels);
    forall e ensures e in Concat(outputs) <==>
      && e in input
      && (forall x <- input | x.key.sequence <= smallestSnapshot :: !Precedes(x, e))
      && !(e.key.kind == Deletion && e.key.sequence <= smallestSnapshot
           && forall l, f: File | level + 2 <= l < |levels| && f in levels[l] ::
                !(f.smallest.user <= e.key.user <= f.largest.user))
    {
      KeptExactly(input, smallestSnapshot, level, levels, e);
    }
  }
}
