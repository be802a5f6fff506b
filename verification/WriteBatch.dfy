/** Write batches as byte strings (db/write_batch.cc): a sequence number, a
    count, and the operations. */
module WriteBatches {
  import opened Keys
  import opened Coding

  const HEADER: nat := 12

  datatype Op = Put(key: Bytes, value: Bytes) | Delete(key: Bytes)

  predicate Fits(op: Op) {
    |op.key| < TWO32 && (op.Put? ==> |op.value| < TWO32)
  }

  function OpBytes(op: Op): (r: Bytes)
    ensures r != []
  {
    match op
    case Put(key, value) => [1] + LengthPrefixed(key) + LengthPrefixed(value)
    case Delete(key) => [0] + LengthPrefixed(key)
  }

  function OpsBytes(ops: seq<Op>): Bytes {
    if ops == [] then [] else OpBytes(ops[0]) + OpsBytes(ops[1..])
  }

  function BatchBytes(sequence: nat, ops: seq<Op>): Bytes {
    Fixed(sequence, 8) + Fixed(|ops|, 4) + OpsBytes(ops)
  }

  // ----- Reading -----

  /** The first operation of the input and what follows it. */
  function ParseOp(input: Bytes): (r: Option<Parsed<Op>>)
    ensures r.Some? ==> |r.value.rest| < |input|
  {
    if input == [] then None
    else if input[0] == 1 then
      var key := GetLengthPrefixedSlice(input[1..]);
      if key.None? then None else
      var value := GetLengthPrefixedSlice(key.value.rest);
      if value.None? then None else Some(Parsed(Put(key.value.value, value.value.value), value.value.rest))
    else if input[0] == 0 then
      var key := GetLengthPrefixedSlice(input[1..]);
      if key.None? then None else Some(Parsed(Delete(key.value.value), key.value.rest))
    else None
  }

  /** The operations that can be read, and whether they are the whole input. */
  datatype Batch = Batch(ops: seq<Op>, complete: bool)

  function ParseOps(input: Bytes): Batch
    decreases |input|
  {
    if input == [] then Batch([], true)
    else
      var op := ParseOp(input);
      if op.None? then Batch([], false)
      else
        var rest := ParseOps(op.value.rest);
        Batch([op.value.value] + rest.ops, rest.complete)
  }

  lemma ParsesOp(op: Op, rest: Bytes)
    requires Fits(op)
    ensures ParseOp(OpBytes(op) + rest) == Some(Parsed(op, rest))
  {
    hide LengthPrefixed, GetLengthPrefixedSlice;
    var input := OpBytes(op) + rest;
    match op
    case Put(key, value) =>
      assert input[1..] == LengthPrefixed(key) + (LengthPrefixed(value) + rest);
      GetsLengthPrefixed(key, LengthPrefixed(value) + rest);
      GetsLengthPrefixed(value, rest);
    case Delete(key) =>
      assert input[1..] == LengthPrefixed(key) + rest;
      GetsLengthPrefixed(key, rest);
  }

  lemma {:induction false} ParsesOps(ops: seq<Op>)
    requires forall op <- ops :: Fits(op)
    ensures ParseOps(OpsBytes(ops)) == Batch(ops, true)
  {
    hide OpBytes, ParseOp;
    if ops != [] {
      ParsesOp(ops[0], OpsBytes(ops[1..]));
      ParsesOps(ops[1..]);
      assert ops == [ops[0]] + ops[1..];
    }
  }

  lemma {:induction false} OpsConcat(a: seq<Op>, b: seq<Op>)
    ensures OpsBytes(a + b) == OpsBytes(a) + OpsBytes(b)
  {
    hide OpBytes;
    if a == [] {
      assert a + b == b;
    } else {
      OpsConcat(a[1..], b);
      assert (a + b)[1..] == a[1..] + b;
      Associative(OpBytes(a[0]), OpsBytes(a[1..]), OpsBytes(b));
    }
  }

  /** A numbered operation, as it is added to the memtable. */
  datatype Numbered = Numbered(sequence: nat, op: Op)

  function Number(ops: seq<Op>, first: nat): (r: seq<Numbered>)
    ensures |r| == |ops| && forall i | 0 <= i < |ops| :: r[i] == Numbered(first + i, ops[i])
  {
    seq(|ops|, i requires 0 <= i < |ops| => Numbered(first + i, ops[i]))
  }

  class WriteBatch {
    var rep: Bytes
    ghost var sequence: nat
    ghost var ops: seq<Op>

    ghost predicate Valid()
      reads this
    {
      rep == BatchBytes(sequence, ops) && sequence < TWO64 && |ops| < TWO32 && forall op <- ops :: Fits(op)
    }

    constructor ()
      ensures Valid() && ops == [] && sequence == 0
    {
      rep := seq(HEADER, _ => 0);
      sequence, ops := 0, [];
      new;
      ZeroHeader();
    }

    method Clear()
      modifies this
      ensures Valid() && ops == [] && sequence == 0
    {
      rep := seq(HEADER, _ => 0);
      sequence, ops := 0, [];
      ZeroHeader();
    }

    lemma HeaderParts()
      requires Valid()
      ensures |rep| >= HEADER && rep[..8] == Fixed(sequence, 8) && rep[8..12] == Fixed(|ops|, 4) && rep[12..] == OpsBytes(ops)
      ensures Unfixed(rep[..8]) == sequence && Unfixed(rep[8..12]) == |ops|
    {
      hide Fixed, OpsBytes, Unfixed, Power;
      Powers();
      FixedRoundTrip(sequence, 8);
      FixedRoundTrip(|ops|, 4);
    }

    method Count() returns (n: nat)
      requires Valid()
      ensures n == |ops|
    {
      HeaderParts();
      n := Unfixed(rep[8..12]);
    }

    method Sequence() returns (s: nat)
      requires Valid()
      ensures s == sequence
    {
      HeaderParts();
      s := Unfixed(rep[..8]);
    }

    method SetSequence(s: nat)
      requires Valid() && s < TWO64
      modifies this
      ensures Valid() && sequence == s && ops == old(ops)
    {
      hide Fixed, Unfixed, OpsBytes;
      HeaderParts();
      assert rep[8..] == rep[8..12] + rep[12..];
      rep := Fixed(s, 8) + rep[8..];
      sequence := s;
      assert rep == Fixed(s, 8) + Fixed(|ops|, 4) + OpsBytes(ops);
    }

    /** Appends encoded operations and corrects the count. */
    method AddEncoded(bytes: Bytes, n: nat, ghost more: seq<Op>)
      requires Valid() && bytes == OpsBytes(more) && n == |more| && |ops| + n < TWO32 && forall op <- more :: Fits(op)
      modifies this
      ensures Valid() && sequence == old(sequence) && ops == old(ops) + more
    {
      hide Fixed, Unfixed, OpsBytes;
      HeaderParts();
      OpsConcat(ops, more);
      var count := Count();
      rep := rep[..8] + Fixed(count + n, 4) + rep[12..];
      rep := rep + bytes;
      ops := ops + more;
    }

    method Put(key: Bytes, value: Bytes)
      requires Valid() && |ops| + 1 < TWO32 && |key| < TWO32 && |value| < TWO32
      modifies this
      ensures Valid() && sequence == old(sequence) && ops == old(ops) + [Op.Put(key, value)]
    {
      OneOp(Op.Put(key, value));
      AddEncoded([1] + LengthPrefixed(key) + LengthPrefixed(value), 1, [Op.Put(key, value)]);
    }

    method Delete(key: Bytes)
      requires Valid() && |ops| + 1 < TWO32 && |key| < TWO32
      modifies this
      ensures Valid() && sequence == old(sequence) && ops == old(ops) + [Op.Delete(key)]
    {
      OneOp(Op.Delete(key));
      AddEncoded([0] + LengthPrefixed(key), 1, [Op.Delete(key)]);
    }

    method Append(source: WriteBatch)
      requires Valid() && source.Valid() && source != this && |ops| + |source.ops| < TWO32
      modifies this
      ensures Valid() && sequence == old(sequence) && ops == old(ops) + source.ops
    {
      source.HeaderParts();
      var n := source.Count();
      AddEncoded(source.rep[HEADER..], n, source.ops);
    }

    /** Applies the operations in order, numbered from the batch's number on, as
        far as they can be read. */
    method InsertInto(mem: seq<Numbered>) returns (ok: bool, r: seq<Numbered>)
      ensures |rep| < HEADER ==> !ok && r == mem
      ensures HEADER <= |rep| ==>
        var batch := ParseOps(rep[HEADER..]);
        && r == mem + Number(batch.ops, Unfixed(rep[..8]))
        && (ok <==> batch.complete && |batch.ops| == Unfixed(rep[8..12]))
    {
      hide ParseOp;
      if |rep| < HEADER {
        return false, mem;
      }
      var input := rep[HEADER..];
      var first := Unfixed(rep[..8]);
      var found := 0;
      ghost var all := ParseOps(input);
      r := mem;
      while input != []
        invariant 0 <= found <= |all.ops|
        invariant ParseOps(input) == Batch(all.ops[found..], all.complete)
        invariant r == mem + Number(all.ops[..found], first)
        decreases |input|
      {
        var op := ParseOp(input);
        if op.None? {
          assert all.ops[..found] == all.ops;
          return false, r;
        }
        NumberStep(all.ops, found, first);
        r := r + [Numbered(first + found, op.value.value)];
        found := found + 1;
        input := op.value.rest;
      }
      assert all.ops[..found] == all.ops;
      ok := found == Unfixed(rep[8..12]);
    }
  }

  lemma NumberStep(ops: seq<Op>, n: nat, first: nat)
    requires n < |ops|
    ensures Number(ops[..n + 1], first) == Number(ops[..n], first) + [Numbered(first + n, ops[n])]
  {
  }

  /** A batch is read back as it was built. */
  lemma BatchRoundTrip(sequence: nat, ops: seq<Op>)
    requires sequence < TWO64 && |ops| < TWO32 && forall op <- ops :: Fits(op)
    ensures
      var rep := BatchBytes(sequence, ops);
      && HEADER <= |rep| && ParseOps(rep[HEADER..]) == Batch(ops, true)
      && Unfixed(rep[..8]) == sequence && Unfixed(rep[8..12]) == |ops|
  {
    hide Fixed, OpsBytes, Unfixed, Power, ParseOps;
    var rep := BatchBytes(sequence, ops);
    Powers();
    FixedRoundTrip(sequence, 8);
    FixedRoundTrip(|ops|, 4);
    ParsesOps(ops);
    assert rep[..8] == Fixed(sequence, 8) && rep[8..12] == Fixed(|ops|, 4) && rep[12..] == OpsBytes(ops);
  }

  lemma ZeroHeader()
    ensures BatchBytes(0, []) == seq(HEADER, _ => 0)
  {
    ZeroFixed(8);
    ZeroFixed(4);
  }

  lemma {:induction false} ZeroFixed(n: nat)
    ensures Fixed(0, n) == seq(n, _ => 0)
  {
    if n > 0 {
      ZeroFixed(n - 1);
    }
  }

  lemma OneOp(op: Op)
    ensures OpsBytes([op]) == OpBytes(op)
  {
    assert [op][1..] == [];
    assert OpsBytes([op]) == OpBytes(op) + OpsBytes([]);
  }
}
