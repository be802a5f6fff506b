/** Keys and entries (db/dbformat.h, util/comparator.cc).

    The engine looks at user keys only through a comparator, so a user key is
    modelled by its place in the comparator's order: a real number.
    `CompareIsRankOrder` shows that this loses nothing for the bytewise
    comparator, whose order embeds in the reals. */
module Keys {
  type byte = x: int | 0 <= x < 256
  type Bytes = seq<byte>

  datatype Option<+T> = None | Some(value: T)

  // ----- The bytewise comparator on byte strings -----

  /** Three-way comparison of two byte strings: -1, 0 or 1. */
  function Compare(a: Bytes, b: Bytes): int {
    if a == [] && b == [] then 0
    else if a == [] then -1
    else if b == [] then 1
    else if a[0] < b[0] then -1
    else if b[0] < a[0] then 1
    else Compare(a[1..], b[1..])
  }

  /** The number whose base-257 expansion has the digits b+1 for the bytes b. */
  function Rank(s: Bytes): (r: real)
    ensures 0.0 <= r < 1.0
  {
    if s == [] then 0.0 else ((s[0] as int + 1) as real + Rank(s[1..])) / 257.0
  }

  lemma {:induction false} CompareIsRankOrder(a: Bytes, b: Bytes)
    ensures Compare(a, b) < 0 <==> Rank(a) < Rank(b)
    ensures Compare(a, b) == 0 <==> Rank(a) == Rank(b)
    ensures Compare(a, b) == 0 <==> a == b
  {
    if a != [] && b != [] && a[0] == b[0] {
      CompareIsRankOrder(a[1..], b[1..]);
      assert a == [a[0]] + a[1..] && b == [b[0]] + b[1..];
    }
  }

  // ----- Internal keys -----

  /** The place of a user key in the comparator's order. */
  type UserKey = real

  const MAX_SEQUENCE: int := 0xFF_FFFF_FFFF_FFFF

  type SequenceNumber = s: int | 0 <= s <= MAX_SEQUENCE

  datatype ValueType = Deletion | Value

  datatype InternalKey = InternalKey(user: UserKey, sequence: SequenceNumber, kind: ValueType)

  /** Internal keys are ordered by increasing user key, then by decreasing
      sequence number, then by decreasing type. */
  predicate Less(a: InternalKey, b: InternalKey) {
    || a.user < b.user
    || (a.user == b.user && a.sequence > b.sequence)
    || (a.user == b.user && a.sequence == b.sequence && a.kind.Value? && b.kind.Deletion?)
  }

  predicate AtMost(a: InternalKey, b: InternalKey) {
    !Less(b, a)
  }

  /** The key that sorts before every entry of `user` visible at `s` and after
      every entry of `user` that is newer than `s`. */
  function LookupKey(user: UserKey, s: SequenceNumber): InternalKey {
    InternalKey(user, s, Value)
  }

  datatype Entry = Entry(key: InternalKey, value: Bytes)

  /** Strictly increasing in the internal-key order. */
  ghost predicate Ascending(es: seq<Entry>) {
    forall i, j | 0 <= i < j < |es| :: Less(es[i].key, es[j].key)
  }

  ghost function Elements(es: seq<Entry>): set<Entry> {
    set e | e in es
  }
}
