/** Internal keys as byte strings, their order, and short keys that separate
    them (db/dbformat.h, db/dbformat.cc, util/comparator.cc). */
module InternalKeys {
  import opened Keys
  import opened Coding

  // ----- The bytewise order -----

  predicate Before(a: Bytes, b: Bytes) {
    Compare(a, b) < 0
  }

  lemma BeforeIsOrder(a: Bytes, b: Bytes, c: Bytes)
    ensures !(Before(a, b) && Before(b, a))
    ensures Before(a, b) && Before(b, c) ==> Before(a, c)
    ensures a != b ==> Before(a, b) || Before(b, a)
    ensures !Before(a, a)
  {
    CompareIsRankOrder(a, b);
    CompareIsRankOrder(b, a);
    CompareIsRankOrder(b, c);
    CompareIsRankOrder(a, c);
    CompareIsRankOrder(a, a);
  }

  /** Strings are ordered by the first byte in which they differ. */
  lemma {:induction false} FirstDifference(a: Bytes, b: Bytes, n: nat)
    requires n <= |a| && n <= |b| && a[..n] == b[..n]
    ensures n < |a| && n < |b| && a[n] < b[n] ==> Before(a, b)
    ensures n == |a| && n < |b| ==> Before(a, b)
  {
    if n > 0 {
      assert a[0] == a[..n][0] == b[..n][0] == b[0];
      assert a[1..][..n - 1] == a[..n][1..] && b[1..][..n - 1] == b[..n][1..];
      FirstDifference(a[1..], b[1..], n - 1);
    }
  }

  // ----- Separators of the bytewise order -----

  /** `r` is `start`, or a string no longer that lies strictly between. */
  ghost predicate Separates(start: Bytes, limit: Bytes, r: Bytes) {
    r == start || (|r| <= |start| && Before(start, r) && Before(r, limit))
  }

  /** The start up to the first difference, whose byte is raised if there is room. */
  function Shortened(start: Bytes, limit: Bytes): Bytes {
    if start == [] || limit == [] then start
    else if start[0] == limit[0] then [start[0]] + Shortened(start[1..], limit[1..])
    else if start[0] < 0xff && start[0] + 1 < limit[0] then [start[0] + 1]
    else start
  }

  /** `d` is where the strings differ first, or where one of them ends. */
  ghost predicate DifferAt(a: Bytes, b: Bytes, d: nat) {
    d <= |a| && d <= |b| && a[..d] == b[..d] && (d == |a| || d == |b| || a[d] != b[d])
  }

  method FindShortestSeparator(start: Bytes, limit: Bytes) returns (r: Bytes, ghost d: nat)
    ensures r == Shortened(start, limit) && Separates(start, limit, r)
    ensures DifferAt(start, limit, d)
    ensures r == if d < |start| && d < |limit| && start[d] as int + 1 < limit[d] as int then start[..d] + [start[d] + 1] else start
  {
    var minLength := if |start| < |limit| then |start| else |limit|;
    var diffIndex := 0;
    while diffIndex < minLength && start[diffIndex] == limit[diffIndex]
      invariant diffIndex <= minLength && start[..diffIndex] == limit[..diffIndex]
      invariant Shortened(start, limit) == start[..diffIndex] + Shortened(start[diffIndex..], limit[diffIndex..])
    {
      SharedByte(start, limit, diffIndex);
      diffIndex := diffIndex + 1;
    }
    d := diffIndex;
    r := start;
    if diffIndex < minLength {
      var diffByte := start[diffIndex] as int;
      if diffByte < 0xff && diffByte + 1 < limit[diffIndex] as int {
        r := start[diffIndex := diffByte + 1][..diffIndex + 1];
        assert r[..diffIndex] == start[..diffIndex] && r == start[..diffIndex] + [diffByte + 1];
        FirstDifference(start, r, diffIndex);
        FirstDifference(r, limit, diffIndex);
      }
    }
    assert start == start[..diffIndex] + start[diffIndex..];
  }

  lemma SharedByte(start: Bytes, limit: Bytes, d: nat)
    requires d < |start| && d < |limit| && start[d] == limit[d]
    ensures start[..d] + Shortened(start[d..], limit[d..]) == start[..d + 1] + Shortened(start[d + 1..], limit[d + 1..])
  {
    assert start[d..][1..] == start[d + 1..] && limit[d..][1..] == limit[d + 1..];
    assert start[..d + 1] == start[..d] + [start[d]];
  }

  /** `r` is `key`, or a larger string no longer. */
  ghost predicate Succeeds(key: Bytes, r: Bytes) {
    r == key || (|r| <= |key| && Before(key, r))
  }

  /** The key up to the first byte that can be raised, raised. */
  function Raised(key: Bytes): Bytes {
    if key == [] then [] else if key[0] != 0xff then [key[0] + 1] else [key[0]] + Raised(key[1..])
  }

  method FindShortSuccessor(key: Bytes) returns (r: Bytes, ghost d: nat)
    ensures r == Raised(key) && Succeeds(key, r)
    ensures r == key <==> forall i | 0 <= i < |key| :: key[i] == 0xff
    ensures d <= |key| && (forall i | 0 <= i < d :: key[i] == 255) && (d < |key| ==> key[d] < 255)
    ensures r == if d < |key| then key[..d] + [key[d] + 1] else key
  {
    for i := 0 to |key|
      invariant forall j | 0 <= j < i :: key[j] == 0xff
      invariant Raised(key) == key[..i] + Raised(key[i..])
    {
      var b := key[i] as int;
      if b != 0xff {
        d := i;
        r := key[i := b + 1][..i + 1];
        assert r[..i] == key[..i] && r == key[..i] + [b + 1];
        FirstDifference(key, r, i);
        BeforeIsOrder(key, key, key);
        return;
      }
      assert key[i..][1..] == key[i + 1..] && key[..i + 1] == key[..i] + [key[i]];
    }
    assert key[..|key|] + [] == key;
    return key, |key|;
  }

  // ----- Internal keys -----

  function TypeCode(kind: ValueType): nat {
    if kind.Deletion? then 0 else 1
  }

  function PackSequenceAndType(sequence: SequenceNumber, kind: ValueType): (r: nat)
    ensures r < TWO64
  {
    sequence * 256 + TypeCode(kind)
  }

  datatype ParsedInternalKey = ParsedInternalKey(user: Bytes, sequence: SequenceNumber, kind: ValueType)

  function Encode(key: ParsedInternalKey): Bytes {
    key.user + Fixed(PackSequenceAndType(key.sequence, key.kind), 8)
  }

  function User(ikey: Bytes): Bytes {
    if |ikey| < 8 then ikey else ikey[..|ikey| - 8]
  }

  function Tag(ikey: Bytes): nat {
    if |ikey| < 8 then 0 else Unfixed(ikey[|ikey| - 8..])
  }

  function ParseInternalKey(ikey: Bytes): Option<ParsedInternalKey> {
    if |ikey| < 8 then None
    else
      var num := Tag(ikey);
      var c := num % 256;
      UnfixedBound(ikey[|ikey| - 8..]);
      Powers();
      if c > 1 then None
      else Some(ParsedInternalKey(User(ikey), num / 256, if c == 1 then Value else Deletion))
  }

  lemma TagOfEncoded(key: ParsedInternalKey)
    ensures User(Encode(key)) == key.user && Tag(Encode(key)) == PackSequenceAndType(key.sequence, key.kind)
  {
    var tag := PackSequenceAndType(key.sequence, key.kind);
    assert Encode(key)[|key.user|..] == Fixed(tag, 8) && Encode(key)[..|key.user|] == key.user;
    Powers();
    FixedRoundTrip(tag, 8);
  }

  lemma ParsesEncoded(key: ParsedInternalKey)
    ensures ParseInternalKey(Encode(key)) == Some(key)
  {
    TagOfEncoded(key);
  }

  /** Nothing else is parsed, and strings are refused that are too short for a
      tag or whose type is neither 0 nor 1. */
  lemma ParsesExactly(ikey: Bytes, key: ParsedInternalKey)
    ensures ParseInternalKey(ikey) == Some(key) <==> ikey == Encode(key)
    ensures ParseInternalKey(ikey) == None <==> |ikey| < 8 || ikey[|ikey| - 8] > 1
  {
    ParsesEncoded(key);
    if |ikey| >= 8 {
      var tail := ikey[|ikey| - 8..];
      UnfixedRoundTrip(tail);
      LastDigit(tail[0], Unfixed(tail[1..]));
      assert ikey == ikey[..|ikey| - 8] + tail;
      TagSplits(Tag(ikey));
    }
  }

  lemma TagSplits(num: nat)
    ensures num == num / 256 * 256 + num % 256
  {
  }

  /** Increasing user keys, then decreasing tags. */
  function InternalCompare(a: Bytes, b: Bytes): int {
    var r := Compare(User(a), User(b));
    if r != 0 then r else if Tag(a) > Tag(b) then -1 else if Tag(a) < Tag(b) then 1 else 0
  }

  predicate InternalBefore(a: Bytes, b: Bytes) {
    InternalCompare(a, b) < 0
  }

  /** The key by which the engine's model orders entries. */
  function Placed(key: ParsedInternalKey): InternalKey {
    InternalKey(Rank(key.user), key.sequence, key.kind)
  }

  /** Comparing encoded keys agrees with the order of internal keys. */
  lemma EncodedOrder(a: ParsedInternalKey, b: ParsedInternalKey)
    ensures InternalBefore(Encode(a), Encode(b)) <==> Less(Placed(a), Placed(b))
    ensures Placed(a) == Placed(b) ==> a == b
  {
    TagOfEncoded(a);
    TagOfEncoded(b);
    CompareIsRankOrder(a.user, b.user);
  }

  lemma InternalBeforeIsOrder(a: Bytes, b: Bytes, c: Bytes)
    ensures !(InternalBefore(a, b) && InternalBefore(b, a))
    ensures InternalBefore(a, b) && InternalBefore(b, c) ==> InternalBefore(a, c)
  {
    CompareIsRankOrder(User(a), User(b));
    CompareIsRankOrder(User(b), User(a));
    CompareIsRankOrder(User(b), User(c));
    CompareIsRankOrder(User(a), User(c));
  }

  // ----- Separators of internal keys -----

  /** The tag that sorts before all others of a user key. */
  function EarliestTag(): Bytes {
    Fixed(PackSequenceAndType(MAX_SEQUENCE, Value), 8)
  }

  /** The key `start` itself, or one whose user key lies strictly between. */
  ghost predicate SeparatesInternal(start: Bytes, limit: Bytes, r: Bytes) {
    r == start || (|r| < |start| && Before(User(start), User(r)) && Before(User(r), User(limit)))
  }

  lemma UserOfTagged(user: Bytes, tag: Bytes)
    requires |tag| == 8
    ensures User(user + tag) == user
  {
    assert (user + tag)[..|user|] == user;
  }

  lemma EarliestTagIs()
    ensures EarliestTag() == [1, 255, 255, 255, 255, 255, 255, 255]
  {
    hide Fixed;
    var v := MAX_SEQUENCE * 256 + 1;
    FixedIs(v);
    FixedIs(v / 4294967296);
  }

  /** The bytes of an internal key: the user key, 1 for a value or 0 for a
      deletion, and the number in seven bytes, least significant first. */
  lemma EncodedIs(key: ParsedInternalKey)
    ensures Encode(key) == key.user + ([if key.kind == Value then 1 else 0]
      + [key.sequence % 256, key.sequence / 256 % 256, key.sequence / 65536 % 256, key.sequence / 16777216 % 256,
         key.sequence / 4294967296 % 256, key.sequence / 1099511627776 % 256, key.sequence / 281474976710656 % 256])
  {
    hide Fixed;
    var v, s := PackSequenceAndType(key.sequence, key.kind), key.sequence;
    FixedIs(v);
    FixedIs(v / 4294967296);
    TagDigits(s, v);
  }

  lemma TagDigits(s: SequenceNumber, v: nat)
    requires v == 256 * s || v == 256 * s + 1
    ensures v % 256 == v - 256 * s && v / 256 == s
    ensures v / 65536 == s / 256 && v / 16777216 == s / 65536 && v / 4294967296 == s / 16777216
    ensures v / 4294967296 / 256 == s / 4294967296 && v / 4294967296 / 65536 == s / 1099511627776
    ensures v / 4294967296 / 16777216 == s / 281474976710656
  {
  }

  method FindShortestInternalSeparator(start: Bytes, limit: Bytes) returns (r: Bytes, ghost d: nat)
    requires 8 <= |start| && 8 <= |limit|
    ensures DifferAt(start[..|start| - 8], limit[..|limit| - 8], d)
    ensures
      r == if d + 1 < |start| - 8 && d < |limit| - 8 && start[d] as int + 1 < limit[d] as int
           then start[..d] + [start[d] + 1] + [1, 255, 255, 255, 255, 255, 255, 255] else start
    ensures SeparatesInternal(start, limit, r)
    ensures var u := Shortened(User(start), User(limit));
      r == if |u| < |User(start)| && Before(User(start), u) then u + EarliestTag() else start
  {
    var userStart, userLimit := User(start), User(limit);
    var tmp;
    tmp, d := FindShortestSeparator(userStart, userLimit);
    EarliestTagIs();
    assert d <= |userStart| ==> start[..d] == userStart[..d];
    r := start;
    if |tmp| < |userStart| && Before(userStart, tmp) {
      UserOfTagged(tmp, EarliestTag());
      r := tmp + EarliestTag();
    }
  }

  method FindShortInternalSuccessor(key: Bytes) returns (r: Bytes, ghost d: nat)
    requires 8 <= |key|
    ensures d <= |key| - 8 && (forall i | 0 <= i < d :: key[i] == 255) && (d < |key| - 8 ==> key[d] < 255)
    ensures r == if d + 1 < |key| - 8 then key[..d] + [key[d] + 1] + [1, 255, 255, 255, 255, 255, 255, 255] else key
    ensures r == key || (|r| < |key| && Before(User(key), User(r)))
    ensures var u := Raised(User(key)); r == if |u| < |User(key)| && Before(User(key), u) then u + EarliestTag() else key
  {
    var userKey := User(key);
    var tmp;
    tmp, d := FindShortSuccessor(userKey);
    EarliestTagIs();
    assert key[..d] == userKey[..d];
    r := key;
    if |tmp| < |userKey| && Before(userKey, tmp) {
      UserOfTagged(tmp, EarliestTag());
      r := tmp + EarliestTag();
    }
  }

  /** A separator is not before the last key of its block and before the next
      one; a key up to it that comes after the last key has another user key
      than the next one. */
  lemma SeparatorFacts(start: Bytes, limit: Bytes, r: Bytes, k: Bytes)
    requires InternalBefore(start, limit) && SeparatesInternal(start, limit, r)
    ensures !InternalBefore(r, start) && InternalBefore(r, limit)
    ensures InternalBefore(start, k) && !InternalBefore(r, k) ==> User(k) != User(limit)
  {
    CompareIsRankOrder(User(start), User(r));
    CompareIsRankOrder(User(r), User(start));
    CompareIsRankOrder(User(r), User(limit));
    CompareIsRankOrder(User(r), User(k));
    CompareIsRankOrder(User(start), User(k));
    CompareIsRankOrder(User(start), User(limit));
  }
}
