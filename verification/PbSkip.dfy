/** Fields that are not in the schema are skipped (nanopb/pb_decode.c). */
module PbSkip {
  import opened Keys
  import opened Coding
  import opened PbWire
  import opened PbMessages
  import opened PbFormat
  import opened PbAgreement
  import opened PbRoundTrip

  // ----- One field -----

  /** The bytes behind a key of the given wire type, as the Protocol Buffers
      encoding defines them: a varint, eight bytes, a length and as many bytes,
      or four bytes. */
  predicate IsPayload(wire: nat, b: Bytes) {
    match wire
    case 0 => b != [] && b[|b| - 1] < 128 && forall i | 0 <= i < |b| - 1 :: b[i] >= 128
    case 1 => |b| == 8
    case 2 => exists n | 0 <= n <= |b| && n < 0x1_0000_0000 :: b == Varint(n) + b[|b| - n..]
    case 5 => |b| == 4
    case _ => false
  }

  lemma {:induction false} SkipsVarint(b: Bytes, rest: Bytes)
    requires IsPayload(0, b)
    ensures SkipVarint(b + rest) == Some(rest)
  {
    if |b| == 1 {
      assert (b + rest)[1..] == rest;
    } else {
      SkipsVarint(b[1..], rest);
      assert (b + rest)[1..] == b[1..] + rest;
    }
  }

  lemma {:induction false} VarintIsPayload(v: nat)
    ensures IsPayload(0, Varint(v))
  {
    if v >= 128 {
      VarintIsPayload(v / 128);
    }
  }

  /** A payload is skipped as a whole. */
  lemma SkipsPayload(wire: nat, b: Bytes, rest: Bytes)
    requires IsPayload(wire, b)
    ensures SkipField(b + rest, wire) == Some(rest)
  {
    hide Varint, Varint32, SkipVarint;
    match wire {
      case 0 => SkipsVarint(b, rest);
      case 2 =>
        var n :| 0 <= n <= |b| && n < 0x1_0000_0000 && b == Varint(n) + b[|b| - n..];
        SubstreamReads(b[|b| - n..], rest);
        assert b == LengthPrefixed(b[|b| - n..]);
      case _ =>
        assert (b + rest)[|b|..] == rest;
    }
  }

  /** Groups and reserved wire types are refused, and so are fields cut short. */
  lemma RefusesSkip(wire: nat, input: Bytes)
    ensures wire == 3 || wire == 4 || wire >= 6 ==> SkipField(input, wire) == None
    ensures SkipField(input, 1) == if |input| < 8 then None else Some(input[8..])
    ensures SkipField(input, 5) == if |input| < 4 then None else Some(input[4..])
    ensures (forall i | 0 <= i < |input| :: input[i] >= 128) ==> SkipField(input, 0) == None
  {
    if forall i | 0 <= i < |input| :: input[i] >= 128 {
      NoEnd(input);
    }
  }

  lemma {:induction false} NoEnd(input: Bytes)
    requires forall i | 0 <= i < |input| :: input[i] >= 128
    ensures SkipVarint(input) == None
  {
    if input != [] {
      NoEnd(input[1..]);
    }
  }

  lemma {:induction false} NoFieldWith(fields: seq<Field>, tag: nat)
    requires forall k | 0 <= k < |fields| :: fields[k].tag != tag
    ensures FieldWith(fields, tag) == |fields|
  {
  }

  /** A field with a tag that the schema does not have changes nothing. */
  lemma UnknownIsSkipped(fields: seq<Field>, p: Progress, tag: nat, wire: nat, payload: Bytes, rest: Bytes)
    requires Fits(fields, p) && forall k | 0 <= k < |fields| :: fields[k].tag != tag
    requires tag <= 0x1FFF_FFFF && IsPayload(wire, payload) && 8 * tag + wire != 0 && (fields != [] || tag != 0)
    ensures FieldsFrom(fields, p, Varint(8 * tag + wire) + payload + rest) == FieldsFrom(fields, p, rest)
  {
    hide Varint, Varint32, FieldFrom, Enter, SkipField, IsPayload, FieldWith;
    assert wire < 8 by { WireIsSmall(wire, payload); }
    var key := 8 * tag + wire;
    ReadsVarint32(key, payload + rest);
    Associative(Varint(key), payload, rest);
    assert key / 8 == tag && key % 8 == wire;
    NoFieldWith(fields, tag);
    SkipsPayload(wire, payload, rest);
  }

  lemma WireIsSmall(wire: nat, payload: Bytes)
    requires IsPayload(wire, payload)
    ensures wire < 8
  {
  }

  // ----- Messages of other schemas -----

  lemma ScalarIsPayload(f: Field, n: int)
    requires Packable(f.kind) && ScalarBytes(f, n).Some?
    ensures IsPayload(WireOf(f.kind), ScalarBytes(f, n).value)
  {
    hide Varint, Fixed, Zigzag;
    match f.kind {
      case Boolean => VarintIsPayload(if n != 0 then 1 else 0);
      case Int | UInt => VarintIsPayload(n % TWO64);
      case SInt => VarintIsPayload(Zigzag(n) % TWO64);
      case _ =>
    }
  }

  lemma PrefixedIsPayload(s: Bytes)
    requires |s| < 0x1_0000_0000
    ensures IsPayload(2, LengthPrefixed(s))
  {
    hide Varint;
    var b := LengthPrefixed(s);
    assert b[|b| - |s|..] == s;
    assert b == Varint(|s|) + b[|b| - |s|..];
  }

  /** What is written behind a key is a payload of its wire type. */
  lemma ValueIsPayload(f: Field, v: Value)
    requires ValidField(f) && ValueOk(f, v) && ValueFits(f, v)
    ensures ValueBytes(f, v).Some? && IsPayload(WireOf(f.kind), ValueBytes(f, v).value)
  {
    hide IsPayload, ScalarBytes, LengthPrefixed, MessageBytes, ScalarOk, MessageOk, MessageFits;
    ValueWritten(f, v);
    match f.kind {
      case ByteArray | FixedLengthBytes => PrefixedIsPayload(v.bytes);
      case Text =>
        TerminatedLength(v.bytes);
        PrefixedIsPayload(Terminated(v.bytes));
      case Submessage(fs) => PrefixedIsPayload(MessageBytes(fs, Nested(fs, v), 0).value);
      case _ => ScalarIsPayload(f, v.n);
    }
  }

  ghost predicate Foreign(fields: seq<Field>, f: Field) {
    forall k | 0 <= k < |fields| :: fields[k].tag != f.tag
  }

  lemma TaggedIsSkipped(fields: seq<Field>, p: Progress, f: Field, wire: nat, b: Bytes, rest: Bytes)
    requires Fits(fields, p) && ValidField(f) && Foreign(fields, f) && IsPayload(wire, b)
    ensures FieldsFrom(fields, p, Tag(f, wire) + b + rest) == FieldsFrom(fields, p, rest)
  {
    hide IsPayload, FieldsFrom, Varint;
    UnknownIsSkipped(fields, p, f.tag, wire, b, rest);
  }

  lemma {:induction false} ItemsAreSkipped(fields: seq<Field>, p: Progress, f: Field, items: seq<Value>, rest: Bytes)
    requires Fits(fields, p) && ValidField(f) && Foreign(fields, f)
    requires forall i | 0 <= i < |items| :: ValueOk(f, items[i]) && ValueFits(f, items[i])
    ensures var b := ItemsBytes(f, items, Tag(f, WireOf(f.kind)));
      b.Some? && FieldsFrom(fields, p, b.value + rest) == FieldsFrom(fields, p, rest)
    decreases |items|
  {
    hide IsPayload, FieldsFrom, Tag, ValueOk, ValueFits, ValueBytes, ValidField, Foreign;
    if items == [] {
      assert [] + rest == rest;
    } else {
      var tag := Tag(f, WireOf(f.kind));
      ItemsAreSkipped(fields, p, f, items[1..], rest);
      ValueIsPayload(f, items[0]);
      var first, others := ValueBytes(f, items[0]).value, ItemsBytes(f, items[1..], tag).value;
      TaggedIsSkipped(fields, p, f, WireOf(f.kind), first, others + rest);
      Associative(tag + first, others, rest);
    }
  }

  lemma FieldIsSkipped(fields: seq<Field>, p: Progress, f: Field, s: Slot, rest: Bytes)
    requires Fits(fields, p) && ValidField(f) && Foreign(fields, f) && SlotOk(f, s) && SlotFits(f, s)
    ensures var b := FieldBytes(f, s);
      b.Some? && FieldsFrom(fields, p, b.value + rest) == FieldsFrom(fields, p, rest)
  {
    hide IsPayload, FieldsFrom, Tag, ValueOk, ValueFits, ValueBytes, ValidField, Foreign, IsZero, ItemsBytes, LengthPrefixed;
    if f.rule.Repeated? && s.items != [] {
      if Packable(f.kind) {
        ItemsWritten(f, s.items, []);
        PrefixedIsPayload(ItemsBytes(f, s.items, []).value);
        TaggedIsSkipped(fields, p, f, STRING, LengthPrefixed(ItemsBytes(f, s.items, []).value), rest);
      } else {
        ItemsAreSkipped(fields, p, f, s.items, rest);
      }
    } else if !f.rule.Repeated? && IsPresent(f, s) {
      ValueIsPayload(f, s.value);
      TaggedIsSkipped(fields, p, f, WireOf(f.kind), ValueBytes(f, s.value).value, rest);
    } else {
      assert [] + rest == rest;
    }
  }

  /** Main result: everything that is written for a message of a schema without
      a tag in common is skipped: a decoder with an older schema reads the
      fields it knows and nothing else. */
  lemma {:induction false} ForeignIsSkipped(fields: seq<Field>, p: Progress, others: seq<Field>, m: Message, k: nat, rest: Bytes)
    requires Fits(fields, p) && ValidSchema(others) && MessageOk(others, m) && MessageFits(others, m) && k <= |others|
    requires forall i | 0 <= i < |others| :: Foreign(fields, others[i])
    ensures var b := MessageBytes(others, m, k);
      b.Some? && FieldsFrom(fields, p, b.value + rest) == FieldsFrom(fields, p, rest)
    decreases |others| - k
  {
    hide SlotAt, FieldsFrom, FieldBytes, ValidField, SlotOk, SlotFits, Foreign;
    if k == |others| {
      assert [] + rest == rest;
    } else {
      ForeignIsSkipped(fields, p, others, m, k + 1, rest);
      var tail := MessageBytes(others, m, k + 1).value;
      FieldIsSkipped(fields, p, others[k], SlotAt(others, m, k), tail + rest);
      Associative(FieldBytes(others[k], SlotAt(others, m, k)).value, tail, rest);
    }
  }

  /** So a message followed, or preceded, by fields of another schema is read as
      if they were not there. */
  lemma ReadsAmongForeign(fields: seq<Field>, d: Message, others: seq<Field>, m: Message, input: Bytes)
    requires |d| == SlotCount(fields) && ValidSchema(others) && MessageOk(others, m) && MessageFits(others, m)
    requires forall i | 0 <= i < |others| :: Foreign(fields, others[i])
    ensures var b := MessageBytes(others, m, 0);
      b.Some? && MessageFrom(fields, d, b.value + input) == MessageFrom(fields, d, input)
  {
    hide FieldsFrom, MessageOk, MessageFits, ValidSchema, Foreign, MessageBytes;
    ForeignIsSkipped(fields, Progress(d, {}, None, 0), others, m, 0, input);
  }
}
