/** What the decoder refuses, and which encodings mean the same
    (nanopb/pb_decode.c; Protocol Buffers Encoding, "Packed Repeated Fields",
    "Optional and Repeated Elements"). */
module PbLaws {
  import opened Keys
  import opened Coding
  import opened PbWire
  import opened PbMessages
  import opened PbFormat
  import opened PbAgreement
  import opened PbRoundTrip
  import opened PbBytes

  // ----- The end of a message -----

  /** A zero where a key is expected ends the message. */
  lemma ZeroEnds(fields: seq<Field>, p: Progress, rest: Bytes)
    requires Fits(fields, p)
    ensures FieldsFrom(fields, p, [0] + rest) == Some(Parsed(p, rest))
    ensures FieldsFrom(fields, p, []) == Some(Parsed(p, []))
  {
    hide Varint32;
    assert Varint(0) == [0];
    ReadsVarint32(0, rest);
  }

  // ----- Parts of the input -----

  predicate IsTail(rest: Bytes, input: Bytes) {
    |rest| <= |input| && input[|input| - |rest|..] == rest
  }

  lemma TailOfTail(a: Bytes, b: Bytes, c: Bytes)
    requires IsTail(a, b) && IsTail(b, c)
    ensures IsTail(a, c)
  {
    assert a == b[|b| - |a|..] == c[|c| - |b|..][|b| - |a|..] == c[|c| - |a|..];
  }

  lemma Dropped(input: Bytes, n: nat)
    requires n <= |input|
    ensures IsTail(input[n..], input)
  {
  }

  lemma {:induction false} Varint32Tail(input: Bytes, i: nat, result: nat)
    ensures var r := Varint32Loop(input, i, result); r.Some? ==> IsTail(r.value.rest, input)
  {
    hide IsTail, Power;
    if input != [] {
      Dropped(input, 1);
      var b := input[0];
      var next := if 5 <= i then result else (result + b % 128 * Power(128, i)) % TWO32;
      if 128 <= b {
        Varint32Tail(input[1..], i + 1, next);
        var r := Varint32Loop(input[1..], i + 1, next);
        if r.Some? {
          TailOfTail(r.value.rest, input[1..], input);
        }
      }
    }
  }

  lemma {:induction false} ParseTail(input: Bytes, n: nat)
    ensures var r := ParseVarint(input, n); r.Some? ==> IsTail(r.value.rest, input)
  {
    hide IsTail;
    if n > 0 && input != [] {
      Dropped(input, 1);
      var r := ParseVarint(input[1..], n - 1);
      ParseTail(input[1..], n - 1);
      if r.Some? {
        TailOfTail(r.value.rest, input[1..], input);
      }
    }
  }

  lemma TakeTail(input: Bytes, n: nat)
    ensures var r := Take(input, n); r.Some? ==> IsTail(r.value.rest, input)
  {
    if n <= |input| {
      Dropped(input, n);
    }
  }

  lemma SubstreamTail(input: Bytes)
    ensures var r := Substream(input); r.Some? ==> IsTail(r.value.rest, input)
  {
    hide IsTail, Varint32Loop;
    Varint32Tail(input, 0, 0);
    var n := Varint32(input);
    if n.Some? {
      TakeTail(n.value.rest, n.value.value);
      var s := Take(n.value.rest, n.value.value);
      if s.Some? {
        TailOfTail(s.value.rest, n.value.rest, input);
      }
    }
  }

  lemma ScalarTail(f: Field, input: Bytes)
    requires Packable(f.kind)
    ensures var r := ScalarFrom(f, input); r.Some? ==> IsTail(r.value.rest, input)
  {
    hide IsTail, Varint32Loop, ParseVarint, Unfixed, Stored;
    Varint32Tail(input, 0, 0);
    ParseTail(input, 10);
    TakeTail(input, 4);
    TakeTail(input, 8);
  }

  lemma ValueTail(f: Field, was: Value, input: Bytes)
    ensures var r := ValueFrom(f, was, input); r.Some? ==> IsTail(r.value.rest, input)
  {
    hide IsTail, Substream, ScalarFrom, MessageFrom, Overwritten, Defaults;
    SubstreamTail(input);
    if Packable(f.kind) {
      ScalarTail(f, input);
    }
  }

  lemma FieldTail(fields: seq<Field>, p: Progress, k: nat, wire: nat, input: Bytes)
    requires Fits(fields, p) && k < |fields|
    ensures var r := FieldFrom(fields, p, k, wire, input); r.Some? ==> IsTail(r.value.rest, input) && r.value.value.seen == p.seen
  {
    hide IsTail, Substream, ValueFrom, PackedFrom, SlotAt, WithSlot, DefaultValue;
    var f, s := fields[k], SlotAt(fields, p.message, k);
    SubstreamTail(input);
    ValueTail(f, s.value, input);
    ValueTail(f, DefaultValue(f, Number(0)), input);
    ValueTail(f, Item(s.items, Count(f, p, s)), input);
  }

  lemma {:induction false} SkipVarintTail(input: Bytes)
    ensures var r := SkipVarint(input); r.Some? ==> IsTail(r.value, input)
  {
    hide IsTail;
    if input != [] {
      Dropped(input, 1);
      if input[0] >= 128 {
        SkipVarintTail(input[1..]);
        var r := SkipVarint(input[1..]);
        if r.Some? {
          TailOfTail(r.value, input[1..], input);
        }
      }
    }
  }

  lemma SkipTail(fields: seq<Field>, tag: nat, wire: nat, input: Bytes)
    ensures var r := SkipUnknown(fields, tag, wire, input); r.Some? ==> IsTail(r.value, input)
  {
    hide IsTail, Substream, SkipVarint, Take, Varint32Loop;
    SkipVarintTail(input);
    SubstreamTail(input);
    TakeTail(input, 4);
    TakeTail(input, 8);
    Varint32Tail(input, 0, 0);
  }

  // ----- Required fields -----

  /** No key with the tag stands anywhere in the bytes. */
  ghost predicate NoKey(input: Bytes, tag: nat) {
    forall rest | IsTail(rest, input) && Varint32(rest).Some? :: Varint32(rest).value.value / 8 != tag
  }

  lemma NoKeyInTail(rest: Bytes, input: Bytes, tag: nat)
    requires IsTail(rest, input) && NoKey(input, tag)
    ensures NoKey(rest, tag)
  {
    hide Varint32, IsTail;
    forall t | IsTail(t, rest) && Varint32(t).Some? ensures Varint32(t).value.value / 8 != tag {
      TailOfTail(t, rest, input);
    }
  }

  lemma WholeIsTail(input: Bytes)
    ensures IsTail(input, input)
  {
  }

  lemma {:induction false} RequiredDiffer(fields: seq<Field>, j: nat, k: nat)
    requires j <= |fields| && k < |fields| && fields[k].rule.Required? && j != k
    requires j < |fields| && fields[j].rule.Required?
    ensures RequiredBefore(fields, j) != RequiredBefore(fields, k)
  {
    RequiredGrows(fields, if j < k then j else k, if j < k then k else j);
  }

  lemma {:induction false} RequiredGrows(fields: seq<Field>, a: nat, b: nat)
    requires a < b <= |fields| && fields[a].rule.Required?
    ensures RequiredBefore(fields, a) < RequiredBefore(fields, b)
    decreases b
  {
    if a < b - 1 {
      RequiredGrows(fields, a, b - 1);
    }
  }

  /** A required field whose key is not in the bytes is not seen. */
  lemma {:induction false} NeverSeen(fields: seq<Field>, p: Progress, input: Bytes, k: nat)
    requires Fits(fields, p) && k < |fields| && fields[k].rule.Required?
    requires NoKey(input, fields[k].tag) && RequiredBefore(fields, k) !in p.seen
    ensures var r := FieldsFrom(fields, p, input); r.Some? ==> RequiredBefore(fields, k) !in r.value.value.seen
    decreases |input|
  {
    hide Varint32, IsTail, NoKey, FieldFrom, SkipUnknown, RequiredBefore, FieldWith;
    if input != [] {
      var t := Varint32(input);
      WholeIsTail(input);
      if t.Some? && t.value.value != 0 {
        assert t.value.value / 8 != fields[k].tag by { KeyIsNot(input, fields[k].tag); }
        Varint32IsTail(input);
        var tag, wire := t.value.value / 8, t.value.value % 8;
        var j := FieldWith(fields, tag);
        if j == |fields| {
          var r := SkipUnknown(fields, tag, wire, t.value.rest);
          if r.Some? {
            SkipTail(fields, tag, wire, t.value.rest);
            TailOfTail(r.value, t.value.rest, input);
            NoKeyInTail(r.value, input, fields[k].tag);
            NeverSeen(fields, p, r.value, k);
          }
        } else {
          var q := Enter(fields, p, j);
          if q.Some? {
            if fields[j].rule.Required? {
              RequiredDiffer(fields, j, k);
            }
            var r := FieldFrom(fields, q.value, j, wire, t.value.rest);
            if r.Some? {
              FieldTail(fields, q.value, j, wire, t.value.rest);
              TailOfTail(r.value.rest, t.value.rest, input);
              NoKeyInTail(r.value.rest, input, fields[k].tag);
              NeverSeen(fields, r.value.value, r.value.rest, k);
            }
          }
        }
      }
    }
  }

  lemma KeyIsNot(input: Bytes, tag: nat)
    requires NoKey(input, tag) && Varint32(input).Some?
    ensures Varint32(input).value.value / 8 != tag
  {
    hide Varint32;
    WholeIsTail(input);
  }

  lemma Varint32IsTail(input: Bytes)
    ensures Varint32(input).Some? ==> IsTail(Varint32(input).value.rest, input)
  {
    hide IsTail, Varint32Loop;
    Varint32Tail(input, 0, 0);
  }

  lemma {:induction false} RequiredInside(fields: seq<Field>, k: nat)
    requires k < |fields| && fields[k].rule.Required?
    ensures RequiredBefore(fields, k) < RequiredBefore(fields, |fields|)
  {
    RequiredGrows(fields, k, |fields|);
  }

  /** Main result: bytes in which the key of a required field does not occur are
      refused; only the first 64 required fields are looked for. */
  lemma MissingIsRefused(fields: seq<Field>, m: Message, input: Bytes, k: nat)
    requires |m| == SlotCount(fields) && k < |fields| && fields[k].rule.Required? && RequiredBefore(fields, k) < 64
    requires NoKey(input, fields[k].tag)
    ensures MessageFrom(fields, m, input) == None
  {
    hide FieldsFrom, NoKey, RequiredBefore;
    NeverSeen(fields, Progress(m, {}, None, 0), input, k);
    RequiredInside(fields, k);
  }

  // ----- Arrays, packed or not -----

  lemma {:induction false} PackedStores(f: Field, a: Filled, more: seq<Value>)
    requires ValidField(f) && Packable(f.kind) && a.count + |more| <= f.arraySize
    requires forall i | 0 <= i < |more| :: ValueOk(f, more[i])
    ensures ItemsBytes(f, more, []).Some?
    ensures var r := PackedFrom(f, a, ItemsBytes(f, more, []).value);
      && r.Some? && r.value.count == a.count + |more|
      && (a.count == |a.items| ==> r.value.items == a.items + more)
    decreases |more|
  {
    hide ScalarBytes, ScalarFrom, ScalarOk, ValidField;
    if more == [] {
      assert a.items + more == a.items;
    } else {
      var v := more[0];
      assert ValueOk(f, v);
      var next := Filled(Store(a.items, a.count, v), a.count + 1);
      PackedStores(f, next, more[1..]);
      var others := ItemsBytes(f, more[1..], []).value;
      ScalarReads(f, v.n, others);
      assert [] + ScalarBytes(f, v.n).value == ScalarBytes(f, v.n).value;
      assert a.items + [v] + more[1..] == a.items + more;
    }
  }

  /** The decoding of an array with its own count after more items. */
  function Longer(fields: seq<Field>, p: Progress, k: nat, more: seq<Value>): (q: Progress)
    requires Fits(fields, p) && k < |fields|
    ensures Fits(fields, q)
  {
    var s := SlotAt(fields, p.message, k);
    With(fields, p, k, s.(items := s.items + more))
  }

  predicate HasRoom(fields: seq<Field>, p: Progress, k: nat, more: seq<Value>)
    requires Fits(fields, p) && k < |fields|
  {
    && fields[k].rule.Repeated? && fields[k].sized && Packable(fields[k].kind)
    && |SlotAt(fields, p.message, k).items| + |more| <= fields[k].arraySize
    && forall i | 0 <= i < |more| :: ValueOk(fields[k], more[i])
  }

  lemma PackedReadsOn(fields: seq<Field>, p: Progress, k: nat, more: seq<Value>, rest: Bytes)
    requires ValidSchema(fields) && Fits(fields, p) && k < |fields| && HasRoom(fields, p, k, more)
    requires Short(ItemsBytes(fields[k], more, []))
    ensures ItemsBytes(fields[k], more, []).Some?
    ensures FieldsFrom(fields, p, Tag(fields[k], 2) + LengthPrefixed(ItemsBytes(fields[k], more, []).value) + rest)
         == FieldsFrom(fields, Longer(fields, p, k, more), rest)
  {
    hide SlotOf, SlotAt, WithSlot, ItemsBytes, PackedFrom, FieldsFrom, Tag, ValueOk, Substream, LengthPrefixed, ValidField;
    var f, s := fields[k], SlotAt(fields, p.message, k);
    assert ValidField(f);
    PackedStores(f, Filled(s.items, |s.items|), more);
    var payload := ItemsBytes(f, more, []).value;
    SubstreamReads(payload, rest);
    EntersField(fields, p, k, STRING, LengthPrefixed(payload) + rest);
    Associative(Tag(f, STRING), LengthPrefixed(payload), rest);
  }

  lemma EntryReadsOn(fields: seq<Field>, p: Progress, k: nat, v: Value, rest: Bytes)
    requires ValidSchema(fields) && Fits(fields, p) && k < |fields| && HasRoom(fields, p, k, [v])
    ensures ValueBytes(fields[k], v).Some?
    ensures FieldsFrom(fields, p, Tag(fields[k], WireOf(fields[k].kind)) + ValueBytes(fields[k], v).value + rest)
         == FieldsFrom(fields, Longer(fields, p, k, [v]), rest)
  {
    hide SlotOf, SlotAt, WithSlot, FieldsFrom, Tag, ScalarBytes, ScalarFrom, ScalarOk, ValidField;
    var f, s := fields[k], SlotAt(fields, p.message, k);
    assert ValidField(f) && ValueOk(f, [v][0]) && [v][0] == v;
    NumberOf(f, v);
    ScalarReads(f, v.n, rest);
    var b := ScalarBytes(f, v.n).value;
    EntersField(fields, p, k, WireOf(f.kind), b + rest);
    Associative(Tag(f, WireOf(f.kind)), b, rest);
  }

  lemma NumberOf(f: Field, v: Value)
    requires Packable(f.kind) && ValueOk(f, v)
    ensures v.Number? && ScalarOk(f, v.n)
  {
  }

  lemma {:induction false} EntriesReadOn(fields: seq<Field>, p: Progress, k: nat, more: seq<Value>, rest: Bytes)
    requires ValidSchema(fields) && Fits(fields, p) && k < |fields| && HasRoom(fields, p, k, more)
    ensures var b := ItemsBytes(fields[k], more, Tag(fields[k], WireOf(fields[k].kind)));
      b.Some? && FieldsFrom(fields, p, b.value + rest) == FieldsFrom(fields, Longer(fields, p, k, more), rest)
    decreases |more|
  {
    hide SlotOf, FieldsFrom, Tag, ValueOk, ValueBytes, ValidField, WireOf;
    var f, s := fields[k], SlotAt(fields, p.message, k);
    if more == [] {
      assert s.items + more == s.items && [] + rest == rest;
      WithSlotAt(fields, p.message, k, s, k);
      assert WithSlot(fields, p.message, k, s) == p.message;
    } else {
      var q := Longer(fields, p, k, more[..1]);
      var tag := Tag(f, WireOf(f.kind));
      assert more[..1] == [more[0]];
      LongerTwice(fields, p, k, [more[0]], more[1..]);
      assert [more[0]] + more[1..] == more;
      EntriesReadOn(fields, q, k, more[1..], rest);
      var others := ItemsBytes(f, more[1..], tag).value;
      EntryReadsOn(fields, p, k, more[0], others + rest);
      Associative(tag + ValueBytes(f, more[0]).value, others, rest);
    }
  }

  lemma LongerTwice(fields: seq<Field>, p: Progress, k: nat, a: seq<Value>, b: seq<Value>)
    requires Fits(fields, p) && k < |fields|
    ensures Longer(fields, Longer(fields, p, k, a), k, b) == Longer(fields, p, k, a + b)
    ensures SlotAt(fields, Longer(fields, p, k, a).message, k).items == SlotAt(fields, p.message, k).items + a
  {
    var s := SlotAt(fields, p.message, k);
    assert s.items + a + b == s.items + (a + b);
    WithSlotAt(fields, p.message, k, s.(items := s.items + a), k);
  }

  /** Main result: entries with a key of their own mean the same as a packed
      array, wherever they stand. */
  lemma PackedIsUnpacked(fields: seq<Field>, p: Progress, k: nat, more: seq<Value>, rest: Bytes)
    requires ValidSchema(fields) && Fits(fields, p) && k < |fields| && HasRoom(fields, p, k, more)
    requires Short(ItemsBytes(fields[k], more, []))
    ensures ItemsBytes(fields[k], more, []).Some? && ItemsBytes(fields[k], more, Tag(fields[k], WireOf(fields[k].kind))).Some?
    ensures FieldsFrom(fields, p, Tag(fields[k], 2) + LengthPrefixed(ItemsBytes(fields[k], more, []).value) + rest)
         == FieldsFrom(fields, p, ItemsBytes(fields[k], more, Tag(fields[k], WireOf(fields[k].kind))).value + rest)
         == FieldsFrom(fields, Longer(fields, p, k, more), rest)
  {
    hide FieldsFrom, ItemsBytes, Tag, LengthPrefixed, Longer, HasRoom, WireOf;
    PackedReadsOn(fields, p, k, more, rest);
    EntriesReadOn(fields, p, k, more, rest);
  }

  /** An entry for which there is no room is refused. */
  lemma TooManyRefused(fields: seq<Field>, p: Progress, k: nat, wire: nat, input: Bytes)
    requires ValidSchema(fields) && Fits(fields, p) && k < |fields| && fields[k].rule.Repeated? && fields[k].sized
    requires wire < 8 && !(wire == 2 && Packable(fields[k].kind))
    requires |SlotAt(fields, p.message, k).items| >= fields[k].arraySize
    ensures FieldsFrom(fields, p, Tag(fields[k], wire) + input) == None
  {
    hide Varint32, Tag, SlotAt, FieldWith, ValidField;
    assert ValidField(fields[k]);
    TagIsSmall(fields[k]);
    TagReads(fields[k], wire, input);
    FindsTag(fields, k);
  }

  lemma {:induction false} PackedOverflows(f: Field, a: Filled, more: seq<Value>)
    requires ValidField(f) && Packable(f.kind) && f.arraySize < a.count + |more| && a.count <= f.arraySize
    requires forall i | 0 <= i < |more| :: ValueOk(f, more[i])
    ensures ItemsBytes(f, more, []).Some? && PackedFrom(f, a, ItemsBytes(f, more, []).value) == None
    decreases |more|
  {
    hide ScalarBytes, ScalarFrom, ScalarOk, ValidField;
    var v := more[0];
    assert ValueOk(f, v);
    if |more| == 1 {
      NothingPacked(f, more[1..]);
    } else if a.count == f.arraySize {
      PackedOverflows(f, a, more[1..]);
    } else {
      PackedOverflows(f, Filled(Store(a.items, a.count, v), a.count + 1), more[1..]);
    }
    var others := ItemsBytes(f, more[1..], []).value;
    ScalarReads(f, v.n, others);
    assert [] + ScalarBytes(f, v.n).value == ScalarBytes(f, v.n).value;
  }

  lemma NothingPacked(f: Field, more: seq<Value>)
    requires more == []
    ensures ItemsBytes(f, more, []) == Some([])
  {
  }

  /** A packed array with more entries than there is room for is refused whole. */
  lemma PackedTooManyRefused(fields: seq<Field>, p: Progress, k: nat, more: seq<Value>, rest: Bytes)
    requires ValidSchema(fields) && Fits(fields, p) && k < |fields| && fields[k].rule.Repeated? && fields[k].sized
    requires Packable(fields[k].kind) && forall i | 0 <= i < |more| :: ValueOk(fields[k], more[i])
    requires |SlotAt(fields, p.message, k).items| <= fields[k].arraySize < |SlotAt(fields, p.message, k).items| + |more|
    requires Short(ItemsBytes(fields[k], more, []))
    ensures ItemsBytes(fields[k], more, []).Some?
    ensures FieldsFrom(fields, p, Tag(fields[k], 2) + (LengthPrefixed(ItemsBytes(fields[k], more, []).value) + rest)) == None
  {
    hide Varint32, Tag, SlotAt, FieldWith, ValidField, ItemsBytes, PackedFrom, Substream, LengthPrefixed, ValueOk;
    var f, s := fields[k], SlotAt(fields, p.message, k);
    assert ValidField(f);
    PackedOverflows(f, Filled(s.items, |s.items|), more);
    var payload := ItemsBytes(f, more, []).value;
    SubstreamReads(payload, rest);
    TagIsSmall(f);
    TagReads(f, 2, LengthPrefixed(payload) + rest);
    FindsTag(fields, k);
  }

  /** While an array of fixed length is unfinished no other one may begin. */
  lemma UnfinishedIsRefused(fields: seq<Field>, p: Progress, j: nat, k: nat, wire: nat, input: Bytes)
    requires ValidSchema(fields) && Fits(fields, p) && j < |fields| && k < |fields| && j != k && wire < 8
    requires fields[k].rule.Repeated? && !fields[k].sized && p.filling == Some(j) && p.filled != fields[j].arraySize
    ensures FieldsFrom(fields, p, Tag(fields[k], wire) + input) == None
  {
    hide Varint32, Tag, FieldFrom, FieldWith, ValidField;
    assert ValidField(fields[k]);
    TagIsSmall(fields[k]);
    TagReads(fields[k], wire, input);
    FindsTag(fields, k);
  }

  /** The one oddity of a schema without fields: the end of its list has tag 0
      and the type of a bool, so that a key with tag 0 is taken for it, whatever
      the wire type says. */
  lemma EmptySchemaReads(p: Progress, wire: nat, v: nat, rest: Bytes)
    requires Fits([], p) && 1 <= wire < 8 && v < 0x1_0000_0000
    ensures FieldsFrom([], p, [wire] + (Varint(v) + rest)) == FieldsFrom([], p, rest)
  {
    SmallVarint(wire);
    NoFieldAtAll();
    hide Varint32, Varint, FieldFrom, Enter, SkipField, FieldWith;
    ReadsVarint32(wire, Varint(v) + rest);
    ReadsVarint32(v, rest);
    assert wire / 8 == 0 && wire % 8 == wire;
  }

  lemma NoFieldAtAll()
    ensures FieldWith([], 0) == 0
  {
  }

  lemma SmallVarint(v: nat)
    requires v < 128
    ensures Varint(v) == [v]
  {
  }

  lemma TagIsSmall(f: Field)
    requires ValidField(f)
    ensures 0 < f.tag <= MAX_TAG
  {
  }

  /** An array of fixed length that comes with fewer entries is refused. */
  lemma UnfilledIsRefused(fields: seq<Field>, m: Message, k: nat, items: seq<Value>)
    requires ValidSchema(fields) && |m| == SlotCount(fields) && k < |fields|
    requires fields[k].rule.Repeated? && !fields[k].sized && Packable(fields[k].kind) && |items| < fields[k].arraySize
    requires (forall i | 0 <= i < |items| :: ValueOk(fields[k], items[i])) && Short(ItemsBytes(fields[k], items, []))
    ensures ItemsBytes(fields[k], items, []).Some?
    ensures MessageFrom(fields, m, Tag(fields[k], 2) + LengthPrefixed(ItemsBytes(fields[k], items, []).value)) == None
  {
    hide SlotOf, SlotAt, WithSlot, ItemsBytes, PackedFrom, Tag, ValueOk, Substream, LengthPrefixed, ValidField, FieldWith, Varint32, RequiredBefore;
    var f, p := fields[k], Progress(m, {}, None, 0);
    assert ValidField(f);
    var e := Enter(fields, p, k).value;
    PackedStores(f, Filled(SlotAt(fields, m, k).items, 0), items);
    var b := LengthPrefixed(ItemsBytes(f, items, []).value);
    SubstreamReads(ItemsBytes(f, items, []).value, []);
    assert b + [] == b;
    EntersField(fields, p, k, STRING, b);
  }

  // ----- Fields that come twice, and unions -----

  /** Of a number or bytes that come twice the last ones count. */
  lemma LastOneCounts(fields: seq<Field>, p: Progress, k: nat, v: Value, w: Value, rest: Bytes)
    requires ValidSchema(fields) && Fits(fields, p) && k < |fields|
    requires (fields[k].rule.Required? || fields[k].rule.Optional?) && !fields[k].kind.Submessage? && !fields[k].kind.Text?
    requires ValueOk(fields[k], v) && ValueOk(fields[k], w)
    ensures ValueBytes(fields[k], v).Some? && ValueBytes(fields[k], w).Some?
    ensures var tag := Tag(fields[k], WireOf(fields[k].kind));
      FieldsFrom(fields, p, tag + ValueBytes(fields[k], v).value + (tag + ValueBytes(fields[k], w).value + rest))
        == FieldsFrom(fields, p, tag + ValueBytes(fields[k], w).value + rest)
        == FieldsFrom(fields, Replaced(fields, p, k, w), rest)
  {
    hide FieldsFrom, Tag, ValueBytes, Replaced, ValueOk, WireOf;
    var tag := Tag(fields[k], WireOf(fields[k].kind));
    OneCounts(fields, p, k, w, rest);
    var second := tag + ValueBytes(fields[k], w).value + rest;
    OneCounts(fields, p, k, v, second);
    OneCounts(fields, Replaced(fields, p, k, v), k, w, rest);
    ReplacedTwice(fields, p, k, v, w);
  }

  /** The value is stored and its presence noted. */
  function Replaced(fields: seq<Field>, p: Progress, k: nat, v: Value): (q: Progress)
    requires Fits(fields, p) && k < |fields| && !fields[k].rule.Repeated?
    ensures Fits(fields, q)
  {
    var f, s := fields[k], SlotAt(fields, p.message, k);
    var size := if f.rule.Oneof? then f.tag else if f.rule.Optional? && f.sized then 1 else s.size;
    var q := With(fields, p, k, s.(size := size, value := v));
    if f.rule.Required? && RequiredBefore(fields, k) < 64 then q.(seen := p.seen + {RequiredBefore(fields, k)}) else q
  }

  lemma ReplacedTwice(fields: seq<Field>, p: Progress, k: nat, v: Value, w: Value)
    requires Fits(fields, p) && k < |fields| && !fields[k].rule.Repeated?
    ensures Replaced(fields, Replaced(fields, p, k, v), k, w) == Replaced(fields, p, k, w)
  {
    hide RequiredBefore;
    var q := Replaced(fields, p, k, v);
    WithSlotAt(fields, p.message, k, SlotAt(fields, q.message, k), k);
    assert Replaced(fields, q, k, w).message == Replaced(fields, p, k, w).message;
  }

  lemma OneCounts(fields: seq<Field>, p: Progress, k: nat, v: Value, rest: Bytes)
    requires ValidSchema(fields) && Fits(fields, p) && k < |fields|
    requires !fields[k].rule.Repeated? && !fields[k].kind.Submessage? && !fields[k].kind.Text?
    requires ValueOk(fields[k], v)
    ensures ValueBytes(fields[k], v).Some?
    ensures FieldsFrom(fields, p, Tag(fields[k], WireOf(fields[k].kind)) + ValueBytes(fields[k], v).value + rest)
         == FieldsFrom(fields, Replaced(fields, p, k, v), rest)
  {
    hide SlotOf, SlotAt, WithSlot, ValueFrom, ValueBytes, FieldsFrom, Tag, ValueOk, DefaultValue, ValidField, RequiredBefore;
    var f := fields[k];
    assert ValidField(f);
    var e := Enter(fields, p, k).value;
    var s := SlotAt(fields, e.message, k);
    PlainReads(f, v, s.value, rest);
    SameValue(f, v, s.value, rest);
    var body := ValueBytes(f, v).value;
    EntersField(fields, p, k, WireOf(f.kind), body + rest);
    Associative(Tag(f, WireOf(f.kind)), body, rest);
  }

  lemma SameValue(f: Field, v: Value, was: Value, rest: Bytes)
    requires ValidField(f) && ValueOk(f, v) && !f.kind.Submessage? && !f.kind.Text?
    ensures ValueBytes(f, v).Some? && ValueFrom(f, was, ValueBytes(f, v).value + rest) == Some(Parsed(v, rest))
  {
    hide ValueFrom, ValueBytes, ValueOk, ValidField;
    PlainReads(f, v, was, rest);
  }

  /** A member of a union takes the place of the member before it. */
  lemma OneofReplaces(fields: seq<Field>, p: Progress, k: nat, v: Value, rest: Bytes) returns (q: Progress)
    requires ValidSchema(fields) && Fits(fields, p) && k + 1 < |fields|
    requires fields[k].rule.Oneof? && fields[k + 1].rule.Oneof? && fields[k + 1].joined
    requires !fields[k + 1].kind.Submessage? && !fields[k + 1].kind.Text? && ValueOk(fields[k + 1], v)
    ensures ValueBytes(fields[k + 1], v).Some? && Fits(fields, q)
    ensures FieldsFrom(fields, p, Tag(fields[k + 1], WireOf(fields[k + 1].kind)) + ValueBytes(fields[k + 1], v).value + rest)
         == FieldsFrom(fields, q, rest)
    ensures SlotAt(fields, q.message, k).size == SlotAt(fields, q.message, k + 1).size == fields[k + 1].tag
  {
    hide FieldsFrom, Tag, ValueBytes, ValueOk, WireOf, ValidField;
    OneCounts(fields, p, k + 1, v, rest);
    q := Replaced(fields, p, k + 1, v);
    var s := SlotAt(fields, p.message, k + 1).(size := fields[k + 1].tag, value := v);
    WithSlotAt(fields, p.message, k + 1, s, k);
    WithSlotAt(fields, p.message, k + 1, s, k + 1);
  }

  // ----- What is left out -----

  /** A field without a has-flag is left out exactly when it is 0, empty, or of
      length 0. */
  lemma LeftOutIs(f: Field, s: Slot)
    requires ValidField(f) && Unflagged(f) && !f.kind.Submessage? && ValueOk(f, s.value)
    ensures FieldBytes(f, s).Some?
    ensures FieldBytes(f, s).value == [] <==>
      match f.kind
      case ByteArray => s.value.bytes == []
      case Text => s.value.bytes[0] == 0
      case FixedLengthBytes => f.dataSize == 0
      case _ => s.value == Number(0)
  {
    hide Varint, ValueBytes, ValidField;
    FieldWritten(f, s);
  }

  lemma WrittenIsLong(f: Field, s: Slot)
    requires ValidField(f) && SlotOk(f, s)
    ensures FieldBytes(f, s).Some?
    ensures FieldBytes(f, s).value == [] <==> if f.rule.Repeated? then s.items == [] else !IsPresent(f, s)
  {
    hide Varint, ValueBytes, ValidField, ItemsBytes, IsPresent, ValueOk, LengthPrefixed;
    FieldWritten(f, s);
    if f.rule.Repeated? && s.items != [] && !Packable(f.kind) {
      FirstItemIsLong(f, s.items);
    }
  }

  lemma FirstItemIsLong(f: Field, items: seq<Value>)
    requires items != [] && ItemsBytes(f, items, Tag(f, WireOf(f.kind))).Some?
    ensures ItemsBytes(f, items, Tag(f, WireOf(f.kind))).value != []
  {
    hide Varint, ValueBytes;
  }

  lemma {:induction false} NothingWritten(fields: seq<Field>, m: Message, k: nat, n: nat)
    requires |m| == SlotCount(fields) && k <= n < |fields|
    requires MessageBytes(fields, m, k) == Some([])
    ensures FieldBytes(fields[n], SlotAt(fields, m, n)) == Some([])
    decreases n - k
  {
    hide FieldBytes, SlotAt;
    if k < n {
      NothingWritten(fields, m, k + 1, n);
    }
  }

  lemma {:induction false} NothingToWrite(fields: seq<Field>, m: Message, k: nat)
    requires |m| == SlotCount(fields) && k <= |fields|
    requires forall n | k <= n < |fields| :: FieldBytes(fields[n], SlotAt(fields, m, n)) == Some([])
    ensures MessageBytes(fields, m, k) == Some([])
    decreases |fields| - k
  {
    hide FieldBytes, SlotAt;
    if k < |fields| {
      NothingToWrite(fields, m, k + 1);
      var nothing: Bytes := [];
      assert nothing + [] == nothing;
    }
  }

  lemma {:induction false} AllZeroFrom(fields: seq<Field>, m: Message, k: nat)
    requires |m| == SlotCount(fields) && k <= |fields|
    requires forall n | k <= n < |fields| :: IsZero(fields[n], SlotAt(fields, m, n))
    ensures AllZero(fields, m, k)
    decreases |fields| - k
  {
    hide IsZero, SlotAt;
    if k < |fields| {
      AllZeroFrom(fields, m, k + 1);
    }
  }

  /** Main result: a submessage without a has-flag is left out exactly when
      nothing of it would be written. */
  lemma {:induction false} NestedLeftOut(fields: seq<Field>, m: Message)
    requires ValidSchema(fields) && MessageOk(fields, m)
    requires forall k | 0 <= k < |fields| && FixedCount(fields[k]) :: 0 < fields[k].arraySize
    ensures |m| == SlotCount(fields)
    ensures AllZero(fields, m, 0) <==> MessageBytes(fields, m, 0) == Some([])
  {
    hide SlotAt, SlotOf, FieldBytes, ValidField, ValueOk;
    forall k | 0 <= k < |fields| ensures ValidField(fields[k]) && SlotOk(fields[k], SlotAt(fields, m, k)) {
    }
    if AllZero(fields, m, 0) {
      forall k | 0 <= k < |fields| ensures FieldBytes(fields[k], SlotAt(fields, m, k)) == Some([]) {
        AllZeroAt(fields, m, 0, k);
        ZeroIsNotWritten(fields[k], SlotAt(fields, m, k));
      }
      NothingToWrite(fields, m, 0);
    } else if MessageBytes(fields, m, 0) == Some([]) {
      forall k | 0 <= k < |fields| ensures IsZero(fields[k], SlotAt(fields, m, k)) {
        NothingWritten(fields, m, 0, k);
        UnwrittenIsZero(fields, m, k);
      }
      AllZeroFrom(fields, m, 0);
      assert false;
    }
  }

  lemma ZeroIsNotWritten(f: Field, s: Slot)
    requires ValidField(f) && SlotOk(f, s) && IsZero(f, s)
    ensures FieldBytes(f, s) == Some([])
  {
    hide ValueOk, FieldBytes, ValidField;
    WrittenIsLong(f, s);
    TagIsSmall(f);
  }

  lemma UnwrittenIsZero(fields: seq<Field>, m: Message, k: nat)
    requires ValidSchema(fields) && MessageOk(fields, m) && k < |fields|
    requires FixedCount(fields[k]) ==> 0 < fields[k].arraySize
    requires MessageBytes(fields, m, 0) == Some([]) && FieldBytes(fields[k], SlotAt(fields, m, k)) == Some([])
    ensures IsZero(fields[k], SlotAt(fields, m, k))
  {
    hide SlotAt, SlotOf, FieldBytes, ValidField, ValueOk, MessageBytes;
    var f, s := fields[k], SlotAt(fields, m, k);
    assert ValidField(f) && SlotOk(f, s);
    WrittenIsLong(f, s);
    if f.rule.Oneof? && s.size != 0 {
      assert SelectorOk(fields, m, k);
      var j :| 0 <= j < |fields| && SlotOf(fields, j) == SlotOf(fields, k) && fields[j].tag == s.size;
      SameSlotAt(fields, m, j, k);
      NothingWritten(fields, m, 0, j);
      assert ValidField(fields[j]) && SlotOk(fields[j], SlotAt(fields, m, j));
      WrittenIsLong(fields[j], SlotAt(fields, m, j));
      assert false;
    }
  }

  /** So for a single field: a submessage in which nothing would be written. */
  lemma SubmessageLeftOut(f: Field, s: Slot)
    requires ValidField(f) && Unflagged(f) && f.kind.Submessage? && ValueOk(f, s.value)
    requires forall g <- f.kind.fields | FixedCount(g) :: 0 < g.arraySize
    ensures |s.value.slots| == SlotCount(f.kind.fields) && FieldBytes(f, s).Some?
    ensures FieldBytes(f, s).value == [] <==> MessageBytes(f.kind.fields, s.value.slots, 0) == Some([])
  {
    hide MessageBytes, MessageOk, ValidSchema, AllZero, FieldBytes;
    NestedLeftOut(f.kind.fields, s.value.slots);
    WrittenIsLong(f, s);
  }
}
