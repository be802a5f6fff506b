/** Whatever the bytes, a decoding that succeeds leaves a message within its
    bounds (nanopb/pb_decode.c). */
module PbSafety {
  import opened Keys
  import opened Coding
  import opened PbWire
  import opened PbMessages
  import opened PbFormat
  import opened PbAgreement
  import opened PbRoundTrip

  // ----- Memory that decoding may start from -----

  /** Room for the terminator of a string and the size of a bytes field, and
      default values that fit their fields. */
  predicate RoomyField(f: Field)
    decreases f, 0
  {
    && (f.kind.Text? ==> 0 < f.dataSize) && (f.kind.ByteArray? ==> SIZE_WIDTH <= f.dataSize)
    && (f.initial.Some? && !f.kind.Submessage? ==> ValueOk(f, f.initial.value))
    && (f.kind.Submessage? ==> RoomySchema(f.kind.fields))
  }

  predicate RoomySchema(fields: seq<Field>) {
    forall k :: 0 <= k < |fields| ==> RoomyField(fields[k])
  }

  predicate ValueSound(f: Field, v: Value)
    decreases f, 0
  {
    if f.kind.Submessage? then v.Struct? && Sound(f.kind.fields, v.slots) else ValueOk(f, v)
  }

  predicate SlotSound(f: Field, s: Slot)
    decreases f, 1
  {
    match f.rule
    case Required | Optional => ValueSound(f, s.value)
    case Repeated =>
      && (if f.sized then |s.items| <= f.arraySize else |s.items| == f.arraySize)
      && forall i :: 0 <= i < |s.items| ==> ValueSound(f, s.items[i])
    case Oneof => s.size == f.tag ==> ValueSound(f, s.value)
  }

  /** Well-formed, absent fields included. */
  predicate Sound(fields: seq<Field>, m: Message)
    decreases fields
  {
    && |m| == SlotCount(fields)
    && (forall k :: 0 <= k < |fields| ==> SlotSound(fields[k], SlotAt(fields, m, k)))
    && (forall k :: 0 <= k < |fields| && fields[k].rule.Oneof? ==> SelectorOk(fields, m, k))
  }

  lemma {:induction false} ValueSoundIsOk(f: Field, v: Value)
    requires ValueSound(f, v)
    ensures ValueOk(f, v)
    decreases f, 0
  {
    if f.kind.Submessage? {
      SoundIsOk(f.kind.fields, v.slots);
    }
  }

  lemma {:induction false} SoundIsOk(fields: seq<Field>, m: Message)
    requires Sound(fields, m)
    ensures MessageOk(fields, m)
    decreases fields, 1
  {
    hide SlotAt, SlotOf, ValueOk;
    forall k | 0 <= k < |fields| ensures SlotOk(fields[k], SlotAt(fields, m, k)) {
      var f, s := fields[k], SlotAt(fields, m, k);
      assert SlotSound(f, s);
      forall v | ValueSound(f, v) ensures ValueOk(f, v) {
        ValueSoundIsOk(f, v);
      }
    }
  }

  // ----- Storing into a slot -----

  lemma {:induction false} WithSlotSound(fields: seq<Field>, m: Message, k: nat, s: Slot)
    requires ValidSchema(fields) && Sound(fields, m) && k < |fields| && SlotSound(fields[k], s)
    requires fields[k].rule.Oneof? ==> s.size == fields[k].tag || s.size == 0
    ensures Sound(fields, WithSlot(fields, m, k, s))
  {
    hide SlotAt, SlotOf, WithSlot, ValueSound, ValidField;
    var r := WithSlot(fields, m, k, s);
    forall j | 0 <= j < |fields|
      ensures SlotSound(fields[j], SlotAt(fields, r, j))
      ensures fields[j].rule.Oneof? ==> SelectorOk(fields, r, j)
    {
      WithSlotAt(fields, m, k, s, j);
      assert SlotSound(fields[j], SlotAt(fields, m, j));
      assert fields[j].rule.Oneof? ==> SelectorOk(fields, m, j);
      assert ValidField(fields[j]);
      ValidTag(fields[j]);
      if SlotOf(fields, j) == SlotOf(fields, k) && j != k {
        SharedTags(fields, j, k);
      }
    }
  }

  lemma ValidTag(f: Field)
    requires ValidField(f)
    ensures f.tag != 0
  {
  }

  lemma SharedTags(fields: seq<Field>, j: nat, k: nat)
    requires ValidSchema(fields) && j < |fields| && k < |fields| && j != k && SlotOf(fields, j) == SlotOf(fields, k)
    ensures fields[j].tag != fields[k].tag && fields[j].rule.Oneof? && fields[k].rule.Oneof?
  {
    SharedSlot(fields, if j < k then j else k, if j < k then k else j);
  }

  // ----- Zeroed memory and defaults -----

  lemma {:induction false} ZeroSound(f: Field)
    requires ValidField(f) && RoomyField(f)
    ensures ValueSound(f, Zero(f))
    decreases f, 0
  {
    match f.kind {
      case Submessage(fs) => BlankSound(fs);
      case Text => assert Zeros(f.dataSize)[0] == 0;
      case _ =>
    }
  }

  /** Zeroed memory is sound. */
  lemma {:induction false} BlankSound(fields: seq<Field>)
    requires ValidSchema(fields) && RoomySchema(fields)
    ensures Sound(fields, Blank(fields, |fields|))
    decreases fields, 1
  {
    var m := Blank(fields, |fields|);
    forall k | 0 <= k < |fields|
      ensures SlotSound(fields[k], SlotAt(fields, m, k))
      ensures fields[k].rule.Oneof? ==> SelectorOk(fields, m, k)
    {
      var f := fields[k];
      assert ValidField(f) && RoomyField(f);
      ZeroSound(f);
      BlankSize(fields, |fields|, k);
      if !f.rule.Oneof? {
        BlankAt(fields, |fields|, k);
      }
    }
  }

  lemma {:induction false} BlankSize(fields: seq<Field>, n: nat, k: nat)
    requires k < n <= |fields|
    ensures SlotOf(fields, k) < |Blank(fields, n)| && Blank(fields, n)[SlotOf(fields, k)].size == 0
    decreases n
  {
    SlotsGrow(fields, k, n - 1);
    if k < n - 1 {
      BlankSize(fields, n - 1, k);
    } else if Shares(fields, k) {
      BlankSize(fields, n - 1, k - 1);
    }
  }

  lemma {:induction false} NestedSound(f: Field, was: Value)
    requires f.kind.Submessage? && ValidField(f) && RoomyField(f)
    requires ValueSound(f, was) || was == Number(0)
    ensures Sound(f.kind.fields, Nested(f.kind.fields, was))
  {
    if was == Number(0) {
      BlankSound(f.kind.fields);
    }
  }

  lemma {:induction false} DefaultValueSound(f: Field, was: Value)
    requires ValidField(f) && RoomyField(f)
    requires ValueSound(f, was) || was == Number(0)
    ensures ValueSound(f, DefaultValue(f, was))
    decreases f, 0
  {
    if f.kind.Submessage? {
      NestedSound(f, was);
      DefaultsSound(f.kind.fields, Nested(f.kind.fields, was), |f.kind.fields|);
    } else {
      ZeroSound(f);
    }
  }

  /** Setting the defaults keeps memory sound. */
  lemma {:induction false} DefaultsSound(fields: seq<Field>, m: Message, n: nat)
    requires ValidSchema(fields) && RoomySchema(fields) && Sound(fields, m) && n <= |fields|
    ensures |m| == SlotCount(fields) && Sound(fields, Defaults(fields, m, n))
    decreases fields, n
  {
    hide Sound, SlotAt, SlotOf, ValidField, RoomyField, ValueSound;
    SoundSize(fields, m);
    if n > 0 {
      DefaultsSound(fields, m, n - 1);
      var before, f := Defaults(fields, m, n - 1), fields[n - 1];
      var s := SlotAt(fields, before, n - 1);
      assert ValidField(f) && RoomyField(f);
      SoundAt(fields, before, n - 1);
      ValidTag(f);
      if f.rule.Required? || f.rule.Optional? {
        DefaultValueSound(f, s.value);
      }
      WithSlotSound(fields, before, n - 1, DefaultSlot(f, s));
    }
  }

  lemma SoundSize(fields: seq<Field>, m: Message)
    requires Sound(fields, m)
    ensures |m| == SlotCount(fields)
  {
  }

  lemma SoundAt(fields: seq<Field>, m: Message, k: nat)
    requires Sound(fields, m) && k < |fields|
    ensures |m| == SlotCount(fields) && SlotSound(fields[k], SlotAt(fields, m, k))
  {
  }

  // ----- Decoding -----

  lemma ScalarFromOk(f: Field, input: Bytes)
    requires Packable(f.kind)
    ensures var r := ScalarFrom(f, input); r.Some? ==> ValueOk(f, r.value.value)
  {
    hide Varint32, GetVarint64, Unfixed, Power, Unzigzag, Signed;
    match f.kind {
      case Fixed32 => UnfixedFits(input, 4);
      case Fixed64 => UnfixedFits(input, 8);
      case _ =>
    }
  }

  lemma UnfixedFits(input: Bytes, width: nat)
    requires width == 4 || width == 8
    ensures var r := Take(input, width); r.Some? ==> FitsUnsigned(Unfixed(r.value.value), width)
  {
    hide Power, Unfixed;
    Powers();
    if width <= |input| {
      UnfixedBound(input[..width]);
    }
  }

  lemma {:induction false} ValueFromSound(f: Field, was: Value, input: Bytes)
    requires ValidField(f) && RoomyField(f)
    requires f.kind.Submessage? ==> ValueSound(f, was) || (f.rule.Repeated? && was == Number(0))
    ensures var r := ValueFrom(f, was, input); r.Some? ==> ValueSound(f, r.value.value)
    decreases |input|, 1
  {
    hide Substream, ScalarFrom, MessageFrom, Sound, Defaults;
    match f.kind {
      case Submessage(fs) =>
        var s := Substream(input);
        NestedSound(f, was);
        DefaultsSound(fs, Nested(fs, was), |fs|);
        if s.Some? {
          MessageFromSound(fs, StartOf(f, was), s.value.value);
        }
      case Text =>
        var s := Substream(input);
        if s.Some? && |s.value.value| < f.dataSize {
          assert Overwritten(f, was, s.value.value)[|s.value.value|] == 0;
        }
      case ByteArray =>
      case FixedLengthBytes =>
      case _ => ScalarFromOk(f, input);
    }
  }

  lemma {:induction false} PackedFromSound(f: Field, a: Filled, input: Bytes)
    requires Packable(f.kind) && (forall i :: 0 <= i < |a.items| ==> ValueOk(f, a.items[i]))
    requires if f.sized then a.count == |a.items| <= f.arraySize else |a.items| == f.arraySize
    ensures var r := PackedFrom(f, a, input);
      r.Some? ==>
        && (forall i :: 0 <= i < |r.value.items| ==> ValueOk(f, r.value.items[i]))
        && if f.sized then |r.value.items| <= f.arraySize else |r.value.items| == f.arraySize
    decreases |input|
  {
    hide ScalarFrom, ValueOk;
    if input != [] && a.count < f.arraySize {
      var v := ScalarFrom(f, input);
      if v.Some? {
        ScalarFromOk(f, input);
        PackedFromSound(f, Filled(Store(a.items, a.count, v.value.value), a.count + 1), v.value.rest);
      }
    }
  }

  /** The slot that decoding a field leaves is sound. */
  lemma {:induction false} FieldFromSound(fields: seq<Field>, p: Progress, k: nat, wire: nat, input: Bytes)
    requires ValidSchema(fields) && RoomySchema(fields) && Fits(fields, p) && k < |fields| && Sound(fields, p.message)
    ensures var r := FieldFrom(fields, p, k, wire, input); r.Some? ==> Sound(fields, r.value.value.message)
    decreases |input|, 3
  {
    hide Sound, SlotAt, SlotOf, WithSlot, ValueFrom, ValidField, RoomyField, ValueSound, PackedFrom, Substream, DefaultValue;
    var f, s := fields[k], SlotAt(fields, p.message, k);
    assert ValidField(f) && RoomyField(f);
    SoundAt(fields, p.message, k);
    var r := FieldFrom(fields, p, k, wire, input);
    if r.Some? {
      if f.rule.Repeated? {
        ArrayFromSound(f, s, Count(f, p, s), wire, input);
      } else {
        var was := if f.rule.Oneof? && f.kind.Submessage? && s.size != f.tag then DefaultValue(f, Number(0)) else s.value;
        SingleStart(f, s, was);
        ValueFromSound(f, was, input);
      }
      var t := SlotFrom(f, s, Count(f, p, s), wire, input);
      assert r.value.value.message == WithSlot(fields, p.message, k, t);
      WithSlotSound(fields, p.message, k, t);
    }
  }

  lemma SingleStart(f: Field, s: Slot, was: Value)
    requires ValidField(f) && RoomyField(f) && SlotSound(f, s) && !f.rule.Repeated?
    requires was == if f.rule.Oneof? && f.kind.Submessage? && s.size != f.tag then DefaultValue(f, Number(0)) else s.value
    ensures f.kind.Submessage? ==> ValueSound(f, was)
  {
    hide Sound;
    if f.kind.Submessage? && f.rule.Oneof? && s.size != f.tag {
      DefaultValueSound(f, Number(0));
    }
  }

  /** What decode_static_field makes of the field's memory, if it succeeds. */
  function SlotFrom(f: Field, s: Slot, n: nat, wire: nat, input: Bytes): Slot {
    if f.rule.Repeated? then
      if wire == STRING && Packable(f.kind) then
        var b := Substream(input);
        var a := if b.None? then None else PackedFrom(f, Filled(s.items, n), b.value.value);
        if a.None? then s else s.(items := a.value.items)
      else
        var v := ValueFrom(f, Item(s.items, n), input);
        if v.None? then s else s.(items := Store(s.items, n, v.value.value))
    else
      var was := if f.rule.Oneof? && f.kind.Submessage? && s.size != f.tag then DefaultValue(f, Number(0)) else s.value;
      var v := ValueFrom(f, was, input);
      if v.None? then s else SlotAfter(f, s, v.value.value)
  }

  lemma {:induction false} ArrayFromSound(f: Field, s: Slot, n: nat, wire: nat, input: Bytes)
    requires ValidField(f) && RoomyField(f) && f.rule.Repeated? && SlotSound(f, s) && (f.sized ==> n == |s.items|)
    requires !(wire == STRING && Packable(f.kind)) ==> n < f.arraySize
    ensures SlotSound(f, SlotFrom(f, s, n, wire, input))
    decreases |input|, 2
  {
    hide ValueFrom, ValueOk, PackedFrom, Substream, Sound, ValidField, RoomyField;
    if wire == STRING && Packable(f.kind) {
      var b := Substream(input);
      if b.Some? {
        PackedFromSound(f, Filled(s.items, n), b.value.value);
      }
    } else {
      ValueFromSound(f, Item(s.items, n), input);
    }
  }

  lemma {:induction false} FieldsFromSound(fields: seq<Field>, p: Progress, input: Bytes)
    requires ValidSchema(fields) && RoomySchema(fields) && Fits(fields, p) && Sound(fields, p.message)
    ensures var r := FieldsFrom(fields, p, input); r.Some? ==> Sound(fields, r.value.value.message)
    decreases |input|, 4
  {
    hide Sound, FieldFrom, Enter, Varint32, FieldWith, SkipUnknown, ValidSchema, RoomySchema;
    var t := Varint32(input);
    if input != [] && t.Some? && t.value.value != 0 {
      var tag, wire := t.value.value / 8, t.value.value % 8;
      var k := FieldWith(fields, tag);
      if k == |fields| {
        var r := SkipUnknown(fields, tag, wire, t.value.rest);
        if r.Some? {
          FieldsFromSound(fields, p, r.value);
        }
      } else {
        var q := Enter(fields, p, k);
        if q.Some? {
          FieldFromSound(fields, q.value, k, wire, t.value.rest);
          var r := FieldFrom(fields, q.value, k, wire, t.value.rest);
          if r.Some? {
            FieldsFromSound(fields, r.value.value, r.value.rest);
          }
        }
      }
    }
  }

  lemma {:induction false} MessageFromSound(fields: seq<Field>, m: Message, input: Bytes)
    requires ValidSchema(fields) && RoomySchema(fields) && Sound(fields, m)
    ensures |m| == SlotCount(fields)
    ensures var r := MessageFrom(fields, m, input); r.Some? ==> Sound(fields, r.value.value)
    decreases |input|, 5
  {
    FieldsFromSound(fields, Progress(m, {}, None, 0), input);
  }

  /** pb_decode keeps counts, sizes, terminators and selectors in bounds on every
      input, and what it made of the input can be written and read again. */
  lemma DecodedIsOk(fields: seq<Field>, memory: Message, input: Bytes)
    requires ValidSchema(fields) && RoomySchema(fields) && Sound(fields, memory)
    ensures |memory| == SlotCount(fields)
    ensures var r := Decoded(fields, memory, input);
      r.Some? ==> MessageOk(fields, r.value.value) && MessageBytes(fields, r.value.value, 0).Some?
  {
    DefaultsSound(fields, memory, |fields|);
    var r := Decoded(fields, memory, input);
    MessageFromSound(fields, Defaults(fields, memory, |fields|), input);
    if r.Some? {
      SoundIsOk(fields, r.value.value);
      MessageWritten(fields, r.value.value, 0);
    }
  }
}
