/** nanopb's decoder on its input stream (nanopb/pb_decode.c). Every method ends
    because the bytes left in the stream run out. */
module PbDecoders {
  import opened Keys
  import opened Coding
  import opened PbWire
  import opened PbMessages
  import opened PbFormat
  import opened PbAgreement
  import PbRoundTrip
  import opened PbStreams
  import opened PbIterators

  // ----- Skipping -----

  /** pb_skip_varint. */
  method SkipOverVarint(stream: InStream) returns (ok: bool)
    requires stream.Valid()
    modifies stream
    ensures stream.Valid() && stream.bytesLeft <= old(stream.bytesLeft)
    ensures ok == SkipVarint(old(stream.Left())).Some?
    ensures ok ==> stream.Left() == SkipVarint(old(stream.Left())).value
  {
    ghost var input := stream.Left();
    var b: byte := 128;
    while b >= 128
      invariant stream.Valid() && stream.bytesLeft <= old(stream.bytesLeft)
      invariant SkipVarint(input) == if b >= 128 then SkipVarint(stream.Left()) else Some(stream.Left())
      decreases stream.bytesLeft, b
    {
      ok, b := stream.ReadByte();
      if !ok {
        return;
      }
    }
    ok := true;
  }

  /** pb_skip_field. */
  method SkipOverField(stream: InStream, wire: nat) returns (ok: bool)
    requires stream.Valid()
    modifies stream
    ensures stream.Valid() && stream.bytesLeft <= old(stream.bytesLeft)
    ensures ok == SkipField(old(stream.Left()), wire).Some?
    ensures ok ==> stream.Left() == SkipField(old(stream.Left()), wire).value
  {
    hide SkipVarint, Substream;
    var data;
    if wire == VARINT {
      ok := SkipOverVarint(stream);
    } else if wire == BITS64 {
      ok, data := stream.Read(8);
    } else if wire == STRING {
      var substream;
      ok, substream := stream.MakeSubstream();
    } else if wire == BITS32 {
      ok, data := stream.Read(4);
    } else {
      ok := false;
    }
  }

  // ----- Scalars -----

  /** pb_dec_varint, pb_dec_uvarint and pb_dec_svarint: the value is cast to the
      field's size and refused when the cast changes it. */
  method DecodeInteger(stream: InStream, f: Field) returns (ok: bool, v: Value)
    requires stream.Valid() && (f.kind.Int? || f.kind.UInt? || f.kind.SInt?)
    modifies stream
    ensures stream.Valid() && stream.bytesLeft <= old(stream.bytesLeft)
    ensures stream.Reads(ScalarFrom(f, old(stream.Left())), ok, v)
    ensures ok ==> stream.bytesLeft < old(stream.bytesLeft)
  {
    hide GetVarint64, Unzigzag, Signed;
    v := Number(0);
    var word;
    ok, word := stream.DecodeVarint();
    if !ok {
      return;
    }
    var n := if f.kind.SInt? then Unzigzag(word)
             else if f.kind.UInt? then word
             else if f.dataSize == 8 then Signed(word, TWO64)
             else Signed(word % TWO32, TWO32);
    ok := if f.kind.UInt? then FitsUnsigned(n, f.dataSize) else FitsSigned(n, f.dataSize);
    v := Number(n);
  }

  method DecodeScalar(stream: InStream, f: Field) returns (ok: bool, v: Value)
    requires stream.Valid() && Packable(f.kind)
    modifies stream
    ensures stream.Valid() && stream.bytesLeft <= old(stream.bytesLeft)
    ensures stream.Reads(ScalarFrom(f, old(stream.Left())), ok, v)
    ensures ok ==> stream.bytesLeft < old(stream.bytesLeft)
  {
    v := Number(0);
    if f.kind.Int? || f.kind.UInt? || f.kind.SInt? {
      ok, v := DecodeInteger(stream, f);
    } else if f.kind.Boolean? {
      hide Varint32;
      var word;
      ok, word := stream.DecodeVarint32();
      if ok {
        v := Number(if word != 0 then 1 else 0);
      }
    } else {
      hide Unfixed;
      var data;
      ok, data := stream.Read(if f.kind.Fixed32? then 4 else 8);
      if ok {
        v := Number(Unfixed(data));
      }
    }
  }

  // ----- Values -----

  /** pb_dec_bytes, pb_dec_string and pb_dec_fixed_length_bytes. */
  method DecodeData(stream: InStream, f: Field, was: Value) returns (ok: bool, v: Value)
    requires stream.Valid() && (f.kind.ByteArray? || f.kind.Text? || f.kind.FixedLengthBytes?)
    modifies stream
    ensures stream.Valid() && stream.bytesLeft <= old(stream.bytesLeft)
    ensures stream.Reads(ValueFrom(f, was, old(stream.Left())), ok, v)
    ensures ok ==> stream.bytesLeft < old(stream.bytesLeft)
  {
    hide Varint32;
    v := was;
    ghost var input := stream.Left();
    var size, data;
    ok, size := stream.DecodeVarint32();
    if !ok {
      return;
    }
    ghost var left := stream.Left();
    if f.kind.ByteArray? {
      if size + SIZE_WIDTH > f.dataSize {
        return false, v;
      }
    } else if f.kind.Text? {
      if size + 1 > f.dataSize {
        return false, v;
      }
    } else if size == 0 {
      assert Take(left, 0) == Some(Parsed([], left)) by { assert left[..0] == [] && left[0..] == left; }
      return true, Data(Zeros(f.dataSize));
    } else if size != f.dataSize {
      return false, v;
    }
    ok, data := stream.Read(size);
    if ok {
      v := Data(if f.kind.Text? then Overwritten(f, was, data) else data);
    }
  }

  /** The field decoders, chosen by the kind of the field. */
  method DecodeValue(stream: InStream, f: Field, was: Value) returns (ok: bool, v: Value)
    requires stream.Valid() && ValidField(f)
    modifies stream
    ensures stream.Valid() && stream.bytesLeft <= old(stream.bytesLeft)
    ensures stream.Reads(ValueFrom(f, was, old(stream.Left())), ok, v)
    ensures ok ==> stream.bytesLeft < old(stream.bytesLeft)
    decreases stream.bytesLeft, 1
  {
    hide ScalarFrom, MessageFrom, Substream, Overwritten;
    if Packable(f.kind) {
      ok, v := DecodeScalar(stream, f);
    } else if f.kind.Submessage? {
      ok, v := DecodeSubmessage(stream, f, was);
    } else {
      ok, v := DecodeData(stream, f, was);
    }
  }

  /** pb_dec_submessage: a new array entry starts from the defaults, any other
      submessage from what is there. */
  method DecodeSubmessage(stream: InStream, f: Field, was: Value) returns (ok: bool, v: Value)
    requires stream.Valid() && ValidField(f) && f.kind.Submessage?
    modifies stream
    ensures stream.Valid() && stream.bytesLeft <= old(stream.bytesLeft)
    ensures stream.Reads(ValueFrom(f, was, old(stream.Left())), ok, v)
    ensures ok ==> stream.bytesLeft < old(stream.bytesLeft)
    decreases stream.bytesLeft, 0
  {
    hide Substream, MessageFrom;
    v := was;
    var fs := f.kind.fields;
    var substream, m;
    ok, substream := stream.MakeSubstream();
    if !ok {
      return;
    }
    m := Nested(fs, was);
    if f.rule.Repeated? {
      m := SetToDefaults(fs, m);
    }
    ghost var left := stream.Left();
    ok, m := DecodeNoInit(substream, fs, m);
    assert stream.Left() == left;
    v := Struct(m);
  }

  // ----- Fields -----

  /** The packed loop of decode_static_field, and the check behind it. */
  method DecodePacked(substream: InStream, f: Field, items0: seq<Value>, count0: nat) returns (ok: bool, a: Filled)
    requires substream.Valid() && Packable(f.kind)
    modifies substream
    ensures substream.Valid()
    ensures var r := PackedFrom(f, Filled(items0, count0), old(substream.Left())); ok == r.Some? && (ok ==> a == r.value)
  {
    hide ScalarFrom;
    a := Filled(items0, count0);
    var status := true;
    ghost var input := substream.Left();
    while status && substream.bytesLeft > 0 && a.count < f.arraySize
      invariant substream.Valid()
      invariant status ==> PackedFrom(f, Filled(items0, count0), input) == PackedFrom(f, a, substream.Left())
      invariant !status ==> PackedFrom(f, Filled(items0, count0), input) == None
      decreases substream.bytesLeft, status
    {
      var v;
      status, v := DecodeScalar(substream, f);
      if status {
        a := Filled(Store(a.items, a.count, v), a.count + 1);
      }
    }
    ok := substream.bytesLeft == 0 && status;
  }

  /** decode_static_field for a field that holds one value. */
  method DecodeSingle(stream: InStream, f: Field, slot: Slot) returns (ok: bool, s: Slot)
    requires stream.Valid() && ValidField(f) && !f.rule.Repeated?
    modifies stream
    ensures stream.Valid() && stream.bytesLeft <= old(stream.bytesLeft)
    ensures var was := if f.rule.Oneof? && f.kind.Submessage? && slot.size != f.tag then DefaultValue(f, Number(0)) else slot.value;
      var r := ValueFrom(f, was, old(stream.Left()));
      && ok == r.Some?
      && (ok ==> s == PbRoundTrip.SlotAfter(f, slot, r.value.value) && stream.Left() == r.value.rest)
    ensures ok ==> stream.bytesLeft < old(stream.bytesLeft)
    decreases stream.bytesLeft, 2
  {
    hide ValueFrom;
    s := slot;
    var v := slot.value;
    if f.rule.Oneof? && f.kind.Submessage? && slot.size != f.tag {
      var fs := f.kind.fields;
      var m := SetToDefaults(fs, Nested(fs, Number(0)));
      v := Struct(m);
    }
    if f.rule.Optional? && f.sized {
      s := s.(size := 1);
    } else if f.rule.Oneof? {
      s := s.(size := f.tag);
    }
    ok, v := DecodeValue(stream, f, v);
    s := s.(value := v);
  }

  /** decode_static_field on field `k`; `filled` is the count of a fixed array. */
  method DecodeField(stream: InStream, fields: seq<Field>, k: nat, wire: nat, ghost p: Progress, slot: Slot, filled0: nat)
    returns (ok: bool, s: Slot, filled: nat)
    requires stream.Valid() && k < |fields| && ValidField(fields[k]) && Fits(fields, p)
    requires slot == SlotAt(fields, p.message, k) && filled0 == p.filled
    modifies stream
    ensures stream.Valid() && stream.bytesLeft <= old(stream.bytesLeft)
    ensures var r := FieldFrom(fields, p, k, wire, old(stream.Left()));
      && ok == r.Some?
      && (ok ==> r.value.value == With(fields, p.(filled := filled), k, s) && stream.Left() == r.value.rest)
    ensures ok ==> stream.bytesLeft < old(stream.bytesLeft)
    decreases stream.bytesLeft, 3
  {
    hide ValueFrom, Substream, PackedFrom, SlotAt, WithSlot, DefaultValue;
    var f := fields[k];
    s, filled := slot, filled0;
    if !f.rule.Repeated? {
      ok, s := DecodeSingle(stream, f, slot);
    } else {
      var count := if f.sized then |slot.items| else filled0;
      if wire == STRING && Packable(f.kind) {
        var substream, a;
        ok, substream := stream.MakeSubstream();
        if !ok {
          return;
        }
        ghost var left := stream.Left();
        ok, a := DecodePacked(substream, f, slot.items, count);
        assert stream.Left() == left;
        if ok {
          s := s.(items := a.items);
          filled := if f.sized then filled0 else a.count;
        }
      } else {
        if count >= f.arraySize {
          return false, s, filled;
        }
        var v;
        ok, v := DecodeValue(stream, f, Item(slot.items, count));
        if ok {
          s := s.(items := Store(slot.items, count, v));
          filled := if f.sized then filled0 else count + 1;
        }
      }
    }
  }

  // ----- Messages -----

  /** pb_field_iter_find lands on the field with the tag. */
  lemma FoundIsFieldWith(fields: seq<Field>, tag: nat, k: nat)
    requires ValidSchema(fields) && k < |fields| && fields[k].tag == tag
    ensures FieldWith(fields, tag) == k
  {
    PbRoundTrip.FindsTag(fields, k);
  }

  lemma NotFound(fields: seq<Field>, tag: nat)
    requires forall k :: 0 <= k < |fields| ==> fields[k].tag != tag
    ensures FieldWith(fields, tag) == |fields|
  {
  }

  /** A turn of the loop that skips an unknown field. */
  lemma SkipStep(fields: seq<Field>, p: Progress, input: Bytes, tag: nat, wire: nat, left: Bytes)
    requires Fits(fields, p) && input != [] && wire < 8 && 0 < 8 * tag + wire
    requires Varint32(input) == Some(Parsed(8 * tag + wire, left)) && FieldWith(fields, tag) == |fields|
    ensures var r := SkipUnknown(fields, tag, wire, left);
      r.Some? ==> |r.value| < |input|
    ensures FieldsFrom(fields, p, input)
         == (var r := SkipUnknown(fields, tag, wire, left); if r.None? then None else FieldsFrom(fields, p, r.value))
  {
    hide Varint32, SkipUnknown;
    assert (8 * tag + wire) / 8 == tag && (8 * tag + wire) % 8 == wire;
  }

  /** A turn of the loop that decodes a field. */
  lemma FieldStep(fields: seq<Field>, p: Progress, input: Bytes, k: nat, wire: nat, left: Bytes)
    requires Fits(fields, p) && input != [] && wire < 8 && k < |fields| && 0 < 8 * fields[k].tag + wire
    requires Varint32(input) == Some(Parsed(8 * fields[k].tag + wire, left)) && FieldWith(fields, fields[k].tag) == k
    ensures FieldsFrom(fields, p, input)
         == (var q := Enter(fields, p, k);
             if q.None? then None
             else
               var r := FieldFrom(fields, q.value, k, wire, left);
               if r.None? then None else FieldsFrom(fields, r.value.value, r.value.rest))
  {
    hide Varint32, Enter, FieldFrom;
    var tag := fields[k].tag;
    assert (8 * tag + wire) / 8 == tag && (8 * tag + wire) % 8 == wire;
  }

  /** pb_decode_tag, with bytes left: the end of the message only shows as a zero. */
  method DecodeTag(stream: InStream) returns (ok: bool, wire: nat, tag: nat, eof: bool)
    requires stream.Valid()
    modifies stream
    ensures stream.Valid() && stream.bytesLeft <= old(stream.bytesLeft)
    ensures var t := Varint32(old(stream.Left()));
      && ok == (t.Some? && t.value.value != 0)
      && (ok ==> wire < 8 && t.value == Parsed(8 * tag + wire, stream.Left()) && stream.bytesLeft < old(stream.bytesLeft))
      && (old(stream.Left()) != [] && !ok ==> eof == t.Some?)
      && (eof && t.Some? ==> stream.Left() == t.value.rest)
  {
    hide Varint32;
    tag, wire, eof := 0, 0, false;
    var word;
    ok, word := stream.DecodeVarint32();
    if !ok {
      return;
    }
    if word == 0 {
      return false, wire, tag, true;
    }
    tag, wire := word / 8, word % 8;
    assert 8 * (word / 8) + word % 8 == word;
  }

  /** The part of pb_decode_noinit for a field that is not in the schema. */
  method SkipUnknownField(stream: InStream, fields: seq<Field>, tag: nat, wire: nat) returns (ok: bool)
    requires stream.Valid()
    modifies stream
    ensures stream.Valid() && stream.bytesLeft <= old(stream.bytesLeft)
    ensures ok == SkipUnknown(fields, tag, wire, old(stream.Left())).Some?
    ensures ok ==> stream.Left() == SkipUnknown(fields, tag, wire, old(stream.Left())).value
  {
    hide Varint32, SkipField;
    if fields == [] && tag == 0 {
      var word;
      ok, word := stream.DecodeVarint32();
    } else {
      ok := SkipOverField(stream, wire);
    }
  }

  /** pb_decode_noinit. */
  method DecodeNoInit(stream: InStream, fields: seq<Field>, memory: Message) returns (ok: bool, m: Message)
    requires stream.Valid() && ValidSchema(fields) && |memory| == SlotCount(fields)
    modifies stream
    ensures stream.Valid() && stream.bytesLeft <= old(stream.bytesLeft)
    ensures stream.Reads(MessageFrom(fields, memory, old(stream.Left())), ok, m)
    decreases stream.bytesLeft, 4
  {
    hide FieldsFrom, FieldFrom, ValidField, SlotAt, SlotOf, SlotsBefore, Varint32, SkipUnknown, RequiredBefore;
    m := memory;
    var seen: set<nat> := {};
    var fixedCountField: Option<nat> := None;
    var fixedCountSize := 0;
    var iter := new FieldIter.Begin(fields);
    ghost var input := stream.Left();
    ghost var p0 := Progress(memory, {}, None, 0);
    var running := true;
    while running && stream.bytesLeft > 0
      invariant stream.Valid() && stream.bytesLeft <= old(stream.bytesLeft) && iter.Valid() && iter.fields == fields
      invariant Fits(fields, Progress(m, seen, fixedCountField, fixedCountSize))
      invariant running ==>
        FieldsFrom(fields, p0, input) == FieldsFrom(fields, Progress(m, seen, fixedCountField, fixedCountSize), stream.Left())
      invariant !running ==>
        FieldsFrom(fields, p0, input) == Some(Parsed(Progress(m, seen, fixedCountField, fixedCountSize), stream.Left()))
      decreases stream.bytesLeft, running
    {
      ghost var p, left := Progress(m, seen, fixedCountField, fixedCountSize), stream.Left();
      var wire, tag, eof;
      ok, wire, tag, eof := DecodeTag(stream);
      if !ok {
        NoTag(fields, p, left);
        if !eof {
          return;
        }
        running := false;
      } else {
        var found := iter.Find(tag);
        if fields == [] || !found {
          NotFound(fields, tag);
          SkipStep(fields, p, left, tag, wire, stream.Left());
          ok := SkipUnknownField(stream, fields, tag, wire);
          if !ok {
            return;
          }
        } else {
          var k := iter.pos;
          FoundIsFieldWith(fields, tag, k);
          FieldStep(fields, p, left, k, wire, stream.Left());
          if FixedCount(fields[k]) {
            if fixedCountField != Some(k) {
              if fixedCountField.Some? && fixedCountSize != fields[fixedCountField.value].arraySize {
                return false, m;
              }
              fixedCountField, fixedCountSize := Some(k), 0;
            }
          }
          if fields[k].rule.Required? && iter.requiredFieldIndex < MAX_REQUIRED_FIELDS {
            seen := seen + {iter.requiredFieldIndex};
          }
          ghost var q := Progress(m, seen, fixedCountField, fixedCountSize);
          assert Enter(fields, p, k) == Some(q);
          SlotIsAt(fields, m, k);
          assert ValidField(fields[k]);
          var s;
          ok, s, fixedCountSize := DecodeField(stream, fields, k, wire, q, m[iter.slot], fixedCountSize);
          if !ok {
            return;
          }
          m := m[iter.slot := s];
        }
      }
    }
    if running {
      Finished(fields, Progress(m, seen, fixedCountField, fixedCountSize), stream.Left());
    }
    if fixedCountField.Some? && fixedCountSize != fields[fixedCountField.value].arraySize {
      return false, m;
    }
    var required := CountRequired(iter);
    ok := forall j :: 0 <= j < required && j < MAX_REQUIRED_FIELDS ==> j in seen;
  }

  lemma NoTag(fields: seq<Field>, p: Progress, left: Bytes)
    requires Fits(fields, p) && left != [] && (var t := Varint32(left); t.None? || t.value.value == 0)
    ensures FieldsFrom(fields, p, left)
         == if Varint32(left).None? then None else Some(Parsed(p, Varint32(left).value.rest))
  {
  }

  lemma Finished(fields: seq<Field>, p: Progress, left: Bytes)
    requires Fits(fields, p) && left == []
    ensures FieldsFrom(fields, p, left) == Some(Parsed(p, left))
  {
  }

  lemma SlotIsAt(fields: seq<Field>, m: Message, k: nat)
    requires k < |fields| && |m| == SlotCount(fields)
    ensures SlotOf(fields, k) < |m| && m[SlotOf(fields, k)] == SlotAt(fields, m, k)
    ensures forall s :: WithSlot(fields, m, k, s) == m[SlotOf(fields, k) := s]
  {
    SlotInside(fields, k);
  }

  /** The number of required fields, found by running to the end of the schema. */
  method CountRequired(iter: FieldIter) returns (n: nat)
    requires iter.Valid()
    modifies iter
    ensures iter.Valid() && n == RequiredBefore(iter.fields, |iter.fields|)
  {
    n := iter.requiredFieldIndex;
    if iter.fields == [] {
      return 0;
    }
    var last := iter.pos;
    var more := iter.Next();
    while more
      invariant iter.Valid() && last < |iter.fields| && n == RequiredBefore(iter.fields, last)
      invariant if more then iter.pos == last + 1 else last + 1 == |iter.fields|
      decreases |iter.fields| - last, more
    {
      n := iter.requiredFieldIndex;
      last := iter.pos;
      more := iter.Next();
    }
    if iter.fields[last].rule.Required? {
      n := n + 1;
    }
  }

  /** pb_decode. */
  method Decode(stream: InStream, fields: seq<Field>, memory: Message) returns (ok: bool, m: Message)
    requires stream.Valid() && ValidSchema(fields) && |memory| == SlotCount(fields)
    modifies stream
    ensures stream.Valid()
    ensures stream.Reads(Decoded(fields, memory, old(stream.Left())), ok, m)
  {
    m := SetToDefaults(fields, memory);
    ok, m := DecodeNoInit(stream, fields, m);
  }
}
