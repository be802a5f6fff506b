/** nanopb's encoder on its output stream (nanopb/pb_encode.c). */
module PbEncoders {
  import opened Keys
  import opened Coding
  import opened PbWire
  import opened PbMessages
  import opened PbFormat
  import opened PbStreams
  import opened PbIterators

  // ----- Streams that took part of what they were given -----

  lemma TakesJoined(s: OutStream, n: nat, a: Bytes, b: Option<Bytes>)
    ensures s.Takes(n, Joined(Some(a), b)) <==> s.Takes(n + |a|, b)
  {
  }

  lemma JoinedStep(done: Bytes, a: Option<Bytes>, b: Option<Bytes>)
    ensures Joined(Some(done), Joined(a, b)) == if a.None? then None else Joined(Some(done + a.value), b)
  {
    if a.Some? && b.Some? {
      Associative(done, a.value, b.value);
    }
  }

  lemma TakesLess(s: OutStream, n: nat, done: Bytes, a: Option<Bytes>, b: Option<Bytes>)
    requires !s.Takes(n + |done|, a)
    ensures !s.Takes(n, Joined(Some(done), Joined(a, b)))
  {
  }

  // ----- Tags and scalars -----

  /** pb_encode_tag. */
  method EncodeTag(stream: OutStream, f: Field, wire: nat) returns (ok: bool)
    requires stream.Valid()
    modifies stream`state, stream`bytesWritten, stream.buffer
    ensures stream.Valid()
    ensures ok <==> stream.Takes(old(stream.bytesWritten), Some(Tag(f, wire)))
    ensures ok ==> stream.bytesWritten == old(stream.bytesWritten) + |Tag(f, wire)|
    ensures ok && stream.buffer != null ==> stream.Contents() == old(stream.Contents()) + Tag(f, wire)
  {
    ok := stream.EncodeVarint(8 * f.tag + wire);
  }

  /** The encoders of the packable kinds. */
  method EncodeScalar(stream: OutStream, f: Field, v: Value) returns (ok: bool)
    requires stream.Valid() && Packable(f.kind)
    modifies stream`state, stream`bytesWritten, stream.buffer
    ensures stream.Valid()
    ensures ok <==> stream.Takes(old(stream.bytesWritten), ScalarBytes(f, v.Num()))
    ensures ok ==> stream.bytesWritten == old(stream.bytesWritten) + |ScalarBytes(f, v.Num()).value|
    ensures ok && stream.buffer != null ==> stream.Contents() == old(stream.Contents()) + ScalarBytes(f, v.Num()).value
  {
    hide Varint, Fixed, Zigzag;
    match f.kind {
      case Boolean =>
        ok := stream.EncodeVarint(if v.Num() != 0 then 1 else 0);
      case Int | UInt =>
        if !IntegerSize(f.dataSize) {
          return false;
        }
        ok := stream.EncodeVarint(v.Num() % TWO64);
      case SInt =>
        if !IntegerSize(f.dataSize) {
          return false;
        }
        ok := stream.EncodeSvarint(v.Num());
      case Fixed32 =>
        ok := stream.Write(Fixed(v.Num() % TWO32, 4));
      case Fixed64 =>
        ok := stream.Write(Fixed(v.Num() % TWO64, 8));
    }
  }

  // ----- Values -----

  /** pb_enc_string looks for the NUL within the array. */
  method StringLength(s: Bytes) returns (size: nat)
    ensures size <= |s| && s[..size] == Terminated(s)
  {
    size := 0;
    while size < |s| && s[size] != 0
      invariant size <= |s| && s[..size] + Terminated(s[size..]) == Terminated(s)
    {
      assert s[size..][1..] == s[size + 1..];
      assert s[..size] + ([s[size]] + Terminated(s[size + 1..])) == s[..size + 1] + Terminated(s[size + 1..]);
      size := size + 1;
    }
    assert s[..size] + [] == s[..size];
  }

  /** The field encoders, chosen by the kind of the field. */
  method EncodeValue(stream: OutStream, f: Field, v: Value) returns (ok: bool)
    requires stream.Valid()
    modifies stream`state, stream`bytesWritten, stream.buffer
    ensures stream.Valid()
    ensures ok <==> stream.Takes(old(stream.bytesWritten), ValueBytes(f, v))
    ensures ok ==> stream.bytesWritten == old(stream.bytesWritten) + |ValueBytes(f, v).value|
    ensures ok && stream.buffer != null ==> stream.Contents() == old(stream.Contents()) + ValueBytes(f, v).value
    decreases f, 0
  {
    hide LengthPrefixed, ScalarBytes, MessageBytes;
    match f.kind {
      case ByteArray =>
        if |v.Chars()| + SIZE_WIDTH > f.dataSize {
          return false;
        }
        ok := stream.EncodeString(v.Chars());
      case Text =>
        var size := StringLength(v.Chars());
        ok := stream.EncodeString(v.Chars()[..size]);
      case FixedLengthBytes =>
        ok := stream.EncodeString(v.Chars());
      case Submessage(fs) =>
        ok := EncodeSubmessage(stream, fs, Nested(fs, v));
      case Boolean | Int | UInt | SInt | Fixed32 | Fixed64 =>
        ok := EncodeScalar(stream, f, v);
    }
  }

  /** pb_encode_submessage: once for the size, once for the bytes. */
  method EncodeSubmessage(stream: OutStream, fields: seq<Field>, m: Message) returns (ok: bool)
    requires stream.Valid() && |m| == SlotCount(fields)
    modifies stream`state, stream`bytesWritten, stream.buffer
    ensures stream.Valid()
    ensures ok <==> stream.Takes(old(stream.bytesWritten), Prefixed(MessageBytes(fields, m, 0)))
    ensures ok ==> stream.bytesWritten == old(stream.bytesWritten) + |Prefixed(MessageBytes(fields, m, 0)).value|
    ensures ok && stream.buffer != null ==>
      stream.Contents() == old(stream.Contents()) + Prefixed(MessageBytes(fields, m, 0)).value
    decreases fields, |fields| + 2
  {
    hide MessageBytes, Varint;
    var sizing := new OutStream.Sizing();
    ok := Encode(sizing, fields, m);
    if !ok {
      return;
    }
    var size := sizing.bytesWritten;
    ghost var body := MessageBytes(fields, m, 0).value;
    ok := stream.EncodeVarint(size);
    if !ok {
      return;
    }
    if stream.buffer == null {
      stream.WriteSize(size);
      return true;
    }
    if stream.bytesWritten + size > stream.maxSize {
      return false;
    }
    ghost var before := stream.Contents();
    var substream := new OutStream.FromBuffer(stream.buffer, stream.state, size);
    ok := Encode(substream, fields, m);
    stream.bytesWritten := stream.bytesWritten + substream.bytesWritten;
    stream.state := substream.state;
    ok := ok && substream.bytesWritten == size;
  }

  /** The items of an array one after the other, without tags. */
  method EncodeItems(stream: OutStream, f: Field, items: seq<Value>) returns (ok: bool)
    requires stream.Valid() && Packable(f.kind)
    modifies stream`state, stream`bytesWritten, stream.buffer
    ensures stream.Valid()
    ensures ok <==> stream.Takes(old(stream.bytesWritten), ItemsBytes(f, items, []))
    ensures ok ==> stream.bytesWritten == old(stream.bytesWritten) + |ItemsBytes(f, items, []).value|
    ensures ok && stream.buffer != null ==> stream.Contents() == old(stream.Contents()) + ItemsBytes(f, items, []).value
  {
    ghost var done: Bytes := [];
    ghost var n, before := stream.bytesWritten, stream.Contents();
    var i := 0;
    StartsItems(f, items, []);
    assert before + [] == before;
    while i < |items|
      invariant i <= |items| && stream.Valid() && stream.bytesWritten == n + |done|
      invariant stream.buffer != null ==> stream.Contents() == before + done
      invariant ItemsBytes(f, items, []) == Joined(Some(done), ItemsBytes(f, items[i..], []))
    {
      hide ScalarBytes, ItemsBytes, ValueBytes;
      ghost var b := ScalarBytes(f, items[i].Num());
      UntaggedStep(f, items, i);
      JoinedStep(done, b, ItemsBytes(f, items[i + 1..], []));
      ok := EncodeScalar(stream, f, items[i]);
      if !ok {
        TakesLess(stream, n, done, b, ItemsBytes(f, items[i + 1..], []));
        return;
      }
      Associative(before, done, b.value);
      done := done + b.value;
      i := i + 1;
    }
    EndsItems(f, items, done, []);
    ok := true;
  }

  lemma UntaggedStep(f: Field, items: seq<Value>, i: nat)
    requires Packable(f.kind) && i < |items|
    ensures ItemsBytes(f, items[i..], []) == Joined(ScalarBytes(f, items[i].Num()), ItemsBytes(f, items[i + 1..], []))
  {
    hide ScalarBytes;
    assert items[i..][1..] == items[i + 1..];
    var b := ScalarBytes(f, items[i].Num());
    assert b.Some? ==> [] + b.value == b.value;
  }

  lemma StartsItems(f: Field, items: seq<Value>, tag: Bytes)
    ensures ItemsBytes(f, items, tag) == Joined(Some([]), ItemsBytes(f, items[0..], tag))
  {
    hide ItemsBytes;
    assert items[0..] == items;
    var b := ItemsBytes(f, items, tag);
    assert b.Some? ==> [] + b.value == b.value;
  }

  lemma EndsItems(f: Field, items: seq<Value>, done: Bytes, tag: Bytes)
    ensures Joined(Some(done), ItemsBytes(f, items[|items|..], tag)) == Some(done)
  {
    assert items[|items|..] == [] && done + [] == done;
  }

  lemma {:induction false} FixedItemsSize(f: Field, items: seq<Value>)
    requires f.kind.Fixed32? || f.kind.Fixed64?
    ensures ItemsBytes(f, items, []).Some?
    ensures |ItemsBytes(f, items, []).value| == if f.kind.Fixed32? then 4 * |items| else 8 * |items|
  {
    hide Fixed;
    if items != [] {
      FixedItemsSize(f, items[1..]);
    }
  }

  /** encode_array. */
  method EncodeArray(stream: OutStream, f: Field, items: seq<Value>) returns (ok: bool)
    requires stream.Valid()
    modifies stream`state, stream`bytesWritten, stream.buffer
    ensures stream.Valid()
    ensures ok <==> stream.Takes(old(stream.bytesWritten), ArrayBytes(f, items))
    ensures ok ==> stream.bytesWritten == old(stream.bytesWritten) + |ArrayBytes(f, items).value|
    ensures ok && stream.buffer != null ==> stream.Contents() == old(stream.Contents()) + ArrayBytes(f, items).value
    decreases f, 3
  {
    hide ItemsBytes, Tag;
    if items == [] {
      return true;
    }
    if |items| > f.arraySize {
      return false;
    }
    if Packable(f.kind) {
      ok := EncodePacked(stream, f, items);
    } else {
      ok := EncodeTagged(stream, f, items);
    }
  }

  method EncodePacked(stream: OutStream, f: Field, items: seq<Value>) returns (ok: bool)
    requires stream.Valid() && Packable(f.kind)
    modifies stream`state, stream`bytesWritten, stream.buffer
    ensures stream.Valid()
    ensures var b := Joined(Some(Tag(f, STRING)), Prefixed(ItemsBytes(f, items, [])));
      && (ok <==> stream.Takes(old(stream.bytesWritten), b))
      && (ok ==> stream.bytesWritten == old(stream.bytesWritten) + |b.value|)
      && (ok && stream.buffer != null ==> stream.Contents() == old(stream.Contents()) + b.value)
  {
    hide ItemsBytes, Tag, Varint;
    ghost var before := stream.Contents();
    ok := EncodeTag(stream, f, STRING);
    if !ok {
      return;
    }
    var size: nat;
    if f.kind.Fixed32? || f.kind.Fixed64? {
      FixedItemsSize(f, items);
      size := if f.kind.Fixed32? then 4 * |items| else 8 * |items|;
    } else {
      var sizing := new OutStream.Sizing();
      ok := EncodeItems(sizing, f, items);
      if !ok {
        return;
      }
      size := sizing.bytesWritten;
    }
    ok := stream.EncodeVarint(size);
    if !ok {
      return;
    }
    if stream.buffer == null {
      stream.WriteSize(size);
      return true;
    }
    ok := EncodeItems(stream, f, items);
    ghost var payload := ItemsBytes(f, items, []).value;
    Associative(before, Tag(f, STRING), Varint(size));
    Associative(before, Tag(f, STRING) + Varint(size), payload);
    Associative(Tag(f, STRING), Varint(size), payload);
  }

  method EncodeTagged(stream: OutStream, f: Field, items: seq<Value>) returns (ok: bool)
    requires stream.Valid()
    modifies stream`state, stream`bytesWritten, stream.buffer
    ensures stream.Valid()
    ensures var b := ItemsBytes(f, items, Tag(f, WireOf(f.kind)));
      && (ok <==> stream.Takes(old(stream.bytesWritten), b))
      && (ok ==> stream.bytesWritten == old(stream.bytesWritten) + |b.value|)
      && (ok && stream.buffer != null ==> stream.Contents() == old(stream.Contents()) + b.value)
    decreases f, 2
  {
    hide Tag, ItemsBytes, ValueBytes;
    ghost var tag := Tag(f, WireOf(f.kind));
    ghost var done: Bytes := [];
    ghost var n, before := stream.bytesWritten, stream.Contents();
    var i := 0;
    StartsItems(f, items, tag);
    assert before + [] == before;
    while i < |items|
      invariant i <= |items| && stream.Valid() && stream.bytesWritten == n + |done|
      invariant stream.buffer != null ==> stream.Contents() == before + done
      invariant ItemsBytes(f, items, tag) == Joined(Some(done), ItemsBytes(f, items[i..], tag))
    {
      ghost var b := Joined(Some(tag), ValueBytes(f, items[i]));
      TaggedStep(f, items, i, tag);
      JoinedStep(done, b, ItemsBytes(f, items[i + 1..], tag));
      ok := EncodeEntry(stream, f, items[i]);
      if !ok {
        TakesLess(stream, n, done, b, ItemsBytes(f, items[i + 1..], tag));
        return;
      }
      Associative(before, done, b.value);
      done := done + b.value;
      i := i + 1;
    }
    EndsItems(f, items, done, tag);
    ok := true;
  }

  lemma TaggedStep(f: Field, items: seq<Value>, i: nat, tag: Bytes)
    requires i < |items|
    ensures ItemsBytes(f, items[i..], tag)
         == Joined(Joined(Some(tag), ValueBytes(f, items[i])), ItemsBytes(f, items[i + 1..], tag))
  {
    hide ValueBytes;
    assert items[i..][1..] == items[i + 1..];
  }

  /** A tag and its value. */
  method EncodeEntry(stream: OutStream, f: Field, v: Value) returns (ok: bool)
    requires stream.Valid()
    modifies stream`state, stream`bytesWritten, stream.buffer
    ensures stream.Valid()
    ensures var b := Joined(Some(Tag(f, WireOf(f.kind))), ValueBytes(f, v));
      && (ok <==> stream.Takes(old(stream.bytesWritten), b))
      && (ok ==> stream.bytesWritten == old(stream.bytesWritten) + |b.value|)
      && (ok && stream.buffer != null ==> stream.Contents() == old(stream.Contents()) + b.value)
    decreases f, 1
  {
    hide Tag, ValueBytes;
    ghost var before, tag := stream.Contents(), Tag(f, WireOf(f.kind));
    ok := EncodeTag(stream, f, WireOf(f.kind));
    if ok {
      ok := EncodeValue(stream, f, v);
      if ok {
        Associative(before, tag, ValueBytes(f, v).value);
      }
    }
  }

  // ----- Fields and messages -----

  /** encode_basic_field. */
  method EncodeField(stream: OutStream, f: Field, s: Slot) returns (ok: bool)
    requires stream.Valid()
    modifies stream`state, stream`bytesWritten, stream.buffer
    ensures stream.Valid()
    ensures ok <==> stream.Takes(old(stream.bytesWritten), FieldBytes(f, s))
    ensures ok ==> stream.bytesWritten == old(stream.bytesWritten) + |FieldBytes(f, s).value|
    ensures ok && stream.buffer != null ==> stream.Contents() == old(stream.Contents()) + FieldBytes(f, s).value
    decreases f, 4
  {
    hide Tag, ValueBytes, ArrayBytes, IsZero;
    match f.rule {
      case Required =>
        ok := EncodeEntry(stream, f, s.value);
      case Optional =>
        var has := if f.sized then s.size != 0 else !IsZero(f, s);
        ok := true;
        if has {
          ok := EncodeEntry(stream, f, s.value);
        }
      case Repeated =>
        ok := EncodeArray(stream, f, s.items);
      case Oneof =>
        ok := true;
        if s.size == f.tag {
          ok := EncodeEntry(stream, f, s.value);
        }
    }
  }

  /** pb_encode: succeeds exactly when the message can be written and fits, and
      then the stream has gained exactly its bytes. */
  method Encode(stream: OutStream, fields: seq<Field>, m: Message) returns (ok: bool)
    requires stream.Valid() && |m| == SlotCount(fields)
    modifies stream`state, stream`bytesWritten, stream.buffer
    ensures stream.Valid()
    ensures ok <==> stream.Takes(old(stream.bytesWritten), MessageBytes(fields, m, 0))
    ensures ok ==> stream.bytesWritten == old(stream.bytesWritten) + |MessageBytes(fields, m, 0).value|
    ensures ok && stream.buffer != null ==> stream.Contents() == old(stream.Contents()) + MessageBytes(fields, m, 0).value
    decreases fields, |fields| + 1
  {
    hide FieldBytes, SlotAt, MessageBytes;
    var iter := new FieldIter.Begin(fields);
    var more := fields != [];
    ghost var k: nat, done: Bytes := 0, [];
    ghost var n, before := stream.bytesWritten, stream.Contents();
    assert before + [] == before;
    StartsFields(fields, m);
    while more
      invariant iter.Valid() && iter.fields == fields && k <= |fields|
      invariant if more then k < |fields| && iter.pos == k else k == |fields|
      invariant stream.Valid() && stream.bytesWritten == n + |done|
      invariant stream.buffer != null ==> stream.Contents() == before + done
      invariant MessageBytes(fields, m, 0) == Joined(Some(done), MessageBytes(fields, m, k))
      decreases |fields| - k
    {
      ghost var b := FieldBytes(fields[k], SlotAt(fields, m, k));
      FieldsStep(fields, m, k);
      JoinedStep(done, b, MessageBytes(fields, m, k + 1));
      SlotIs(fields, m, k);
      ok := EncodeField(stream, fields[iter.pos], m[iter.slot]);
      if !ok {
        TakesLess(stream, n, done, b, MessageBytes(fields, m, k + 1));
        return;
      }
      Associative(before, done, b.value);
      done := done + b.value;
      k := k + 1;
      more := iter.Next();
    }
    EndsFields(fields, m, done);
    ok := true;
  }

  lemma SlotIs(fields: seq<Field>, m: Message, k: nat)
    requires k < |fields| && |m| == SlotCount(fields)
    ensures SlotOf(fields, k) < |m| && m[SlotOf(fields, k)] == SlotAt(fields, m, k)
  {
    SlotInside(fields, k);
  }

  lemma FieldsStep(fields: seq<Field>, m: Message, k: nat)
    requires k < |fields| && |m| == SlotCount(fields)
    ensures MessageBytes(fields, m, k) == Joined(FieldBytes(fields[k], SlotAt(fields, m, k)), MessageBytes(fields, m, k + 1))
  {
  }

  lemma StartsFields(fields: seq<Field>, m: Message)
    requires |m| == SlotCount(fields)
    ensures MessageBytes(fields, m, 0) == Joined(Some([]), MessageBytes(fields, m, 0))
  {
    hide MessageBytes;
    var b := MessageBytes(fields, m, 0);
    assert b.Some? ==> [] + b.value == b.value;
  }

  lemma EndsFields(fields: seq<Field>, m: Message, done: Bytes)
    requires |m| == SlotCount(fields)
    ensures Joined(Some(done), MessageBytes(fields, m, |fields|)) == Some(done)
  {
    assert done + [] == done;
  }
}
