/** Decoding what was encoded gives back a message that agrees with the
    original (nanopb/pb_encode.c, nanopb/pb_decode.c). */
module PbRoundTrip {
  import opened Keys
  import opened Coding
  import opened PbWire
  import opened PbMessages
  import opened PbFormat
  import opened PbAgreement

  // ----- A well-formed message is always written -----

  lemma {:induction false} ValueWritten(f: Field, v: Value)
    requires ValidField(f) && ValueOk(f, v)
    ensures ValueBytes(f, v).Some?
    decreases f, 0
  {
    if f.kind.Submessage? {
      MessageWritten(f.kind.fields, v.slots, 0);
    }
  }

  lemma {:induction false} ItemsWritten(f: Field, items: seq<Value>, tag: Bytes)
    requires ValidField(f)
    requires forall i :: 0 <= i < |items| ==> ValueOk(f, items[i])
    ensures ItemsBytes(f, items, tag).Some?
    decreases f, 1, |items|
  {
    if items != [] {
      ValueWritten(f, items[0]);
      ItemsWritten(f, items[1..], tag);
    }
  }

  lemma {:induction false} FieldWritten(f: Field, s: Slot)
    requires ValidField(f) && SlotOk(f, s)
    ensures FieldBytes(f, s).Some?
    decreases f, 2
  {
    if f.rule.Repeated? {
      ItemsWritten(f, s.items, []);
      ItemsWritten(f, s.items, Tag(f, WireOf(f.kind)));
    } else if IsPresent(f, s) {
      ValueWritten(f, s.value);
    }
  }

  lemma {:induction false} MessageWritten(fields: seq<Field>, m: Message, k: nat)
    requires ValidSchema(fields) && MessageOk(fields, m) && k <= |fields|
    ensures MessageBytes(fields, m, k).Some?
    decreases fields, |fields| - k
  {
    hide SlotAt, ValidField, SlotOk, FieldBytes;
    if k < |fields| {
      FieldWritten(fields[k], SlotAt(fields, m, k));
      MessageWritten(fields, m, k + 1);
    }
  }

  // ----- Scalars -----

  lemma ScalarReads(f: Field, n: int, rest: Bytes)
    requires ValidField(f) && Packable(f.kind) && ScalarOk(f, n)
    ensures var b := ScalarBytes(f, n); b.Some? && b.value != [] && ScalarFrom(f, b.value + rest) == Some(Parsed(Number(n), rest))
  {
    hide Varint, Fixed, Unfixed, GetVarint64, Varint32;
    match f.kind {
      case Boolean => ReadsVarint32(if n != 0 then 1 else 0, rest);
      case Int | UInt | SInt => IntegerReads(f, n, rest);
      case Fixed32 => FixedReads(n, 4, rest);
      case Fixed64 => FixedReads(n, 8, rest);
    }
  }

  lemma IntegerReads(f: Field, n: int, rest: Bytes)
    requires f.kind.Int? || f.kind.UInt? || f.kind.SInt?
    requires ScalarOk(f, n)
    ensures var v := if f.kind.SInt? then Zigzag(n) % TWO64 else n % TWO64;
      GetVarint64(Varint(v) + rest) == Some(Parsed(v, rest)) && Stored(f, v) == Some(n)
  {
    var v := if f.kind.SInt? then Zigzag(n) % TWO64 else n % TWO64;
    InWord(if f.kind.SInt? then Zigzag(n) else n);
    hide Varint, GetVarint64, Zigzag, Unzigzag, Signed;
    GetsVarint64(v, rest);
    ZigzagRoundTrip(n, 0);
    SignedRoundTrip(n);
  }

  lemma InWord(v: int)
    ensures 0 <= v % TWO64 < TWO64 && (0 <= v < TWO64 ==> v % TWO64 == v)
  {
  }

  lemma FixedReads(n: int, width: nat, rest: Bytes)
    requires width == 4 || width == 8
    requires FitsUnsigned(n, width)
    ensures Fixed(n, width) != [] && Unfixed(Fixed(n, width)) == n
    ensures Take(Fixed(n, width) + rest, width) == Some(Parsed(Fixed(n, width), rest))
  {
    hide Fixed, Unfixed, Power;
    Powers();
    FixedRoundTrip(n, width);
    TakeFirst(Fixed(n, width), rest);
  }

  lemma TakeFirst(a: Bytes, rest: Bytes)
    ensures Take(a + rest, |a|) == Some(Parsed(a, rest))
  {
    assert (a + rest)[..|a|] == a && (a + rest)[|a|..] == rest;
  }

  // ----- Length-delimited values -----

  lemma SubstreamReads(s: Bytes, rest: Bytes)
    requires |s| < TWO32
    ensures Substream(LengthPrefixed(s) + rest) == Some(Parsed(s, rest))
  {
    hide Varint, Varint32;
    ReadsVarint32(|s|, s + rest);
    Associative(Varint(|s|), s, rest);
    TakeFirst(s, rest);
  }

  lemma {:induction false} TerminatedLength(s: Bytes)
    ensures |Terminated(s)| <= |s| && 0 !in Terminated(s)
    ensures |Terminated(s)| < |s| <==> 0 in s
  {
    if s != [] && s[0] != 0 {
      TerminatedLength(s[1..]);
    }
  }

  lemma {:induction false} TerminatedAgain(s: Bytes, tail: Bytes)
    ensures Terminated(Terminated(s) + [0] + tail) == Terminated(s)
  {
    if s != [] && s[0] != 0 {
      TerminatedAgain(s[1..], tail);
      var t := Terminated(s[1..]);
      assert Terminated(s) + [0] + tail == [s[0]] + (t + [0] + tail);
    } else {
      assert Terminated(s) + [0] + tail == [0] + tail;
    }
  }

  /** A char array survives exactly when it holds a NUL: without one the whole
      array is written, and the decoder has no room for the terminator. */
  lemma StringRoundTrip(f: Field, s: Bytes, was: Value, rest: Bytes)
    requires ValidField(f) && f.kind.Text? && |s| == f.dataSize
    ensures var b := ValueBytes(f, Data(s));
      b.Some? && (ValueFrom(f, was, b.value + rest).Some? <==> 0 in s)
    ensures 0 in s ==>
      var r := ValueFrom(f, was, ValueBytes(f, Data(s)).value + rest);
      r.value.rest == rest && ValueAgrees(f, Data(s), r.value.value)
  {
    TerminatedLength(s);
    SubstreamReads(Terminated(s), rest);
    if 0 in s {
      var memory := if |was.Chars()| == f.dataSize then was.Chars() else Zeros(f.dataSize);
      TerminatedAgain(s, memory[|Terminated(s)| + 1..]);
    }
  }

  /** What the memory that a value is decoded into has to be. */
  predicate WasOk(f: Field, was: Value) {
    f.kind.Submessage? ==> if f.rule.Repeated? then ValueLaid(f, was) || was == Number(0) else ValueFresh(f, was)
  }

  lemma PlainReads(f: Field, v: Value, was: Value, rest: Bytes)
    requires ValidField(f) && ValueOk(f, v) && !f.kind.Submessage?
    ensures ValueBytes(f, v).Some?
    ensures var r := ValueFrom(f, was, ValueBytes(f, v).value + rest);
      r.Some? && r.value.rest == rest && ValueReturns(f, v, r.value.value)
  {
    hide Substream, LengthPrefixed, ScalarFrom, ScalarBytes, ScalarOk;
    match f.kind {
      case ByteArray => SubstreamReads(v.bytes, rest);
      case Text => StringRoundTrip(f, v.bytes, was, rest);
      case FixedLengthBytes =>
        SubstreamReads(v.bytes, rest);
        assert v.bytes == [] ==> Zeros(f.dataSize) == [];
      case Boolean | Int | UInt | SInt | Fixed32 | Fixed64 => ScalarReads(f, v.n, rest);
    }
  }

  lemma {:induction false} ValueReads(f: Field, v: Value, was: Value, rest: Bytes)
    requires ValidField(f) && ValueOk(f, v) && ValueFits(f, v) && WasOk(f, was)
    ensures ValueBytes(f, v).Some?
    ensures var r := ValueFrom(f, was, ValueBytes(f, v).value + rest);
      r.Some? && r.value.rest == rest && ValueReturns(f, v, r.value.value)
    decreases f, 0
  {
    hide Substream, LengthPrefixed, MessageFrom, MessageBytes, Fresh, Defaults, MessageOk, MessageFits, MessageReturns, ValidSchema, Laid, Blank;
    if f.kind.Submessage? {
      var fs := f.kind.fields;
      assert v.Struct? && MessageOk(fs, v.slots) && ValidSchema(fs);
      OkSize(fs, v.slots);
      assert Nested(fs, v) == v.slots;
      var start := StartOf(f, was);
      StartIsFresh(f, was);
      MessageReads(fs, v.slots, start);
      SubstreamReads(MessageBytes(fs, v.slots, 0).value, rest);
    } else {
      PlainReads(f, v, was, rest);
    }
  }

  lemma OkSize(fields: seq<Field>, m: Message)
    requires MessageOk(fields, m)
    ensures |m| == SlotCount(fields)
  {
  }

  function StartOf(f: Field, was: Value): (m: Message)
    requires f.kind.Submessage?
    ensures |m| == SlotCount(f.kind.fields)
  {
    var fs := f.kind.fields;
    if f.rule.Repeated? then Defaults(fs, Nested(fs, was), |fs|) else Nested(fs, was)
  }

  lemma StartIsFresh(f: Field, was: Value)
    requires f.kind.Submessage? && WasOk(f, was)
    ensures Fresh(f.kind.fields, StartOf(f, was))
  {
    hide Fresh, Laid;
    if f.rule.Repeated? {
      DefaultValueFresh(f, was);
    } else {
      FreshSize(f.kind.fields, was.slots);
    }
  }

  lemma FreshSize(fields: seq<Field>, m: Message)
    requires Fresh(fields, m)
    ensures |m| == SlotCount(fields)
  {
  }

  // ----- One tag -----

  lemma {:induction false} FindsTag(fields: seq<Field>, k: nat)
    requires k < |fields| && forall i, j :: 0 <= i < j < |fields| ==> fields[i].tag != fields[j].tag
    ensures FieldWith(fields, fields[k].tag) == k
  {
  }

  lemma TagReads(f: Field, wire: nat, rest: Bytes)
    requires 0 < f.tag <= MAX_TAG && wire < 8
    ensures Varint32(Tag(f, wire) + rest) == Some(Parsed(8 * f.tag + wire, rest))
    ensures (8 * f.tag + wire) / 8 == f.tag && (8 * f.tag + wire) % 8 == wire
    ensures Tag(f, wire) + rest != []
  {
    hide Varint, Varint32;
    ReadsVarint32(8 * f.tag + wire, rest);
  }

  /** The loop meets a field's tag and decodes the field. */
  lemma EntersField(fields: seq<Field>, p: Progress, k: nat, wire: nat, body: Bytes)
    requires ValidSchema(fields) && Fits(fields, p) && k < |fields| && wire < 8
    requires Enter(fields, p, k).Some?
    requires FieldFrom(fields, Enter(fields, p, k).value, k, wire, body).Some?
    ensures var r := FieldFrom(fields, Enter(fields, p, k).value, k, wire, body).value;
      FieldsFrom(fields, p, Tag(fields[k], wire) + body) == FieldsFrom(fields, r.value, r.rest)
  {
    hide Varint32, Tag, FieldFrom, Enter, FieldWith;
    TagReads(fields[k], wire, body);
    FindsTag(fields, k);
  }

  // ----- How far a decoding has come -----

  predicate Kept(f: Field, a: Slot, d: Slot) {
    if f.rule.Oneof? then
      (d.size == 0 || d.size == a.size) && (a.size == f.tag ==> d.size == a.size && ValueReturns(f, a.value, d.value))
    else SlotReturns(f, a, d)
  }

  predicate Untouched(f: Field, a: Slot, d: Slot) {
    if f.rule.Oneof? then (d.size == 0 || d.size == a.size) && d.size != f.tag else SlotFresh(f, d)
  }

  predicate SlotReached(f: Field, done: bool, a: Slot, d: Slot) {
    if done then Kept(f, a, d) else Untouched(f, a, d)
  }

  /** The first `k` fields agree and the others are as the defaults left them. */
  predicate SlotsReached(fields: seq<Field>, m: Message, k: nat, d: Message)
    requires |m| == |d| == SlotCount(fields)
  {
    forall j :: 0 <= j < |fields| ==> SlotReached(fields[j], j < k, SlotAt(fields, m, j), SlotAt(fields, d, j))
  }

  predicate Filling(fields: seq<Field>, k: nat, p: Progress)
    requires Fits(fields, p)
  {
    p.filling.Some? ==> p.filling.value < k && p.filled == fields[p.filling.value].arraySize
  }

  predicate Seen(fields: seq<Field>, k: nat, p: Progress) {
    forall j :: 0 <= j < k && j < |fields| && fields[j].rule.Required? && RequiredBefore(fields, j) < MAX_REQUIRED_FIELDS
      ==> RequiredBefore(fields, j) in p.seen
  }

  predicate Reached(fields: seq<Field>, m: Message, k: nat, p: Progress)
    requires |m| == SlotCount(fields) && Fits(fields, p)
  {
    SlotsReached(fields, m, k, p.message) && Filling(fields, k, p) && Seen(fields, k, p)
  }

  lemma {:induction false} SlotsAdvance(fields: seq<Field>, m: Message, k: nat, d: Message, s: Slot)
    requires ValidSchema(fields) && k < |fields| && |m| == |d| == SlotCount(fields)
    requires SlotsReached(fields, m, k, d) && Kept(fields[k], SlotAt(fields, m, k), s)
    requires fields[k].rule.Oneof? ==> s.size == SlotAt(fields, m, k).size == fields[k].tag
    ensures SlotsReached(fields, m, k + 1, WithSlot(fields, d, k, s))
  {
    hide SlotOf, SlotAt, WithSlot, SlotReturns, SlotFresh, ValueReturns, ValidField;
    forall j | 0 <= j < |fields|
      ensures SlotReached(fields[j], j < k + 1, SlotAt(fields, m, j), SlotAt(fields, WithSlot(fields, d, k, s), j))
    {
      WithSlotAt(fields, d, k, s, j);
      if SlotOf(fields, j) == SlotOf(fields, k) {
        SameSlotAt(fields, m, j, k);
        assert j < k ==> fields[j].tag != fields[k].tag;
        assert k < j ==> fields[k].tag != fields[j].tag;
      }
    }
  }

  /** A field that is not written keeps what the defaults gave it. */
  lemma {:induction false} AbsentAdvance(fields: seq<Field>, m: Message, k: nat, p: Progress)
    requires ValidSchema(fields) && MessageOk(fields, m) && k < |fields| && Fits(fields, p) && Reached(fields, m, k, p)
    requires var f, a := fields[k], SlotAt(fields, m, k);
      if f.rule.Repeated? then a.items == [] else !IsPresent(f, a)
    ensures Reached(fields, m, k + 1, p)
  {
    hide SlotOf, SlotAt, IsZero, ValidField, ValueReturns, ValueOk, ValueFresh;
    var f, a, d := fields[k], SlotAt(fields, m, k), SlotAt(fields, p.message, k);
    assert SlotReached(f, false, a, d);
    assert SlotOk(f, a);
    assert Kept(f, a, d);
    forall j | 0 <= j < |fields|
      ensures SlotReached(fields[j], j < k + 1, SlotAt(fields, m, j), SlotAt(fields, p.message, j))
    {
      assert SlotReached(fields[j], j < k, SlotAt(fields, m, j), SlotAt(fields, p.message, j));
    }
  }

  // ----- Fields that hold one value -----

  lemma {:induction false} SingleReads(fields: seq<Field>, m: Message, k: nat, p: Progress, rest: Bytes) returns (q: Progress)
    requires ValidSchema(fields) && MessageOk(fields, m) && MessageFits(fields, m)
    requires k < |fields| && Fits(fields, p) && Reached(fields, m, k, p)
    requires !fields[k].rule.Repeated? && IsPresent(fields[k], SlotAt(fields, m, k))
    ensures Fits(fields, q) && Reached(fields, m, k + 1, q)
    ensures var b := FieldBytes(fields[k], SlotAt(fields, m, k));
      b.Some? && FieldsFrom(fields, p, b.value + rest) == FieldsFrom(fields, q, rest)
    decreases fields, 0
  {
    hide SlotOf, SlotAt, WithSlot, ValueFrom, ValueBytes, FieldsFrom, Tag, ValueReturns, ValueFresh, ValueOk, ValueFits, IsZero, DefaultValue;
    var f, a := fields[k], SlotAt(fields, m, k);
    var e := Enter(fields, p, k).value;
    var s := SlotAt(fields, e.message, k);
    assert SlotReached(f, false, a, s);
    assert ValidField(f) && SlotOk(f, a) && SlotFits(f, a);
    var was := if f.rule.Oneof? && f.kind.Submessage? then DefaultValue(f, Number(0)) else s.value;
    if f.rule.Oneof? && f.kind.Submessage? {
      DefaultValueFresh(f, Number(0));
    }
    ValueReads(f, a.value, was, rest);
    var body := ValueBytes(f, a.value).value;
    var r := FieldFrom(fields, e, k, WireOf(f.kind), body + rest);
    EntersField(fields, p, k, WireOf(f.kind), body + rest);
    Associative(Tag(f, WireOf(f.kind)), body, rest);
    q := r.value.value;
    SlotsAdvance(fields, m, k, e.message, SlotAfter(f, s, ValueFrom(f, was, body + rest).value.value));
  }

  function SlotAfter(f: Field, s: Slot, v: Value): Slot
    requires !f.rule.Repeated?
  {
    match f.rule
    case Required => s.(value := v)
    case Optional => s.(size := if f.sized then 1 else s.size, value := v)
    case Oneof => s.(size := f.tag, value := v)
  }

  // ----- Arrays -----

  /** The packed loop refills the array item by item. */
  lemma {:induction false} PackedReads(f: Field, items: seq<Value>, c: nat, a: Filled)
    requires ValidField(f) && Packable(f.kind) && c <= |items| <= f.arraySize
    requires forall i :: 0 <= i < |items| ==> ValueOk(f, items[i])
    requires a.count == c && (|a.items| == c || |a.items| == |items|) && a.items[..c] == items[..c]
    ensures ItemsBytes(f, items[c..], []).Some?
    ensures PackedFrom(f, a, ItemsBytes(f, items[c..], []).value) == Some(Filled(items, |items|))
    decreases |items| - c
  {
    hide ScalarBytes, ScalarFrom, ScalarOk, ValidField;
    if c == |items| {
      assert items[c..] == [] && items[..c] == items && a.items[..c] == a.items;
    } else {
      var v := items[c];
      assert ValueOk(f, v);
      var next := Filled(Store(a.items, c, v), c + 1);
      assert next.items[..c + 1] == items[..c + 1] by {
        assert items[..c + 1] == items[..c] + [v] && next.items[..c + 1] == a.items[..c] + [v];
      }
      PackedReads(f, items, c + 1, next);
      assert items[c..][1..] == items[c + 1..];
      var others := ItemsBytes(f, items[c + 1..], []).value;
      ScalarReads(f, v.n, others);
      assert [] + ScalarBytes(f, v.n).value == ScalarBytes(f, v.n).value;
    }
  }

  lemma {:induction false} PackedArrayReads(fields: seq<Field>, m: Message, k: nat, p: Progress, rest: Bytes) returns (q: Progress)
    requires ValidSchema(fields) && MessageOk(fields, m) && MessageFits(fields, m)
    requires k < |fields| && Fits(fields, p) && Reached(fields, m, k, p)
    requires fields[k].rule.Repeated? && Packable(fields[k].kind) && SlotAt(fields, m, k).items != []
    ensures Fits(fields, q) && Reached(fields, m, k + 1, q)
    ensures var b := FieldBytes(fields[k], SlotAt(fields, m, k));
      b.Some? && FieldsFrom(fields, p, b.value + rest) == FieldsFrom(fields, q, rest)
  {
    hide SlotOf, SlotAt, WithSlot, ItemsBytes, PackedFrom, FieldsFrom, Tag, ValueReturns, ValueOk, ValueFits, Substream, LengthPrefixed, ValidField;
    var f, a := fields[k], SlotAt(fields, m, k);
    var e := Enter(fields, p, k).value;
    var s := SlotAt(fields, e.message, k);
    assert SlotReached(f, false, a, s);
    assert ValidField(f) && SlotOk(f, a) && SlotFits(f, a);
    var n := Count(f, e, s);
    assert a.items[..0] == s.items[..0] && a.items[0..] == a.items;
    PackedReads(f, a.items, 0, Filled(s.items, n));
    var payload := ItemsBytes(f, a.items, []).value;
    var body := LengthPrefixed(payload);
    SubstreamReads(payload, rest);
    var r := FieldFrom(fields, e, k, STRING, body + rest);
    EntersField(fields, p, k, STRING, body + rest);
    Associative(Tag(f, STRING), body, rest);
    q := r.value.value;
    ItemsAgree(f, a.items);
    SlotsAdvance(fields, m, k, e.message, s.(items := a.items));
  }

  lemma ItemsAgree(f: Field, items: seq<Value>)
    requires Packable(f.kind)
    ensures forall i :: 0 <= i < |items| ==> ValueReturns(f, items[i], items[i])
  {
  }

  // An array that is not packed: one tagged entry for each item.

  /** The state of an array after `c` entries. */
  predicate ArrayReached(f: Field, c: nat, a: Slot, d: Slot) {
    && c <= |a.items| && |d.items| == (if f.sized then c else f.arraySize)
    && (forall i :: 0 <= i < c && i < |d.items| ==> ValueReturns(f, a.items[i], d.items[i]))
    && (forall i :: c <= i < |d.items| ==> ValueLaid(f, d.items[i]))
  }

  predicate FillingItems(fields: seq<Field>, k: nat, c: nat, p: Progress)
    requires k < |fields| && Fits(fields, p)
  {
    if fields[k].sized || c == 0 then Filling(fields, k, p) else p.filling == Some(k) && p.filled == c
  }

  predicate ItemsReached(fields: seq<Field>, m: Message, k: nat, c: nat, p: Progress)
    requires |m| == SlotCount(fields) && Fits(fields, p) && k < |fields|
  {
    && (forall j :: 0 <= j < |fields| && j != k ==>
        SlotReached(fields[j], j < k, SlotAt(fields, m, j), SlotAt(fields, p.message, j)))
    && ArrayReached(fields[k], c, SlotAt(fields, m, k), SlotAt(fields, p.message, k))
    && FillingItems(fields, k, c, p) && Seen(fields, k, p)
  }

  /** One tagged entry of an array. */
  lemma {:induction false} ItemReads(fields: seq<Field>, m: Message, k: nat, c: nat, p: Progress, rest: Bytes) returns (q: Progress)
    requires ValidSchema(fields) && MessageOk(fields, m) && MessageFits(fields, m)
    requires k < |fields| && Fits(fields, p) && fields[k].rule.Repeated? && !Packable(fields[k].kind)
    requires c < |SlotAt(fields, m, k).items| && ItemsReached(fields, m, k, c, p)
    ensures Fits(fields, q) && ItemsReached(fields, m, k, c + 1, q)
    ensures var f, v := fields[k], SlotAt(fields, m, k).items[c];
      ValueBytes(f, v).Some?
      && FieldsFrom(fields, p, Tag(f, WireOf(f.kind)) + ValueBytes(f, v).value + rest) == FieldsFrom(fields, q, rest)
    decreases fields, 0, 0
  {
    hide SlotOf, SlotAt, WithSlot, ValueFrom, ValueBytes, FieldsFrom, Tag, ValueReturns, ValueOk, ValueFits, ValueLaid, ValidField;
    var f, a := fields[k], SlotAt(fields, m, k);
    var v := a.items[c];
    var e := Enter(fields, p, k).value;
    var s := SlotAt(fields, e.message, k);
    assert ValidField(f) && SlotOk(f, a) && SlotFits(f, a);
    var was := Item(s.items, c);
    ItemWasOk(f, was);
    ValueReads(f, v, was, rest);
    var body := ValueBytes(f, v).value;
    var r := FieldFrom(fields, e, k, WireOf(f.kind), body + rest);
    EntersField(fields, p, k, WireOf(f.kind), body + rest);
    Associative(Tag(f, WireOf(f.kind)), body, rest);
    q := r.value.value;
    var t := s.(items := Store(s.items, c, ValueFrom(f, was, body + rest).value.value));
    ArrayAdvance(f, c, a, s, t.items[c]);
    forall j | 0 <= j < |fields|
      ensures SlotAt(fields, q.message, j) == if j == k then t else SlotAt(fields, e.message, j)
    {
      WithSlotAt(fields, e.message, k, t, j);
    }
  }

  lemma ItemWasOk(f: Field, was: Value)
    requires f.rule.Repeated? && (ValueLaid(f, was) || was == Number(0))
    ensures WasOk(f, was)
  {
  }

  lemma ArrayAdvance(f: Field, c: nat, a: Slot, s: Slot, v: Value)
    requires ArrayReached(f, c, a, s) && c < |a.items| <= f.arraySize && ValueReturns(f, a.items[c], v)
    ensures ArrayReached(f, c + 1, a, s.(items := Store(s.items, c, v)))
  {
  }

  lemma {:induction false} ItemsReads(fields: seq<Field>, m: Message, k: nat, c: nat, p: Progress, rest: Bytes) returns (q: Progress)
    requires ValidSchema(fields) && MessageOk(fields, m) && MessageFits(fields, m)
    requires k < |fields| && Fits(fields, p) && fields[k].rule.Repeated? && !Packable(fields[k].kind)
    requires c <= |SlotAt(fields, m, k).items| && ItemsReached(fields, m, k, c, p)
    ensures Fits(fields, q) && ItemsReached(fields, m, k, |SlotAt(fields, m, k).items|, q)
    ensures var b := ItemsBytes(fields[k], SlotAt(fields, m, k).items[c..], Tag(fields[k], WireOf(fields[k].kind)));
      b.Some? && FieldsFrom(fields, p, b.value + rest) == FieldsFrom(fields, q, rest)
    decreases fields, 1, |SlotAt(fields, m, k).items| - c
  {
    hide SlotOf, SlotAt, FieldsFrom, Tag, ValueBytes, ValueOk, ValueFits, ValidField, ItemsReached;
    var f, items := fields[k], SlotAt(fields, m, k).items;
    if c == |items| {
      q := p;
      assert items[c..] == [] && [] + rest == rest;
    } else {
      assert ValidField(f) && SlotOk(f, SlotAt(fields, m, k)) && SlotFits(f, SlotAt(fields, m, k));
      var tag := Tag(f, WireOf(f.kind));
      ItemsWritten(f, items[c + 1..], tag);
      var others := ItemsBytes(f, items[c + 1..], tag).value;
      var next := ItemReads(fields, m, k, c, p, others + rest);
      q := ItemsReads(fields, m, k, c + 1, next, rest);
      assert items[c..][1..] == items[c + 1..];
      Associative(tag + ValueBytes(f, items[c]).value, others, rest);
    }
  }

  lemma {:induction false} UnpackedArrayReads(fields: seq<Field>, m: Message, k: nat, p: Progress, rest: Bytes) returns (q: Progress)
    requires ValidSchema(fields) && MessageOk(fields, m) && MessageFits(fields, m)
    requires k < |fields| && Fits(fields, p) && Reached(fields, m, k, p)
    requires fields[k].rule.Repeated? && !Packable(fields[k].kind) && SlotAt(fields, m, k).items != []
    ensures Fits(fields, q) && Reached(fields, m, k + 1, q)
    ensures var b := FieldBytes(fields[k], SlotAt(fields, m, k));
      b.Some? && FieldsFrom(fields, p, b.value + rest) == FieldsFrom(fields, q, rest)
    decreases fields, 2
  {
    hide SlotOf, SlotAt, FieldsFrom, Tag, ItemsBytes, ValueOk, ValueFits, ValueReturns, ValueLaid, ValidField;
    var f, a := fields[k], SlotAt(fields, m, k);
    assert SlotReached(f, false, a, SlotAt(fields, p.message, k));
    assert ValidField(f) && SlotOk(f, a);
    q := ItemsReads(fields, m, k, 0, p, rest);
    assert a.items[0..] == a.items;
    var d := SlotAt(fields, q.message, k);
    assert SlotReturns(f, a, d);
    forall j | 0 <= j < |fields|
      ensures SlotReached(fields[j], j < k + 1, SlotAt(fields, m, j), SlotAt(fields, q.message, j))
    {
      if j != k {
        assert SlotReached(fields[j], j < k, SlotAt(fields, m, j), SlotAt(fields, q.message, j));
      }
    }
  }

  // ----- Whole messages -----

  lemma {:induction false} FieldReads(fields: seq<Field>, m: Message, k: nat, p: Progress, rest: Bytes) returns (q: Progress)
    requires ValidSchema(fields) && MessageOk(fields, m) && MessageFits(fields, m)
    requires k < |fields| && Fits(fields, p) && Reached(fields, m, k, p)
    ensures Fits(fields, q) && Reached(fields, m, k + 1, q)
    ensures var b := FieldBytes(fields[k], SlotAt(fields, m, k));
      b.Some? && FieldsFrom(fields, p, b.value + rest) == FieldsFrom(fields, q, rest)
    decreases fields, 3
  {
    hide SlotAt, FieldsFrom, Reached, Packable, IsPresent, ItemsBytes;
    var f, a := fields[k], SlotAt(fields, m, k);
    if f.rule.Repeated? && a.items != [] {
      if Packable(f.kind) {
        q := PackedArrayReads(fields, m, k, p, rest);
      } else {
        q := UnpackedArrayReads(fields, m, k, p, rest);
      }
    } else if !f.rule.Repeated? && IsPresent(f, a) {
      q := SingleReads(fields, m, k, p, rest);
    } else {
      AbsentAdvance(fields, m, k, p);
      q := p;
      assert [] + rest == rest;
    }
  }

  lemma {:induction false} FieldsRead(fields: seq<Field>, m: Message, k: nat, p: Progress) returns (q: Progress)
    requires ValidSchema(fields) && MessageOk(fields, m) && MessageFits(fields, m)
    requires k <= |fields| && Fits(fields, p) && Reached(fields, m, k, p)
    ensures Fits(fields, q) && Reached(fields, m, |fields|, q)
    ensures var b := MessageBytes(fields, m, k); b.Some? && FieldsFrom(fields, p, b.value) == Some(Parsed(q, []))
    decreases fields, 4, |fields| - k
  {
    hide SlotAt, FieldBytes, Reached;
    if k == |fields| {
      q := p;
    } else {
      hide FieldsFrom;
      MessageWritten(fields, m, k + 1);
      var next := FieldReads(fields, m, k, p, MessageBytes(fields, m, k + 1).value);
      q := FieldsRead(fields, m, k + 1, next);
    }
  }

  lemma {:induction false} MessageReads(fields: seq<Field>, m: Message, d: Message)
    requires ValidSchema(fields) && MessageOk(fields, m) && MessageFits(fields, m) && Fresh(fields, d)
    ensures MessageBytes(fields, m, 0).Some?
    ensures var r := MessageFrom(fields, d, MessageBytes(fields, m, 0).value);
      r.Some? && r.value.rest == [] && MessageReturns(fields, m, r.value.value)
    decreases fields, 5
  {
    hide SlotAt, FieldsFrom, MessageBytes, SlotFresh, SlotOk, ValidField, SlotFits;
    var p := Progress(d, {}, None, 0);
    StartsUntouched(fields, m, d);
    var q := FieldsRead(fields, m, 0, p);
    AllSeen(fields, m, q);
    AllAgree(fields, m, q.message);
  }

  lemma StartsUntouched(fields: seq<Field>, m: Message, d: Message)
    requires ValidSchema(fields) && |m| == SlotCount(fields) && Fresh(fields, d)
    ensures SlotsReached(fields, m, 0, d)
  {
    hide SlotAt, ValueFresh;
    forall j | 0 <= j < |fields| ensures SlotReached(fields[j], false, SlotAt(fields, m, j), SlotAt(fields, d, j)) {
      assert SlotFresh(fields[j], SlotAt(fields, d, j));
      assert ValidField(fields[j]);
    }
  }

  lemma {:induction false} RequiredAt(fields: seq<Field>, n: nat, r: nat) returns (k: nat)
    requires n <= |fields| && r < RequiredBefore(fields, n)
    ensures k < n && fields[k].rule.Required? && RequiredBefore(fields, k) == r
  {
    if fields[n - 1].rule.Required? && RequiredBefore(fields, n - 1) == r {
      k := n - 1;
    } else {
      k := RequiredAt(fields, n - 1, r);
    }
  }

  lemma AllSeen(fields: seq<Field>, m: Message, q: Progress)
    requires |m| == SlotCount(fields) && Fits(fields, q) && Reached(fields, m, |fields|, q)
    ensures Complete(fields, q)
  {
    hide SlotsReached, RequiredBefore;
    forall r | 0 <= r < RequiredBefore(fields, |fields|) && r < MAX_REQUIRED_FIELDS ensures r in q.seen {
      var k := RequiredAt(fields, |fields|, r);
    }
  }

  lemma {:induction false} AllAgree(fields: seq<Field>, m: Message, d: Message)
    requires MessageOk(fields, m) && |d| == SlotCount(fields) && SlotsReached(fields, m, |fields|, d)
    ensures MessageReturns(fields, m, d)
  {
    hide SlotAt, SlotOf, ValueReturns, SlotOk;
    forall k | 0 <= k < |fields| ensures SlotReturns(fields[k], SlotAt(fields, m, k), SlotAt(fields, d, k)) {
      assert SlotReached(fields[k], k < |fields|, SlotAt(fields, m, k), SlotAt(fields, d, k));
      if fields[k].rule.Oneof? {
        SelectorAgrees(fields, m, d, k);
      }
    }
  }

  lemma {:induction false} SelectorAgrees(fields: seq<Field>, m: Message, d: Message, k: nat)
    requires |m| == |d| == SlotCount(fields) && k < |fields| && fields[k].rule.Oneof?
    requires SelectorOk(fields, m, k) && SlotsReached(fields, m, |fields|, d)
    ensures SlotAt(fields, d, k).size == SlotAt(fields, m, k).size
  {
    hide SlotAt, SlotOf, ValueReturns;
    var which := SlotAt(fields, m, k).size;
    assert SlotReached(fields[k], k < |fields|, SlotAt(fields, m, k), SlotAt(fields, d, k));
    if which != 0 {
      var j :| 0 <= j < |fields| && SlotOf(fields, j) == SlotOf(fields, k) && fields[j].tag == which;
      SameSlotAt(fields, m, j, k);
      SameSlotAt(fields, d, j, k);
      assert SlotReached(fields[j], j < |fields|, SlotAt(fields, m, j), SlotAt(fields, d, j));
    }
  }

  /** pb_decode of what pb_encode wrote, into any memory laid out for the schema,
      succeeds and uses up the bytes. What it yields agrees with the original
      exactly when every field without a has-flag, through all nesting, is
      written or has the zero value as its default. */
  lemma RoundTrip(fields: seq<Field>, m: Message, memory: Message)
    requires ValidSchema(fields) && MessageOk(fields, m) && MessageFits(fields, m) && Laid(fields, memory)
    ensures MessageBytes(fields, m, 0).Some?
    ensures var r := Decoded(fields, memory, MessageBytes(fields, m, 0).value);
      && r.Some? && r.value.rest == [] && MessageReturns(fields, m, r.value.value)
      && (MessageAgrees(fields, m, r.value.value) <==> MessageSurvives(fields, m))
  {
    hide MessageOk, MessageReturns, MessageAgrees, MessageSurvives, MessageFrom, MessageBytes, ValidSchema, MessageFits, Laid, Fresh;
    OkSize(fields, m);
    DefaultsFresh(fields, memory);
    MessageReads(fields, m, Defaults(fields, memory, |fields|));
    ReturnsAgreeing(fields, m, Decoded(fields, memory, MessageBytes(fields, m, 0).value).value.value);
  }

  // ----- A default value on a field without a has-flag -----

  /** One int32 without a has-flag whose default is 7, inside a submessage. */
  const COUNT: Field := Field(1, Optional, Int, 4, 0, false, false, Some(Number(7)))
  const COUNTER: Field := Field(1, Required, Submessage([COUNT]), 4, 0, false, false, None)

  function CounterWith(n: int): Message {
    [Slot(0, Struct([Slot(0, Number(n), [])]), [])]
  }

  lemma OneField(f: Field, m: Message)
    requires |m| == 1
    ensures SlotCount([f]) == 1 && SlotAt([f], m, 0) == m[0]
    ensures MessageBytes([f], m, 0) == FieldBytes(f, m[0])
  {
    assert SlotOf([f], 0) == 0;
    var b := FieldBytes(f, m[0]);
    assert MessageBytes([f], m, 1) == Some([]);
    assert b.Some? ==> b.value + [] == b.value;
  }

  lemma CounterOk(n: int)
    requires FitsSigned(n, 4)
    ensures ValidSchema([COUNTER]) && MessageOk([COUNTER], CounterWith(n)) && Laid([COUNTER], CounterWith(n))
  {
    OneField(COUNTER, CounterWith(n));
    OneField(COUNT, CounterWith(n)[0].value.slots);
    assert ValidField(COUNT) && SlotOk(COUNT, CounterWith(n)[0].value.slots[0]);
    assert ValidSchema([COUNT]) && MessageOk([COUNT], CounterWith(n)[0].value.slots);
    assert Laid([COUNT], CounterWith(n)[0].value.slots);
    assert ValidField(COUNTER) && SlotOk(COUNTER, CounterWith(n)[0]) && SlotLaid(COUNTER, CounterWith(n)[0]);
  }

  /** A zero is not written and comes back as 7. */
  lemma ZeroReturnsAsDefault()
    ensures ValidSchema([COUNTER]) && MessageOk([COUNTER], CounterWith(0)) && SlotCount([COUNTER]) == 1
    ensures MessageBytes([COUNTER], CounterWith(0), 0) == Some(Tag(COUNTER, STRING) + LengthPrefixed([]))
    ensures var r := Decoded([COUNTER], CounterWith(0), Tag(COUNTER, STRING) + LengthPrefixed([]));
      && r.Some? && |r.value.value| == 1 && r.value.value[0].value.Struct?
      && |r.value.value[0].value.slots| == 1 && r.value.value[0].value.slots[0].value == Number(7)
  {
    var m := CounterWith(0);
    var inner := m[0].value.slots;
    CounterOk(0);
    OneField(COUNTER, m);
    OneField(COUNT, inner);
    assert FieldBytes(COUNT, inner[0]) == Some([]);
    assert MessageFits([COUNT], inner);
    assert ValueFits(COUNTER, m[0].value);
    assert MessageFits([COUNTER], m);
    RoundTrip([COUNTER], m, m);
    var r := Decoded([COUNTER], m, MessageBytes([COUNTER], m, 0).value).value.value;
    OneField(COUNTER, r);
    assert SlotReturns(COUNTER, m[0], r[0]);
    var t := r[0].value.slots;
    assert MessageReturns([COUNT], inner, t);
    OneField(COUNT, t);
    assert SlotReturns(COUNT, inner[0], t[0]);
  }
}
