/** The bytes nanopb writes for a message, and the message it makes of any
    bytes (nanopb/pb_encode.c, nanopb/pb_decode.c). */
module PbFormat {
  import opened Keys
  import opened Coding
  import opened PbWire
  import opened PbMessages

  // ----- Writing -----

  const VARINT: nat := 0
  const BITS64: nat := 1
  const STRING: nat := 2
  const BITS32: nat := 5

  function WireOf(k: Kind): (w: nat)
    ensures w < 8
  {
    match k
    case Boolean | Int | UInt | SInt => VARINT
    case Fixed32 => BITS32
    case Fixed64 => BITS64
    case ByteArray | Text | Submessage(_) | FixedLengthBytes => STRING
  }

  function Tag(f: Field, wire: nat): Bytes {
    Varint(8 * f.tag + wire)
  }

  predicate IntegerSize(n: nat) {
    n == 1 || n == 2 || n == 4 || n == 8
  }

  /** The bytes of a string before its NUL, or all of them when it has none. */
  function Terminated(s: Bytes): Bytes {
    if s == [] || s[0] == 0 then [] else [s[0]] + Terminated(s[1..])
  }

  function Joined(a: Option<Bytes>, b: Option<Bytes>): Option<Bytes> {
    if a.None? || b.None? then None else Some(a.value + b.value)
  }

  function Prefixed(a: Option<Bytes>): Option<Bytes> {
    if a.None? then None else Some(LengthPrefixed(a.value))
  }

  function ScalarBytes(f: Field, n: int): Option<Bytes>
    requires Packable(f.kind)
  {
    match f.kind
    case Boolean => Some(Varint(if n != 0 then 1 else 0))
    case Int | UInt => if IntegerSize(f.dataSize) then Some(Varint(n % TWO64)) else None
    case SInt => if IntegerSize(f.dataSize) then Some(Varint(Zigzag(n) % TWO64)) else None
    case Fixed32 => Some(Fixed(n % TWO32, 4))
    case Fixed64 => Some(Fixed(n % TWO64, 8))
  }

  function ValueBytes(f: Field, v: Value): Option<Bytes>
    decreases f, 0
  {
    match f.kind
    case ByteArray => if |v.Chars()| + SIZE_WIDTH > f.dataSize then None else Some(LengthPrefixed(v.Chars()))
    case Text => Some(LengthPrefixed(Terminated(v.Chars())))
    case FixedLengthBytes => Some(LengthPrefixed(v.Chars()))
    case Submessage(fs) => Prefixed(MessageBytes(fs, Nested(fs, v), 0))
    case _ => ScalarBytes(f, v.Num())
  }

  function ItemsBytes(f: Field, items: seq<Value>, tag: Bytes): Option<Bytes>
    decreases f, 1, |items|
  {
    if items == [] then Some([])
    else Joined(Joined(Some(tag), ValueBytes(f, items[0])), ItemsBytes(f, items[1..], tag))
  }

  function ArrayBytes(f: Field, items: seq<Value>): Option<Bytes>
    decreases f, 2
  {
    if items == [] then Some([])
    else if |items| > f.arraySize then None
    else if Packable(f.kind) then Joined(Some(Tag(f, STRING)), Prefixed(ItemsBytes(f, items, [])))
    else ItemsBytes(f, items, Tag(f, WireOf(f.kind)))
  }

  /** pb_check_proto3_default_value: the field need not be written. */
  predicate IsZero(f: Field, s: Slot)
    decreases f, 0
  {
    match f.rule
    case Required => false
    case Repeated => f.sized && s.items == []
    case Oneof => s.size == 0
    case Optional =>
      if f.sized then s.size == 0
      else
        match f.kind
        case ByteArray => s.value.Chars() == []
        case Text => Terminated(s.value.Chars()) == []
        case FixedLengthBytes => f.dataSize == 0
        case Submessage(fs) => AllZero(fs, Nested(fs, s.value), 0)
        case _ => s.value.Num() == 0
  }

  predicate AllZero(fields: seq<Field>, m: Message, k: nat)
    requires k <= |fields| && |m| == SlotCount(fields)
    decreases fields, |fields| - k
  {
    k < |fields| ==> IsZero(fields[k], SlotAt(fields, m, k)) && AllZero(fields, m, k + 1)
  }

  predicate IsPresent(f: Field, s: Slot)
    requires !f.rule.Repeated?
    decreases f, 1
  {
    match f.rule
    case Required => true
    case Optional => if f.sized then s.size != 0 else !IsZero(f, s)
    case Oneof => s.size == f.tag
  }

  function FieldBytes(f: Field, s: Slot): Option<Bytes>
    decreases f, 3
  {
    if f.rule.Repeated? then ArrayBytes(f, s.items)
    else if IsPresent(f, s) then Joined(Some(Tag(f, WireOf(f.kind))), ValueBytes(f, s.value))
    else Some([])
  }

  /** What pb_encode writes for the fields from `k` on; None where it reports an error. */
  function MessageBytes(fields: seq<Field>, m: Message, k: nat): Option<Bytes>
    requires k <= |fields| && |m| == SlotCount(fields)
    decreases fields, |fields| - k
  {
    if k == |fields| then Some([])
    else Joined(FieldBytes(fields[k], SlotAt(fields, m, k)), MessageBytes(fields, m, k + 1))
  }

  // ----- Reading values -----

  function Take(input: Bytes, n: nat): (r: Option<Parsed<Bytes>>)
    ensures r.Some? ==> |r.value.value| == n && |r.value.rest| + n == |input|
  {
    if |input| < n then None else Some(Parsed(input[..n], input[n..]))
  }

  /** pb_make_string_substream: a 32-bit length and that many bytes. */
  function Substream(input: Bytes): (r: Option<Parsed<Bytes>>)
    ensures r.Some? ==> |r.value.rest| + |r.value.value| < |input|
  {
    var n := Varint32(input);
    if n.None? then None else Take(n.value.rest, n.value.value)
  }

  predicate FitsSigned(n: int, size: nat) {
    match size
    case 1 => -0x80 <= n < 0x80
    case 2 => -0x8000 <= n < 0x8000
    case 4 => -0x8000_0000 <= n < 0x8000_0000
    case 8 => -0x8000_0000_0000_0000 <= n < 0x8000_0000_0000_0000
    case _ => false
  }

  predicate FitsUnsigned(n: int, size: nat) {
    match size
    case 1 => 0 <= n < 0x100
    case 2 => 0 <= n < 0x1_0000
    case 4 => 0 <= n < TWO32
    case 8 => 0 <= n < TWO64
    case _ => false
  }

  /** The integer that a varint field of the given kind and size stores, if it fits. */
  function Stored(f: Field, v: nat): Option<int> {
    var n := if f.kind.SInt? then Unzigzag(v)
             else if f.kind.UInt? then v
             else if f.dataSize == 8 then Signed(v, TWO64)
             else Signed(v % TWO32, TWO32);
    if if f.kind.UInt? then FitsUnsigned(n, f.dataSize) else FitsSigned(n, f.dataSize) then Some(n) else None
  }

  function ScalarFrom(f: Field, input: Bytes): (r: Option<Parsed<Value>>)
    requires Packable(f.kind)
    ensures r.Some? ==> |r.value.rest| < |input|
  {
    match f.kind
    case Boolean =>
      var v := Varint32(input);
      if v.None? then None else Some(Parsed(Number(if v.value.value != 0 then 1 else 0), v.value.rest))
    case Int | UInt | SInt =>
      var v := GetVarint64(input);
      if v.None? then None
      else
        var n := Stored(f, v.value.value);
        if n.None? then None else Some(Parsed(Number(n.value), v.value.rest))
    case Fixed32 =>
      var v := Take(input, 4);
      if v.None? then None else Some(Parsed(Number(Unfixed(v.value.value)), v.value.rest))
    case Fixed64 =>
      var v := Take(input, 8);
      if v.None? then None else Some(Parsed(Number(Unfixed(v.value.value)), v.value.rest))
  }

  /** A char array after `s` and a NUL were written to its front. */
  function Overwritten(f: Field, was: Value, s: Bytes): (r: Bytes)
    requires |s| < f.dataSize
    ensures |r| == f.dataSize
  {
    var memory := if |was.Chars()| == f.dataSize then was.Chars() else Zeros(f.dataSize);
    s + [0] + memory[|s| + 1..]
  }

  function ValueFrom(f: Field, was: Value, input: Bytes): (r: Option<Parsed<Value>>)
    ensures r.Some? ==> |r.value.rest| < |input|
    decreases |input|, 1
  {
    match f.kind
    case ByteArray =>
      var s := Substream(input);
      if s.None? || |s.value.value| + SIZE_WIDTH > f.dataSize then None
      else Some(Parsed(Data(s.value.value), s.value.rest))
    case Text =>
      var s := Substream(input);
      if s.None? || |s.value.value| + 1 > f.dataSize then None
      else Some(Parsed(Data(Overwritten(f, was, s.value.value)), s.value.rest))
    case FixedLengthBytes =>
      var s := Substream(input);
      if s.None? then None
      else if s.value.value == [] then Some(Parsed(Data(Zeros(f.dataSize)), s.value.rest))
      else if |s.value.value| != f.dataSize then None
      else Some(Parsed(Data(s.value.value), s.value.rest))
    case Submessage(fs) =>
      var s := Substream(input);
      if s.None? then None
      else
        var start := if f.rule.Repeated? then Defaults(fs, Nested(fs, was), |fs|) else Nested(fs, was);
        var m := MessageFrom(fs, start, s.value.value);
        if m.None? then None else Some(Parsed(Struct(m.value.value), s.value.rest))
    case _ => ScalarFrom(f, input)
  }

  // ----- Reading fields -----

  /** Where a decoding stands: the message so far, the required fields seen,
      and the fixed-count array being filled, if any, with its count. */
  datatype Progress = Progress(message: Message, seen: set<nat>, filling: Option<nat>, filled: nat)

  predicate Fits(fields: seq<Field>, p: Progress) {
    |p.message| == SlotCount(fields) && (p.filling.Some? ==> p.filling.value < |fields|)
  }

  function With(fields: seq<Field>, p: Progress, k: nat, s: Slot): (q: Progress)
    requires Fits(fields, p) && k < |fields|
    ensures Fits(fields, q)
  {
    p.(message := WithSlot(fields, p.message, k, s))
  }

  predicate FixedCount(f: Field) {
    f.rule.Repeated? && !f.sized
  }

  /** The first field with the tag, or the number of fields. */
  function FieldWith(fields: seq<Field>, tag: nat): (k: nat)
    ensures k <= |fields| && (k < |fields| ==> fields[k].tag == tag)
    ensures forall j :: 0 <= j < k ==> fields[j].tag != tag
  {
    if fields == [] then 0
    else if fields[0].tag == tag then 0
    else
      var k := FieldWith(fields[1..], tag);
      assert forall j :: 1 <= j < k + 1 ==> fields[j] == fields[1..][j - 1];
      k + 1
  }

  function SkipVarint(input: Bytes): (r: Option<Bytes>)
    ensures r.Some? ==> |r.value| < |input|
  {
    if input == [] then None else if input[0] < 128 then Some(input[1..]) else SkipVarint(input[1..])
  }

  function Rest<T>(p: Option<Parsed<T>>): (r: Option<Bytes>) {
    if p.None? then None else Some(p.value.rest)
  }

  function SkipField(input: Bytes, wire: nat): (r: Option<Bytes>)
    ensures r.Some? ==> |r.value| <= |input|
  {
    if wire == VARINT then SkipVarint(input)
    else if wire == BITS64 then Rest(Take(input, 8))
    else if wire == STRING then Rest(Substream(input))
    else if wire == BITS32 then Rest(Take(input, 4))
    else None
  }

  /** A field that is not in the schema is skipped. The terminator of an empty
      schema has tag 0 and passes for a bool field with that tag. */
  function SkipUnknown(fields: seq<Field>, tag: nat, wire: nat, input: Bytes): (r: Option<Bytes>)
    ensures r.Some? ==> |r.value| <= |input|
  {
    if fields == [] && tag == 0 then Rest(Varint32(input)) else SkipField(input, wire)
  }

  /** The bookkeeping of pb_decode_noinit before a field is decoded. */
  function Enter(fields: seq<Field>, p: Progress, k: nat): (r: Option<Progress>)
    requires Fits(fields, p) && k < |fields|
    ensures r.Some? ==> Fits(fields, r.value) && r.value.message == p.message
  {
    if FixedCount(fields[k]) then
      if p.filling == Some(k) then Some(p)
      else if p.filling.Some? && p.filled != fields[p.filling.value].arraySize then None
      else Some(p.(filling := Some(k), filled := 0))
    else if fields[k].rule.Required? && RequiredBefore(fields, k) < MAX_REQUIRED_FIELDS then
      Some(p.(seen := p.seen + {RequiredBefore(fields, k)}))
    else Some(p)
  }

  function Count(f: Field, p: Progress, s: Slot): nat {
    if f.sized then |s.items| else p.filled
  }

  function Item(items: seq<Value>, i: nat): Value {
    if i < |items| then items[i] else Number(0)
  }

  function Store(items: seq<Value>, i: nat, v: Value): seq<Value> {
    if i < |items| then items[i := v] else items + [v]
  }

  datatype Filled = Filled(items: seq<Value>, count: nat)

  /** The packed loop of decode_static_field; it must use up the substream. */
  function PackedFrom(f: Field, a: Filled, input: Bytes): Option<Filled>
    requires Packable(f.kind)
    decreases |input|
  {
    if input == [] then Some(a)
    else if a.count >= f.arraySize then None
    else
      var v := ScalarFrom(f, input);
      if v.None? then None
      else PackedFrom(f, Filled(Store(a.items, a.count, v.value.value), a.count + 1), v.value.rest)
  }

  /** decode_static_field. Only the packed form of an array looks at the wire type. */
  function FieldFrom(fields: seq<Field>, p: Progress, k: nat, wire: nat, input: Bytes): (r: Option<Parsed<Progress>>)
    requires Fits(fields, p) && k < |fields|
    ensures r.Some? ==> Fits(fields, r.value.value) && |r.value.rest| < |input|
    decreases |input|, 2
  {
    var f, s := fields[k], SlotAt(fields, p.message, k);
    match f.rule
    case Required =>
      var v := ValueFrom(f, s.value, input);
      if v.None? then None
      else Some(Parsed(With(fields, p, k, s.(value := v.value.value)), v.value.rest))
    case Optional =>
      var v := ValueFrom(f, s.value, input);
      if v.None? then None
      else Some(Parsed(With(fields, p, k, s.(size := if f.sized then 1 else s.size, value := v.value.value)), v.value.rest))
    case Oneof =>
      var was := if f.kind.Submessage? && s.size != f.tag then DefaultValue(f, Number(0)) else s.value;
      var v := ValueFrom(f, was, input);
      if v.None? then None
      else Some(Parsed(With(fields, p, k, s.(size := f.tag, value := v.value.value)), v.value.rest))
    case Repeated =>
      var n := Count(f, p, s);
      if wire == STRING && Packable(f.kind) then
        var b := Substream(input);
        if b.None? then None
        else
          var a := PackedFrom(f, Filled(s.items, n), b.value.value);
          if a.None? then None
          else Some(Parsed(With(fields, p.(filled := if f.sized then p.filled else a.value.count), k,
                                s.(items := a.value.items)), b.value.rest))
      else if n >= f.arraySize then None
      else
        var v := ValueFrom(f, Item(s.items, n), input);
        if v.None? then None
        else Some(Parsed(With(fields, p.(filled := if f.sized then p.filled else n + 1), k,
                              s.(items := Store(s.items, n, v.value.value))), v.value.rest))
  }

  /** The loop of pb_decode_noinit. A zero where a tag is expected ends the message. */
  function FieldsFrom(fields: seq<Field>, p: Progress, input: Bytes): (r: Option<Parsed<Progress>>)
    requires Fits(fields, p)
    ensures r.Some? ==> Fits(fields, r.value.value)
    decreases |input|, 3
  {
    if input == [] then Some(Parsed(p, []))
    else
      var t := Varint32(input);
      if t.None? then None
      else if t.value.value == 0 then Some(Parsed(p, t.value.rest))
      else
        var tag, wire := t.value.value / 8, t.value.value % 8;
        var k := FieldWith(fields, tag);
        if k == |fields| then
          var r := SkipUnknown(fields, tag, wire, t.value.rest);
          if r.None? then None else FieldsFrom(fields, p, r.value)
        else
          var q := Enter(fields, p, k);
          if q.None? then None
          else
            var r := FieldFrom(fields, q.value, k, wire, t.value.rest);
            if r.None? then None else FieldsFrom(fields, r.value.value, r.value.rest)
  }

  /** The checks at the end of pb_decode_noinit. */
  predicate Complete(fields: seq<Field>, p: Progress)
    requires Fits(fields, p)
  {
    && (p.filling.Some? ==> p.filled == fields[p.filling.value].arraySize)
    && forall j :: 0 <= j < RequiredBefore(fields, |fields|) && j < MAX_REQUIRED_FIELDS ==> j in p.seen
  }

  /** pb_decode_noinit: the bytes are laid over message `m`. */
  function MessageFrom(fields: seq<Field>, m: Message, input: Bytes): (r: Option<Parsed<Message>>)
    requires |m| == SlotCount(fields)
    ensures r.Some? ==> |r.value.value| == |m|
    decreases |input|, 4
  {
    var r := FieldsFrom(fields, Progress(m, {}, None, 0), input);
    if r.None? || !Complete(fields, r.value.value) then None
    else Some(Parsed(r.value.value.message, r.value.rest))
  }

  /** pb_decode into the memory `m`. */
  function Decoded(fields: seq<Field>, m: Message, input: Bytes): Option<Parsed<Message>>
    requires |m| == SlotCount(fields)
  {
    MessageFrom(fields, Defaults(fields, m, |fields|), input)
  }
}
