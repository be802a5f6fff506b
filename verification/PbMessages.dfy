/** Field descriptors, statically allocated messages, and what nanopb writes
    and reads for them (nanopb/pb.h, nanopb/pb_encode.c, nanopb/pb_decode.c). */
module PbMessages {
  import opened Keys
  import opened Coding
  import opened PbWire

  // ----- Descriptors and memory (pb.h) -----

  datatype Rule = Required | Optional | Repeated | Oneof

  datatype Kind = Boolean | Int | UInt | SInt | Fixed32 | Fixed64
                | ByteArray | Text | Submessage(fields: seq<Field>) | FixedLengthBytes

  /** One pb_field_t. `sized` says that size_offset is not 0: the field has its
      own has-flag, count or selector. `joined` says that the data offset is
      PB_SIZE_MAX: the field continues the union of the field before it. */
  datatype Field = Field(tag: nat, rule: Rule, kind: Kind, dataSize: nat, arraySize: nat,
                         sized: bool, joined: bool, initial: Option<Value>)

  /** The memory of one value. The bytes of a Text are its whole char array, the
      bytes of a ByteArray only those in use. */
  datatype Value = Number(n: int) | Data(bytes: Bytes) | Struct(slots: seq<Slot>) {
    function Num(): int {
      if Number? then n else 0
    }

    function Chars(): Bytes {
      if Data? then bytes else []
    }
  }

  /** The memory of one field, or of all members of one union: `size` is the
      has-flag or the selector, `items` the part of an array that is in use. */
  datatype Slot = Slot(size: nat, value: Value, items: seq<Value>)

  type Message = seq<Slot>

  const SIZE_WIDTH: nat := 4  // offsetof(pb_bytes_array_t, bytes) with PB_FIELD_32BIT
  const MAX_REQUIRED_FIELDS: nat := 64
  const MAX_TAG: nat := 0x1FFF_FFFF

  predicate Packable(k: Kind) {
    !k.ByteArray? && !k.Text? && !k.Submessage? && !k.FixedLengthBytes?
  }

  /** The field at `k` shares the memory of the field before it. */
  predicate Shares(fields: seq<Field>, k: nat)
    requires k < |fields|
  {
    0 < k && fields[k - 1].rule.Oneof? && fields[k].rule.Oneof? && fields[k].joined
  }

  /** The slot that pData points at when the iterator stands on field `k`. */
  function SlotOf(fields: seq<Field>, k: nat): nat
    requires k < |fields|
  {
    if k == 0 then 0 else SlotOf(fields, k - 1) + if Shares(fields, k) then 0 else 1
  }

  function SlotsBefore(fields: seq<Field>, k: nat): nat
    requires k <= |fields|
  {
    if k == 0 then 0 else SlotOf(fields, k - 1) + 1
  }

  function SlotCount(fields: seq<Field>): nat {
    SlotsBefore(fields, |fields|)
  }

  lemma {:induction false} SlotsGrow(fields: seq<Field>, a: nat, b: nat)
    requires a <= b < |fields|
    ensures SlotOf(fields, a) <= SlotOf(fields, b)
  {
    if a < b {
      SlotsGrow(fields, a, b - 1);
    }
  }

  /** Fields share memory exactly when every one from the second to the last of
      them joins the member of a union before it. */
  lemma {:induction false} SharedMemory(fields: seq<Field>, j: nat, k: nat)
    requires j <= k < |fields|
    ensures SlotOf(fields, j) == SlotOf(fields, k) <==>
      (j < k ==> fields[j].rule == Oneof) && forall i | j < i <= k :: fields[i].rule == Oneof && fields[i].joined
  {
    if j < k {
      SharedMemory(fields, j, k - 1);
      SlotsGrow(fields, j, k - 1);
    }
  }

  /** pData stays inside the message. */
  lemma SlotInside(fields: seq<Field>, k: nat)
    requires k < |fields|
    ensures SlotOf(fields, k) < SlotCount(fields)
  {
    SlotsGrow(fields, k, |fields| - 1);
  }

  function SlotAt(fields: seq<Field>, m: Message, k: nat): Slot
    requires k < |fields| && |m| == SlotCount(fields)
  {
    SlotInside(fields, k);
    m[SlotOf(fields, k)]
  }

  function WithSlot(fields: seq<Field>, m: Message, k: nat, s: Slot): (r: Message)
    requires k < |fields| && |m| == SlotCount(fields)
    ensures |r| == |m|
  {
    SlotInside(fields, k);
    m[SlotOf(fields, k) := s]
  }

  /** required_field_index when the iterator stands on field `k`. */
  function RequiredBefore(fields: seq<Field>, k: nat): nat
    requires k <= |fields|
  {
    if k == 0 then 0 else RequiredBefore(fields, k - 1) + if fields[k - 1].rule.Required? then 1 else 0
  }

  // ----- Initial memory -----

  function Zeros(n: nat): (r: Bytes)
    ensures |r| == n
  {
    seq(n, i => 0)
  }

  function Zero(f: Field): Value
    decreases f, 0
  {
    match f.kind
    case ByteArray => Data([])
    case Text => Data(Zeros(f.dataSize))
    case FixedLengthBytes => Data(Zeros(f.dataSize))
    case Submessage(fs) => Struct(Blank(fs, |fs|))
    case _ => Number(0)
  }

  /** Zeroed memory for the first `n` fields. */
  function Blank(fields: seq<Field>, n: nat): (m: Message)
    requires n <= |fields|
    ensures |m| == SlotsBefore(fields, n)
    decreases fields, n
  {
    if n == 0 then []
    else
      var before := Blank(fields, n - 1);
      var f := fields[n - 1];
      if Shares(fields, n - 1) then before else before + [BlankSlot(f)]
  }

  function BlankSlot(f: Field): Slot
    decreases f, 1
  {
    Slot(0, Zero(f), if f.rule.Repeated? && !f.sized then seq(f.arraySize, i => Zero(f)) else [])
  }

  /** The submessage in `v`; memory last used by another union member reads as zeros. */
  function Nested(fields: seq<Field>, v: Value): (m: Message)
    ensures |m| == SlotCount(fields)
  {
    if v.Struct? && |v.slots| == SlotCount(fields) then v.slots else Blank(fields, |fields|)
  }

  function DefaultValue(f: Field, was: Value): Value
    decreases f, 0
  {
    match f.kind
    case Submessage(fs) => Struct(Defaults(fs, Nested(fs, was), |fs|))
    case _ => if f.initial.Some? then f.initial.value else Zero(f)
  }

  function DefaultSlot(f: Field, s: Slot): Slot
    decreases f, 1
  {
    match f.rule
    case Required => s.(value := DefaultValue(f, s.value))
    case Optional => s.(size := if f.sized then 0 else s.size, value := DefaultValue(f, s.value))
    case Repeated => if f.sized then s.(items := []) else s
    case Oneof => s.(size := 0)
  }

  /** pb_message_set_to_defaults after `n` fields. */
  function Defaults(fields: seq<Field>, m: Message, n: nat): (r: Message)
    requires n <= |fields| && |m| == SlotCount(fields)
    ensures |r| == |m|
    decreases fields, n
  {
    if n == 0 then m
    else
      var before := Defaults(fields, m, n - 1);
      WithSlot(fields, before, n - 1, DefaultSlot(fields[n - 1], SlotAt(fields, before, n - 1)))
  }
}
