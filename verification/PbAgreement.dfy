/** Which schemas and messages nanopb promises to round-trip, and what it means
    that two messages agree. */
module PbAgreement {
  import opened Keys
  import opened Coding
  import opened PbWire
  import opened PbMessages
  import opened PbFormat

  // ----- Schemas -----

  predicate ValidField(f: Field)
    decreases f, 0
  {
    && 0 < f.tag <= MAX_TAG && f.dataSize < TWO32 && f.arraySize < TWO32
    && match f.kind
       case Int | UInt | SInt => IntegerSize(f.dataSize)
       case Submessage(fs) => ValidSchema(fs)
       case _ => true
  }

  /** Distinct non-zero tags and sizes that the C types can have. */
  predicate ValidSchema(fields: seq<Field>) {
    && (forall k :: 0 <= k < |fields| ==> ValidField(fields[k]))
    && (forall j, k :: 0 <= j < k < |fields| ==> fields[j].tag != fields[k].tag)
  }

  // ----- Well-formed messages -----

  predicate ScalarOk(f: Field, n: int) {
    match f.kind
    case Boolean => n == 0 || n == 1
    case Int | SInt => FitsSigned(n, f.dataSize)
    case UInt => FitsUnsigned(n, f.dataSize)
    case Fixed32 => FitsUnsigned(n, 4)
    case Fixed64 => FitsUnsigned(n, 8)
    case _ => false
  }

  predicate ValueOk(f: Field, v: Value)
    decreases f, 0
  {
    match f.kind
    case ByteArray => v.Data? && |v.bytes| + SIZE_WIDTH <= f.dataSize
    case Text => v.Data? && |v.bytes| == f.dataSize && 0 in v.bytes
    case FixedLengthBytes => v.Data? && |v.bytes| == f.dataSize
    case Submessage(fs) => v.Struct? && MessageOk(fs, v.slots)
    case _ => v.Number? && ScalarOk(f, v.n)
  }

  predicate SlotOk(f: Field, s: Slot)
    decreases f, 1
  {
    match f.rule
    case Required => ValueOk(f, s.value)
    case Optional => (f.sized && s.size == 0) || ValueOk(f, s.value)
    case Repeated =>
      && (if f.sized then |s.items| <= f.arraySize else |s.items| == f.arraySize)
      && forall i :: 0 <= i < |s.items| ==> ValueOk(f, s.items[i])
    case Oneof => s.size == f.tag ==> ValueOk(f, s.value)
  }

  /** A union's selector is 0 or the tag of one of its members. */
  predicate SelectorOk(fields: seq<Field>, m: Message, k: nat)
    requires k < |fields| && |m| == SlotCount(fields)
  {
    var which := SlotAt(fields, m, k).size;
    which == 0 || exists j :: 0 <= j < |fields| && SlotOf(fields, j) == SlotOf(fields, k) && fields[j].tag == which
  }

  /** Counts and sizes within bounds, strings terminated, selectors valid. */
  predicate MessageOk(fields: seq<Field>, m: Message)
    decreases fields
  {
    && |m| == SlotCount(fields)
    && (forall k :: 0 <= k < |fields| ==> SlotOk(fields[k], SlotAt(fields, m, k)))
    && (forall k :: 0 <= k < |fields| && fields[k].rule.Oneof? ==> SelectorOk(fields, m, k))
  }

  // ----- Lengths -----

  predicate Short(b: Option<Bytes>) {
    b.Some? ==> |b.value| < TWO32
  }

  predicate ValueFits(f: Field, v: Value)
    decreases f, 0
  {
    f.kind.Submessage? ==>
      var fs := f.kind.fields;
      MessageFits(fs, Nested(fs, v)) && Short(MessageBytes(fs, Nested(fs, v), 0))
  }

  predicate SlotFits(f: Field, s: Slot)
    decreases f, 1
  {
    if f.rule.Repeated? then
      && (Packable(f.kind) ==> Short(ItemsBytes(f, s.items, [])))
      && forall i :: 0 <= i < |s.items| ==> ValueFits(f, s.items[i])
    else IsPresent(f, s) ==> ValueFits(f, s.value)
  }

  /** Every packed array and submessage that is written takes less than 2^32
      bytes, the longest length that the decoder reads. */
  predicate MessageFits(fields: seq<Field>, m: Message)
    requires |m| == SlotCount(fields)
    decreases fields
  {
    forall k :: 0 <= k < |fields| ==> SlotFits(fields[k], SlotAt(fields, m, k))
  }

  // ----- Agreement -----

  predicate ValueAgrees(f: Field, a: Value, b: Value)
    decreases f, 0
  {
    match f.kind
    case Text => a.Data? && b.Data? && Terminated(a.bytes) == Terminated(b.bytes)
    case Submessage(fs) => a.Struct? && b.Struct? && MessageAgrees(fs, a.slots, b.slots)
    case _ => a == b
  }

  predicate SlotAgrees(f: Field, a: Slot, b: Slot)
    decreases f, 1
  {
    match f.rule
    case Required => ValueAgrees(f, a.value, b.value)
    case Optional =>
      if f.sized then (a.size == 0 <==> b.size == 0) && (a.size != 0 ==> ValueAgrees(f, a.value, b.value))
      else ValueAgrees(f, a.value, b.value)
    case Repeated => |a.items| == |b.items| && forall i :: 0 <= i < |a.items| ==> ValueAgrees(f, a.items[i], b.items[i])
    case Oneof => a.size == b.size && (a.size == f.tag ==> ValueAgrees(f, a.value, b.value))
  }

  /** The same fields are present, with the same values, counts, has-flags and selectors. */
  predicate MessageAgrees(fields: seq<Field>, a: Message, b: Message)
    decreases fields
  {
    && |a| == |b| == SlotCount(fields)
    && forall k :: 0 <= k < |fields| ==> SlotAgrees(fields[k], SlotAt(fields, a, k), SlotAt(fields, b, k))
  }

  // ----- Memory before and after the defaults are set -----

  /** Memory laid out for the schema: fixed arrays have their length. */
  predicate ValueLaid(f: Field, v: Value)
    decreases f, 0
  {
    f.kind.Submessage? ==> v.Struct? && Laid(f.kind.fields, v.slots)
  }

  predicate SlotLaid(f: Field, s: Slot)
    decreases f, 1
  {
    match f.rule
    case Required | Optional => ValueLaid(f, s.value)
    case Repeated => !f.sized ==> |s.items| == f.arraySize && forall i :: 0 <= i < |s.items| ==> ValueLaid(f, s.items[i])
    case Oneof => true
  }

  predicate Laid(fields: seq<Field>, m: Message)
    decreases fields
  {
    && |m| == SlotCount(fields)
    && forall k :: 0 <= k < |fields| ==> SlotLaid(fields[k], SlotAt(fields, m, k))
  }

  predicate ValueFresh(f: Field, v: Value)
    decreases f, 0
  {
    match f.kind
    case Submessage(fs) => v.Struct? && Fresh(fs, v.slots)
    case _ => v == if f.initial.Some? then f.initial.value else Zero(f)
  }

  predicate SlotFresh(f: Field, s: Slot)
    decreases f, 1
  {
    match f.rule
    case Required => ValueFresh(f, s.value)
    case Optional => (f.sized ==> s.size == 0) && ValueFresh(f, s.value)
    case Repeated => if f.sized then s.items == [] else SlotLaid(f, s)
    case Oneof => s.size == 0
  }

  /** Nothing is present and every value is its default. */
  predicate Fresh(fields: seq<Field>, m: Message)
    decreases fields
  {
    && |m| == SlotCount(fields)
    && forall k :: 0 <= k < |fields| ==> SlotFresh(fields[k], SlotAt(fields, m, k))
  }

  // ----- Slots are shared by union members only -----

  lemma {:induction false} SharedSlot(fields: seq<Field>, j: nat, k: nat)
    requires j < k < |fields| && SlotOf(fields, j) == SlotOf(fields, k)
    ensures fields[j].rule.Oneof? && fields[k].rule.Oneof?
  {
    SlotsGrow(fields, j, k - 1);
    if j < k - 1 {
      SharedSlot(fields, j, k - 1);
    }
  }

  lemma {:induction false} WithSlotAt(fields: seq<Field>, m: Message, k: nat, s: Slot, j: nat)
    requires k < |fields| && j < |fields| && |m| == SlotCount(fields)
    ensures SlotAt(fields, WithSlot(fields, m, k, s), j)
         == if SlotOf(fields, j) == SlotOf(fields, k) then s else SlotAt(fields, m, j)
    ensures SlotOf(fields, j) == SlotOf(fields, k) && !fields[k].rule.Oneof? ==> j == k
  {
    hide SlotOf, SlotsBefore, SlotCount;
    SlotInside(fields, j);
    SlotInside(fields, k);
    if SlotOf(fields, j) == SlotOf(fields, k) && j != k {
      SharedSlot(fields, if j < k then j else k, if j < k then k else j);
    }
  }

  lemma {:induction false} SameSlotAt(fields: seq<Field>, m: Message, j: nat, k: nat)
    requires k < |fields| && j < |fields| && |m| == SlotCount(fields)
    requires SlotOf(fields, j) == SlotOf(fields, k)
    ensures SlotAt(fields, m, j) == SlotAt(fields, m, k)
    ensures j == k || (fields[j].rule.Oneof? && fields[k].rule.Oneof?)
  {
    if j != k {
      SharedSlot(fields, if j < k then j else k, if j < k then k else j);
    }
  }

  // ----- Defaults -----

  lemma {:induction false} ZeroLaid(f: Field)
    ensures ValueLaid(f, Zero(f))
    decreases f, 0
  {
    if f.kind.Submessage? {
      BlankLaid(f.kind.fields);
    }
  }

  lemma {:induction false} BlankLaid(fields: seq<Field>)
    ensures Laid(fields, Blank(fields, |fields|))
    decreases fields, 1
  {
    var m := Blank(fields, |fields|);
    forall k | 0 <= k < |fields| ensures SlotLaid(fields[k], SlotAt(fields, m, k)) {
      ZeroLaid(fields[k]);
      if !fields[k].rule.Oneof? {
        BlankAt(fields, |fields|, k);
      }
    }
  }

  lemma {:induction false} BlankAt(fields: seq<Field>, n: nat, k: nat)
    requires k < n <= |fields| && !fields[k].rule.Oneof?
    ensures SlotOf(fields, k) < |Blank(fields, n)|
    ensures Blank(fields, n)[SlotOf(fields, k)] == BlankSlot(fields[k])
    decreases n
  {
    SlotsGrow(fields, k, n - 1);
    if k < n - 1 {
      BlankAt(fields, n - 1, k);
    }
  }

  lemma {:induction false} DefaultValueFresh(f: Field, was: Value)
    requires ValueLaid(f, was) || was == Number(0)
    ensures ValueFresh(f, DefaultValue(f, was))
    decreases f, 0
  {
    if f.kind.Submessage? {
      BlankLaid(f.kind.fields);
      DefaultsFresh(f.kind.fields, Nested(f.kind.fields, was));
    }
  }

  /** pb_message_set_to_defaults makes any memory fresh. */
  lemma {:induction false} DefaultsFresh(fields: seq<Field>, m: Message)
    requires Laid(fields, m)
    ensures Fresh(fields, Defaults(fields, m, |fields|))
    decreases fields, |fields| + 2
  {
    DefaultsReach(fields, m, |fields|);
  }

  lemma {:induction false} DefaultsReach(fields: seq<Field>, m: Message, n: nat)
    requires Laid(fields, m) && n <= |fields|
    ensures var d := Defaults(fields, m, n);
      && (forall k :: 0 <= k < n ==> SlotFresh(fields[k], SlotAt(fields, d, k)))
      && (forall k :: n <= k < |fields| ==> SlotLaid(fields[k], SlotAt(fields, d, k)))
    decreases fields, n + 1
  {
    hide SlotOf, SlotAt, WithSlot;
    if n > 0 {
      DefaultsReach(fields, m, n - 1);
      var before, f := Defaults(fields, m, n - 1), fields[n - 1];
      var s := SlotAt(fields, before, n - 1);
      DefaultSlotFresh(f, s);
      forall k | 0 <= k < |fields|
        ensures var d := SlotAt(fields, Defaults(fields, m, n), k);
          if k < n then SlotFresh(fields[k], d) else SlotLaid(fields[k], d)
      {
        WithSlotAt(fields, before, n - 1, DefaultSlot(f, s), k);
        if SlotOf(fields, k) == SlotOf(fields, n - 1) {
          SameSlotAt(fields, before, k, n - 1);
        }
      }
    }
  }

  lemma {:induction false} DefaultSlotFresh(f: Field, s: Slot)
    requires SlotLaid(f, s)
    ensures SlotFresh(f, DefaultSlot(f, s))
    decreases f, 1
  {
    if f.rule.Required? || f.rule.Optional? {
      DefaultValueFresh(f, s.value);
    }
  }

  // ----- What comes back -----

  predicate ValueReturns(f: Field, a: Value, b: Value)
    decreases f, 0
  {
    match f.kind
    case Text => a.Data? && b.Data? && Terminated(a.bytes) == Terminated(b.bytes)
    case Submessage(fs) => a.Struct? && b.Struct? && MessageReturns(fs, a.slots, b.slots)
    case _ => a == b
  }

  predicate SlotReturns(f: Field, a: Slot, b: Slot)
    decreases f, 1
  {
    match f.rule
    case Required => ValueReturns(f, a.value, b.value)
    case Optional =>
      if f.sized then (a.size == 0 <==> b.size == 0) && (a.size != 0 ==> ValueReturns(f, a.value, b.value))
      else if IsZero(f, a) then ValueFresh(f, b.value)
      else ValueReturns(f, a.value, b.value)
    case Repeated => |a.items| == |b.items| && forall i :: 0 <= i < |a.items| ==> ValueReturns(f, a.items[i], b.items[i])
    case Oneof => a.size == b.size && (a.size == f.tag ==> ValueReturns(f, a.value, b.value))
  }

  /** `b` agrees with `a`, except that a field without a has-flag that the zero
      check leaves out is at its default in `b`. */
  predicate MessageReturns(fields: seq<Field>, a: Message, b: Message)
    decreases fields
  {
    && |a| == |b| == SlotCount(fields)
    && forall k :: 0 <= k < |fields| ==> SlotReturns(fields[k], SlotAt(fields, a, k), SlotAt(fields, b, k))
  }

  // ----- When that is agreement -----

  /** The field has no has-flag: only the zero check says whether it is written. */
  predicate Unflagged(f: Field) {
    f.rule.Optional? && !f.sized
  }

  /** The default is the zero value, that of a submessage in all its fields. */
  predicate ZeroDefault(f: Field) {
    match f.kind
    case Submessage(fs) => forall k :: 0 <= k < |fs| && Unflagged(fs[k]) ==> ZeroDefault(fs[k])
    case _ => f.initial.Some? ==> ValueAgrees(f, Zero(f), f.initial.value)
  }

  predicate ValueSurvives(f: Field, v: Value)
    decreases f, 0
  {
    f.kind.Submessage? ==> MessageSurvives(f.kind.fields, Nested(f.kind.fields, v))
  }

  predicate SlotSurvives(f: Field, s: Slot)
    decreases f, 1
  {
    if f.rule.Repeated? then forall i :: 0 <= i < |s.items| ==> ValueSurvives(f, s.items[i])
    else if IsPresent(f, s) then ValueSurvives(f, s.value)
    else Unflagged(f) ==> ZeroDefault(f)
  }

  /** Every field without a has-flag, in the message and in all submessages
      present, is written or has the zero value as its default. */
  predicate MessageSurvives(fields: seq<Field>, m: Message)
    requires |m| == SlotCount(fields)
    decreases fields
  {
    forall k :: 0 <= k < |fields| ==> SlotSurvives(fields[k], SlotAt(fields, m, k))
  }

  lemma {:induction false} TerminatedZeros(s: Bytes)
    requires forall i :: 0 <= i < |s| ==> s[i] == 0
    ensures Terminated(s) == []
  {
  }

  /** What the zero check leaves out agrees with the default exactly when that is zero. */
  lemma {:induction false} ZeroAgrees(f: Field, a: Slot, v: Value)
    requires ValidField(f) && Unflagged(f) && SlotOk(f, a) && IsZero(f, a) && ValueFresh(f, v)
    ensures ValueAgrees(f, a.value, v) <==> ZeroDefault(f)
    decreases f, 0
  {
    match f.kind {
      case Submessage(fs) => AllZeroAgrees(fs, a.value.slots, v.slots);
      case Text => TerminatedZeros(Zeros(f.dataSize));
      case _ =>
    }
  }

  lemma {:induction false} AllZeroAt(fields: seq<Field>, m: Message, k: nat, n: nat)
    requires |m| == SlotCount(fields) && k <= n < |fields| && AllZero(fields, m, k)
    ensures IsZero(fields[n], SlotAt(fields, m, n))
    decreases n - k
  {
    if k < n {
      AllZeroAt(fields, m, k + 1, n);
    }
  }

  lemma {:induction false} AllZeroAgrees(fields: seq<Field>, a: Message, b: Message)
    requires ValidSchema(fields) && MessageOk(fields, a) && AllZero(fields, a, 0) && Fresh(fields, b)
    ensures MessageAgrees(fields, a, b) <==> forall k :: 0 <= k < |fields| && Unflagged(fields[k]) ==> ZeroDefault(fields[k])
    decreases fields, 1
  {
    hide SlotAt, ValueAgrees, ValueFresh, ZeroDefault, ValueOk;
    forall k | 0 <= k < |fields|
      ensures SlotAgrees(fields[k], SlotAt(fields, a, k), SlotAt(fields, b, k))
         <==> (Unflagged(fields[k]) ==> ZeroDefault(fields[k]))
    {
      var f, s, t := fields[k], SlotAt(fields, a, k), SlotAt(fields, b, k);
      AllZeroAt(fields, a, 0, k);
      assert ValidField(f) && SlotOk(f, s) && SlotFresh(f, t);
      if Unflagged(f) {
        ZeroAgrees(f, s, t.value);
      }
    }
  }

  lemma {:induction false} ValueReturnsAgreeing(f: Field, a: Value, b: Value)
    requires ValidField(f) && ValueOk(f, a) && ValueReturns(f, a, b)
    ensures ValueAgrees(f, a, b) <==> ValueSurvives(f, a)
    decreases f, 0
  {
    if f.kind.Submessage? {
      ReturnsAgreeing(f.kind.fields, a.slots, b.slots);
    }
  }

  lemma {:induction false} SlotReturnsAgreeing(f: Field, a: Slot, b: Slot)
    requires ValidField(f) && SlotOk(f, a) && SlotReturns(f, a, b)
    ensures SlotAgrees(f, a, b) <==> SlotSurvives(f, a)
    decreases f, 1
  {
    hide ValueOk, ValueReturns, ValueAgrees, ValueSurvives, ValueFresh, ZeroDefault, IsZero, ValidField;
    if f.rule.Repeated? {
      forall i | 0 <= i < |a.items| ensures ValueAgrees(f, a.items[i], b.items[i]) <==> ValueSurvives(f, a.items[i]) {
        ValueReturnsAgreeing(f, a.items[i], b.items[i]);
      }
    } else if IsPresent(f, a) {
      ValueReturnsAgreeing(f, a.value, b.value);
    } else if Unflagged(f) {
      ZeroAgrees(f, a, b.value);
    }
  }

  /** What comes back agrees exactly when every field without a has-flag, through
      all nesting, is written or has a zero default. */
  lemma {:induction false} ReturnsAgreeing(fields: seq<Field>, a: Message, b: Message)
    requires ValidSchema(fields) && MessageOk(fields, a) && MessageReturns(fields, a, b)
    ensures |a| == SlotCount(fields)
    ensures MessageAgrees(fields, a, b) <==> MessageSurvives(fields, a)
    decreases fields, 2
  {
    hide SlotAt, SlotOk, SlotReturns, SlotAgrees, SlotSurvives, ValidField;
    forall k | 0 <= k < |fields|
      ensures SlotAgrees(fields[k], SlotAt(fields, a, k), SlotAt(fields, b, k)) <==> SlotSurvives(fields[k], SlotAt(fields, a, k))
    {
      SlotReturnsAgreeing(fields[k], SlotAt(fields, a, k), SlotAt(fields, b, k));
    }
  }

  predicate ZeroDefaultsIn(f: Field)
    decreases f, 0
  {
    (Unflagged(f) ==> ZeroDefault(f)) && (f.kind.Submessage? ==> ZeroDefaults(f.kind.fields))
  }

  /** No field without a has-flag has another default than zero. */
  predicate ZeroDefaults(fields: seq<Field>) {
    forall k :: 0 <= k < |fields| ==> ZeroDefaultsIn(fields[k])
  }

  lemma {:induction false} ValueSurviving(f: Field, v: Value)
    requires ZeroDefaultsIn(f)
    ensures ValueSurvives(f, v)
    decreases f, 0
  {
    if f.kind.Submessage? {
      ZeroDefaultsSurvive(f.kind.fields, Nested(f.kind.fields, v));
    }
  }

  /** Every message of a schema without such defaults comes back. */
  lemma {:induction false} ZeroDefaultsSurvive(fields: seq<Field>, m: Message)
    requires ZeroDefaults(fields) && |m| == SlotCount(fields)
    ensures MessageSurvives(fields, m)
    decreases fields, 1
  {
    hide SlotAt, ZeroDefault, ValueSurvives, IsPresent;
    forall k | 0 <= k < |fields| ensures SlotSurvives(fields[k], SlotAt(fields, m, k)) {
      assert ZeroDefaultsIn(fields[k]);
      forall v ensures ValueSurvives(fields[k], v) {
        ValueSurviving(fields[k], v);
      }
    }
  }
}
