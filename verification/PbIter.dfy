/** The cyclic field iterator of nanopb and the setting of defaults with it
    (nanopb/pb_common.c, nanopb/pb_decode.c). */
module PbIterators {
  import opened Keys
  import opened PbMessages
  import opened PbAgreement

  /** A pb_field_iter_t; `slot` stands for the pointers pData and pSize. */
  class FieldIter {
    const fields: seq<Field>
    var pos: nat
    var slot: nat
    var requiredFieldIndex: nat

    ghost predicate Valid()
      reads this
    {
      if fields == [] then pos == 0
      else pos < |fields| && slot == SlotOf(fields, pos) && requiredFieldIndex == RequiredBefore(fields, pos)
    }

    /** pb_field_iter_begin; its result is whether there is a field. */
    constructor Begin(fields: seq<Field>)
      ensures Valid() && this.fields == fields && pos == 0
    {
      this.fields, pos, slot, requiredFieldIndex := fields, 0, 0, 0;
    }

    /** pb_field_iter_next: on to the next field, or back to the first. */
    method Next() returns (more: bool)
      requires Valid()
      modifies this
      ensures Valid()
      ensures more <==> old(pos) + 1 < |fields|
      ensures pos == if more then old(pos) + 1 else 0
    {
      if fields == [] {
        return false;
      }
      var previous := pos;
      pos := pos + 1;
      if pos == |fields| {
        pos, slot, requiredFieldIndex := 0, 0, 0;
        return false;
      }
      if fields[previous].rule.Oneof? && fields[pos].rule.Oneof? && fields[pos].joined {
        return true;
      }
      if fields[previous].rule.Required? {
        requiredFieldIndex := requiredFieldIndex + 1;
      }
      slot := slot + 1;
      more := true;
    }

    ghost predicate Passed(start: nat, wrapped: bool, k: nat)
      reads this
    {
      if wrapped then start <= k || k < pos else start <= k < pos
    }

    /** pb_field_iter_find: around the cycle once, from wherever the iterator
        stands. The terminator of an empty schema matches tag 0. */
    method Find(tag: nat) returns (found: bool)
      requires Valid()
      modifies this
      ensures Valid()
      ensures fields == [] ==> found == (tag == 0)
      ensures fields != [] ==> (found <==> exists k :: 0 <= k < |fields| && fields[k].tag == tag)
      ensures fields != [] && found ==> fields[pos].tag == tag
      ensures !found ==> pos == old(pos)
    {
      if fields == [] {
        return tag == 0;
      }
      var start := pos;
      var first := true;
      ghost var wrapped := false;
      while first || pos != start
        invariant Valid() && (first ==> pos == start && !wrapped)
        invariant if wrapped then pos <= start else start <= pos && (first || start < pos)
        invariant forall k :: 0 <= k < |fields| && Passed(start, wrapped, k) ==> fields[k].tag != tag
        decreases if wrapped then start - pos else |fields| + |fields| - pos, first
      {
        if fields[pos].tag == tag {
          return true;
        }
        first := false;
        var more := Next();
        if !more {
          wrapped := true;
        }
      }
      assert wrapped;
      found := false;
    }
  }

  /** pb_message_set_to_defaults. */
  method SetToDefaults(fields: seq<Field>, memory: Message) returns (m: Message)
    requires |memory| == SlotCount(fields)
    ensures m == Defaults(fields, memory, |fields|)
    decreases fields, 1
  {
    m := memory;
    var iter := new FieldIter.Begin(fields);
    var more := fields != [];
    ghost var done := 0;
    while more
      invariant iter.Valid() && iter.fields == fields
      invariant done <= |fields| && m == Defaults(fields, memory, done)
      invariant if more then done < |fields| && iter.pos == done else done == |fields|
      decreases |fields| - done
    {
      SlotInside(fields, iter.pos);
      var s := SetFieldToDefault(fields[iter.pos], m[iter.slot]);
      m := m[iter.slot := s];
      done := done + 1;
      more := iter.Next();
    }
  }

  /** pb_field_set_to_default on the memory of one field. */
  method SetFieldToDefault(f: Field, slot: Slot) returns (s: Slot)
    ensures s == DefaultSlot(f, slot)
    decreases f, 0
  {
    s := slot;
    var initData := true;
    if f.rule.Optional? && f.sized {
      s := s.(size := 0);
    } else if f.rule.Repeated? || f.rule.Oneof? {
      if f.rule.Oneof? {
        s := s.(size := 0);
      } else if f.sized {
        s := s.(items := []);
      }
      initData := false;
    }
    if initData {
      if f.kind.Submessage? {
        var m := SetToDefaults(f.kind.fields, Nested(f.kind.fields, s.value));
        s := s.(value := Struct(m));
      } else if f.initial.Some? {
        s := s.(value := f.initial.value);
      } else {
        s := s.(value := Zero(f));
      }
    }
  }
}
