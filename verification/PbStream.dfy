/** nanopb's byte streams and their varint loops (nanopb/pb_encode.c,
    nanopb/pb_decode.c). */
module PbStreams {
  import opened Keys
  import opened Coding
  import opened PbWire
  import opened PbFormat

  // ----- Output -----

  /** The bytes so far and the varint of what is left spell the whole; at the
      end the last byte still has its high bit. */
  ghost predicate Filled(data: Bytes, v: nat, value: nat) {
    if v != 0 then data + Varint(v) == Varint(value)
    else
      var n := |data| - 1;
      data != [] && data[n] >= 128 && data[..n] + [data[n] - 128] == Varint(value)
  }

  lemma FillsByte(data: Bytes, v: nat, value: nat)
    requires Filled(data, v, value) && v != 0
    ensures Filled(data + [v % 128 + 128], v / 128, value)
  {
    var next := data + [v % 128 + 128];
    assert next[..|data|] == data;
    if v < 128 {
      assert Varint(v) == [v];
    } else {
      assert Varint(v) == [v % 128 + 128] + Varint(v / 128);
      assert next + Varint(v / 128) == data + ([v % 128 + 128] + Varint(v / 128));
    }
  }

  /** The buffer that pb_encode_varint fills. */
  method VarintBuffer(value: nat) returns (data: Bytes)
    ensures data == Varint(value)
  {
    data := [];
    if value <= 0x7F {
      return [value];
    }
    var v := value;
    assert Filled([], value, value) by { assert [] + Varint(value) == Varint(value); }
    while v != 0
      invariant Filled(data, v, value)
      decreases v
    {
      hide Filled;
      FillsByte(data, v, value);
      data := data + [v % 128 + 128];
      v := v / 128;
    }
    hide Varint;
    ghost var last := data[|data| - 1];
    data := data[|data| - 1 := data[|data| - 1] - 128];
    assert data == data[..|data| - 1] + [last - 128];
  }

  /** A pb_ostream_t. Without a buffer it only counts the bytes (PB_OSTREAM_SIZING). */
  class OutStream {
    const buffer: array?<byte>
    const maxSize: nat
    var state: nat
    var bytesWritten: nat

    ghost predicate Valid()
      reads this
    {
      buffer != null ==> bytesWritten <= maxSize && state + (maxSize - bytesWritten) <= buffer.Length
    }

    ghost function Contents(): Bytes
      requires Valid()
      reads this, buffer
    {
      if buffer == null then [] else buffer[..state]
    }

    /** Whether the stream, with `n` bytes written, takes `data`. */
    ghost predicate Takes(n: nat, data: Option<Bytes>) {
      data.Some? && (buffer == null || n + |data.value| <= maxSize)
    }

    constructor FromBuffer(buffer: array<byte>, start: nat, size: nat)
      requires start + size <= buffer.Length
      ensures Valid() && this.buffer == buffer && maxSize == size && state == start && bytesWritten == 0
    {
      this.buffer, maxSize, state, bytesWritten := buffer, size, start, 0;
    }

    constructor Sizing()
      ensures Valid() && buffer == null && bytesWritten == 0
    {
      buffer, maxSize, state, bytesWritten := null, 0, 0, 0;
    }

    method Write(data: Bytes) returns (ok: bool)
      requires Valid()
      modifies this`state, this`bytesWritten, buffer
      ensures Valid()
      ensures ok <==> Takes(old(bytesWritten), Some(data))
      ensures ok ==> bytesWritten == old(bytesWritten) + |data|
      ensures ok && buffer != null ==> Contents() == old(Contents()) + data
    {
      if |data| > 0 && buffer != null {
        if bytesWritten + |data| > maxSize {
          return false;
        }
        var i := 0;
        while i < |data|
          modifies buffer
          invariant i <= |data|
          invariant buffer[..state] == old(buffer[..state])
          invariant buffer[state..state + i] == data[..i]
        {
          buffer[state + i] := data[i];
          i := i + 1;
        }
        assert data[..|data|] == data;
        assert buffer[..state + |data|] == buffer[..state] + buffer[state..state + |data|];
        state := state + |data|;
      }
      bytesWritten := bytesWritten + |data|;
      ok := true;
    }

    /** pb_write with a null buffer: only the count grows. */
    method WriteSize(count: nat)
      requires Valid() && buffer == null
      modifies this`bytesWritten
      ensures Valid() && bytesWritten == old(bytesWritten) + count
    {
      bytesWritten := bytesWritten + count;
    }

    /** pb_encode_varint: every byte gets its high bit, and the last one loses it again. */
    method EncodeVarint(value: nat) returns (ok: bool)
      requires Valid()
      modifies this`state, this`bytesWritten, buffer
      ensures Valid()
      ensures ok <==> Takes(old(bytesWritten), Some(Varint(value)))
      ensures ok ==> bytesWritten == old(bytesWritten) + |Varint(value)|
      ensures ok && buffer != null ==> Contents() == old(Contents()) + Varint(value)
    {
      var data := VarintBuffer(value);
      ok := Write(data);
    }

    /** pb_encode_svarint: the zigzag form of a two's complement word. */
    method EncodeSvarint(value: int) returns (ok: bool)
      requires Valid()
      modifies this`state, this`bytesWritten, buffer
      ensures Valid()
      ensures ok <==> Takes(old(bytesWritten), Some(Varint(Zigzag(value) % TWO64)))
      ensures ok ==> bytesWritten == old(bytesWritten) + |Varint(Zigzag(value) % TWO64)|
      ensures ok && buffer != null ==> Contents() == old(Contents()) + Varint(Zigzag(value) % TWO64)
    {
      var doubled := 2 * value % TWO64;
      var zigzagged := if value < 0 then TWO64 - 1 - doubled else doubled;
      Complement(2 * value);
      ok := EncodeVarint(zigzagged);
    }

    /** pb_encode_string. */
    method EncodeString(data: Bytes) returns (ok: bool)
      requires Valid()
      modifies this`state, this`bytesWritten, buffer
      ensures Valid()
      ensures ok <==> Takes(old(bytesWritten), Some(LengthPrefixed(data)))
      ensures ok ==> bytesWritten == old(bytesWritten) + |LengthPrefixed(data)|
      ensures ok && buffer != null ==> Contents() == old(Contents()) + LengthPrefixed(data)
    {
      hide Varint;
      ok := EncodeVarint(|data|);
      if ok {
        ok := Write(data);
      }
    }
  }

  /** All bits flipped: minus one, then negated, in a 64-bit word. */
  lemma Complement(v: int)
    ensures (-v - 1) % TWO64 == TWO64 - 1 - v % TWO64
  {
    var q, r := v / 0x1_0000_0000_0000_0000, v % 0x1_0000_0000_0000_0000;
    assert -v - 1 == (-q - 1) * 0x1_0000_0000_0000_0000 + (0xFFFF_FFFF_FFFF_FFFF - r);
  }

  // ----- Input -----

  /** A pb_istream_t over memory. */
  class InStream {
    const memory: Bytes
    var state: nat
    var bytesLeft: nat

    ghost predicate Valid()
      reads this
    {
      state + bytesLeft <= |memory|
    }

    ghost function Left(): (left: Bytes)
      requires Valid()
      reads this
      ensures |left| == bytesLeft
    {
      memory[state..state + bytesLeft]
    }

    /** The outcome of reading by `parse` what was `left` before. */
    ghost predicate Reads<T>(parsed: Option<Parsed<T>>, ok: bool, value: T)
      requires Valid()
      reads this
    {
      ok == parsed.Some? && (ok ==> value == parsed.value.value && Left() == parsed.value.rest)
    }

    constructor FromBuffer(memory: Bytes, state: nat, size: nat)
      requires state + size <= |memory|
      ensures Valid() && this.memory == memory && this.state == state && bytesLeft == size
      ensures Left() == memory[state..state + size]
    {
      this.memory, this.state, bytesLeft := memory, state, size;
    }

    /** pb_read. */
    method Read(count: nat) returns (ok: bool, data: Bytes)
      requires Valid()
      modifies this
      ensures Valid() && bytesLeft <= old(bytesLeft)
      ensures Reads(Take(old(Left()), count), ok, data)
    {
      data := [];
      if count == 0 {
        assert Left()[0..] == Left() && Left()[..0] == [];
        return true, data;
      }
      if bytesLeft < count {
        return false, data;
      }
      data := memory[state..state + count];
      ghost var left := Left();
      assert left[..count] == data && left[count..] == memory[state + count..state + bytesLeft];
      state := state + count;
      bytesLeft := bytesLeft - count;
      ok := true;
    }

    /** pb_readbyte. */
    method ReadByte() returns (ok: bool, b: byte)
      requires Valid()
      modifies this
      ensures Valid()
      ensures ok == (old(Left()) != [])
      ensures ok ==> b == old(Left())[0] && Left() == old(Left())[1..] && bytesLeft < old(bytesLeft)
      ensures !ok ==> Left() == []
    {
      b := 0;
      if bytesLeft == 0 {
        return false, b;
      }
      b := memory[state];
      state := state + 1;
      bytesLeft := bytesLeft - 1;
      ok := true;
    }

    /** pb_decode_varint32_eof, without the end-of-file flag: its callers have bytes left. */
    method DecodeVarint32() returns (ok: bool, dest: nat)
      requires Valid()
      modifies this
      ensures Valid() && bytesLeft <= old(bytesLeft)
      ensures Reads(Varint32(old(Left())), ok, dest)
      ensures ok ==> bytesLeft < old(bytesLeft)
    {
      hide Power, Varint32Loop;
      dest := 0;
      var b: byte;
      ghost var input := Left();
      LoopStep(input, 0, 0);
      ok, b := ReadByte();
      if !ok {
        return;
      }
      Powers128();
      if b < 128 {
        dest := b;
        return;
      }
      var i: nat, place: nat, result: nat := 1, 128, b - 128;
      assert Varint32Loop(Left(), i, result) == Varint32(input);
      while b >= 128
        invariant Valid() && bytesLeft < old(bytesLeft)
        invariant place == Power(128, i) && 1 <= i
        invariant if b >= 128 then Varint32Loop(Left(), i, result) == Varint32(input)
                  else Varint32(input) == if i == 5 && 16 <= b then None else Some(Parsed(result, Left()))
        decreases bytesLeft, b
      {
        LoopStep(Left(), i, result);
        ok, b := ReadByte();
        if !ok {
          return;
        }
        if i >= 5 {
          var signExtension := if i < 9 then 0xFF else 0x01;
          if b % 128 != 0 && (result < HIGH_BIT || b != signExtension) {
            return false, dest;
          }
        } else {
          result := (result + b % 128 * place) % TWO32;
        }
        place := 128 * place;
        NextPower(i);
        i := i + 1;
      }
      if i == 5 && b % 128 >= 16 {
        return false, dest;
      }
      return true, result;
    }

    /** pb_decode_varint: up to ten bytes, what does not fit 64 bits is lost. */
    method DecodeVarint() returns (ok: bool, dest: nat)
      requires Valid()
      modifies this
      ensures Valid() && bytesLeft <= old(bytesLeft)
      ensures Reads(GetVarint64(old(Left())), ok, dest)
      ensures ok ==> bytesLeft < old(bytesLeft)
    {
      hide ParseVarint, Term, Wrap, Shifted;
      dest := 0;
      var result: nat, place: nat, i: nat := 0, 1, 0;
      ghost var whole: nat, input := 0, Left();
      var b: byte := 128;
      StartsWhole(input);
      while b >= 128
        invariant Valid() && bytesLeft <= old(bytesLeft) && i <= 10 && (i == 0 || bytesLeft < old(bytesLeft))
        invariant b < 128 ==> 0 < i
        invariant result == Wrap(whole, TWO64)
        invariant ParseVarint(input, 10)
               == if b >= 128 then Shifted(whole, place, ParseVarint(Left(), 10 - i)) else Some(Parsed(whole, Left()))
        decreases bytesLeft, b
      {
        ghost var left := Left();
        if i >= 10 {
          NoMore(left, whole, place);
          return false, dest;
        }
        ok, b := ReadByte();
        if !ok {
          NoneLeft(left, 10 - i, whole, place);
          return;
        }
        DecodeStep(left, 0, 10 - i, whole, place);
        assert left[0..] == left;
        TermWraps(whole, Term(b, place), TWO64);
        result := Wrap(result + Wrap(Term(b, place), TWO64), TWO64);
        whole := whole + Term(b, place);
        place := place * 128;
        i := i + 1;
      }
      WrapsParsed(whole, Left(), TWO64);
      return true, result;
    }

    /** pb_make_string_substream and the caller's pb_close_string_substream: the
        stream moves past the bytes, which the caller reads on their own. */
    method MakeSubstream() returns (ok: bool, substream: InStream)
      requires Valid()
      modifies this
      ensures Valid() && bytesLeft <= old(bytesLeft)
      ensures fresh(substream) && substream.Valid()
      ensures Reads(Substream(old(Left())), ok, substream.Left())
      ensures ok ==> substream.bytesLeft + bytesLeft < old(bytesLeft)
    {
      hide Varint32;
      var size;
      ok, size := DecodeVarint32();
      ghost var left := Left();
      substream := new InStream.FromBuffer(memory, state, 0);
      if !ok {
        return;
      }
      if bytesLeft < size {
        return false, substream;
      }
      substream := new InStream.FromBuffer(memory, state, size);
      assert left[..size] == memory[state..state + size];
      assert left[size..] == memory[state + size..state + bytesLeft];
      state := state + size;
      bytesLeft := bytesLeft - size;
      ok := true;
    }
  }

  /** One turn of the 32-bit loop. */
  lemma LoopStep(left: Bytes, i: nat, result: nat)
    ensures left == [] ==> Varint32Loop(left, i, result) == None
    ensures left != [] ==>
      var b := left[0];
      var place := Power(128, i);
      var next := if 5 <= i then result else (result + b % 128 * place) % TWO32;
      Varint32Loop(left, i, result)
        == if 5 <= i && b % 128 != 0 && (result < HIGH_BIT || b != if i < 9 then 0xFF else 0x01) then None
           else if 128 <= b then Varint32Loop(left[1..], i + 1, next)
           else if i == 4 && 16 <= b then None
           else Some(Parsed(next, left[1..]))
  {
  }

  lemma NextPower(i: nat)
    ensures Power(128, i + 1) == 128 * Power(128, i)
  {
  }

  lemma StartsWhole(input: Bytes)
    ensures ParseVarint(input, 10) == Shifted(0, 1, ParseVarint(input, 10)) && Wrap(0, TWO64) == 0
  {
  }

  lemma NoMore(left: Bytes, whole: nat, place: nat)
    ensures Shifted(whole, place, ParseVarint(left, 0)) == None
  {
  }

  lemma NoneLeft(left: Bytes, n: nat, whole: nat, place: nat)
    requires left == []
    ensures Shifted(whole, place, ParseVarint(left, n)) == None
  {
  }
}
