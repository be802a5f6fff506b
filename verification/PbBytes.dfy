/** The bytes of single fields in figures (nanopb/pb_encode.c, nanopb/pb_decode.c;
    Protocol Buffers Encoding, "Base 128 Varints", "Signed Integers" and
    "Message Structure"). */
module PbBytes {
  import opened Keys
  import opened Coding
  import opened PbWire
  import opened PbMessages
  import opened PbFormat
  import opened PbAgreement
  import opened PbRoundTrip

  // ----- Writing -----

  /** The key of a field: its tag, and 0 for varints, 1 for 64 bits, 2 for
      anything with a length and 5 for 32 bits. */
  lemma KeyIs(f: Field)
    ensures Tag(f, WireOf(f.kind)) == Varint(8 * f.tag +
      if f.kind.Boolean? || f.kind.Int? || f.kind.UInt? || f.kind.SInt? then 0
      else if f.kind.Fixed64? then 1
      else if f.kind.Fixed32? then 5
      else 2)
    ensures Tag(f, STRING) == Varint(8 * f.tag + 2)
  {
  }

  /** Booleans as 0 or 1, unsigned numbers as they are, negative ones as 64-bit
      two's complement, and zigzag for sint32 and sint64. */
  lemma ScalarIs(f: Field, n: int)
    requires ValidField(f) && Packable(f.kind) && ScalarOk(f, n)
    ensures ScalarBytes(f, n) == Some(
      match f.kind
      case Boolean => [n]
      case UInt => Varint(n)
      case Int => Varint(if n < 0 then n + 0x1_0000_0000_0000_0000 else n)
      case SInt => Varint(if n < 0 then -2 * n - 1 else 2 * n)
      case Fixed32 => [n % 256, n / 256 % 256, n / 65536 % 256, n / 16777216 % 256]
      case Fixed64 => Fixed(n % 4294967296, 4) + Fixed(n / 4294967296, 4))
  {
    hide Varint, Fixed;
    match f.kind {
      case Boolean => VarintStep(n, []);
      case UInt | Int => Residues(n);
      case SInt => Residues(if n < 0 then -2 * n - 1 else 2 * n);
      case Fixed32 => Fixed32Is(n);
      case Fixed64 => Fixed64Is(n);
    }
  }

  lemma Fixed32Is(n: nat)
    requires n < 4294967296
    ensures Fixed(n % TWO32, 4) == [n % 256, n / 256 % 256, n / 65536 % 256, n / 16777216 % 256]
  {
    hide Fixed;
    FixedIs(n);
  }

  lemma Fixed64Is(n: nat)
    requires n < 18446744073709551616
    ensures Fixed(n % TWO64, 8) == Fixed(n % 4294967296, 4) + Fixed(n / 4294967296, 4)
  {
    hide Fixed;
    FixedIs(n);
    LowWord(n);
  }

  lemma Residues(n: int)
    ensures 0 <= n < TWO64 ==> n % TWO64 == n
    ensures -0x8000_0000_0000_0000 <= n < 0 ==> n % TWO64 == n + 0x1_0000_0000_0000_0000
  {
  }

  lemma LowWord(n: nat)
    ensures Fixed(n, 4) == Fixed(n % 4294967296, 4)
  {
    FourBytes(n);
    FourBytes(n % 4294967296);
    var r := n % 4294967296;
    assert n == r + 4294967296 * (n / 4294967296);
    assert n / 256 == r / 256 + 16777216 * (n / 4294967296);
    assert n / 256 / 256 == r / 256 / 256 + 65536 * (n / 4294967296);
    assert n / 256 / 256 / 256 == r / 256 / 256 / 256 + 256 * (n / 4294967296);
  }

  /** Text up to its NUL and bytes, behind their length. */
  lemma DataIs(f: Field, v: Value)
    requires ValueOk(f, v) && (f.kind.ByteArray? || f.kind.Text? || f.kind.FixedLengthBytes?)
    ensures ValueBytes(f, v).Some?
    ensures !f.kind.Text? ==> ValueBytes(f, v).value == Varint(|v.bytes|) + v.bytes
    ensures f.kind.Text? ==> exists n | 0 <= n < |v.bytes| ::
      && v.bytes[n] == 0 && (forall i | 0 <= i < n :: v.bytes[i] != 0)
      && ValueBytes(f, v).value == Varint(n) + v.bytes[..n]
  {
    hide Varint;
    if f.kind.Text? {
      var n := FirstNul(v.bytes);
      assert ValueBytes(f, v).value == Varint(n) + v.bytes[..n];
    }
  }

  lemma {:induction false} FirstNul(s: Bytes) returns (n: nat)
    requires 0 in s
    ensures n < |s| && s[n] == 0 && (forall i | 0 <= i < n :: s[i] != 0) && Terminated(s) == s[..n]
  {
    if s[0] == 0 {
      n := 0;
    } else {
      var k := FirstNul(s[1..]);
      n := k + 1;
      assert s[..n] == [s[0]] + s[1..][..k];
      forall i | 0 <= i < n ensures s[i] != 0 {
        assert i > 0 ==> s[i] == s[1..][i - 1];
      }
    }
  }

  // ----- Bounds -----

  /** What fits the C integer types of one, two, four and eight bytes. */
  lemma FitsAre(n: int, size: nat)
    ensures FitsUnsigned(n, size) <==>
      || (size == 1 && 0 <= n <= 255) || (size == 2 && 0 <= n <= 65535)
      || (size == 4 && 0 <= n <= 4294967295) || (size == 8 && 0 <= n <= 18446744073709551615)
    ensures FitsSigned(n, size) <==>
      || (size == 1 && -128 <= n <= 127) || (size == 2 && -32768 <= n <= 32767)
      || (size == 4 && -2147483648 <= n <= 2147483647)
      || (size == 8 && -9223372036854775808 <= n <= 9223372036854775807)
    ensures IntegerSize(size) <==> size == 1 || size == 2 || size == 4 || size == 8
  {
  }

  /** The number that a varint field makes of 64 bits, refused when it is out of
      the range of the field's C type. */
  lemma StoredIs(f: Field, v: nat)
    requires ValidField(f) && v < 0x1_0000_0000_0000_0000
    ensures f.kind.UInt? ==>
      Stored(f, v) == if f.dataSize == 8 || v <= [0, 255, 65535, 0, 4294967295][f.dataSize] then Some(v) else None
    ensures f.kind.SInt? ==>
      var n := if v % 2 == 0 then v / 2 else -((v + 1) / 2);
      var bound := [0, 128, 32768, 0, 2147483648, 0, 0, 0, 9223372036854775808][f.dataSize];
      Stored(f, v) == if -bound <= n < bound then Some(n) else None
    ensures f.kind.Int? && f.dataSize == 8 ==>
      Stored(f, v) == Some(if v < 0x8000_0000_0000_0000 then v else v - 0x1_0000_0000_0000_0000)
    ensures f.kind.Int? && f.dataSize < 8 ==>
      var w := v % 0x1_0000_0000;
      var n := if w < 0x8000_0000 then w else w - 0x1_0000_0000;
      var bound := [0, 128, 32768, 0, 2147483648][f.dataSize];
      Stored(f, v) == if -bound <= n < bound then Some(n) else None
  {
  }

  /** Every number but 0 is read as true. */
  lemma BoolReads(f: Field, v: nat, rest: Bytes)
    requires f.kind.Boolean? && v < 0x1_0000_0000
    ensures ScalarFrom(f, Varint(v) + rest) == Some(Parsed(Number(if v == 0 then 0 else 1), rest))
  {
    hide Varint, Varint32;
    ReadsVarint32(v, rest);
  }

  /** A bytes field has room for its four-byte size and its bytes, in both directions. */
  lemma BytesFit(f: Field, s: Bytes, was: Value, rest: Bytes)
    requires f.kind.ByteArray? && |s| < 0x1_0000_0000
    ensures ValueBytes(f, Data(s)).Some? <==> |s| + 4 <= f.dataSize
    ensures ValueFrom(f, was, Varint(|s|) + s + rest) == if |s| + 4 <= f.dataSize then Some(Parsed(Data(s), rest)) else None
  {
    hide Varint, Varint32;
    SubstreamReads(s, rest);
    assert LengthPrefixed(s) == Varint(|s|) + s;
  }

  /** Fixed-length bytes come whole, or not at all and then as zeros. */
  lemma FixedLengthFits(f: Field, s: Bytes, was: Value, rest: Bytes)
    requires f.kind.FixedLengthBytes? && |s| < 0x1_0000_0000
    ensures ValueFrom(f, was, Varint(|s|) + s + rest) ==
      if s == [] then Some(Parsed(Data(seq(f.dataSize, _ => 0)), rest))
      else if |s| == f.dataSize then Some(Parsed(Data(s), rest)) else None
  {
    hide Varint, Varint32;
    SubstreamReads(s, rest);
    assert LengthPrefixed(s) == Varint(|s|) + s;
    assert Zeros(f.dataSize) == seq(f.dataSize, _ => 0);
  }

  /** Text needs room for its NUL; what was behind it in memory stays. */
  lemma TextFits(f: Field, s: Bytes, was: Bytes, rest: Bytes)
    requires f.kind.Text? && |s| < 0x1_0000_0000 && |was| == f.dataSize
    ensures ValueFrom(f, Data(was), Varint(|s|) + s + rest) ==
      if |s| < f.dataSize then Some(Parsed(Data(s + [0] + was[|s| + 1..]), rest)) else None
  {
    hide Varint, Varint32;
    SubstreamReads(s, rest);
    assert LengthPrefixed(s) == Varint(|s|) + s;
  }

  /** A submessage that is there already is continued, a new array entry starts
      from the defaults. */
  lemma SubmessageContinues(f: Field, was: Message, s: Bytes, rest: Bytes)
    requires f.kind.Submessage? && |s| < 0x1_0000_0000 && |was| == SlotCount(f.kind.fields)
    ensures
      var start := if f.rule.Repeated? then Defaults(f.kind.fields, was, |f.kind.fields|) else was;
      var m := MessageFrom(f.kind.fields, start, s);
      ValueFrom(f, Struct(was), Varint(|s|) + s + rest)
        == if m.None? then None else Some(Parsed(Struct(m.value.value), rest))
  {
    hide Varint, Varint32, MessageFrom, Defaults;
    SubstreamReads(s, rest);
    assert LengthPrefixed(s) == Varint(|s|) + s;
  }

  // ----- Negative numbers in 32 bits -----

  /** The ten bytes of a negative number that fits 32 bits. */
  function NegativeBytes(u: nat): (b: Bytes)
    requires 0x8000_0000 <= u < 0x1_0000_0000
    ensures |b| == 10
  {
    [u % 0x80 + 128, u / 0x80 % 0x80 + 128, u / 0x4000 % 0x80 + 128, u / 0x20_0000 % 0x80 + 128,
     u / 0x1000_0000 + 240, 255, 255, 255, 255, 1]
  }

  lemma NextDigit(v: nat, quotient: nat, digit: nat, tail: Bytes)
    requires v / 128 == quotient && v % 128 == digit && v >= 128 && tail == Varint(quotient)
    ensures Varint(v) == [digit + 128] + tail
  {
  }

  lemma SignBytes()
    ensures Varint(0x1FFF_FFFF) == [255, 255, 255, 255, 1]
  {
    hide Varint;
    VarintStep(1, []);
    VarintStep(255, [1]);
    VarintStep(0x7FFF, [255, 1]);
    VarintStep(0x3F_FFFF, [255, 255, 1]);
    VarintStep(0x1FFF_FFFF, [255, 255, 255, 1]);
  }

  lemma DigitChain(v0: nat, v1: nat, v2: nat, v3: nat, v4: nat, d0: nat, d1: nat, d2: nat, d3: nat, d4: nat)
    requires v0 / 128 == v1 && v1 / 128 == v2 && v2 / 128 == v3 && v3 / 128 == v4 && v4 / 128 == 0x1FFF_FFFF
    requires v0 % 128 == d0 && v1 % 128 == d1 && v2 % 128 == d2 && v3 % 128 == d3 && v4 % 128 == d4
    ensures Varint(v0) == [d0 + 128, d1 + 128, d2 + 128, d3 + 128, d4 + 128, 255, 255, 255, 255, 1]
  {
    hide Varint;
    SignBytes();
    NextDigit(v4, 0x1FFF_FFFF, d4, Varint(0x1FFF_FFFF));
    NextDigit(v3, v4, d3, Varint(v4));
    NextDigit(v2, v3, d2, Varint(v3));
    NextDigit(v1, v2, d1, Varint(v2));
    NextDigit(v0, v1, d0, Varint(v1));
  }

  lemma NegativeIs(u: nat)
    requires 0x8000_0000 <= u < 0x1_0000_0000
    ensures Varint(u + 0xFFFF_FFFF * 0x1_0000_0000) == NegativeBytes(u)
  {
    hide Varint;
    HighDigits(u);
    var d4 := u / 0x1000_0000;
    assert (d4 + 0xF_FFFF_FFF0) / 128 == 0x1FFF_FFFF && (d4 + 0xF_FFFF_FFF0) % 128 == d4 + 112;
    DigitChain(u + 0xFFFF_FFFF * 0x1_0000_0000, u / 0x80 + 0xFFFF_FFFF * 0x200_0000, u / 0x4000 + 0xFFFF_FFFF * 0x4_0000,
               u / 0x20_0000 + 0xFFFF_FFFF * 0x800, d4 + 0xF_FFFF_FFF0,
               u % 0x80, u / 0x80 % 0x80, u / 0x4000 % 0x80, u / 0x20_0000 % 0x80, d4 + 112);
  }

  lemma HighDigits(u: nat)
    requires u < 0x1_0000_0000
    ensures (u + 0xFFFF_FFFF * 0x1_0000_0000) / 128 == u / 0x80 + 0xFFFF_FFFF * 0x200_0000
    ensures (u + 0xFFFF_FFFF * 0x1_0000_0000) % 128 == u % 0x80
    ensures (u / 0x80 + 0xFFFF_FFFF * 0x200_0000) / 128 == u / 0x4000 + 0xFFFF_FFFF * 0x4_0000
    ensures (u / 0x80 + 0xFFFF_FFFF * 0x200_0000) % 128 == u / 0x80 % 0x80
    ensures (u / 0x4000 + 0xFFFF_FFFF * 0x4_0000) / 128 == u / 0x20_0000 + 0xFFFF_FFFF * 0x800
    ensures (u / 0x4000 + 0xFFFF_FFFF * 0x4_0000) % 128 == u / 0x4000 % 0x80
    ensures (u / 0x20_0000 + 0xFFFF_FFFF * 0x800) / 128 == u / 0x1000_0000 + 0xF_FFFF_FFF0
    ensures (u / 0x20_0000 + 0xFFFF_FFFF * 0x800) % 128 == u / 0x20_0000 % 0x80
  {
  }

  /** One round of the loop before the sixth byte. */
  lemma EarlyByte(b: byte, rest: Bytes, i: nat, result: nat, place: nat)
    requires i < 5 && b >= 128 && place == Power(128, i)
    ensures Varint32Loop([b] + rest, i, result) == Varint32Loop(rest, i + 1, (result + (b - 128) * place) % TWO32)
  {
    hide Power;
    assert ([b] + rest)[1..] == rest;
  }

  lemma LateByte(rest: Bytes, i: nat, result: nat)
    requires 5 <= i < 9 && HIGH_BIT <= result
    ensures Varint32Loop([255] + rest, i, result) == Varint32Loop(rest, i + 1, result)
  {
    hide Power;
    assert ([255] + rest)[1..] == rest;
  }

  lemma LastByte(rest: Bytes, result: nat)
    requires HIGH_BIT <= result
    ensures Varint32Loop([1] + rest, 9, result) == Some(Parsed(result, rest))
  {
    hide Power;
    assert ([1] + rest)[1..] == rest;
  }

  lemma SumOfDigits(u: nat)
    requires 0x8000_0000 <= u < 0x1_0000_0000
    ensures u % 0x80 + u / 0x80 % 0x80 * 128 == u % 0x4000
    ensures u % 0x4000 + u / 0x4000 % 0x80 * 0x4000 == u % 0x20_0000
    ensures u % 0x20_0000 + u / 0x20_0000 % 0x80 * 0x20_0000 == u % 0x1000_0000
    ensures (u % 0x1000_0000 + (u / 0x1000_0000 + 112) * 0x1000_0000) % TWO32 == u
  {
    SevenMore(u, 0x80);
    SevenMore(u, 0x4000);
    SevenMore(u, 0x20_0000);
    assert u % 0x1000_0000 + (u / 0x1000_0000 + 112) * 0x1000_0000 == u + 7 * TWO32;
  }

  lemma SevenMore(u: nat, place: nat)
    requires place == 0x80 || place == 0x4000 || place == 0x20_0000
    ensures u % place + u / place % 0x80 * place == u % (0x80 * place)
  {
    if place == 0x80 {
    } else if place == 0x4000 {
    } else {
    }
  }

  /** A negative number, written in ten bytes, is read where 32 bits are wanted:
      the bytes behind the fifth may only extend its sign. */
  lemma ReadsNegative32(n: int, rest: Bytes)
    requires -0x8000_0000 <= n < 0
    ensures Varint32(Varint(n + 0x1_0000_0000_0000_0000) + rest) == Some(Parsed(n + 0x1_0000_0000, rest))
  {
    hide Varint, Varint32Loop, Power;
    var u: nat := n + 0x1_0000_0000;
    NegativeIs(u);
    SumOfDigits(u);
    NegativeLoop(u % 0x80, u / 0x80 % 0x80, u / 0x4000 % 0x80, u / 0x20_0000 % 0x80, u / 0x1000_0000 + 112,
                 u % 0x4000, u % 0x20_0000, u % 0x1000_0000, u, rest);
  }

  lemma NegativeLoop(d0: nat, d1: nat, d2: nat, d3: nat, d4: nat, s1: nat, s2: nat, s3: nat, u: nat, rest: Bytes)
    requires d0 < 128 && d1 < 128 && d2 < 128 && d3 < 128 && d4 < 128
    requires s1 == d0 + d1 * 128 && s2 == s1 + d2 * 0x4000 && s3 == s2 + d3 * 0x20_0000
    requires (s3 + d4 * 0x1000_0000) % TWO32 == u && HIGH_BIT <= u
    ensures Varint32([d0 + 128, d1 + 128, d2 + 128, d3 + 128, d4 + 128, 255, 255, 255, 255, 1] + rest) == Some(Parsed(u, rest))
  {
    hide Varint32Loop, Power;
    Powers128();
    var r5 := [255] + ([255] + ([255] + ([255] + ([1] + rest))));
    var r4 := [d4 + 128] + r5;
    var r3 := [d3 + 128] + r4;
    EarlyBytes(d0, d1, d2, s1, s2, r3);
    EarlyByte(d3 + 128, r4, 3, s2, 0x20_0000);
    EarlyByte(d4 + 128, r5, 4, s3, 0x1000_0000);
    LateBytes(rest, u);
    assert [d0 + 128, d1 + 128, d2 + 128, d3 + 128, d4 + 128, 255, 255, 255, 255, 1] + rest
        == [d0 + 128] + ([d1 + 128] + ([d2 + 128] + r3));
  }

  lemma EarlyBytes(d0: nat, d1: nat, d2: nat, s1: nat, s2: nat, r3: Bytes)
    requires d0 < 128 && d1 < 128 && d2 < 128 && s1 == d0 + d1 * 128 && s2 == s1 + d2 * 0x4000
    ensures Varint32([d0 + 128] + ([d1 + 128] + ([d2 + 128] + r3))) == Varint32Loop(r3, 3, s2)
  {
    hide Varint32Loop, Power;
    Powers128();
    var r2 := [d2 + 128] + r3;
    var r1 := [d1 + 128] + r2;
    EarlyByte(d0 + 128, r1, 0, 0, 1);
    EarlyByte(d1 + 128, r2, 1, d0, 128);
    EarlyByte(d2 + 128, r3, 2, s1, 0x4000);
  }

  lemma LateBytes(rest: Bytes, u: nat)
    requires HIGH_BIT <= u
    ensures Varint32Loop([255] + ([255] + ([255] + ([255] + ([1] + rest)))), 5, u) == Some(Parsed(u, rest))
  {
    hide Varint32Loop;
    LateByte([255] + ([255] + ([255] + ([1] + rest))), 5, u);
    LateByte([255] + ([255] + ([1] + rest)), 6, u);
    LateByte([255] + ([1] + rest), 7, u);
    LateByte([1] + rest, 8, u);
    LastByte(rest, u);
  }

  /** Behind the fifth byte only zero bits and an extension of the sign pass. */
  lemma RefusesTrailing(b: Bytes, i: nat, result: nat)
    requires 5 <= i && b != [] && b[0] % 128 != 0 && (result < 0x8000_0000 || b[0] != if i < 9 then 255 else 1)
    ensures Varint32Loop(b, i, result) == None
  {
  }
}
