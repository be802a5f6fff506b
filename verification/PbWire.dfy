/** Scalars of the Protocol Buffers wire format as nanopb reads them
    (nanopb/pb_encode.c, nanopb/pb_decode.c; Protocol Buffers Encoding,
    "Base 128 Varints" and "Signed Integers"). */
module PbWire {
  import opened Keys
  import opened Coding

  // ----- Signed integers -----

  function Zigzag(n: int): nat {
    if n < 0 then -2 * n - 1 else 2 * n
  }

  function Unzigzag(z: nat): int {
    if z % 2 == 1 then -(z / 2) - 1 else z / 2
  }

  lemma ZigzagRoundTrip(n: int, z: nat)
    ensures Unzigzag(Zigzag(n)) == n
    ensures Zigzag(Unzigzag(z)) == z
    ensures Zigzag(n) < TWO64 <==> -0x8000_0000_0000_0000 <= n < 0x8000_0000_0000_0000
  {
    if n < 0 {
      assert Zigzag(n) == 2 * (-n - 1) + 1;
    }
  }

  /** The two's complement reading of an unsigned word. */
  function Signed(v: nat, modulus: nat): int {
    if 2 * v < modulus then v else v - modulus
  }

  lemma SignedRoundTrip(n: int)
    ensures -0x8000_0000_0000_0000 <= n < 0x8000_0000_0000_0000 ==> Signed(n % TWO64, TWO64) == n
    ensures -0x8000_0000 <= n < 0x8000_0000 ==> Signed(n % TWO64 % TWO32, TWO32) == n
  {
    if -0x8000_0000_0000_0000 <= n < 0 {
      assert n % TWO64 == n + TWO64;
      if -0x8000_0000 <= n {
        assert n + TWO64 == (n + TWO32) + 0xFFFF_FFFF * TWO32;
        Residue(0xFFFF_FFFF, n + TWO32);
      }
    }
  }

  lemma Residue(q: nat, r: nat)
    requires r < TWO32
    ensures (r + q * TWO32) % TWO32 == r
  {
  }

  // ----- Varints of at most 32 bits -----

  const HIGH_BIT: nat := 0x8000_0000

  /** The loop of pb_decode_varint32_eof with byte `i` at the front of `input`.
      From the sixth byte on only a sign extension may follow. */
  function Varint32Loop(input: Bytes, i: nat, result: nat): (r: Option<Parsed<nat>>)
    ensures r.Some? ==> |r.value.rest| < |input|
  {
    if input == [] then None
    else
      var b := input[0];
      if 5 <= i && b % 128 != 0 && (result < HIGH_BIT || b != if i < 9 then 0xFF else 0x01) then None
      else
        var next := if 5 <= i then result else (result + b % 128 * Power(128, i)) % TWO32;
        if 128 <= b then Varint32Loop(input[1..], i + 1, next)
        else if i == 4 && 16 <= b then None
        else Some(Parsed(next, input[1..]))
  }

  function Varint32(input: Bytes): (r: Option<Parsed<nat>>)
    ensures r.Some? ==> |r.value.rest| < |input|
  {
    Varint32Loop(input, 0, 0)
  }

  lemma Powers128()
    ensures Power(128, 0) == 1 && Power(128, 1) == 128 && Power(128, 2) == 0x4000
    ensures Power(128, 3) == 0x20_0000 && Power(128, 4) == 0x1000_0000 && Power(128, 5) == 0x8_0000_0000
  {
    VarintPowers();
    assert Power(128, 3) == 128 * Power(128, 2);
    assert Power(128, 4) == 128 * Power(128, 3);
  }

  lemma {:induction false} ShortLoop(input: Bytes, i: nat, result: nat)
    requires i <= 4 && result < Power(128, i)
    requires ParseVarint(input, 5 - i).Some?
    ensures var v := ParseVarint(input, 5 - i).value;
      Varint32Loop(input, i, result)
        == if result + v.value * Power(128, i) < TWO32 then Some(Parsed(result + v.value * Power(128, i), v.rest)) else None
  {
    hide Power;
    Powers128();
    var b := input[0];
    var digit := b % 128;
    Digits(digit, i, result);
    assert i == 4 ==> ParseVarint(input[1..], 0).None?;
    if 128 <= b {
      ShortLoop(input[1..], i + 1, result + digit * Power(128, i));
      PlaceValue(digit, ParseVarint(input[1..], 4 - i).value.value, i);
    }
  }

  /** A seven-bit digit stays in place; only the fifth can leave the word. */
  lemma Digits(digit: nat, i: nat, result: nat)
    requires i <= 4 && digit < 128 && result < Power(128, i)
    ensures result + digit * Power(128, i) < Power(128, i + 1)
    ensures i < 4 || digit < 16 ==> (result + digit * Power(128, i)) % TWO32 == result + digit * Power(128, i)
    ensures i == 4 ==> (digit < 16 <==> result + digit * Power(128, i) < TWO32)
  {
    hide Power;
    Powers128();
    assert i == 0 || i == 1 || i == 2 || i == 3 || i == 4;
  }

  lemma PlaceValue(digit: nat, high: nat, i: nat)
    ensures digit * Power(128, i) + high * Power(128, i + 1) == (digit + 128 * high) * Power(128, i)
  {
    assert Power(128, i + 1) == 128 * Power(128, i);
    hide Power;
    Spread(digit, high, Power(128, i));
  }

  lemma Spread(digit: nat, high: nat, place: nat)
    ensures digit * place + high * (128 * place) == (digit + 128 * high) * place
  {
  }

  /** A varint of up to five bytes is read exactly, or refused because it does
      not fit 32 bits: nothing is ever truncated. */
  lemma ShortVarint32(input: Bytes)
    requires ParseVarint(input, 5).Some?
    ensures var v := ParseVarint(input, 5).value; Varint32(input) == if v.value < TWO32 then Some(v) else None
  {
    ShortLoop(input, 0, 0);
  }

  /** What the encoder writes for a number below 2^32 is read back; a larger one is refused. */
  lemma ReadsVarint32(v: nat, rest: Bytes)
    requires v < TWO32
    ensures Varint32(Varint(v) + rest) == Some(Parsed(v, rest))
  {
    VarintPowers();
    VarintRoundTrip(v, 5, rest);
    ShortVarint32(Varint(v) + rest);
  }

  /** A length or a tag that needs 33 to 35 bits is refused, whatever follows. */
  lemma RefusesLong(v: nat, rest: Bytes)
    requires TWO32 <= v < 0x8_0000_0000
    ensures Varint32(Varint(v) + rest) == None
  {
    hide Varint, Power;
    VarintPowers();
    VarintRoundTrip(v, 5, rest);
    ShortVarint32(Varint(v) + rest);
  }
}
