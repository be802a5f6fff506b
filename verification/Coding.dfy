/** Fixed-width and variable-width integers and length-prefixed strings
    (util/coding.h, util/coding.cc). */
module Coding {
  import opened Keys

  const TWO32: nat := 0x1_0000_0000
  const TWO64: nat := 0x1_0000_0000_0000_0000

  function Power(base: nat, n: nat): (r: nat)
    ensures 0 < base ==> 0 < r
  {
    if n == 0 then 1 else base * Power(base, n - 1)
  }

  // ----- Fixed width, little endian -----

  function Fixed(v: nat, n: nat): (r: Bytes)
    ensures |r| == n
  {
    if n == 0 then [] else [v % 256] + Fixed(v / 256, n - 1)
  }

  function Unfixed(b: Bytes): nat {
    if b == [] then 0 else b[0] + 256 * Unfixed(b[1..])
  }

  lemma {:induction false} FixedRoundTrip(v: nat, n: nat)
    requires v < Power(256, n)
    ensures Unfixed(Fixed(v, n)) == v
  {
    if n > 0 {
      FixedRoundTrip(v / 256, n - 1);
      assert Fixed(v, n)[1..] == Fixed(v / 256, n - 1);
    }
  }

  lemma {:induction false} UnfixedBound(b: Bytes)
    ensures Unfixed(b) < Power(256, |b|)
  {
    if b != [] {
      UnfixedBound(b[1..]);
    }
  }

  lemma {:induction false} UnfixedRoundTrip(b: Bytes)
    ensures Fixed(Unfixed(b), |b|) == b
  {
    if b != [] {
      UnfixedRoundTrip(b[1..]);
      LastDigit(b[0], Unfixed(b[1..]));
      assert b == [b[0]] + b[1..];
    }
  }

  lemma LastDigit(digit: byte, rest: nat)
    ensures (digit + 256 * rest) % 256 == digit && (digit + 256 * rest) / 256 == rest
  {
  }

  lemma Powers()
    ensures Power(256, 4) == TWO32 && Power(256, 8) == TWO64
  {
    assert Power(256, 2) == 65536;
    assert Power(256, 3) == 256 * Power(256, 2);
    assert Power(256, 4) == 256 * Power(256, 3);
    assert Power(256, 5) == 256 * Power(256, 4);
    assert Power(256, 6) == 256 * Power(256, 5);
    assert Power(256, 7) == 256 * Power(256, 6);
    assert Power(256, 8) == 256 * Power(256, 7);
  }

  /** The bytes in figures, least significant first. */
  lemma FixedIs(v: nat)
    ensures Fixed(v, 4) == [v % 256, v / 256 % 256, v / 65536 % 256, v / 16777216 % 256]
    ensures Fixed(v, 8) == Fixed(v, 4) + Fixed(v / 4294967296, 4)
  {
    hide Fixed;
    assert v / 256 / 256 == v / 65536 && v / 65536 / 256 == v / 16777216 && v / 16777216 / 256 == v / 4294967296;
    FourBytes(v);
    EightBytes(v);
  }

  lemma FourBytes(v: nat)
    ensures Fixed(v, 4) == [v % 256, v / 256 % 256, v / 256 / 256 % 256, v / 256 / 256 / 256 % 256]
  {
    assert Fixed(v / 256 / 256 / 256, 1) == [v / 256 / 256 / 256 % 256];
    assert Fixed(v / 256 / 256, 2) == [v / 256 / 256 % 256] + Fixed(v / 256 / 256 / 256, 1);
    assert Fixed(v / 256, 3) == [v / 256 % 256] + Fixed(v / 256 / 256, 2);
  }

  lemma EightBytes(v: nat)
    ensures Fixed(v, 8) == Fixed(v, 4) + Fixed(v / 256 / 256 / 256 / 256, 4)
  {
    hide Fixed;
    var a, b, c, d := v, v / 256, v / 256 / 256, v / 256 / 256 / 256;
    FixedStep(a, 8);
    FixedStep(b, 7);
    FixedStep(c, 6);
    FixedStep(d, 5);
    FourBytes(v);
  }

  lemma FixedStep(v: nat, n: nat)
    requires 0 < n
    ensures Fixed(v, n) == [v % 256] + Fixed(v / 256, n - 1)
  {
  }

  // ----- Variable width -----

  /** Seven bits a byte, lowest first; all but the last byte have the high bit. */
  function Varint(v: nat): (r: Bytes)
    ensures r != []
  {
    if v < 128 then [v] else [v % 128 + 128] + Varint(v / 128)
  }

  /** The bytes in figures: the digits of the number to the base 128, lowest
      first, with 128 added to all but the last, which is 0 for the number 0 only. */
  lemma {:induction false} VarintDigits(v: nat, i: nat)
    requires i < |Varint(v)|
    ensures Varint(v)[i] as int == v / Power(128, i) % 128 + if i + 1 < |Varint(v)| then 128 else 0
    ensures v / Power(128, |Varint(v)| - 1) < 128
    ensures 0 < v ==> 0 < Varint(v)[|Varint(v)| - 1]
  {
    if v >= 128 {
      VarintDigits(v / 128, if i == 0 then 0 else i - 1);
      Quotient128(v, |Varint(v)| - 1);
      if i > 0 {
        Quotient128(v, i);
      }
    }
  }

  lemma Quotient128(v: nat, i: nat)
    requires 0 < i
    ensures v / 128 / Power(128, i - 1) == v / Power(128, i)
  {
    assert Power(128, i) == 128 * Power(128, i - 1);
    DivideTwice(v, 128, Power(128, i - 1));
  }

  lemma DivideTwice(v: nat, a: nat, b: nat)
    requires 0 < a && 0 < b
    ensures 0 < a * b && v / a / b == v / (a * b)
  {
    AtLeastOnce(b, a);
    var q, r := v / a / b, v / a % b;
    var w := v / a;
    assert w == q * b + r;
    assert v == w * a + v % a;
    Distributes(q * b, r, a);
    assert v == q * b * a + (r * a + v % a);
    assert q * b * a == q * (a * b);
    BelowProduct(r, v % a, a, b);
    DividesTo(v, a * b, q, r * a + v % a);
  }

  lemma BelowProduct(r: nat, s: nat, a: nat, b: nat)
    requires r < b && s < a
    ensures r * a + s < a * b
  {
    AtLeastOnce(b - r, a);
    Distributes(r, b - r, a);
  }

  lemma DividesTo(v: nat, d: nat, q: nat, r: nat)
    requires 0 < d && v == q * d + r && r < d
    ensures v / d == q
  {
    DividesOnce(v, d);
    SameResidue2(q, r, v / d, v % d, d);
  }

  lemma SameResidue2(p: int, r: nat, q: int, s: nat, m: nat)
    requires r < m && s < m && p * m + r == q * m + s
    ensures p == q
  {
    Distributes(p, q - p, m);
    AtLeastOnce(q - p, m);
    AtLeastOnce(p - q, m);
    Distributes(q, p - q, m);
  }

  method EncodeVarint32(v: nat) returns (r: Bytes)
    requires v < TWO32
    ensures r == Varint(v)
  {
    hide Varint;
    Quotients(v);
    var a, b, c, d := v / 0x80, v / 0x4000, v / 0x20_0000, v / 0x1000_0000;
    if v < 0x80 {
      r := [v];
    } else if v < 0x4000 {
      r := [v % 128 + 128, a];
      VarintStep(a, []);
    } else if v < 0x20_0000 {
      r := [v % 128 + 128, a % 128 + 128, b];
      VarintStep(b, []);
      VarintStep(a, [b]);
    } else if v < 0x1000_0000 {
      r := [v % 128 + 128, a % 128 + 128, b % 128 + 128, c];
      VarintStep(c, []);
      VarintStep(b, [c]);
      VarintStep(a, [b % 128 + 128, c]);
    } else {
      r := [v % 128 + 128, a % 128 + 128, b % 128 + 128, c % 128 + 128, d];
      VarintStep(d, []);
      VarintStep(c, [d]);
      VarintStep(b, [c % 128 + 128, d]);
      VarintStep(a, [b % 128 + 128, c % 128 + 128, d]);
    }
    VarintStep(v, r[1..]);
  }

  lemma VarintStep(v: nat, tail: Bytes)
    requires 128 <= v ==> tail == Varint(v / 128)
    ensures Varint(v) == if v < 128 then [v] else [v % 128 + 128] + tail
  {
  }

  lemma Quotients(v: nat)
    requires v < TWO32
    ensures var a, b, c, d := v / 0x80, v / 0x4000, v / 0x20_0000, v / 0x1000_0000;
      && b == a / 128 && c == b / 128 && d == c / 128
      && (a < 128 <==> v < 0x4000) && (b < 128 <==> v < 0x20_0000) && (c < 128 <==> v < 0x1000_0000) && d < 128
  {
  }

  method EncodeVarint64(value: nat) returns (r: Bytes)
    requires value < TWO64
    ensures r == Varint(value)
  {
    var v := value;
    r := [];
    while v >= 128
      invariant r + Varint(v) == Varint(value)
    {
      r := r + [v % 128 + 128];
      v := v / 128;
    }
    r := r + [v];
  }

  method VarintLength(value: nat) returns (len: nat)
    ensures len == |Varint(value)|
  {
    var v := value;
    len := 1;
    while v >= 128
      invariant len + |Varint(v)| == 1 + |Varint(value)|
    {
      v := v / 128;
      len := len + 1;
    }
  }

  datatype Parsed<+T> = Parsed(value: T, rest: Bytes)

  /** The number that at most `n` bytes of input spell, before truncation. */
  function ParseVarint(input: Bytes, n: nat): (r: Option<Parsed<nat>>)
    ensures r.Some? ==> |r.value.rest| < |input|
  {
    if n == 0 || input == [] then None
    else if input[0] < 128 then Some(Parsed(input[0], input[1..]))
    else
      var tail := ParseVarint(input[1..], n - 1);
      if tail.None? then None
      else Some(Parsed(input[0] - 128 + 128 * tail.value.value, tail.value.rest))
  }

  lemma {:induction false} VarintRoundTrip(v: nat, n: nat, rest: Bytes)
    requires 0 < n && v < Power(128, n)
    ensures ParseVarint(Varint(v) + rest, n) == Some(Parsed(v, rest))
  {
    var input := Varint(v) + rest;
    assert n == 1 ==> Power(128, n) == 128;
    if v < 128 {
      assert input[1..] == rest;
    } else {
      VarintRoundTrip(v / 128, n - 1, rest);
      assert input[1..] == Varint(v / 128) + rest;
    }
  }

  function Truncated(r: Option<Parsed<nat>>, modulus: nat): (t: Option<Parsed<nat>>)
    requires 0 < modulus
    ensures t.Some? ==> t.value.value < modulus
  {
    if r.None? then None else Some(Parsed(r.value.value % modulus, r.value.rest))
  }

  function GetVarint32(input: Bytes): Option<Parsed<nat>> {
    Truncated(ParseVarint(input, 5), TWO32)
  }

  function GetVarint64(input: Bytes): Option<Parsed<nat>> {
    Truncated(ParseVarint(input, 10), TWO64)
  }

  lemma VarintPowers()
    ensures Power(128, 5) == 0x8_0000_0000 && Power(128, 10) == 0x40_0000_0000_0000_0000
  {
    assert Power(128, 3) == 128 * Power(128, 2);
    assert Power(128, 4) == 128 * Power(128, 3);
    assert Power(128, 5) == 128 * Power(128, 4);
    assert Power(128, 6) == 128 * Power(128, 5);
    assert Power(128, 7) == 128 * Power(128, 6);
    assert Power(128, 8) == 128 * Power(128, 7);
    assert Power(128, 9) == 128 * Power(128, 8);
    assert Power(128, 10) == 128 * Power(128, 9);
  }

  lemma {:induction false} TooLong(v: nat, n: nat, rest: Bytes)
    requires 0 < n && Power(128, n) <= v
    ensures ParseVarint(Varint(v) + rest, n) == None
  {
    var input := Varint(v) + rest;
    if n == 1 {
      assert Power(128, 1) == 128;
    } else {
      AtLeastOnce(Power(128, n - 1), 128);
      TooLong(v / 128, n - 1, rest);
    }
    assert input[1..] == Varint(v / 128) + rest;
  }

  /** Numbers of up to 35 or 70 bits are cut to the word, longer ones refused. */
  lemma CutsVarint(v: nat, rest: Bytes)
    ensures GetVarint32(Varint(v) + rest) == if v < 34359738368 then Some(Parsed(v % 4294967296, rest)) else None
    ensures GetVarint64(Varint(v) + rest)
         == if v < 1180591620717411303424 then Some(Parsed(v % 18446744073709551616, rest)) else None
  {
    hide Power, ParseVarint, Varint;
    VarintPowers();
    if v < Power(128, 5) {
      VarintRoundTrip(v, 5, rest);
    } else {
      TooLong(v, 5, rest);
    }
    if v < Power(128, 10) {
      VarintRoundTrip(v, 10, rest);
    } else {
      TooLong(v, 10, rest);
    }
  }

  lemma GetsVarint32(v: nat, rest: Bytes)
    requires v < TWO32
    ensures GetVarint32(Varint(v) + rest) == Some(Parsed(v, rest))
  {
    hide Power, ParseVarint, Varint;
    VarintPowers();
    VarintRoundTrip(v, 5, rest);
  }

  lemma GetsVarint64(v: nat, rest: Bytes)
    requires v < TWO64
    ensures GetVarint64(Varint(v) + rest) == Some(Parsed(v, rest))
  {
    hide Power, ParseVarint, Varint;
    VarintPowers();
    VarintRoundTrip(v, 10, rest);
  }

  /** A byte's seven bits at their place, as the decoding loops or them in. */
  function Term(b: byte, place: nat): nat {
    b % 128 * place
  }

  function Wrap(v: nat, modulus: nat): (w: nat)
    requires 0 < modulus
    ensures w < modulus
  {
    v % modulus
  }

  /** The decoding loops: bytes are or-ed in at growing shifts, and what is
      shifted out of the word is lost. The bits are disjoint, so or is plus. */
  method DecodeVarint(input: Bytes, maxBytes: nat, modulus: nat) returns (r: Option<Parsed<nat>>)
    requires modulus == TWO32 || modulus == TWO64
    ensures r == Truncated(ParseVarint(input, maxBytes), modulus)
  {
    var result: nat, place: nat, i: nat := 0, 1, 0;
    ghost var whole: nat := 0;
    while i < maxBytes && i < |input|
      invariant i <= maxBytes && i <= |input|
      invariant result == Wrap(whole, modulus)
      invariant ParseVarint(input, maxBytes) == Shifted(whole, place, ParseVarint(input[i..], maxBytes - i))
    {
      hide ParseVarint, Shifted, Term, Wrap;
      var b := input[i];
      DecodeStep(input, i, maxBytes - i, whole, place);
      TermWraps(whole, Term(b, place), modulus);
      result := Wrap(result + Wrap(Term(b, place), modulus), modulus);
      whole := whole + Term(b, place);
      i := i + 1;
      if b < 128 {
        WrapsParsed(whole, input[i..], modulus);
        return Some(Parsed(result, input[i..]));
      }
      place := place * 128;
    }
    return None;
  }

  lemma WrapsParsed(v: nat, rest: Bytes, modulus: nat)
    requires 0 < modulus
    ensures Truncated(Some(Parsed(v, rest)), modulus) == Some(Parsed(Wrap(v, modulus), rest))
  {
  }

  lemma DecodeStep(input: Bytes, i: nat, n: nat, whole: nat, place: nat)
    requires i < |input| && 0 < n
    ensures Shifted(whole, place, ParseVarint(input[i..], n))
         == if input[i] < 128 then Some(Parsed(whole + Term(input[i], place), input[i + 1..]))
            else Shifted(whole + Term(input[i], place), place * 128, ParseVarint(input[i + 1..], n - 1))
  {
    assert input[i..][1..] == input[i + 1..];
    var tail := ParseVarint(input[i + 1..], n - 1);
    if input[i] >= 128 && tail.Some? {
      Distribute(place, input[i] % 128, tail.value.value);
    }
  }

  function Shifted(whole: nat, place: nat, r: Option<Parsed<nat>>): Option<Parsed<nat>> {
    if r.None? then None else Some(Parsed(whole + place * r.value.value, r.value.rest))
  }

  lemma Distribute(place: nat, digit: nat, v: nat)
    ensures place * (digit + 128 * v) == digit * place + place * 128 * v
  {
  }

  lemma TermWraps(a: nat, b: nat, m: nat)
    requires m == TWO32 || m == TWO64
    ensures Wrap(a + b, m) == Wrap(Wrap(a, m) + Wrap(b, m), m)
  {
    hide Wrap;
    Multiples(Wrap(a, m) + Wrap(b, m), a / m + b / m, m);
    Quotient(a, m);
    Quotient(b, m);
    Distributes(a / m, b / m, m);
  }

  lemma Distributes(p: int, q: int, m: nat)
    ensures (p + q) * m == p * m + q * m
  {
  }

  lemma Quotient(a: nat, m: nat)
    requires m == TWO32 || m == TWO64
    ensures a == Wrap(a, m) + a / m * m
  {
  }

  lemma {:induction false} Multiples(r: nat, q: nat, m: nat)
    requires m == TWO32 || m == TWO64
    ensures Wrap(r + q * m, m) == Wrap(r, m)
  {
    if q > 0 {
      Multiples(r, q - 1, m);
      Distributes(q - 1, 1, m);
      OneMore(r + (q - 1) * m, m);
    }
  }

  lemma OneMore(v: nat, m: nat)
    requires m == TWO32 || m == TWO64
    ensures Wrap(v + m, m) == Wrap(v, m)
  {
    DividesOnce(v, m);
    DividesOnce(v + m, m);
    SameResidue(v / m + 1, v % m, (v + m) / m, (v + m) % m, m);
  }

  lemma DividesOnce(v: nat, m: nat)
    requires 0 < m
    ensures v == v / m * m + v % m && 0 <= v % m < m
  {
  }

  lemma SameResidue(p: int, r: nat, q: int, s: nat, m: nat)
    requires r < m && s < m && p * m + r == q * m + s
    ensures r == s
  {
    Distributes(p, q - p, m);
    AtLeastOnce(q - p, m);
    AtLeastOnce(p - q, m);
    Distributes(q, p - q, m);
  }

  lemma AtLeastOnce(k: int, m: nat)
    ensures 1 <= k ==> m <= k * m
    ensures k == 0 ==> k * m == 0
  {
  }

  // ----- Length-prefixed strings -----

  function LengthPrefixed(s: Bytes): Bytes {
    Varint(|s|) + s
  }

  function GetLengthPrefixedSlice(input: Bytes): (r: Option<Parsed<Bytes>>)
    ensures r.Some? ==> |r.value.rest| < |input|
  {
    var n := GetVarint32(input);
    if n.None? || |n.value.rest| < n.value.value then None
    else Some(Parsed(n.value.rest[..n.value.value], n.value.rest[n.value.value..]))
  }

  lemma GetsLengthPrefixed(s: Bytes, rest: Bytes)
    requires |s| < TWO32
    ensures GetLengthPrefixedSlice(LengthPrefixed(s) + rest) == Some(Parsed(s, rest))
  {
    GetsVarint32(|s|, s + rest);
    assert LengthPrefixed(s) + rest == Varint(|s|) + (s + rest);
    assert (s + rest)[..|s|] == s && (s + rest)[|s|..] == rest;
  }

  // ----- Parts of a byte string -----

  lemma Associative(a: Bytes, b: Bytes, c: Bytes)
    ensures a + (b + c) == a + b + c
  {
  }

  ghost predicate Sits(f: Bytes, o: nat, part: Bytes) {
    o + |part| <= |f| && f[o..o + |part|] == part
  }

  lemma SitsParts(f: Bytes, o: nat, a: Bytes, b: Bytes)
    requires Sits(f, o, a + b)
    ensures Sits(f, o, a) && Sits(f, o + |a|, b)
  {
    var whole := f[o..o + |a| + |b|];
    assert whole == a + b;
    assert f[o..o + |a|] == whole[..|a|];
    assert whole[..|a|] == a && whole[|a|..] == b;
    assert f[o + |a|..o + |a| + |b|] == whole[|a|..];
  }

  lemma SitsLast(front: Bytes, last: Bytes)
    ensures Sits(front + last, |front|, last)
  {
  }

  lemma SitsLonger(f: Bytes, o: nat, part: Bytes, more: Bytes)
    requires Sits(f, o, part)
    ensures Sits(f + more, o, part)
  {
    assert (f + more)[o..o + |part|] == f[o..o + |part|];
  }
}
