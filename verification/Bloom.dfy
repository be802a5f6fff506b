/** Bloom filters (util/bloom.cc). The hash function is a parameter. */
module Bloom {
  import opened Keys
  import opened Coding

  type Hash = Bytes -> nat

  // ----- Bits of numbers -----

  /** b & (1 << i) != 0 */
  predicate HasBit(b: nat, i: nat) {
    if i == 0 then b % 2 == 1 else HasBit(b / 2, i - 1)
  }

  /** b | (1 << i) */
  function WithBit(b: nat, i: nat): nat {
    if i == 0 then b / 2 * 2 + 1 else WithBit(b / 2, i - 1) * 2 + b % 2
  }

  lemma {:induction false} WithBitHas(b: nat, i: nat, j: nat)
    ensures HasBit(WithBit(b, i), j) <==> j == i || HasBit(b, j)
  {
    if i == 0 {
      assert (b / 2 * 2 + 1) / 2 == b / 2;
    } else {
      assert (WithBit(b / 2, i - 1) * 2 + b % 2) / 2 == WithBit(b / 2, i - 1);
      if j > 0 {
        WithBitHas(b / 2, i - 1, j - 1);
      }
    }
  }

  lemma {:induction false} WithBitFits(b: nat, i: nat, n: nat)
    requires b < Power(2, n) && i < n
    ensures WithBit(b, i) < Power(2, n)
  {
    if i > 0 {
      WithBitFits(b / 2, i - 1, n - 1);
    } else {
      assert Power(2, n) == 2 * Power(2, n - 1);
    }
  }

  function SetBit(b: byte, i: nat): byte
    requires i < 8
  {
    ByteIsEightBits();
    WithBitFits(b, i, 8);
    WithBit(b, i)
  }

  lemma ByteIsEightBits()
    ensures Power(2, 8) == 256
  {
    assert Power(2, 3) == 8;
    assert Power(2, 4) == 2 * Power(2, 3);
    assert Power(2, 5) == 2 * Power(2, 4);
    assert Power(2, 6) == 2 * Power(2, 5);
    assert Power(2, 7) == 2 * Power(2, 6);
    assert Power(2, 8) == 2 * Power(2, 7);
  }

  // ----- Probes -----

  /** Rotates right by 17 bits. */
  function Delta(h: nat): nat {
    h / 0x2_0000 + h % 0x2_0000 * 0x8000
  }

  /** Double hashing: the hash value of probe `j`. */
  function HashAt(h: nat, j: nat): nat {
    if j == 0 then h else (HashAt(h, j - 1) + Delta(h)) % TWO32
  }

  ghost predicate BitIsSet(bits: Bytes, pos: nat) {
    pos / 8 < |bits| && HasBit(bits[pos / 8], pos % 8)
  }

  /** The bit that a hash value asks for in an array of `size` bytes. */
  function BitOf(h: nat, size: nat): (pos: nat)
    requires 0 < size
    ensures pos < size * 8 && pos / 8 < size
  {
    h % (size * 8)
  }

  /** The bits of the first `n` probes of a hash value are set. */
  ghost predicate Probed(bits: Bytes, h: nat, n: nat) {
    bits != [] && forall j | 0 <= j < n :: BitIsSet(bits, BitOf(HashAt(h, j), |bits|))
  }

  ghost predicate MayMatch(hash: Hash, key: Bytes, filter: Bytes) {
    && 2 <= |filter|
    && (filter[|filter| - 1] > 30 || Probed(filter[..|filter| - 1], hash(key) % TWO32, filter[|filter| - 1]))
  }

  /** Bit `pos` is one of the first `n` probes of a hash value. */
  ghost predicate IsProbe(h: nat, n: nat, size: nat, pos: nat)
    requires 0 < size
  {
    exists j | 0 <= j < n :: pos == BitOf(HashAt(h, j), size)
  }

  /** `b` has the bits of `a` and of the first `n` probes of a hash value, and no others. */
  ghost predicate AddsProbes(b: Bytes, a: Bytes, h: nat, n: nat) {
    && |b| == |a| > 0
    && forall pos | 0 <= pos < |a| * 8 :: BitIsSet(b, pos) <==> BitIsSet(a, pos) || IsProbe(h, n, |a|, pos)
  }

  /** The bits set are exactly the probes of the keys. */
  ghost predicate HasExactly(bits: Bytes, hash: Hash, keys: seq<Bytes>, k: nat) {
    && bits != []
    && forall pos | 0 <= pos < |bits| * 8 ::
         BitIsSet(bits, pos) <==> exists key <- keys :: IsProbe(hash(key) % TWO32, k, |bits|, pos)
  }

  lemma ExactlyOneMore(a: Bytes, b: Bytes, hash: Hash, keys: seq<Bytes>, key: Bytes, k: nat)
    requires HasExactly(a, hash, keys, k) && AddsProbes(b, a, hash(key) % TWO32, k)
    ensures HasExactly(b, hash, keys + [key], k)
  {
    hide BitIsSet, IsProbe;
    forall pos | 0 <= pos < |b| * 8
      ensures BitIsSet(b, pos) <==> exists x <- keys + [key] :: IsProbe(hash(x) % TWO32, k, |b|, pos)
    {
      if IsProbe(hash(key) % TWO32, k, |b|, pos) {
        assert key in keys + [key];
      }
      if x :| x in keys && IsProbe(hash(x) % TWO32, k, |b|, pos) {
        assert x in keys + [key];
      }
    }
  }

  lemma ProbesOneMore(before: Bytes, now: Bytes, after: Bytes, h: nat, j: nat)
    requires AddsProbes(now, before, h, j) && |after| == |now|
    requires forall p | 0 <= p < |now| * 8 :: BitIsSet(after, p) <==> p == BitOf(HashAt(h, j), |now|) || BitIsSet(now, p)
    ensures AddsProbes(after, before, h, j + 1)
  {
    hide BitIsSet, HashAt, BitOf, IsProbe;
    forall pos | 0 <= pos < |before| * 8
      ensures BitIsSet(after, pos) <==> BitIsSet(before, pos) || IsProbe(h, j + 1, |before|, pos)
    {
      NextProbe(h, j, |before|, pos);
    }
  }

  lemma NextProbe(h: nat, j: nat, size: nat, pos: nat)
    requires 0 < size
    ensures IsProbe(h, j + 1, size, pos) <==> IsProbe(h, j, size, pos) || pos == BitOf(HashAt(h, j), size)
  {
    hide HashAt, BitOf;
  }

  /** No bit is lost from `a` to `b`. */
  ghost predicate Covers(b: Bytes, a: Bytes) {
    |b| == |a| && forall pos | 0 <= pos < |a| * 8 :: BitIsSet(a, pos) ==> BitIsSet(b, pos)
  }

  lemma ProbedStays(a: Bytes, b: Bytes, h: nat, n: nat)
    requires Covers(b, a) && Probed(a, h, n)
    ensures Probed(b, h, n)
  {
  }

  lemma NothingSet(bits: Bytes, hash: Hash, k: nat)
    requires bits != [] && forall i | 0 <= i < |bits| :: bits[i] == 0
    ensures HasExactly(bits, hash, [], k)
  {
    forall pos | 0 <= pos < |bits| * 8 ensures !BitIsSet(bits, pos) {
      ZeroHasNone(pos % 8);
    }
  }

  lemma {:induction false} ZeroHasNone(i: nat)
    ensures !HasBit(0, i)
  {
    if i > 0 {
      ZeroHasNone(i - 1);
    }
  }

  /** The bytes of the bit array for `n` keys: at least 64 bits. */
  function ArraySize(n: nat, bitsPerKey: nat): (size: nat)
    ensures 8 <= size
  {
    if n * bitsPerKey < 64 then 8 else (n * bitsPerKey + 7) / 8
  }

  // ----- The filter in closed form -----

  /** 2 to the power of the place of a bit in its byte. */
  function BitValue(i: nat): (v: nat)
    requires i < 8
    ensures v == [1, 2, 4, 8, 16, 32, 64, 128][i]
  {
    if i == 0 then 1 else 2 * BitValue(i - 1)
  }

  lemma {:induction false} BitAt(b: nat, i: nat)
    requires i < 8
    ensures HasBit(b, i) <==> b / [1, 2, 4, 8, 16, 32, 64, 128][i] % 2 == 1
  {
    if i > 0 {
      BitAt(b / 2, i - 1);
      Halves(b, BitValue(i - 1));
    }
  }

  lemma Halves(b: nat, d: nat)
    requires 0 < d
    ensures b / 2 / d == b / (2 * d)
  {
    var q, r := b / 2 / d, b / 2 % d;
    assert b / 2 == q * d + r && 0 <= r < d;
    Doubled(q, d);
    assert b == q * (2 * d) + (2 * r + b % 2) && 0 <= 2 * r + b % 2 < 2 * d;
    QuotientIs(b, 2 * d, q, 2 * r + b % 2);
  }

  lemma Doubled(q: nat, d: nat)
    ensures 2 * (q * d) == q * (2 * d)
  {
  }

  lemma QuotientIs(b: nat, d: nat, q: nat, r: nat)
    requires 0 < d && b == q * d + r && r < d
    ensures b / d == q
  {
    var k := b / d;
    assert b == k * d + b % d;
    if k < q {
      Multiple(q - k, d);
      Difference(q, k, d);
    } else if q < k {
      Multiple(k - q, d);
      Difference(k, q, d);
    }
  }

  lemma Multiple(k: nat, d: nat)
    requires 1 <= k
    ensures d <= k * d
  {
  }

  lemma Difference(p: nat, q: nat, d: nat)
    requires q <= p
    ensures (p - q) * d == p * d - q * d
  {
  }

  function Low32(x: nat): nat {
    x % 4294967296
  }

  lemma AddedInside(a: nat, b: nat)
    ensures Low32(Low32(a) + b) == Low32(a + b)
  {
    hide Wrap, Low32;
    LowIsWrap(a);
    LowIsWrap(a + b);
    LowIsWrap(Low32(a) + b);
    TermWraps(a, b, TWO32);
    TermWraps(Low32(a), b, TWO32);
    LowStays(Low32(a));
  }

  lemma LowIsWrap(a: nat)
    ensures Low32(a) == Wrap(a, TWO32) < TWO32
  {
  }

  lemma LowStays(a: nat)
    requires a < TWO32
    ensures Wrap(a, TWO32) == a
  {
  }

  lemma NextTerm(h: nat, j: nat, delta: nat)
    requires 0 < j
    ensures h + (j - 1) * delta + delta == h + j * delta
  {
  }

  lemma HashStep(h: nat, j: nat)
    requires h < TWO32
    ensures HashAt(h, 0) == Low32(h)
    ensures 0 < j ==> HashAt(h, j) == Low32(HashAt(h, j - 1) + Delta(h))
  {
  }

  /** Probe `j` without the running sum. */
  lemma {:induction false} ProbeAt(h: nat, j: nat)
    requires h < TWO32
    ensures HashAt(h, j) == Low32(h + j * Delta(h))
  {
    hide HashAt, Low32, Delta;
    HashStep(h, j);
    if j > 0 {
      ProbeAt(h, j - 1);
      NextTerm(h, j, Delta(h));
      AddedInside(h + (j - 1) * Delta(h), Delta(h));
    } else {
      assert h + j * Delta(h) == h;
    }
  }

  /** Bit `pos` of an array of bytes, the lowest bit of a byte first. */
  predicate IsOne(bits: Bytes, pos: nat)
    requires pos / 8 < |bits|
  {
    bits[pos / 8] / [1, 2, 4, 8, 16, 32, 64, 128][pos % 8] % 2 == 1
  }

  lemma SetIsOne(bits: Bytes, pos: nat)
    requires pos / 8 < |bits|
    ensures BitIsSet(bits, pos) <==> IsOne(bits, pos)
  {
    BitAt(bits[pos / 8], pos % 8);
  }

  /** Where probe `j` of a hash value goes in an array of `size` bytes. */
  lemma ProbeGoes(h: nat, j: nat, size: nat)
    requires h < TWO32 && 0 < size
    ensures BitOf(HashAt(h, j), size) == (h + j * (h / 131072 + h % 131072 * 32768)) % 4294967296 % (8 * size)
  {
    ProbeAt(h, j);
  }

  /** The places of the first `n` probes of a 32-bit hash value: with its
      rotation by 17 bits as the step, in an array of `size` bytes. */
  function Places(h: nat, n: nat, size: nat): (r: seq<nat>)
    requires 0 < size
    ensures |r| == n
    ensures forall j | 0 <= j < n :: r[j] == (h + j * (h / 131072 + h % 131072 * 32768)) % 4294967296 % (8 * size)
  {
    seq(n, j requires 0 <= j => (h + j * (h / 131072 + h % 131072 * 32768)) % 4294967296 % (8 * size))
  }

  /** A filter answers yes exactly when every probe of the key finds a one. */
  lemma MatchesExactly(hash: Hash, key: Bytes, filter: Bytes)
    ensures MayMatch(hash, key, filter) <==>
      && 2 <= |filter|
      && (filter[|filter| - 1] > 30 ||
          forall pos <- Places(hash(key) % 4294967296, filter[|filter| - 1], |filter| - 1) ::
            pos / 8 < |filter| && IsOne(filter, pos))
  {
    if 2 <= |filter| && filter[|filter| - 1] <= 30 {
      hide HashAt, BitOf, IsOne, BitIsSet, Places;
      var h, n, size := hash(key) % 4294967296, filter[|filter| - 1] as nat, |filter| - 1;
      var bits, places := filter[..size], Places(h, n, size);
      forall j | 0 <= j < n
        ensures places[j] / 8 < size
        ensures BitIsSet(bits, BitOf(HashAt(h, j), |bits|)) <==> IsOne(filter, places[j])
      {
        ProbeAsks(filter, h, j, n, size);
      }
      EveryPlace(filter, places);
    }
  }

  lemma ProbeAsks(filter: Bytes, h: nat, j: nat, n: nat, size: nat)
    requires 0 < size <= |filter| && h < 4294967296 && j < n
    ensures Places(h, n, size)[j] / 8 < size
    ensures BitIsSet(filter[..size], BitOf(HashAt(h, j), size)) <==> IsOne(filter, Places(h, n, size)[j])
  {
    hide HashAt, BitOf, IsOne, BitIsSet;
    var place := Places(h, n, size)[j];
    ProbeGoes(h, j, size);
    SetIsOne(filter[..size], place);
    SameBit(filter, size, place);
  }

  lemma EveryPlace(filter: Bytes, places: seq<nat>)
    requires forall j | 0 <= j < |places| :: places[j] / 8 < |filter|
    ensures (forall pos <- places :: pos / 8 < |filter| && IsOne(filter, pos))
       <==> forall j | 0 <= j < |places| :: IsOne(filter, places[j])
  {
    hide IsOne;
    assert forall j | 0 <= j < |places| :: places[j] in places;
  }

  lemma SameBit(filter: Bytes, size: nat, pos: nat)
    requires size <= |filter| && pos / 8 < size
    ensures IsOne(filter[..size], pos) <==> IsOne(filter, pos)
  {
  }

  /** The ones of a filter are exactly the probes of its keys. */
  lemma OnesExactly(bits: Bytes, hash: Hash, keys: seq<Bytes>, k: nat, pos: nat)
    requires HasExactly(bits, hash, keys, k) && pos < 8 * |bits|
    ensures IsOne(bits, pos) <==> exists key <- keys :: pos in Places(hash(key) % 4294967296, k, |bits|)
  {
    hide HashAt, BitOf, IsOne, BitIsSet, Places;
    SetIsOne(bits, pos);
    forall key <- keys
      ensures IsProbe(hash(key) % TWO32, k, |bits|, pos) <==> pos in Places(hash(key) % 4294967296, k, |bits|)
    {
      var h := hash(key) % 4294967296;
      forall j | 0 <= j < k ensures BitOf(HashAt(h, j), |bits|) == Places(h, k, |bits|)[j] {
        ProbeGoes(h, j, |bits|);
      }
    }
    assert BitIsSet(bits, pos) <==> exists key <- keys :: IsProbe(hash(key) % TWO32, k, |bits|, pos);
  }

  /** The filter of a list of keys: an array of the prescribed size whose ones
      are exactly the probes of the keys, and the number of probes. */
  ghost predicate IsFilterOf(hash: Hash, k: nat, bitsPerKey: nat, keys: seq<Bytes>, filter: Bytes) {
    var size := |filter| - 1;
    && 8 <= size && 8 * size >= |keys| * bitsPerKey && (size == 8 || 8 * (size - 1) < |keys| * bitsPerKey)
    && filter[size] == k
    && forall pos | 0 <= pos < 8 * size ::
         IsOne(filter, pos) <==> exists key <- keys :: pos in Places(hash(key) % 4294967296, k, size)
  }

  class BloomFilterPolicy {
    const hash: Hash
    const bitsPerKey: nat
    const k: nat

    constructor (hash: Hash, bitsPerKey: nat)
      ensures 1 <= k <= 30 && this.hash == hash && this.bitsPerKey == bitsPerKey
      ensures 100 * k <= 69 * bitsPerKey < 100 * (k + 1) || (k == 1 && 69 * bitsPerKey < 100) || (k == 30 && 3100 <= 69 * bitsPerKey)
    {
      this.hash, this.bitsPerKey := hash, bitsPerKey;
      var probes := (bitsPerKey as real * 0.69).Floor;
      k := if probes < 1 then 1 else if probes > 30 then 30 else probes;
    }

    /** Sets the bits of all probes of one key. */
    method AddKey(bytes: array<byte>, key: Bytes)
      requires bytes.Length > 0
      modifies bytes
      ensures Covers(bytes[..], old(bytes[..])) && Probed(bytes[..], hash(key) % TWO32, k)
      ensures AddsProbes(bytes[..], old(bytes[..]), hash(key) % TWO32, k)
    {
      var h := hash(key) % TWO32;
      ghost var h0 := h;
      var delta := Delta(h);
      for j := 0 to k
        invariant h == HashAt(h0, j) && delta == Delta(h0)
        invariant Covers(bytes[..], old(bytes[..])) && Probed(bytes[..], h0, j)
        invariant AddsProbes(bytes[..], old(bytes[..]), h0, j)
      {
        hide HashAt, BitOf, AddsProbes;
        var bitpos := BitOf(h, bytes.Length);
        ghost var before := bytes[..];
        bytes[bitpos / 8] := SetBit(bytes[bitpos / 8], bitpos % 8);
        BitSet(before, bytes[..], bitpos);
        ProbesOneMore(old(bytes[..]), before, bytes[..], h0, j);
        ProbedStays(before, bytes[..], h0, j);
        NextHash(h0, j);
        h := (h + delta) % TWO32;
      }
    }

    /** The filter of a list of keys, with the number of probes in its last byte. */
    method CreateFilter(keys: seq<Bytes>) returns (filter: Bytes)
      requires 1 <= k <= 30
      ensures forall key <- keys :: MayMatch(hash, key, filter)
      ensures |filter| == ArraySize(|keys|, bitsPerKey) + 1 && filter[|filter| - 1] == k
      ensures IsFilterOf(hash, k, bitsPerKey, keys, filter)
    {
      hide HasExactly, AddsProbes, IsOne, Places;
      var bits := |keys| * bitsPerKey;
      if bits < 64 {
        bits := 64;
      }
      var size := (bits + 7) / 8;
      var bytes := new byte[size](_ => 0);
      NothingSet(bytes[..], hash, k);
      for i := 0 to |keys|
        invariant forall m | 0 <= m < i :: Probed(bytes[..], hash(keys[m]) % TWO32, k)
        invariant HasExactly(bytes[..], hash, keys[..i], k)
      {
        ghost var before := bytes[..];
        AddKey(bytes, keys[i]);
        ExactlyOneMore(before, bytes[..], hash, keys[..i], keys[i], k);
        assert keys[..i + 1] == keys[..i] + [keys[i]];
        forall m | 0 <= m < i ensures Probed(bytes[..], hash(keys[m]) % TWO32, k) {
          ProbedStays(before, bytes[..], hash(keys[m]) % TWO32, k);
        }
      }
      assert keys[..|keys|] == keys;
      filter := bytes[..] + [k];
      assert filter[..|filter| - 1] == bytes[..];
      forall pos | 0 <= pos < 8 * (|filter| - 1)
        ensures IsOne(filter, pos) <==> exists key <- keys :: pos in Places(hash(key) % 4294967296, k, |filter| - 1)
      {
        OnesExactly(filter[..|filter| - 1], hash, keys, k, pos);
        SameBit(filter, |filter| - 1, pos);
      }
    }

    method KeyMayMatch(key: Bytes, filter: Bytes) returns (b: bool)
      ensures b <==> MayMatch(hash, key, filter)
      ensures b <==> (2 <= |filter|
        && (filter[|filter| - 1] > 30 ||
            forall pos <- Places(hash(key) % 4294967296, filter[|filter| - 1], |filter| - 1) ::
              pos / 8 < |filter| && IsOne(filter, pos)))
    {
      hide IsOne, Places, Probed;
      MatchesExactly(hash, key, filter);
      var len := |filter|;
      if len < 2 {
        return false;
      }
      var bytes := filter[..len - 1];
      var probes := filter[len - 1] as nat;
      if probes > 30 {
        return true;
      }
      b := AllProbed(bytes, hash(key) % TWO32, probes);
    }

    /** The loop over the probes of a hash value. */
    method AllProbed(bytes: Bytes, h0: nat, probes: nat) returns (b: bool)
      requires bytes != []
      ensures b <==> Probed(bytes, h0, probes)
    {
      var h := h0;
      var delta := Delta(h);
      for j := 0 to probes
        invariant h == HashAt(h0, j) && Probed(bytes, h0, j)
      {
        hide HashAt, HasBit, Delta, BitOf;
        var bitpos := BitOf(h, |bytes|);
        NextHash(h0, j);
        if !HasBit(bytes[bitpos / 8], bitpos % 8) {
          assert !BitIsSet(bytes, BitOf(HashAt(h0, j), |bytes|));
          return false;
        }
        h := (h + delta) % TWO32;
      }
      return true;
    }
  }

  lemma NextHash(h: nat, j: nat)
    ensures HashAt(h, j + 1) == (HashAt(h, j) + Delta(h)) % TWO32
  {
  }

  lemma BitSet(before: Bytes, after: Bytes, pos: nat)
    requires pos / 8 < |before| && after == before[pos / 8 := SetBit(before[pos / 8], pos % 8)]
    ensures Covers(after, before) && BitIsSet(after, pos)
    ensures forall p | 0 <= p < |before| * 8 :: BitIsSet(after, p) <==> p == pos || BitIsSet(before, p)
  {
    hide HasBit, WithBit;
    WithBitHas(before[pos / 8], pos % 8, pos % 8);
    forall p | 0 <= p < |before| * 8 ensures BitIsSet(after, p) <==> p == pos || BitIsSet(before, p) {
      WithBitHas(before[pos / 8], pos % 8, p % 8);
    }
  }
}
