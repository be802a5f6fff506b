/** The format of a block of prefix-compressed entries with restart points
    (table/block_builder.cc, table/block.cc). */
module BlockFormat {
  import opened Keys
  import opened Coding

  datatype Pair = Pair(key: Bytes, value: Bytes)

  function CommonPrefix(a: Bytes, b: Bytes): (n: nat)
    ensures n <= |a| && n <= |b| && a[..n] == b[..n]
    ensures n == |a| || n == |b| || a[n] != b[n]
  {
    if a == [] || b == [] || a[0] != b[0] then 0
    else
      var n := CommonPrefix(a[1..], b[1..]);
      assert a[..n + 1] == [a[0]] + a[1..][..n] && b[..n + 1] == [b[0]] + b[1..][..n];
      n + 1
  }

  function EntryBytes(shared: nat, key: Bytes, value: Bytes): (r: Bytes)
    requires shared <= |key|
    ensures |r| >= 3 + |key| - shared + |value|
  {
    Varint(shared) + Varint(|key| - shared) + Varint(|value|) + key[shared..] + value
  }

  /** How many entries there are since the last restart point. */
  function Counter(ps: seq<Pair>, interval: nat): nat {
    if ps == [] then 0
    else
      var c := Counter(ps[..|ps| - 1], interval);
      if c < interval then c + 1 else 1
  }

  /** The entries at restart points; the first restart point is always there. */
  function Starts(ps: seq<Pair>, interval: nat): (r: seq<nat>)
    ensures r != [] && r[0] == 0
    ensures forall k | 0 <= k < |r| :: r[k] < |ps| || r[k] == 0
  {
    if ps == [] then [0]
    else
      var front := ps[..|ps| - 1];
      if Counter(front, interval) < interval then Starts(front, interval) else Starts(front, interval) + [|front|]
  }

  function LastKey(ps: seq<Pair>): Bytes {
    if ps == [] then [] else ps[|ps| - 1].key
  }

  /** What the next key shares with the one before it. */
  function SharedNext(ps: seq<Pair>, interval: nat, key: Bytes): (n: nat)
    ensures n <= |key|
  {
    if Counter(ps, interval) < interval then CommonPrefix(LastKey(ps), key) else 0
  }

  function Body(ps: seq<Pair>, interval: nat): Bytes {
    if ps == [] then []
    else
      var front, last := ps[..|ps| - 1], ps[|ps| - 1];
      Body(front, interval) + EntryBytes(SharedNext(front, interval, last.key), last.key, last.value)
  }

  /** Where entry `i` starts. */
  function Offset(ps: seq<Pair>, interval: nat, i: nat): nat
    requires i <= |ps|
  {
    |Body(ps[..i], interval)|
  }

  function Shared(ps: seq<Pair>, interval: nat, i: nat): (n: nat)
    requires i < |ps|
    ensures n <= |ps[i].key|
  {
    SharedNext(ps[..i], interval, ps[i].key)
  }

  function Offsets(ps: seq<Pair>, interval: nat): (r: seq<nat>)
    ensures |r| == |Starts(ps, interval)|
  {
    var starts := Starts(ps, interval);
    seq(|starts|, k requires 0 <= k < |starts| && starts[k] <= |ps| => Offset(ps, interval, starts[k]))
  }

  function FixedAll(words: seq<nat>): (r: Bytes)
    ensures |r| == 4 * |words|
  {
    if words == [] then [] else FixedAll(words[..|words| - 1]) + Fixed(words[|words| - 1], 4)
  }

  function BlockBytes(ps: seq<Pair>, interval: nat): Bytes {
    Body(ps, interval) + FixedAll(Offsets(ps, interval)) + Fixed(|Starts(ps, interval)|, 4)
  }

  // ----- Reading -----

  datatype Header = Header(shared: nat, nonShared: nat, valueLength: nat, keyOffset: nat)

  function ThreeVarints(input: Bytes, limit: nat): (r: Option<Header>)
    requires |input| <= limit
    ensures r.Some? ==> limit - |input| < r.value.keyOffset <= limit
  {
    var shared := GetVarint32(input);
    if shared.None? then None else
    var nonShared := GetVarint32(shared.value.rest);
    if nonShared.None? then None else
    var valueLength := GetVarint32(nonShared.value.rest);
    if valueLength.None? then None else
    Some(Header(shared.value.value, nonShared.value.value, valueLength.value.value, limit - |valueLength.value.rest|))
  }

  /** The three numbers an entry starts with; a fast path reads them if each
      fits into one byte. */
  function DecodeEntry(data: Bytes, p: nat, limit: nat): (r: Option<Header>)
    requires p <= limit <= |data|
    ensures r.Some? ==> p < r.value.keyOffset && r.value.keyOffset + r.value.nonShared + r.value.valueLength <= limit
  {
    if limit - p < 3 then None
    else
      var h :=
        if data[p] < 128 && data[p + 1] < 128 && data[p + 2] < 128 then
          Some(Header(data[p], data[p + 1], data[p + 2], p + 3))
        else ThreeVarints(data[p..limit], limit);
      if h.None? || limit - h.value.keyOffset < h.value.nonShared + h.value.valueLength then None else h
  }

  lemma ReadsThree(a: nat, b: nat, c: nat, rest: Bytes, limit: nat)
    requires a < TWO32 && b < TWO32 && c < TWO32
    requires |Varint(a) + (Varint(b) + (Varint(c) + rest))| <= limit
    ensures ThreeVarints(Varint(a) + (Varint(b) + (Varint(c) + rest)), limit) == Some(Header(a, b, c, limit - |rest|))
  {
    hide Varint, GetVarint32;
    GetsVarint32(a, Varint(b) + (Varint(c) + rest));
    GetsVarint32(b, Varint(c) + rest);
    GetsVarint32(c, rest);
  }

  lemma FirstByte(v: nat)
    ensures Varint(v)[0] < 128 <==> v < 128
    ensures v < 128 ==> Varint(v) == [v]
  {
  }

  /** The fast path reads the same numbers. */
  lemma FastIsSame(a: nat, b: nat, c: nat, rest: Bytes)
    ensures
      var input := Varint(a) + (Varint(b) + (Varint(c) + rest));
      && |input| >= 3 + |rest|
      && (input[0] < 128 && input[1] < 128 && input[2] < 128 ==>
            input[0] == a && input[1] == b && input[2] == c && |input| == 3 + |rest|)
  {
    hide Varint;
    FirstByte(a);
    FirstByte(b);
    FirstByte(c);
  }

  lemma DecodesEntry(a: nat, b: nat, c: nat, rest: Bytes, data: Bytes, p: nat, limit: nat)
    requires a < TWO32 && b + c < TWO32 && b + c <= |rest|
    requires p <= limit <= |data| && data[p..limit] == Varint(a) + (Varint(b) + (Varint(c) + rest))
    ensures DecodeEntry(data, p, limit) == Some(Header(a, b, c, limit - |rest|))
  {
    hide Varint, ThreeVarints;
    var input := data[p..limit];
    FastIsSame(a, b, c, rest);
    ReadsThree(a, b, c, rest, limit);
    assert data[p] == input[0] && data[p + 1] == input[1] && data[p + 2] == input[2];
  }

  datatype Parse = Ends | Corrupt | Found(key: Bytes, valueOffset: nat, valueSize: nat)

  /** What parsing an entry at `offset` yields after the entry with key `key`. */
  function ParseAt(data: Bytes, limit: nat, offset: nat, key: Bytes): (r: Parse)
    requires limit <= |data|
    ensures r.Found? ==> offset < r.valueOffset + r.valueSize <= limit
  {
    if limit <= offset then Ends
    else
      var h := DecodeEntry(data, offset, limit);
      if h.None? || |key| < h.value.shared then Corrupt
      else
        var valueOffset := h.value.keyOffset + h.value.nonShared;
        Found(key[..h.value.shared] + data[h.value.keyOffset..valueOffset], valueOffset, h.value.valueLength)
  }

  function RestartPoint(data: Bytes, restarts: nat, k: nat): nat
    requires restarts + 4 * k + 4 <= |data|
  {
    Unfixed(data[restarts + 4 * k..restarts + 4 * k + 4])
  }

  // ----- Entries and offsets -----

  lemma {:induction false} EntrySits(ps: seq<Pair>, interval: nat, i: nat)
    requires i < |ps|
    ensures Offset(ps, interval, i + 1) == Offset(ps, interval, i) + |EntryBytes(Shared(ps, interval, i), ps[i].key, ps[i].value)|
    ensures Offset(ps, interval, i + 1) <= |Body(ps, interval)|
    ensures Body(ps, interval)[Offset(ps, interval, i)..Offset(ps, interval, i + 1)]
         == EntryBytes(Shared(ps, interval, i), ps[i].key, ps[i].value)
  {
    hide EntryBytes, SharedNext;
    var m := |ps| - 1;
    assert ps[..i + 1][..i] == ps[..i];
    if i == m {
      assert ps[..i + 1] == ps;
    } else {
      EntrySits(ps[..m], interval, i);
      assert ps[..m][..i] == ps[..i] && ps[..m][..i + 1] == ps[..i + 1];
      var whole, front := Body(ps, interval), Body(ps[..m], interval);
      assert whole[..|front|] == front;
      assert whole[Offset(ps, interval, i)..Offset(ps, interval, i + 1)] == front[Offset(ps, interval, i)..Offset(ps, interval, i + 1)];
    }
  }

  lemma {:induction false} OffsetsGrow(ps: seq<Pair>, interval: nat, i: nat, j: nat)
    requires i <= j <= |ps|
    ensures Offset(ps, interval, i) <= Offset(ps, interval, j) <= |Body(ps, interval)|
    ensures i < j ==> Offset(ps, interval, i) < Offset(ps, interval, j)
    decreases j - i
  {
    hide EntryBytes, Body;
    assert ps[..|ps|] == ps;
    if i < j {
      OffsetsGrow(ps, interval, i, j - 1);
      EntrySits(ps, interval, j - 1);
    } else if j < |ps| {
      EntrySits(ps, interval, j);
    }
  }

  /** The data of a block of less than 4 GB starts with the entries. */
  ghost predicate HoldsBody(data: Bytes, limit: nat, ps: seq<Pair>, interval: nat) {
    limit <= |data| && limit == |Body(ps, interval)| && data[..limit] == Body(ps, interval) && limit < TWO32
  }

  /** The key so far can be extended to the key of entry `i`. */
  ghost predicate KeyReady(ps: seq<Pair>, interval: nat, i: nat, key: Bytes)
    requires i < |ps|
  {
    var n := Shared(ps, interval, i);
    n <= |key| && key[..n] == ps[i].key[..n]
  }

  /** No key is longer than the entries up to it. */
  lemma {:induction false} KeyFits(ps: seq<Pair>, interval: nat, i: nat)
    requires i < |ps|
    ensures |ps[i].key| <= Offset(ps, interval, i + 1) && Shared(ps, interval, i) <= Offset(ps, interval, i)
  {
    hide EntryBytes, Body;
    EntrySits(ps, interval, i);
    if i > 0 {
      KeyFits(ps, interval, i - 1);
      assert LastKey(ps[..i]) == ps[i - 1].key;
    }
  }

  /** The parts of an entry in the data of a block. */
  lemma EntryParts(entry: Bytes, shared: nat, key: Bytes, value: Bytes, after: Bytes)
    requires shared <= |key| && entry == EntryBytes(shared, key, value)
    ensures
      var rest := key[shared..] + value + after;
      && entry + after == Varint(shared) + (Varint(|key| - shared) + (Varint(|value|) + rest))
      && rest[..|key| - shared] == key[shared..]
      && rest[|key| - shared..|key| - shared + |value|] == value
  {
    hide Varint;
  }

  lemma DecodesAt(data: Bytes, limit: nat, ps: seq<Pair>, interval: nat, i: nat)
    requires HoldsBody(data, limit, ps, interval) && i < |ps|
    ensures Offset(ps, interval, i) < Offset(ps, interval, i + 1) <= limit
    ensures
      var shared, end := Shared(ps, interval, i), Offset(ps, interval, i + 1);
      var keyOffset := end - |ps[i].value| - (|ps[i].key| - shared);
      && Offset(ps, interval, i) <= keyOffset
      && DecodeEntry(data, Offset(ps, interval, i), limit) == Some(Header(shared, |ps[i].key| - shared, |ps[i].value|, keyOffset))
      && data[keyOffset..end - |ps[i].value|] == ps[i].key[shared..]
      && data[end - |ps[i].value|..end] == ps[i].value
  {
    hide Body, Varint, DecodeEntry, SharedNext;
    var shared, p, end := Shared(ps, interval, i), Offset(ps, interval, i), Offset(ps, interval, i + 1);
    var key, value := ps[i].key, ps[i].value;
    EntrySits(ps, interval, i);
    KeyFits(ps, interval, i);
    var entry, after := EntryBytes(shared, key, value), data[end..limit];
    assert data[p..end] == data[..limit][p..end] == entry;
    EntryParts(entry, shared, key, value, after);
    hide EntryBytes;
    assert data[p..limit] == entry + after;
    var rest := key[shared..] + value + after;
    DecodesEntry(shared, |key| - shared, |value|, rest, data, p, limit);
    SliceEnd(data, p, limit, rest);
    assert data[limit - |rest|..end - |value|] == rest[..|key| - shared];
    assert data[end - |value|..end] == rest[|key| - shared..|key| - shared + |value|];
  }

  lemma SliceEnd(data: Bytes, p: nat, limit: nat, rest: Bytes)
    requires p <= limit <= |data| && |rest| <= limit - p && data[p..limit][limit - p - |rest|..] == rest
    ensures data[limit - |rest|..limit] == rest
    ensures forall k | 0 <= k < |rest| :: data[limit - |rest| + k] == rest[k]
  {
    var whole := data[p..limit];
    forall k | 0 <= k < |rest| ensures data[limit - |rest| + k] == rest[k] {
      assert whole[limit - p - |rest| + k] == rest[k];
    }
  }

  lemma ParsesEntry(data: Bytes, limit: nat, ps: seq<Pair>, interval: nat, i: nat, key: Bytes)
    requires HoldsBody(data, limit, ps, interval) && i < |ps| && KeyReady(ps, interval, i, key)
    ensures var r := ParseAt(data, limit, Offset(ps, interval, i), key);
      && r.Found? && r.key == ps[i].key && r.valueOffset + r.valueSize == Offset(ps, interval, i + 1)
      && data[r.valueOffset..r.valueOffset + r.valueSize] == ps[i].value
  {
    hide Body, DecodeEntry, SharedNext, HoldsBody;
    DecodesAt(data, limit, ps, interval, i);
    var n := Shared(ps, interval, i);
    assert ps[i].key == ps[i].key[..n] + ps[i].key[n..];
  }

  // ----- Restart points -----

  /** The counter starts again behind every full interval. */
  lemma {:induction false} CounterIs(ps: seq<Pair>, interval: nat)
    requires 0 < interval
    ensures Counter(ps, interval) == if ps == [] then 0 else (|ps| - 1) % interval + 1
    ensures Counter(ps, interval) >= interval <==> ps != [] && |ps| % interval == 0
  {
    if ps != [] {
      var front := ps[..|ps| - 1];
      CounterIs(front, interval);
      OneOn(|ps| - 1, interval);
      if front != [] {
        OneOn(|front| - 1, interval);
      }
    }
  }

  lemma OneOn(n: nat, d: nat)
    requires 0 < d
    ensures (n + 1) % d == if n % d + 1 == d then 0 else n % d + 1
    ensures (n + 1) / d == if n % d + 1 == d then n / d + 1 else n / d
  {
    assert n == n / d * d + n % d;
    if n % d + 1 == d {
      Spread(n / d, d);
      QuotientOf(n + 1, d, n / d + 1, 0);
    } else {
      QuotientOf(n + 1, d, n / d, n % d + 1);
    }
  }

  lemma Spread(q: nat, d: nat)
    ensures (q + 1) * d == q * d + d
  {
  }

  lemma QuotientOf(n: nat, d: nat, q: nat, r: nat)
    requires 0 < d && n == q * d + r && r < d
    ensures n / d == q && n % d == r
  {
    assert n == n / d * d + n % d;
    if n / d < q {
      Apart(n / d, q, d);
    } else if q < n / d {
      Apart(q, n / d, d);
    }
  }

  lemma Apart(p: nat, q: nat, d: nat)
    requires p < q
    ensures p * d + d <= q * d
  {
    Distributes(p, q - p, d);
    AtLeastOnce(q - p, d);
  }

  /** The multiple of `d` that a number in the interval below it can only be. */
  lemma Boundary(n: nat, d: nat, r: nat)
    requires 0 < d && 0 < r && (r - 1) * d < n <= r * d
    ensures n % d == 0 <==> n == r * d
  {
    var q := n / d;
    assert n == q * d + n % d;
    if n == r * d {
      QuotientOf(n, d, r, 0);
    } else if n % d == 0 {
      if q < r - 1 {
        Apart(q, r - 1, d);
      } else if r < q {
        Apart(r, q, d);
      }
    }
  }

  /** Restart point `k` is at entry `k * interval`; there are as many as needed. */
  lemma {:induction false} StartsAre(ps: seq<Pair>, interval: nat)
    requires 0 < interval
    ensures var r := |Starts(ps, interval)|;
      if ps == [] then r == 1 else (r - 1) * interval < |ps| <= r * interval
    ensures forall k | 0 <= k < |Starts(ps, interval)| :: Starts(ps, interval)[k] == k * interval
  {
    if ps != [] {
      var n := |ps| - 1;
      var front := ps[..n];
      StartsAre(front, interval);
      CounterIs(front, interval);
      var r := |Starts(front, interval)|;
      if n > 0 {
        Boundary(n, interval, r);
        Distributes(r, 1, interval);
      }
    }
  }

  lemma {:induction false} StartsGrow(ps: seq<Pair>, interval: nat)
    requires 0 < interval
    ensures forall k | 0 <= k < |Starts(ps, interval)| :: Starts(ps, interval)[k] < |ps| || (ps == [] && k == 0)
    ensures forall j, k | 0 <= j < k < |Starts(ps, interval)| :: Starts(ps, interval)[j] < Starts(ps, interval)[k]
  {
    if ps != [] {
      StartsGrow(ps[..|ps| - 1], interval);
    }
  }

  /** At a restart point the whole key is stored. */
  lemma {:induction false} StartsShareNothing(ps: seq<Pair>, interval: nat, k: nat)
    requires 0 < interval && k < |Starts(ps, interval)| && Starts(ps, interval)[k] < |ps|
    ensures Shared(ps, interval, Starts(ps, interval)[k]) == 0
  {
    var front := ps[..|ps| - 1];
    if k < |Starts(front, interval)| {
      var i := Starts(ps, interval)[k];
      StartsGrow(front, interval);
      if i < |front| {
        StartsShareNothing(front, interval, k);
        assert front[..i] == ps[..i];
      } else {
        assert ps[..0] == [];
      }
    } else {
      assert ps[..|front|] == front;
    }
  }

  lemma {:induction false} FixedWord(words: seq<nat>, k: nat)
    requires k < |words|
    ensures FixedAll(words)[4 * k..4 * k + 4] == Fixed(words[k], 4)
  {
    var m := |words| - 1;
    var front := FixedAll(words[..m]);
    if k < m {
      FixedWord(words[..m], k);
      assert FixedAll(words)[4 * k..4 * k + 4] == front[4 * k..4 * k + 4];
    }
  }

  lemma MiddleSlice(a: Bytes, b: Bytes, c: Bytes, i: nat, j: nat)
    requires i <= j <= |b|
    ensures (a + b + c)[|a| + i..|a| + j] == b[i..j]
  {
  }

  lemma RestartPointIs(ps: seq<Pair>, interval: nat, k: nat)
    requires 0 < interval && k < |Starts(ps, interval)| && |Body(ps, interval)| < TWO32
    ensures Starts(ps, interval)[k] <= |ps|
    ensures |Body(ps, interval)| + 4 * k + 4 <= |BlockBytes(ps, interval)|
    ensures RestartPoint(BlockBytes(ps, interval), |Body(ps, interval)|, k) == Offset(ps, interval, Starts(ps, interval)[k])
  {
    hide Body, Fixed, Starts, FixedAll;
    StartsGrow(ps, interval);
    var offsets, body := Offsets(ps, interval), Body(ps, interval);
    var all, data := FixedAll(offsets), BlockBytes(ps, interval);
    FixedWord(offsets, k);
    MiddleSlice(body, all, Fixed(|Starts(ps, interval)|, 4), 4 * k, 4 * k + 4);
    OffsetsGrow(ps, interval, Starts(ps, interval)[k], |ps|);
    Powers();
    FixedRoundTrip(offsets[k], 4);
  }

  lemma NumRestartsIs(ps: seq<Pair>, interval: nat)
    requires |Starts(ps, interval)| < TWO32
    ensures var data := BlockBytes(ps, interval);
      |data| >= 4 && Unfixed(data[|data| - 4..]) == |Starts(ps, interval)|
  {
    hide Fixed, Starts;
    var n, data := |Starts(ps, interval)|, BlockBytes(ps, interval);
    assert data[|data| - 4..] == Fixed(n, 4);
    Powers();
    FixedRoundTrip(n, 4);
  }
}
