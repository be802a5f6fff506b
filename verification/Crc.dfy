/** Checksums and how they are stored (util/crc32c.h). */
module Crc {
  import opened Keys
  import opened Coding

  type Word = x: int | 0 <= x < 0x1_0000_0000

  /** The checksum CRC32C (section 12.1 of RFC 3720), kept abstract but for the
      law of extension. */
  type Checksum = (Word, Bytes) -> Word

  ghost predicate IsChecksum(extend: Checksum) {
    forall crc, a, b :: extend(extend(crc, a), b) == extend(crc, a + b)
  }

  const MASK_DELTA: nat := 0xa282ead8

  /** Rotates right by 15 bits and adds a constant. */
  function Mask(crc: Word): Word {
    (crc / 0x8000 + crc % 0x8000 * 0x2_0000 + MASK_DELTA) % 0x1_0000_0000
  }

  function Unmask(masked: Word): Word {
    var rot := (masked - MASK_DELTA) % 0x1_0000_0000;
    rot / 0x2_0000 + rot % 0x2_0000 * 0x8000
  }

  lemma UnmaskMask(crc: Word)
    ensures Unmask(Mask(crc)) == crc
  {
    var rot := crc / 0x8000 + crc % 0x8000 * 0x2_0000;
    assert (Mask(crc) - MASK_DELTA) % 0x1_0000_0000 == rot;
    assert rot / 0x2_0000 == crc % 0x8000 && rot % 0x2_0000 == crc / 0x8000;
  }

  function Unfixed4(b: Bytes): Word
    requires |b| == 4
  {
    UnfixedBound(b);
    Powers();
    Unfixed(b)
  }

  lemma StoredChecksum(crc: Word)
    ensures Unmask(Unfixed4(Fixed(Mask(crc), 4))) == crc
  {
    hide Mask, Unmask;
    Powers();
    FixedRoundTrip(Mask(crc), 4);
    UnmaskMask(crc);
  }

  // ----- In figures -----

  /** The four bytes of a number, least significant first. */
  function Digits(v: nat): (r: Bytes)
    ensures |r| == 4
  {
    [v % 256, v / 256 % 256, v / 65536 % 256, v / 16777216 % 256]
  }

  lemma MaskUnmask(masked: Word)
    ensures Mask(Unmask(masked)) == masked
  {
    var rot := (masked - MASK_DELTA) % 0x1_0000_0000;
    var crc := Unmask(masked);
    assert crc / 0x8000 == rot % 0x2_0000 && crc % 0x8000 == rot / 0x2_0000;
  }

  lemma MaskIs(crc: Word)
    ensures Fixed(Mask(crc), 4) == Digits((crc / 32768 + crc % 32768 * 131072 + 2726488792) % 4294967296)
  {
    hide Fixed;
    FixedIs(Mask(crc));
  }

  /** The stored bytes decide as the unmasked number does. */
  lemma SameChecksum(stored: Bytes, crc: Word)
    requires |stored| == 4
    ensures crc == Unmask(Unfixed4(stored)) <==> stored == Fixed(Mask(crc), 4)
  {
    hide Mask, Unmask, Fixed;
    StoredChecksum(crc);
    UnfixedRoundTrip(stored);
    MaskUnmask(Unfixed4(stored));
  }
}
