/** `UUIDGenerator::get_uuid` of CppUUIDv4/UUIDv4/uuidv4_uuid.hpp: two
    64-bit words drawn from the random number generator are put in a
    register and stamped with the version and variant bits of section 4.4
    of RFC 4122 (version 4, variant 10x).

    The generator and its distribution are outside the model: the two drawn
    words are parameters. C++ leaves the evaluation order of the two
    `distribution(*generator)` arguments unspecified, so the parameters are
    named for the argument they are passed as, not for the draw they came
    from. */
module Generator {
  import opened Bytes
  import opened Simd
  import opened HexText
  import opened Uuids

  /** `and_mask`: clears the upper nibble of byte 6 and the upper two bits of byte 8. */
  const AndMask: Block := SetEpi64x(0xFFFF_FFFF_FFFF_FF3F, 0xFF0F_FFFF_FFFF_FFFF)

  /** `or_mask`: sets version 4 in byte 6 and variant bits 10 in byte 8. */
  const OrMask: Block := SetEpi64x(0x0000_0000_0000_0080, 0x0040_0000_0000_0000)

  /** `_mm_or_si128(_mm_and_si128(n, and_mask), or_mask)`: byte 6 becomes
      `(b & 0x0F) | 0x40`, byte 8 becomes `(b & 0x3F) | 0x80`, and the other
      fourteen bytes are left alone. */
  function Stamp(n: Block): (r: Block)
    ensures r[6] == (n[6] & 0x0F) | 0x40
    ensures r[8] == (n[8] & 0x3F) | 0x80
    ensures forall i :: 0 <= i < 16 && i != 6 && i != 8 ==> r[i] == n[i]
  {
    AndMaskBytes();
    OrMaskBytes();
    Or(And(n, AndMask), OrMask)
  }

  /** `get_uuid()`, with the values of its two `distribution(*generator)`
      arguments as parameters: `e1` is the first argument of
      `_mm_set_epi64x` (bytes 8..15), `e0` the second (bytes 0..7). The
      result is version 4, variant 10x, and keeps every other drawn byte. */
  function GetUuid(e1: bv64, e0: bv64): (u: Uuid)
    ensures IsVersion4(u.data)
    ensures forall i :: 0 <= i < 16 && i != 6 && i != 8 ==> u.data[i] == SetEpi64x(e1, e0)[i]
  {
    StampIsVersion4(SetEpi64x(e1, e0));
    Uuid(Stamp(SetEpi64x(e1, e0)))
  }

  /** A version 4, variant 10x UUID: upper nibble of byte 6 is 4, upper two
      bits of byte 8 are 10. */
  predicate IsVersion4(x: Block) {
    x[6] >> 4 == 4 && x[8] >> 6 == 2
  }

  // ------------------------------------------------------------ the masks

  lemma AndMaskBytes()
    ensures AndMask == [0xFF, 0xFF, 0xFF, 0xFF, 0xFF, 0xFF, 0x0F, 0xFF,
                        0x3F, 0xFF, 0xFF, 0xFF, 0xFF, 0xFF, 0xFF, 0xFF]
  {
    Le64OfPack64(0xFF, 0xFF, 0xFF, 0xFF, 0xFF, 0xFF, 0x0F, 0xFF);
    Le64OfPack64(0x3F, 0xFF, 0xFF, 0xFF, 0xFF, 0xFF, 0xFF, 0xFF);
    assert Pack64(0xFF, 0xFF, 0xFF, 0xFF, 0xFF, 0xFF, 0x0F, 0xFF) == 0xFF0F_FFFF_FFFF_FFFF;
    assert Pack64(0x3F, 0xFF, 0xFF, 0xFF, 0xFF, 0xFF, 0xFF, 0xFF) == 0xFFFF_FFFF_FFFF_FF3F;
  }

  lemma OrMaskBytes()
    ensures OrMask == [0, 0, 0, 0, 0, 0, 0x40, 0, 0x80, 0, 0, 0, 0, 0, 0, 0]
  {
    Le64OfPack64(0, 0, 0, 0, 0, 0, 0x40, 0);
    Le64OfPack64(0x80, 0, 0, 0, 0, 0, 0, 0);
    assert Pack64(0, 0, 0, 0, 0, 0, 0x40, 0) == 0x0040_0000_0000_0000;
    assert Pack64(0x80, 0, 0, 0, 0, 0, 0, 0) == 0x0000_0000_0000_0080;
  }

  // ------------------------------------------------------------ stamping

  /** A stamped block is version 4, variant 10x, and keeps every other bit
      of what was drawn. */
  lemma StampIsVersion4(n: Block)
    ensures IsVersion4(Stamp(n))
    ensures Stamp(n)[6] & 0x0F == n[6] & 0x0F
    ensures Stamp(n)[8] & 0x3F == n[8] & 0x3F
  {
  }

  /** A block is left alone by stamping exactly when it is already
      version 4, variant 10x. */
  lemma StampFixedPoint(n: Block)
    ensures Stamp(n) == n <==> IsVersion4(n)
  {
    StampIsVersion4(n);
    if IsVersion4(n) {
      assert Stamp(n)[6] == n[6];
      assert Stamp(n)[8] == n[8];
      assert Stamp(n) == n;
    }
  }

  /** Stamping twice is stamping once. */
  lemma StampIdempotent(n: Block)
    ensures Stamp(Stamp(n)) == Stamp(n)
  {
    StampIsVersion4(n);
    StampFixedPoint(Stamp(n));
  }

  // ------------------------------------------------------------ generated values

  /** Masking a packed word masks each of its bytes. */
  lemma PackMask(a0: byte, a1: byte, a2: byte, a3: byte, a4: byte, a5: byte, a6: byte, a7: byte,
                 m0: byte, m1: byte, m2: byte, m3: byte, m4: byte, m5: byte, m6: byte, m7: byte,
                 o0: byte, o1: byte, o2: byte, o3: byte, o4: byte, o5: byte, o6: byte, o7: byte)
    ensures (Pack64(a0, a1, a2, a3, a4, a5, a6, a7) & Pack64(m0, m1, m2, m3, m4, m5, m6, m7))
              | Pack64(o0, o1, o2, o3, o4, o5, o6, o7)
            == Pack64((a0 & m0) | o0, (a1 & m1) | o1, (a2 & m2) | o2, (a3 & m3) | o3,
                      (a4 & m4) | o4, (a5 & m5) | o5, (a6 & m6) | o6, (a7 & m7) | o7)
  {
  }

  /** Stamping at word level: the low word gets the version nibble, the
      high word the variant bits. */
  /** Byte 6 stamped, at word level. */
  lemma VersionWord(a0: byte, a1: byte, a2: byte, a3: byte, a4: byte, a5: byte, a6: byte, a7: byte)
    ensures Pack64(a0, a1, a2, a3, a4, a5, (a6 & 0x0F) | 0x40, a7)
            == (Pack64(a0, a1, a2, a3, a4, a5, a6, a7) & 0xFF0F_FFFF_FFFF_FFFF) | 0x0040_0000_0000_0000
  {
    PackMask(a0, a1, a2, a3, a4, a5, a6, a7,
             0xFF, 0xFF, 0xFF, 0xFF, 0xFF, 0xFF, 0x0F, 0xFF,
             0, 0, 0, 0, 0, 0, 0x40, 0);
    assert Pack64(0xFF, 0xFF, 0xFF, 0xFF, 0xFF, 0xFF, 0x0F, 0xFF) == 0xFF0F_FFFF_FFFF_FFFF;
    assert Pack64(0, 0, 0, 0, 0, 0, 0x40, 0) == 0x0040_0000_0000_0000;
  }

  /** Byte 8 stamped, at word level. */
  lemma VariantWord(a0: byte, a1: byte, a2: byte, a3: byte, a4: byte, a5: byte, a6: byte, a7: byte)
    ensures Pack64((a0 & 0x3F) | 0x80, a1, a2, a3, a4, a5, a6, a7)
            == (Pack64(a0, a1, a2, a3, a4, a5, a6, a7) & 0xFFFF_FFFF_FFFF_FF3F) | 0x80
  {
    PackMask(a0, a1, a2, a3, a4, a5, a6, a7,
             0x3F, 0xFF, 0xFF, 0xFF, 0xFF, 0xFF, 0xFF, 0xFF,
             0x80, 0, 0, 0, 0, 0, 0, 0);
    assert Pack64(0x3F, 0xFF, 0xFF, 0xFF, 0xFF, 0xFF, 0xFF, 0xFF) == 0xFFFF_FFFF_FFFF_FF3F;
    assert Pack64(0x80, 0, 0, 0, 0, 0, 0, 0) == 0x80;
  }

  /** A block whose first eight bytes are stamped has the stamped low word. */
  lemma StampLowWord(n: Block, r: Block)
    requires r[6] == (n[6] & 0x0F) | 0x40
    requires forall i :: 0 <= i < 8 && i != 6 ==> r[i] == n[i]
    ensures Word64(r, 0) == (Word64(n, 0) & 0xFF0F_FFFF_FFFF_FFFF) | 0x0040_0000_0000_0000
  {
    assert Word64(r, 0) == Pack64(n[0], n[1], n[2], n[3], n[4], n[5], (n[6] & 0x0F) | 0x40, n[7]) by {
      assert r[0] == n[0] && r[1] == n[1] && r[2] == n[2] && r[3] == n[3];
      assert r[4] == n[4] && r[5] == n[5] && r[7] == n[7];
    }
    VersionWord(n[0], n[1], n[2], n[3], n[4], n[5], n[6], n[7]);
  }

  /** A block whose last eight bytes are stamped has the stamped high word. */
  lemma StampHighWord(n: Block, r: Block)
    requires r[8] == (n[8] & 0x3F) | 0x80
    requires forall i :: 8 < i < 16 ==> r[i] == n[i]
    ensures Word64(r, 8) == (Word64(n, 8) & 0xFFFF_FFFF_FFFF_FF3F) | 0x80
  {
    assert Word64(r, 8) == Pack64((n[8] & 0x3F) | 0x80, n[9], n[10], n[11], n[12], n[13], n[14], n[15]) by {
      assert r[9] == n[9] && r[10] == n[10] && r[11] == n[11] && r[12] == n[12];
      assert r[13] == n[13] && r[14] == n[14] && r[15] == n[15];
    }
    VariantWord(n[8], n[9], n[10], n[11], n[12], n[13], n[14], n[15]);
  }

  /** The two words of a generated UUID are the drawn words with the masks
      applied word by word. */
  lemma GetUuidLowWord(e1: bv64, e0: bv64)
    ensures LowWord(GetUuid(e1, e0)) == (e0 & 0xFF0F_FFFF_FFFF_FFFF) | 0x0040_0000_0000_0000
  {
    var n := FromWords(e1, e0).data;
    assert GetUuid(e1, e0).data == Stamp(n);
    StampedLowWord(GetUuid(e1, e0), n, e0);
  }

  lemma GetUuidHighWord(e1: bv64, e0: bv64)
    ensures HighWord(GetUuid(e1, e0)) == (e1 & 0xFFFF_FFFF_FFFF_FF3F) | 0x80
  {
    var n := FromWords(e1, e0).data;
    assert GetUuid(e1, e0).data == Stamp(n);
    StampedHighWord(GetUuid(e1, e0), n, e1);
  }

  /** A value whose first eight bytes are those of `n` stamped has the
      stamped low word. */
  lemma StampedLowWord(g: Uuid, n: Block, w: bv64)
    requires Word64(n, 0) == w
    requires g.data[6] == (n[6] & 0x0F) | 0x40
    requires forall i :: 0 <= i < 8 && i != 6 ==> g.data[i] == n[i]
    ensures LowWord(g) == (w & 0xFF0F_FFFF_FFFF_FFFF) | 0x0040_0000_0000_0000
  {
    StampLowWord(n, g.data);
  }

  /** A value whose last eight bytes are those of `n` stamped has the
      stamped high word. */
  lemma StampedHighWord(g: Uuid, n: Block, w: bv64)
    requires Word64(n, 8) == w
    requires g.data[8] == (n[8] & 0x3F) | 0x80
    requires forall i :: 8 < i < 16 ==> g.data[i] == n[i]
    ensures HighWord(g) == (w & 0xFFFF_FFFF_FFFF_FF3F) | 0x80
  {
    StampHighWord(n, g.data);
  }

  lemma GetUuidWords(e1: bv64, e0: bv64)
    ensures GetAB(GetUuid(e1, e0))
            == ((e1 & 0xFFFF_FFFF_FFFF_FF3F) | 0x80, (e0 & 0xFF0F_FFFF_FFFF_FFFF) | 0x0040_0000_0000_0000)
  {
    GetUuidLowWord(e1, e0);
    GetUuidHighWord(e1, e0);
  }

  /** The text of a version 4 UUID has the version digit '4' at offset 14
      and one of '8', '9', 'a', 'b' at offset 19. */
  lemma Version4Text(x: Block)
    requires IsVersion4(x)
    ensures CanonicalText(x)[14] == '4' as byte
    ensures CanonicalText(x)[19] in {'8' as byte, '9' as byte, 'a' as byte, 'b' as byte}
  {
    CanonicalTextAt(x, 14);
    CanonicalTextAt(x, 19);
    NibblePair(x, 6);
    NibblePair(x, 8);
    assert DigitIndex(14) == 2 * 6 && DigitIndex(19) == 2 * 8;
    var v := x[8] >> 4;
    assert 8 <= v < 12;
    assert Nibble(x, 16) == v;
    if v == 8 {} else if v == 9 {} else if v == 10 {} else {}
  }

  /** Every generated UUID reads as version 4 in its text. */
  lemma GeneratedText(e1: bv64, e0: bv64)
    ensures Str(GetUuid(e1, e0))[14] == '4' as byte
    ensures Str(GetUuid(e1, e0))[19] in {'8' as byte, '9' as byte, 'a' as byte, 'b' as byte}
  {
    Version4Text(GetUuid(e1, e0).data);
  }
}
