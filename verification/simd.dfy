/** The byte-level meaning of the SSE/AVX2 operations (called through SIMDe)
    that the codec and the generator use.

    A 256-bit register is its 32 bytes in memory order: byte 0 is the least
    significant byte of 64-bit element 0, bytes 0..15 form the low 128-bit
    lane and bytes 16..31 the high lane. A 128-bit register is a `Block`.
    Element-wise operations wrap modulo 2^8, 2^32 or 2^64 as the hardware
    does, which bit-vector arithmetic gives for free. */
module Simd {
  import opened Bytes

  type Ymm = s: seq<byte> | |s| == 32
    witness [0, 0, 0, 0, 0, 0, 0, 0, 0, 0, 0, 0, 0, 0, 0, 0,
             0, 0, 0, 0, 0, 0, 0, 0, 0, 0, 0, 0, 0, 0, 0, 0]

  // ---------------------------------------------------------------- constants

  /** `_mm256_set1_epi8(b)` */
  function Set1Epi8(b: byte): Ymm {
    seq(32, _ => b)
  }

  /** `_mm256_setzero_si256()` */
  function SetZero(): Ymm {
    Set1Epi8(0)
  }

  /** `_mm256_set_epi32(e7, ..., e0)`: the arguments run from the most
      significant 32-bit element down to the least significant one. */
  function SetEpi32(e7: bv32, e6: bv32, e5: bv32, e4: bv32,
                    e3: bv32, e2: bv32, e1: bv32, e0: bv32): Ymm
  {
    Le32(e0) + Le32(e1) + Le32(e2) + Le32(e3) + Le32(e4) + Le32(e5) + Le32(e6) + Le32(e7)
  }

  /** `_mm256_set_epi64x(e3, e2, e1, e0)` */
  function Set4Epi64x(e3: bv64, e2: bv64, e1: bv64, e0: bv64): Ymm {
    Le64(e0) + Le64(e1) + Le64(e2) + Le64(e3)
  }

  /** `_mm_set_epi64x(e1, e0)`: `e0` is the low half. */
  function SetEpi64x(e1: bv64, e0: bv64): Block {
    Le64(e0) + Le64(e1)
  }

  // ------------------------------------------------------- lane bookkeeping

  /** `_mm256_castsi128_si256(x)`: the upper half is undefined in C++, so it
      is a parameter here. */
  function Cast128To256(x: Block, upper: Block): Ymm {
    x + upper
  }

  /** `_mm256_castsi256_si128(v)`: the low lane. */
  function Cast256To128(v: Ymm): Block {
    v[..16]
  }

  /** `_mm256_inserti128_si256(v, h, 1)`: replaces the high lane. */
  function InsertHighLane(v: Ymm, h: Block): Ymm {
    v[..16] + h
  }

  /** `_mm256_insert_epi16(v, w, k)`, with `w` given as its two bytes. */
  function Insert16(v: Ymm, w: seq<byte>, k: nat): Ymm
    requires |w| == 2 && k < 16
  {
    v[..2 * k] + w + v[2 * k + 2..]
  }

  /** `_mm256_insert_epi32(v, w, k)`, with `w` given as its four bytes. */
  function Insert32(v: Ymm, w: seq<byte>, k: nat): Ymm
    requires |w| == 4 && k < 8
  {
    v[..4 * k] + w + v[4 * k + 4..]
  }

  /** `_mm256_extract_epi16(v, k)`, as the two bytes a little-endian store writes. */
  function Extract16(v: Ymm, k: nat): (r: seq<byte>)
    requires k < 16
    ensures |r| == 2
  {
    v[2 * k..2 * k + 2]
  }

  /** `_mm256_extract_epi32(v, k)`, as the four bytes a little-endian store writes. */
  function Extract32(v: Ymm, k: nat): (r: seq<byte>)
    requires k < 8
    ensures |r| == 4
  {
    v[4 * k..4 * k + 4]
  }

  // ------------------------------------------------------ element-wise ops

  /** `and` of two registers of equal width. */
  function And(a: seq<byte>, b: seq<byte>): (r: seq<byte>)
    requires |a| == |b|
    ensures |r| == |a|
  {
    seq(|a|, i requires 0 <= i < |a| => a[i] & b[i])
  }

  /** `or` of two registers of equal width. */
  function Or(a: seq<byte>, b: seq<byte>): (r: seq<byte>)
    requires |a| == |b|
    ensures |r| == |a|
  {
    seq(|a|, i requires 0 <= i < |a| => a[i] | b[i])
  }

  /** `xor` of two registers of equal width. */
  function Xor(a: seq<byte>, b: seq<byte>): (r: seq<byte>)
    requires |a| == |b|
    ensures |r| == |a|
  {
    seq(|a|, i requires 0 <= i < |a| => a[i] ^ b[i])
  }

  /** `_mm_test_all_zeros(a, mask)`: no bit is set in both. */
  predicate TestAllZeros(a: Block, mask: Block) {
    forall i :: 0 <= i < 16 ==> a[i] & mask[i] == 0
  }

  /** `_mm256_add_epi8` */
  function Add8(a: Ymm, b: Ymm): Ymm {
    seq(32, i requires 0 <= i < 32 => a[i] + b[i])
  }

  /** `_mm256_sub_epi8` */
  function Sub8(a: Ymm, b: Ymm): Ymm {
    seq(32, i requires 0 <= i < 32 => a[i] - b[i])
  }

  /** `_mm256_blendv_epi8(a, b, mask)`: `b` where the mask byte's top bit is set. */
  function Blendv8(a: Ymm, b: Ymm, mask: Ymm): Ymm {
    seq(32, i requires 0 <= i < 32 => if mask[i] & 0x80 != 0 then b[i] else a[i])
  }

  function ShiftRight64(w: bv64, n: bv64): bv64
    requires n <= 64
  {
    w >> n
  }

  function ShiftLeft64(w: bv64, n: bv64): bv64
    requires n <= 64
  {
    w << n
  }

  /** `_mm256_srli_epi64(v, n)`: each 64-bit element shifted right. */
  function Srli64(v: Ymm, n: bv64): Ymm
    requires n <= 64
  {
    seq(32, i requires 0 <= i < 32 => Le64(ShiftRight64(Word64(v, 8 * (i / 8)), n))[i % 8])
  }

  /** `_mm256_slli_epi64(v, n)`: each 64-bit element shifted left. */
  function Slli64(v: Ymm, n: bv64): Ymm
    requires n <= 64
  {
    seq(32, i requires 0 <= i < 32 => Le64(ShiftLeft64(Word64(v, 8 * (i / 8)), n))[i % 8])
  }

  /** A 32-bit element shifted left by a 32-bit count, as `sllv` does it. */
  function ShiftLeft32(w: bv32, c: bv32): bv32 {
    if c > 31 then 0 else w << c
  }

  /** `_mm256_sllv_epi32(v, counts)`: each 32-bit element shifted left by the
      matching element of `counts`; a count above 31 clears the element. */
  function Sllv32(v: Ymm, counts: Ymm): Ymm {
    seq(32, i requires 0 <= i < 32 =>
      var e := 4 * (i / 4);
      Le32(ShiftLeft32(Word32(v, e), Word32(counts, e)))[i % 4])
  }

  /** Addition of 32-bit elements, wrapping modulo 2^32. */
  function Add32(x: bv32, y: bv32): bv32 {
    x + y
  }

  /** `_mm256_hadd_epi32(a, b)`: in each 128-bit lane, the sums of adjacent
      32-bit pairs of `a`, then those of `b`. */
  function Hadd32(a: Ymm, b: Ymm): Ymm {
    seq(32, i requires 0 <= i < 32 =>
      var j := (i % 16) / 4;
      var p := 16 * (i / 16) + 8 * (j % 2);
      if j < 2 then Le32(Add32(Word32(a, p), Word32(a, p + 4)))[i % 4]
      else Le32(Add32(Word32(b, p), Word32(b, p + 4)))[i % 4])
  }

  // ----------------------------------------------------------------- shuffles

  /** `_mm256_unpacklo_epi8(a, b)`: in each lane, the low eight bytes of `a`
      and `b` interleaved, `a` first. */
  function UnpackLo8(a: Ymm, b: Ymm): Ymm {
    seq(32, i requires 0 <= i < 32 =>
      var src := 16 * (i / 16) + (i % 16) / 2;
      if i % 2 == 0 then a[src] else b[src])
  }

  /** `_mm256_unpackhi_epi8(a, b)`: in each lane, the high eight bytes of `a`
      and `b` interleaved, `a` first. */
  function UnpackHi8(a: Ymm, b: Ymm): Ymm {
    seq(32, i requires 0 <= i < 32 =>
      var src := 16 * (i / 16) + 8 + (i % 16) / 2;
      if i % 2 == 0 then a[src] else b[src])
  }

  /** `_mm256_shuffle_epi8(v, m)`: byte `i` is zero when the top bit of `m[i]`
      is set, and otherwise the byte of `v`'s lane that `m[i]`'s low nibble selects. */
  function Shuffle8(v: Ymm, m: Ymm): Ymm {
    seq(32, i requires 0 <= i < 32 =>
      if m[i] & 0x80 != 0 then 0 else v[16 * (i / 16) + (m[i] & 0x0F) as int])
  }

  /** Bits `2q+1..2q` of `imm`. */
  function Selector(imm: bv8, q: nat): nat
    requires q < 4
  {
    ((imm >> (2 * q)) & 3) as nat
  }

  /** `_mm256_permute4x64_epi64(v, imm)`: 64-bit element `q` of the result is
      the element of `v` selected by bits `2q+1..2q` of `imm`. */
  function Permute4x64(v: Ymm, imm: bv8): Ymm {
    seq(32, i requires 0 <= i < 32 =>
      var q := Selector(imm, i / 8);
      v[8 * q + i % 8])
  }

  // ------------------------------------------------------------------ memory

  /** Writing the bytes `b` into `mem` at offset `off`. */
  function Store(mem: seq<byte>, off: nat, b: seq<byte>): (r: seq<byte>)
    requires off + |b| <= |mem|
    ensures |r| == |mem|
  {
    mem[..off] + b + mem[off + |b|..]
  }

  // ------------------------------------------------- facts about the shifts

  /** The bytes of a 64-bit value, written out without a sequence. */
  lemma ByteLanes64(w: bv64)
    ensures Le64(w) == [ (w & 0xFF) as byte, ((w >> 8) & 0xFF) as byte,
      ((w >> 16) & 0xFF) as byte, ((w >> 24) & 0xFF) as byte,
      ((w >> 32) & 0xFF) as byte, ((w >> 40) & 0xFF) as byte,
      ((w >> 48) & 0xFF) as byte, ((w >> 56) & 0xFF) as byte ]
  {
  }

  lemma ShiftRight4Bits(b0: byte, b1: byte, b2: byte, b3: byte,
                        b4: byte, b5: byte, b6: byte, b7: byte)
    ensures var w := Pack64(b0, b1, b2, b3, b4, b5, b6, b7) >> 4;
      && ((w & 0xFF) as byte) & 0x0F == b0 >> 4
      && (((w >> 8) & 0xFF) as byte) & 0x0F == b1 >> 4
      && (((w >> 16) & 0xFF) as byte) & 0x0F == b2 >> 4
      && (((w >> 24) & 0xFF) as byte) & 0x0F == b3 >> 4
      && (((w >> 32) & 0xFF) as byte) & 0x0F == b4 >> 4
      && (((w >> 40) & 0xFF) as byte) & 0x0F == b5 >> 4
      && (((w >> 48) & 0xFF) as byte) & 0x0F == b6 >> 4
      && (((w >> 56) & 0xFF) as byte) & 0x0F == b7 >> 4
  {
  }

  lemma ShiftLeft3Bits(b0: byte, b1: byte, b2: byte, b3: byte,
                       b4: byte, b5: byte, b6: byte, b7: byte)
    requires b0 >> 5 == 0 && b1 >> 5 == 0 && b2 >> 5 == 0 && b3 >> 5 == 0
    requires b4 >> 5 == 0 && b5 >> 5 == 0 && b6 >> 5 == 0
    ensures var w := Pack64(b0, b1, b2, b3, b4, b5, b6, b7) << 3;
      && (w & 0xFF) as byte == b0 << 3
      && ((w >> 8) & 0xFF) as byte == b1 << 3
      && ((w >> 16) & 0xFF) as byte == b2 << 3
      && ((w >> 24) & 0xFF) as byte == b3 << 3
      && ((w >> 32) & 0xFF) as byte == b4 << 3
      && ((w >> 40) & 0xFF) as byte == b5 << 3
      && ((w >> 48) & 0xFF) as byte == b6 << 3
      && ((w >> 56) & 0xFF) as byte == b7 << 3
  {
  }

  lemma ShiftLeft2Bits(b0: byte, b1: byte, b2: byte, b3: byte,
                       b4: byte, b5: byte, b6: byte, b7: byte)
    requires b0 >> 6 == 0 && b1 >> 6 == 0 && b2 >> 6 == 0 && b3 >> 6 == 0
    requires b4 >> 6 == 0 && b5 >> 6 == 0 && b6 >> 6 == 0
    ensures var w := Pack64(b0, b1, b2, b3, b4, b5, b6, b7) << 2;
      && (w & 0xFF) as byte == b0 << 2
      && ((w >> 8) & 0xFF) as byte == b1 << 2
      && ((w >> 16) & 0xFF) as byte == b2 << 2
      && ((w >> 24) & 0xFF) as byte == b3 << 2
      && ((w >> 32) & 0xFF) as byte == b4 << 2
      && ((w >> 40) & 0xFF) as byte == b5 << 2
      && ((w >> 48) & 0xFF) as byte == b6 << 2
      && ((w >> 56) & 0xFF) as byte == b7 << 2
  {
  }

  lemma LaneHighNibbles(v: Ymm, b: nat)
    requires b + 8 <= 32
    ensures var r := Le64(ShiftRight64(Word64(v, b), 4));
      && r[0] & 0x0F == v[b] >> 4 && r[1] & 0x0F == v[b + 1] >> 4
      && r[2] & 0x0F == v[b + 2] >> 4 && r[3] & 0x0F == v[b + 3] >> 4
      && r[4] & 0x0F == v[b + 4] >> 4 && r[5] & 0x0F == v[b + 5] >> 4
      && r[6] & 0x0F == v[b + 6] >> 4 && r[7] & 0x0F == v[b + 7] >> 4
  {
    ShiftRight4Bits(v[b], v[b + 1], v[b + 2], v[b + 3], v[b + 4], v[b + 5], v[b + 6], v[b + 7]);
    ByteLanes64(ShiftRight64(Word64(v, b), 4));
  }

  /** Shifting a 64-bit element right by 4 puts each byte's high nibble in
      the low nibble of the same byte. */
  lemma Srli64HighNibble(v: Ymm, i: nat)
    requires i < 32
    ensures Srli64(v, 4)[i] & 0x0F == v[i] >> 4
  {
    var b := 8 * (i / 8);
    var k := i - b;
    var w := ShiftRight64(Word64(v, b), 4);
    assert Srli64(v, 4)[i] == Le64(w)[k];
    LaneHighNibbles(v, b);
    if k == 0 {} else if k == 1 {} else if k == 2 {} else if k == 3 {}
    else if k == 4 {} else if k == 5 {} else if k == 6 {} else {}
  }

  lemma LaneShiftLeft3(v: Ymm, b: nat)
    requires b + 8 <= 32
    requires v[b] >> 5 == 0 && v[b + 1] >> 5 == 0 && v[b + 2] >> 5 == 0 && v[b + 3] >> 5 == 0
    requires v[b + 4] >> 5 == 0 && v[b + 5] >> 5 == 0 && v[b + 6] >> 5 == 0
    ensures var r := Le64(ShiftLeft64(Word64(v, b), 3));
      && r[0] == v[b] << 3 && r[1] == v[b + 1] << 3 && r[2] == v[b + 2] << 3
      && r[3] == v[b + 3] << 3 && r[4] == v[b + 4] << 3 && r[5] == v[b + 5] << 3
      && r[6] == v[b + 6] << 3 && r[7] == v[b + 7] << 3
  {
    ShiftLeft3Bits(v[b], v[b + 1], v[b + 2], v[b + 3], v[b + 4], v[b + 5], v[b + 6], v[b + 7]);
    ByteLanes64(ShiftLeft64(Word64(v, b), 3));
  }

  /** When the top three bits of every byte are clear, shifting the 64-bit
      elements left by 3 shifts each byte on its own. */
  lemma Slli64By3Bytewise(v: Ymm, i: nat)
    requires i < 32
    requires forall j :: 0 <= j < 32 ==> v[j] >> 5 == 0
    ensures Slli64(v, 3)[i] == v[i] << 3
  {
    var b := 8 * (i / 8);
    var k := i - b;
    assert Slli64(v, 3)[i] == Le64(ShiftLeft64(Word64(v, b), 3))[k];
    assert v[b] >> 5 == 0 && v[b + 1] >> 5 == 0 && v[b + 2] >> 5 == 0 && v[b + 3] >> 5 == 0;
    assert v[b + 4] >> 5 == 0 && v[b + 5] >> 5 == 0 && v[b + 6] >> 5 == 0;
    LaneShiftLeft3(v, b);
    if k == 0 {} else if k == 1 {} else if k == 2 {} else if k == 3 {}
    else if k == 4 {} else if k == 5 {} else if k == 6 {} else {}
  }

  lemma LaneShiftLeft2(v: Ymm, b: nat)
    requires b + 8 <= 32
    requires v[b] >> 6 == 0 && v[b + 1] >> 6 == 0 && v[b + 2] >> 6 == 0 && v[b + 3] >> 6 == 0
    requires v[b + 4] >> 6 == 0 && v[b + 5] >> 6 == 0 && v[b + 6] >> 6 == 0
    ensures var r := Le64(ShiftLeft64(Word64(v, b), 2));
      && r[0] == v[b] << 2 && r[1] == v[b + 1] << 2 && r[2] == v[b + 2] << 2
      && r[3] == v[b + 3] << 2 && r[4] == v[b + 4] << 2 && r[5] == v[b + 5] << 2
      && r[6] == v[b + 6] << 2 && r[7] == v[b + 7] << 2
  {
    ShiftLeft2Bits(v[b], v[b + 1], v[b + 2], v[b + 3], v[b + 4], v[b + 5], v[b + 6], v[b + 7]);
    ByteLanes64(ShiftLeft64(Word64(v, b), 2));
  }

  /** The same for a shift by 2, when the top two bits of every byte are clear. */
  lemma Slli64By2Bytewise(v: Ymm, i: nat)
    requires i < 32
    requires forall j :: 0 <= j < 32 ==> v[j] >> 6 == 0
    ensures Slli64(v, 2)[i] == v[i] << 2
  {
    var b := 8 * (i / 8);
    var k := i - b;
    assert Slli64(v, 2)[i] == Le64(ShiftLeft64(Word64(v, b), 2))[k];
    assert v[b] >> 6 == 0 && v[b + 1] >> 6 == 0 && v[b + 2] >> 6 == 0 && v[b + 3] >> 6 == 0;
    assert v[b + 4] >> 6 == 0 && v[b + 5] >> 6 == 0 && v[b + 6] >> 6 == 0;
    LaneShiftLeft2(v, b);
    if k == 0 {} else if k == 1 {} else if k == 2 {} else if k == 3 {}
    else if k == 4 {} else if k == 5 {} else if k == 6 {} else {}
  }
}
