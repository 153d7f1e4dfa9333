/** The text codec of CppUUIDv4/UUIDv4/uuidv4_uuid.hpp: `m128itos` (16 bytes
    to 36 characters) and `stom128i` (36 characters to 16 bytes), modelled
    intrinsic by intrinsic on the byte-level register semantics of `Simd`,
    and proved equal to the plain hex-with-dashes form of `HexText`.

    Both run on a little-endian host, where every `betole*` is the identity. */
module Codec {
  import opened Bytes
  import opened Simd
  import opened HexText

  // ===================================================== digit gathering

  /** The 32 digit positions of a 36-character text, separators dropped. */
  function Undashed(s: seq<byte>): Ymm
    requires |s| == 36
  {
    seq(32, j requires 0 <= j < 32 => s[DigitOffset(j)])
  }

  // ===================================================== encode (m128itos)

  /** Per-byte arithmetic of lines 42-45 for one nibble `d`: add 0x57 when
      `d + 6` carries into bit 4 (so `d >= 10`), and 0x30 otherwise. */
  function NibbleChar(d: byte): (c: byte)
    ensures d < 16 ==> c == HexDigit(d)
    ensures d < 16 ==> IsHexChar(c)
  {
    d + (if (d + 6) & 0x10 != 0 then 0x57 else 0x30)
  }

  /** Lines 37-42: each byte of `x` spread into two bytes holding its high
      and its low nibble. `upper` is the undefined upper half of the cast. */
  function SpreadNibbles(x: Block, upper: Block): Ymm {
    var a := Cast128To256(x, upper);
    var shifted := Srli64(a, 4);
    var lo := UnpackLo8(shifted, a);
    var hi := Cast256To128(UnpackHi8(shifted, a));
    And(InsertHighLane(lo, hi), Set1Epi8(0x0F))
  }

  /** Lines 43-45: each nibble turned into its ASCII digit. */
  function NibblesToAscii(d: Ymm): Ymm {
    var alpha := Slli64(And(Add8(d, Set1Epi8(0x06)), Set1Epi8(0x10)), 3);
    var offset := Blendv8(Slli64(Set1Epi8(0x06), 3), Set1Epi8(0x57), alpha);
    Add8(d, offset)
  }

  /** The shuffle of line 49 and the separators of line 50. */
  const EncodeDashShuffle: Ymm :=
    SetEpi32(0x0b0a0908, 0x07060504, 0x80030201, 0x00808080,
             0x0d0c800b, 0x0a090880, 0x07060504, 0x03020100)

  const DashBytes: Ymm :=
    Set4Epi64x(0x0000000000000000, 0x2d000000002d0000, 0x00002d000000002d, 0x0000000000000000)

  /** Lines 49-57: the 32 digits written into the 36-byte buffer `mem`. */
  function PlaceDashes(res: Ymm, mem: seq<byte>): (r: seq<byte>)
    requires |mem| == 36
    ensures |r| == 36
  {
    var resd := DashedDigits(res);
    var m1 := Store(mem, 0, resd);
    var m2 := Store(m1, 16, Extract16(res, 7));
    Store(m2, 32, Extract32(res, 7))
  }

  /** `m128itos(x, mem)`: the buffer after the call. It holds the canonical
      text of `x`, whatever the undefined upper half and the buffer's prior
      contents were. */
  function EncodeInto(x: Block, upper: Block, mem: seq<byte>): (r: seq<byte>)
    requires |mem| == 36
    ensures r == CanonicalText(x)
  {
    HexLanesAreHex(x, upper);
    PlaceDashesIsDashed(Hex(x), mem);
    CanonicalTextIsDashedHex(x);
    PlaceDashes(NibblesToAscii(SpreadNibbles(x, upper)), mem)
  }

  /** `UUID::str()`: a fresh 36-character string (zero-filled by `resize`). */
  function Encode(x: Block): (r: seq<byte>)
    ensures r == CanonicalText(x)
    ensures IsCanonical(r)
  {
    CanonicalTextIsCanonical(x);
    EncodeInto(x, Zeros(16), Zeros(36))
  }

  // ----------------------------------------------------- encode proofs

  /** Lines 38-41 interleave, byte by byte, the shifted copy `s` with the
      original `a`, taking the low lane's low half and its high half. */
  lemma InterleaveLane(s: Ymm, a: Ymm, j: nat)
    requires j < 32
    ensures InsertHighLane(UnpackLo8(s, a), Cast256To128(UnpackHi8(s, a)))[j]
            == if j % 2 == 0 then s[j / 2] else a[j / 2]
  {
    if j < 16 {
      assert InsertHighLane(UnpackLo8(s, a), Cast256To128(UnpackHi8(s, a)))[j] == UnpackLo8(s, a)[j];
    } else {
      assert InsertHighLane(UnpackLo8(s, a), Cast256To128(UnpackHi8(s, a)))[j] == UnpackHi8(s, a)[j - 16];
    }
  }

  lemma SpreadNibblesLane(x: Block, upper: Block, j: nat)
    requires j < 32
    ensures SpreadNibbles(x, upper)[j] == Nibble(x, j)
  {
    var a := Cast128To256(x, upper);
    var shifted := Srli64(a, 4);
    InterleaveLane(shifted, a, j);
    assert a[j / 2] == x[j / 2];
    Srli64HighNibble(a, j / 2);
  }

  lemma NibblesToAsciiLane(d: Ymm, j: nat)
    requires j < 32
    ensures NibblesToAscii(d)[j] == NibbleChar(d[j])
  {
    var t := And(Add8(d, Set1Epi8(0x06)), Set1Epi8(0x10));
    assert forall i :: 0 <= i < 32 ==> t[i] >> 5 == 0;
    Slli64By3Bytewise(t, j);
    var six := Set1Epi8(0x06);
    assert forall i :: 0 <= i < 32 ==> six[i] >> 5 == 0;
    Slli64By3Bytewise(six, j);
  }

  /** The character for nibble `j` of `x` is the `j`-th hexadecimal digit of `x`. */
  lemma NibbleCharIsHex(x: Block, j: nat)
    requires j < 32
    ensures NibbleChar(Nibble(x, j)) == Hex(x)[j]
  {
    HexIndex(x, j / 2);
    if j % 2 == 0 {
      assert Hex(x)[j] == HexDigit(x[j / 2] >> 4);
    } else {
      assert Hex(x)[j] == HexDigit(x[j / 2] & 0x0F);
    }
  }

  /** Character `j` produced by lines 37-45 is the `j`-th hexadecimal digit of `x`. */
  lemma HexLane(x: Block, upper: Block, j: nat)
    requires j < 32
    ensures NibblesToAscii(SpreadNibbles(x, upper))[j] == Hex(x)[j]
  {
    var d := SpreadNibbles(x, upper);
    SpreadNibblesLane(x, upper, j);
    NibblesToAsciiLane(d, j);
    NibbleCharIsHex(x, j);
  }

  /** The lane arithmetic of lines 37-45 yields the hexadecimal digits of `x`,
      whatever the undefined upper half of the cast holds. */
  lemma HexLanesAreHex(x: Block, upper: Block)
    ensures NibblesToAscii(SpreadNibbles(x, upper)) == Hex(x)
  {
    forall j | 0 <= j < 32
      ensures NibblesToAscii(SpreadNibbles(x, upper))[j] == Hex(x)[j]
    {
      HexLane(x, upper, j);
    }
  }

  lemma EncodeDashShuffleTable()
    ensures EncodeDashShuffle ==
      [0x00, 0x01, 0x02, 0x03, 0x04, 0x05, 0x06, 0x07, 0x80, 0x08, 0x09, 0x0a, 0x0b, 0x80, 0x0c, 0x0d,
       0x80, 0x80, 0x80, 0x00, 0x01, 0x02, 0x03, 0x80, 0x04, 0x05, 0x06, 0x07, 0x08, 0x09, 0x0a, 0x0b]
  {
  }

  lemma DashBytesTable()
    ensures DashBytes ==
      [0, 0, 0, 0, 0, 0, 0, 0, Dash, 0, 0, 0, 0, Dash, 0, 0,
       0, 0, Dash, 0, 0, 0, 0, Dash, 0, 0, 0, 0, 0, 0, 0, 0]
  {
  }

  /** Lines 49-50: the digits shuffled apart and the separators or-ed in. */
  function DashedDigits(res: Ymm): Ymm {
    Or(Shuffle8(res, EncodeDashShuffle), DashBytes)
  }

  /** Byte `k` of `DashedDigits(res)` is '-' at a separator offset, zero at
      offsets 16 and 17 (filled by the later 16-bit store), and otherwise the
      digit that belongs at offset `k`. */
  predicate DashedDigitAt(res: Ymm, k: nat)
    requires k < 32
  {
    var resd := DashedDigits(res);
    if IsDashOffset(k) then resd[k] == Dash
    else if k == 16 || k == 17 then resd[k] == 0
    else resd[k] == res[DigitIndex(k)]
  }

  lemma DashedDigits0To3(res: Ymm)
    ensures var resd := DashedDigits(res);
      && resd[0] == res[0]
      && resd[1] == res[1]
      && resd[2] == res[2]
      && resd[3] == res[3]
  {
    EncodeDashShuffleTable();
    DashBytesTable();
  }

  lemma DashedDigits4To7(res: Ymm)
    ensures var resd := DashedDigits(res);
      && resd[4] == res[4]
      && resd[5] == res[5]
      && resd[6] == res[6]
      && resd[7] == res[7]
  {
    EncodeDashShuffleTable();
    DashBytesTable();
  }

  lemma DashedDigits8To11(res: Ymm)
    ensures var resd := DashedDigits(res);
      && resd[8] == Dash
      && resd[9] == res[8]
      && resd[10] == res[9]
      && resd[11] == res[10]
  {
    EncodeDashShuffleTable();
    DashBytesTable();
  }

  lemma DashedDigits12To15(res: Ymm)
    ensures var resd := DashedDigits(res);
      && resd[12] == res[11]
      && resd[13] == Dash
      && resd[14] == res[12]
      && resd[15] == res[13]
  {
    EncodeDashShuffleTable();
    DashBytesTable();
  }

  lemma DashedDigits16To19(res: Ymm)
    ensures var resd := DashedDigits(res);
      && resd[16] == 0
      && resd[17] == 0
      && resd[18] == Dash
      && resd[19] == res[16]
  {
    EncodeDashShuffleTable();
    DashBytesTable();
  }

  lemma DashedDigits20To23(res: Ymm)
    ensures var resd := DashedDigits(res);
      && resd[20] == res[17]
      && resd[21] == res[18]
      && resd[22] == res[19]
      && resd[23] == Dash
  {
    EncodeDashShuffleTable();
    DashBytesTable();
  }

  lemma DashedDigits24To27(res: Ymm)
    ensures var resd := DashedDigits(res);
      && resd[24] == res[20]
      && resd[25] == res[21]
      && resd[26] == res[22]
      && resd[27] == res[23]
  {
    EncodeDashShuffleTable();
    DashBytesTable();
  }

  lemma DashedDigits28To31(res: Ymm)
    ensures var resd := DashedDigits(res);
      && resd[28] == res[24]
      && resd[29] == res[25]
      && resd[30] == res[26]
      && resd[31] == res[27]
  {
    EncodeDashShuffleTable();
    DashBytesTable();
  }

  lemma DashedDigitsLane0(res: Ymm, k: nat)
    requires k < 8
    ensures DashedDigitAt(res, k)
  {
    DashedDigits0To3(res);
    DashedDigits4To7(res);
    if k == 0 {} else if k == 1 {} else if k == 2 {} else if k == 3 {} else if k == 4 {} else if k == 5 {} else if k == 6 {} else {}
  }

  lemma DashedDigitsLane1(res: Ymm, k: nat)
    requires 8 <= k < 16
    ensures DashedDigitAt(res, k)
  {
    DashedDigits8To11(res);
    DashedDigits12To15(res);
    if k == 8 {} else if k == 9 {} else if k == 10 {} else if k == 11 {} else if k == 12 {} else if k == 13 {} else if k == 14 {} else {}
  }

  lemma DashedDigitsLane2(res: Ymm, k: nat)
    requires 16 <= k < 24
    ensures DashedDigitAt(res, k)
  {
    DashedDigits16To19(res);
    DashedDigits20To23(res);
    if k == 16 {} else if k == 17 {} else if k == 18 {} else if k == 19 {} else if k == 20 {} else if k == 21 {} else if k == 22 {} else {}
  }

  lemma DashedDigitsLane3(res: Ymm, k: nat)
    requires 24 <= k < 32
    ensures DashedDigitAt(res, k)
  {
    DashedDigits24To27(res);
    DashedDigits28To31(res);
    if k == 24 {} else if k == 25 {} else if k == 26 {} else if k == 27 {} else if k == 28 {} else if k == 29 {} else if k == 30 {} else {}
  }

  lemma DashedDigitsLane(res: Ymm, k: nat)
    requires k < 32
    ensures DashedDigitAt(res, k)
  {
    if k < 8 { DashedDigitsLane0(res, k); }
    else if k < 16 { DashedDigitsLane1(res, k); }
    else if k < 24 { DashedDigitsLane2(res, k); }
    else { DashedDigitsLane3(res, k); }
  }

  /** Lines 49-57 place digit `j` at `DigitOffset(j)` and '-' at the four
      separator offsets, overwriting all 36 bytes of the buffer. */
  lemma PlaceDashesIsDashed(res: Ymm, mem: seq<byte>)
    requires |mem| == 36
    ensures PlaceDashes(res, mem) == Dashed(res)
  {
    var resd := DashedDigits(res);
    var m1 := Store(mem, 0, resd);
    var m2 := Store(m1, 16, Extract16(res, 7));
    var r := Store(m2, 32, Extract32(res, 7));
    assert r == PlaceDashes(res, mem);
    forall k | 0 <= k < 36
      ensures r[k] == Dashed(res)[k]
    {
      if k < 32 {
        DashedDigitsLane(res, k);
        if k == 16 || k == 17 {
          assert r[k] == res[k - 2];
        } else {
          assert r[k] == resd[k];
        }
      } else {
        assert r[k] == res[k - 4];
      }
    }
  }

  // ===================================================== decode (stom128i)

  /** The shuffle of line 66: the digits of the first 32 characters moved
      together, separators dropped. */
  const DecodeDashShuffle: Ymm :=
    SetEpi32(0x80808080, 0x0f0e0d0c, 0x0b0a0908, 0x06050403,
             0x80800f0e, 0x0c0b0a09, 0x07060504, 0x03020100)

  /** Lines 68-71: the 32 digit characters of the 36 bytes at `mem`, in order.
      Only the first 36 bytes are read. */
  function GatherDigits(mem: seq<byte>): Ymm
    requires |mem| >= 36
  {
    var x := Shuffle8(mem[..32], DecodeDashShuffle);
    var x1 := Insert16(x, mem[16..18], 7);
    Insert32(x1, mem[32..36], 7)
  }

  /** Per-byte arithmetic of lines 87-90 for one character `c`: subtract 0x2F,
      then 0x28 more when bit 5 of the difference is set and 0x01 otherwise.
      Lowercase digits get their value; 'A'..'F' land on 0x11..0x16, which is
      not a nibble, so upper-case text is not decoded. */
  function CharValue(c: byte): (v: byte)
    ensures IsHexChar(c) ==> v == HexValue(c)
    ensures 0x41 <= c <= 0x46 ==> v == c - 0x30 && v >= 16
  {
    var a := c - 0x2F;
    a - (if a & 0x20 != 0 then 0x28 else 0x01)
  }

  /** Lines 87-90: each character turned into its value. */
  function AsciiToNibbles(x: Ymm): Ymm {
    var a := Sub8(x, Set1Epi8(0x2F));
    var alpha := Slli64(And(a, Set1Epi8(0x20)), 2);
    var subMask := Blendv8(Set1Epi8(0x01), Set1Epi8(0x28), alpha);
    Sub8(a, subMask)
  }

  /** The shuffle of line 78 and the shift counts of line 79. */
  const Unweave: Ymm :=
    SetEpi32(0x0f0d0b09, 0x0e0c0a08, 0x07050301, 0x06040200,
             0x0f0d0b09, 0x0e0c0a08, 0x07050301, 0x06040200)

  const ShiftCounts: Ymm := SetEpi32(0, 4, 0, 4, 0, 4, 0, 4)

  /** Lines 91-96: pairs of nibbles joined into bytes, high nibble first. */
  function JoinNibbles(a: Ymm): Block {
    var u := Shuffle8(a, Unweave);
    var s := Sllv32(u, ShiftCounts);
    var h := Hadd32(s, SetZero());
    Cast256To128(Permute4x64(h, 0x08))
  }

  /** `stom128i(mem)`: the 16 bytes read back from the text at `mem`. */
  function Decode(mem: seq<byte>): Block
    requires |mem| >= 36
  {
    JoinNibbles(AsciiToNibbles(GatherDigits(mem)))
  }

  // ----------------------------------------------------- decode proofs

  lemma DecodeDashShuffleTable()
    ensures DecodeDashShuffle ==
      [0x00, 0x01, 0x02, 0x03, 0x04, 0x05, 0x06, 0x07, 0x09, 0x0a, 0x0b, 0x0c, 0x0e, 0x0f, 0x80, 0x80,
       0x03, 0x04, 0x05, 0x06, 0x08, 0x09, 0x0a, 0x0b, 0x0c, 0x0d, 0x0e, 0x0f, 0x80, 0x80, 0x80, 0x80]
  {
  }

  lemma UnweaveTable()
    ensures Unweave ==
      [0x00, 0x02, 0x04, 0x06, 0x01, 0x03, 0x05, 0x07, 0x08, 0x0a, 0x0c, 0x0e, 0x09, 0x0b, 0x0d, 0x0f,
       0x00, 0x02, 0x04, 0x06, 0x01, 0x03, 0x05, 0x07, 0x08, 0x0a, 0x0c, 0x0e, 0x09, 0x0b, 0x0d, 0x0f]
  {
  }

  lemma GatheredDigits0To3(mem: seq<byte>)
    requires |mem| >= 36
    ensures var x := Shuffle8(mem[..32], DecodeDashShuffle);
      && x[0] == mem[0]
      && x[1] == mem[1]
      && x[2] == mem[2]
      && x[3] == mem[3]
  {
    DecodeDashShuffleTable();
  }

  lemma GatheredDigits4To7(mem: seq<byte>)
    requires |mem| >= 36
    ensures var x := Shuffle8(mem[..32], DecodeDashShuffle);
      && x[4] == mem[4]
      && x[5] == mem[5]
      && x[6] == mem[6]
      && x[7] == mem[7]
  {
    DecodeDashShuffleTable();
  }

  lemma GatheredDigits8To11(mem: seq<byte>)
    requires |mem| >= 36
    ensures var x := Shuffle8(mem[..32], DecodeDashShuffle);
      && x[8] == mem[9]
      && x[9] == mem[10]
      && x[10] == mem[11]
      && x[11] == mem[12]
  {
    DecodeDashShuffleTable();
  }

  lemma GatheredDigits12To15(mem: seq<byte>)
    requires |mem| >= 36
    ensures var x := Shuffle8(mem[..32], DecodeDashShuffle);
      && x[12] == mem[14]
      && x[13] == mem[15]
  {
    DecodeDashShuffleTable();
  }

  lemma GatheredDigits16To19(mem: seq<byte>)
    requires |mem| >= 36
    ensures var x := Shuffle8(mem[..32], DecodeDashShuffle);
      && x[16] == mem[19]
      && x[17] == mem[20]
      && x[18] == mem[21]
      && x[19] == mem[22]
  {
    DecodeDashShuffleTable();
  }

  lemma GatheredDigits20To23(mem: seq<byte>)
    requires |mem| >= 36
    ensures var x := Shuffle8(mem[..32], DecodeDashShuffle);
      && x[20] == mem[24]
      && x[21] == mem[25]
      && x[22] == mem[26]
      && x[23] == mem[27]
  {
    DecodeDashShuffleTable();
  }

  lemma GatheredDigits24To27(mem: seq<byte>)
    requires |mem| >= 36
    ensures var x := Shuffle8(mem[..32], DecodeDashShuffle);
      && x[24] == mem[28]
      && x[25] == mem[29]
      && x[26] == mem[30]
      && x[27] == mem[31]
  {
    DecodeDashShuffleTable();
  }

  lemma Unweaved0To3(a: Ymm)
    ensures var u := Shuffle8(a, Unweave);
      && u[0] == a[0]
      && u[1] == a[2]
      && u[2] == a[4]
      && u[3] == a[6]
  {
    UnweaveTable();
  }

  lemma Unweaved4To7(a: Ymm)
    ensures var u := Shuffle8(a, Unweave);
      && u[4] == a[1]
      && u[5] == a[3]
      && u[6] == a[5]
      && u[7] == a[7]
  {
    UnweaveTable();
  }

  lemma Unweaved8To11(a: Ymm)
    ensures var u := Shuffle8(a, Unweave);
      && u[8] == a[8]
      && u[9] == a[10]
      && u[10] == a[12]
      && u[11] == a[14]
  {
    UnweaveTable();
  }

  lemma Unweaved12To15(a: Ymm)
    ensures var u := Shuffle8(a, Unweave);
      && u[12] == a[9]
      && u[13] == a[11]
      && u[14] == a[13]
      && u[15] == a[15]
  {
    UnweaveTable();
  }

  lemma Unweaved16To19(a: Ymm)
    ensures var u := Shuffle8(a, Unweave);
      && u[16] == a[16]
      && u[17] == a[18]
      && u[18] == a[20]
      && u[19] == a[22]
  {
    UnweaveTable();
  }

  lemma Unweaved20To23(a: Ymm)
    ensures var u := Shuffle8(a, Unweave);
      && u[20] == a[17]
      && u[21] == a[19]
      && u[22] == a[21]
      && u[23] == a[23]
  {
    UnweaveTable();
  }

  lemma Unweaved24To27(a: Ymm)
    ensures var u := Shuffle8(a, Unweave);
      && u[24] == a[24]
      && u[25] == a[26]
      && u[26] == a[28]
      && u[27] == a[30]
  {
    UnweaveTable();
  }

  lemma Unweaved28To31(a: Ymm)
    ensures var u := Shuffle8(a, Unweave);
      && u[28] == a[25]
      && u[29] == a[27]
      && u[30] == a[29]
      && u[31] == a[31]
  {
    UnweaveTable();
  }

  lemma GatherDigitsLane0(mem: seq<byte>, j: nat)
    requires |mem| >= 36 && j < 8
    ensures GatherDigits(mem)[j] == mem[DigitOffset(j)]
  {
    var x := Shuffle8(mem[..32], DecodeDashShuffle);
    var x1 := Insert16(x, mem[16..18], 7);
    assert GatherDigits(mem) == Insert32(x1, mem[32..36], 7);
    GatheredDigits0To3(mem);
    GatheredDigits4To7(mem);
    if j == 0 {} else if j == 1 {} else if j == 2 {} else if j == 3 {} else if j == 4 {} else if j == 5 {} else if j == 6 {} else {
      assert GatherDigits(mem)[7] == x1[7] == x[7];
    }
  }

  lemma GatherDigitsLane1(mem: seq<byte>, j: nat)
    requires |mem| >= 36 && 8 <= j < 14
    ensures GatherDigits(mem)[j] == mem[DigitOffset(j)]
  {
    var x := Shuffle8(mem[..32], DecodeDashShuffle);
    var x1 := Insert16(x, mem[16..18], 7);
    assert GatherDigits(mem) == Insert32(x1, mem[32..36], 7);
    GatheredDigits8To11(mem);
    GatheredDigits12To15(mem);
    if j == 8 {} else if j == 9 {} else if j == 10 {} else if j == 11 {} else if j == 12 {} else {}
  }

  lemma GatherDigitsLane2(mem: seq<byte>, j: nat)
    requires |mem| >= 36 && 14 <= j < 16
    ensures GatherDigits(mem)[j] == mem[DigitOffset(j)]
  {
    var x := Shuffle8(mem[..32], DecodeDashShuffle);
    var x1 := Insert16(x, mem[16..18], 7);
    assert GatherDigits(mem) == Insert32(x1, mem[32..36], 7);
    assert GatherDigits(mem)[j] == x1[j];
    assert x1[j] == mem[j + 2];
  }

  lemma GatherDigitsLane3(mem: seq<byte>, j: nat)
    requires |mem| >= 36 && 16 <= j < 24
    ensures GatherDigits(mem)[j] == mem[DigitOffset(j)]
  {
    var x := Shuffle8(mem[..32], DecodeDashShuffle);
    var x1 := Insert16(x, mem[16..18], 7);
    assert GatherDigits(mem) == Insert32(x1, mem[32..36], 7);
    GatheredDigits16To19(mem);
    GatheredDigits20To23(mem);
    if j == 16 {} else if j == 17 {} else if j == 18 {} else if j == 19 {} else if j == 20 {} else if j == 21 {} else if j == 22 {} else {}
  }

  lemma GatherDigitsLane4(mem: seq<byte>, j: nat)
    requires |mem| >= 36 && 24 <= j < 28
    ensures GatherDigits(mem)[j] == mem[DigitOffset(j)]
  {
    var x := Shuffle8(mem[..32], DecodeDashShuffle);
    var x1 := Insert16(x, mem[16..18], 7);
    assert GatherDigits(mem) == Insert32(x1, mem[32..36], 7);
    GatheredDigits24To27(mem);
    if j == 24 {} else if j == 25 {} else if j == 26 {} else {}
  }

  lemma GatherDigitsLane5(mem: seq<byte>, j: nat)
    requires |mem| >= 36 && 28 <= j < 32
    ensures GatherDigits(mem)[j] == mem[DigitOffset(j)]
  {
    var x := Shuffle8(mem[..32], DecodeDashShuffle);
    var x1 := Insert16(x, mem[16..18], 7);
    assert GatherDigits(mem) == Insert32(x1, mem[32..36], 7);
    assert GatherDigits(mem)[j] == mem[j + 4];
  }

  /** Lines 66-71 put the `j`-th digit character at byte `j`. */
  lemma GatherDigitsLane(mem: seq<byte>, j: nat)
    requires |mem| >= 36 && j < 32
    ensures GatherDigits(mem)[j] == mem[DigitOffset(j)]
  {
    if j < 8 { GatherDigitsLane0(mem, j); }
    else if j < 14 { GatherDigitsLane1(mem, j); }
    else if j < 16 { GatherDigitsLane2(mem, j); }
    else if j < 24 { GatherDigitsLane3(mem, j); }
    else if j < 28 { GatherDigitsLane4(mem, j); }
    else { GatherDigitsLane5(mem, j); }
  }

  /** The digits gathered by lines 66-71 are the text with its four separator
      offsets dropped; whatever sits at those offsets is never read. */
  lemma GatherDigitsIsUndashed(mem: seq<byte>)
    requires |mem| >= 36
    ensures GatherDigits(mem) == Undashed(mem[..36])
  {
    forall j | 0 <= j < 32
      ensures GatherDigits(mem)[j] == Undashed(mem[..36])[j]
    {
      GatherDigitsLane(mem, j);
    }
  }

  /** Lines 87-90 turn character `i` into its value. */
  lemma AsciiToNibblesLane(x: Ymm, i: nat)
    requires i < 32
    ensures AsciiToNibbles(x)[i] == CharValue(x[i])
  {
    var a := Sub8(x, Set1Epi8(0x2F));
    var t := And(a, Set1Epi8(0x20));
    assert forall j :: 0 <= j < 32 ==> t[j] >> 6 == 0;
    Slli64By2Bytewise(t, i);
  }

  lemma ShiftCountsTable()
    ensures ShiftCounts ==
      [4, 0, 0, 0, 0, 0, 0, 0, 4, 0, 0, 0, 0, 0, 0, 0,
       4, 0, 0, 0, 0, 0, 0, 0, 4, 0, 0, 0, 0, 0, 0, 0]
  {
  }

  /** Byte offsets of the four pairs of 32-bit elements that line 93 adds. */
  predicate IsPairOffset(b: nat) {
    b == 0 || b == 8 || b == 16 || b == 24
  }

  /** The first element of each pair is shifted by 4, the second is kept. */
  lemma ShiftCountWords(b: nat)
    requires IsPairOffset(b)
    ensures Word32(ShiftCounts, b) == 4 && Word32(ShiftCounts, b + 4) == 0
  {
    ShiftCountsTable();
    if b == 0 {} else if b == 8 {} else if b == 16 {} else {}
  }

  /** The 32-bit element at byte offset `e` of an `sllv` result is that
      element of `v` shifted by that element of the counts. */
  lemma SllvWord(v: Ymm, counts: Ymm, e: nat)
    requires e % 4 == 0 && e + 4 <= 32
    ensures Word32(Sllv32(v, counts), e) == ShiftLeft32(Word32(v, e), Word32(counts, e))
  {
    var r := Sllv32(v, counts);
    var w := ShiftLeft32(Word32(v, e), Word32(counts, e));
    var q := e / 4;
    assert e == 4 * q;
    forall k | 0 <= k < 4
      ensures r[e + k] == Le32(w)[k]
    {
      assert (e + k) / 4 == q && (e + k) % 4 == k;
    }
    Word32OfLe32(w);
    assert Word32(r, e) == Word32(Le32(w), 0);
  }

  /** After the unweave of line 91, the pair of 32-bit elements at `b` holds
      the even and the odd nibbles of bytes `b..b+7`. */
  lemma UnweaveWords(a: Ymm, b: nat)
    requires IsPairOffset(b)
    ensures var u := Shuffle8(a, Unweave);
      && Word32(u, b) == Pack32(a[b], a[b + 2], a[b + 4], a[b + 6])
      && Word32(u, b + 4) == Pack32(a[b + 1], a[b + 3], a[b + 5], a[b + 7])
  {
    if b == 0 {
      Unweaved0To3(a);
      Unweaved4To7(a);
    } else if b == 8 {
      Unweaved8To11(a);
      Unweaved12To15(a);
    } else if b == 16 {
      Unweaved16To19(a);
      Unweaved20To23(a);
    } else {
      Unweaved24To27(a);
      Unweaved28To31(a);
    }
  }

  /** Lines 94 and 96: the low 128 bits after the permutation are 64-bit elements 0
      and 2 of the horizontal sums. */
  lemma PermuteLowHalf(h: Ymm, m: nat)
    requires m < 16
    ensures Cast256To128(Permute4x64(h, 0x08))[m] == if m < 8 then h[m] else h[m + 8]
  {
    assert Selector(0x08, 0) == 0 && Selector(0x08, 1) == 2;
  }

  /** Line 93: byte `g` of the horizontal sums, for a byte in the half of a
      lane that holds the sums of the first operand's pairs. */
  lemma HaddByte(s: Ymm, g: nat)
    requires g < 32 && g % 16 < 8
    ensures var p := 16 * (g / 16) + 8 * (((g % 16) / 4) % 2);
      Hadd32(s, SetZero())[g] == Le32(Add32(Word32(s, p), Word32(s, p + 4)))[g % 4]
  {
  }

  /** Nibbles shifted into the high half of each byte and added to nibbles in
      the low half never carry from one byte into the next. */
  lemma JoinBits(p0: byte, p1: byte, p2: byte, p3: byte, q0: byte, q1: byte, q2: byte, q3: byte)
    requires p0 < 16 && p1 < 16 && p2 < 16 && p3 < 16
    requires q0 < 16 && q1 < 16 && q2 < 16 && q3 < 16
    ensures Le32(Add32(ShiftLeft32(Pack32(p0, p1, p2, p3), 4), Pack32(q0, q1, q2, q3)))
            == [JoinByte(p0, q0), JoinByte(p1, q1), JoinByte(p2, q2), JoinByte(p3, q3)]
  {
  }

  /** Lines 91-92: the pair of 32-bit elements at `b`, shifted: the even
      nibbles moved up by 4, the odd ones kept. */
  lemma ShiftedPairWords(a: Ymm, b: nat)
    requires IsPairOffset(b)
    ensures var s := Sllv32(Shuffle8(a, Unweave), ShiftCounts);
      && Word32(s, b) == ShiftLeft32(Pack32(a[b], a[b + 2], a[b + 4], a[b + 6]), 4)
      && Word32(s, b + 4) == Pack32(a[b + 1], a[b + 3], a[b + 5], a[b + 7])
  {
    var u := Shuffle8(a, Unweave);
    SllvWord(u, ShiftCounts, b);
    SllvWord(u, ShiftCounts, b + 4);
    ShiftCountWords(b);
    UnweaveWords(a, b);
  }

  /** Where byte `m = b/2 + r` of the result sits in the horizontal sums
      (`g`), and that the sum there is over the pair at `b`. */
  lemma PairIndex(m: nat, b: nat, r: nat)
    requires m < 16 && IsPairOffset(b) && r < 4 && m == b / 2 + r
    ensures var g := if m < 8 then m else m + 8;
      && g < 32 && g % 16 < 8
      && 16 * (g / 16) + 8 * (((g % 16) / 4) % 2) == b && g % 4 == r
  {
    if b == 0 {} else if b == 8 {} else if b == 16 {} else {}
  }

  /** Lines 93-96: byte `m` of the result is byte `r` of the sum of the pair
      of 32-bit elements at `b`, where `m = b/2 + r`. */
  lemma JoinedByte(s: Ymm, m: nat, b: nat, r: nat)
    requires m < 16 && IsPairOffset(b) && r < 4 && m == b / 2 + r
    ensures Cast256To128(Permute4x64(Hadd32(s, SetZero()), 0x08))[m]
            == Le32(Add32(Word32(s, b), Word32(s, b + 4)))[r]
  {
    var h := Hadd32(s, SetZero());
    var g := if m < 8 then m else m + 8;
    PairIndex(m, b, r);
    PermuteLowHalf(h, m);
    HaddByte(s, g);
  }

  /** Byte `r` of the sum of a shifted pair of 32-bit elements is the byte
      joined from nibbles `2m` and `2m+1`, where `m = b/2 + r`. */
  lemma PairSumByte(a: Ymm, m: nat, b: nat, r: nat)
    requires m < 16 && IsPairOffset(b) && r < 4 && m == b / 2 + r
    requires a[b] < 16 && a[b + 1] < 16 && a[b + 2] < 16 && a[b + 3] < 16
    requires a[b + 4] < 16 && a[b + 5] < 16 && a[b + 6] < 16 && a[b + 7] < 16
    ensures Le32(Add32(ShiftLeft32(Pack32(a[b], a[b + 2], a[b + 4], a[b + 6]), 4),
                       Pack32(a[b + 1], a[b + 3], a[b + 5], a[b + 7])))[r]
            == JoinByte(a[2 * m], a[2 * m + 1])
  {
    JoinBits(a[b], a[b + 2], a[b + 4], a[b + 6], a[b + 1], a[b + 3], a[b + 5], a[b + 7]);
    assert 2 * m == b + 2 * r;
    if r == 0 {
      assert a[2 * m] == a[b] && a[2 * m + 1] == a[b + 1];
    } else if r == 1 {
      assert a[2 * m] == a[b + 2] && a[2 * m + 1] == a[b + 3];
    } else if r == 2 {
      assert a[2 * m] == a[b + 4] && a[2 * m + 1] == a[b + 5];
    } else {
      assert a[2 * m] == a[b + 6] && a[2 * m + 1] == a[b + 7];
    }
  }

  /** Lines 91-96 join nibbles `2m` and `2m+1` into byte `m`, provided every
      character decoded to a nibble. */
  lemma JoinNibblesByte(a: Ymm, m: nat)
    requires m < 16
    requires forall i :: 0 <= i < 32 ==> a[i] < 16
    ensures JoinNibbles(a)[m] == JoinByte(a[2 * m], a[2 * m + 1])
  {
    var b := if m < 4 then 0 else if m < 8 then 8 else if m < 12 then 16 else 24;
    var r := m - b / 2;
    assert a[b] < 16 && a[b + 1] < 16 && a[b + 2] < 16 && a[b + 3] < 16;
    assert a[b + 4] < 16 && a[b + 5] < 16 && a[b + 6] < 16 && a[b + 7] < 16;
    var s := Sllv32(Shuffle8(a, Unweave), ShiftCounts);
    JoinedByte(s, m, b, r);
    ShiftedPairWords(a, b);
    PairSumByte(a, m, b, r);
  }

  // ----------------------------------------------------- decode theorems

  /** Byte `m` of `stom128i(mem)` joins the values of digit characters `2m`
      and `2m+1`, whenever every digit character has a nibble value. */
  lemma DecodeByte(mem: seq<byte>, m: nat)
    requires |mem| >= 36 && m < 16
    requires forall j :: 0 <= j < 32 ==> CharValue(mem[DigitOffset(j)]) < 16
    ensures Decode(mem)[m]
            == JoinByte(CharValue(mem[DigitOffset(2 * m)]), CharValue(mem[DigitOffset(2 * m + 1)]))
  {
    var g := GatherDigits(mem);
    var a := AsciiToNibbles(g);
    forall i | 0 <= i < 32
      ensures a[i] == CharValue(mem[DigitOffset(i)]) && a[i] < 16
    {
      AsciiToNibblesLane(g, i);
      GatherDigitsLane(mem, i);
    }
    JoinNibblesByte(a, m);
  }

  /** `stom128i` reads a well-formed text as the bytes it spells. */
  lemma DecodeCanonical(s: seq<byte>)
    requires IsCanonical(s)
    ensures Decode(s) == ParseCanonical(s)
  {
    forall j | 0 <= j < 32
      ensures CharValue(s[DigitOffset(j)]) < 16
    {
      HexValueDigit(s[DigitOffset(j)]);
    }
    forall m | 0 <= m < 16
      ensures Decode(s)[m] == ParseCanonical(s)[m]
    {
      DecodeByte(s, m);
    }
  }

  /** Reading back what `m128itos` wrote gives the original 16 bytes. */
  lemma DecodeEncode(x: Block, upper: Block, mem: seq<byte>)
    requires |mem| == 36
    ensures Decode(EncodeInto(x, upper, mem)) == x
  {
    ParseCanonicalText(x);
    DecodeCanonical(CanonicalText(x));
  }

  /** Writing out what `stom128i` read from a well-formed lowercase text
      gives the text back. */
  lemma EncodeDecode(s: seq<byte>, upper: Block, mem: seq<byte>)
    requires IsCanonical(s) && |mem| == 36
    ensures EncodeInto(Decode(s), upper, mem) == s
  {
    DecodeCanonical(s);
    TextOfParseCanonical(s);
  }

  /** `stom128i` never looks at the four separator offsets: two texts that
      agree on their 32 digit positions decode alike. */
  lemma DecodeReadsOnlyDigits(s: seq<byte>, t: seq<byte>)
    requires |s| >= 36 && |t| >= 36
    requires forall j :: 0 <= j < 32 ==> s[DigitOffset(j)] == t[DigitOffset(j)]
    ensures Decode(s) == Decode(t)
  {
    GatherDigitsIsUndashed(s);
    GatherDigitsIsUndashed(t);
    assert Undashed(s[..36]) == Undashed(t[..36]);
  }
}
