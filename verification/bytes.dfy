/** Bytes, fixed-size blocks, and the little-endian 32- and 64-bit words a
    little-endian host reads out of them.

    The library reads words straight out of a UUID's storage with pointer
    casts (`*(uint64_t*)data`) and converts with the `betole*` helpers; on a
    little-endian host both are plain little-endian reads, which is what this
    module defines. */
module Bytes {

  type byte = bv8

  /** The 16 bytes of a 128-bit register or of a UUID's storage, in memory order. */
  type Block = s: seq<byte> | |s| == 16 witness [0, 0, 0, 0, 0, 0, 0, 0, 0, 0, 0, 0, 0, 0, 0, 0]

  function Zeros(n: nat): (r: seq<byte>)
    ensures |r| == n
    ensures forall i :: 0 <= i < n ==> r[i] == 0
  {
    seq(n, _ => 0)
  }

  /** The unsigned 64-bit value with bytes `b0` (least significant) to `b7`. */
  function Pack64(b0: byte, b1: byte, b2: byte, b3: byte,
                  b4: byte, b5: byte, b6: byte, b7: byte): bv64
  {
    (b0 as bv64)
    | ((b1 as bv64) << 8)
    | ((b2 as bv64) << 16)
    | ((b3 as bv64) << 24)
    | ((b4 as bv64) << 32)
    | ((b5 as bv64) << 40)
    | ((b6 as bv64) << 48)
    | ((b7 as bv64) << 56)
  }

  /** The unsigned 64-bit value of the eight bytes at `off`, least significant first. */
  function Word64(b: seq<byte>, off: nat): bv64
    requires off + 8 <= |b|
  {
    Pack64(b[off], b[off + 1], b[off + 2], b[off + 3],
           b[off + 4], b[off + 5], b[off + 6], b[off + 7])
  }

  /** The eight bytes of `w`, least significant first. */
  function Le64(w: bv64): (r: seq<byte>)
    ensures |r| == 8
  {
    [ (w & 0xFF) as byte, ((w >> 8) & 0xFF) as byte,
      ((w >> 16) & 0xFF) as byte, ((w >> 24) & 0xFF) as byte,
      ((w >> 32) & 0xFF) as byte, ((w >> 40) & 0xFF) as byte,
      ((w >> 48) & 0xFF) as byte, ((w >> 56) & 0xFF) as byte ]
  }

  /** The unsigned 32-bit value with bytes `b0` (least significant) to `b3`. */
  function Pack32(b0: byte, b1: byte, b2: byte, b3: byte): bv32 {
    (b0 as bv32)
    | ((b1 as bv32) << 8)
    | ((b2 as bv32) << 16)
    | ((b3 as bv32) << 24)
  }

  /** The unsigned 32-bit value of the four bytes at `off`, least significant first. */
  function Word32(b: seq<byte>, off: nat): bv32
    requires off + 4 <= |b|
  {
    Pack32(b[off], b[off + 1], b[off + 2], b[off + 3])
  }

  /** The four bytes of `w`, least significant first. */
  function Le32(w: bv32): (r: seq<byte>)
    ensures |r| == 4
  {
    [ (w & 0xFF) as byte, ((w >> 8) & 0xFF) as byte,
      ((w >> 16) & 0xFF) as byte, ((w >> 24) & 0xFF) as byte ]
  }

  /** Writing a word's bytes and reading them back yields the word. */
  lemma Word64OfLe64(w: bv64)
    ensures Word64(Le64(w), 0) == w
  {
    var b := Le64(w);
    assert (b[0] as bv64) == w & 0xFF;
    assert (b[1] as bv64) << 8 == w & 0xFF00;
    assert (b[2] as bv64) << 16 == w & 0xFF0000;
    assert (b[3] as bv64) << 24 == w & 0xFF00_0000;
    assert (b[4] as bv64) << 32 == w & 0xFF_0000_0000;
    assert (b[5] as bv64) << 40 == w & 0xFF00_0000_0000;
    assert (b[6] as bv64) << 48 == w & 0xFF_0000_0000_0000;
    assert (b[7] as bv64) << 56 == w & 0xFF00_0000_0000_0000;
  }

  /** The bytes of a packed word are the bytes it was packed from. */
  lemma Le64OfPack64(b0: byte, b1: byte, b2: byte, b3: byte,
                     b4: byte, b5: byte, b6: byte, b7: byte)
    ensures Le64(Pack64(b0, b1, b2, b3, b4, b5, b6, b7)) == [b0, b1, b2, b3, b4, b5, b6, b7]
  {
  }

  /** Reading a word and writing it back yields the same eight bytes. */
  lemma Le64OfWord64(b: seq<byte>, off: nat)
    requires off + 8 <= |b|
    ensures Le64(Word64(b, off)) == b[off..off + 8]
  {
    Le64OfPack64(b[off], b[off + 1], b[off + 2], b[off + 3],
                 b[off + 4], b[off + 5], b[off + 6], b[off + 7]);
  }

  /** Two eight-byte windows hold the same word exactly when they hold the same bytes. */
  lemma Word64Injective(a: seq<byte>, aOff: nat, b: seq<byte>, bOff: nat)
    requires aOff + 8 <= |a| && bOff + 8 <= |b|
    ensures Word64(a, aOff) == Word64(b, bOff) <==> a[aOff..aOff + 8] == b[bOff..bOff + 8]
  {
    var wa, wb := Word64(a, aOff), Word64(b, bOff);
    Le64OfWord64(a, aOff);
    Le64OfWord64(b, bOff);
    if a[aOff..aOff + 8] == b[bOff..bOff + 8] {
      Word64OfLe64(wa);
      Word64OfLe64(wb);
      assert Le64(wa) == Le64(wb);
    }
  }

  lemma Word32OfLe32(w: bv32)
    ensures Word32(Le32(w), 0) == w
  {
    var b := Le32(w);
    assert (b[0] as bv32) == w & 0xFF;
    assert (b[1] as bv32) << 8 == w & 0xFF00;
    assert (b[2] as bv32) << 16 == w & 0xFF_0000;
    assert (b[3] as bv32) << 24 == w & 0xFF00_0000;
  }

  /** A word is zero exactly when all eight of its bytes are. */
  lemma Pack64Zero(b0: byte, b1: byte, b2: byte, b3: byte,
                   b4: byte, b5: byte, b6: byte, b7: byte)
    ensures Pack64(b0, b1, b2, b3, b4, b5, b6, b7) == 0
            <==> b0 == 0 && b1 == 0 && b2 == 0 && b3 == 0 && b4 == 0 && b5 == 0 && b6 == 0 && b7 == 0
  {
    Le64OfPack64(b0, b1, b2, b3, b4, b5, b6, b7);
  }

  lemma Word64Zero(b: seq<byte>, off: nat)
    requires off + 8 <= |b|
    ensures Word64(b, off) == 0 <==> forall i :: off <= i < off + 8 ==> b[i] == 0
  {
    Pack64Zero(b[off], b[off + 1], b[off + 2], b[off + 3],
               b[off + 4], b[off + 5], b[off + 6], b[off + 7]);
    if Word64(b, off) == 0 {
      forall i | off <= i < off + 8
        ensures b[i] == 0
      {
        var k := i - off;
        if k == 0 {} else if k == 1 {} else if k == 2 {} else if k == 3 {}
        else if k == 4 {} else if k == 5 {} else if k == 6 {} else {}
      }
    }
  }
}
