/** The canonical text form of a UUID, stated plainly, with no reference to
    how the library computes it.

    Section 3 of RFC 4122 writes a UUID as 32 hexadecimal digits in groups of
    8-4-4-4-12 separated by '-'. The library writes the 16 stored bytes in
    memory order, each as two lowercase digits, high nibble first. Text is a
    sequence of ASCII codes. */
module HexText {
  import opened Bytes

  const Dash: byte := 0x2D

  /** '0'..'9' or 'a'..'f'. Upper-case letters are not hexadecimal digits here. */
  predicate IsHexChar(c: byte) {
    (0x30 <= c <= 0x39) || (0x61 <= c <= 0x66)
  }

  /** The lowercase ASCII digit of a nibble. */
  function HexDigit(n: byte): byte
    requires n < 16
  {
    if n < 10 then 0x30 + n else 0x61 + (n - 10)
  }

  /** The value of a lowercase hexadecimal digit. */
  function HexValue(c: byte): byte
    requires IsHexChar(c)
  {
    if c <= 0x39 then c - 0x30 else c - 0x61 + 10
  }

  /** Two digits per byte, high nibble first. */
  function Hex(bs: seq<byte>): (r: seq<byte>)
    ensures |r| == 2 * |bs|
  {
    if |bs| == 0 then []
    else [HexDigit(bs[0] >> 4), HexDigit(bs[0] & 0x0F)] + Hex(bs[1..])
  }

  /** The 8-4-4-4-12 text of the 16 bytes. */
  function CanonicalText(u: Block): seq<byte> {
    Hex(u[..4]) + [Dash] + Hex(u[4..6]) + [Dash] + Hex(u[6..8]) + [Dash]
      + Hex(u[8..10]) + [Dash] + Hex(u[10..])
  }

  /** The four separator offsets of the canonical text. */
  predicate IsDashOffset(k: int) {
    k == 8 || k == 13 || k == 18 || k == 23
  }

  /** Well-formed lowercase text: 36 characters, '-' at the separator
      offsets and a lowercase hexadecimal digit everywhere else. */
  predicate IsCanonical(s: seq<byte>) {
    && |s| == 36
    && forall k :: 0 <= k < 36 ==> if IsDashOffset(k) then s[k] == Dash else IsHexChar(s[k])
  }

  lemma {:induction false} HexIndex(bs: seq<byte>, i: nat)
    requires i < |bs|
    ensures Hex(bs)[2 * i] == HexDigit(bs[i] >> 4)
    ensures Hex(bs)[2 * i + 1] == HexDigit(bs[i] & 0x0F)
  {
    var head := [HexDigit(bs[0] >> 4), HexDigit(bs[0] & 0x0F)];
    assert Hex(bs) == head + Hex(bs[1..]);
    if i > 0 {
      HexIndex(bs[1..], i - 1);
      assert bs[1..][i - 1] == bs[i];
      assert Hex(bs)[2 * i] == Hex(bs[1..])[2 * (i - 1)];
      assert Hex(bs)[2 * i + 1] == Hex(bs[1..])[2 * (i - 1) + 1];
    }
  }

  lemma {:induction false} HexAppend(a: seq<byte>, b: seq<byte>)
    ensures Hex(a + b) == Hex(a) + Hex(b)
  {
    if |a| == 0 {
      assert a + b == b;
    } else {
      assert (a + b)[1..] == a[1..] + b;
      HexAppend(a[1..], b);
    }
  }

  /** Digits and values are inverse on nibbles and on lowercase digits. */
  lemma HexDigitValue(n: byte)
    requires n < 16
    ensures IsHexChar(HexDigit(n)) && HexValue(HexDigit(n)) == n
  {
  }

  lemma HexValueDigit(c: byte)
    requires IsHexChar(c)
    ensures HexValue(c) < 16 && HexDigit(HexValue(c)) == c
  {
  }

  // ------------------------------------------------ digit positions

  /** Offset in the text of the `j`-th hexadecimal digit. */
  function DigitOffset(j: nat): (k: nat)
    requires j < 32
    ensures k < 36 && !IsDashOffset(k)
  {
    if j < 8 then j
    else if j < 12 then j + 1
    else if j < 16 then j + 2
    else if j < 20 then j + 3
    else j + 4
  }

  /** Which hexadecimal digit sits at text offset `k` (not a separator). */
  function DigitIndex(k: nat): (j: nat)
    requires k < 36 && !IsDashOffset(k)
    ensures j < 32 && DigitOffset(j) == k
  {
    if k < 8 then k
    else if k < 13 then k - 1
    else if k < 18 then k - 2
    else if k < 23 then k - 3
    else k - 4
  }

  /** The 32 digits laid out in 36 characters with the four separators. */
  function Dashed(d: seq<byte>): (s: seq<byte>)
    requires |d| == 32
    ensures |s| == 36
  {
    seq(36, k requires 0 <= k < 36 => if IsDashOffset(k) then Dash else d[DigitIndex(k)])
  }

  /** Nibble `j` of the 16 bytes: the high nibble of byte `j/2` for even `j`,
      its low nibble for odd `j`. */
  function Nibble(x: Block, j: nat): byte
    requires j < 32
  {
    if j % 2 == 0 then x[j / 2] >> 4 else x[j / 2] & 0x0F
  }

  /** The byte with high nibble `hi` and low nibble `lo`. */
  function JoinByte(hi: byte, lo: byte): byte {
    (hi << 4) | lo
  }

  lemma DashedAsGroups(d: seq<byte>)
    requires |d| == 32
    ensures Dashed(d) == d[..8] + [Dash] + d[8..12] + [Dash] + d[12..16] + [Dash]
                         + d[16..20] + [Dash] + d[20..]
  {
  }

  lemma CanonicalTextIsDashedHex(u: Block)
    ensures CanonicalText(u) == Dashed(Hex(u))
  {
    var h := Hex(u);
    assert u == u[..4] + u[4..6] + u[6..8] + u[8..10] + u[10..];
    HexAppend(u[..4], u[4..6]);
    HexAppend(u[..4] + u[4..6], u[6..8]);
    HexAppend(u[..4] + u[4..6] + u[6..8], u[8..10]);
    HexAppend(u[..4] + u[4..6] + u[6..8] + u[8..10], u[10..]);
    assert h == Hex(u[..4]) + Hex(u[4..6]) + Hex(u[6..8]) + Hex(u[8..10]) + Hex(u[10..]);
    assert h[..8] == Hex(u[..4]);
    assert h[8..12] == Hex(u[4..6]);
    assert h[12..16] == Hex(u[6..8]);
    assert h[16..20] == Hex(u[8..10]);
    assert h[20..] == Hex(u[10..]);
    DashedAsGroups(h);
  }

  // ------------------------------------------------ reading the text back

  /** Character `j` of the digits is the digit of nibble `j`. */
  lemma HexAt(x: Block, j: nat)
    requires j < 32
    ensures Hex(x)[j] == HexDigit(Nibble(x, j))
  {
    HexIndex(x, j / 2);
    if j % 2 == 0 {
      assert Hex(x)[j] == Hex(x)[2 * (j / 2)];
    } else {
      assert Hex(x)[j] == Hex(x)[2 * (j / 2) + 1];
    }
  }

  /** A byte is its two nibbles put back together, and two nibbles put
      together are recovered by splitting. */
  lemma JoinSplitByte(b: byte)
    ensures JoinByte(b >> 4, b & 0x0F) == b
  {
  }

  lemma SplitJoinByte(hi: byte, lo: byte)
    requires hi < 16 && lo < 16
    ensures JoinByte(hi, lo) >> 4 == hi && JoinByte(hi, lo) & 0x0F == lo
  {
  }

  /** The 16 bytes a well-formed text spells: byte `m` has the values of
      digits `2m` and `2m+1` as its high and low nibble. */
  function ParseCanonical(s: seq<byte>): (u: Block)
    requires IsCanonical(s)
  {
    seq(16, m requires 0 <= m < 16 =>
      JoinByte(HexValue(s[DigitOffset(2 * m)]), HexValue(s[DigitOffset(2 * m + 1)])))
  }

  /** Character `k` of the text of `x`, for every offset: '-' at a separator
      and otherwise the digit of the nibble that belongs there. */
  lemma CanonicalTextAt(x: Block, k: nat)
    requires k < 36
    ensures |CanonicalText(x)| == 36
    ensures IsDashOffset(k) ==> CanonicalText(x)[k] == Dash
    ensures !IsDashOffset(k) ==> CanonicalText(x)[k] == HexDigit(Nibble(x, DigitIndex(k)))
  {
    CanonicalTextIsDashedHex(x);
    if !IsDashOffset(k) {
      HexAt(x, DigitIndex(k));
    }
  }

  /** The text of any 16 bytes is well formed. */
  lemma CanonicalTextIsCanonical(x: Block)
    ensures IsCanonical(CanonicalText(x))
  {
    CanonicalTextIsDashedHex(x);
    forall k | 0 <= k < 36
      ensures if IsDashOffset(k) then CanonicalText(x)[k] == Dash else IsHexChar(CanonicalText(x)[k])
    {
      CanonicalTextAt(x, k);
    }
  }

  lemma DigitIndexOffset(j: nat)
    requires j < 32
    ensures DigitIndex(DigitOffset(j)) == j
  {
  }

  /** Nibbles `2m` and `2m+1` are the high and the low nibble of byte `m`. */
  lemma NibblePair(x: Block, m: nat)
    requires m < 16
    ensures Nibble(x, 2 * m) == x[m] >> 4 && Nibble(x, 2 * m + 1) == x[m] & 0x0F
  {
    assert (2 * m) / 2 == m && (2 * m + 1) / 2 == m;
  }

  /** Byte `m` read back from the text of `x` is `x[m]`. */
  lemma ParseCanonicalTextByte(x: Block, m: nat)
    requires m < 16 && IsCanonical(CanonicalText(x))
    ensures ParseCanonical(CanonicalText(x))[m] == x[m]
  {
    var s := CanonicalText(x);
    var hi, lo := x[m] >> 4, x[m] & 0x0F;
    DigitIndexOffset(2 * m);
    DigitIndexOffset(2 * m + 1);
    CanonicalTextAt(x, DigitOffset(2 * m));
    CanonicalTextAt(x, DigitOffset(2 * m + 1));
    NibblePair(x, m);
    HexDigitValue(hi);
    HexDigitValue(lo);
    assert HexValue(s[DigitOffset(2 * m)]) == hi;
    assert HexValue(s[DigitOffset(2 * m + 1)]) == lo;
    JoinSplitByte(x[m]);
  }

  /** Reading back the text of `x` gives `x`. */
  lemma ParseCanonicalText(x: Block)
    ensures IsCanonical(CanonicalText(x)) && ParseCanonical(CanonicalText(x)) == x
  {
    CanonicalTextIsCanonical(x);
    forall m | 0 <= m < 16
      ensures ParseCanonical(CanonicalText(x))[m] == x[m]
    {
      ParseCanonicalTextByte(x, m);
    }
  }

  /** Character `k` of the text written from the bytes a well-formed text
      spells is character `k` of that text. */
  lemma TextOfParseCanonicalAt(s: seq<byte>, k: nat)
    requires IsCanonical(s) && k < 36
    ensures CanonicalText(ParseCanonical(s))[k] == s[k]
  {
    var u := ParseCanonical(s);
    CanonicalTextAt(u, k);
    if !IsDashOffset(k) {
      var j := DigitIndex(k);
      var m := j / 2;
      var hi, lo := s[DigitOffset(2 * m)], s[DigitOffset(2 * m + 1)];
      HexValueDigit(hi);
      HexValueDigit(lo);
      SplitJoinByte(HexValue(hi), HexValue(lo));
      assert u[m] == JoinByte(HexValue(hi), HexValue(lo));
      if j % 2 == 0 {
        assert j == 2 * m;
        assert Nibble(u, j) == HexValue(hi);
      } else {
        assert j == 2 * m + 1;
        assert Nibble(u, j) == HexValue(lo);
      }
    }
  }

  /** Writing out the bytes a well-formed text spells gives the text back. */
  lemma TextOfParseCanonical(s: seq<byte>)
    requires IsCanonical(s)
    ensures CanonicalText(ParseCanonical(s)) == s
  {
    var u := ParseCanonical(s);
    CanonicalTextAt(u, 0);
    forall k | 0 <= k < 36
      ensures CanonicalText(u)[k] == s[k]
    {
      TextOfParseCanonicalAt(s, k);
    }
  }
}
