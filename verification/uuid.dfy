/** The `UUID` value type of CppUUIDv4/UUIDv4/uuidv4_uuid.hpp: 16 stored
    bytes, its constructors, comparisons, accessors, hash and conversions.

    The class reads its storage as two 64-bit words through pointer casts;
    on the little-endian host assumed throughout, the first word is bytes
    0..7 and the second is bytes 8..15, both least significant byte first. */
module Uuids {
  import opened Bytes
  import opened Simd
  import opened HexText
  import opened Codec

  /** A UUID is its storage `data[16]`. */
  datatype Uuid = Uuid(data: Block)

  /** `*(uint64_t*)data`: the word of bytes 0..7. */
  function LowWord(u: Uuid): bv64 {
    Word64(u.data, 0)
  }

  /** `*(uint64_t*)&data[8]`: the word of bytes 8..15. */
  function HighWord(u: Uuid): bv64 {
    Word64(u.data, 8)
  }

  // ------------------------------------------------------------ construction

  /** `UUID(uint64_t x, uint64_t y)`: `_mm_set_epi64x(x, y)` puts `y` in the
      low half, so `y` fills bytes 0..7 and `x` bytes 8..15. */
  function FromWords(x: bv64, y: bv64): (u: Uuid)
    ensures u.data[..8] == Le64(y) && u.data[8..] == Le64(x)
    ensures LowWord(u) == y && HighWord(u) == x
  {
    Word64OfLe64(y);
    Word64OfLe64(x);
    var d := SetEpi64x(x, y);
    assert d[..8] == Le64(y) && d[8..] == Le64(x);
    assert Word64(d, 8) == Word64(Le64(x), 0);
    Uuid(d)
  }

  /** `UUID(const uint8_t* bytes)`: the first 16 bytes at `bytes`, copied in
      order. */
  function FromBytes(bytes: seq<byte>): (u: Uuid)
    requires |bytes| >= 16
    ensures forall i :: 0 <= i < 16 ==> u.data[i] == bytes[i]
  {
    Uuid(bytes[..16])
  }

  /** `UUID(const std::string &bytes)`: 16 bytes loaded from `bytes.data()`,
      the characters followed by a terminating zero byte. A string of 15
      characters is read with its terminator as byte 15. */
  function FromByteString(s: seq<byte>): (u: Uuid)
    requires |s| >= 15
    ensures forall i :: 0 <= i < 16 && i < |s| ==> u.data[i] == s[i]
    ensures |s| == 15 ==> u.data[15] == 0
  {
    FromBytes(s + [0])
  }

  /** `UUID::null()`: `UUID(0, 0)`. */
  function Null(): (u: Uuid)
    ensures forall i :: 0 <= i < 16 ==> u.data[i] == 0
  {
    var u := FromWords(0, 0);
    assert u.data == u.data[..8] + u.data[8..];
    u
  }

  /** `from_str_factory(const char* raw)` and `from_str(const char* raw)`:
      the value read by `stom128i` from the 36 bytes at `raw`. Well-formed
      lowercase text gives the bytes it spells. */
  function FromStr(raw: seq<byte>): (u: Uuid)
    requires |raw| >= 36
    ensures IsCanonical(raw) ==> u.data == ParseCanonical(raw)
  {
    var d := Decode(raw);
    assert IsCanonical(raw) ==> d == ParseCanonical(raw) by {
      if IsCanonical(raw) {
        DecodeCanonical(raw);
      }
    }
    Uuid(d)
  }

  /** `from_str_factory(const std::string &s)`: reads through `s.c_str()`,
      the characters followed by a terminating zero byte. A string of 35
      characters is read with its terminator as the last character; on a
      longer one the terminator is never read. */
  function FromString(s: seq<byte>): (u: Uuid)
    requires |s| >= 35
    ensures |s| >= 36 ==> u == FromStr(s)
    ensures IsCanonical(s) ==> u.data == ParseCanonical(s)
  {
    if |s| >= 36 then
      DecodeReadsOnlyDigits(s + [0], s);
      FromStr(s + [0])
    else
      FromStr(s + [0])
  }

  // ------------------------------------------------------------ accessors

  /** `is_null()`: both words are zero. */
  function IsNull(u: Uuid): (r: bool)
    ensures r <==> forall i :: 0 <= i < 16 ==> u.data[i] == 0
  {
    var lo, hi := LowWord(u), HighWord(u);
    assert lo == 0 <==> forall i :: 0 <= i < 8 ==> u.data[i] == 0 by {
      Word64Zero(u.data, 0);
    }
    assert hi == 0 <==> forall i :: 8 <= i < 16 ==> u.data[i] == 0 by {
      Word64Zero(u.data, 8);
    }
    lo == 0 && hi == 0
  }

  /** `get_a_b()`: the pair (word of bytes 8..15, word of bytes 0..7). The
      pair determines the value: `UUID(a, b)` rebuilds it. */
  function GetAB(u: Uuid): (r: (bv64, bv64))
    ensures FromWords(r.0, r.1) == u
  {
    var v := FromWords(HighWord(u), LowWord(u));
    assert v.data[..8] == u.data[..8] by {
      Le64OfWord64(u.data, 0);
    }
    assert v.data[8..] == u.data[8..] by {
      Le64OfWord64(u.data, 8);
    }
    assert v.data == v.data[..8] + v.data[8..];
    assert u.data == u.data[..8] + u.data[8..];
    (HighWord(u), LowWord(u))
  }

  /** `bytes()` and `get_data()`: the 16 stored bytes, from which
      `UUID(const uint8_t*)` rebuilds the value. */
  function ToBytes(u: Uuid): (r: seq<byte>)
    ensures |r| == 16
    ensures FromBytes(r) == u
  {
    assert u.data[..16] == u.data;
    u.data
  }

  /** `str()`: `m128itos` into a fresh 36-character string. */
  function Str(u: Uuid): (s: seq<byte>)
    ensures s == CanonicalText(u.data)
    ensures IsCanonical(s)
  {
    Encode(u.data)
  }

  /** `hash()` (also `std::hash<UUID>`): with `a` the word of bytes 0..7 and
      `b` that of bytes 8..15, `a ^ (b + 0x9e3779b9 + (a << 6) + (a >> 2))`
      in 64-bit unsigned arithmetic. */
  function Hash(u: Uuid): bv64 {
    HashWords(LowWord(u), HighWord(u))
  }

  /** The mixing formula on the two words; `+` and `<<` wrap at 2^64. */
  function HashWords(a: bv64, b: bv64): bv64 {
    a ^ (b + 0x9e3779b9 + (a << 6) + (a >> 2))
  }

  // ------------------------------------------------------------ comparisons

  /** `operator==`: the xor of the two values has no bit set. */
  function Equal(lhs: Uuid, rhs: Uuid): (r: bool)
    ensures r <==> lhs == rhs
    ensures r <==> forall i :: 0 <= i < 16 ==> lhs.data[i] == rhs.data[i]
  {
    var neq := Xor(lhs.data, rhs.data);
    assert forall i :: 0 <= i < 16 ==> (neq[i] & neq[i] == 0 <==> lhs.data[i] == rhs.data[i]);
    assert (forall i :: 0 <= i < 16 ==> lhs.data[i] == rhs.data[i]) ==> lhs.data == rhs.data;
    TestAllZeros(neq, neq)
  }

  /** `operator!=` */
  function NotEqual(lhs: Uuid, rhs: Uuid): (r: bool)
    ensures r <==> lhs != rhs
  {
    !Equal(lhs, rhs)
  }

  /** `operator<`: the word of bytes 0..7 first, then that of bytes 8..15.
      This is the numeric order of the keys. */
  function Less(lhs: Uuid, rhs: Uuid): (r: bool)
    ensures r <==> Key(lhs) < Key(rhs)
  {
    WordPairOrder(LowWord(lhs), HighWord(lhs), LowWord(rhs), HighWord(rhs));
    PairLess(LowWord(lhs) as int, HighWord(lhs) as int, LowWord(rhs) as int, HighWord(rhs) as int)
  }

  /** Lexicographic order on pairs of numbers, the first one deciding. The
      words are compared as the unsigned numbers they hold. */
  predicate PairLess(a1: int, b1: int, a2: int, b2: int) {
    a1 < a2 || (a1 == a2 && b1 < b2)
  }

  /** `operator>`: neither below nor equal. */
  function Greater(lhs: Uuid, rhs: Uuid): (r: bool)
    ensures r <==> !Less(lhs, rhs) && lhs != rhs
  {
    LessTrichotomous(lhs, rhs);
    Less(rhs, lhs)
  }

  /** `operator<=`: below or equal. */
  function LessEq(lhs: Uuid, rhs: Uuid): (r: bool)
    ensures r <==> Less(lhs, rhs) || lhs == rhs
  {
    LessTrichotomous(lhs, rhs);
    !Greater(lhs, rhs)
  }

  /** `operator>=`: above or equal. */
  function GreaterEq(lhs: Uuid, rhs: Uuid): (r: bool)
    ensures r <==> Less(rhs, lhs) || lhs == rhs
  {
    LessTrichotomous(lhs, rhs);
    !Less(lhs, rhs)
  }

  // ------------------------------------------------------------ construction and access

  /** `get_a_b` gives back the two words `UUID(x, y)` was built from. */
  lemma GetABFromWords(x: bv64, y: bv64)
    ensures GetAB(FromWords(x, y)) == (x, y)
  {
  }

  /** The bytes a value is built from are the bytes it gives back, and a
      value rebuilt from its bytes is the same value. */
  lemma BytesRoundTrip(bytes: seq<byte>, u: Uuid)
    requires |bytes| >= 16
    ensures ToBytes(FromBytes(bytes)) == bytes[..16]
    ensures FromBytes(ToBytes(u)) == u
  {
    assert ToBytes(u)[..16] == u.data;
  }

  /** `null()` is the value `is_null` recognises, and the only one. */
  lemma NullIsNull(u: Uuid)
    ensures IsNull(Null())
    ensures GetAB(Null()) == (0, 0)
    ensures IsNull(u) <==> u == Null()
  {
    if IsNull(u) {
      assert u.data == Null().data;
    }
  }

  // ------------------------------------------------------------ hashing

  /** The hash of `UUID(x, y)`: `y` is the word of bytes 0..7. */
  lemma HashOfWords(x: bv64, y: bv64)
    ensures Hash(FromWords(x, y)) == y ^ (x + 0x9e3779b9 + (y << 6) + (y >> 2))
  {
    var u := FromWords(x, y);
    assert LowWord(u) == y && HighWord(u) == x;
    assert Hash(u) == HashWords(y, x);
  }

  lemma HashNull()
    ensures Hash(Null()) == 0x9e3779b9
  {
    HashOfWords(0, 0);
  }

  /** Values that compare equal hash equal. */
  lemma HashRespectsEqual(lhs: Uuid, rhs: Uuid)
    requires Equal(lhs, rhs)
    ensures Hash(lhs) == Hash(rhs)
  {
  }

  // ------------------------------------------------------------ ordering

  /** A value is determined by its two words. */
  lemma WordsDetermine(a: Uuid, b: Uuid)
    ensures LowWord(a) == LowWord(b) && HighWord(a) == HighWord(b) <==> a == b
  {
    if LowWord(a) == LowWord(b) && HighWord(a) == HighWord(b) {
      Word64Injective(a.data, 0, b.data, 0);
      Word64Injective(a.data, 8, b.data, 8);
      assert a.data == a.data[0..8] + a.data[8..16];
      assert b.data == b.data[0..8] + b.data[8..16];
    }
  }

  /** The number with digits `a` and `b` in base 2^64. */
  function PairKey(a: int, b: int): int {
    a * 0x1_0000_0000_0000_0000 + b
  }

  /** Two-digit numbers compare digit by digit and are equal only digit by
      digit. */
  lemma PairKeyOrder(a1: int, b1: int, a2: int, b2: int)
    requires 0 <= b1 < 0x1_0000_0000_0000_0000 && 0 <= b2 < 0x1_0000_0000_0000_0000
    ensures PairLess(a1, b1, a2, b2) <==> PairKey(a1, b1) < PairKey(a2, b2)
    ensures PairKey(a1, b1) == PairKey(a2, b2) <==> a1 == a2 && b1 == b2
  {
  }

  /** Pairs of words compare as the two-digit numbers they spell. */
  lemma WordPairOrder(a1: bv64, b1: bv64, a2: bv64, b2: bv64)
    ensures PairLess(a1 as int, b1 as int, a2 as int, b2 as int)
            <==> PairKey(a1 as int, b1 as int) < PairKey(a2 as int, b2 as int)
    ensures PairKey(a1 as int, b1 as int) == PairKey(a2 as int, b2 as int) <==> a1 == a2 && b1 == b2
  {
    PairKeyOrder(a1 as int, b1 as int, a2 as int, b2 as int);
    ValueInjective(a1, a2);
    ValueInjective(b1, b2);
  }

  /** Words with the same unsigned value are the same word. */
  lemma ValueInjective(a: bv64, b: bv64)
    ensures a as int == b as int <==> a == b
  {
    assert (a as int) as bv64 == a && (b as int) as bv64 == b;
  }

  /** The number the order compares: the word of bytes 0..7 is the more
      significant half. */
  function Key(u: Uuid): int {
    PairKey(LowWord(u) as int, HighWord(u) as int)
  }

  /** Distinct values have distinct keys. */
  lemma KeyInjective(a: Uuid, b: Uuid)
    ensures Key(a) == Key(b) <==> a == b
  {
    WordPairOrder(LowWord(a), HighWord(a), LowWord(b), HighWord(b));
    WordsDetermine(a, b);
  }

  lemma LessIrreflexive(a: Uuid)
    ensures !Less(a, a)
  {
  }

  lemma LessTransitive(a: Uuid, b: Uuid, c: Uuid)
    requires Less(a, b) && Less(b, c)
    ensures Less(a, c)
  {
  }

  /** Exactly one of `a < b`, `a == b` and `b < a` holds. */
  lemma LessTrichotomous(a: Uuid, b: Uuid)
    ensures Less(a, b) || a == b || Less(b, a)
    ensures !(Less(a, b) && Less(b, a))
    ensures a == b ==> !Less(a, b)
  {
    KeyInjective(a, b);
  }

  /** `>`, `<=` and `>=` are the converse, the reflexive closure and its
      converse of `<`, and `==` agrees with equality of values. */
  lemma ComparisonsAgree(a: Uuid, b: Uuid)
    ensures Greater(a, b) <==> Less(b, a)
    ensures LessEq(a, b) <==> Less(a, b) || Equal(a, b)
    ensures GreaterEq(a, b) <==> Less(b, a) || Equal(a, b)
    ensures NotEqual(a, b) <==> !Equal(a, b)
  {
    LessTrichotomous(a, b);
  }

  /** On values built from words, `<` compares `y` first, then `x`. */
  lemma LessOfWords(x1: bv64, y1: bv64, x2: bv64, y2: bv64)
    ensures Less(FromWords(x1, y1), FromWords(x2, y2)) <==> PairKey(y1 as int, x1 as int) < PairKey(y2 as int, x2 as int)
  {
    var u1, u2 := FromWords(x1, y1), FromWords(x2, y2);
    assert LowWord(u1) == y1 && HighWord(u1) == x1;
    assert LowWord(u2) == y2 && HighWord(u2) == x2;
    WordPairOrder(y1, x1, y2, x2);
  }

  /** `null()` is the least value: below every other one. */
  lemma NullLeast(u: Uuid)
    ensures LessEq(Null(), u)
    ensures Less(Null(), u) <==> u != Null()
  {
    var n := Null();
    assert LowWord(n) == 0 && HighWord(n) == 0;
    assert Key(n) == 0;
    KeyInjective(n, u);
  }

  // ------------------------------------------------------------ text

  /** Reading back the text of a value gives the value. */
  lemma FromStrStr(u: Uuid)
    ensures FromStr(Str(u)) == u
  {
    DecodeEncode(u.data, Zeros(16), Zeros(36));
  }

  /** Writing out the value read from well-formed lowercase text gives the
      text back. */
  lemma StrFromStr(s: seq<byte>)
    requires IsCanonical(s)
    ensures Str(FromStr(s)) == s
  {
    EncodeDecode(s, Zeros(16), Zeros(36));
  }

  /** The value read from well-formed text is the one the text spells. */
  lemma FromStrCanonical(s: seq<byte>)
    requires IsCanonical(s)
    ensures FromStr(s).data == ParseCanonical(s)
  {
    DecodeCanonical(s);
  }

  /** Reading through `c_str()` of the text of a value gives the value. */
  lemma FromStringStr(u: Uuid)
    ensures FromString(Str(u)) == u
  {
    var s := Str(u);
    DecodeReadsOnlyDigits(s + [0], s);
    FromStrStr(u);
  }

  /** Only the 32 digit positions are read: the characters at the separator
      offsets, and any after the 36th, make no difference. */
  lemma FromStrReadsOnlyDigits(s: seq<byte>, t: seq<byte>)
    requires |s| >= 36 && |t| >= 36
    requires forall k :: 0 <= k < 36 && !IsDashOffset(k) ==> s[k] == t[k]
    ensures FromStr(s) == FromStr(t)
  {
    DecodeReadsOnlyDigits(s, t);
  }
}
