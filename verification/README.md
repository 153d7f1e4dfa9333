# UUIDv4 in Dafny

A model of the header-only C++ library CppUUIDv4
(`CppUUIDv4/UUIDv4/uuidv4_uuid.hpp`). The library does three things:

- It writes a 128-bit UUID as the 36-character text of RFC 4122,
  `xxxxxxxx-xxxx-xxxx-xxxx-xxxxxxxxxxxx`, and reads it back. This is
  `m128itos` and `stom128i`, both written with AVX2 intrinsics.
- It wraps the 16 bytes in a value class `UUID`. The class has
  constructors, comparisons, accessors, a hash, and conversions to bytes and
  text.
- It stamps two random 64-bit words with the version 4 and variant 10x bits
  (`UUIDGenerator::get_uuid`).

The model works on the 16 stored bytes, in memory order. The constructor
`UUID(__m128i)` (lines 113-115) is the datatype constructor `Uuids.Uuid`.
`get_data()` and `bytes()` are `Uuids.ToBytes`.

| file | module | contents |
|---|---|---|
| `bytes.dfy` | `Bytes` | bytes, 16-byte blocks, and little-endian 32- and 64-bit words |
| `simd.dfy` | `Simd` | byte-level meaning of each intrinsic the library calls, on 16- and 32-byte registers; lemmas that the 64-bit lane shifts act byte by byte on the values that occur |
| `hex_text.dfy` | `HexText` | the plain reference: lowercase hex digits with dashes at offsets 8, 13, 18 and 23; the well-formedness predicate; the parse of well-formed text |
| `codec.dfy` | `Codec` | `m128itos` and `stom128i`, step by step as the code does them; proofs that they compute the plain reference |
| `uuid.dfy` | `Uuids` | the `UUID` class |
| `generator.dfy` | `Generator` | `get_uuid` |

The shuffle, blend and set constants of the codec appear as tables. Lemmas
state which source byte lands in which lane.

Text is a sequence of ASCII codes (`seq<bv8>`), because the code does
bytewise arithmetic on characters.

The host is taken to be little-endian:

- The `betole*` helpers are the identity.
- `*(uint64_t*)data` is the little-endian word of bytes 0..7.
- `*(uint64_t*)&data[8]` is the little-endian word of bytes 8..15.

### How the code behaves where a reader might expect otherwise

- `UUID(x, y)` stores `y` in bytes 0..7 and `x` in bytes 8..15. This is
  because `_mm_set_epi64x` puts its second argument in the low half.
- `get_a_b()` returns (word of bytes 8..15, word of bytes 0..7), so it
  gives back `(x, y)`.
- `operator<` compares the word of bytes 0..7 first. That is `y`, not `x`.
- `hash()` uses the word of bytes 0..7 as its `a`.
- Text is decoded byte by byte in memory order, and the words are
  little-endian readings of those bytes. So by these definitions
  "ffffffff-ffff-4fff-bfff-ffffffffffff" has bytes
  `ff ff ff ff ff ff 4f ff bf ff ff ff ff ff ff ff` and
  `get_a_b() == (0xffffffffffffffbf, 0xff4fffffffffffff)`. That is not the
  digit groups read as big-endian numbers.
- Only lowercase text decodes correctly. `stom128i` maps 'A'..'F' to
  0x11..0x16, not to 10..15 (`Codec.CharValue`). So uppercase input yields
  a different UUID. The model states only the lowercase round trips.

## Model

| member | source | states |
|---|---|---|
| Codec.NibbleChar | CppUUIDv4/UUIDv4/uuidv4_uuid.hpp:42-45 | for a nibble, the add-6 / alpha-mask / blend arithmetic yields its lowercase hex digit ('0'..'9', 'a'..'f') |
| Codec.HexLanesAreHex | CppUUIDv4/UUIDv4/uuidv4_uuid.hpp:37-45 | spreading and translating the 16 bytes yields the 32 hex digits of the bytes, high nibble first, in byte order; this holds for every value of the undefined upper half of the 128-to-256 cast |
| Codec.PlaceDashesIsDashed | CppUUIDv4/UUIDv4/uuidv4_uuid.hpp:49-57 | the dash shuffle, the dash mask and the two tail stores overwrite all 36 bytes of the buffer: digit j goes to its text offset and '-' to offsets 8, 13, 18, 23 |
| Codec.EncodeInto | CppUUIDv4/UUIDv4/uuidv4_uuid.hpp:27-58 | after `m128itos(x, mem)` the 36-byte buffer holds exactly the 8-4-4-4-12 lowercase hex text of x, whatever the undefined upper half of the cast and the buffer's prior contents were |
| Codec.Encode | CppUUIDv4/UUIDv4/uuidv4_uuid.hpp:212-226 | `str()` (`resize(36)` of an empty string, then `m128itos`) yields the canonical text of the 16 bytes, which is well formed |
| Codec.Decode | CppUUIDv4/UUIDv4/uuidv4_uuid.hpp:64-97 | no ensures of its own (`stom128i` checks nothing and promises nothing on arbitrary input); its meaning is stated by `Codec.DecodeCanonical`, `Codec.DecodeEncode`, `Codec.EncodeDecode` and `Codec.DecodeReadsOnlyDigits` |
| Codec.GatherDigitsIsUndashed | CppUUIDv4/UUIDv4/uuidv4_uuid.hpp:66-71 | the load, the dash-removing shuffle and the two inserts gather the 32 characters at the non-dash offsets, in order |
| Codec.CharValue | CppUUIDv4/UUIDv4/uuidv4_uuid.hpp:87-90 | a lowercase hex digit maps to its value; 'A'..'F' map to 0x11..0x16, which is not a nibble |
| Codec.AsciiToNibblesLane | CppUUIDv4/UUIDv4/uuidv4_uuid.hpp:87-90 | the subtract / mask / blend / subtract steps turn each gathered character into its value |
| Codec.JoinNibblesByte | CppUUIDv4/UUIDv4/uuidv4_uuid.hpp:91-96 | the unweave shuffle, variable shift, horizontal add and permute make byte m from nibble 2m (high) and nibble 2m+1 (low) |
| Codec.DecodeByte | CppUUIDv4/UUIDv4/uuidv4_uuid.hpp:64-97 | when every digit character has a nibble value, byte m of `stom128i` joins the values of digits 2m and 2m+1 |
| Codec.DecodeCanonical | CppUUIDv4/UUIDv4/uuidv4_uuid.hpp:64-97 | on well-formed lowercase text, `stom128i` returns the 16 bytes the text spells |
| Codec.DecodeEncode | CppUUIDv4/UUIDv4/uuidv4_uuid.hpp:27-97 | decoding the text written by `m128itos` gives back the 16 bytes |
| Codec.EncodeDecode | CppUUIDv4/UUIDv4/uuidv4_uuid.hpp:27-97 | encoding what `stom128i` reads from well-formed lowercase text gives back that text |
| Codec.DecodeReadsOnlyDigits | CppUUIDv4/UUIDv4/uuidv4_uuid.hpp:66-71 | `stom128i` ignores the four separator offsets and everything after offset 35 |
| Uuids.FromWords | CppUUIDv4/UUIDv4/uuidv4_uuid.hpp:117-120 | `UUID(x, y)` stores y as the little-endian bytes 0..7 and x as bytes 8..15 |
| Uuids.GetAB | CppUUIDv4/UUIDv4/uuidv4_uuid.hpp:152-154 | `get_a_b()` determines the value: `UUID(a, b)` built from its pair is the same UUID |
| Uuids.GetABFromWords | CppUUIDv4/UUIDv4/uuidv4_uuid.hpp:152-154 | `get_a_b()` of `UUID(x, y)` is `(x, y)` |
| Uuids.FromBytes | CppUUIDv4/UUIDv4/uuidv4_uuid.hpp:122-125 | `UUID(const uint8_t*)` copies the first 16 bytes in order: byte i of the UUID is input byte i |
| Uuids.FromByteString | CppUUIDv4/UUIDv4/uuidv4_uuid.hpp:127-131 | `UUID(const std::string&)` stores the string's bytes; a 15-character string gets its terminating zero as byte 15 |
| Uuids.ToBytes | CppUUIDv4/UUIDv4/uuidv4_uuid.hpp:190-209 | `bytes()` and `get_data()` give 16 bytes from which `UUID(const uint8_t*)` rebuilds the same UUID |
| Uuids.BytesRoundTrip | CppUUIDv4/UUIDv4/uuidv4_uuid.hpp:122-131 | building from bytes and reading the bytes back gives the first 16 input bytes; rebuilding from a UUID's bytes gives the same UUID |
| Uuids.Null | CppUUIDv4/UUIDv4/uuidv4_uuid.hpp:142-144 | `null()` has all 16 bytes zero |
| Uuids.IsNull | CppUUIDv4/UUIDv4/uuidv4_uuid.hpp:146-150 | `is_null()` holds exactly when all 16 bytes are zero |
| Uuids.NullIsNull | CppUUIDv4/UUIDv4/uuidv4_uuid.hpp:142-150 | `null()` is null; its words are (0, 0); a UUID is null exactly when it equals `null()` |
| Uuids.Equal | CppUUIDv4/UUIDv4/uuidv4_uuid.hpp:169-175 | the xor / test-all-zeros check holds exactly when the two UUIDs are equal, that is byte for byte |
| Uuids.NotEqual | CppUUIDv4/UUIDv4/uuidv4_uuid.hpp:185 | `!=` holds exactly when the UUIDs differ |
| Uuids.Less | CppUUIDv4/UUIDv4/uuidv4_uuid.hpp:177-183 | `<` holds exactly when the 128-bit number whose upper half is the word of bytes 0..7 and whose lower half is the word of bytes 8..15 is smaller |
| Uuids.LessIrreflexive | CppUUIDv4/UUIDv4/uuidv4_uuid.hpp:177-183 | no UUID is less than itself |
| Uuids.LessTransitive | CppUUIDv4/UUIDv4/uuidv4_uuid.hpp:177-183 | `<` is transitive |
| Uuids.LessTrichotomous | CppUUIDv4/UUIDv4/uuidv4_uuid.hpp:177-183 | for any two UUIDs exactly one of a < b, a == b, b < a holds |
| Uuids.Greater | CppUUIDv4/UUIDv4/uuidv4_uuid.hpp:186 | `a > b` holds exactly when a is neither below b nor equal to it |
| Uuids.LessEq | CppUUIDv4/UUIDv4/uuidv4_uuid.hpp:187 | `a <= b` holds exactly when a < b or a == b |
| Uuids.GreaterEq | CppUUIDv4/UUIDv4/uuidv4_uuid.hpp:188 | `a >= b` holds exactly when b < a or a == b |
| Uuids.LessOfWords | CppUUIDv4/UUIDv4/uuidv4_uuid.hpp:177-183 | on `UUID(x1, y1)` and `UUID(x2, y2)`, `<` compares y first, then x |
| Uuids.ComparisonsAgree | CppUUIDv4/UUIDv4/uuidv4_uuid.hpp:185-188 | `>` is the converse of `<`; `<=` is `<` or `==`; `>=` is `>` or `==`; `!=` is the negation of `==` |
| Uuids.NullLeast | CppUUIDv4/UUIDv4/uuidv4_uuid.hpp:142-144 | `null()` is `<=` every UUID and `<` every other one |
| Uuids.Hash | CppUUIDv4/UUIDv4/uuidv4_uuid.hpp:239-243 | no ensures of its own; its meaning is stated by `Uuids.HashOfWords` (the formula on the words of `UUID(x, y)`), `Uuids.HashNull` and `Uuids.HashRespectsEqual` |
| Uuids.HashOfWords | CppUUIDv4/UUIDv4/uuidv4_uuid.hpp:239-243 | the hash of `UUID(x, y)` is `y ^ (x + 0x9e3779b9 + (y << 6) + (y >> 2))`, wrapping at 2^64 |
| Uuids.HashNull | CppUUIDv4/UUIDv4/uuidv4_uuid.hpp:239-243 | the hash of `null()` is 0x9e3779b9 |
| Uuids.HashRespectsEqual | CppUUIDv4/UUIDv4/uuidv4_uuid.hpp:285-290 | UUIDs that compare equal have equal `std::hash` values |
| Uuids.Str | CppUUIDv4/UUIDv4/uuidv4_uuid.hpp:212-226 | `str()` is the 8-4-4-4-12 lowercase hex text of the bytes in memory order, and that text is well formed |
| Uuids.FromStr | CppUUIDv4/UUIDv4/uuidv4_uuid.hpp:138-140 | `from_str_factory(raw)`, and likewise `from_str(raw)` (lines 156-158), on well-formed lowercase text yields the bytes the text spells |
| Uuids.FromString | CppUUIDv4/UUIDv4/uuidv4_uuid.hpp:134-136 | reading through `c_str()`: on a string of 36 or more characters the terminator is never read and the result is `from_str_factory` of the characters; on well-formed lowercase text it is the bytes the text spells |
| Uuids.FromStrStr | CppUUIDv4/UUIDv4/uuidv4_uuid.hpp:138-140 | `from_str_factory(u.str())` is u |
| Uuids.StrFromStr | CppUUIDv4/UUIDv4/uuidv4_uuid.hpp:138-140 | for well-formed lowercase text s, `from_str_factory(s).str()` is s |
| Uuids.FromStrCanonical | CppUUIDv4/UUIDv4/uuidv4_uuid.hpp:156-158 | `from_str` on well-formed lowercase text stores the bytes the text spells |
| Uuids.FromStringStr | CppUUIDv4/UUIDv4/uuidv4_uuid.hpp:134-136 | parsing `u.str()` through `c_str()` gives back u |
| Uuids.FromStrReadsOnlyDigits | CppUUIDv4/UUIDv4/uuidv4_uuid.hpp:138-140 | texts with the same 32 digit characters give the same UUID, whatever sits at the separator offsets |
| Generator.AndMaskBytes | CppUUIDv4/UUIDv4/uuidv4_uuid.hpp:269 | `and_mask` keeps every bit except the upper nibble of byte 6 and the upper two bits of byte 8 |
| Generator.OrMaskBytes | CppUUIDv4/UUIDv4/uuidv4_uuid.hpp:270 | `or_mask` sets 0x40 in byte 6 and 0x80 in byte 8 and nothing else |
| Generator.Stamp | CppUUIDv4/UUIDv4/uuidv4_uuid.hpp:269-272 | stamping keeps the low nibble of byte 6 and sets its high nibble to 4; it keeps the low six bits of byte 8 and sets its top two bits to 10; the other 14 bytes are unchanged |
| Generator.GetUuid | CppUUIDv4/UUIDv4/uuidv4_uuid.hpp:267-275 | a generated UUID is version 4, variant 10x, and its bytes other than 6 and 8 are those of `_mm_set_epi64x(e1, e0)` |
| Generator.StampIsVersion4 | CppUUIDv4/UUIDv4/uuidv4_uuid.hpp:269-272 | a stamped block has version nibble 4 and variant bits 10; its low 4 bits of byte 6 and low 6 bits of byte 8 are the drawn ones |
| Generator.StampFixedPoint | CppUUIDv4/UUIDv4/uuidv4_uuid.hpp:269-272 | stamping leaves a block unchanged exactly when it already has version 4 and variant 10 |
| Generator.StampIdempotent | CppUUIDv4/UUIDv4/uuidv4_uuid.hpp:269-272 | stamping twice equals stamping once |
| Generator.GetUuidWords | CppUUIDv4/UUIDv4/uuidv4_uuid.hpp:267-275 | `get_a_b()` of a generated UUID is the two drawn words e1 and e0, each and-ed with its half of `and_mask` and then or-ed with its half of `or_mask` |
| Generator.GeneratedText | CppUUIDv4/UUIDv4/uuidv4_uuid.hpp:267-275 | the text of a generated UUID has '4' at offset 14 and one of '8', '9', 'a', 'b' at offset 19 |

## Left out

- The random number generator, `std::uniform_int_distribution` and the
  three `UUIDGenerator` constructors (lines 257-264) are left out: they
  are randomness and ownership plumbing. The two drawn words are
  parameters of `Generator.GetUuid`. Uniformity of the output is not
  modelled.
- Which draw becomes which word: C++ leaves the evaluation order of the two
  `distribution(*generator)` arguments unspecified. The model names the
  words by the `_mm_set_epi64x` argument they are passed as.
- The default constructor `UUID()` (lines 104-105) leaves the storage
  uninitialized, so it has no value to model.
- The copy constructor and copy assignment (lines 107-110 and 160-167),
  with the self-assignment check, are left out. Values are immutable here,
  so copying is the identity.
- The stream operators `<<` and `>>` (lines 228-237) are I/O. They are
  `str()` and `from_str_factory` on a stream, and those two are modelled.
- The buffer forms `bytes(std::string&)`, `bytes(char*)`, `str(std::string&)`
  and `str(char*)` are modelled as functions that return the result.
  Writing into caller memory is left out. `Codec.EncodeInto` does take the
  36-byte buffer's prior contents, and its result is the same whatever they
  are.
- The upper half of `_mm256_castsi128_si256` is undefined in C++. It is a
  parameter (`upper`) of the encoder, and every theorem holds for all of
  its values.
- Alignment (`alignas(128)`, aligned versus unaligned loads and stores) and
  the SIMDe portability layer are left out: neither changes a value.
- Big-endian hosts are left out: `betole*` is the identity, and words are
  read little-endian.
- `size_t` is 64 bits, so `hash()` returns its full 64-bit value.
- Uuids.FromBytes: requires at least 16 readable bytes (and so does
  `Uuids.BytesRoundTrip`). `UUID(const uint8_t*)` loads 16 bytes with no
  length to check, so shorter input is undefined behaviour in C++.
- Uuids.FromByteString: requires at least 15 characters. The 16-byte load
  from `bytes.data()` reads the terminator as byte 15 of a 15-character
  string, which is modelled; shorter strings make it read past the
  terminator.
- Uuids.FromStr: requires at least 36 readable bytes. `stom128i` reads 36
  bytes and checks nothing, so shorter input is undefined behaviour in C++.
- Uuids.FromString: requires at least 35 characters. The terminator of
  `c_str()` is the 36th byte read; shorter strings make `stom128i` read
  past the terminator.
- Codec.DecodeCanonical: states the result only for well-formed lowercase
  text. For other input `stom128i` computes bytes from the per-lane
  arithmetic (`Codec.Decode` models that), but no meaning is promised for
  them.
