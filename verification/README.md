# diesel `PgNumeric` binary codec, in Dafny

This project models how diesel reads and writes PostgreSQL `numeric` values in
the server's binary wire format, and proves properties of that model.

On the wire a numeric is four big-endian 16-bit header words, then the digits:
`ndigits` (u16), `weight` (i16), `sign` (u16: 0x0000 positive, 0x4000
negative, 0xC000 NaN), `dscale` (u16), and then `ndigits` signed 16-bit
base-10000 digit groups. diesel holds the value as `PgNumeric`, a sum of
`Positive { weight, scale, digits }`, `Negative { … }` and `NaN`.

- `Decode` is `from_sql`. An absent value fails with `MissingValue`. It reads
  the four header words and then every announced digit. Any short read fails
  with `Truncated`. Only after that does it look at the sign word. A sign
  word it does not know fails with `InvalidSign(sign)`, which carries the raw
  word.
- `Encode` is `to_sql`. It derives the sign word, digits, weight and scale
  from the variant. For `NaN` these are 0xC000, no digits, 0 and 0. It writes
  them in the same field order.
- `ReadNumeric` and `WriteNumeric` follow the loops in `from_sql` and
  `to_sql` step by step: a cursor that advances through the input, and a
  sink that grows. They are proved equal to `Decode` and `Encode`.

Files:
- `wire.dfy` (module `Wire`): the `byte`, `u16` and `i16` types, big-endian
  byte pairs, and two's complement. It also has `Wrap16`, the `as u16` cast.
- `results.dfy` (module `Results`): `Option`, `DecodeError`, `Result`, and
  the `IsNull` marker.
- `cursor.dfy` (module `Cursor`): sequential reads that return the rest of the
  slice, and the digit writer.
- `numeric.dfy` (module `Numeric`): `PgNumeric`, a random-access view of an
  encoded buffer (`NDigitsAt`, `SignAt`, `DigitsAt`, `Complete`, …), and the
  codec itself.
- `numeric_properties.dfy` (module `NumericProperties`): round trips,
  canonical NaN, trailing bytes, and worked examples.

The contracts of `Decode` and `Encode` are stated against the random-access
view. That view says which byte offsets hold which field. The definitions
themselves read and write sequentially, as diesel's `from_sql` and `to_sql` do.

`to_sql` writes the digit count as `digits.len() as u16` (mod.rs:128), so a
value with more than 65535 digit groups does not round-trip. `RoundTrip`
requires at most 65535 digits, `DecodeEncode` covers every length, and
`RoundTripNeedsDigitBound` shows the bound is needed.

## Model

| member | source | states |
|---|---|---|
| `Wire.U16ToBytes` | diesel/src/types/impls/floats/mod.rs:128-131 | a `u16` is written as two bytes, most significant first: hi * 256 + lo is the value |
| `Wire.U16FromBytes` | diesel/src/types/impls/floats/mod.rs:79-83 | reading two bytes as a big-endian `u16` is inverse to writing it: the value writes back as the same two bytes |
| `Wire.U16RoundTrip` | diesel/src/types/impls/floats/mod.rs:79 | reading back the two written bytes of a `u16` gives the value |
| `Wire.I16ToU16` | diesel/src/types/impls/floats/mod.rs:129 | two's complement: the unsigned bit pattern is congruent to the signed value mod 2^16, with the top bit set exactly for negatives |
| `Wire.U16ToI16` | diesel/src/types/impls/floats/mod.rs:81 | two's complement: the signed reading is congruent to the bit pattern mod 2^16, negative exactly when the top bit is set |
| `Wire.I16U16RoundTrip` | diesel/src/types/impls/floats/mod.rs:81 | the signed/unsigned reinterpretations are mutually inverse |
| `Wire.I16ToBytes` | diesel/src/types/impls/floats/mod.rs:133 | a signed digit or weight is written as two bytes that read back as the same signed value |
| `Wire.I16FromBytes` | diesel/src/types/impls/floats/mod.rs:85 | the signed value read from two bytes has the bit pattern of their big-endian `u16` |
| `Wire.Wrap16` | diesel/src/types/impls/floats/mod.rs:128 | `len as u16` keeps the length below 65536 unchanged and otherwise keeps it mod 2^16 |
| `Cursor.ReadU16` | diesel/src/types/impls/floats/mod.rs:79-83 | a header read succeeds iff two bytes remain, yields their big-endian value and advances by two; otherwise `Truncated` |
| `Cursor.ReadI16` | diesel/src/types/impls/floats/mod.rs:85 | a signed read succeeds iff two bytes remain, yields their two's-complement value and advances by two; otherwise `Truncated` |
| `Cursor.ReadI16s` | diesel/src/types/impls/floats/mod.rs:84-86 | reading n digits succeeds iff at least 2n bytes remain; then the k-th digit comes from bytes 2k and 2k+1, in order, and exactly 2n bytes are consumed |
| `Cursor.WriteI16s` | diesel/src/types/impls/floats/mod.rs:132-134 | the digits are written as two bytes each, in order, each pair reading back as its digit |
| `Cursor.WriteI16sSnoc` | diesel/src/types/impls/floats/mod.rs:132-134 | writing one more digit appends exactly its two bytes |
| `Numeric.Decode` | diesel/src/types/impls/floats/mod.rs:76-103 | absent input is `MissingValue`; `Truncated` iff the buffer is shorter than 8 bytes or than 8 + 2*ndigits, whatever the sign; otherwise sign 0 / 0x4000 give `Positive` / `Negative` with the weight, scale and announced digits at their offsets, 0xC000 gives `NaN` whatever the other fields, and any other sign gives `InvalidSign` with the raw word |
| `Numeric.Encode` | diesel/src/types/impls/floats/mod.rs:105-138 | the output is 8 + 2*|digits| bytes: ndigits (the length mod 2^16), weight, sign word of the variant, scale, then each digit at its offset; `NaN` uses weight 0, scale 0 and no digits |
| `Numeric.EncodeHeader` | diesel/src/types/impls/floats/mod.rs:128-131 | the header is 8 bytes holding ndigits, weight, sign and scale at offsets 0, 2, 4 and 6 |
| `Numeric.ReadNumeric` | diesel/src/types/impls/floats/mod.rs:77-102 | the cursor-and-loop decoder, with early return on the first short read, computes exactly `Decode` |
| `Numeric.WriteNumeric` | diesel/src/types/impls/floats/mod.rs:106-137 | the sink-writing encoder appends exactly `Encode(v)` to what the sink already held and reports "not NULL" |
| `NumericProperties.NaNEncoding` | diesel/src/types/impls/floats/mod.rs:107-131 | `NaN` encodes to exactly `00 00 00 00 C0 00 00 00`, and those bytes decode to `NaN` |
| `NumericProperties.DecodeEncode` | diesel/src/types/impls/floats/mod.rs:128-134 | for every value, decoding its encoding gives the same variant, weight and scale with only the first |digits| mod 65536 digits |
| `NumericProperties.RoundTrip` | diesel/src/types/impls/floats/mod.rs:79-134 | every value with at most 65535 digits decodes from its encoding to itself |
| `NumericProperties.RoundTripNeedsDigitBound` | diesel/src/types/impls/floats/mod.rs:128 | a value with exactly 65536 digits comes back with no digits, so it does not round-trip |
| `NumericProperties.EncodeDecode` | diesel/src/types/impls/floats/mod.rs:79-134 | a complete buffer with a known sign decodes successfully; re-encoding gives back exactly the 8 + 2*ndigits bytes read for a positive or negative value, and the canonical 8 bytes for `NaN` |
| `NumericProperties.TrailingBytesIgnored` | diesel/src/types/impls/floats/mod.rs:79-86 | appending bytes to a complete buffer does not change the decoding result, value or error |
| `NumericProperties.DecodeReadsWireLength` | diesel/src/types/impls/floats/mod.rs:79-86 | decoding a complete buffer gives the same result as decoding its first 8 + 2*ndigits bytes |
| `NumericProperties.TruncationBeforeSign` | diesel/src/types/impls/floats/mod.rs:84-88 | a short buffer with an invalid sign word fails with `Truncated`, not `InvalidSign` |
| `NumericProperties.ExamplePositive` | diesel/src/types/impls/floats/mod.rs:89-93 | `Positive { weight: 0, scale: 2, digits: [1234] }` encodes to `00 01 00 00 00 00 00 02 04 D2`, and decodes back from it |
| `NumericProperties.ExampleInvalidSign` | diesel/src/types/impls/floats/mod.rs:100 | the header with sign word 0x1234 fails with `InvalidSign(0x1234)` |

## Left out

- The `f32`/`f64` `FromSql`/`ToSql` impls (mod.rs lines 14-42). They are IEEE-754 floating point, and they are thin wrappers over the byteorder crate's float reads and writes.
- Write errors of the `std::io::Write` sink. Encoding is a total function, and `WriteNumeric` always returns the `IsNull::No` marker.
- The `Display` and `Error` impls of `InvalidNumericSign`. They only format strings. The error itself is `DecodeError.InvalidSign`.
- The `quickcheck_impls` module and the `Backend`/`Pg` generic plumbing. The `not_none!` macro is modelled only as "an absent value gives `MissingValue`". `UnexpectedNullError` and the boxing of errors are not part of this model.
- The byteorder crate's readers and writers are not part of this model. The module `Wire` re-states their big-endian and two's-complement behaviour.
- The codec does not validate digit range, weight or scale, and neither does the model.
