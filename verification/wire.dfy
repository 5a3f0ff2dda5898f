/**
 Fixed-width integers of the wire and their big-endian byte encodings.

 Every integer on the wire is 16 bits wide and sent most significant byte
 first. Signed values use two's complement, so an `i16` travels as the `u16`
 that is congruent to it modulo 2^16.
 */
module Wire {

  type byte = x: int | 0 <= x < 0x100
  type u16 = x: int | 0 <= x < 0x1_0000
  type i16 = x: int | -0x8000 <= x < 0x8000

  /** The two bytes of `v`, most significant first. */
  function U16ToBytes(v: u16): (r: seq<byte>)
    ensures |r| == 2
    ensures (r[0] as int) * 0x100 + r[1] as int == v
  {
    [v / 0x100, v % 0x100]
  }

  /** The `u16` whose big-endian bytes are `hi`, `lo`. */
  function U16FromBytes(hi: byte, lo: byte): (v: u16)
    ensures U16ToBytes(v) == [hi, lo]
  {
    (hi as int) * 0x100 + lo as int
  }

  lemma U16RoundTrip(v: u16)
    ensures U16FromBytes(U16ToBytes(v)[0], U16ToBytes(v)[1]) == v
  {
  }

  /** Reinterprets the bits of a signed value as unsigned (two's complement). */
  function I16ToU16(v: i16): (u: u16)
    ensures (u - v) % 0x1_0000 == 0
    ensures v < 0 <==> u >= 0x8000
  {
    if v < 0 then v + 0x1_0000 else v
  }

  /** Reinterprets the bits of an unsigned value as signed (two's complement). */
  function U16ToI16(u: u16): (v: i16)
    ensures (u - v) % 0x1_0000 == 0
    ensures v < 0 <==> u >= 0x8000
  {
    if u >= 0x8000 then u - 0x1_0000 else u
  }

  lemma I16U16RoundTrip(v: i16, u: u16)
    ensures U16ToI16(I16ToU16(v)) == v
    ensures I16ToU16(U16ToI16(u)) == u
  {
  }

  /** The two bytes of a signed value, as `write_i16::<BigEndian>` emits them. */
  function I16ToBytes(v: i16): (r: seq<byte>)
    ensures |r| == 2
    ensures I16FromBytes(r[0], r[1]) == v
  {
    U16ToBytes(I16ToU16(v))
  }

  /** The signed value `read_i16::<BigEndian>` yields for the bytes `hi`, `lo`. */
  function I16FromBytes(hi: byte, lo: byte): (v: i16)
    ensures I16ToU16(v) == U16FromBytes(hi, lo)
  {
    U16ToI16(U16FromBytes(hi, lo))
  }

  /** Two byte pairs with the same signed reading are the same pair. */
  lemma I16FromBytesInjective(hi: byte, lo: byte, hi': byte, lo': byte)
    requires I16FromBytes(hi, lo) == I16FromBytes(hi', lo')
    ensures hi == hi' && lo == lo'
  {
    assert U16FromBytes(hi, lo) == U16FromBytes(hi', lo');
  }

  /** Two byte pairs with the same unsigned reading are the same pair. */
  lemma U16FromBytesInjective(hi: byte, lo: byte, hi': byte, lo': byte)
    requires U16FromBytes(hi, lo) == U16FromBytes(hi', lo')
    ensures hi == hi' && lo == lo'
  {
    assert [hi, lo] == U16ToBytes(U16FromBytes(hi, lo)) == [hi', lo'];
  }

  /** A length cast to `u16` with Rust's `as`, which keeps the low 16 bits. */
  function Wrap16(n: nat): (r: u16)
    ensures n < 0x1_0000 ==> r == n
    ensures r <= n && (n - r) % 0x1_0000 == 0
  {
    n % 0x1_0000
  }
}
