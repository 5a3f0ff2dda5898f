/**
 Properties of the `numeric` codec that relate several calls: round trips in
 both directions, the canonical `NaN` encoding, indifference to trailing
 bytes, and the digit count lost when a value has more than 65535 digits.
 */
module NumericProperties {
  import opened Wire
  import opened Results
  import opened Numeric

  /** The canonical wire form of `NaN`: no digits, weight 0, sign 0xC000, scale 0. */
  const NaNBytes: seq<byte> := [0x00, 0x00, 0x00, 0x00, 0xC0, 0x00, 0x00, 0x00]

  /** `v` with its digit sequence replaced; `NaN` has none to replace. */
  function WithDigits(v: PgNumeric, ds: seq<i16>): PgNumeric {
    match v
    case Positive(w, s, _) => Positive(w, s, ds)
    case Negative(w, s, _) => Negative(w, s, ds)
    case NaN => NaN
  }

  /** `NaN` always encodes to the same eight bytes, which decode to `NaN`. */
  lemma NaNEncoding()
    ensures Encode(NaN) == NaNBytes
    ensures Decode(Some(NaNBytes)) == Success(NaN)
  {
    var e := Encode(NaN);
    SameFieldsSameBytes(e, NaNBytes);
  }

  /**
   Two complete buffers of exactly their announced length whose header
   fields and digits read the same are the same bytes.
   */
  lemma SameFieldsSameBytes(p: seq<byte>, q: seq<byte>)
    requires Complete(p) && Complete(q)
    requires |p| == WireLength(p) && |q| == WireLength(q)
    requires NDigitsAt(p) == NDigitsAt(q) && WeightAt(p) == WeightAt(q)
    requires SignAt(p) == SignAt(q) && ScaleAt(p) == ScaleAt(q)
    requires DigitsAt(p) == DigitsAt(q)
    ensures p == q
  {
    U16FromBytesInjective(p[0], p[1], q[0], q[1]);
    I16FromBytesInjective(p[2], p[3], q[2], q[3]);
    U16FromBytesInjective(p[4], p[5], q[4], q[5]);
    U16FromBytesInjective(p[6], p[7], q[6], q[7]);
    forall k | 0 <= k < NDigitsAt(p)
      ensures p[HeaderSize + 2 * k] == q[HeaderSize + 2 * k]
      ensures p[HeaderSize + 2 * k + 1] == q[HeaderSize + 2 * k + 1]
    {
      assert DigitAt(p, k) == DigitsAt(p)[k] == DigitsAt(q)[k] == DigitAt(q, k);
      I16FromBytesInjective(p[HeaderSize + 2 * k], p[HeaderSize + 2 * k + 1],
                            q[HeaderSize + 2 * k], q[HeaderSize + 2 * k + 1]);
    }
    forall j | HeaderSize <= j < |p|
      ensures p[j] == q[j]
    {
      var k := (j - HeaderSize) / 2;
      assert j == HeaderSize + 2 * k || j == HeaderSize + 2 * k + 1;
    }
  }

  /**
   Decoding an encoding gives the value back with only its first
   `|digits| mod 65536` digits, because the count is written as `len as u16`
   while decoding reads exactly that many digits and ignores the rest.
   */
  lemma DecodeEncode(v: PgNumeric)
    ensures Decode(Some(Encode(v))) == Success(WithDigits(v, v.WireDigits()[..Wrap16(|v.WireDigits()|)]))
  {
    var ds := v.WireDigits();
    var e := Encode(v);
    assert Complete(e);
    assert DigitsAt(e) == ds[..Wrap16(|ds|)];
  }

  /** Every value with at most 65535 digits survives an encode/decode round trip. */
  lemma RoundTrip(v: PgNumeric)
    requires |v.WireDigits()| < 0x1_0000
    ensures Decode(Some(Encode(v))) == Success(v)
  {
    DecodeEncode(v);
    assert v.WireDigits()[..|v.WireDigits()|] == v.WireDigits();
  }

  /**
   The digit bound of `RoundTrip` is needed: a value with exactly 65536
   digits is written with a digit count of 0 and comes back with none.
   */
  lemma RoundTripNeedsDigitBound(v: PgNumeric)
    requires |v.WireDigits()| == 0x1_0000
    ensures Decode(Some(Encode(v))) == Success(WithDigits(v, []))
    ensures Decode(Some(Encode(v))) != Success(v)
  {
    DecodeEncode(v);
  }

  /**
   Re-encoding what was decoded gives back exactly the bytes the decoder
   consumed for a positive or negative value, and the canonical bytes for
   `NaN`, whatever digits, weight and scale came with the `NaN` sign.
   */
  lemma EncodeDecode(b: seq<byte>)
    requires Complete(b) && SignAt(b) in {PositiveSign, NegativeSign, NaNSign}
    ensures Decode(Some(b)).Success?
    ensures SignAt(b) != NaNSign ==> Encode(Decode(Some(b)).value) == b[..WireLength(b)]
    ensures SignAt(b) == NaNSign ==> Encode(Decode(Some(b)).value) == NaNBytes
  {
    if SignAt(b) == NaNSign {
      assert Decode(Some(b)) == Success(NaN);
      NaNEncoding();
    } else {
      ReencodeConsumed(b);
    }
  }

  /** A decoded positive or negative value re-encodes to the consumed bytes. */
  lemma ReencodeConsumed(b: seq<byte>)
    requires Complete(b) && SignAt(b) in {PositiveSign, NegativeSign}
    ensures Decode(Some(b)).Success?
    ensures Encode(Decode(Some(b)).value) == b[..WireLength(b)]
  {
    if SignAt(b) == PositiveSign {
      ReencodeFields(b, Positive(WeightAt(b), ScaleAt(b), DigitsAt(b)));
    } else {
      ReencodeFields(b, Negative(WeightAt(b), ScaleAt(b), DigitsAt(b)));
    }
  }

  /** A value whose wire fields are those of `b` encodes to the bytes `b` announces. */
  lemma ReencodeFields(b: seq<byte>, x: PgNumeric)
    requires Complete(b)
    requires x.WireSign() == SignAt(b) && x.WireWeight() == WeightAt(b)
    requires x.WireScale() == ScaleAt(b) && x.WireDigits() == DigitsAt(b)
    ensures Encode(x) == b[..WireLength(b)]
  {
    var p := b[..WireLength(b)];
    var e := Encode(x);
    assert NDigitsAt(e) == NDigitsAt(p);
    assert DigitsAt(p) == DigitsAt(b);
    assert DigitsAt(e) == DigitsAt(b);
    SameFieldsSameBytes(e, p);
  }

  /**
   Bytes after the announced digits are never read: appending any bytes to a
   complete buffer leaves the result, value or error, unchanged.
   */
  lemma TrailingBytesIgnored(b: seq<byte>, t: seq<byte>)
    requires Complete(b)
    ensures Decode(Some(b + t)) == Decode(Some(b))
  {
    var bt := b + t;
    assert bt[..|b|] == b;
    assert NDigitsAt(bt) == NDigitsAt(b) && WeightAt(bt) == WeightAt(b);
    assert SignAt(bt) == SignAt(b) && ScaleAt(bt) == ScaleAt(b);
    assert DigitsAt(bt) == DigitsAt(b);
  }

  /** Decoding looks at the first `8 + 2 * ndigits` bytes and no others. */
  lemma DecodeReadsWireLength(b: seq<byte>)
    requires Complete(b)
    ensures Decode(Some(b)) == Decode(Some(b[..WireLength(b)]))
  {
    var p := b[..WireLength(b)];
    assert p + b[WireLength(b)..] == b;
    assert NDigitsAt(p) == NDigitsAt(b);
    TrailingBytesIgnored(p, b[WireLength(b)..]);
  }

  /** A short buffer is `Truncated` even when its sign word is invalid. */
  lemma TruncationBeforeSign(b: seq<byte>)
    requires |b| >= 6 && SignAt(b) !in {PositiveSign, NegativeSign, NaNSign}
    requires !Complete(b)
    ensures Decode(Some(b)) == Failure(Truncated)
  {
  }

  /** The ten bytes of the worked example below. */
  const ExampleBytes: seq<byte> := [0x00, 0x01, 0x00, 0x00, 0x00, 0x00, 0x00, 0x02, 0x04, 0xD2]

  lemma ExampleFields()
    ensures Complete(ExampleBytes) && WireLength(ExampleBytes) == |ExampleBytes|
    ensures NDigitsAt(ExampleBytes) == 1 && WeightAt(ExampleBytes) == 0
    ensures SignAt(ExampleBytes) == PositiveSign && ScaleAt(ExampleBytes) == 2
    ensures DigitsAt(ExampleBytes) == [1234]
  {
    assert DigitAt(ExampleBytes, 0) == 1234;
  }

  /** Worked example: weight 0, display scale 2 and the single digit group 1234. */
  lemma ExamplePositive()
    ensures Encode(Positive(0, 2, [1234])) == ExampleBytes
    ensures Decode(Some(ExampleBytes)) == Success(Positive(0, 2, [1234]))
  {
    ExampleFields();
    ReencodeFields(ExampleBytes, Positive(0, 2, [1234]));
    assert ExampleBytes[..WireLength(ExampleBytes)] == ExampleBytes;
  }

  /** Worked example: the sign word 0x1234 is reported as it was read. */
  lemma ExampleInvalidSign()
    ensures Decode(Some([0x00, 0x00, 0x00, 0x00, 0x12, 0x34, 0x00, 0x00])) == Failure(InvalidSign(0x1234))
  {
  }
}
