/**
 PostgreSQL's binary `numeric` format and diesel's `PgNumeric` codec for it.

 On the wire a numeric is four big-endian header words, then its digits:

   ndigits: u16 | weight: i16 | sign: u16 | dscale: u16 | ndigits x i16

 Each digit is one base-10000 group. The codec is a structural transcoder: it
 checks the sign word and the byte count and nothing else.
 */
module Numeric {
  import opened Wire
  import opened Results
  import opened Cursor

  /** The numeric value as diesel holds it; the sign lives in the variant. */
  datatype PgNumeric =
    | Positive(weight: i16, scale: u16, digits: seq<i16>)
    | Negative(weight: i16, scale: u16, digits: seq<i16>)
    | NaN
  {
    /** The sign word written for this variant. */
    function WireSign(): u16 {
      match this
      case Positive(_, _, _) => PositiveSign
      case Negative(_, _, _) => NegativeSign
      case NaN => NaNSign
    }

    /** The digits written for this variant: none for `NaN`. */
    function WireDigits(): seq<i16> {
      if NaN? then [] else digits
    }

    /** The weight written for this variant: zero for `NaN`. */
    function WireWeight(): i16 {
      if NaN? then 0 else weight
    }

    /** The display scale written for this variant: zero for `NaN`. */
    function WireScale(): u16 {
      if NaN? then 0 else scale
    }
  }

  const PositiveSign: u16 := 0x0000
  const NegativeSign: u16 := 0x4000
  const NaNSign: u16 := 0xC000

  /** Bytes taken by the four header words. */
  const HeaderSize: nat := 8

  // Random-access view of an encoded numeric: which bytes hold which field.

  function NDigitsAt(b: seq<byte>): u16
    requires |b| >= 2
  {
    U16FromBytes(b[0], b[1])
  }

  function WeightAt(b: seq<byte>): i16
    requires |b| >= 4
  {
    I16FromBytes(b[2], b[3])
  }

  function SignAt(b: seq<byte>): u16
    requires |b| >= 6
  {
    U16FromBytes(b[4], b[5])
  }

  function ScaleAt(b: seq<byte>): u16
    requires |b| >= HeaderSize
  {
    U16FromBytes(b[6], b[7])
  }

  /** The k-th digit group, which follows the header. */
  function DigitAt(b: seq<byte>, k: nat): i16
    requires |b| >= HeaderSize + 2 * k + 2
  {
    I16FromBytes(b[HeaderSize + 2 * k], b[HeaderSize + 2 * k + 1])
  }

  /** Header plus the digits the header announces. */
  function WireLength(b: seq<byte>): nat
    requires |b| >= 2
  {
    HeaderSize + 2 * NDigitsAt(b)
  }

  /** The buffer holds the whole header and every digit the header announces. */
  predicate Complete(b: seq<byte>) {
    |b| >= HeaderSize && |b| >= WireLength(b)
  }

  /** The digits a complete buffer announces, in wire order. */
  function DigitsAt(b: seq<byte>): (ds: seq<i16>)
    requires Complete(b)
    ensures |ds| == NDigitsAt(b)
    ensures forall k :: 0 <= k < |ds| ==> ds[k] == DigitAt(b, k)
  {
    seq(NDigitsAt(b), k requires 0 <= k < NDigitsAt(b) => DigitAt(b, k))
  }

  /** Digits read from the bytes after the header are the announced digits. */
  lemma DigitsAfterHeader(b: seq<byte>, ds: seq<i16>)
    requires Complete(b) && |ds| == NDigitsAt(b)
    requires forall k :: 0 <= k < |ds| ==>
      ds[k] == I16FromBytes(b[HeaderSize..][2 * k], b[HeaderSize..][2 * k + 1])
    ensures ds == DigitsAt(b)
  {
    forall k | 0 <= k < |ds|
      ensures ds[k] == DigitsAt(b)[k]
    {
      assert b[HeaderSize..][2 * k] == b[HeaderSize + 2 * k];
      assert b[HeaderSize..][2 * k + 1] == b[HeaderSize + 2 * k + 1];
    }
  }

  /**
   Decodes a raw column value (`FromSql<Numeric, Pg>::from_sql`).

   The header and all announced digits are read before the sign word is
   looked at, so a short buffer is `Truncated` whatever its sign, and a `NaN`
   sign discards any digits that came with it.
   */
  function Decode(bytes: Option<seq<byte>>): (r: Result<PgNumeric>)
    ensures bytes.None? ==> r == Failure(MissingValue)
    ensures bytes.Some? ==> (r == Failure(Truncated) <==> !Complete(bytes.value))
    ensures bytes.Some? && Complete(bytes.value) ==>
      var b := bytes.value;
      && (SignAt(b) == PositiveSign ==> r == Success(Positive(WeightAt(b), ScaleAt(b), DigitsAt(b))))
      && (SignAt(b) == NegativeSign ==> r == Success(Negative(WeightAt(b), ScaleAt(b), DigitsAt(b))))
      && (SignAt(b) == NaNSign ==> r == Success(NaN))
      && (SignAt(b) !in {PositiveSign, NegativeSign, NaNSign} ==> r == Failure(InvalidSign(SignAt(b))))
  {
    match bytes
    case None => Failure(MissingValue)
    case Some(b) =>
      var ndigits :- ReadU16(b);
      var weight :- ReadI16(ndigits.rest);
      var sign :- ReadU16(weight.rest);
      var scale :- ReadU16(sign.rest);
      var digits :- ReadI16s(scale.rest, ndigits.value);
      assert digits.value == DigitsAt(b) by {
        assert scale.rest == b[HeaderSize..];
        DigitsAfterHeader(b, digits.value);
      }
      if sign.value == PositiveSign then
        Success(Positive(weight.value, scale.value, digits.value))
      else if sign.value == NegativeSign then
        Success(Negative(weight.value, scale.value, digits.value))
      else if sign.value == NaNSign then
        Success(NaN)
      else
        Failure(InvalidSign(sign.value))
  }

  /**
   Encodes a value (`ToSql<Numeric, Pg>::to_sql`): the header words in the
   order ndigits, weight, sign, scale, then every digit. The digit count is
   written as `len as u16` and so keeps only its low 16 bits, while every
   digit is still written.
   */
  function Encode(v: PgNumeric): (r: seq<byte>)
    ensures |r| == HeaderSize + 2 * |v.WireDigits()|
    ensures NDigitsAt(r) == Wrap16(|v.WireDigits()|)
    ensures WeightAt(r) == v.WireWeight()
    ensures SignAt(r) == v.WireSign()
    ensures ScaleAt(r) == v.WireScale()
    ensures forall k :: 0 <= k < |v.WireDigits()| ==> DigitAt(r, k) == v.WireDigits()[k]
  {
    var ds := v.WireDigits();
    var h := EncodeHeader(Wrap16(|ds|), v.WireWeight(), v.WireSign(), v.WireScale());
    var t := WriteI16s(ds);
    HeaderOfConcat(h, t);
    DigitsOfConcat(h, ds);
    h + t
  }

  /** An encoding is its header followed by its digits. */
  lemma EncodeSplits(v: PgNumeric)
    ensures Encode(v) == EncodeHeader(Wrap16(|v.WireDigits()|), v.WireWeight(), v.WireSign(), v.WireScale())
      + WriteI16s(v.WireDigits())
  {
  }

  /** The four header words, each as two big-endian bytes. */
  function EncodeHeader(ndigits: u16, weight: i16, sign: u16, scale: u16): (h: seq<byte>)
    ensures |h| == HeaderSize
    ensures NDigitsAt(h) == ndigits && WeightAt(h) == weight
    ensures SignAt(h) == sign && ScaleAt(h) == scale
  {
    var a, b, c, d := U16ToBytes(ndigits), I16ToBytes(weight), U16ToBytes(sign), U16ToBytes(scale);
    U16RoundTrip(ndigits);
    U16RoundTrip(sign);
    U16RoundTrip(scale);
    [a[0], a[1], b[0], b[1], c[0], c[1], d[0], d[1]]
  }

  /** Appending bytes after a header leaves the header fields unchanged. */
  lemma HeaderOfConcat(h: seq<byte>, t: seq<byte>)
    requires |h| >= HeaderSize
    ensures NDigitsAt(h + t) == NDigitsAt(h) && WeightAt(h + t) == WeightAt(h)
    ensures SignAt(h + t) == SignAt(h) && ScaleAt(h + t) == ScaleAt(h)
  {
    assert (h + t)[..HeaderSize] == h[..HeaderSize];
  }

  /** Digit groups written after an 8-byte header are read back from there. */
  lemma DigitsOfConcat(h: seq<byte>, ds: seq<i16>)
    requires |h| == HeaderSize
    ensures forall k :: 0 <= k < |ds| ==> DigitAt(h + WriteI16s(ds), k) == ds[k]
  {
    var t := WriteI16s(ds);
    forall k | 0 <= k < |ds|
      ensures DigitAt(h + t, k) == ds[k]
    {
      assert (h + t)[HeaderSize + 2 * k] == t[2 * k];
      assert (h + t)[HeaderSize + 2 * k + 1] == t[2 * k + 1];
    }
  }

  /**
   diesel's `from_sql` step by step: a cursor that advances through the
   buffer and a loop that pushes one digit per iteration, returning early on
   the first short read.
   */
  method ReadNumeric(bytes: Option<seq<byte>>) returns (r: Result<PgNumeric>)
    ensures r == Decode(bytes)
  {
    if bytes.None? {
      return Failure(MissingValue);
    }
    var b := bytes.value;
    var ndigits :- ReadU16(b);
    var weight :- ReadI16(ndigits.rest);
    var sign :- ReadU16(weight.rest);
    var scale :- ReadU16(sign.rest);
    var cursor := scale.rest;
    var n: nat := ndigits.value;
    var digits: seq<i16> := [];
    var i: nat := 0;
    while i < n
      invariant i <= n
      invariant |digits| == i
      invariant |b| >= HeaderSize + 2 * i && cursor == b[HeaderSize + 2 * i..]
      invariant forall k :: 0 <= k < i ==> digits[k] == DigitAt(b, k)
    {
      var d :- ReadI16(cursor);
      digits := digits + [d.value];
      cursor := d.rest;
      i := i + 1;
    }
    assert digits == DigitsAt(b);
    if sign.value == PositiveSign {
      r := Success(Positive(weight.value, scale.value, digits));
    } else if sign.value == NegativeSign {
      r := Success(Negative(weight.value, scale.value, digits));
    } else if sign.value == NaNSign {
      r := Success(NaN);
    } else {
      r := Failure(InvalidSign(sign.value));
    }
  }

  /**
   diesel's `to_sql` step by step, writing into a sink: the four header
   words, then one digit per loop iteration. The sink's own write errors are
   not modelled, so the result is always the "not NULL" marker.
   */
  method WriteNumeric(v: PgNumeric, out: seq<byte>) returns (written: seq<byte>, isNull: IsNull)
    ensures written == out + Encode(v)
    ensures isNull == No
  {
    var sign := v.WireSign();
    var digits := v.WireDigits();
    var weight := v.WireWeight();
    var scale := v.WireScale();
    var header := EncodeHeader(Wrap16(|digits|), weight, sign, scale);
    var body: seq<byte> := [];
    var i := 0;
    while i < |digits|
      invariant 0 <= i <= |digits|
      invariant body == WriteI16s(digits[..i])
    {
      WriteI16sPrefix(digits, i);
      body := body + I16ToBytes(digits[i]);
      i := i + 1;
    }
    assert digits[..|digits|] == digits;
    written := out + (header + body);
    EncodeSplits(v);
    isNull := No;
  }
}
