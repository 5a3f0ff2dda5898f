/**
 A sequential big-endian reader over a byte slice and the matching writer.

 A read consumes bytes from the front of the slice and hands back the rest,
 as reading from a `&[u8]` advances it; a read that needs more bytes than
 remain fails with `Truncated`. Writing appends to the output sequence.
 */
module Cursor {
  import opened Wire
  import opened Results

  /** A value read from the front of a slice, and the bytes after it. */
  datatype Parsed<+T> = Parsed(value: T, rest: seq<byte>)

  function ReadU16(s: seq<byte>): (r: Result<Parsed<u16>>)
    ensures r.Success? <==> |s| >= 2
    ensures r.Failure? ==> r.error == Truncated
    ensures r.Success? ==> r.value.value == U16FromBytes(s[0], s[1]) && r.value.rest == s[2..]
  {
    if |s| < 2 then Failure(Truncated) else Success(Parsed(U16FromBytes(s[0], s[1]), s[2..]))
  }

  function ReadI16(s: seq<byte>): (r: Result<Parsed<i16>>)
    ensures r.Success? <==> |s| >= 2
    ensures r.Failure? ==> r.error == Truncated
    ensures r.Success? ==> r.value.value == I16FromBytes(s[0], s[1]) && r.value.rest == s[2..]
  {
    if |s| < 2 then Failure(Truncated) else Success(Parsed(I16FromBytes(s[0], s[1]), s[2..]))
  }

  /**
   Reads `n` signed 16-bit values one after the other. It fails exactly when
   fewer than `2 * n` bytes remain; otherwise the k-th value is read from
   bytes `2k` and `2k + 1`.
   */
  function ReadI16s(s: seq<byte>, n: nat): (r: Result<Parsed<seq<i16>>>)
    decreases n
    ensures r.Success? <==> |s| >= 2 * n
    ensures r.Failure? ==> r.error == Truncated
    ensures r.Success? ==> |r.value.value| == n && r.value.rest == s[2 * n..]
    ensures r.Success? ==>
      forall k :: 0 <= k < n ==> r.value.value[k] == I16FromBytes(s[2 * k], s[2 * k + 1])
  {
    if n == 0 then
      Success(Parsed([], s))
    else
      var d :- ReadI16(s);
      var ds :- ReadI16s(d.rest, n - 1);
      Success(Parsed([d.value] + ds.value, ds.rest))
  }

  /**
   Writes each value as two big-endian bytes, in order: the output holds two
   bytes per value and the k-th pair reads back as the k-th value.
   */
  function WriteI16s(ds: seq<i16>): (r: seq<byte>)
    ensures |r| == 2 * |ds|
    ensures forall k :: 0 <= k < |ds| ==> I16FromBytes(r[2 * k], r[2 * k + 1]) == ds[k]
  {
    if ds == [] then [] else I16ToBytes(ds[0]) + WriteI16s(ds[1..])
  }

  /** Writing one more value appends its two bytes. */
  lemma {:induction false} WriteI16sSnoc(ds: seq<i16>, d: i16)
    ensures WriteI16s(ds + [d]) == WriteI16s(ds) + I16ToBytes(d)
  {
    if ds == [] {
      assert [] + [d] == [d];
    } else {
      assert (ds + [d])[1..] == ds[1..] + [d];
      WriteI16sSnoc(ds[1..], d);
    }
  }

  /** Writing one more value of `ds` appends its two bytes. */
  lemma WriteI16sPrefix(ds: seq<i16>, i: nat)
    requires i < |ds|
    ensures WriteI16s(ds[..i + 1]) == WriteI16s(ds[..i]) + I16ToBytes(ds[i])
  {
    assert ds[..i + 1] == ds[..i] + [ds[i]];
    WriteI16sSnoc(ds[..i], ds[i]);
  }
}
