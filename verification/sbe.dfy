/** Bounds-checked access to a byte buffer (an Agrona `DirectBuffer`) and the
    message header of the Simple Binary Encoding: block length, template id,
    schema id and schema version, each an unsigned 16-bit little-endian
    integer, eight bytes in all. */
module Sbe {

  import opened Wrappers
  import opened Bytes

  /** `MessageHeaderEncoder.ENCODED_LENGTH`. */
  const HEADER_LENGTH: nat := 8

  datatype Header = Header(blockLength: int, templateId: int, schemaId: int, version: int)

  predicate IsU16(v: int) {
    0 <= v < 0x1_0000
  }

  predicate ValidHeader(h: Header) {
    IsU16(h.blockLength) && IsU16(h.templateId) && IsU16(h.schemaId) && IsU16(h.version)
  }

  // ---- the buffer ----

  /** `getBytes(at, n)`: the `n` bytes from `at`, or an out-of-bounds error. */
  function Slice(buf: Bytes, at: int, n: int): (r: Result<Bytes>)
    ensures r.Ok? <==> 0 <= at && 0 <= n && at + n <= |buf|
    ensures r.Ok? ==> r.value == buf[at..at + n]
    ensures r.Throws? ==> r.error == IndexOutOfBounds
  {
    if 0 <= at && 0 <= n && at + n <= |buf| then Ok(buf[at..at + n]) else Throws(IndexOutOfBounds)
  }

  /** Stands for the message of the `IllegalArgumentException` a
      bounds-checked `UnsafeBuffer.wrap` throws; its exact text is Agrona's. */
  const VIEW_OUT_OF_BOUNDS: string := "offset and length not valid for capacity"

  /** `view.wrap(buf, at, n)` on an `UnsafeBuffer`: a view of the `n` bytes
      from `at`. Unlike a read, a view that does not fit in the buffer is an
      illegal argument, not an out-of-bounds access. */
  function View(buf: Bytes, at: int, n: int): (r: Result<Bytes>)
    ensures r.Ok? <==> Slice(buf, at, n).Ok?
    ensures r.Ok? ==> r == Slice(buf, at, n)
    ensures r.Throws? ==> r.error == IllegalArgument(VIEW_OUT_OF_BOUNDS)
  {
    if 0 <= at && 0 <= n && at + n <= |buf| then Ok(buf[at..at + n])
    else Throws(IllegalArgument(VIEW_OUT_OF_BOUNDS))
  }

  /** `putBytes(at, bs)`: the buffer with `bs` written from `at`. */
  function Overwrite(buf: Bytes, at: int, bs: Bytes): (r: Result<Bytes>)
    ensures r.Ok? <==> 0 <= at && at + |bs| <= |buf|
    ensures r.Ok? ==> |r.value| == |buf| && r.value[at..at + |bs|] == bs
    ensures r.Ok? ==> forall i :: 0 <= i < |buf| && !(at <= i < at + |bs|) ==> r.value[i] == buf[i]
    ensures r.Throws? ==> r.error == IndexOutOfBounds
  {
    if 0 <= at && at + |bs| <= |buf| then Ok(buf[..at] + bs + buf[at + |bs|..])
    else Throws(IndexOutOfBounds)
  }

  /** Two adjacent writes are one write of the two parts together. */
  lemma OverwriteAdjacent(buf: Bytes, at: int, x: Bytes, y: Bytes)
    requires 0 <= at && at + |x| + |y| <= |buf|
    ensures Overwrite(buf, at, x).Ok?
    ensures Overwrite(Overwrite(buf, at, x).value, at + |x|, y) == Overwrite(buf, at, x + y)
  {
    var b1 := Overwrite(buf, at, x).value;
    var b2 := Overwrite(b1, at + |x|, y).value;
    var b3 := Overwrite(buf, at, x + y).value;
    assert forall i :: 0 <= i < |buf| ==> b2[i] == b3[i] by {
      forall i | 0 <= i < |buf|
        ensures b2[i] == b3[i]
      {
        if at <= i < at + |x| {
          assert b2[i] == b1[i] == x[i - at];
          assert b3[i] == (x + y)[i - at];
        } else if at + |x| <= i < at + |x| + |y| {
          assert b2[i] == y[i - at - |x|];
          assert b3[i] == (x + y)[i - at];
        }
      }
    }
    assert b2 == b3;
  }

  /** What was written is what is read back. */
  lemma SliceOfOverwrite(buf: Bytes, at: int, bs: Bytes, k: int, n: int)
    requires Overwrite(buf, at, bs).Ok?
    requires 0 <= k && 0 <= n && k + n <= |bs|
    ensures Slice(Overwrite(buf, at, bs).value, at + k, n) == Ok(bs[k..k + n])
  {
    var b := Overwrite(buf, at, bs).value;
    assert b[at + k..at + k + n] == b[at..at + |bs|][k..k + n];
  }

  /** Reading outside what was written sees the old buffer. */
  lemma SliceBesideOverwrite(buf: Bytes, at: int, bs: Bytes, k: int, n: int)
    requires Overwrite(buf, at, bs).Ok?
    requires 0 <= k && 0 <= n && k + n <= |buf|
    requires k + n <= at || at + |bs| <= k
    ensures Slice(Overwrite(buf, at, bs).value, k, n) == Slice(buf, k, n)
  {
    var b := Overwrite(buf, at, bs).value;
    assert b[k..k + n] == buf[k..k + n];
  }

  /** A read inside a region reads the matching part of it. */
  lemma SliceWithin(buf: Bytes, at: int, n: int, bs: Bytes, k: int, l: int)
    requires Slice(buf, at, n) == Ok(bs)
    requires 0 <= k && 0 <= l && k + l <= n
    ensures Slice(buf, at + k, l) == Ok(bs[k..k + l])
  {
    assert buf[at..at + n] == bs;
    assert 0 <= at && at + n <= |buf|;
    var x := buf[at + k..at + k + l];
    forall i | 0 <= i < l
      ensures x[i] == bs[k..k + l][i]
    {
      assert x[i] == buf[at + k + i] == buf[at..at + n][k + i];
    }
    assert x == bs[k..k + l];
  }

  /** Unsigned little-endian `n`-byte read. */
  function GetUnsigned(buf: Bytes, at: int, n: nat): (r: Result<int>)
    ensures r.Ok? <==> 0 <= at && at + n <= |buf|
    ensures r.Ok? ==> 0 <= r.value < Pow256(n)
    ensures r.Throws? ==> r.error == IndexOutOfBounds
  {
    var bs :- Slice(buf, at, n);
    Ok(LeValue(bs))
  }

  /** Signed little-endian `n`-byte read (`getInt`, `getLong`). */
  function GetSigned(buf: Bytes, at: int, n: nat): (r: Result<int>)
    requires n > 0
    ensures r.Ok? <==> 0 <= at && at + n <= |buf|
    ensures r.Ok? ==> MinSigned(n) <= r.value <= MaxSigned(n)
    ensures r.Throws? ==> r.error == IndexOutOfBounds
  {
    var bs :- Slice(buf, at, n);
    Ok(DecodeSignedLe(bs))
  }

  // ---- the message header ----

  /** `MessageHeaderEncoder`: the four header fields in order. */
  function EncodeHeader(h: Header): (r: Bytes)
    requires ValidHeader(h)
    ensures |r| == HEADER_LENGTH
  {
    Widths();
    LeBytes(h.blockLength, 2) + LeBytes(h.templateId, 2) + LeBytes(h.schemaId, 2) + LeBytes(h.version, 2)
  }

  /** `MessageHeaderDecoder` wrapped at `at`. */
  function DecodeHeader(buf: Bytes, at: int): (r: Result<Header>)
    ensures r.Ok? <==> 0 <= at && at + HEADER_LENGTH <= |buf|
    ensures r.Ok? ==> ValidHeader(r.value)
    ensures r.Throws? ==> r.error == IndexOutOfBounds
  {
    Widths();
    var bs :- Slice(buf, at, HEADER_LENGTH);
    Ok(Header(LeValue(bs[0..2]), LeValue(bs[2..4]), LeValue(bs[4..6]), LeValue(bs[6..8])))
  }

  /** The offsets of the header fields within the header. The decoder reads
      each field on its own, so a read fails only when its own two bytes lie
      outside the buffer. */
  const BLOCK_LENGTH_AT: int := 0
  const TEMPLATE_ID_AT: int := 2
  const SCHEMA_ID_AT: int := 4
  const VERSION_AT: int := 6

  /** One field of the header wrapped at `at` (`blockLength()`,
      `templateId()`, `schemaId()` or `version()`). */
  function HeaderField(buf: Bytes, at: int, field: int): (r: Result<int>)
    ensures r.Ok? <==> 0 <= at + field && at + field + 2 <= |buf|
    ensures r.Ok? ==> IsU16(r.value)
    ensures r.Throws? ==> r.error == IndexOutOfBounds
  {
    Widths();
    GetUnsigned(buf, at + field, 2)
  }

  /** Where the whole header lies in the buffer, each field read on its own
      is the field of the header read at once. */
  lemma HeaderFields(buf: Bytes, at: int)
    ensures DecodeHeader(buf, at).Ok? ==>
              var h := DecodeHeader(buf, at).value;
              HeaderField(buf, at, BLOCK_LENGTH_AT) == Ok(h.blockLength)
              && HeaderField(buf, at, TEMPLATE_ID_AT) == Ok(h.templateId)
              && HeaderField(buf, at, SCHEMA_ID_AT) == Ok(h.schemaId)
              && HeaderField(buf, at, VERSION_AT) == Ok(h.version)
  {
    if DecodeHeader(buf, at).Ok? {
      var bs := buf[at..at + HEADER_LENGTH];
      SliceWithin(buf, at, HEADER_LENGTH, bs, 0, 2);
      SliceWithin(buf, at, HEADER_LENGTH, bs, 2, 2);
      SliceWithin(buf, at, HEADER_LENGTH, bs, 4, 2);
      SliceWithin(buf, at, HEADER_LENGTH, bs, 6, 2);
    }
  }

  /** A header reads back as it was written. */
  lemma HeaderRoundTrip(buf: Bytes, at: int, h: Header)
    requires ValidHeader(h)
    requires Slice(buf, at, HEADER_LENGTH) == Ok(EncodeHeader(h))
    ensures DecodeHeader(buf, at) == Ok(h)
  {
    Widths();
    var bs := EncodeHeader(h);
    assert bs[0..2] == LeBytes(h.blockLength, 2);
    assert bs[2..4] == LeBytes(h.templateId, 2);
    assert bs[4..6] == LeBytes(h.schemaId, 2);
    assert bs[6..8] == LeBytes(h.version, 2);
    LeValueOfBytes(h.blockLength, 2);
    LeValueOfBytes(h.templateId, 2);
    LeValueOfBytes(h.schemaId, 2);
    LeValueOfBytes(h.version, 2);
  }
}
