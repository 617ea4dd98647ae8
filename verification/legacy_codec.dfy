/** The generated SBE flyweights for record metadata written before Zeebe 8.3:
    a fixed 30-byte little-endian block behind the message header, followed
    by the rejection reason as variable-length data (a 32-bit length, then
    the bytes). Both flyweights are values here: the buffer they wrap, the
    offset of the block and the limit where variable-length data goes. */
module LegacyCodec {

  import opened Wrappers
  import opened Bytes
  import opened Sbe
  import Text

  const BLOCK_LENGTH: nat := 30
  const TEMPLATE_ID: int := 200
  const SCHEMA_ID: int := 0
  const SCHEMA_VERSION: int := 3
  /** The length prefix of the rejection reason. */
  const REASON_HEADER_LENGTH: nat := 4
  /** The broker version is a 12-byte composite, present from schema version 2. */
  const BROKER_VERSION_OFFSET: nat := 18
  const BROKER_VERSION_LENGTH: nat := 12
  const BROKER_VERSION_SINCE: int := 2

  /** The header every legacy metadata message starts with. */
  const LEGACY_HEADER: Header := Header(BLOCK_LENGTH, TEMPLATE_ID, SCHEMA_ID, SCHEMA_VERSION)

  /** The primitive fields of the block. */
  datatype Field = RecordType | RequestStreamId | RequestId | ProtocolVersion
                 | ValueType | Intent | RejectionType

  function Offset(f: Field): nat {
    match f
    case RecordType => 0
    case RequestStreamId => 1
    case RequestId => 5
    case ProtocolVersion => 13
    case ValueType => 15
    case Intent => 16
    case RejectionType => 17
  }

  function Width(f: Field): nat {
    match f
    case RequestStreamId => 4
    case RequestId => 8
    case ProtocolVersion => 2
    case _ => 1
  }

  /** `requestStreamId` is an `int32` and `requestId` is read as a Java
      `long`; the others are unsigned (`uint8` enums and a `uint16`). */
  predicate Signed(f: Field) {
    f == RequestStreamId || f == RequestId
  }

  /** The fields sit side by side and fill the block up to the broker version. */
  lemma FieldsTileBlock(f: Field, g: Field)
    ensures 0 < Width(f) && Offset(f) + Width(f) <= BROKER_VERSION_OFFSET
    ensures f != g ==> Offset(f) + Width(f) <= Offset(g) || Offset(g) + Width(g) <= Offset(f)
    ensures BROKER_VERSION_OFFSET + BROKER_VERSION_LENGTH == BLOCK_LENGTH
  {
  }

  /** The bytes the encoder writes for `v`: the low `Width(f)` bytes of its
      two's-complement pattern, as the Java narrowing cast `(byte)`/`(short)`
      and the little-endian `putInt`/`putLong` produce them. */
  function FieldBytes(f: Field, v: int): (r: Bytes)
    ensures |r| == Width(f)
  {
    LeBytes(v % Pow256(Width(f)), Width(f))
  }

  /** The value the decoder reads from the field's bytes. */
  function ReadField(f: Field, bs: Bytes): (r: int)
    requires |bs| == Width(f)
  {
    if Signed(f) then ToSigned(LeValue(bs), Width(f)) else LeValue(bs)
  }

  /** What survives a write and a read: the value cast to the field's width. */
  function Narrow(f: Field, v: int): int {
    if Signed(f) then Truncate(v, Width(f)) else v % Pow256(Width(f))
  }

  /** The range of values a field holds exactly. */
  predicate InRange(f: Field, v: int) {
    if Signed(f) then MinSigned(Width(f)) <= v <= MaxSigned(Width(f))
    else 0 <= v < Pow256(Width(f))
  }

  /** A field reads back as the written value cast to the field's width. */
  lemma FieldRoundTrip(f: Field, v: int)
    ensures ReadField(f, FieldBytes(f, v)) == Narrow(f, v)
  {
    LeValueOfBytes(v % Pow256(Width(f)), Width(f));
  }

  /** A value in the field's range reads back unchanged. */
  lemma FieldRoundTripInRange(f: Field, v: int)
    requires InRange(f, v)
    ensures ReadField(f, FieldBytes(f, v)) == v
  {
    FieldRoundTrip(f, v);
    if Signed(f) {
      TruncateInRange(v, Width(f));
    } else {
      ModSmall(v, Pow256(Width(f)));
    }
  }

  // ---- the encoder ----

  datatype Encoder = Encoder(buffer: Bytes, offset: int, limit: int)

  /** `encodedLength()`. */
  function EncodedLength(e: Encoder): int {
    e.limit - e.offset
  }

  /** `wrap(buffer, offset)`: variable-length data goes right behind the block. */
  function EncWrap(buf: Bytes, offset: int): (e: Encoder)
    ensures e.buffer == buf && e.offset == offset
    ensures EncodedLength(e) == BLOCK_LENGTH
  {
    Encoder(buf, offset, offset + BLOCK_LENGTH)
  }

  /** `wrapAndApplyHeader`: writes the legacy header at `offset`, then wraps
      the block behind it. */
  function EncWrapAndApplyHeader(buf: Bytes, offset: int): (r: Result<Encoder>)
    ensures r.Ok? <==> 0 <= offset && offset + HEADER_LENGTH <= |buf|
    ensures r.Ok? ==> r.value.offset == offset + HEADER_LENGTH && EncodedLength(r.value) == BLOCK_LENGTH
    ensures r.Ok? ==> Slice(r.value.buffer, offset, HEADER_LENGTH) == Ok(EncodeHeader(LEGACY_HEADER))
    ensures r.Throws? ==> r.error == IndexOutOfBounds
  {
    var b :- Overwrite(buf, offset, EncodeHeader(LEGACY_HEADER));
    Ok(EncWrap(b, offset + HEADER_LENGTH))
  }

  /** The setter of a primitive field. */
  function EncSet(e: Encoder, f: Field, v: int): (r: Result<Encoder>)
    ensures r.Ok? <==> 0 <= e.offset + Offset(f) && e.offset + Offset(f) + Width(f) <= |e.buffer|
    ensures r.Ok? ==> r.value.offset == e.offset && r.value.limit == e.limit
                      && |r.value.buffer| == |e.buffer|
    ensures r.Throws? ==> r.error == IndexOutOfBounds
  {
    var b :- Overwrite(e.buffer, e.offset + Offset(f), FieldBytes(f, v));
    Ok(e.(buffer := b))
  }

  /** `brokerVersion()` with its three parts set: the composite's bytes at
      offset 18. */
  function EncSetBrokerVersion(e: Encoder, version: Bytes): (r: Result<Encoder>)
    requires |version| == BROKER_VERSION_LENGTH
    ensures r.Ok? <==> 0 <= e.offset + BROKER_VERSION_OFFSET && e.offset + BLOCK_LENGTH <= |e.buffer|
    ensures r.Ok? ==> r.value.offset == e.offset && r.value.limit == e.limit
                      && |r.value.buffer| == |e.buffer|
    ensures r.Throws? ==> r.error == IndexOutOfBounds
  {
    var b :- Overwrite(e.buffer, e.offset + BROKER_VERSION_OFFSET, version);
    Ok(e.(buffer := b))
  }

  /** `putRejectionReason(src, 0, length)`: the length as a little-endian
      int at the limit, the bytes behind it, and the limit moved past both. */
  function EncPutRejectionReason(e: Encoder, src: Bytes): (r: Result<Encoder>)
    requires |src| <= INT_MAX
    ensures r.Ok? <==> 0 <= e.limit && e.limit + REASON_HEADER_LENGTH + |src| <= |e.buffer|
    ensures r.Ok? ==> r.value.offset == e.offset
                      && EncodedLength(r.value) == EncodedLength(e) + REASON_HEADER_LENGTH + |src|
                      && |r.value.buffer| == |e.buffer|
    ensures r.Ok? ==> Slice(r.value.buffer, e.limit, REASON_HEADER_LENGTH + |src|)
                      == Ok(LeBytes(|src|, 4) + src)
    ensures r.Ok? ==> Ok(r.value.buffer) == Overwrite(e.buffer, e.limit, LeBytes(|src|, 4) + src)
    ensures r.Throws? ==> r.error == IndexOutOfBounds
  {
    Widths();
    var b1 :- Overwrite(e.buffer, e.limit, LeBytes(|src|, 4));
    var b2 :- Overwrite(b1, e.limit + REASON_HEADER_LENGTH, src);
    OverwriteAdjacent(e.buffer, e.limit, LeBytes(|src|, 4), src);
    Ok(Encoder(b2, e.offset, e.limit + REASON_HEADER_LENGTH + |src|))
  }

  /** `rejectionReason(String)` on the string's UTF-8 bytes; a null or empty
      string writes a zero length and no bytes. */
  function EncRejectionReason(e: Encoder, value: Option<Bytes>): (r: Result<Encoder>)
    requires value.Some? ==> |value.value| <= INT_MAX
    ensures value.None? ==> r == EncPutRejectionReason(e, [])
    ensures value.Some? ==> r == EncPutRejectionReason(e, value.value)
  {
    var bytes := if value.None? || |value.value| == 0 then [] else value.value;
    EncPutRejectionReason(e, bytes)
  }

  // ---- the decoder ----

  datatype Decoder = Decoder(buffer: Bytes, offset: int, actingBlockLength: int,
                             actingVersion: int, limit: int)

  /** `wrap(buffer, offset, actingBlockLength, actingVersion)`. */
  function DecWrap(buf: Bytes, offset: int, actingBlockLength: int, actingVersion: int): (d: Decoder)
    ensures d.limit - d.offset == actingBlockLength
  {
    Decoder(buf, offset, actingBlockLength, actingVersion, offset + actingBlockLength)
  }

  /** `wrapAndApplyHeader`: reads the template id of the header at `offset`
      and insists on the legacy template; only then are the block length and
      version read to wrap the block. The schema id is not checked. */
  function DecWrapAndApplyHeader(buf: Bytes, offset: int): (r: Result<Decoder>)
    ensures HeaderField(buf, offset, TEMPLATE_ID_AT).Throws? ==> r == Throws(IndexOutOfBounds)
    ensures HeaderField(buf, offset, TEMPLATE_ID_AT).Ok? ==>
              var t := HeaderField(buf, offset, TEMPLATE_ID_AT).value;
              t != TEMPLATE_ID <==> r == Throws(IllegalState("Invalid TEMPLATE_ID: " + Text.IntToString(t)))
    ensures DecodeHeader(buf, offset).Throws? ==> r.Throws?
    ensures DecodeHeader(buf, offset).Ok? ==>
              var h := DecodeHeader(buf, offset).value;
              (h.templateId != TEMPLATE_ID <==>
                 r == Throws(IllegalState("Invalid TEMPLATE_ID: " + Text.IntToString(h.templateId))))
              && (h.templateId == TEMPLATE_ID ==>
                    r == Ok(DecWrap(buf, offset + HEADER_LENGTH, h.blockLength, h.version)))
  {
    HeaderFields(buf, offset);
    var templateId :- HeaderField(buf, offset, TEMPLATE_ID_AT);
    if templateId != TEMPLATE_ID then
      Throws(IllegalState("Invalid TEMPLATE_ID: " + Text.IntToString(templateId)))
    else
      var blockLength :- HeaderField(buf, offset, BLOCK_LENGTH_AT);
      var version :- HeaderField(buf, offset, VERSION_AT);
      Ok(DecWrap(buf, offset + HEADER_LENGTH, blockLength, version))
  }

  /** `sbeRewind()`. */
  function DecRewind(d: Decoder): (r: Decoder)
    ensures r.limit == d.offset + d.actingBlockLength
  {
    DecWrap(d.buffer, d.offset, d.actingBlockLength, d.actingVersion)
  }

  /** The getter of a primitive field, at its fixed offset whatever the acting
      block length. */
  function DecGet(d: Decoder, f: Field): (r: Result<int>)
    ensures r.Ok? <==> 0 <= d.offset + Offset(f) && d.offset + Offset(f) + Width(f) <= |d.buffer|
    ensures r.Ok? ==> r.value == ReadField(f, d.buffer[d.offset + Offset(f)..d.offset + Offset(f) + Width(f)])
    ensures r.Ok? ==> InRange(f, r.value)
    ensures r.Throws? ==> r.error == IndexOutOfBounds
  {
    var bs :- Slice(d.buffer, d.offset + Offset(f), Width(f));
    Ok(ReadField(f, bs))
  }

  /** `brokerVersion()`: absent when the message predates schema version 2. */
  function DecBrokerVersion(d: Decoder): (r: Result<Option<Bytes>>)
    ensures d.actingVersion < BROKER_VERSION_SINCE ==> r == Ok(None)
    ensures d.actingVersion >= BROKER_VERSION_SINCE ==>
              (r.Ok? <==> 0 <= d.offset + BROKER_VERSION_OFFSET && d.offset + BLOCK_LENGTH <= |d.buffer|)
              && (r.Ok? ==> r.value.Some? && |r.value.value| == BROKER_VERSION_LENGTH)
  {
    if d.actingVersion < BROKER_VERSION_SINCE then Ok(None)
    else
      var bs :- Slice(d.buffer, d.offset + BROKER_VERSION_OFFSET, BROKER_VERSION_LENGTH);
      Ok(Some(bs))
  }

  /** `rejectionReasonLength()`: the length prefix at the limit. It is read as
      `(int) (getInt(limit) & 0xFFFF_FFFFL)`, which is the signed int again,
      so a length of 2^31 or more comes out negative. */
  function DecRejectionReasonLength(d: Decoder): (r: Result<int>)
    ensures r.Ok? <==> 0 <= d.limit && d.limit + REASON_HEADER_LENGTH <= |d.buffer|
    ensures r.Ok? ==> IsInt(r.value)
    ensures r.Throws? ==> r.error == IndexOutOfBounds
  {
    Widths();
    var bs :- Slice(d.buffer, d.limit, REASON_HEADER_LENGTH);
    Ok(ToSigned(LeValue(bs), 4))
  }

  /** `skipRejectionReason()`: the length, and the limit moved past the data. */
  function DecSkipRejectionReason(d: Decoder): (r: Result<(int, Decoder)>)
    ensures r.Ok? <==> DecRejectionReasonLength(d).Ok?
    ensures r.Ok? ==> r.value.0 == DecRejectionReasonLength(d).value
                      && r.value.1 == d.(limit := d.limit + REASON_HEADER_LENGTH + r.value.0)
  {
    var length :- DecRejectionReasonLength(d);
    Ok((length, d.(limit := d.limit + REASON_HEADER_LENGTH + length)))
  }

  /** `getRejectionReason(dst, 0, length)`: copies `min(length, dataLength)`
      bytes and moves the limit past the whole data. */
  function DecGetRejectionReason(d: Decoder, length: int): (r: Result<(Bytes, Decoder)>)
    ensures r.Ok? ==> DecRejectionReasonLength(d).Ok?
    ensures r.Ok? ==> var dataLength := DecRejectionReasonLength(d).value;
                      |r.value.0| == (if length < dataLength then length else dataLength)
                      && Slice(d.buffer, d.limit + REASON_HEADER_LENGTH, |r.value.0|) == Ok(r.value.0)
                      && r.value.1 == d.(limit := d.limit + REASON_HEADER_LENGTH + dataLength)
    ensures r.Throws? ==> r.error == IndexOutOfBounds
  {
    var dataLength :- DecRejectionReasonLength(d);
    var copied := if length < dataLength then length else dataLength;
    var bs :- Slice(d.buffer, d.limit + REASON_HEADER_LENGTH, copied);
    Ok((bs, d.(limit := d.limit + REASON_HEADER_LENGTH + dataLength)))
  }

  /** `rejectionReason()`: the data as bytes (the UTF-8 decoding is not
      modelled); empty for a zero length, and a negative length fails to
      allocate its array. */
  function DecRejectionReason(d: Decoder): (r: Result<(Bytes, Decoder)>)
    ensures DecRejectionReasonLength(d).Throws? ==> r == Throws(IndexOutOfBounds)
    ensures DecRejectionReasonLength(d).Ok? ==>
              var dataLength := DecRejectionReasonLength(d).value;
              var next := d.(limit := d.limit + REASON_HEADER_LENGTH + dataLength);
              (dataLength == 0 ==> r == Ok(([], next)))
              && (dataLength < 0 ==> r == Throws(NegativeArraySize))
              && (dataLength > 0 ==>
                    var data := Slice(d.buffer, d.limit + REASON_HEADER_LENGTH, dataLength);
                    (data.Ok? ==> r == Ok((data.value, next)))
                    && (data.Throws? ==> r == Throws(IndexOutOfBounds)))
  {
    var dataLength :- DecRejectionReasonLength(d);
    var next := d.(limit := d.limit + REASON_HEADER_LENGTH + dataLength);
    if dataLength == 0 then Ok(([], next))
    else if dataLength < 0 then Throws(NegativeArraySize)
    else
      var bs :- Slice(d.buffer, d.limit + REASON_HEADER_LENGTH, dataLength);
      Ok((bs, next))
  }

  /** `sbeDecodedLength()`: the length of the block and the rejection reason,
      measured from a rewound decoder; the decoder's limit is left as it was. */
  function DecDecodedLength(d: Decoder): (r: Result<int>)
    ensures r.Ok? <==> DecRejectionReasonLength(DecRewind(d)).Ok?
    ensures r.Ok? ==> r.value == d.actingBlockLength + REASON_HEADER_LENGTH
                                 + DecRejectionReasonLength(DecRewind(d)).value
  {
    var skipped :- DecSkipRejectionReason(DecRewind(d));
    Ok(skipped.1.limit - skipped.1.offset)
  }

  // ---- what the encoder writes, the decoder reads ----

  /** The header the encoder applies is accepted by the decoder, which wraps
      the block where the encoder did and starts variable-length data at the
      encoder's limit. */
  lemma HeaderAccepted(buf: Bytes, offset: int)
    requires EncWrapAndApplyHeader(buf, offset).Ok?
    ensures var e := EncWrapAndApplyHeader(buf, offset).value;
            DecWrapAndApplyHeader(e.buffer, offset)
              == Ok(DecWrap(e.buffer, e.offset, BLOCK_LENGTH, SCHEMA_VERSION))
            && DecWrap(e.buffer, e.offset, BLOCK_LENGTH, SCHEMA_VERSION).limit == e.limit
  {
    var e := EncWrapAndApplyHeader(buf, offset).value;
    HeaderRoundTrip(e.buffer, offset, LEGACY_HEADER);
  }

  /** A field set by the encoder is read back by a decoder on the same block,
      cast to the field's width. */
  lemma SetThenGet(e: Encoder, f: Field, v: int, d: Decoder)
    requires EncSet(e, f, v).Ok?
    requires d.buffer == EncSet(e, f, v).value.buffer && d.offset == e.offset
    ensures DecGet(d, f) == Ok(Narrow(f, v))
  {
    var at := e.offset + Offset(f);
    SliceOfOverwrite(e.buffer, at, FieldBytes(f, v), 0, Width(f));
    assert FieldBytes(f, v)[0..Width(f)] == FieldBytes(f, v);
    FieldRoundTrip(f, v);
  }

  /** A rejection reason put by the encoder is read back whole by a decoder
      whose limit is where the encoder's was, and both limits end up at the
      same place. */
  lemma PutThenReadReason(e: Encoder, src: Bytes, d: Decoder)
    requires |src| <= INT_MAX
    requires EncPutRejectionReason(e, src).Ok?
    requires d.buffer == EncPutRejectionReason(e, src).value.buffer && d.limit == e.limit
    ensures DecRejectionReasonLength(d) == Ok(|src|)
    ensures DecRejectionReason(d) == Ok((src, d.(limit := EncPutRejectionReason(e, src).value.limit)))
  {
    Widths();
    var image := LeBytes(|src|, 4) + src;
    var b := EncPutRejectionReason(e, src).value.buffer;
    assert b[e.limit..e.limit + 4 + |src|] == image;
    assert b[e.limit..e.limit + 4] == image[..4] == LeBytes(|src|, 4);
    assert b[e.limit + 4..e.limit + 4 + |src|] == image[4..] == src;
    LeValueOfBytes(|src|, 4);
  }

  /** The decoded length of a message the encoder wrote from a fresh wrap is
      the encoder's own encoded length. */
  lemma DecodedLengthIsEncodedLength(buf: Bytes, offset: int, src: Bytes)
    requires |src| <= INT_MAX
    requires EncPutRejectionReason(EncWrap(buf, offset), src).Ok?
    ensures var e := EncPutRejectionReason(EncWrap(buf, offset), src).value;
            DecDecodedLength(DecWrap(e.buffer, offset, BLOCK_LENGTH, SCHEMA_VERSION)) == Ok(EncodedLength(e))
  {
    var e := EncPutRejectionReason(EncWrap(buf, offset), src).value;
    var d := DecWrap(e.buffer, offset, BLOCK_LENGTH, SCHEMA_VERSION);
    PutThenReadReason(EncWrap(buf, offset), src, DecRewind(d));
  }
}
