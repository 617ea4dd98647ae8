/** The pre-8.3 record metadata as a value: what `write` puts into a buffer
    through the legacy encoder and what `wrap` reads back through the legacy
    decoder. Enum fields (record type, value type, rejection type) are kept
    as their protocol byte values, the intent as its protocol value, the
    broker version as the 12 bytes of its composite and the rejection reason
    as its UTF-8 bytes. */
module LegacyMetadata {

  import opened Wrappers
  import opened Bytes
  import opened Sbe
  import opened LegacyCodec

  /** The protocol value of every `NULL_VAL` enum constant. */
  const NULL_VAL: int := 255
  /** `requestIdNullValue()`: `0xffffffffffffffffL` as a Java long. */
  const REQUEST_ID_NULL: int := -1
  /** `requestStreamIdNullValue()`. */
  const REQUEST_STREAM_ID_NULL: int := INT_MIN

  /** `BLOCK_LENGTH`: the message header and the fixed block. */
  const METADATA_BLOCK_LENGTH: nat := HEADER_LENGTH + LegacyCodec.BLOCK_LENGTH

  datatype Metadata = Metadata(
    recordType: int,
    valueType: int,
    intent: Option<int>,      // the `Intent` object, by its protocol value
    requestId: int,
    intentValue: int,         // the value `write` encodes
    requestStreamId: int,
    rejectionType: int,
    rejectionReason: Bytes,
    protocolVersion: int,
    brokerVersion: Bytes)

  /** Values that come from outside the class: the running broker's version,
      `VersionInfo.UNKNOWN` and `Protocol.PROTOCOL_VERSION`. */
  datatype Defaults = Defaults(currentBrokerVersion: Bytes, unknownBrokerVersion: Bytes, protocolVersion: int)

  predicate ValidDefaults(d: Defaults) {
    |d.currentBrokerVersion| == BROKER_VERSION_LENGTH && |d.unknownBrokerVersion| == BROKER_VERSION_LENGTH
  }

  /** Every field holds exactly in the width the block gives it. */
  predicate Valid(m: Metadata) {
    InRange(RecordType, m.recordType) && InRange(ValueType, m.valueType)
    && InRange(Intent, m.intentValue) && InRange(RequestStreamId, m.requestStreamId)
    && InRange(RequestId, m.requestId) && InRange(RejectionType, m.rejectionType)
    && InRange(ProtocolVersion, m.protocolVersion)
    && |m.brokerVersion| == BROKER_VERSION_LENGTH && |m.rejectionReason| <= INT_MAX
  }

  /** `reset()`: every field back to its null value. */
  function Reset(d: Defaults): (m: Metadata)
    ensures m.intent.None? && m.rejectionReason == []
    ensures m.recordType == m.valueType == m.intentValue == m.rejectionType == NULL_VAL
  {
    Metadata(NULL_VAL, NULL_VAL, None, REQUEST_ID_NULL, NULL_VAL, REQUEST_STREAM_ID_NULL,
             NULL_VAL, [], d.protocolVersion, d.currentBrokerVersion)
  }

  /** `intent(Intent)`: sets the intent and the value that gets encoded. */
  function SetIntent(m: Metadata, intent: int): (r: Metadata)
    ensures r.intent == Some(intent) && r.intentValue == intent
    ensures r.(intent := m.intent, intentValue := m.intentValue) == m
  {
    m.(intent := Some(intent), intentValue := intent)
  }

  /** `getLength()`: header, block, length prefix and rejection reason. */
  function GetLength(m: Metadata): nat {
    METADATA_BLOCK_LENGTH + REASON_HEADER_LENGTH + |m.rejectionReason|
  }

  /** `equals`: the raw fields, compared by value; the `intent` object is not
      compared, its encoded value is. */
  predicate Equal(a: Metadata, b: Metadata) {
    a.requestId == b.requestId && a.intentValue == b.intentValue
    && a.requestStreamId == b.requestStreamId && a.protocolVersion == b.protocolVersion
    && a.valueType == b.valueType && a.recordType == b.recordType
    && a.rejectionType == b.rejectionType && a.rejectionReason == b.rejectionReason
    && a.brokerVersion == b.brokerVersion
  }

  // ---- write ----

  /** The primitive fields of the block, in the order `write` sets them. */
  function WriteFields(m: Metadata, e: Encoder): (r: Result<Encoder>)
    ensures r.Ok? ==> r.value.offset == e.offset && r.value.limit == e.limit
                      && |r.value.buffer| == |e.buffer|
    ensures r.Throws? ==> r.error == IndexOutOfBounds
  {
    var e1 :- EncSet(e, RecordType, m.recordType);
    var e2 :- EncSet(e1, RequestStreamId, m.requestStreamId);
    var e3 :- EncSet(e2, RequestId, m.requestId);
    var e4 :- EncSet(e3, ProtocolVersion, m.protocolVersion);
    var e5 :- EncSet(e4, ValueType, m.valueType);
    var e6 :- EncSet(e5, Intent, m.intentValue);
    EncSet(e6, RejectionType, m.rejectionType)
  }

  /** The block: the primitive fields, then the broker version. */
  function WriteBlock(m: Metadata, e: Encoder): (r: Result<Encoder>)
    requires Valid(m)
    ensures r.Ok? ==> r.value.offset == e.offset && r.value.limit == e.limit
                      && |r.value.buffer| == |e.buffer|
    ensures r.Throws? ==> r.error == IndexOutOfBounds
  {
    var e1 :- WriteFields(m, e);
    EncSetBrokerVersion(e1, m.brokerVersion)
  }

  /** The rejection reason at the end of the block, or a zero length when
      there is none. */
  function WriteReason(m: Metadata, e: Encoder, offset: int): (r: Result<Bytes>)
    requires Valid(m)
    ensures r.Ok? ==> |r.value| == |e.buffer|
    ensures r.Throws? ==> r.error == IndexOutOfBounds
  {
    if |m.rejectionReason| > 0 then
      var e1 :- EncPutRejectionReason(e, m.rejectionReason);
      Ok(e1.buffer)
    else
      Overwrite(e.buffer, offset + METADATA_BLOCK_LENGTH, LeBytes(0, 4))
  }

  /** `write(buffer, offset)`: the legacy header, the block with the intent
      value and broker version, then the rejection reason. */
  function Write(m: Metadata, buf: Bytes, offset: int): (r: Result<Bytes>)
    requires Valid(m)
    ensures r.Ok? ==> |r.value| == |buf|
    ensures r.Throws? ==> r.error == IndexOutOfBounds
  {
    var withHeader :- Overwrite(buf, offset, EncodeHeader(LEGACY_HEADER));
    var e :- WriteBlock(m, EncWrap(withHeader, offset + HEADER_LENGTH));
    WriteReason(m, e, offset)
  }

  /** The block as `write` lays it out. */
  function Block(m: Metadata): (r: Bytes)
    requires Valid(m)
    ensures |r| == LegacyCodec.BLOCK_LENGTH
  {
    FieldBytes(RecordType, m.recordType) + FieldBytes(RequestStreamId, m.requestStreamId)
    + FieldBytes(RequestId, m.requestId) + FieldBytes(ProtocolVersion, m.protocolVersion)
    + FieldBytes(ValueType, m.valueType) + FieldBytes(Intent, m.intentValue)
    + FieldBytes(RejectionType, m.rejectionType) + m.brokerVersion
  }

  /** The rejection reason as variable-length data. */
  function Tail(m: Metadata): (r: Bytes)
    requires Valid(m)
    ensures |r| == REASON_HEADER_LENGTH + |m.rejectionReason|
  {
    Widths();
    LeBytes(|m.rejectionReason|, 4) + m.rejectionReason
  }

  /** The whole message as `write` lays it out. */
  function Image(m: Metadata): (r: Bytes)
    requires Valid(m)
    ensures |r| == GetLength(m)
  {
    EncodeHeader(LEGACY_HEADER) + Block(m) + Tail(m)
  }

  /** The value `write` stores for a field. */
  function FieldValue(m: Metadata, f: Field): (v: int)
    requires Valid(m)
    ensures InRange(f, v)
  {
    match f
    case RecordType => m.recordType
    case RequestStreamId => m.requestStreamId
    case RequestId => m.requestId
    case ProtocolVersion => m.protocolVersion
    case ValueType => m.valueType
    case Intent => m.intentValue
    case RejectionType => m.rejectionType
  }

  /** Each field's bytes in the block are the bytes written for its value. */
  lemma BlockField(m: Metadata, f: Field)
    requires Valid(m)
    ensures Block(m)[Offset(f)..Offset(f) + Width(f)] == FieldBytes(f, FieldValue(m, f))
    ensures Block(m)[BROKER_VERSION_OFFSET..] == m.brokerVersion
  {
    var block := Block(m);
    var f1 := FieldBytes(RecordType, m.recordType);
    var f2 := FieldBytes(RequestStreamId, m.requestStreamId);
    var f3 := FieldBytes(RequestId, m.requestId);
    var f4 := FieldBytes(ProtocolVersion, m.protocolVersion);
    var f5 := FieldBytes(ValueType, m.valueType);
    var f6 := FieldBytes(Intent, m.intentValue);
    var f7 := FieldBytes(RejectionType, m.rejectionType);
    assert block == f1 + f2 + f3 + f4 + f5 + f6 + f7 + m.brokerVersion;
    match f
    case RecordType => assert block[0..1] == f1;
    case RequestStreamId => assert block[1..5] == f2;
    case RequestId => assert block[5..13] == f3;
    case ProtocolVersion => assert block[13..15] == f4;
    case ValueType => assert block[15..16] == f5;
    case Intent => assert block[16..17] == f6;
    case RejectionType => assert block[17..18] == f7;
  }

  /** The fields set one after the other write the front of the block. */
  lemma WriteFieldsIsOverwrite(m: Metadata, e: Encoder)
    requires Valid(m)
    requires 0 <= e.offset && e.offset + LegacyCodec.BLOCK_LENGTH <= |e.buffer|
    ensures WriteFields(m, e).Ok?
    ensures Ok(WriteFields(m, e).value.buffer) == Overwrite(e.buffer, e.offset, Block(m)[..BROKER_VERSION_OFFSET])
  {
    var b := e.buffer;
    var at := e.offset;
    var f1 := FieldBytes(RecordType, m.recordType);
    var e1 := EncSet(e, RecordType, m.recordType).value;
    var e2 := SetExtends(e1, b, f1, RequestStreamId, m.requestStreamId);
    var e3 := SetExtends(e2, b, f1 + FieldBytes(RequestStreamId, m.requestStreamId), RequestId, m.requestId);
    var p3 := f1 + FieldBytes(RequestStreamId, m.requestStreamId) + FieldBytes(RequestId, m.requestId);
    var e4 := SetExtends(e3, b, p3, ProtocolVersion, m.protocolVersion);
    var p4 := p3 + FieldBytes(ProtocolVersion, m.protocolVersion);
    var e5 := SetExtends(e4, b, p4, ValueType, m.valueType);
    var p5 := p4 + FieldBytes(ValueType, m.valueType);
    var e6 := SetExtends(e5, b, p5, Intent, m.intentValue);
    var p6 := p5 + FieldBytes(Intent, m.intentValue);
    var e7 := SetExtends(e6, b, p6, RejectionType, m.rejectionType);
    assert Block(m)[..BROKER_VERSION_OFFSET] == p6 + FieldBytes(RejectionType, m.rejectionType);
  }

  /** Setting the field that follows the bytes already written extends the
      write by the field's bytes. */
  lemma SetExtends(e: Encoder, base: Bytes, written: Bytes, f: Field, v: int) returns (next: Encoder)
    requires Offset(f) == |written| && 0 <= e.offset && e.offset + |written| + Width(f) <= |base|
    requires Ok(e.buffer) == Overwrite(base, e.offset, written)
    ensures EncSet(e, f, v) == Ok(next)
    ensures Ok(next.buffer) == Overwrite(base, e.offset, written + FieldBytes(f, v))
    ensures next.offset == e.offset
  {
    OverwriteAdjacent(base, e.offset, written, FieldBytes(f, v));
    next := EncSet(e, f, v).value;
  }

  /** The block is written in place. */
  lemma WriteBlockIsOverwrite(m: Metadata, e: Encoder)
    requires Valid(m)
    requires 0 <= e.offset && e.offset + LegacyCodec.BLOCK_LENGTH <= |e.buffer|
    ensures WriteBlock(m, e).Ok?
    ensures Ok(WriteBlock(m, e).value.buffer) == Overwrite(e.buffer, e.offset, Block(m))
  {
    WriteFieldsIsOverwrite(m, e);
    var block := Block(m);
    assert block[..BROKER_VERSION_OFFSET] + m.brokerVersion == block;
    OverwriteAdjacent(e.buffer, e.offset, block[..BROKER_VERSION_OFFSET], m.brokerVersion);
  }

  /** The rejection reason is written in place at the encoder's limit. */
  lemma WriteReasonIsOverwrite(m: Metadata, e: Encoder, offset: int)
    requires Valid(m)
    requires e.limit == offset + METADATA_BLOCK_LENGTH
    requires 0 <= e.limit && e.limit + |Tail(m)| <= |e.buffer|
    ensures WriteReason(m, e, offset) == Overwrite(e.buffer, e.limit, Tail(m))
  {
    Widths();
    if |m.rejectionReason| == 0 {
      assert Tail(m) == LeBytes(0, 4);
    }
  }

  /** `write` puts exactly the message image at `offset` and leaves the rest
      of the buffer alone. */
  lemma WriteIsImage(m: Metadata, buf: Bytes, offset: int)
    requires Valid(m)
    requires 0 <= offset && offset + GetLength(m) <= |buf|
    ensures Write(m, buf, offset) == Overwrite(buf, offset, Image(m))
  {
    var hdr := EncodeHeader(LEGACY_HEADER);
    var withHeader := Overwrite(buf, offset, hdr).value;
    var e0 := EncWrap(withHeader, offset + HEADER_LENGTH);
    WriteBlockIsOverwrite(m, e0);
    OverwriteAdjacent(buf, offset, hdr, Block(m));
    var e1 := WriteBlock(m, e0).value;
    WriteReasonIsOverwrite(m, e1, offset);
    OverwriteAdjacent(buf, offset, hdr + Block(m), Tail(m));
  }

  // ---- wrap ----

  /** The fixed fields `wrap` reads. */
  datatype Fields = Fields(recordType: int, requestStreamId: int, requestId: int, protocolVersion: int,
                           valueType: int, intent: int, rejectionType: int, brokerVersion: Option<Bytes>)

  /** The fixed fields read through a wrapped decoder. */
  function ReadFields(d: LegacyCodec.Decoder): (r: Result<Fields>)
    ensures r.Throws? ==> r.error == IndexOutOfBounds
  {
    var recordType :- DecGet(d, RecordType);
    var requestStreamId :- DecGet(d, RequestStreamId);
    var requestId :- DecGet(d, RequestId);
    var protocolVersion :- DecGet(d, ProtocolVersion);
    var valueType :- DecGet(d, ValueType);
    var intent :- DecGet(d, Intent);
    var rejectionType :- DecGet(d, RejectionType);
    var brokerVersion :- DecBrokerVersion(d);
    Ok(Fields(recordType, requestStreamId, requestId, protocolVersion, valueType, intent,
              rejectionType, brokerVersion))
  }

  /** The decoder `wrap` uses: wrapped behind the header with the header's
      block length and version; the template is not checked. */
  function WrapDecoder(buf: Bytes, offset: int): (r: Result<LegacyCodec.Decoder>)
    ensures r.Ok? <==> DecodeHeader(buf, offset).Ok?
    ensures r.Ok? ==> var h := DecodeHeader(buf, offset).value;
                      r.value == DecWrap(buf, offset + HEADER_LENGTH, h.blockLength, h.version)
    ensures r.Throws? ==> r.error == IndexOutOfBounds
  {
    var h :- DecodeHeader(buf, offset);
    Ok(DecWrap(buf, offset + HEADER_LENGTH, h.blockLength, h.version))
  }

  /** The rejection reason `wrap` reads: only a positive length is wrapped;
      zero, and the negative value a prefix of 2^31 or more reads as, leave it
      empty. The length is read from the buffer, so a short buffer is out of
      bounds there; the reason is only a view, so a reason that runs past the
      buffer is an illegal argument. */
  function ReadReason(d: LegacyCodec.Decoder): (r: Result<Bytes>)
    ensures DecRejectionReasonLength(d).Throws? ==> r == Throws(IndexOutOfBounds)
    ensures DecRejectionReasonLength(d).Ok? && r.Throws? ==>
              DecRejectionReasonLength(d).value > 0 && r.error == IllegalArgument(VIEW_OUT_OF_BOUNDS)
    ensures DecRejectionReasonLength(d).Ok? && DecRejectionReasonLength(d).value > 0 ==>
              var start := d.limit + REASON_HEADER_LENGTH;
              var length := DecRejectionReasonLength(d).value;
              (r.Ok? <==> 0 <= start && start + length <= |d.buffer|)
              && (r.Ok? ==> r.value == d.buffer[start..start + length])
    ensures r.Ok? && DecRejectionReasonLength(d).value <= 0 ==> r.value == []
  {
    var length :- DecRejectionReasonLength(d);
    if length > 0 then View(d.buffer, d.limit + REASON_HEADER_LENGTH, length)
    else Ok([])
  }

  /** The fields read into a reset record, as `wrap` leaves it. */
  function Assemble(fields: Fields, reason: Bytes, d: Defaults): (m: Metadata)
    ensures m.intent == Some(fields.intent) && m.intentValue == NULL_VAL
    ensures fields.brokerVersion.None? ==> m.brokerVersion == d.unknownBrokerVersion
  {
    Reset(d).(recordType := fields.recordType, requestStreamId := fields.requestStreamId,
              requestId := fields.requestId, protocolVersion := fields.protocolVersion,
              valueType := fields.valueType, intent := Some(fields.intent),
              rejectionType := fields.rejectionType,
              brokerVersion := fields.brokerVersion.GetOr(d.unknownBrokerVersion),
              rejectionReason := reason)
  }

  /** `wrap(buffer, offset, length)` as written: resets, then reads every
      field; the intent is looked up from the decoded value, but
      `intentValue` keeps its reset value. */
  function Wrap(buf: Bytes, offset: int, d: Defaults): (r: Result<Metadata>)
    ensures r.Throws? ==> r.error == IndexOutOfBounds || r.error == IllegalArgument(VIEW_OUT_OF_BOUNDS)
    ensures r.Throws? && r.error.IllegalArgument? ==>
              WrapDecoder(buf, offset).Ok?
              && var dec := WrapDecoder(buf, offset).value;
                 ReadFields(dec).Ok? && DecRejectionReasonLength(dec).Ok? && DecRejectionReasonLength(dec).value > 0
    ensures r.Ok? ==> r.value.intentValue == NULL_VAL && r.value.intent.Some?
  {
    var dec :- WrapDecoder(buf, offset);
    var fields :- ReadFields(dec);
    var reason :- ReadReason(dec);
    Ok(Assemble(fields, reason, d))
  }

  /** `wrap` with the encoded intent value kept as well. */
  function WrapFixed(buf: Bytes, offset: int, d: Defaults): (r: Result<Metadata>)
    ensures r.Throws? ==> r.error == IndexOutOfBounds || r.error == IllegalArgument(VIEW_OUT_OF_BOUNDS)
    ensures r.Ok? ==> r.value.intent == Some(r.value.intentValue)
  {
    var dec :- WrapDecoder(buf, offset);
    var fields :- ReadFields(dec);
    var reason :- ReadReason(dec);
    Ok(Assemble(fields, reason, d).(intentValue := fields.intent))
  }

  /** The corrected `wrap` differs from the one as written only in the
      intent value. */
  lemma WrapFixedOnlyKeepsIntentValue(buf: Bytes, offset: int, d: Defaults)
    ensures WrapFixed(buf, offset, d).Throws? <==> Wrap(buf, offset, d).Throws?
    ensures WrapFixed(buf, offset, d).Ok? ==>
              Wrap(buf, offset, d).value == WrapFixed(buf, offset, d).value.(intentValue := NULL_VAL)
  {
  }

  // ---- wrap after write ----

  /** A field of a written block reads back. */
  lemma GetOfBlock(m: Metadata, dec: LegacyCodec.Decoder, f: Field)
    requires Valid(m)
    requires Slice(dec.buffer, dec.offset, LegacyCodec.BLOCK_LENGTH) == Ok(Block(m))
    ensures DecGet(dec, f) == Ok(FieldValue(m, f))
  {
    var block := Block(m);
    var v := FieldValue(m, f);
    BlockField(m, f);
    FieldsTileBlock(f, f);
    SliceWithin(dec.buffer, dec.offset, LegacyCodec.BLOCK_LENGTH, block, Offset(f), Width(f));
    FieldRoundTripInRange(f, v);
  }

  /** The fields of a written block read back, the broker version included
      when the decoder's version has it. */
  lemma ReadFieldsOfBlock(m: Metadata, dec: LegacyCodec.Decoder)
    requires Valid(m) && dec.actingVersion >= BROKER_VERSION_SINCE
    requires Slice(dec.buffer, dec.offset, LegacyCodec.BLOCK_LENGTH) == Ok(Block(m))
    ensures ReadFields(dec) == Ok(Fields(m.recordType, m.requestStreamId, m.requestId, m.protocolVersion,
                                         m.valueType, m.intentValue, m.rejectionType, Some(m.brokerVersion)))
  {
    GetOfBlock(m, dec, RecordType);
    GetOfBlock(m, dec, RequestStreamId);
    GetOfBlock(m, dec, RequestId);
    GetOfBlock(m, dec, ProtocolVersion);
    GetOfBlock(m, dec, ValueType);
    GetOfBlock(m, dec, Intent);
    GetOfBlock(m, dec, RejectionType);
    BlockField(m, RecordType);
    SliceWithin(dec.buffer, dec.offset, LegacyCodec.BLOCK_LENGTH, Block(m),
                BROKER_VERSION_OFFSET, BROKER_VERSION_LENGTH);
  }

  /** The rejection reason of a written tail reads back. */
  lemma ReadReasonOfTail(m: Metadata, dec: LegacyCodec.Decoder)
    requires Valid(m)
    requires Slice(dec.buffer, dec.limit, |Tail(m)|) == Ok(Tail(m))
    ensures ReadReason(dec) == Ok(m.rejectionReason)
  {
    Widths();
    var tail := Tail(m);
    var n := |m.rejectionReason|;
    SliceWithin(dec.buffer, dec.limit, |tail|, tail, 0, 4);
    assert tail[0..4] == LeBytes(n, 4);
    LeValueOfBytes(n, 4);
    SliceWithin(dec.buffer, dec.limit, |tail|, tail, 4, n);
    assert tail[4..4 + n] == m.rejectionReason;
  }

  /** The parts of a written image, where `wrap` looks for them. */
  lemma ImageParts(m: Metadata, buf: Bytes, offset: int)
    requires Valid(m)
    requires Slice(buf, offset, GetLength(m)) == Ok(Image(m))
    ensures WrapDecoder(buf, offset) == Ok(DecWrap(buf, offset + HEADER_LENGTH, LegacyCodec.BLOCK_LENGTH, SCHEMA_VERSION))
    ensures Slice(buf, offset + HEADER_LENGTH, LegacyCodec.BLOCK_LENGTH) == Ok(Block(m))
    ensures Slice(buf, offset + METADATA_BLOCK_LENGTH, |Tail(m)|) == Ok(Tail(m))
  {
    var hdr := EncodeHeader(LEGACY_HEADER);
    var block := Block(m);
    var tail := Tail(m);
    var image := Image(m);
    assert image == hdr + block + tail;
    SliceWithin(buf, offset, |image|, image, 0, HEADER_LENGTH);
    assert image[0..HEADER_LENGTH] == hdr;
    HeaderRoundTrip(buf, offset, LEGACY_HEADER);
    SliceWithin(buf, offset, |image|, image, HEADER_LENGTH, LegacyCodec.BLOCK_LENGTH);
    assert image[HEADER_LENGTH..METADATA_BLOCK_LENGTH] == block;
    SliceWithin(buf, offset, |image|, image, METADATA_BLOCK_LENGTH, |tail|);
    assert image[METADATA_BLOCK_LENGTH..METADATA_BLOCK_LENGTH + |tail|] == tail;
  }

  /** The raw fields of a written image, read by either `wrap`. */
  lemma ReadImage(m: Metadata, buf: Bytes, offset: int)
    requires Valid(m)
    requires Slice(buf, offset, GetLength(m)) == Ok(Image(m))
    ensures WrapDecoder(buf, offset).Ok?
    ensures var dec := WrapDecoder(buf, offset).value;
            ReadFields(dec) == Ok(Fields(m.recordType, m.requestStreamId, m.requestId, m.protocolVersion,
                                         m.valueType, m.intentValue, m.rejectionType, Some(m.brokerVersion)))
            && ReadReason(dec) == Ok(m.rejectionReason)
  {
    ImageParts(m, buf, offset);
    var dec := WrapDecoder(buf, offset).value;
    ReadFieldsOfBlock(m, dec);
    ReadReasonOfTail(m, dec);
  }

  /** The written image is what the buffer holds at `offset` afterwards. */
  lemma WrittenImage(m: Metadata, buf: Bytes, offset: int)
    requires Valid(m)
    requires 0 <= offset && offset + GetLength(m) <= |buf|
    ensures Write(m, buf, offset).Ok?
    ensures Slice(Write(m, buf, offset).value, offset, GetLength(m)) == Ok(Image(m))
  {
    var image := Image(m);
    WriteIsImage(m, buf, offset);
    SliceOfOverwrite(buf, offset, image, 0, |image|);
    assert image[0..|image|] == image;
    assert offset + 0 == offset;
  }

  /** As written, `wrap` after `write` restores every raw field except the
      encoded intent value, which it leaves at `NULL_VAL`. */
  lemma WrapAfterWrite(m: Metadata, buf: Bytes, offset: int, d: Defaults)
    requires Valid(m)
    requires 0 <= offset && offset + GetLength(m) <= |buf|
    ensures Write(m, buf, offset).Ok?
    ensures Wrap(Write(m, buf, offset).value, offset, d)
            == Ok(m.(intent := Some(m.intentValue), intentValue := NULL_VAL))
  {
    WrittenImage(m, buf, offset);
    ReadImage(m, Write(m, buf, offset).value, offset);
  }

  /** So `equals` fails between a record and its own round trip whenever its
      intent value is not `NULL_VAL`. */
  lemma WrapLosesIntentValue(m: Metadata, buf: Bytes, offset: int, d: Defaults)
    requires Valid(m) && m.intentValue != NULL_VAL
    requires 0 <= offset && offset + GetLength(m) <= |buf|
    ensures Write(m, buf, offset).Ok?
    ensures Wrap(Write(m, buf, offset).value, offset, d).Ok?
    ensures !Equal(m, Wrap(Write(m, buf, offset).value, offset, d).value)
  {
    WrapAfterWrite(m, buf, offset, d);
  }

  /** The record of the example below: a command of value type 1 with
      intent 1, everything else at its reset value. */
  function IntentOneRecord(d: Defaults): (m: Metadata)
    requires ValidDefaults(d)
    ensures Valid(m) && m.intentValue == 1
  {
    Widths();
    SetIntent(Reset(d).(recordType := 0, valueType := 1, protocolVersion := 3), 1)
  }

  /** A concrete record showing it: a record with intent 1, written into a
      buffer of exactly its length, comes back with intent value 255. */
  lemma WrapLosesIntentValueExample(d: Defaults)
    requires ValidDefaults(d)
    ensures var m := IntentOneRecord(d);
            var w := Write(m, seq(GetLength(m), _ => 0), 0);
            w.Ok? && Wrap(w.value, 0, d).Ok?
            && Wrap(w.value, 0, d).value.intentValue == 255
            && !Equal(m, Wrap(w.value, 0, d).value)
  {
    var m := IntentOneRecord(d);
    var buf: Bytes := seq(GetLength(m), _ => 0);
    WrapAfterWrite(m, buf, 0, d);
    var back := m.(intent := Some(m.intentValue), intentValue := NULL_VAL);
    assert Wrap(Write(m, buf, 0).value, 0, d) == Ok(back);
    assert !Equal(m, back);
  }

  /** With the intent value kept, `wrap` after `write` gives back a record
      `equals` to the one written, with its intent set from the intent value. */
  lemma WrapFixedAfterWrite(m: Metadata, buf: Bytes, offset: int, d: Defaults)
    requires Valid(m)
    requires 0 <= offset && offset + GetLength(m) <= |buf|
    ensures Write(m, buf, offset).Ok?
    ensures WrapFixed(Write(m, buf, offset).value, offset, d) == Ok(m.(intent := Some(m.intentValue)))
    ensures Equal(m, WrapFixed(Write(m, buf, offset).value, offset, d).value)
  {
    WrittenImage(m, buf, offset);
    ReadImage(m, Write(m, buf, offset).value, offset);
  }
}
