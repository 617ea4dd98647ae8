/** The journal record serializer: a record is a metadata message followed by
    a data message, each an SBE message header and a block. The generated
    journal codecs are parameters: their ids and block length, and the
    decoders of the two blocks. */
module SbeSerializer {

  import opened Wrappers
  import opened Bytes
  import opened Sbe

  /** The identity of one generated message codec. */
  datatype Codec = Codec(schemaId: int, templateId: int, blockLength: int)

  /** The metadata of a journal record: its checksum and data length. */
  datatype RecordMetadata = RecordMetadata(checksum: int, length: int)

  /** The data of a journal record: index, ASQN and application bytes. */
  datatype RecordData = RecordData(index: int, asqn: int, data: Bytes)

  /** A generated block decoder: the buffer, the offset of the block, and the
      header it was announced with. */
  type Decoder<T> = (Bytes, int, Header) -> Result<T>

  /** The header at `offset` was written by the codec `c`. */
  predicate Matches(h: Header, c: Codec) {
    h.schemaId == c.schemaId && h.templateId == c.templateId
  }

  const METADATA_MISMATCH: string := "Cannot read metadata. Header does not match."
  const DATA_MISMATCH: string := "Cannot read record. Header does not match."

  /** `getMetadataLength()`: the length of a metadata message as written. */
  function MetadataLength(metadata: Codec): int {
    HEADER_LENGTH + metadata.blockLength
  }

  /** `getMetadataLength(buffer, offset)`: the header length plus the block
      length found at `offset`; only the block length is read. */
  function MetadataLengthAt(buf: Bytes, offset: int): (r: Result<int>)
    ensures r.Ok? <==> 0 <= offset && offset + 2 <= |buf|
    ensures r.Throws? ==> r.error == IndexOutOfBounds
    ensures DecodeHeader(buf, offset).Ok? ==>
              r == Ok(HEADER_LENGTH + DecodeHeader(buf, offset).value.blockLength)
    ensures r.Ok? ==> HEADER_LENGTH <= r.value < HEADER_LENGTH + 0x1_0000
  {
    HeaderFields(buf, offset);
    var blockLength :- HeaderField(buf, offset, BLOCK_LENGTH_AT);
    Ok(HEADER_LENGTH + blockLength)
  }

  /** `hasMetadata`, and the same check in `readData`: the schema id is read
      and compared first, then the template id; a mismatch is a corrupted
      journal. Only a matching header has its block length and version read,
      for the block decoder. */
  function CheckHeader(c: Codec, buf: Bytes, offset: int, mismatch: string): (r: Result<Header>)
    ensures HeaderField(buf, offset, SCHEMA_ID_AT).Throws? ==> r == Throws(IndexOutOfBounds)
    ensures HeaderField(buf, offset, SCHEMA_ID_AT).Ok? && HeaderField(buf, offset, SCHEMA_ID_AT).value != c.schemaId
            ==> r == Throws(CorruptedJournal(mismatch))
    ensures HeaderField(buf, offset, SCHEMA_ID_AT) == Ok(c.schemaId) && HeaderField(buf, offset, TEMPLATE_ID_AT).Throws?
            ==> r == Throws(IndexOutOfBounds)
    ensures HeaderField(buf, offset, SCHEMA_ID_AT) == Ok(c.schemaId) && HeaderField(buf, offset, TEMPLATE_ID_AT).Ok?
            && HeaderField(buf, offset, TEMPLATE_ID_AT).value != c.templateId
            ==> r == Throws(CorruptedJournal(mismatch))
    ensures r.Ok? <==> DecodeHeader(buf, offset).Ok? && Matches(DecodeHeader(buf, offset).value, c)
    ensures r.Ok? ==> r.value == DecodeHeader(buf, offset).value
    ensures r.Throws? ==> r.error == IndexOutOfBounds || r.error == CorruptedJournal(mismatch)
  {
    HeaderFields(buf, offset);
    var schemaId :- HeaderField(buf, offset, SCHEMA_ID_AT);
    if schemaId != c.schemaId then Throws(CorruptedJournal(mismatch))
    else
      var templateId :- HeaderField(buf, offset, TEMPLATE_ID_AT);
      if templateId != c.templateId then Throws(CorruptedJournal(mismatch))
      else
        var blockLength :- HeaderField(buf, offset, BLOCK_LENGTH_AT);
        var version :- HeaderField(buf, offset, VERSION_AT);
        Ok(Header(blockLength, templateId, schemaId, version))
  }

  /** `readMetadata`: fails with a corrupted-journal error as soon as the
      schema id or the template id read is not the metadata codec's, otherwise
      decodes the block behind the header. */
  function ReadMetadata(metadata: Codec, decode: Decoder<RecordMetadata>, buf: Bytes, offset: int)
    : (r: Result<RecordMetadata>)
    ensures HeaderField(buf, offset, SCHEMA_ID_AT).Throws? ==> r == Throws(IndexOutOfBounds)
    ensures HeaderField(buf, offset, SCHEMA_ID_AT).Ok? && HeaderField(buf, offset, SCHEMA_ID_AT).value != metadata.schemaId
            ==> r == Throws(CorruptedJournal(METADATA_MISMATCH))
    ensures DecodeHeader(buf, offset).Throws? ==> r.Throws?
    ensures DecodeHeader(buf, offset).Ok? ==>
              var h := DecodeHeader(buf, offset).value;
              (!Matches(h, metadata) ==> r == Throws(CorruptedJournal(METADATA_MISMATCH)))
              && (Matches(h, metadata) ==> r == decode(buf, offset + HEADER_LENGTH, h))
  {
    var h :- CheckHeader(metadata, buf, offset, METADATA_MISMATCH);
    decode(buf, offset + HEADER_LENGTH, h)
  }

  /** `readData`: as `readMetadata`, against the record-data codec. */
  function ReadData(data: Codec, decode: Decoder<RecordData>, buf: Bytes, offset: int)
    : (r: Result<RecordData>)
    ensures HeaderField(buf, offset, SCHEMA_ID_AT).Throws? ==> r == Throws(IndexOutOfBounds)
    ensures HeaderField(buf, offset, SCHEMA_ID_AT).Ok? && HeaderField(buf, offset, SCHEMA_ID_AT).value != data.schemaId
            ==> r == Throws(CorruptedJournal(DATA_MISMATCH))
    ensures DecodeHeader(buf, offset).Throws? ==> r.Throws?
    ensures DecodeHeader(buf, offset).Ok? ==>
              var h := DecodeHeader(buf, offset).value;
              (!Matches(h, data) ==> r == Throws(CorruptedJournal(DATA_MISMATCH)))
              && (Matches(h, data) ==> r == decode(buf, offset + HEADER_LENGTH, h))
  {
    var h :- CheckHeader(data, buf, offset, DATA_MISMATCH);
    decode(buf, offset + HEADER_LENGTH, h)
  }

  /** A header cut short after its schema id still reveals a foreign codec:
      with six bytes left, a foreign schema id is reported as a corrupted
      journal although the whole header cannot be read. */
  lemma ShortForeignHeaderIsRejected(metadata: Codec, decode: Decoder<RecordMetadata>, buf: Bytes)
    requires |buf| == SCHEMA_ID_AT + 2
    requires LeValue(buf[SCHEMA_ID_AT..]) != metadata.schemaId
    ensures DecodeHeader(buf, 0).Throws?
    ensures ReadMetadata(metadata, decode, buf, 0) == Throws(CorruptedJournal(METADATA_MISMATCH))
  {
    assert buf[SCHEMA_ID_AT..SCHEMA_ID_AT + 2] == buf[SCHEMA_ID_AT..];
  }

  /** The header the metadata encoder writes. */
  function MetadataHeader(metadata: Codec, version: int): Header {
    Header(metadata.blockLength, metadata.templateId, metadata.schemaId, version)
  }

  /** A metadata header written at `offset` is accepted: the length read back
      is the fixed metadata length, and reading the metadata decodes the block
      right behind the header. */
  lemma WrittenMetadataIsAccepted(metadata: Codec, version: int, decode: Decoder<RecordMetadata>,
                                  buf: Bytes, offset: int)
    requires ValidHeader(MetadataHeader(metadata, version))
    requires Slice(buf, offset, HEADER_LENGTH) == Ok(EncodeHeader(MetadataHeader(metadata, version)))
    ensures MetadataLengthAt(buf, offset) == Ok(MetadataLength(metadata))
    ensures ReadMetadata(metadata, decode, buf, offset)
            == decode(buf, offset + HEADER_LENGTH, MetadataHeader(metadata, version))
  {
    HeaderRoundTrip(buf, offset, MetadataHeader(metadata, version));
  }

  /** A header written by another codec is rejected as corrupted. */
  lemma ForeignHeaderIsRejected(metadata: Codec, decode: Decoder<RecordMetadata>,
                                buf: Bytes, offset: int, h: Header)
    requires ValidHeader(h) && !Matches(h, metadata)
    requires Slice(buf, offset, HEADER_LENGTH) == Ok(EncodeHeader(h))
    ensures ReadMetadata(metadata, decode, buf, offset) == Throws(CorruptedJournal(METADATA_MISMATCH))
  {
    HeaderRoundTrip(buf, offset, h);
  }
}
