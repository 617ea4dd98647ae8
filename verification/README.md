# zdb in Dafny

A model of the statable core of zdb, the read-only debugger for Zeebe
partitions, with proofs about it. zdb reads two artifacts of a broker's
partition directory: the segmented Raft journal (the log) and the RocksDB
runtime state. The model covers five layers.

- **Journal primitives.** This layer covers:
  - segment file names;
  - the sparse journal index and its application-sequence-number (ASQN) lookups;
  - the navigable map of loaded segments;
  - the frame version byte;
  - the segment descriptor;
  - the SBE message header checks of the journal record serializer;
  - the documented contract of the journal reader's `seek` operations.
- **The pre-8.3 record metadata codec.** The generated encoder and decoder
  for a 30-byte little-endian block with a variable-length rejection reason
  are modelled over byte sequences. So is the wrapper that writes a metadata
  value and wraps it back.
- **Log decoding and queries.** This layer covers:
  - the loop that cuts an application entry into framed events;
  - the searches by position and by index, in the current backend and in both commands of the older tool;
  - the status folds;
  - the index-gap consistency check;
  - the table, JSON and Graphviz DOT renderings;
  - the partition name derived from a log path.
- **The state keyspace.** This layer covers:
  - the 8-byte column-family prefix;
  - the walks of `ZeebeDbReader` and its older twin `Experimental`;
  - per-family statistics;
  - prefix-bounded iteration that a visitor may stop;
  - the read-only guards that refuse every write;
  - the two-slot prefix-buffer pool;
  - the format-string key formatters with their hex fallback.
- **Engine-state queries.** These are modelled over typed tables: variables,
  jobs, incidents, messages, element instances and the workflow cache, the
  aggregate folds of `GeneralState` and `StatusInspection`, the
  message-deadline consistency check of `RawState`, and two small utilities,
  `JsonPrinter` and `ZeebePaths`.

RocksDB appears in two forms. The backend stores every column family in one
physical keyspace, modelled as a strictly ascending `seq<(Bytes, Bytes)>`
whose keys carry the family prefix (`Keyspace`, `FamilyKeys`,
`TransactionalColumnFamily`). The older tool opens one RocksDB column family
per Zeebe family, and its engine-state classes read typed tables in key
order (`ReadOnlyDb`, `Tables`).

The log is a sequence of indexed entries, of two kinds:
- control entries, which carry a term;
- application entries, which carry a term, the lowest and highest record
  positions and the framed event bytes.

Foreign code is passed in as parameters, among it:
- MessagePack to JSON;
- Zeebe's event registry and intent lookup;
- `DbString` and `DbValue` decoding;
- the generated journal codecs;
- `ZB_DB_BYTE_ORDER`;
- `toString` of foreign classes.

Java exceptions are the `Throws` case of `Wrappers.Result`, so every error
path the code takes is a value the contracts talk about.

`Experimental.kt`'s `visitDB`, `visitDBWithJsonValues` and
`stateStatistics` are the same walks as `ZeebeDbReader`'s, and the same
members model both. The `Scanner`s of the two `LogStatus` commands of the
older tool share `StatusScanner`, and their searchers share `ScanSearch`.
The two share those members, and each command's rows cite its own file
where its lines differ.

Where the code and its documentation differ, the model follows the code.
A prefix walk stops at the first key that no longer carries the prefix. It
does not skip ahead to later keys that carry it again. In a sorted keyspace
the two behaviours agree.

## Model

| member | source | states |
|---|---|---|
| SegmentFile.SegmentIdFromPath | backend/src/main/kotlin/io/zell/zdb/journal/file/SegmentFile.java:76-94 | the id is -1 when the name lacks a '-' or a '.', does not end with "log", or has its last '.' before its last '-'; otherwise it is a 32-bit int |
| SegmentFile.SegmentIdCases | backend/src/main/kotlin/io/zell/zdb/journal/file/SegmentFile.java:79-93 | the id is -1 exactly when the name is misshapen or the text between the last '-' and the last '.' is not an int (or is "-1") |
| SegmentFile.IsSegmentFile | backend/src/main/kotlin/io/zell/zdb/journal/file/SegmentFile.java:59-68 | a null journal name or file name throws with the checkNotNull message; otherwise a segment file is one with an id that starts with the journal name |
| SegmentFile.IsSegmentFileOf | backend/src/main/kotlin/io/zell/zdb/journal/file/SegmentFile.java:47-49 | the File overload is the name overload on the file's name |
| SegmentFile.SegmentIdOfFileName | backend/src/main/kotlin/io/zell/zdb/journal/file/SegmentFile.java:59-93 | the name `<journal>-<id>.log` parses back to id and is a segment file of that journal |
| FrameUtil.HasValidVersion | backend/src/main/kotlin/io/zell/zdb/journal/file/FrameUtil.java:39-44 | no room before the capacity for a version byte means no valid version; a position at or past the limit but below the capacity throws IndexOutOfBounds; otherwise the version is valid when the byte is not 0 |
| FrameUtil.ReadVersion | backend/src/main/kotlin/io/zell/zdb/journal/file/FrameUtil.java:31-33 | reading succeeds iff the position is below the limit, yields the byte as a signed Java byte and advances the position by one; otherwise BufferUnderflow |
| FrameUtil.ValidVersionIsReadable | backend/src/main/kotlin/io/zell/zdb/journal/file/FrameUtil.java:31-44 | a version is valid iff reading it succeeds and gives a non-zero version |
| SegmentDescriptor.LayoutMatchesEncodingLength | backend/src/main/kotlin/io/zell/zdb/journal/file/SegmentDescriptor.java:112-117 | version byte, two headers and two blocks sit back to back and fill exactly `getEncodingLength()` bytes |
| SegmentDescriptor.EqualIsEquivalence | backend/src/main/kotlin/io/zell/zdb/journal/file/SegmentDescriptor.java:158-167 | `equals` compares id, index and max segment size only: it is an equivalence blind to the last index and last position |
| SegmentDescriptor.LongHash | backend/src/main/kotlin/io/zell/zdb/journal/file/SegmentDescriptor.java:153-155 | `Long.hashCode` of a long is an int |
| SegmentDescriptor.LongHashOfInt | backend/src/main/kotlin/io/zell/zdb/journal/file/SegmentDescriptor.java:153-155 | a non-negative long within int range hashes to itself |
| SegmentDescriptor.HashCode | backend/src/main/kotlin/io/zell/zdb/journal/file/SegmentDescriptor.java:153-155 | `Objects.hash(id, index, maxSegmentSize)` is an int |
| SegmentDescriptor.EqualHashCode | backend/src/main/kotlin/io/zell/zdb/journal/file/SegmentDescriptor.java:153-167 | equal descriptors have equal hash codes |
| SparseIndex.IndexRecord | backend/src/main/kotlin/io/zell/zdb/journal/file/SparseJournalIndex.java:38-49 | only records whose index is a multiple of the density are indexed; their position is recorded, and their ASQN in both directions unless it is ASQN_IGNORE; other entries are kept |
| SparseIndex.Lookup | backend/src/main/kotlin/io/zell/zdb/journal/file/SparseJournalIndex.java:51-55 | the indexed record with the greatest index at or below the index, none iff every indexed record lies above |
| SparseIndex.LookupAsqn | backend/src/main/kotlin/io/zell/zdb/journal/file/SparseJournalIndex.java:57-68 | the answer never exceeds the index bound, and is null when every recorded ASQN is above the asked one |
| SparseIndex.HasIndexed | backend/src/main/kotlin/io/zell/zdb/journal/file/SparseJournalIndex.java:70-78 | true iff some record in the window (index - density, index] is indexed |
| SparseIndex.IndexKeepsConsistent | backend/src/main/kotlin/io/zell/zdb/journal/file/SparseJournalIndex.java:38-49 | indexing records with ascending indices and ASQNs keeps the two ASQN maps inverse and ordered alike |
| SparseIndex.LookupAsqnIsGreatestBelow | backend/src/main/kotlin/io/zell/zdb/journal/file/SparseJournalIndex.java:57-68 | on a consistent index, the result is the greatest indexed record within the bound whose ASQN is at most the asked one, and null only when there is none |
| Segments.FirstSegment | backend/src/main/kotlin/io/zell/zdb/journal/file/SegmentsManager.java:90-93 | the stored segment with the least start index; null iff there are no segments |
| Segments.LastSegment | backend/src/main/kotlin/io/zell/zdb/journal/file/SegmentsManager.java:95-98 | the stored segment with the greatest start index; null iff there are no segments |
| Segments.NextSegment | backend/src/main/kotlin/io/zell/zdb/journal/file/SegmentsManager.java:100-103 | the segment with the least start index strictly above the index; null iff none starts above it |
| Segments.GetSegment | backend/src/main/kotlin/io/zell/zdb/journal/file/SegmentsManager.java:105-118 | the current segment when the index lies above its start, otherwise the floor segment, otherwise the first |
| Segments.FloorOrFirst | backend/src/main/kotlin/io/zell/zdb/journal/file/SegmentsManager.java:112-117 | the greatest start index at or below the index, or, when all lie above, the least one |
| Segments.FirstIndex | backend/src/main/kotlin/io/zell/zdb/journal/file/SegmentsManager.java:120-123 | the least start index, or 0 without segments |
| Segments.TailSegments | backend/src/main/kotlin/io/zell/zdb/journal/file/SegmentsManager.java:142-149 | empty when no segment is found; otherwise exactly the stored segments from the found one on, in ascending order |
| Segments.PutAll | backend/src/main/kotlin/io/zell/zdb/journal/file/SegmentsManager.java:129-131 | putting the loaded segments under their start indices keeps the map sorted; its keys become the old keys plus the loaded start indices |
| Segments.Open | backend/src/main/kotlin/io/zell/zdb/journal/file/SegmentsManager.java:127-139 | no loaded segment means IllegalState "Expected to read segments, but there was nothing to read."; otherwise the map holds the loaded segments and the last one is current |
| Segments.GetSegmentAfterOpen | backend/src/main/kotlin/io/zell/zdb/journal/file/SegmentsManager.java:105-139 | after open, the shortcut through the current segment agrees with the floor-or-first lookup |
| Segments.SameKeySameSegment | backend/src/main/kotlin/io/zell/zdb/journal/file/SegmentsManager.java:51 | one start index holds one segment |
| Segments.ReadVersion | backend/src/main/kotlin/io/zell/zdb/journal/file/SegmentsManager.java:223-240 | a read of 0 bytes is a JournalException, EOF (-1) a CorruptedJournalException, both with the "Expected to read the version byte" message; otherwise the first byte as a signed byte |
| Segments.ReadDescriptor | backend/src/main/kotlin/io/zell/zdb/journal/file/SegmentsManager.java:187-221 | a file shorter than its version's descriptor is corrupt, with the formatted message; a short read is a JournalException; a decode out of bounds reports that nothing was read |
| Segments.LoadDescriptor | backend/src/main/kotlin/io/zell/zdb/journal/file/SegmentsManager.java:187-240 | the file is corrupt exactly when its version byte hits EOF or it is shorter than its version requires |
| Segments.Filter | backend/src/main/kotlin/io/zell/zdb/journal/file/SegmentsManager.java:280-281 | keeps exactly the plain files that are segment files of the journal, with their multiplicities |
| Segments.SortById | backend/src/main/kotlin/io/zell/zdb/journal/file/SegmentsManager.java:290 | the result is ordered by segment id and is a permutation of the input; like `Arrays.sort` on objects it is stable, the files of each id keeping their input order |
| Segments.InsertWithId | backend/src/main/kotlin/io/zell/zdb/journal/file/SegmentsManager.java:290 | inserting a file puts it first among the files of its id and keeps the order of the others |
| Segments.SameIdsKeepOrder | backend/src/main/kotlin/io/zell/zdb/journal/file/SegmentsManager.java:290 | files that all carry one id come out of the sort in their listing order |
| Segments.SortedLogSegments | backend/src/main/kotlin/io/zell/zdb/journal/file/SegmentsManager.java:279-293 | an unlistable directory is IllegalState with the "Could not list files" message; otherwise the journal's segment files, each kept, ordered by id, files of the same id in listing order |
| JournalReader.Next | backend/src/main/kotlin/io/zell/zdb/journal/JournalReader.java:22 | the record at the cursor's index, and the cursor moved one past it |
| JournalReader.Seek | backend/src/main/kotlin/io/zell/zdb/journal/JournalReader.java:24-44 | an empty journal is left alone and its first index returned; an index below the first reads the first record; one in range reads that record; one past the end leaves nothing to read and returns last index + 1 |
| JournalReader.SeekToFirst | backend/src/main/kotlin/io/zell/zdb/journal/JournalReader.java:46-59 | returns the first index, and the next record read is the first one |
| JournalReader.SeekToFirstIsSeek | backend/src/main/kotlin/io/zell/zdb/journal/JournalReader.java:50 | `seekToFirst()` equals `seek(getFirstIndex())` |
| JournalReader.SeekToLast | backend/src/main/kotlin/io/zell/zdb/journal/JournalReader.java:61-75 | returns the last index, which on an empty journal lies below the first; otherwise the next record read is the last one |
| JournalReader.SeekToLastIsSeek | backend/src/main/kotlin/io/zell/zdb/journal/JournalReader.java:65 | on a non-empty journal `seekToLast()` equals `seek(getLastIndex())` |
| JournalReader.SeekToAsqnBounded | backend/src/main/kotlin/io/zell/zdb/journal/JournalReader.java:96-107 | lands on the last record with ASQN at most asqn and index at most the bound; without one it behaves as `seekToFirst()` |
| JournalReader.SeekToAsqn | backend/src/main/kotlin/io/zell/zdb/journal/JournalReader.java:77-94 | the unbounded seek is the bounded one for any bound at or past the last index |
| JournalReader.SeekToAsqnFindsHighest | backend/src/main/kotlin/io/zell/zdb/journal/JournalReader.java:77-83 | when ASQNs ascend, the record reached has the highest ASQN at most asqn |
| SbeSerializer.MetadataLengthAt | backend/src/main/kotlin/io/zell/zdb/journal/record/SBESerializer.java:61-64 | only the 2-byte block length is read: the length succeeds exactly when those two bytes lie in the buffer, and over a whole header it is the header length plus the announced block length |
| SbeSerializer.ReadMetadata | backend/src/main/kotlin/io/zell/zdb/journal/record/SBESerializer.java:28-40 | the schema id is read and checked before anything else: a foreign one is a CorruptedJournal "Cannot read metadata. Header does not match." even when the rest of the header is cut off; a matching header has the block behind it decoded |
| SbeSerializer.ReadData | backend/src/main/kotlin/io/zell/zdb/journal/record/SBESerializer.java:42-58 | the schema id is read and checked before anything else: a foreign one is a CorruptedJournal "Cannot read record. Header does not match." even when the rest of the header is cut off; a matching header has the block behind it decoded |
| SbeSerializer.CheckHeader | backend/src/main/kotlin/io/zell/zdb/journal/record/SBESerializer.java:66-70 | each header field is read on its own: the schema id first, then the template id, a mismatch being a corrupted journal and a short buffer IndexOutOfBounds; the header passes exactly when it is whole and of the codec |
| SbeSerializer.ShortForeignHeaderIsRejected | backend/src/main/kotlin/io/zell/zdb/journal/record/SBESerializer.java:28-32 | with six bytes left and a foreign schema id, `readMetadata` reports a corrupted journal although the whole header cannot be read |
| SbeSerializer.WrittenMetadataIsAccepted | backend/src/main/kotlin/io/zell/zdb/journal/record/SBESerializer.java:23-40 | a metadata header written at an offset announces the fixed metadata length and is accepted by `readMetadata` |
| SbeSerializer.ForeignHeaderIsRejected | backend/src/main/kotlin/io/zell/zdb/journal/record/SBESerializer.java:66-70 | a header with another schema or template is rejected as corrupted |
| LegacyCodec.FieldsTileBlock | backend/src/main/kotlin/io/zell/zdb/log/records/old/RecordMetadataEncoderBefore83.java:31-478 | the primitive fields sit side by side without overlap, and with the broker version fill the 30-byte block |
| LegacyCodec.FieldRoundTrip | backend/src/main/kotlin/io/zell/zdb/log/records/old/RecordMetadataEncoderBefore83.java:155-440 | a field reads back as the written value narrowed to the field's width, as Java's casts do |
| LegacyCodec.FieldRoundTripInRange | backend/src/main/kotlin/io/zell/zdb/log/records/old/RecordMetadataDecoderBefore83.java:170-470 | a value within the field's range reads back unchanged |
| LegacyCodec.EncWrap | backend/src/main/kotlin/io/zell/zdb/log/records/old/RecordMetadataEncoderBefore83.java:84-95 | wrapping puts the limit one block length behind the offset |
| LegacyCodec.EncWrapAndApplyHeader | backend/src/main/kotlin/io/zell/zdb/log/records/old/RecordMetadataEncoderBefore83.java:97-108 | writes the header (block length 30, template 200, schema version 3) at the offset and wraps the block behind it; out of bounds otherwise |
| LegacyCodec.EncSet | backend/src/main/kotlin/io/zell/zdb/log/records/old/RecordMetadataEncoderBefore83.java:155-440 | a setter succeeds iff the field lies in the buffer and changes neither offset, limit nor buffer length |
| LegacyCodec.EncSetBrokerVersion | backend/src/main/kotlin/io/zell/zdb/log/records/old/RecordMetadataEncoderBefore83.java:471-477 | the broker version is written at offset 18 of the block |
| LegacyCodec.EncPutRejectionReason | backend/src/main/kotlin/io/zell/zdb/log/records/old/RecordMetadataEncoderBefore83.java:504-534 | writes the length as a little-endian int at the limit and the bytes behind it, moving the limit past both and leaving the rest |
| LegacyCodec.EncRejectionReason | backend/src/main/kotlin/io/zell/zdb/log/records/old/RecordMetadataEncoderBefore83.java:536-553 | a null or empty string writes a zero length; otherwise its bytes are put |
| LegacyCodec.DecWrap | backend/src/main/kotlin/io/zell/zdb/log/records/old/RecordMetadataDecoderBefore83.java:71-88 | the limit is the acting block length behind the offset |
| LegacyCodec.DecWrapAndApplyHeader | backend/src/main/kotlin/io/zell/zdb/log/records/old/RecordMetadataDecoderBefore83.java:90-108 | the template id is read first: one other than 200 throws IllegalState "Invalid TEMPLATE_ID: <id>" even when the rest of the header is cut off; otherwise wraps with the header's block length and version; the schema id is not checked |
| LegacyCodec.DecRewind | backend/src/main/kotlin/io/zell/zdb/log/records/old/RecordMetadataDecoderBefore83.java:110-113 | rewinding puts the limit back one acting block length behind the offset |
| LegacyCodec.DecGet | backend/src/main/kotlin/io/zell/zdb/log/records/old/RecordMetadataDecoderBefore83.java:170-470 | a getter reads its field at the fixed offset and the value lies in the field's range; out of bounds otherwise |
| LegacyCodec.DecBrokerVersion | backend/src/main/kotlin/io/zell/zdb/log/records/old/RecordMetadataDecoderBefore83.java:497-508 | null for acting versions below 2; otherwise the 12 bytes at offset 18 |
| LegacyCodec.DecRejectionReasonLength | backend/src/main/kotlin/io/zell/zdb/log/records/old/RecordMetadataDecoderBefore83.java:540-544 | the little-endian int at the limit, as a signed int |
| LegacyCodec.DecSkipRejectionReason | backend/src/main/kotlin/io/zell/zdb/log/records/old/RecordMetadataDecoderBefore83.java:546-555 | returns the length and moves the limit past header and data |
| LegacyCodec.DecGetRejectionReason | backend/src/main/kotlin/io/zell/zdb/log/records/old/RecordMetadataDecoderBefore83.java:557-579 | copies min(length, data length) bytes and moves the limit past the whole data |
| LegacyCodec.DecRejectionReason | backend/src/main/kotlin/io/zell/zdb/log/records/old/RecordMetadataDecoderBefore83.java:590-606 | a zero length gives the empty reason, a negative one fails to allocate, a positive one reads that many bytes; the limit moves past the data |
| LegacyCodec.DecDecodedLength | backend/src/main/kotlin/io/zell/zdb/log/records/old/RecordMetadataDecoderBefore83.java:115-123 | the acting block length plus the reason header and the reason length, measured from a rewound decoder |
| LegacyCodec.HeaderAccepted | backend/src/main/kotlin/io/zell/zdb/log/records/old/RecordMetadataDecoderBefore83.java:90-108 | the header the encoder applies is accepted by the decoder, which wraps the block where the encoder did |
| LegacyCodec.SetThenGet | backend/src/main/kotlin/io/zell/zdb/log/records/old/RecordMetadataDecoderBefore83.java:170-470 | a field set by the encoder reads back, narrowed to its width |
| LegacyCodec.PutThenReadReason | backend/src/main/kotlin/io/zell/zdb/log/records/old/RecordMetadataDecoderBefore83.java:590-606 | a reason put by the encoder reads back whole, and both limits end at the same place |
| LegacyCodec.DecodedLengthIsEncodedLength | backend/src/main/kotlin/io/zell/zdb/log/records/old/RecordMetadataDecoderBefore83.java:115-128 | the decoded length of a freshly encoded message is the encoder's encoded length |
| LegacyMetadata.Reset | backend/src/main/kotlin/io/zell/zdb/log/records/old/RecordMetadataBefore83.java:226-238 | every field is back at its null value, with no intent and an empty rejection reason |
| LegacyMetadata.SetIntent | backend/src/main/kotlin/io/zell/zdb/log/records/old/RecordMetadataBefore83.java:174-178 | sets the intent and the intent value together and nothing else |
| LegacyMetadata.Write | backend/src/main/kotlin/io/zell/zdb/log/records/old/RecordMetadataBefore83.java:101-136 | writing fits in the buffer or fails out of bounds, and never changes the buffer's length |
| LegacyMetadata.Image | backend/src/main/kotlin/io/zell/zdb/log/records/old/RecordMetadataBefore83.java:94-98 | the written image is `getLength()` bytes long: block, reason header and reason |
| LegacyMetadata.BlockField | backend/src/main/kotlin/io/zell/zdb/log/records/old/RecordMetadataBefore83.java:114-127 | each field's bytes in the block are the bytes written for its value, the intent value standing for the intent, and the broker version sits at the end |
| LegacyMetadata.WriteIsImage | backend/src/main/kotlin/io/zell/zdb/log/records/old/RecordMetadataBefore83.java:101-136 | `write` puts exactly the image at the offset and leaves the rest of the buffer alone |
| LegacyMetadata.WrapDecoder | backend/src/main/kotlin/io/zell/zdb/log/records/old/RecordMetadataBefore83.java:59-63 | the decoder is wrapped behind the header with the header's block length and version; the template is not checked |
| LegacyMetadata.ReadReason | backend/src/main/kotlin/io/zell/zdb/log/records/old/RecordMetadataBefore83.java:83-90 | only a positive length wraps a rejection reason, as a view of the bytes behind the length; zero, and a negative length, leave it empty; a length field past the buffer is out of bounds, and a positive length running past the buffer is an IllegalArgumentException of the view |
| LegacyMetadata.Assemble | backend/src/main/kotlin/io/zell/zdb/log/records/old/RecordMetadataBefore83.java:65-81 | the read fields go into a reset record: the intent is set, the intent value stays NULL_VAL, and a missing broker version becomes UNKNOWN |
| LegacyMetadata.Wrap | backend/src/main/kotlin/io/zell/zdb/log/records/old/RecordMetadataBefore83.java:56-91 | as written, `wrap` fails out of bounds, or with IllegalArgumentException only once every field and a positive reason length are read, and always leaves the intent value at NULL_VAL |
| LegacyMetadata.WrapAfterWrite | backend/src/main/kotlin/io/zell/zdb/log/records/old/RecordMetadataBefore83.java:56-136 | `wrap` after `write` restores every field except the intent value |
| LegacyMetadata.WrapLosesIntentValue | backend/src/main/kotlin/io/zell/zdb/log/records/old/RecordMetadataBefore83.java:56-136 | a record whose intent value is not NULL_VAL does not equal its own round trip |
| LegacyMetadata.WrapLosesIntentValueExample | backend/src/main/kotlin/io/zell/zdb/log/records/old/RecordMetadataBefore83.java:56-136 | a concrete record with intent 1 whose round trip reads an intent value of 255 |
| LegacyMetadata.WrapFixed | backend/src/main/kotlin/io/zell/zdb/log/records/old/RecordMetadataBefore83.java:56-91 | the corrected `wrap` keeps the intent value next to the intent |
| LegacyMetadata.WrapFixedOnlyKeepsIntentValue | backend/src/main/kotlin/io/zell/zdb/log/records/old/RecordMetadataBefore83.java:56-91 | the corrected `wrap` fails exactly when `wrap` does and differs from it only in the intent value |
| LegacyMetadata.WrapFixedAfterWrite | backend/src/main/kotlin/io/zell/zdb/log/records/old/RecordMetadataBefore83.java:56-136 | with the intent value kept, `wrap` after `write` gives back a record equal to the one written |
| LegacyMetadata.ReadImage | backend/src/main/kotlin/io/zell/zdb/log/records/old/RecordMetadataBefore83.java:56-91 | the raw fields and the reason of a written image read back |
| LogHelper.ConvertToTypedEvent | backend/src/main/kotlin/io/zell/zdb/log/LogHelper.kt:33-52 | the partition comes from the event's key, the metadata is kept, and the value is read through the registry's class for the value type, or is null when the registry has none |
| LogHelper.ConversionKeepsEvent | backend/src/main/kotlin/io/zell/zdb/log/LogHelper.kt:33-52 | the typed event keeps the logged event's position, source position, timestamp and key, whatever the value type |
| LogHelper.UnknownValueTypeGivesNullValue | backend/src/main/kotlin/io/zell/zdb/log/LogHelper.kt:39-44 | an unknown value type is no error: the typed event is complete except for its value |
| LogReader.Frames | backend/src/main/kotlin/io/zell/zdb/log/LogContentReader.kt:49-62 | the do-while framing loop wraps the first event at the offset whatever the buffer's size, and fails with the first wrap's error |
| LogReader.FramesAreChained | backend/src/main/kotlin/io/zell/zdb/log/LogContentReader.kt:49-62 | the loop yields a run of events exactly when each starts where the one before ends, every one but the last ends inside the buffer and the last reaches its end |
| LogReader.TypedEvents | backend/src/main/kotlin/io/zell/zdb/log/LogContentReader.kt:49-62 | one typed event per framed event, in buffer order, each converted with its own metadata |
| LogReader.ToPersistedRecord | backend/src/main/kotlin/io/zell/zdb/log/LogContentReader.kt:39-67 | a control entry gives a Raft record of its index and term; an application entry gives a record with its index, term, both positions and its typed events |
| LogReader.ToPersistedRecords | backend/src/main/kotlin/io/zell/zdb/log/LogContentReader.kt:69-75 | the records of the entries in order, succeeding exactly when every entry converts |
| LogReader.Remaining | backend/src/main/kotlin/io/zell/zdb/log/LogContentReader.kt:30-37 | the entries a reader has yet to return, from its next index to the journal's last |
| LogReader.ReadAll | backend/src/main/kotlin/io/zell/zdb/log/LogContentReader.kt:69-75 | `readAll` converts every remaining entry in order and leaves the reader drained |
| LogReader.PrefixAppend | backend/src/main/kotlin/io/zell/zdb/log/LogContentReader.kt:71-73 | converting one more entry appends its record to the records so far |
| LogReader.PrefixThrows | backend/src/main/kotlin/io/zell/zdb/log/LogContentReader.kt:71-73 | the first entry that fails to convert makes `readAll` fail with its error |
| LogReader.SeekToPosition | backend/src/main/kotlin/io/zell/zdb/log/LogContentReader.kt:77-79 | the entries left to read start at the last entry with an ASQN at most the position, no later entry having one; in a log of ascending ASQNs that entry has the highest such ASQN; without one the whole journal is left to read |
| LogReader.SeekToAsqnLands | backend/src/main/kotlin/io/zell/zdb/log/LogContentReader.kt:77-79 | the unbounded ASQN seek leaves to read the entries from the last one with an ASQN at most the position, or the whole journal without one |
| LogReader.SeekToIndex | backend/src/main/kotlin/io/zell/zdb/log/LogContentReader.kt:81-83 | after seeking to an index in the journal, the remaining entries start at that index |
| LogContent.AddEntryToContent | backend/src/main/kotlin/io/zell/zdb/log/LogContent.kt:31-60 | one record is appended for the entry, of the entry's index and term, an application record exactly for an application entry; a control entry always succeeds |
| LogContent.AddEntryIsConversion | backend/src/main/kotlin/io/zell/zdb/log/LogContent.kt:31-60 | the record appended is the one the content reader makes of the same entry |
| LogContent.ToString | backend/src/main/kotlin/io/zell/zdb/log/LogContent.kt:65-67 | the records sit inside a `records` array, which is empty for no records |
| LogContent.DotEvents | backend/src/main/kotlin/io/zell/zdb/log/LogContent.kt:76-78 | the events of the application records in order; no records have none |
| LogContent.DotEdge | backend/src/main/kotlin/io/zell/zdb/log/LogContent.kt:110-116 | an edge is drawn exactly when the event has a source position other than -1 |
| LogContent.ProcessInstanceLines | backend/src/main/kotlin/io/zell/zdb/log/LogContent.kt:97-103 | only process-instance events add label lines, and they fail the cast unless their value is a process-instance record |
| LogContent.DotNode | backend/src/main/kotlin/io/zell/zdb/log/LogContent.kt:87-117 | a node starts with the event's position and label and ends with its edge to the source position, or with the label's end when there is none |
| LogContent.DotNodes | backend/src/main/kotlin/io/zell/zdb/log/LogContent.kt:79-81 | rendering fails exactly when one event fails; no events give no text |
| LogContent.DotNodesConcat | backend/src/main/kotlin/io/zell/zdb/log/LogContent.kt:79-81 | the nodes of two runs of events are the first run's nodes followed by the second's |
| LogContent.DotNodesAppend | backend/src/main/kotlin/io/zell/zdb/log/LogContent.kt:79-81 | one more event adds exactly its own node after the nodes so far, so the text is the events' nodes in order |
| LogContent.AsDotFile | backend/src/main/kotlin/io/zell/zdb/log/LogContent.kt:69-85 | the graph is the header, the nodes of all application records' events and the closing brace |
| LogContent.RaftRecordsAddNoNodes | backend/src/main/kotlin/io/zell/zdb/log/LogContent.kt:76-78 | a Raft record leaves the graph as it was |
| LogContent.ApplicationRecordAddsItsEvents | backend/src/main/kotlin/io/zell/zdb/log/LogContent.kt:76-78 | an application record adds exactly its own events after the earlier ones |
| LogContent.EmptyDotFile | backend/src/main/kotlin/io/zell/zdb/log/LogContent.kt:69-85 | no records give the bare header and closing brace |
| LogSearch.FirstWithPosition | backend/src/main/kotlin/io/zell/zdb/log/LogSearch.kt:49-57 | the first event of the run with the position, and none exactly when no event has it |
| LogSearch.FindPosition | backend/src/main/kotlin/io/zell/zdb/log/LogSearch.kt:48-57 | the search returns only an event of the position sought, checks each event before its length, and fails with the wrap's error |
| LogSearch.FindPositionInFrames | backend/src/main/kotlin/io/zell/zdb/log/LogSearch.kt:48-57 | over a buffer that frames, the search finds the first framed event of the position, or nothing |
| LogSearch.SearchPosition | backend/src/main/kotlin/io/zell/zdb/log/LogSearch.kt:31-62 | a position of zero or less finds nothing; only the entry the ASQN seek lands on is searched, and a control entry or no entry finds nothing |
| LogSearch.SearchPositionFindsFirst | backend/src/main/kotlin/io/zell/zdb/log/LogSearch.kt:36-57 | on an application entry the search returns the typed event of the entry's first event of that position |
| LogSearch.SearchIndex | backend/src/main/kotlin/io/zell/zdb/log/LogSearch.kt:64-79 | an index of zero or less, or past the last index, finds nothing; otherwise a content of one record, for the index sought or for the first index when the index is before the journal |
| LogSearch.SearchIndexIsConversion | backend/src/main/kotlin/io/zell/zdb/log/LogSearch.kt:69-77 | the content found holds the record the content reader makes of the entry at the index, and fails exactly when that conversion fails |
| LogColumns.EntryAsColumn | backend/src/main/kotlin/io/zell/zdb/log/ApplicationRecord.kt:38-73 | the column starts with the position; it ends with the intent, or with a separator after a process-instance-related value |
| LogColumns.ColumnIsJoin | backend/src/main/kotlin/io/zell/zdb/log/ApplicationRecord.kt:38-73 | the column is its seven fields, then the process instance key and the element type when the value has them, joined by single spaces |
| LogColumns.SplitColumn | backend/src/main/kotlin/io/zell/zdb/log/ApplicationRecord.kt:38-73 | cutting a column at its spaces gives back exactly the fields it was made of |
| LogColumns.AsColumnString | backend/src/main/kotlin/io/zell/zdb/log/ApplicationRecord.kt:75-82 | a record without events renders as nothing |
| LogColumns.ColumnStringLines | backend/src/main/kotlin/io/zell/zdb/log/ApplicationRecord.kt:75-82 | the rendering cut at its line ends gives one line per event, in order, each the index and term followed by the event's column |
| LogColumns.ToString | backend/src/main/kotlin/io/zell/zdb/log/ApplicationRecord.kt:33-36 | the record renders as a JSON object opening with its index and term and closing its entries array |
| RecordColumns.EntryAsColumn | backend/src/main/kotlin/io/zell/zdb/log/records/ApplicationRecord.kt:42-77 | the column starts with the position and ends with the intent, or with a separator once a key or a type has been shown |
| RecordColumns.Tokens | backend/src/main/kotlin/io/zell/zdb/log/records/ApplicationRecord.kt:42-77 | with no key shown, a shown element type is glued to the intent with no separator between them |
| RecordColumns.ColumnIsJoin | backend/src/main/kotlin/io/zell/zdb/log/records/ApplicationRecord.kt:42-77 | the column is its tokens joined by single spaces |
| RecordColumns.SplitColumn | backend/src/main/kotlin/io/zell/zdb/log/records/ApplicationRecord.kt:42-77 | cutting a column at its spaces gives back its tokens, seven for a record without a process-instance summary |
| RecordColumns.SplitLine | backend/src/main/kotlin/io/zell/zdb/log/records/ApplicationRecord.kt:79-86 | a table line cuts into the index, the term and the column's tokens |
| RecordColumns.AsColumnString | backend/src/main/kotlin/io/zell/zdb/log/records/ApplicationRecord.kt:79-86 | a record without events renders as nothing; otherwise the first line opens the text and a line end closes it |
| RecordColumns.ColumnStringLines | backend/src/main/kotlin/io/zell/zdb/log/records/ApplicationRecord.kt:79-86 | the rendering cut at its line ends gives one line per event, in order, each the index and term followed by the event's column, and nothing after the last line end |
| RecordColumns.EntriesAsJson | backend/src/main/kotlin/io/zell/zdb/log/records/ApplicationRecord.kt:35-39 | no entries give nothing and one entry gives its own JSON |
| RecordColumns.EntriesAsJsonAppend | backend/src/main/kotlin/io/zell/zdb/log/records/ApplicationRecord.kt:35-39 | one more entry adds ", " and its JSON |
| RecordColumns.ToString | backend/src/main/kotlin/io/zell/zdb/log/records/ApplicationRecord.kt:30-33 | the record renders as a JSON object opening with its index and term and closing with its entries' JSON |
| LogWriter.Columns | backend/src/main/kotlin/io/zell/zdb/log/LogWriter.kt:13-17 | one column string per record, in order |
| LogWriter.EmptyTable | backend/src/main/kotlin/io/zell/zdb/log/LogWriter.kt:8-19 | with no records the table is the title line alone |
| LogWriter.TableAppend | backend/src/main/kotlin/io/zell/zdb/log/LogWriter.kt:13-17 | each further record adds exactly its column string, the separator always being empty |
| LogWriter.WriteAsTable | backend/src/main/kotlin/io/zell/zdb/log/LogWriter.kt:8-19 | the table succeeds exactly when every remaining entry converts, is the table of those records, and leaves the reader drained |
| LogWriter.Print | backend/src/main/kotlin/io/zell/zdb/log/LogWriter.kt:13-17 | the printing loop builds the table of the records it is given |
| LogFactory.ExtractPartitionNameFromPath | backend/src/main/kotlin/io/zell/zdb/log/LogFactory.kt:49-60 | a name that is not an integer throws IllegalArgumentException with the path; otherwise the partition name holds the parsed integer |
| LogFactory.PartitionNameOfId | backend/src/main/kotlin/io/zell/zdb/log/LogFactory.kt:49-60 | a directory named by an integer gives that integer back in the partition name |
| LogFactory.PartitionNameDropsLeadingZero | backend/src/main/kotlin/io/zell/zdb/log/LogFactory.kt:49-60 | a leading zero in the directory's name is dropped from the partition name |
| LogFactory.NewReaderConfig | backend/src/main/kotlin/io/zell/zdb/log/LogFactory.kt:33-47 | the reader is configured on the directory with the partition name and a 128 MiB maximum segment size, and fails exactly when the name does |
| LogStatus.StatusIsExtremes | backend/src/main/kotlin/io/zell/zdb/log/LogStatus.kt:26-58 | the details are the highest term, the extreme indices over every entry and the extreme record positions over the application entries, each from its sentinel, with the count and the sizes left at their initial values |
| LogStatus.PositionsFromApplicationsOnly | backend/src/main/kotlin/io/zell/zdb/log/LogStatus.kt:45-54 | a control entry never moves the record positions |
| LogStatus.EmptyStatus | backend/src/main/kotlin/io/zell/zdb/log/LogStatusDetails.kt:8-17 | with no entries every field keeps its sentinel: the lowest index at the long maximum, the highest at the long minimum |
| LogStatus.IndexRange | backend/src/main/kotlin/io/zell/zdb/log/LogStatus.kt:36-43 | over at least one entry, the lowest index is at most the highest and both are indices of entries |
| StatusScanner.ScanIsExtremes | zdb/src/main/java/io/zeebe/zdb/impl/log/LogStatus.java:79-152 | the scanner keeps the extreme indices and sizes over every entry and the extreme record positions over the Zeebe entries, counts every entry, and keeps the initialize entries' texts in order |
| StatusScanner.EmptyScan | zdb/src/main/java/io/zeebe/zdb/impl/log/LogStatus.java:64-72 | with no entries every field keeps its sentinel |
| StatusScanner.InitialEntriesText | zdb/src/main/java/io/zeebe/zdb/impl/log/LogStatus.java:181-185 | the report shows the fixed sentence exactly when no initialize entry was kept, the bracketed list otherwise |
| StatusScanner.NoInitialEntriesIff | zdb/src/main/java/io/zeebe/zdb/impl/log/LogStatus.java:88-89 | the report has no initial entries exactly when the log holds no initialize entry |
| LogScanner.ProcessIndex | zdb/src/main/java/io/zeebe/impl/LogScanner.java:163-176 | an index that is not the successor of the last accepted one, unless nothing was accepted yet, sets the flag and is reported; otherwise it becomes the last accepted index |
| LogScanner.ProcessZeebeEntry | zdb/src/main/java/io/zeebe/impl/LogScanner.java:115-147 | a lowest position above the highest, and a lowest position below the last entry's highest, are each reported, and only those, without setting the flag; the last position becomes the entry's highest and the lowest position moves down |
| LogScanner.ConsistentIffConsecutive | zdb/src/main/java/io/zeebe/impl/LogScanner.java:82-98 | the log is reported consistent exactly when its indices are consecutive, the last accepted index being the last entry's |
| LogScanner.FirstIndexAccepted | zdb/src/main/java/io/zeebe/impl/LogScanner.java:164-165 | the first entry is always accepted, whatever its index |
| LogScanner.FlagFromIndicesOnly | zdb/src/main/java/io/zeebe/impl/LogScanner.java:115-147 | the flag and the last accepted index depend on the indices alone |
| LogScanner.ScanPositions | zdb/src/main/java/io/zeebe/impl/LogScanner.java:115-161 | the last position is the last Zeebe entry's highest, the lowest position the minimum of their lowest, the largest size starts at zero, and every entry is counted |
| LogScanner.IndexFields | zdb/src/main/java/io/zeebe/impl/LogScanner.java:82-98 | what one entry does to the positions, the largest size and the count |
| LogScanner.Verdict | zdb/src/main/java/io/zeebe/impl/LogScanner.java:180-183 | the red verdict is printed exactly when the flag is set |
| LogScanner.ReportsInconsistentIff | zdb/src/main/java/io/zeebe/impl/LogScanner.java:178-183 | the report calls the log inconsistent exactly when its indices are not consecutive |
| LogScanner.ScanPartitionName | zdb/src/main/java/io/zeebe/impl/LogScanner.java:25-33 | the partition name, and the failure for a name that is not an integer, are those the log factory derives |
| ScanSearch.SearchIndexFrom | zdb/src/main/java/io/zeebe/zdb/impl/log/LogSearch.java:88-139 | the walk stops at the first entry whose index is at least the one sought: not in the log when it is past it, found when it is equal; otherwise it reaches the end having counted every entry |
| ScanSearch.SearchIndex | zdb/src/main/java/io/zeebe/zdb/impl/log/LogSearch.java:85-140 | from a reset reader: the first entry at or past the index decides, and the end of the log reports every entry counted and the last index seen, 0 for an empty log |
| ScanSearch.SearchIndexInAscendingLog | zdb/src/main/java/io/zeebe/zdb/impl/log/LogSearch.java:85-140 | in a log of ascending indices the entry with the index is found when there is one, and an index before the log reports the log's first index |
| ScanSearch.LastRecordPosition | zdb/src/main/java/io/zeebe/zdb/impl/log/LogSearch.java:199-201 | the last position seen is the sentinel or the highest position of a Zeebe entry |
| ScanSearch.SearchPositionFrom | zdb/src/main/java/io/zeebe/zdb/impl/log/LogSearch.java:160-219 | only Zeebe entries are looked at; the first whose highest position reaches the one sought ends the walk, found when its lowest position is not above it and not found otherwise |
| ScanSearch.LastAfterZeebe | zdb/src/main/java/io/zeebe/zdb/impl/log/LogSearch.java:199-201 | after a Zeebe entry the last position seen is its highest unless a later Zeebe entry follows |
| ScanSearch.LastAfterOther | zdb/src/main/java/io/zeebe/zdb/impl/log/LogSearch.java:199-204 | an entry that is not a Zeebe entry leaves the last position as it was |
| ScanSearch.SearchPosition | zdb/src/main/java/io/zeebe/zdb/impl/log/LogSearch.java:157-220 | from a reset reader: the first Zeebe entry reaching the position decides, found exactly when its lowest position is not above it; the end of the log reports every entry counted |
| ScanSearch.ProcessEntry | zdb/src/main/java/io/zeebe/zdb/impl/log/LogSearch.java:222-254 | the event scan returns only an event of the position sought |
| ScanSearch.ProcessEntryAgreesWithLogSearch | zdb/src/main/java/io/zeebe/zdb/impl/log/LogSearch.java:229-245 | the event scan finds the same event as the log view's position search, and fails the same way |
| ScanSearch.SearchPositionWithEvents | zdb/src/main/java/io/zeebe/zdb/impl/log/LogSearch.java:168-181 | the events of an entry are scanned exactly when the entry holds the position |
| StatusScanner.DescribeOnlyTexts | zdb/src/main/java/io/zeebe/impl/log/LogStatus.java:57-130 | the older command's scanner keeps the same counters as the newer one, differing only in how an initialize entry is shown |
| StatusScanner.InitialTexts | zdb/src/main/java/io/zeebe/impl/log/LogStatus.java:66-70 | an initialize entry's text is kept, in order, and none is kept exactly when the log holds no initialize entry |
| StatusScanner.ArrayText | zdb/src/main/java/io/zeebe/impl/log/LogStatus.java:159-163 | the list of initialize-entry texts is shown between brackets |
| ScanSearch.SearchIndexPastLog | zdb/src/main/java/io/zeebe/impl/log/LogSearch.java:111-127 | an index past the last one of an ascending log reaches the end, having counted every entry, with the log's last index |
| ScanSearch.FirstHoldingEntryFound | zdb/src/main/java/io/zeebe/impl/log/LogSearch.java:144-158 | the first Zeebe entry whose positions enclose the one sought is reported, when no Zeebe entry before it reaches the position |
| ZeebePaths.LogPath | kotlin-zdb/src/main/kotlin/io/zell/zdb/ZeebePaths.kt:17-22 | a partition given as a plain name is the log path's last name |
| ZeebePaths.PartitionPaths | kotlin-zdb/src/main/kotlin/io/zell/zdb/ZeebePaths.kt:9-22 | the log path is the data directory followed by raft-partition, partitions and the partition; the runtime path adds runtime |
| ZeebePaths.RuntimeInsideLog | kotlin-zdb/src/main/kotlin/io/zell/zdb/ZeebePaths.kt:9-22 | the runtime path is the log path resolved against runtime |
| FamilyKeys.FamilyPrefix | backend/src/main/kotlin/io/zell/zdb/db/readonly/transaction/ColumnFamilyContext.java:50-56 | a family prefix is eight bytes long |
| FamilyKeys.DecodeFamily | backend/src/main/kotlin/io/zell/zdb/state/ZeebeDbReader.kt:125-127 | a key shorter than a long, or whose leading long narrowed to an int is no family index, throws out of bounds; otherwise the family is that index |
| FamilyKeys.DecodeFamilyOfPrefix | backend/src/main/kotlin/io/zell/zdb/state/ZeebeDbReader.kt:86-91 | the family read back from a key that starts with a family's prefix is that family, or out of bounds for an ordinal outside the constants |
| FamilyKeys.PrefixInjective | backend/src/main/kotlin/io/zell/zdb/state/ZeebeDbReader.kt:86-91 | distinct families have distinct prefixes |
| FamilyKeys.WriteKey | backend/src/main/kotlin/io/zell/zdb/db/readonly/transaction/ColumnFamilyContext.java:50-56 | a written key is the family prefix followed by the key, eight bytes longer than the key |
| FamilyKeys.KeyView | backend/src/main/kotlin/io/zell/zdb/db/readonly/transaction/ColumnFamilyContext.java:74-85 | the key view is the key without its family prefix, and is null for a missing key or one that is only the prefix |
| FamilyKeys.WriteKeyRoundTrip | backend/src/main/kotlin/io/zell/zdb/db/readonly/transaction/ColumnFamilyContext.java:50-85 | a written key takes apart into its family and its key again |
| PrefixPool.Nested | backend/src/main/kotlin/io/zell/zdb/db/readonly/transaction/ColumnFamilyContext.java:107-123 | nested prefix iterations succeed up to the number of free buffers and throw the nested-iteration IllegalStateException beyond it, and every buffer taken is given back |
| Keyspace.Seek | backend/src/main/kotlin/io/zell/zdb/db/readonly/transaction/RocksDbInternal.java:71-80 | the seek lands on the first pair whose key is not below the target |
| Keyspace.GetIsSeek | backend/src/main/kotlin/io/zell/zdb/db/readonly/transaction/TransactionalColumnFamily.java:87-101 | in a sorted keyspace a lookup finds a key exactly when a seek to it lands on it |
| Keyspace.Get | backend/src/main/kotlin/io/zell/zdb/db/readonly/transaction/TransactionalColumnFamily.java:87-101 | the lookup gives the value stored under the key, or nothing when no pair has it |
| Keyspace.View | backend/src/main/kotlin/io/zell/zdb/db/readonly/transaction/ColumnFamilyContext.java:91-105 | a missing value and an empty one both read as null |
| Keyspace.Scan | backend/src/main/kotlin/io/zell/zdb/db/readonly/transaction/TransactionalColumnFamily.java:271-320 | the walk visits pairs in order while their keys carry the prefix and the visitor asks for more, and a pair without a key or value view stops it with that failure |
| Keyspace.PrefixWalkIsMatching | backend/src/main/kotlin/io/zell/zdb/db/readonly/transaction/TransactionalColumnFamily.java:271-303 | from the seek position, a walk whose visitor never stops visits exactly the pairs whose keys carry the prefix, in key order |
| Keyspace.StoppedWalk | backend/src/main/kotlin/io/zell/zdb/db/readonly/transaction/TransactionalColumnFamily.java:163-174 | a visitor that stops at once sees at most one pair, and sees none exactly when no key carries the prefix |
| TransactionalColumnFamily.Get | backend/src/main/kotlin/io/zell/zdb/db/readonly/transaction/TransactionalColumnFamily.java:77-101 | the value under the family's key, present exactly when a non-empty value is stored there |
| TransactionalColumnFamily.Exists | backend/src/main/kotlin/io/zell/zdb/db/readonly/transaction/TransactionalColumnFamily.java:151-160 | a key exists exactly when a non-empty value is stored under it |
| TransactionalColumnFamily.WhileEqualPrefix | backend/src/main/kotlin/io/zell/zdb/db/readonly/transaction/TransactionalColumnFamily.java:273-303 | every pair visited is in the family, its key carrying the prefix; the walk fails exactly when the keyspace walk does, with the runtime exception the transaction context wraps it in |
| TransactionalColumnFamily.WhileEqualPrefixIsMatching | backend/src/main/kotlin/io/zell/zdb/db/readonly/transaction/TransactionalColumnFamily.java:271-303 | a walk whose visitor never stops visits exactly the family's pairs whose keys carry the prefix, keys without the family prefix |
| TransactionalColumnFamily.WhileTrue | backend/src/main/kotlin/io/zell/zdb/db/readonly/transaction/TransactionalColumnFamily.java:189-192 | every pair visited is in the family; a failure is the transaction context's runtime exception |
| TransactionalColumnFamily.WhileTrueFrom | backend/src/main/kotlin/io/zell/zdb/db/readonly/transaction/TransactionalColumnFamily.java:114-116 | the start key is ignored: the walk covers the whole family; a failure is the transaction context's runtime exception |
| TransactionalColumnFamily.ForEach | backend/src/main/kotlin/io/zell/zdb/db/readonly/transaction/TransactionalColumnFamily.java:176-187 | every pair visited is in the family; a failure is the transaction context's runtime exception |
| TransactionalColumnFamily.ForEachVisitsFamily | backend/src/main/kotlin/io/zell/zdb/db/readonly/transaction/TransactionalColumnFamily.java:176-187 | `forEach` visits every pair of the family, in key order, and no other |
| TransactionalColumnFamily.IsEmpty | backend/src/main/kotlin/io/zell/zdb/db/readonly/transaction/TransactionalColumnFamily.java:163-174 | a family is empty exactly when no key carries its prefix; a first pair without views throws RuntimeException("Unexpected error occurred during zeebe db transaction operation.") |
| TransactionalColumnFamily.InTransaction | backend/src/main/kotlin/io/zell/zdb/db/readonly/transaction/DefaultTransactionContext.java:32-44 | a recoverable exception passes as it is; any other is rethrown as a runtime exception, with the operation-error message unless it is a RocksDB exception |
| TransactionalColumnFamily.InTransactionWalk | backend/src/main/kotlin/io/zell/zdb/db/readonly/transaction/TransactionalColumnFamily.java:55-59 | a walk run inside the transaction context keeps the pairs it visited and fails exactly when the walk does, with the rethrown exception |
| TransactionalColumnFamily.Perform | backend/src/main/kotlin/io/zell/zdb/db/readonly/transaction/TransactionalColumnFamily.java:62-148 | every write, and the prefix walk from a start key, throws UnsupportedOperationException("not supported") |
| ZeebeDbReader.OpenFailure | backend/src/main/kotlin/io/zell/zdb/state/ZeebeDbReader.kt:41-55 | an I/O error whose message mentions a missing file becomes FileNotFoundException with the path; every other failure escapes unchanged |
| ZeebeDbReader.VisitDB | backend/src/main/kotlin/io/zell/zdb/state/ZeebeDbReader.kt:119-132 | every pair is visited in order with the family its key names, and the first key that names none ends the walk with its exception |
| ZeebeDbReader.VisitDBWithJsonValues | backend/src/main/kotlin/io/zell/zdb/state/ZeebeDbReader.kt:134-139 | the same walk, each value handed over as JSON |
| ZeebeDbReader.VisitDBWithPrefix | backend/src/main/kotlin/io/zell/zdb/state/ZeebeDbReader.kt:96-117 | every pair handed over carries the family's prefix |
| ZeebeDbReader.VisitDBWithPrefixIsMatching | backend/src/main/kotlin/io/zell/zdb/state/ZeebeDbReader.kt:96-117 | for a family among the constants, exactly the family's pairs are handed over, in key order, and nothing throws |
| ZeebeDbReader.LongKey | backend/src/main/kotlin/io/zell/zdb/state/ZeebeDbReader.kt:141-149 | a lookup key is sixteen bytes: the family prefix and then the key |
| ZeebeDbReader.LongKeyRoundTrip | backend/src/main/kotlin/io/zell/zdb/state/ZeebeDbReader.kt:141-149 | a lookup key takes apart into its family and its long again |
| ZeebeDbReader.GetValue | backend/src/main/kotlin/io/zell/zdb/state/ZeebeDbReader.kt:141-149 | the value stored under the long key, or null when there is none |
| ZeebeDbReader.GetValueAsJson | backend/src/main/kotlin/io/zell/zdb/state/ZeebeDbReader.kt:151-157 | the stored value as JSON, or {} when nothing is stored |
| ZeebeDbReader.Tally | backend/src/main/kotlin/io/zell/zdb/state/ZeebeDbReader.kt:160-168 | a family is counted exactly when it was visited, as often as it was visited |
| ZeebeDbReader.StateStatistics | backend/src/main/kotlin/io/zell/zdb/state/ZeebeDbReader.kt:160-168 | the statistics succeed exactly when every key names a family, and list each family that holds pairs with their number |
| ZeebeDbReader.StatisticsMatchPrefixWalk | backend/src/main/kotlin/io/zell/zdb/state/ZeebeDbReader.kt:96-168 | a family is listed exactly when its own walk visits something, with the number of pairs the walk visits |
| ReadOnlyDb.Open | zdb/src/main/java/io/zeebe/db/ZeebeReadOnlyDB.java:77-103 | the i-th handle gets the i-th family constant, so more handles than constants throw; otherwise every handle and the three option objects are registered for closing |
| ReadOnlyDb.HandleOf | zdb/src/main/java/io/zeebe/db/ZeebeReadOnlyDB.java:116-118 | a family without a handle throws NullPointerException on unboxing |
| ReadOnlyDb.Get | zdb/src/main/java/io/zeebe/db/ZeebeReadOnlyDB.java:167-193 | the value under the key, absent when there is none, it is empty, or the read failed |
| ReadOnlyDb.Exists | zdb/src/main/java/io/zeebe/db/ZeebeReadOnlyDB.java:199-207 | a key exists exactly when the lookup finds a value, a failed read counting as missing |
| ReadOnlyDb.WhileTrue | zdb/src/main/java/io/zeebe/db/ZeebeReadOnlyDB.java:268-282 | the walk visits the table's pairs from its first key, in order |
| ReadOnlyDb.ForEachVisitsAll | zdb/src/main/java/io/zeebe/db/ZeebeReadOnlyDB.java:237-266 | `forEach` over pairs that all have views visits every pair, in key order |
| ReadOnlyDb.ForEachValue | zdb/src/main/java/io/zeebe/db/ZeebeReadOnlyDB.java:223-235 | the values handed over are the table's, in order, and only an empty value throws |
| ReadOnlyDb.WhileEqualPrefix | zdb/src/main/java/io/zeebe/db/ZeebeReadOnlyDB.java:312-347 | every pair visited carries the prefix and is in the table |
| ReadOnlyDb.WhileEqualPrefixIsMatching | zdb/src/main/java/io/zeebe/db/ZeebeReadOnlyDB.java:312-347 | a walk whose visitor never stops visits exactly the pairs carrying the prefix, in key order |
| ReadOnlyDb.NestedPrefixWalk | zdb/src/main/java/io/zeebe/db/ReadOnlyContext.java:110-123 | a prefix walk inside two enclosing walks throws the nested-iteration IllegalStateException |
| ReadOnlyDb.IsEmpty | zdb/src/main/java/io/zeebe/db/ZeebeReadOnlyDB.java:366-377 | a table is empty exactly when the iterator finds no first pair |
| ReadOnlyDb.Perform | zdb/src/main/java/io/zeebe/db/ReadOnlyColumnFamily.java:50-119 | every write throws UnsupportedOperationException, the column family's with its message |
| ReadOnlyDb.RunInTransaction | zdb/src/main/java/io/zeebe/db/ReadOnlyContext.java:130-147 | a recoverable exception passes through, a RocksDB exception and any other are wrapped in runtime exceptions with their messages |
| ReadOnlyDb.Close | zdb/src/main/java/io/zeebe/db/ZeebeReadOnlyDB.java:380-398 | every resource is closed, in reverse registration order, and exactly the failing ones are logged |
| ReadOnlyDb.CloseOrder | zdb/src/main/java/io/zeebe/db/ZeebeReadOnlyDB.java:77-103 | the resources are registered so that closing in reverse closes handles before the database and options last |
| KeyFormatter.ComponentOf | backend/src/main/kotlin/io/zell/zdb/state/KeyFormatter.java:49-58 | a letter names a component exactly when it is that component's letter |
| KeyFormatter.Of | backend/src/main/kotlin/io/zell/zdb/state/KeyFormatter.java:45-61 | a format parses exactly when every letter names a component, one per letter; the first unknown letter throws IllegalArgumentException naming it |
| KeyFormatter.OfFormatOf | backend/src/main/kotlin/io/zell/zdb/state/KeyFormatter.java:45-61 | formats and component runs are one another's inverse |
| KeyFormatter.Fields | backend/src/main/kotlin/io/zell/zdb/state/KeyFormatter.java:69-88 | one field per component, read in turn, and the first read that throws ends the run |
| KeyFormatter.GlueAsWrittenDropsLeadingEmpty | backend/src/main/kotlin/io/zell/zdb/state/KeyFormatter.java:72-74 | as written, empty fields at the front get no separator and vanish |
| KeyFormatter.LeadingEmptyFieldVanishes | backend/src/main/kotlin/io/zell/zdb/state/KeyFormatter.java:72-74 | as written, the fields "" and "a" print as "a", which does not split back into them |
| KeyFormatter.GlueRoundTrip | backend/src/main/kotlin/io/zell/zdb/state/KeyFormatter.java:64-93 | with a separator between every two fields, fields free of ':' split back into exactly the fields |
| KeyFormatter.GlueAgrees | backend/src/main/kotlin/io/zell/zdb/state/KeyFormatter.java:72-74 | the two joins agree whenever the first field is not empty |
| KeyFormatter.FormatKey | backend/src/main/kotlin/io/zell/zdb/state/KeyFormatter.java:64-93 | as written: only an out-of-bounds read is caught, falling back to hex, and any other exception escapes; read fields print as the fields without the empty ones at the front, one separator between each two |
| KeyFormatter.FormatKeyIntended | backend/src/main/kotlin/io/zell/zdb/state/KeyFormatter.java:64-93 | as intended, with a separator between every two fields: it fails exactly when `formatKey` does, and prints the same text whenever the first field is not empty |
| KeyFormatter.FormatKeyRoundTrip | backend/src/main/kotlin/io/zell/zdb/state/KeyFormatter.java:64-93 | as intended: the fields of a key formatted with a separator between every two can be read back from its text |
| KeyFormatter.FormatKeyAsWrittenRoundTrip | backend/src/main/kotlin/io/zell/zdb/state/KeyFormatter.java:64-93 | as written, the fields can be read back from the text as long as the first one is not empty |
| KeyFormatter.HexFallbackRoundTrip | backend/src/main/kotlin/io/zell/zdb/state/KeyFormatter.java:89-91 | the hex rendering reads back as the whole key |
| KeyFormatter.FormatKeyCli | cli/src/main/java/io/zell/zdb/state/KeyFormatters.java:89-114 | as written: the command-line copy catches nothing, and read fields print as the fields without the empty ones at the front, one separator between each two |
| KeyFormatter.CliAgreesWithBackend | cli/src/main/java/io/zell/zdb/state/KeyFormatters.java:89-114 | the two copies print the same text whenever every read succeeds, and differ only in what an out-of-bounds read does |
| KeyFormatter.RegisteredFormatsParse | backend/src/main/kotlin/io/zell/zdb/state/KeyFormatters.java:26-124 | every registered format parses, so loading the registry never throws |
| KeyFormatter.ForColumnFamily | backend/src/main/kotlin/io/zell/zdb/state/KeyFormatters.java:126-153 | the default registry gives the registered formatter or hex, the hex registry always hex, and the format registry parses its format on each call |
| ColumnFamilyKeyDecoder.DecodeColumnFamilyKey | backend/src/main/kotlin/io/zell/zdb/state/ColumnFamilyKeyDecoder.kt:16-26 | a family with a decoder gets its text; every other key is rendered in hex and reads back as the key |
| ZeebeDbReader.TallyTotal | backend/src/main/kotlin/io/zell/zdb/state/Experimental.kt:67-70 | the counting visitor's counts, over the families below a bound, add up to the number of visits |
| ZeebeDbReader.StatisticsTotal | backend/src/main/kotlin/io/zell/zdb/state/Experimental.kt:64-72 | the statistics' counts add up to the number of pairs visited, which is every pair |
| VariablesState.GetParent | zdb/src/main/java/io/zeebe/engine/state/instance/VariablesState.java:47-57 | a scope's stored parent, and NO_PARENT (-1) exactly when none is stored |
| VariablesState.Chain | zdb/src/main/java/io/zeebe/engine/state/instance/VariablesState.java:91-105 | the scopes the do-while loop visits: the scope itself, then each stored parent while it is not negative, ending at a scope whose parent is negative |
| VariablesState.ChainFound | zdb/src/main/java/io/zeebe/engine/state/instance/VariablesState.java:96-104 | given enough steps the walk finds the scope chain, and it is the only chain there is |
| VariablesState.Innermost | zdb/src/main/java/io/zeebe/engine/state/instance/VariablesState.java:117-144 | a variable is visible from a chain exactly when some scope of the chain holds it |
| VariablesState.AddLookup | zdb/src/main/java/io/zeebe/engine/state/instance/VariablesState.java:66-79 | after one scope's walk a name keeps the value collected earlier, or else gets its first value in that scope, and no name is written twice |
| VariablesState.CollectLookup | zdb/src/main/java/io/zeebe/engine/state/instance/VariablesState.java:66-79 | after the walk up the chain every name holds its value from the innermost scope that has it, and no name is written twice |
| VariablesState.NameSetSize | zdb/src/main/java/io/zeebe/engine/state/instance/VariablesState.java:77-81 | the number of collected names, which the map header records, is the number of variables written |
| VariablesState.VariablesAsDocument | zdb/src/main/java/io/zeebe/engine/state/instance/VariablesState.java:59-85 | the document lists each visible name once, with the value of the innermost scope that has it, under a header counting them |
| VariablesState.Shadowing | zdb/src/main/java/io/zeebe/engine/state/instance/VariablesState.java:66-79 | a variable of the scope itself hides any variable of the same name further up |
| JobState.Code | zdb/src/main/java/io/zeebe/engine/state/instance/JobState.java:153-165 | each job state is stored as a byte below five |
| JobState.CodeInjective | zdb/src/main/java/io/zeebe/engine/state/instance/JobState.java:153-165 | distinct job states are stored as distinct bytes |
| JobState.GetState | zdb/src/main/java/io/zeebe/engine/state/instance/JobState.java:96-106 | the stored state of the job, and NOT_FOUND when none is stored |
| JobState.IsInStateIff | zdb/src/main/java/io/zeebe/engine/state/instance/JobState.java:108-110 | a job is in a state exactly when that state is stored for it, or nothing is stored and the state is NOT_FOUND |
| JobState.GetJob | zdb/src/main/java/io/zeebe/engine/state/instance/JobState.java:137-141 | the stored job, and null exactly when the key holds none |
| JobState.VisitJobs | zdb/src/main/java/io/zeebe/engine/state/instance/JobState.java:124-135 | only existing jobs of the walked keys reach the callback; the walk goes on while the callback answers true; a failure is the cleanup's exception |
| JobState.VisitJobsComplete | zdb/src/main/java/io/zeebe/engine/state/instance/JobState.java:124-135 | with a callback that always answers true and a cleanup that does not throw, every existing job is handed over |
| JobState.DueKeys | zdb/src/main/java/io/zeebe/engine/state/instance/JobState.java:79-88 | the due job keys are those of the deadlines before the first deadline not below the bound |
| JobState.ReadOnlyCleanup | zdb/src/main/java/io/zeebe/engine/state/instance/JobState.java:85 | the cleanup deletion throws the read-only database's refusal |
| JobState.ForEachTimedOutEntryAsWritten | zdb/src/main/java/io/zeebe/engine/state/instance/JobState.java:76-89 | a walk that fails fails with the read-only refusal, and one that does not is the walk as meant |
| JobState.CleanupUnused | zdb/src/main/java/io/zeebe/engine/state/instance/JobState.java:128-134 | a walk that never needed its cleanup is the walk whose cleanup lets it go on |
| JobState.MissingJobAborts | zdb/src/main/java/io/zeebe/engine/state/instance/JobState.java:76-135 | a due deadline, or an activatable entry, whose job is gone aborts the as-written walk, while the walk as meant skips it |
| JobState.ForEachTimedOutEntry | zdb/src/main/java/io/zeebe/engine/state/instance/JobState.java:76-89 | the walk as meant hands over only existing jobs of due deadlines and never fails |
| JobState.TimedOutComplete | zdb/src/main/java/io/zeebe/engine/state/instance/JobState.java:76-89 | with a callback that always answers true, every existing job of a due deadline is handed over |
| JobState.ForEachActivatableJobsAsWritten | zdb/src/main/java/io/zeebe/engine/state/instance/JobState.java:112-122 | a walk that fails fails with the read-only refusal, and one that does not is the walk as meant |
| JobState.ForEachActivatableJobs | zdb/src/main/java/io/zeebe/engine/state/instance/JobState.java:112-122 | the walk as meant hands over only existing jobs filed as activatable under the type, and never fails |
| IncidentState.GetIncidentRecord | zdb/src/main/java/io/zeebe/engine/state/instance/IncidentState.java:60-68 | the stored incident, and null exactly when the key holds none |
| IncidentState.IncidentKeyOf | zdb/src/main/java/io/zeebe/engine/state/instance/IncidentState.java:70-90 | the stored incident key of an element instance or a job, and MISSING_INCIDENT (-1) when none is stored |
| IncidentState.ForExistingWorkflowIncident | zdb/src/main/java/io/zeebe/engine/state/instance/IncidentState.java:96-105 | the resolver is called exactly when an incident key other than MISSING_INCIDENT is stored for the element instance, with that key and its record, or null |
| MessageState.EnsureGreaterThanZero | zdb/src/main/java/io/zeebe/engine/state/message/MessageState.java:146 | a key passes exactly when it is positive; otherwise the check throws, naming the argument |
| MessageState.EnsureNotEmpty | zdb/src/main/java/io/zeebe/engine/state/message/MessageState.java:147 | a text passes exactly when it is not empty; otherwise the check throws, naming the argument |
| MessageState.ExistMessageCorrelation | zdb/src/main/java/io/zeebe/engine/state/message/MessageState.java:145-153 | a key that is not positive throws first, then an empty process id; otherwise the answer is whether the correlation is stored |
| MessageState.ExistActiveWorkflowInstance | zdb/src/main/java/io/zeebe/engine/state/message/MessageState.java:155-163 | an empty process id throws first, then an empty correlation key; otherwise the answer is whether the pair is stored |
| MessageState.GetWorkflowInstanceCorrelationKey | zdb/src/main/java/io/zeebe/engine/state/message/MessageState.java:165-173 | a key that is not positive throws; otherwise the stored correlation key, or null when none is stored |
| MessageState.Exist | zdb/src/main/java/io/zeebe/engine/state/message/MessageState.java:208-215 | whether the message id is stored for the name and correlation key, without argument checks |
| MessageState.Handed | zdb/src/main/java/io/zeebe/engine/state/message/MessageState.java:183-187 | each walked key's message, or null when gone, reaches the visitor in order until the visitor answers false |
| MessageState.VisitMessages | zdb/src/main/java/io/zeebe/engine/state/message/MessageState.java:175-188 | only messages filed under the name and correlation key reach the visitor, and all of them when it always answers true |
| MessageState.DueMessageKeys | zdb/src/main/java/io/zeebe/engine/state/message/MessageState.java:196-205 | the due message keys are those of the deadlines before the first deadline after the timestamp |
| MessageState.VisitMessagesWithDeadlineBefore | zdb/src/main/java/io/zeebe/engine/state/message/MessageState.java:195-206 | the messages of deadlines not after the timestamp reach the visitor in key order; the walk ends at the first later deadline, or when the visitor answers false |
| ElementInstanceState.Ordinal | zdb/src/main/java/io/zeebe/engine/state/instance/ElementInstanceState.java:124-128 | a purpose is filed under a byte below two |
| ElementInstanceState.GetInstance | zdb/src/main/java/io/zeebe/engine/state/instance/ElementInstanceState.java:94-98 | a copy of the stored instance, and null exactly when the key holds none |
| ElementInstanceState.ChildKeys | zdb/src/main/java/io/zeebe/engine/state/instance/ElementInstanceState.java:109-119 | the child keys walked are exactly those filed under the parent |
| ElementInstanceState.InstancesOf | zdb/src/main/java/io/zeebe/engine/state/instance/ElementInstanceState.java:113-118 | each child key is looked up in turn, a child that is gone giving null |
| ElementInstanceState.GetChildren | zdb/src/main/java/io/zeebe/engine/state/instance/ElementInstanceState.java:105-122 | nothing for a missing parent; otherwise one entry per filed child, holding every filed child's instance |
| ElementInstanceState.GetStoredRecord | zdb/src/main/java/io/zeebe/engine/state/instance/ElementInstanceState.java:100-103 | the stored record, and null exactly when the key holds none |
| ElementInstanceState.GetFailedRecord | zdb/src/main/java/io/zeebe/engine/state/instance/ElementInstanceState.java:134-141 | the stored record exactly when it was stored as failed, null otherwise |
| ElementInstanceState.Present | zdb/src/main/java/io/zeebe/engine/state/instance/ElementInstanceState.java:175-181 | the records of the walked keys that still exist, and only those |
| ElementInstanceState.VisitRecords | zdb/src/main/java/io/zeebe/engine/state/instance/ElementInstanceState.java:168-182 | exactly the existing records filed under the scope and purpose are visited |
| ElementInstanceState.GetDeferredRecords | zdb/src/main/java/io/zeebe/engine/state/instance/ElementInstanceState.java:130-132 | only records filed as deferred under the scope are collected |
| WorkflowCache.GetWorkflowByProcessIdAndVersion | zdb/src/main/java/io/zeebe/engine/state/deployment/WorkflowPersistenceCache.java:87-93 | the workflow stored for the process and version, and null exactly when none is |
| WorkflowCache.GetLatestWorkflowVersionByProcessId | zdb/src/main/java/io/zeebe/engine/state/deployment/WorkflowPersistenceCache.java:78-85 | the workflow of the process's stored latest version, the version being -1 when none is stored |
| WorkflowCache.ByKey | zdb/src/main/java/io/zeebe/engine/state/deployment/WorkflowPersistenceCache.java:101-105 | each walked workflow is put under its own key; the map's keys are exactly the walked keys |
| WorkflowCache.ByKeyLastWins | zdb/src/main/java/io/zeebe/engine/state/deployment/WorkflowPersistenceCache.java:101-105 | a key's entry is the last workflow of the walk with that key |
| WorkflowCache.GetWorkflowByKey | zdb/src/main/java/io/zeebe/engine/state/deployment/WorkflowPersistenceCache.java:95-99 | the workflow stored under the key, and null exactly when no workflow has it |
| WorkflowCache.GetWorkflows | zdb/src/main/java/io/zeebe/engine/state/deployment/WorkflowPersistenceCache.java:101-105 | as meant: every walked workflow's key is present, holding a walked workflow with that key |
| WorkflowCache.GetWorkflowsAsWritten | zdb/src/main/java/io/zeebe/engine/state/deployment/WorkflowPersistenceCache.java:101-105 | as written, the same keys, each holding the reused value object, i.e. the last workflow walked |
| WorkflowCache.GetWorkflowsByBpmnProcessId | zdb/src/main/java/io/zeebe/engine/state/deployment/WorkflowPersistenceCache.java:107-117 | exactly the workflows of the process, in walk order |
| WorkflowCache.Flyweight | zdb/src/main/java/io/zeebe/engine/state/deployment/WorkflowPersistenceCache.java:101-117 | the reused value object holds a workflow of the family, the last one walked |
| WorkflowCache.GetWorkflowByKeyAsWritten | zdb/src/main/java/io/zeebe/engine/state/deployment/WorkflowPersistenceCache.java:95-105 | as written, any key that is present yields the last workflow walked |
| WorkflowCache.GetWorkflowsByBpmnProcessIdAsWritten | zdb/src/main/java/io/zeebe/engine/state/deployment/WorkflowPersistenceCache.java:107-117 | as written, one reference per matching workflow, each to the last workflow walked |
| WorkflowCache.AliasedValue | zdb/src/main/java/io/zeebe/engine/state/deployment/WorkflowPersistenceCache.java:95-117 | with two workflows of two processes, asking for the first by key or by process answers with the second as written, and with the first as meant |
| WorkflowCache.GetLatestVersionDigest | zdb/src/main/java/io/zeebe/engine/state/deployment/WorkflowPersistenceCache.java:119-123 | the stored digest of the process, and null exactly when none is stored |
| GeneralState.ExporterDetails | backend/src/main/kotlin/io/zell/zdb/state/general/GeneralState.kt:37-65 | every exporter's position by id, and the lowest position among them, or 0 when there is no exporter |
| GeneralState.IncidentDetailsOf | backend/src/main/kotlin/io/zell/zdb/state/general/GeneralState.kt:71-88 | one count per banned instance and one per incident |
| GeneralState.InstanceDetails | backend/src/main/kotlin/io/zell/zdb/state/general/GeneralState.kt:90-104 | each instance counts once, as a process instance exactly when it is its own process instance, and as an element instance otherwise |
| GeneralState.Sizes | backend/src/main/kotlin/io/zell/zdb/state/general/GeneralState.kt:124 | a variable's size is the length of its value |
| GeneralState.SizeFold | backend/src/main/kotlin/io/zell/zdb/state/general/GeneralState.kt:119-137 | the variable count, and the maximum and minimum value size from their long sentinels |
| GeneralState.VariablesDetailsOf | backend/src/main/kotlin/io/zell/zdb/state/general/GeneralState.kt:106-144 | the number of variables, every value size lying between the extremes, and the sentinels when there is none |
| GeneralState.VariableRange | backend/src/main/kotlin/io/zell/zdb/state/general/GeneralState.kt:119-137 | over at least one variable both extremes are sizes of stored values and the minimum is at most the maximum |
| GeneralState.DeadlineFold | backend/src/main/kotlin/io/zell/zdb/state/general/GeneralState.kt:159-171 | one count per deadline, the first deadline the smallest one, and the last deadline the one walked last, or 0 |
| GeneralState.MessagesDetailsOf | backend/src/main/kotlin/io/zell/zdb/state/general/GeneralState.kt:146-174 | one count per deadline entry; the first deadline is a stored deadline no larger than any; the last is the last entry's |
| GeneralState.Deadlines | backend/src/main/kotlin/io/zell/zdb/state/general/GeneralState.kt:164 | the deadline of each entry is the first component of its key |
| StatusInspection.WorkflowInstances | zdb/src/main/java/io/zeebe/zdb/impl/StatusInspection.java:59-78 | every instance is an element instance; the workflow instances are those without a parent, none exactly when every instance has one |
| StatusInspection.Variables | zdb/src/main/java/io/zeebe/zdb/impl/StatusInspection.java:80-111 | the number of variables, every value size lying between the extremes, and the sentinels when there is none |
| StatusInspection.MessageCount | zdb/src/main/java/io/zeebe/zdb/impl/StatusInspection.java:118-133 | one count per MESSAGES entry |
| StatusInspection.MessageDeadlines | zdb/src/main/java/io/zeebe/zdb/impl/StatusInspection.java:135-161 | the next deadline is the first one other than -1, or -1 when there is none; the last is the last one walked, or 0 |
| StatusInspection.ReportsAgree | zdb/src/main/java/io/zeebe/zdb/impl/StatusInspection.java:135-161 | over deadlines in ascending key order, this report's next and last deadline are the general state report's first and last |
| StatusInspection.IncidentRelated | zdb/src/main/java/io/zeebe/zdb/impl/StatusInspection.java:171-199 | one count per blacklisted instance and one per incident |
| StatusInspection.LowestExportedPosition | zdb/src/main/java/io/zeebe/zdb/impl/StatusInspection.java:211-223 | "No exporters" exactly when no exporter is stored, otherwise the decimal text of the lowest position |
| StatusInspection.IntToStringNotWord | zdb/src/main/java/io/zeebe/zdb/impl/StatusInspection.java:211-223 | no number's text can be mistaken for "No exporters" |
| RawState.DanglingLines | backend/src/main/kotlin/io/zell/zdb/state/raw/RawState.kt:26-33 | one line per examined deadline entry whose message key is gone, in walk order, and no other |
| RawState.GoneIndices | backend/src/main/kotlin/io/zell/zdb/state/raw/RawState.kt:26-33 | the positions of the examined deadline entries whose message key is gone: ascending, and all of them |
| RawState.DanglingLinesInOrder | backend/src/main/kotlin/io/zell/zdb/state/raw/RawState.kt:26-33 | the k-th report line is about the k-th deadline entry, in walk order, whose message key is gone |
| RawState.CheckConsistency | backend/src/main/kotlin/io/zell/zdb/state/raw/RawState.kt:10-34 | the banner, then one line per deadline entry whose message key has no message, in walk order, every entry being examined |
| RawState.Printed | backend/src/main/kotlin/io/zell/zdb/state/raw/RawState.kt:43-46 | each entry of a family is printed in walk order |
| RawState.ExportMessageKeys | backend/src/main/kotlin/io/zell/zdb/state/raw/RawState.kt:36-47 | one line per message-key entry, key and stored message, in walk order |
| RawState.ExportMessageDeadlines | backend/src/main/kotlin/io/zell/zdb/state/raw/RawState.kt:49-60 | one line per message-deadline entry, in walk order |
| JsonPrinter.PrintElement | cli/src/main/java/io/zell/zdb/JsonPrinter.java:46-52 | an element is printed after a separator unless it is the first since the last reset, and the printer then counts as having printed one |
| JsonPrinter.PrintAll | cli/src/main/java/io/zell/zdb/JsonPrinter.java:46-52 | the elements come out joined by separators, with one more in front when an element was printed before |
| JsonPrinter.Surround | cli/src/main/java/io/zell/zdb/JsonPrinter.java:58-62 | the heading, the joined elements and the end, in that order |
| JsonPrinter.Reset | cli/src/main/java/io/zell/zdb/JsonPrinter.java:64-66 | the printer forgets that an element was printed and its output stays as it was |
| JsonPrinter.SurroundFresh | cli/src/main/java/io/zell/zdb/JsonPrinter.java:38-62 | a new printer wraps the elements into one data array |
| JsonPrinter.SurroundExamples | cli/src/test/java/io/zell/zdb/JsonPrinterTest.java:35-75 | no element, one element and three elements print as the expected data arrays |
| JsonPrinter.Reuse | cli/src/main/java/io/zell/zdb/JsonPrinter.java:46-66 | a second surround on the same printer starts its array with a separator unless the printer is reset in between |

## Left out

- Floating-point averages (`avgEntrySize`, `avgSize` of the log scanners, `GeneralState` and `StatusInspection`) are left out, as is their float division by a count that may be zero.
- The backend `LogStatusDetails` counts scanned entries in a Kotlin `Long`; its overflow would need more than 2^63 entries and is not modelled.
- StatusScanner.ScanIsExtremes: the scanned-entry count is unbounded, where `LogStatus` counts in a Java `int` that wraps after 2^31-1 entries.
- StatusScanner.DescribeOnlyTexts: the scanned-entry count is unbounded, where both `LogStatus` scanners count in a Java `int` that wraps after 2^31-1 entries.
- LogScanner.ScanPositions: the scanned-entry count is unbounded, where `LogScanner` counts in a Java `int` that wraps after 2^31-1 entries.
- LogScanner.IndexFields: the scanned-entry count is unbounded, for the same reason as `ScanPositions`.
- ScanSearch.SearchIndexFrom: the scanned-entry count is unbounded, where both `LogSearch` scanners count in a Java `int` that wraps after 2^31-1 entries.
- ScanSearch.SearchIndex: the scanned-entry count is unbounded, for the same reason as `SearchIndexFrom`.
- ScanSearch.SearchIndexPastLog: the scanned-entry count is unbounded, for the same reason as `SearchIndexFrom`.
- ScanSearch.SearchPosition: the scanned-entry count is unbounded, where both `LogSearch` position scanners count in a Java `int` that wraps after 2^31-1 entries.
- LegacyMetadata.ReadReason: the IllegalArgumentException of a rejection reason running past the buffer carries a fixed stand-in message, because its text is built by Agrona, which is not part of this model.
- ZeebeDbReader.Tally: the Kotlin `Int` counter per column family wraps after 2^31-1 pairs; the count here is unbounded.
- ZeebeDbReader.StateStatistics: the counts come from `Tally` and are unbounded for the same reason, not wrapped at 2^31.
- SegmentFile.SegmentIdFromPath: only ASCII digits are read as digits; other Unicode decimal digits, which `Integer.parseInt` accepts, make the name unparseable here.
- LogFactory.ExtractPartitionNameFromPath: only ASCII digits count as a partition number; other Unicode decimal digits, which `Integer.parseInt` accepts, are rejected here.
- LogScanner.ScanPartitionName: only ASCII digits count as a partition number, as in `ExtractPartitionNameFromPath`.
- LogReader.Frames: a frame length of zero makes the source's do-while (`LogContentReader.kt:50-62`) read the same event forever, and a negative one moves backwards; the model stops with IllegalState instead.
- LogSearch.FindPosition: walks frames as `LogReader.Frames` does, so a non-positive frame length ends in IllegalState rather than a loop that never ends.
- ScanSearch.ProcessEntry: walks frames as `LogReader.Frames` does, so a non-positive frame length ends in IllegalState rather than a loop that never ends.
- TransactionalColumnFamily.InTransaction: the message a wrapped RocksDB exception carries is the class name and the cause's own text; only the class-name part is modelled.
- LogWriter.WriteAsTable: when a record fails, the output already printed before it, including the title, is not returned; only the exception is.
- `SegmentDescriptor.length()` is left out: it returns the encoded length a constructor taking a `ByteBuffer` sets, and `SegmentsManager.java:212` calls that constructor, but it is not in `SegmentDescriptor.java`, so what it sets is unknown here.
- Report wording around the folded numbers, and what the tools print to standard error, are left out. The model keeps the values a report is built from.
- MessagePack to JSON, `TypedEventRegistry` and the intent lookup, Protocol partition-id decoding, the `DbLong`/`DbString`/`DbInt`/`DbBytes` layouts, the generated journal SBE codecs, UTF-8 conversion and `ZB_DB_BYTE_ORDER` are foreign code and appear only as parameters.
- MessageState.EnsureGreaterThanZero: the `EnsureUtil` message text is reduced to the name of the property, because only the exception and the property it names matter to callers.
- MessageState.EnsureNotEmpty: the `EnsureUtil` message text is reduced to the name of the property, for the same reason.
- The message texts of `NullPointerException`s thrown by the JVM are not modelled; only the exception kind is.
- RocksDB read failures are a flag of the lookup (`ReadOnlyDb.Get`); native error codes and their text are not modelled.
- VariablesState.Chain: the walk up the parent chain takes a `fuel` bound, so a cyclic chain, which the engine never writes, ends with `None` instead of looping forever.
- The engine-state classes read typed tables in key order, not byte keys: the `DbLong`/`DbString` composite-key layouts are foreign, so a prefix walk is the run of entries that carry the first key component.
- `ExporterState` is modelled only as the lowest position of the exporter family, which is all `StatusInspection` and `GeneralState` use of it.
- The `listIncidents` and `InstanceState` wrappers over `ProcessingDbState` are left out as thin delegation.
- `RawState` renders an entry through a parameter, because its rendering is `toString` of foreign key and value objects.
- `hashCode` of the pre-8.3 metadata is left out, because it hashes enum objects by identity.
- `GeneralState`'s processing details are left out, because they read `DbLastProcessedPositionState`, which is Zeebe's.
- `JobState.exists` is left out, because typed tables do not model the empty-value convention it relies on.
- `JobState.notifyJobAvailable` is left out, because it calls back into the engine.
- `StatusInspection`'s last processed position is left out, because it reads Zeebe's own state class.
- The clock the engine state classes read is a parameter: `JobState.DueKeys` takes the bound as `upperBound` and `MessageState.DueMessageKeys` takes `timestamp`. The current time `StatusInspection` prints is left out.
- `LogContent.addEntryToContent` calls `ApplicationRecord` with two arguments (`LogContent.kt:36`), but the class in `log/ApplicationRecord.kt:22` takes four. The model builds the record with its index, term, positions and events, as `LogContentReader` does.
- The older `LogScanner` starts its largest entry size at 0, not at a sentinel, so the largest size it reports is never below 0. The model keeps that start.
- The backend `LogStatus.status()` never updates `scannedEntries`, `maxEntrySizeBytes` or `minEntrySizeBytes`. They stay at the initial values of `LogStatusDetails`, and `LogStatus.StatusIsExtremes` states it.
- Tests that assert behaviour the code lacks are not modelled: `limitToPosition`, `filterForProcessInstance`, "255 (UNKNOWN)" family names, and a hex fallback for `DEFAULT` in the command-line formatters.
- File I/O, memory mapping, RocksDB opening and native handles, picocli commands and the JavaFX frontend are left out; their results enter the model as values.

## Findings

| source | as written | input that shows it | evidently intended | confidence | as-written member | corrected member |
|---|---|---|---|---|---|---|
| backend/src/main/kotlin/io/zell/zdb/state/KeyFormatter.java:72-74 | the ':' separator is appended only when the text so far is not empty | a key whose first component renders as "" and second as "a" prints as "a", the same as a key with the single component "a" | one separator between each two components | not executed | KeyFormatter.LeadingEmptyFieldVanishes | KeyFormatter.FormatKeyRoundTrip |
| backend/src/main/kotlin/io/zell/zdb/log/records/old/RecordMetadataBefore83.java:56-91 | `wrap` sets the `intent` object but leaves `intentValue` at its null value | wrapping a block whose intent byte is 1, then writing the metadata again, writes 255 as the intent | `wrap` keeps the intent value it read | not executed | LegacyMetadata.WrapLosesIntentValueExample | LegacyMetadata.WrapFixedAfterWrite |
| zdb/src/main/java/io/zeebe/engine/state/instance/JobState.java:76-135 | a due deadline or an activatable entry whose job is gone is cleaned up by a delete, which the read-only database refuses with an exception | an activatable entry ("task", 7) with no job 7 aborts `forEachActivatableJobs` | a missing job is skipped and the walk goes on | not executed | JobState.MissingJobAborts | JobState.TimedOutComplete |
| zdb/src/main/java/io/zeebe/engine/state/deployment/WorkflowPersistenceCache.java:95-117 | the value-only `forEach` hands over one reused value object, and the lookups keep that object itself | with two workflows of two processes, the workflow kept for the first key, by the lookups and by `getWorkflows`, is the second workflow | each entry keeps the workflow it was visited with | not executed | WorkflowCache.AliasedValue | WorkflowCache.GetWorkflows |
