/** Typed events: a logged event of the Zeebe log stream, read through the
    event registry into a record with a decoded value. The frame layout of a
    logged event, the message-pack value codec and the partition id encoded
    in a key are Zeebe's; they are parameters here. */
module LogHelper {

  import opened Wrappers
  import opened Bytes

  /** The record metadata of an event, with its enums by name. */
  datatype Metadata = Metadata(recordType: string, valueType: string, intent: string)

  /** A logged event as `LoggedEventImpl` presents it once wrapped at an
      offset: its frame length, its header fields, its metadata and the
      undecoded value bytes. */
  datatype LoggedEvent = LoggedEvent(length: int, position: int, sourceRecordPosition: int,
                                     timestamp: int, key: int, metadata: Metadata, value: Bytes)

  /** A decoded record value, as far as the log views look at it: whether it
      belongs to a process instance, and the process-instance record itself. */
  datatype Value =
    | OtherValue
    | ProcessInstanceRelated(processInstanceKey: int)
    | ProcessInstanceRecord(processInstanceKey: int, bpmnElementType: string, processDefinitionKey: int)
  {
    predicate IsProcessInstanceRelated() {
      !OtherValue?
    }
  }

  /** `TypedRecordImpl`: the event's fields, its metadata and its value,
      which is null for a value type the registry does not know. */
  datatype TypedEvent = TypedEvent(partitionId: int, position: int, sourceRecordPosition: int,
                                   timestamp: int, key: int, metadata: Metadata, value: Option<Value>)

  /** The value types the event registry knows, with the reader of each. */
  type Registry = map<string, Bytes -> Value>

  /** The Zeebe pieces the conversion relies on. */
  datatype Foreign = Foreign(registry: Registry, decodePartitionId: int -> int)

  /** `convertToTypedEvent(loggedEvent, metadata)`. */
  function ConvertToTypedEvent(f: Foreign, event: LoggedEvent, metadata: Metadata): (r: TypedEvent)
    ensures r.partitionId == f.decodePartitionId(event.key)
    ensures r.metadata == metadata
    ensures r.value.None? <==> metadata.valueType !in f.registry
    ensures r.value.Some? ==> r.value.value == f.registry[metadata.valueType](event.value)
  {
    var value := if metadata.valueType in f.registry
                 then Some(f.registry[metadata.valueType](event.value)) else None;
    TypedEvent(f.decodePartitionId(event.key), event.position, event.sourceRecordPosition,
               event.timestamp, event.key, metadata, value)
  }

  /** The conversion keeps the event's own fields, whatever its value type. */
  lemma ConversionKeepsEvent(f: Foreign, event: LoggedEvent, metadata: Metadata)
    ensures var r := ConvertToTypedEvent(f, event, metadata);
            r.position == event.position && r.sourceRecordPosition == event.sourceRecordPosition
            && r.timestamp == event.timestamp && r.key == event.key
  {
  }

  /** An unknown value type is not an error: the event comes back with a null
      value and everything else in place. */
  lemma UnknownValueTypeGivesNullValue(f: Foreign, event: LoggedEvent, metadata: Metadata)
    requires metadata.valueType !in f.registry
    ensures ConvertToTypedEvent(f, event, metadata)
            == TypedEvent(f.decodePartitionId(event.key), event.position, event.sourceRecordPosition,
                          event.timestamp, event.key, metadata, None)
  {
  }
}
