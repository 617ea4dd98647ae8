/** The table rendering of an application record of the log view: one line
    per typed event, the columns separated by single spaces. */
module LogColumns {

  import opened Text
  import opened LogHelper

  const SEPARATOR: string := " "

  /** The seven columns every event has: position, source position,
      timestamp, key, record type, value type and intent. */
  function Fields(e: TypedEvent): (r: seq<string>)
    ensures |r| == 7 && r[0] == IntToString(e.position) && r[6] == e.metadata.intent
  {
    [IntToString(e.position), IntToString(e.sourceRecordPosition), IntToString(e.timestamp),
     IntToString(e.key), e.metadata.recordType, e.metadata.valueType, e.metadata.intent]
  }

  /** Whether the event's value belongs to a process instance. */
  predicate IsProcessInstanceRelated(e: TypedEvent) {
    e.value.Some? && e.value.value.IsProcessInstanceRelated()
  }

  /** The columns of an event as the separators cut them: the seven fields,
      then for a process-instance-related value its process instance key,
      the element type of a process-instance record, and the empty text
      after the trailing separator. */
  function Tokens(e: TypedEvent): (r: seq<string>)
    ensures !IsProcessInstanceRelated(e) ==> r == Fields(e)
    ensures IsProcessInstanceRelated(e) && !e.value.value.ProcessInstanceRecord? ==> |r| == 9
    ensures IsProcessInstanceRelated(e) && e.value.value.ProcessInstanceRecord? ==> |r| == 10
  {
    if !IsProcessInstanceRelated(e) then Fields(e)
    else
      var v := e.value.value;
      Fields(e) + [IntToString(v.processInstanceKey)]
      + (if v.ProcessInstanceRecord? then [v.bpmnElementType] else []) + [""]
  }

  /** `entryAsColumn(record)`: the fields separated by spaces; a
      process-instance-related value appends a space, its key and a space,
      and a process-instance record then its element type and a space. */
  function EntryAsColumn(e: TypedEvent): (r: string)
    ensures StartsWith(r, IntToString(e.position) + SEPARATOR)
    ensures !IsProcessInstanceRelated(e) ==> EndsWith(r, SEPARATOR + e.metadata.intent)
    ensures IsProcessInstanceRelated(e) ==> EndsWith(r, SEPARATOR)
  {
    var f := Fields(e);
    var head := f[0] + SEPARATOR;
    var base := Join(f, SEPARATOR);
    StartsWithConcat(head, Join(f[1..], SEPARATOR), head);
    JoinEndsWithLast(f, SEPARATOR);
    if !IsProcessInstanceRelated(e) then base
    else
      var key := IntToString(e.value.value.processInstanceKey);
      var withKey := base + SEPARATOR + key + SEPARATOR;
      StartsWithConcat(base, SEPARATOR, head);
      StartsWithConcat(base + SEPARATOR, key, head);
      StartsWithConcat(base + SEPARATOR + key, SEPARATOR, head);
      if e.value.value.ProcessInstanceRecord? then
        var elementType := e.value.value.bpmnElementType;
        StartsWithConcat(withKey, elementType, head);
        StartsWithConcat(withKey + elementType, SEPARATOR, head);
        EndsWithConcat(withKey + elementType, SEPARATOR, SEPARATOR);
        withKey + elementType + SEPARATOR
      else
        EndsWithConcat(base + SEPARATOR + key, SEPARATOR, SEPARATOR);
        withKey
  }

  /** The column is its tokens joined by the separator. */
  lemma ColumnIsJoin(e: TypedEvent)
    ensures EntryAsColumn(e) == Join(Tokens(e), SEPARATOR)
  {
    var f := Fields(e);
    if IsProcessInstanceRelated(e) {
      var v := e.value.value;
      var key := IntToString(v.processInstanceKey);
      JoinAppend(f, key, SEPARATOR);
      if v.ProcessInstanceRecord? {
        JoinAppend(f + [key], v.bpmnElementType, SEPARATOR);
        JoinAppend(f + [key] + [v.bpmnElementType], "", SEPARATOR);
        assert Tokens(e) == f + [key] + [v.bpmnElementType] + [""];
      } else {
        JoinAppend(f + [key], "", SEPARATOR);
        assert Tokens(e) == f + [key] + [""];
      }
    }
  }

  /** The names an event renders hold no space. */
  predicate SpaceFree(e: TypedEvent) {
    && ' ' !in e.metadata.recordType && ' ' !in e.metadata.valueType && ' ' !in e.metadata.intent
    && (e.value.Some? && e.value.value.ProcessInstanceRecord? ==> ' ' !in e.value.value.bpmnElementType)
  }

  /** Cutting a column at its spaces gives back the tokens: seven fields
      without a process-instance value, and the key, element type and
      trailing empty token after them with one. */
  lemma SplitColumn(e: TypedEvent)
    requires SpaceFree(e)
    ensures Split(EntryAsColumn(e), ' ') == Tokens(e)
  {
    ColumnIsJoin(e);
    var t := Tokens(e);
    IntToStringChars(e.position, ' ');
    IntToStringChars(e.sourceRecordPosition, ' ');
    IntToStringChars(e.timestamp, ' ');
    IntToStringChars(e.key, ' ');
    if IsProcessInstanceRelated(e) {
      IntToStringChars(e.value.value.processInstanceKey, ' ');
    }
    assert forall k :: 0 <= k < |t| ==> ' ' !in t[k];
    SplitJoin(t, ' ');
  }

  /** The "index term " prefix of every line of a record. */
  function LinePrefix(index: int, term: int): string {
    IntToString(index) + SEPARATOR + IntToString(term) + SEPARATOR
  }

  /** The lines of a record, without their line ends. */
  function Lines(index: int, term: int, entries: seq<TypedEvent>): (r: seq<string>)
    ensures |r| == |entries|
  {
    seq(|entries|, k requires 0 <= k < |entries| => LinePrefix(index, term) + EntryAsColumn(entries[k]))
  }

  /** `asColumnString()`: every event as a line, prefixed with the record's
      index and term and ended by a line end. */
  function AsColumnString(index: int, term: int, entries: seq<TypedEvent>): (r: string)
    ensures entries == [] ==> r == ""
  {
    Terminated(Lines(index, term, entries), NEWLINE)
  }

  /** The names an event renders hold no line end. */
  predicate LineFree(e: TypedEvent) {
    && '\n' !in e.metadata.recordType && '\n' !in e.metadata.valueType && '\n' !in e.metadata.intent
    && (e.value.Some? && e.value.value.ProcessInstanceRecord? ==> '\n' !in e.value.value.bpmnElementType)
  }

  /** An event's line holds no line end when its names hold none. */
  lemma LineHasNoLineEnd(index: int, term: int, e: TypedEvent)
    requires LineFree(e)
    ensures '\n' !in LinePrefix(index, term) + EntryAsColumn(e)
  {
    ColumnIsJoin(e);
    IntToStringChars(index, '\n');
    IntToStringChars(term, '\n');
    var t := Tokens(e);
    IntToStringChars(e.position, '\n');
    IntToStringChars(e.sourceRecordPosition, '\n');
    IntToStringChars(e.timestamp, '\n');
    IntToStringChars(e.key, '\n');
    if IsProcessInstanceRelated(e) {
      IntToStringChars(e.value.value.processInstanceKey, '\n');
    }
    assert forall k :: 0 <= k < |t| ==> '\n' !in t[k];
    JoinFree(t, SEPARATOR, '\n');
  }

  /** Cutting the column string at its line ends gives one line per event,
      in order, each the record's prefix and the event's column, and the
      empty text after the last line end. */
  lemma ColumnStringLines(index: int, term: int, entries: seq<TypedEvent>)
    requires forall k :: 0 <= k < |entries| ==> LineFree(entries[k])
    ensures Split(AsColumnString(index, term, entries), '\n') == Lines(index, term, entries) + [""]
    ensures forall k :: 0 <= k < |entries| ==>
              Lines(index, term, entries)[k] == LinePrefix(index, term) + EntryAsColumn(entries[k])
  {
    var lines := Lines(index, term, entries);
    forall k | 0 <= k < |lines| ensures '\n' !in lines[k] {
      LineHasNoLineEnd(index, term, entries[k]);
    }
    SplitTerminated(lines, '\n');
  }

  /** `toString()` of a log application record: its fields and the JSON of
      its events joined with ", ", in a JSON object. The JSON of an event is
      Zeebe's and a parameter here. */
  function ToString(index: int, term: int, highestPosition: int, lowestPosition: int,
                    entries: seq<TypedEvent>, toJson: TypedEvent -> string): (r: string)
    ensures StartsWith(r, "{\"index\":" + IntToString(index) + ", \"term\":")
    ensures EndsWith(r, "]}")
  {
    var head := "{\"index\":" + IntToString(index) + ", \"term\":";
    var json := Join(seq(|entries|, k requires 0 <= k < |entries| => toJson(entries[k])), ", ");
    var body := IntToString(term) + ",\"highestPosition\":" + IntToString(highestPosition)
                + ",\"lowestPosition\":" + IntToString(lowestPosition) + ",\"entries\":[" + json;
    StartsWithConcat(head, body + "]}", head);
    EndsWithConcat(body, "]}", "]}");
    EndsWithConcat(head, body + "]}", "]}");
    head + (body + "]}")
  }
}
