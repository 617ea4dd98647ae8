/** `LogContent`: the records read from a log, and their renderings as a
    JSON-like string and as a Graphviz DOT graph of events and the events
    they were written for. */
module LogContent {

  import opened Wrappers
  import opened Text
  import opened LogHelper
  import opened LogReader

  /** `addEntryToContent(entry, content)`: appends one record for the entry,
      an application record with the typed events of its data, in buffer
      order, or a Raft record for a control entry. */
  function AddEntryToContent(ev: Events, entry: Entry, content: seq<PersistedRecord>)
    : (r: Result<seq<PersistedRecord>>)
    ensures r.Ok? ==> |r.value| == |content| + 1 && r.value[..|content|] == content
    ensures r.Ok? ==> r.value[|content|].index == entry.index
                      && r.value[|content|].term == entry.data.term
    ensures r.Ok? ==> (r.value[|content|].ApplicationRecord? <==> entry.data.Application?)
    ensures entry.data.Control? ==> r.Ok?
  {
    match entry.data
    case Application(term, lowest, highest, data) =>
      var events :- TypedEvents(ev, data);
      Ok(content + [ApplicationRecord(entry.index, term, highest, lowest, events)])
    case Control(term) =>
      Ok(content + [RaftRecord(entry.index, term)])
  }

  /** Adding an entry appends the very record the content reader makes of it. */
  lemma AddEntryIsConversion(ev: Events, entry: Entry, content: seq<PersistedRecord>)
    ensures AddEntryToContent(ev, entry, content).Ok? <==> ToPersistedRecord(ev, entry).Ok?
    ensures AddEntryToContent(ev, entry, content).Ok? ==>
              AddEntryToContent(ev, entry, content).value == content + [ToPersistedRecord(ev, entry).value]
  {
  }

  /** `toString()`: the records, each rendered by its own `toString`,
      joined with ", " inside a `records` array. */
  function ToString(content: seq<PersistedRecord>, show: PersistedRecord -> string): (r: string)
    ensures StartsWith(r, "{ \"records\": [") && EndsWith(r, "] } ")
    ensures content == [] ==> r == "{ \"records\": [] } "
  {
    var inner := Join(seq(|content|, k requires 0 <= k < |content| => show(content[k])), ", ");
    var r := "{ \"records\": [" + inner + "] } ";
    assert r[|r| - 4..] == "] } ";
    r
  }

  // ---- DOT ----

  const DOT_HEADER: string := "digraph log {" + NEWLINE + "rankdir=\"RL\";" + NEWLINE
  const DOT_FOOTER: string := NEWLINE + "}"
  const PROCESS_INSTANCE: string := "PROCESS_INSTANCE"
  const NO_SOURCE: int := -1

  /** The events of the application records, record by record, in order;
      Raft records have none. */
  function DotEvents(content: seq<PersistedRecord>): (r: seq<TypedEvent>)
    ensures content == [] ==> r == []
  {
    if |content| == 0 then []
    else
      var last := content[|content| - 1];
      DotEvents(content[..|content| - 1]) + (if last.ApplicationRecord? then last.entries else [])
  }

  /** The edge from an event to its source event, when it has one. */
  function DotEdge(e: TypedEvent): (r: string)
    ensures r == "" <==> e.sourceRecordPosition == NO_SOURCE
  {
    if e.sourceRecordPosition != NO_SOURCE then
      IntToString(e.position) + (" -> " + IntToString(e.sourceRecordPosition) + ";" + NEWLINE)
    else ""
  }

  /** The label lines a process-instance event adds. A process-instance
      event whose value is missing or of another kind fails the cast. */
  function ProcessInstanceLines(e: TypedEvent): (r: Result<string>)
    ensures e.metadata.valueType != PROCESS_INSTANCE ==> r == Ok("")
    ensures e.metadata.valueType == PROCESS_INSTANCE ==>
              (r.Ok? <==> e.value.Some? && e.value.value.ProcessInstanceRecord?)
  {
    if e.metadata.valueType != PROCESS_INSTANCE then Ok("")
    else match e.value
      case None => Throws(NullPointer("value"))
      case Some(ProcessInstanceRecord(piKey, elementType, pdKey)) =>
        Ok("\\n" + elementType + "\\nPI Key: " + IntToString(piKey) + "\\nPD Key: " + IntToString(pdKey))
      case Some(_) => Throws(Runtime("ClassCastException"))
  }

  /** `addEventAsDotNode`: a node labelled with the record type, value type,
      intent and key of the event, then its edge. */
  function DotNode(e: TypedEvent): (r: Result<string>)
    ensures r.Ok? <==> ProcessInstanceLines(e).Ok?
    ensures r.Ok? ==> StartsWith(r.value, IntToString(e.position) + " [label=\"")
    ensures r.Ok? && e.sourceRecordPosition != NO_SOURCE ==>
              EndsWith(r.value, " -> " + IntToString(e.sourceRecordPosition) + ";" + NEWLINE)
    ensures r.Ok? && e.sourceRecordPosition == NO_SOURCE ==> EndsWith(r.value, "\"];" + NEWLINE)
  {
    var extra :- ProcessInstanceLines(e);
    var head := IntToString(e.position) + " [label=\"";
    var mid := "\\n" + e.metadata.recordType + "\\n" + e.metadata.valueType
               + "\\n" + e.metadata.intent + extra + "\\nKey: " + IntToString(e.key);
    var close := "\"];" + NEWLINE;
    var node := head + (mid + close);
    var edge := DotEdge(e);
    var r := node + edge;
    StartsWithConcat(head, mid + close, head);
    StartsWithConcat(node, edge, head);
    if e.sourceRecordPosition != NO_SOURCE then
      var tail := " -> " + IntToString(e.sourceRecordPosition) + ";" + NEWLINE;
      EndsWithConcat(IntToString(e.position), tail, tail);
      EndsWithConcat(node, edge, tail);
      Ok(r)
    else
      EndsWithConcat(mid, close, close);
      EndsWithConcat(head, mid + close, close);
      assert r == node;
      Ok(r)
  }

  /** Every event of the run renders as a node. */
  predicate AllRender(events: seq<TypedEvent>) {
    forall k :: 0 <= k < |events| ==> DotNode(events[k]).Ok?
  }

  /** The nodes of a run of events, in order. */
  function DotNodes(events: seq<TypedEvent>): (r: Result<string>)
    ensures r.Ok? <==> AllRender(events)
    ensures events == [] ==> r == Ok("")
  {
    if |events| == 0 then Ok("")
    else
      var first :- DotNode(events[0]);
      var rest :- DotNodes(events[1..]);
      assert forall k :: 1 <= k < |events| ==> events[k] == events[1..][k - 1];
      Ok(first + rest)
  }

  /** The nodes of two runs of events one after the other are the nodes of
      the first run followed by those of the second. */
  lemma {:induction false} DotNodesConcat(a: seq<TypedEvent>, b: seq<TypedEvent>)
    requires DotNodes(a).Ok? && DotNodes(b).Ok?
    ensures DotNodes(a + b) == Ok(DotNodes(a).value + DotNodes(b).value)
  {
    if |a| == 0 {
      assert a + b == b;
      assert "" + DotNodes(b).value == DotNodes(b).value;
    } else {
      var ab := a + b;
      assert ab[0] == a[0];
      assert ab[1..] == a[1..] + b;
      var first := DotNode(a[0]);
      assert first.Ok?;
      var restA := DotNodes(a[1..]);
      assert restA.Ok? && DotNodes(a) == Ok(first.value + restA.value);
      DotNodesConcat(a[1..], b);
      assert DotNodes(ab) == Ok(first.value + DotNodes(a[1..] + b).value);
      assert first.value + (restA.value + DotNodes(b).value) == (first.value + restA.value) + DotNodes(b).value;
    }
  }

  /** One more event adds its own node after the nodes so far, so the text
      is the events' nodes in order. */
  lemma DotNodesAppend(events: seq<TypedEvent>, e: TypedEvent)
    requires DotNodes(events).Ok? && DotNode(e).Ok?
    ensures DotNodes(events + [e]) == Ok(DotNodes(events).value + DotNode(e).value)
  {
    var one := [e];
    assert one[0] == e && one[1..] == [];
    assert DotNodes(one[1..]) == Ok("");
    assert DotNode(e).value + "" == DotNode(e).value;
    assert DotNodes(one) == Ok(DotNode(e).value);
    DotNodesConcat(events, one);
  }

  /** `asDotFile()`: the graph header, one node per event of the application
      records, and the closing brace. */
  function AsDotFile(content: seq<PersistedRecord>): (r: Result<string>)
    ensures r.Ok? <==> AllRender(DotEvents(content))
    ensures r.Ok? ==> StartsWith(r.value, DOT_HEADER) && EndsWith(r.value, DOT_FOOTER)
    ensures r.Ok? ==> r.value == DOT_HEADER + DotNodes(DotEvents(content)).value + DOT_FOOTER
  {
    var nodes :- DotNodes(DotEvents(content));
    var r := DOT_HEADER + nodes + DOT_FOOTER;
    assert r[..|DOT_HEADER|] == DOT_HEADER;
    assert r[|r| - |DOT_FOOTER|..] == DOT_FOOTER;
    Ok(r)
  }

  /** A Raft record adds nothing to the graph. */
  lemma RaftRecordsAddNoNodes(content: seq<PersistedRecord>, index: int, term: int)
    ensures AsDotFile(content + [RaftRecord(index, term)]) == AsDotFile(content)
  {
    var more := content + [RaftRecord(index, term)];
    assert more[..|content|] == content;
    assert DotEvents(more) == DotEvents(content) + [];
    assert DotEvents(more) == DotEvents(content);
  }

  /** An application record adds exactly its events, after those before it. */
  lemma ApplicationRecordAddsItsEvents(content: seq<PersistedRecord>, record: PersistedRecord)
    requires record.ApplicationRecord?
    ensures DotEvents(content + [record]) == DotEvents(content) + record.entries
  {
    assert (content + [record])[..|content|] == content;
  }

  /** The graph of no records is the bare header and footer. */
  lemma EmptyDotFile()
    ensures AsDotFile([]) == Ok(DOT_HEADER + DOT_FOOTER)
  {
    assert DotNodes(DotEvents([])) == Ok("");
    assert DOT_HEADER + "" == DOT_HEADER;
  }
}
