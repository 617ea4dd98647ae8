/** The table and JSON renderings of an application record of the
    serialisable record view, whose events carry an optional summary of
    their process-instance value with every part optional. */
module RecordColumns {

  import opened Wrappers
  import opened Text

  /** `ProcessInstanceRelatedValue`: the parts of a value the table shows. */
  datatype ProcessInstanceRelatedValue = ProcessInstanceRelatedValue(
    processInstanceKey: Option<int>, bpmnElementType: Option<string>, processDefinitionKey: Option<int>)

  /** `Record`: an event with its enums by name and the optional summary. */
  datatype Record = Record(position: int, sourceRecordPosition: int, timestamp: int, key: int,
                           recordType: string, valueType: string, intent: string,
                           piRelatedValue: Option<ProcessInstanceRelatedValue>)

  /** An application record and its events. */
  datatype ApplicationRecord = ApplicationRecord(index: int, term: int, highestPosition: int,
                                                 lowestPosition: int, entries: seq<Record>)

  const SEPARATOR: string := " "

  /** The seven columns every record has. */
  function Fields(r: Record): (f: seq<string>)
    ensures |f| == 7 && f[0] == IntToString(r.position) && f[6] == r.intent
  {
    [IntToString(r.position), IntToString(r.sourceRecordPosition), IntToString(r.timestamp),
     IntToString(r.key), r.recordType, r.valueType, r.intent]
  }

  /** The process instance key shown, if any. */
  function ShownKey(r: Record): Option<int> {
    if r.piRelatedValue.Some? then r.piRelatedValue.value.processInstanceKey else None
  }

  /** The element type shown, if any. */
  function ShownType(r: Record): Option<string> {
    if r.piRelatedValue.Some? then r.piRelatedValue.value.bpmnElementType else None
  }

  /** `entryAsColumn(record)`: the seven fields separated by spaces; a
      present process instance key adds a space, the key and a space; a
      present element type then adds itself and a space. */
  function EntryAsColumn(r: Record): (s: string)
    ensures StartsWith(s, IntToString(r.position) + SEPARATOR)
    ensures ShownKey(r).None? && ShownType(r).None? ==> EndsWith(s, SEPARATOR + r.intent)
    ensures ShownKey(r).Some? || ShownType(r).Some? ==> EndsWith(s, SEPARATOR)
  {
    var f := Fields(r);
    var head := f[0] + SEPARATOR;
    var base := Join(f, SEPARATOR);
    StartsWithConcat(head, Join(f[1..], SEPARATOR), head);
    JoinEndsWithLast(f, SEPARATOR);
    var withKey := if ShownKey(r).Some? then base + SEPARATOR + IntToString(ShownKey(r).value) + SEPARATOR
                   else base;
    assert StartsWith(withKey, head) && (ShownKey(r).Some? ==> EndsWith(withKey, SEPARATOR)) by {
      if ShownKey(r).Some? {
        var key := IntToString(ShownKey(r).value);
        StartsWithConcat(base, SEPARATOR, head);
        StartsWithConcat(base + SEPARATOR, key, head);
        StartsWithConcat(base + SEPARATOR + key, SEPARATOR, head);
        EndsWithConcat(base + SEPARATOR + key, SEPARATOR, SEPARATOR);
      }
    }
    var s := if ShownType(r).Some? then withKey + ShownType(r).value + SEPARATOR else withKey;
    assert StartsWith(s, head) && (ShownType(r).Some? ==> EndsWith(s, SEPARATOR)) by {
      if ShownType(r).Some? {
        var b := ShownType(r).value;
        StartsWithConcat(withKey, b, head);
        StartsWithConcat(withKey + b, SEPARATOR, head);
        EndsWithConcat(withKey + b, SEPARATOR, SEPARATOR);
      }
    }
    s
  }

  /** The tokens of a column: the fields, then for a present key the key
      and, when no type follows, an empty token; for a present type the
      type and an empty token. Without a key the type is glued to the
      intent, with no separator between them. */
  function Tokens(r: Record): (t: seq<string>)
    ensures ShownKey(r).None? && ShownType(r).None? ==> t == Fields(r)
    ensures ShownKey(r).Some? ==> |t| == (if ShownType(r).Some? then 10 else 9)
    ensures ShownKey(r).None? && ShownType(r).Some? ==> |t| == 8 && t[6] == r.intent + ShownType(r).value
  {
    var f := Fields(r);
    match (ShownKey(r), ShownType(r))
    case (None, None) => f
    case (Some(k), None) => f + [IntToString(k), ""]
    case (Some(k), Some(b)) => f + [IntToString(k), b, ""]
    case (None, Some(b)) => f[..6] + [r.intent + b, ""]
  }

  /** The column is its tokens joined by the separator. */
  lemma ColumnIsJoin(r: Record)
    ensures EntryAsColumn(r) == Join(Tokens(r), SEPARATOR)
  {
    var f := Fields(r);
    match (ShownKey(r), ShownType(r))
    case (None, None) =>
    case (Some(k), None) =>
      Text.JoinAppend(f, IntToString(k), SEPARATOR);
      Text.JoinAppend(f + [IntToString(k)], "", SEPARATOR);
      assert f + [IntToString(k)] + [""] == f + [IntToString(k), ""];
    case (Some(k), Some(b)) =>
      Text.JoinAppend(f, IntToString(k), SEPARATOR);
      Text.JoinAppend(f + [IntToString(k)], b, SEPARATOR);
      Text.JoinAppend(f + [IntToString(k)] + [b], "", SEPARATOR);
      assert f + [IntToString(k)] + [b] + [""] == f + [IntToString(k), b, ""];
    case (None, Some(b)) =>
      var g := f[..6] + [r.intent + b];
      assert f[..6] + [r.intent] == f;
      Text.JoinAppend(f[..6], r.intent, SEPARATOR);
      Text.JoinAppend(f[..6], r.intent + b, SEPARATOR);
      Text.JoinAppend(g, "", SEPARATOR);
      var j := Join(f[..6], SEPARATOR);
      assert j + SEPARATOR + r.intent + b == j + SEPARATOR + (r.intent + b);
      assert g + [""] == f[..6] + [r.intent + b, ""];
  }

  /** The names a record renders hold no space. */
  predicate SpaceFree(r: Record) {
    && ' ' !in r.recordType && ' ' !in r.valueType && ' ' !in r.intent
    && (ShownType(r).Some? ==> ' ' !in ShownType(r).value)
  }

  /** Without a process-instance summary a column cuts into exactly the
      seven fields; with a key, the key follows them as the eighth token;
      with a type but no key, the intent and the type form one token. */
  lemma SplitColumn(r: Record)
    requires SpaceFree(r)
    ensures Split(EntryAsColumn(r), ' ') == Tokens(r)
    ensures r.piRelatedValue.None? ==> |Split(EntryAsColumn(r), ' ')| == 7
  {
    ColumnIsJoin(r);
    TokensSpaceFree(r);
    SplitJoin(Tokens(r), ' ');
  }

  /** No token of a space-free record holds a space. */
  lemma TokensSpaceFree(r: Record)
    requires SpaceFree(r)
    ensures forall k :: 0 <= k < |Tokens(r)| ==> ' ' !in Tokens(r)[k]
  {
    var t := Tokens(r);
    IntToStringChars(r.position, ' ');
    IntToStringChars(r.sourceRecordPosition, ' ');
    IntToStringChars(r.timestamp, ' ');
    IntToStringChars(r.key, ' ');
    if ShownKey(r).Some? {
      IntToStringChars(ShownKey(r).value, ' ');
    }
  }

  /** The "index term " prefix of every line of a record. */
  function LinePrefix(index: int, term: int): string {
    IntToString(index) + SEPARATOR + IntToString(term) + SEPARATOR
  }

  /** A line of the table cuts into the index, the term and the column's
      tokens: nine tokens for a record without a process-instance summary. */
  lemma SplitLine(index: int, term: int, r: Record)
    requires SpaceFree(r)
    ensures Split(LinePrefix(index, term) + EntryAsColumn(r), ' ')
            == [IntToString(index), IntToString(term)] + Tokens(r)
    ensures r.piRelatedValue.None? ==> |Split(LinePrefix(index, term) + EntryAsColumn(r), ' ')| == 9
  {
    ColumnIsJoin(r);
    var t := [IntToString(index), IntToString(term)] + Tokens(r);
    JoinTwoMore(IntToString(index), IntToString(term), Tokens(r), SEPARATOR);
    IntToStringChars(index, ' ');
    IntToStringChars(term, ' ');
    TokensSpaceFree(r);
    assert forall k :: 0 <= k < |t| ==> ' ' !in t[k] by {
      forall k | 2 <= k < |t| ensures ' ' !in t[k] {
        assert t[k] == Tokens(r)[k - 2];
      }
    }
    SplitJoin(t, ' ');
  }

  /** The lines of a record's table, one per event in order: the index and
      term, then the event's column. */
  function Lines(a: ApplicationRecord): (r: seq<string>)
    ensures |r| == |a.entries|
  {
    seq(|a.entries|, k requires 0 <= k < |a.entries| => LinePrefix(a.index, a.term) + EntryAsColumn(a.entries[k]))
  }

  /** `asColumnString()`: every record as a line, prefixed with the index
      and term and ended by a line end. */
  function AsColumnString(a: ApplicationRecord): (s: string)
    ensures a.entries == [] ==> s == ""
    ensures a.entries != [] ==>
              StartsWith(s, LinePrefix(a.index, a.term) + EntryAsColumn(a.entries[0])) && EndsWith(s, NEWLINE)
  {
    var lines := Lines(a);
    var s := Terminated(lines, NEWLINE);
    assert a.entries != [] ==> s == lines[0] + NEWLINE + Terminated(lines[1..], NEWLINE);
    assert a.entries != [] ==> s[..|lines[0]|] == lines[0];
    assert a.entries != [] ==> EndsWith(s, NEWLINE) by {
      if a.entries != [] { TerminatedEnds(lines, NEWLINE); }
    }
    s
  }

  /** The names a record renders hold no line end. */
  predicate LineFree(r: Record) {
    && '\n' !in r.recordType && '\n' !in r.valueType && '\n' !in r.intent
    && (ShownType(r).Some? ==> '\n' !in ShownType(r).value)
  }

  /** A record's line holds no line end when its names hold none. */
  lemma LineHasNoLineEnd(index: int, term: int, r: Record)
    requires LineFree(r)
    ensures '\n' !in LinePrefix(index, term) + EntryAsColumn(r)
  {
    ColumnIsJoin(r);
    IntToStringChars(index, '\n');
    IntToStringChars(term, '\n');
    IntToStringChars(r.position, '\n');
    IntToStringChars(r.sourceRecordPosition, '\n');
    IntToStringChars(r.timestamp, '\n');
    IntToStringChars(r.key, '\n');
    if ShownKey(r).Some? {
      IntToStringChars(ShownKey(r).value, '\n');
    }
    var t := Tokens(r);
    assert forall k :: 0 <= k < |t| ==> '\n' !in t[k];
    JoinFree(t, SEPARATOR, '\n');
  }

  /** Cutting the column string at its line ends gives one line per event,
      in order, each the record's index and term and the event's column, and
      the empty text after the last line end. */
  lemma ColumnStringLines(a: ApplicationRecord)
    requires forall k :: 0 <= k < |a.entries| ==> LineFree(a.entries[k])
    ensures Split(AsColumnString(a), '\n') == Lines(a) + [""]
    ensures forall k :: 0 <= k < |a.entries| ==>
              Lines(a)[k] == LinePrefix(a.index, a.term) + EntryAsColumn(a.entries[k])
  {
    var lines := Lines(a);
    forall k | 0 <= k < |lines| ensures '\n' !in lines[k] {
      LineHasNoLineEnd(a.index, a.term, a.entries[k]);
    }
    SplitTerminated(lines, '\n');
  }

  /** Text terminated part by part ends with the terminator. */
  lemma {:induction false} TerminatedEnds(parts: seq<string>, term: string)
    requires |parts| > 0
    ensures EndsWith(Terminated(parts, term), term)
  {
    if |parts| > 1 {
      TerminatedEnds(parts[1..], term);
    }
  }

  /** `entriesAsJson()`: the records' JSON joined with ", ". The JSON of a
      record is the serialiser's and a parameter here. */
  function EntriesAsJson(entries: seq<Record>, toJson: Record -> string): (s: string)
    ensures entries == [] ==> s == ""
    ensures |entries| == 1 ==> s == toJson(entries[0])
  {
    Join(seq(|entries|, k requires 0 <= k < |entries| => toJson(entries[k])), ", ")
  }

  /** One more record adds ", " and its JSON to a non-empty list. */
  lemma EntriesAsJsonAppend(entries: seq<Record>, last: Record, toJson: Record -> string)
    requires |entries| > 0
    ensures EntriesAsJson(entries + [last], toJson) == EntriesAsJson(entries, toJson) + ", " + toJson(last)
  {
    var parts := seq(|entries|, k requires 0 <= k < |entries| => toJson(entries[k]));
    var all := entries + [last];
    assert seq(|all|, k requires 0 <= k < |all| => toJson(all[k])) == parts + [toJson(last)];
    Text.JoinAppend(parts, toJson(last), ", ");
  }

  /** `toString()`: the record's fields and its entries' JSON in a JSON
      object. */
  function ToString(a: ApplicationRecord, toJson: Record -> string): (s: string)
    ensures StartsWith(s, "{\"index\":" + IntToString(a.index) + ", \"term\":")
    ensures EndsWith(s, ",\"entries\":[" + EntriesAsJson(a.entries, toJson) + "]}")
  {
    var head := "{\"index\":" + IntToString(a.index) + ", \"term\":";
    var tail := ",\"entries\":[" + EntriesAsJson(a.entries, toJson) + "]}";
    var s := head + IntToString(a.term) + ",\"highestPosition\":" + IntToString(a.highestPosition)
             + ",\"lowestPosition\":" + IntToString(a.lowestPosition) + tail;
    assert s[..|head|] == head;
    assert s[|s| - |tail|..] == tail;
    s
  }
}
