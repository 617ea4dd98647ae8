/** `LogWriter`: the log as a table, a title line and then every record's
    column string, in the order the reader returns them. */
module LogWriter {

  import opened Wrappers
  import opened Text
  import JournalReader
  import opened LogReader
  import LogColumns

  const COLUMN_TITLE: string :=
    "Index Term Position SourceRecordPosition Timestamp Key RecordType ValueType Intent ProcessInstanceKey BPMNElementType "

  /** The column string of a record. A Raft record's is not part of this
      model and is a parameter. */
  function ColumnString(record: PersistedRecord, raftColumn: (int, int) -> string): string {
    match record
    case RaftRecord(index, term) => raftColumn(index, term)
    case ApplicationRecord(index, term, _, _, entries) => LogColumns.AsColumnString(index, term, entries)
  }

  /** The column strings of a run of records, in order. */
  function Columns(records: seq<PersistedRecord>, raftColumn: (int, int) -> string): (r: seq<string>)
    ensures |r| == |records|
    ensures forall k :: 0 <= k < |records| ==> r[k] == ColumnString(records[k], raftColumn)
  {
    seq(|records|, k requires 0 <= k < |records| => ColumnString(records[k], raftColumn))
  }

  /** The table of a run of records: the title line, then the records'
      column strings with nothing between them. */
  function Table(records: seq<PersistedRecord>, raftColumn: (int, int) -> string): (r: string)
    ensures StartsWith(r, COLUMN_TITLE + NEWLINE)
  {
    var head := COLUMN_TITLE + NEWLINE;
    var r := head + Concat(Columns(records, raftColumn));
    assert r[..|head|] == head;
    r
  }

  /** With no records the table is the title line alone. */
  lemma EmptyTable(raftColumn: (int, int) -> string)
    ensures Table([], raftColumn) == COLUMN_TITLE + NEWLINE
  {
    assert Columns([], raftColumn) == [];
  }

  /** One more record adds exactly its column string at the end. */
  lemma TableAppend(records: seq<PersistedRecord>, record: PersistedRecord, raftColumn: (int, int) -> string)
    ensures Table(records + [record], raftColumn) == Table(records, raftColumn) + ColumnString(record, raftColumn)
  {
    var cols := Columns(records, raftColumn);
    assert Columns(records + [record], raftColumn) == cols + [ColumnString(record, raftColumn)];
    ConcatAppend(cols, ColumnString(record, raftColumn));
  }

  /** `writeAsTable()`: prints the title line, then drains the reader and
      prints each record's column string after an always-empty separator.
      The printed text is returned; a record that cannot be read ends the
      table with its error. */
  method WriteAsTable(ev: Events, r: Reader, raftColumn: (int, int) -> string)
    returns (out: Result<string>, done: Reader)
    requires JournalReader.Valid(r.journal)
    ensures out.Ok? <==> ToPersistedRecords(ev, Remaining(r)).Ok?
    ensures out.Ok? ==> out.value == Table(ToPersistedRecords(ev, Remaining(r)).value, raftColumn)
    ensures out.Ok? ==> done.journal == r.journal && !JournalReader.HasNext(done)
  {
    var records;
    records, done := ReadAll(ev, r);
    if records.Throws? {
      return Throws(records.error), done;
    }
    var text := Print(records.value, raftColumn);
    out := Ok(text);
  }

  /** The printing loop over the records read. */
  method Print(records: seq<PersistedRecord>, raftColumn: (int, int) -> string) returns (text: string)
    ensures text == Table(records, raftColumn)
  {
    text := COLUMN_TITLE + NEWLINE;
    var separator := "";
    var i := 0;
    PrefixTable(records, 0, raftColumn);
    while i < |records|
      invariant 0 <= i <= |records|
      invariant separator == ""
      invariant text == Table(records[..i], raftColumn)
    {
      PrefixTable(records, i + 1, raftColumn);
      text := text + separator + ColumnString(records[i], raftColumn);
      separator := "";
      i := i + 1;
    }
    assert records[..i] == records;
  }

  /** The table of the first `n` records: the title line for none, one more
      column string for each further record. */
  lemma PrefixTable(records: seq<PersistedRecord>, n: nat, raftColumn: (int, int) -> string)
    requires n <= |records|
    ensures n == 0 ==> Table(records[..n], raftColumn) == COLUMN_TITLE + NEWLINE
    ensures n > 0 ==> Table(records[..n], raftColumn)
                      == Table(records[..n - 1], raftColumn) + "" + ColumnString(records[n - 1], raftColumn)
  {
    if n == 0 {
      assert records[..n] == [];
      EmptyTable(raftColumn);
    } else {
      TableAppend(records[..n - 1], records[n - 1], raftColumn);
      assert records[..n] == records[..n - 1] + [records[n - 1]];
      assert Table(records[..n - 1], raftColumn) + "" == Table(records[..n - 1], raftColumn);
    }
  }
}
