/** The `IndexSearcher` and `PositionSearcher` of both `LogSearch` commands
    of the older tool: a walk from the first entry of the log that stops at
    the first entry at or past what is sought. */
module ScanSearch {

  import opened Wrappers
  import opened Bytes
  import opened RaftLog
  import opened LogHelper
  import LogReader
  import LogSearch

  /** How an index search ends: the first entry past the index (the index
      is not in the log), the entry with the index, or the end of the log
      with the number of entries walked and the last index seen, which is 0
      when the log is empty. */
  datatype IndexOutcome =
    | NotInLog(firstIndex: int)
    | FoundIndex(entry: Indexed)
    | IndexEndOfLog(scannedEntries: int, lastIndex: int)

  /** `searchIndex(searchIndex)` from the entry at `from`, with the count
      and last index of the entries walked before it. */
  function SearchIndexFrom(entries: seq<Indexed>, searchIndex: int, from: nat, scanned: int, lastIndex: int)
    : (r: IndexOutcome)
    requires from <= |entries|
    ensures r.NotInLog? ==> exists k :: from <= k < |entries| && entries[k].index == r.firstIndex > searchIndex
                              && forall j :: from <= j < k ==> entries[j].index < searchIndex
    ensures r.FoundIndex? ==> exists k :: from <= k < |entries| && entries[k] == r.entry && r.entry.index == searchIndex
                                && forall j :: from <= j < k ==> entries[j].index < searchIndex
    ensures r.IndexEndOfLog? <==> forall k :: from <= k < |entries| ==> entries[k].index < searchIndex
    ensures r.IndexEndOfLog? ==>
              r.scannedEntries == scanned + |entries| - from
              && r.lastIndex == if from == |entries| then lastIndex else entries[|entries| - 1].index
    decreases |entries| - from
  {
    if from == |entries| then IndexEndOfLog(scanned, lastIndex)
    else
      var currentIndex := entries[from].index;
      if searchIndex < currentIndex then NotInLog(currentIndex)
      else if searchIndex == currentIndex then FoundIndex(entries[from])
      else SearchIndexFrom(entries, searchIndex, from + 1, scanned + 1, currentIndex)
  }

  /** `searchIndex(searchIndex)`: the reader is reset, so the walk starts at
      the first entry with nothing counted and the last index at 0. */
  function SearchIndex(entries: seq<Indexed>, searchIndex: int): (r: IndexOutcome)
    ensures r.NotInLog? ==> exists k :: 0 <= k < |entries| && entries[k].index == r.firstIndex > searchIndex
                              && forall j :: 0 <= j < k ==> entries[j].index < searchIndex
    ensures r.FoundIndex? ==> exists k :: 0 <= k < |entries| && entries[k] == r.entry && r.entry.index == searchIndex
                                && forall j :: 0 <= j < k ==> entries[j].index < searchIndex
    ensures r.IndexEndOfLog? <==> forall k :: 0 <= k < |entries| ==> entries[k].index < searchIndex
    ensures r.IndexEndOfLog? ==>
              r.scannedEntries == |entries|
              && r.lastIndex == if entries == [] then 0 else entries[|entries| - 1].index
  {
    SearchIndexFrom(entries, searchIndex, 0, 0, 0)
  }

  /** Indices strictly ascending, as a Raft log's are. */
  predicate Ascending(entries: seq<Indexed>) {
    forall j, k :: 0 <= j < k < |entries| ==> entries[j].index < entries[k].index
  }

  /** In a log of ascending indices the search finds the entry with the
      index when there is one, and reports the first index of the log when
      the index lies before it. */
  lemma SearchIndexInAscendingLog(entries: seq<Indexed>, searchIndex: int)
    requires Ascending(entries)
    ensures forall k :: 0 <= k < |entries| && entries[k].index == searchIndex ==>
              SearchIndex(entries, searchIndex) == FoundIndex(entries[k])
    ensures |entries| > 0 && searchIndex < entries[0].index ==>
              SearchIndex(entries, searchIndex) == NotInLog(entries[0].index)
  {
    var r := SearchIndex(entries, searchIndex);
    forall k | 0 <= k < |entries| && entries[k].index == searchIndex
      ensures r == FoundIndex(entries[k])
    {
      assert !r.IndexEndOfLog?;
      assert !r.NotInLog?;
      var k' :| 0 <= k' < |entries| && entries[k'] == r.entry && r.entry.index == searchIndex
                && forall j :: 0 <= j < k' ==> entries[j].index < searchIndex;
      assert k' == k;
    }
    if |entries| > 0 && searchIndex < entries[0].index {
      assert r == NotInLog(entries[0].index);
    }
  }

  /** How a position search ends: the first Zeebe entry whose highest
      position reaches the position, which holds it or lies past it, or the
      end of the log with the number of entries walked and the highest
      position of the last Zeebe entry (the long sentinel when there is
      none). */
  datatype PositionOutcome =
    | FoundPosition(index: int, lowestPosition: int, highestPosition: int, data: Bytes)
    | NotFound(index: int, lowestPosition: int, highestPosition: int)
    | PositionEndOfLog(scannedEntries: int, lastRecordPosition: int)

  /** Whether an entry is a Zeebe entry reaching the position. */
  predicate Reaches(e: Indexed, position: int) {
    e.entry.ZeebeEntry? && e.entry.highestPosition >= position
  }

  /** The highest position of the last Zeebe entry of a run, or the
      sentinel. */
  function LastRecordPosition(entries: seq<Indexed>, start: int): (r: int)
    ensures r == start || exists k :: 0 <= k < |entries| && entries[k].entry.ZeebeEntry?
                                       && r == entries[k].entry.highestPosition
    decreases |entries|
  {
    if |entries| == 0 then start
    else
      var n := |entries| - 1;
      if entries[n].entry.ZeebeEntry? then entries[n].entry.highestPosition
      else
        assert forall k :: 0 <= k < n ==> entries[..n][k] == entries[k];
        LastRecordPosition(entries[..n], start)
  }

  /** `searchPosition(searchPosition)` from the entry at `from`: entries
      that are not Zeebe entries are walked past and counted; the first
      Zeebe entry reaching the position ends the walk. */
  function SearchPositionFrom(entries: seq<Indexed>, searchPosition: int, from: nat, scanned: int,
                              lastRecordPosition: int): (r: PositionOutcome)
    requires from <= |entries|
    ensures r.FoundPosition? ==>
              exists k :: from <= k < |entries| && Reaches(entries[k], searchPosition)
                          && entries[k].entry.lowestPosition <= searchPosition
                          && r == FoundPosition(entries[k].index, entries[k].entry.lowestPosition,
                                                entries[k].entry.highestPosition, entries[k].entry.data)
                          && forall j :: from <= j < k ==> !Reaches(entries[j], searchPosition)
    ensures r.NotFound? ==>
              exists k :: from <= k < |entries| && Reaches(entries[k], searchPosition)
                          && entries[k].entry.lowestPosition > searchPosition
                          && r == NotFound(entries[k].index, entries[k].entry.lowestPosition,
                                           entries[k].entry.highestPosition)
                          && forall j :: from <= j < k ==> !Reaches(entries[j], searchPosition)
    ensures r.PositionEndOfLog? <==> forall k :: from <= k < |entries| ==> !Reaches(entries[k], searchPosition)
    ensures r.PositionEndOfLog? ==>
              r.scannedEntries == scanned + |entries| - from
              && r.lastRecordPosition == LastRecordPosition(entries[from..], lastRecordPosition)
    decreases |entries| - from
  {
    if from == |entries| then PositionEndOfLog(scanned, lastRecordPosition)
    else
      var e := entries[from];
      assert entries[from..][1..] == entries[from + 1..];
      match e.entry
      case ZeebeEntry(lowest, highest, data) =>
        if highest >= searchPosition then
          if lowest <= searchPosition then FoundPosition(e.index, lowest, highest, data)
          else NotFound(e.index, lowest, highest)
        else
          var r := SearchPositionFrom(entries, searchPosition, from + 1, scanned + 1, highest);
          assert r.PositionEndOfLog? ==> r.lastRecordPosition == LastRecordPosition(entries[from..], lastRecordPosition) by {
            if r.PositionEndOfLog? { LastAfterZeebe(entries[from..], lastRecordPosition); }
          }
          r
      case _ =>
        var r := SearchPositionFrom(entries, searchPosition, from + 1, scanned + 1, lastRecordPosition);
        assert r.PositionEndOfLog? ==> r.lastRecordPosition == LastRecordPosition(entries[from..], lastRecordPosition) by {
          if r.PositionEndOfLog? { LastAfterOther(entries[from..], lastRecordPosition); }
        }
        r
  }

  /** The last Zeebe entry's position after a Zeebe entry: the later one's
      if there is one, else that entry's. */
  lemma {:induction false} LastAfterZeebe(entries: seq<Indexed>, start: int)
    requires |entries| > 0 && entries[0].entry.ZeebeEntry?
    ensures LastRecordPosition(entries, start)
            == LastRecordPosition(entries[1..], entries[0].entry.highestPosition)
    decreases |entries|
  {
    var n := |entries| - 1;
    if n > 0 && !entries[n].entry.ZeebeEntry? {
      assert entries[..n][1..] == entries[1..][..n - 1];
      LastAfterZeebe(entries[..n], start);
    }
  }

  /** An entry that is not a Zeebe entry does not change the last position. */
  lemma {:induction false} LastAfterOther(entries: seq<Indexed>, start: int)
    requires |entries| > 0 && !entries[0].entry.ZeebeEntry?
    ensures LastRecordPosition(entries, start) == LastRecordPosition(entries[1..], start)
    decreases |entries|
  {
    var n := |entries| - 1;
    if n > 0 && !entries[n].entry.ZeebeEntry? {
      assert entries[..n][1..] == entries[1..][..n - 1];
      LastAfterOther(entries[..n], start);
    }
  }

  /** `searchPosition(searchPosition)`: the reader is reset, so the walk
      starts at the first entry with nothing counted and the last record
      position at its sentinel. */
  function SearchPosition(entries: seq<Indexed>, searchPosition: int): (r: PositionOutcome)
    ensures r.FoundPosition? || r.NotFound? ==>
              exists k :: 0 <= k < |entries| && Reaches(entries[k], searchPosition)
                          && r.index == entries[k].index
                          && (r.FoundPosition? <==> entries[k].entry.lowestPosition <= searchPosition)
                          && forall j :: 0 <= j < k ==> !Reaches(entries[j], searchPosition)
    ensures r.PositionEndOfLog? <==> forall k :: 0 <= k < |entries| ==> !Reaches(entries[k], searchPosition)
    ensures r.PositionEndOfLog? ==>
              r.scannedEntries == |entries| && r.lastRecordPosition == LastRecordPosition(entries, LONG_MIN)
  {
    assert entries[0..] == entries;
    SearchPositionFrom(entries, searchPosition, 0, 0, LONG_MIN)
  }

  /** How `processEntry` ends: the event with the position, or the
      position of the last event looked at. */
  datatype EventOutcome = FoundEvent(event: LoggedEvent) | LastPosition(position: int)

  /** `processEntry(searchPosition, entry)` of the newer command: wrap the
      events of the entry from offset 0, stop at the first with the
      position, and otherwise remember its position and move past its
      length while the offset is inside the buffer. A non-positive length
      would never leave the loop and is reported as an error. */
  function ProcessEntry(wrap: LogReader.Wrap, buf: Bytes, offset: int, searchPosition: int, lastPosition: int)
    : (r: Result<EventOutcome>)
    ensures r.Ok? && r.value.FoundEvent? ==> r.value.event.position == searchPosition
    decreases |buf| - offset
  {
    var e :- wrap(buf, offset);
    if searchPosition == e.position then Ok(FoundEvent(e))
    else if e.length <= 0 then Throws(IllegalState(LogReader.NON_POSITIVE_LENGTH))
    else if offset + e.length < |buf| then ProcessEntry(wrap, buf, offset + e.length, searchPosition, e.position)
    else Ok(LastPosition(e.position))
  }

  /** The newer command's scan of an entry finds the same event as the
      position search of the log view, and fails the same way. */
  lemma {:induction false} ProcessEntryAgreesWithLogSearch(wrap: LogReader.Wrap, buf: Bytes, offset: int,
                                                          searchPosition: int, lastPosition: int)
    ensures var mine := ProcessEntry(wrap, buf, offset, searchPosition, lastPosition);
            var theirs := LogSearch.FindPosition(wrap, buf, offset, searchPosition);
            && (mine.Ok? <==> theirs.Ok?)
            && (mine.Throws? ==> mine.error == theirs.error)
            && (mine.Ok? ==> (mine.value.FoundEvent? <==> theirs.value.Some?))
            && (mine.Ok? && mine.value.FoundEvent? ==> theirs.value.value == mine.value.event)
    decreases |buf| - offset
  {
    var w := wrap(buf, offset);
    if w.Ok? {
      var e := w.value;
      if searchPosition != e.position && e.length > 0 && offset + e.length < |buf| {
        ProcessEntryAgreesWithLogSearch(wrap, buf, offset + e.length, searchPosition, e.position);
      }
    }
  }

  /** The whole position search of the newer command: when the search
      finds an entry holding the position, its events are scanned. */
  function SearchPositionWithEvents(wrap: LogReader.Wrap, entries: seq<Indexed>, searchPosition: int)
    : (r: (PositionOutcome, Option<Result<EventOutcome>>))
    ensures r.0 == SearchPosition(entries, searchPosition)
    ensures r.1.Some? <==> r.0.FoundPosition?
    ensures r.1.Some? ==> r.1.value == ProcessEntry(wrap, r.0.data, 0, searchPosition, 0)
  {
    var outcome := SearchPosition(entries, searchPosition);
    if outcome.FoundPosition? then (outcome, Some(ProcessEntry(wrap, outcome.data, 0, searchPosition, 0)))
    else (outcome, None)
  }

  /** A search past the last index of an ascending log walks the whole log
      and reports its last index. */
  lemma SearchIndexPastLog(entries: seq<Indexed>, searchIndex: int)
    requires Ascending(entries) && |entries| > 0 && searchIndex > entries[|entries| - 1].index
    ensures SearchIndex(entries, searchIndex) == IndexEndOfLog(|entries|, entries[|entries| - 1].index)
  {
    forall k | 0 <= k < |entries| ensures entries[k].index < searchIndex {
      if k < |entries| - 1 {
        assert entries[k].index < entries[|entries| - 1].index;
      }
    }
  }

  /** The first Zeebe entry that holds the position is the one reported,
      when no Zeebe entry before it reaches the position. */
  lemma FirstHoldingEntryFound(entries: seq<Indexed>, searchPosition: int, k: nat)
    requires k < |entries| && entries[k].entry.ZeebeEntry?
    requires entries[k].entry.lowestPosition <= searchPosition <= entries[k].entry.highestPosition
    requires forall j :: 0 <= j < k ==> !Reaches(entries[j], searchPosition)
    ensures SearchPosition(entries, searchPosition)
            == FoundPosition(entries[k].index, entries[k].entry.lowestPosition,
                             entries[k].entry.highestPosition, entries[k].entry.data)
  {
    var r := SearchPositionFrom(entries, searchPosition, 0, 0, LONG_MIN);
    assert Reaches(entries[k], searchPosition);
    assert r.FoundPosition?;
    var k' :| 0 <= k' < |entries| && Reaches(entries[k'], searchPosition)
              && entries[k'].entry.lowestPosition <= searchPosition
              && r == FoundPosition(entries[k'].index, entries[k'].entry.lowestPosition,
                                    entries[k'].entry.highestPosition, entries[k'].entry.data)
              && forall j :: 0 <= j < k' ==> !Reaches(entries[j], searchPosition);
    assert k' == k;
  }
}
