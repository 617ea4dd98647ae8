/** `LogSearch`: point lookups in the log, by log-stream position and by
    Raft index, each looking at the one entry a seek lands on. */
module LogSearch {

  import opened Wrappers
  import JournalReader
  import opened LogHelper
  import opened LogReader
  import LogContent

  /** The first event of a run with the given position, if any. */
  function FirstWithPosition(events: seq<LoggedEvent>, position: int): (r: Option<LoggedEvent>)
    ensures r.Some? ==> r.value in events && r.value.position == position
    ensures r.None? <==> forall k :: 0 <= k < |events| ==> events[k].position != position
    ensures r.Some? ==> exists k :: 0 <= k < |events| && events[k] == r.value
                          && forall j :: 0 <= j < k ==> events[j].position != position
    decreases |events|, 1
  {
    if |events| == 0 then None
    else if events[0].position == position then
      assert events[0] in events;
      Some(events[0])
    else
      FirstWithPositionTail(events, position);
      FirstWithPosition(events[1..], position)
  }

  /** Past a first event with another position, the first match of the rest
      is the first match of the whole run. */
  lemma FirstWithPositionTail(events: seq<LoggedEvent>, position: int)
    requires |events| > 0 && events[0].position != position
    ensures var r := FirstWithPosition(events[1..], position);
            (r.Some? ==> r.value in events && r.value.position == position)
            && (r.None? <==> forall k :: 0 <= k < |events| ==> events[k].position != position)
            && (r.Some? ==> exists k :: 0 <= k < |events| && events[k] == r.value
                                        && forall j :: 0 <= j < k ==> events[j].position != position)
    decreases |events|, 0
  {
    var tail := events[1..];
    var rest := FirstWithPosition(tail, position);
    if rest.Some? {
      var k' :| 0 <= k' < |tail| && tail[k'] == rest.value
                && forall j :: 0 <= j < k' ==> tail[j].position != position;
      assert events[k' + 1] == rest.value;
      forall j | 0 <= j < k' + 1 ensures events[j].position != position {
        if j > 0 {
          assert events[j] == tail[j - 1];
        }
      }
    } else {
      forall k | 0 <= k < |events| ensures events[k].position != position {
        if k > 0 {
          assert events[k] == tail[k - 1];
        }
      }
    }
  }

  /** The framing loop of `searchPosition`: wrap an event at the offset and
      stop when its position is the one sought; otherwise move past its
      length while the offset is inside the buffer. The position is looked
      at before the length, so a match is found even in a frame whose length
      would stop the walk. */
  function FindPosition(wrap: Wrap, buf: Bytes.Bytes, offset: int, position: int): (r: Result<Option<LoggedEvent>>)
    ensures r.Ok? && r.value.Some? ==> r.value.value.position == position
    ensures wrap(buf, offset).Ok? && wrap(buf, offset).value.position == position ==>
              r == Ok(Some(wrap(buf, offset).value))
    ensures wrap(buf, offset).Throws? ==> r == Throws(wrap(buf, offset).error)
    decreases |buf| - offset
  {
    var e :- wrap(buf, offset);
    if e.position == position then Ok(Some(e))
    else if e.length <= 0 then Throws(IllegalState(NON_POSITIVE_LENGTH))
    else if offset + e.length < |buf| then FindPosition(wrap, buf, offset + e.length, position)
    else Ok(None)
  }

  /** Over a buffer whose framing succeeds, the search finds the first framed
      event with the position, and nothing when no event has it. */
  lemma {:induction false} FindPositionInFrames(wrap: Wrap, buf: Bytes.Bytes, offset: int, position: int)
    requires Frames(wrap, buf, offset).Ok?
    ensures FindPosition(wrap, buf, offset, position)
            == Ok(FirstWithPosition(Frames(wrap, buf, offset).value, position))
    decreases |buf| - offset
  {
    var events := Frames(wrap, buf, offset).value;
    var e := wrap(buf, offset).value;
    assert events[0] == e;
    if e.position != position && offset + e.length < |buf| {
      var rest := Frames(wrap, buf, offset + e.length).value;
      assert events == [e] + rest;
      assert events[1..] == rest;
      FindPositionInFrames(wrap, buf, offset + e.length, position);
    } else if e.position != position {
      assert events == [e];
    }
  }

  /** `searchPosition(position)`: nothing for a position of zero or less;
      otherwise seek to the position and look only at the entry the seek
      lands on. A control entry, or an application entry without an event of
      that position, gives nothing; a matching event is returned as a typed
      event. */
  function SearchPosition(ev: Events, r: Reader, position: int): (res: Result<Option<TypedEvent>>)
    requires JournalReader.Valid(r.journal)
    ensures position <= 0 ==> res == Ok(None)
    ensures res.Ok? && res.value.Some? ==> res.value.value.position == position
    ensures var s := SeekToPosition(r, position);
            position > 0 && JournalReader.HasNext(s) && JournalReader.Next(s).0.data.Control? ==>
              res == Ok(None)
    ensures var s := SeekToPosition(r, position);
            position > 0 && !JournalReader.HasNext(s) ==> res == Ok(None)
  {
    if position <= 0 then Ok(None)
    else
      var s := SeekToPosition(r, position);
      if !JournalReader.HasNext(s) then Ok(None)
      else
        var entry := JournalReader.Next(s).0;
        match entry.data
        case Control(_) => Ok(None)
        case Application(_, _, _, data) =>
          var found :- FindPosition(ev.wrap, data, 0, position);
          match found
          case None => Ok(None)
          case Some(e) =>
            LogHelper.ConversionKeepsEvent(ev.convert, e, e.metadata);
            Ok(Some(ConvertToTypedEvent(ev.convert, e, e.metadata)))
  }

  /** When the entry the seek lands on is an application entry whose events
      frame, the search returns the conversion of its first event with the
      position, and nothing when it has none. */
  lemma SearchPositionFindsFirst(ev: Events, r: Reader, position: int)
    requires JournalReader.Valid(r.journal) && position > 0
    requires JournalReader.HasNext(SeekToPosition(r, position))
    requires JournalReader.Next(SeekToPosition(r, position)).0.data.Application?
    requires Frames(ev.wrap, JournalReader.Next(SeekToPosition(r, position)).0.data.data, 0).Ok?
    ensures var data := JournalReader.Next(SeekToPosition(r, position)).0.data.data;
            var first := FirstWithPosition(Frames(ev.wrap, data, 0).value, position);
            SearchPosition(ev, r, position)
            == Ok(if first.None? then None
                  else Some(ConvertToTypedEvent(ev.convert, first.value, first.value.metadata)))
  {
    var data := JournalReader.Next(SeekToPosition(r, position)).0.data.data;
    FindPositionInFrames(ev.wrap, data, 0, position);
  }

  /** `searchIndex(index)`: nothing for an index of zero or less; otherwise
      seek to the index and return a content of exactly the one entry the
      seek lands on, or nothing when there is none. */
  function SearchIndex(ev: Events, r: Reader, index: int): (res: Result<Option<seq<PersistedRecord>>>)
    requires JournalReader.Valid(r.journal)
    ensures index <= 0 ==> res == Ok(None)
    ensures res.Ok? && res.value.Some? ==> |res.value.value| == 1
    ensures index > 0 && r.journal.firstIndex <= index <= JournalReader.LastIndex(r.journal) ==>
              res.Ok? ==> res.value.Some? && res.value.value[0].index == index
    ensures index > JournalReader.LastIndex(r.journal) ==> res == Ok(None)
    ensures 0 < index < r.journal.firstIndex && !JournalReader.IsEmpty(r.journal) ==>
              res.Ok? ==> res.value.Some? && res.value.value[0].index == r.journal.firstIndex
  {
    if index <= 0 then Ok(None)
    else
      var s := JournalReader.Seek(r, index).0;
      if !JournalReader.HasNext(s) then Ok(None)
      else
        var content :- LogContent.AddEntryToContent(ev, JournalReader.Next(s).0, []);
        Ok(Some(content))
  }

  /** The content found is the record the content reader makes of the entry
      at the index, and the search fails exactly when that conversion does. */
  lemma SearchIndexIsConversion(ev: Events, r: Reader, index: int)
    requires JournalReader.Valid(r.journal)
    requires 0 < index && r.journal.firstIndex <= index <= JournalReader.LastIndex(r.journal)
    ensures var entry := r.journal.entries[index - r.journal.firstIndex];
            var record := ToPersistedRecord(ev, entry);
            SearchIndex(ev, r, index) == if record.Ok? then Ok(Some([record.value])) else Throws(record.error)
  {
    var s := JournalReader.Seek(r, index).0;
    var entry := JournalReader.Next(s).0;
    assert entry == r.journal.entries[index - r.journal.firstIndex];
    LogContent.AddEntryIsConversion(ev, entry, []);
  }
}
