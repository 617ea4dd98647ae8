/** The Raft log as the tool reads it: journal records whose data is a Raft
    entry, either a control entry (term only) or an application entry holding
    a run of framed log-stream events. `LogContentReader` turns each entry
    into a persisted record, walking the framed events one after the other. */
module LogReader {

  import opened Wrappers
  import opened Bytes
  import JournalReader
  import opened LogHelper

  /** The Raft entry one journal record holds. */
  datatype RaftEntry =
    | Control(term: int)
    | Application(term: int, lowestPosition: int, highestPosition: int, data: Bytes)

  type Entry = JournalReader.Entry<RaftEntry>
  type Reader = JournalReader.Reader<RaftEntry>

  /** `LoggedEventImpl.wrap(buffer, offset)`: the event framed at an offset. */
  type Wrap = (Bytes, int) -> Result<LoggedEvent>

  /** What the record view reads from an entry: the framing and the typed
      event conversion. */
  datatype Events = Events(wrap: Wrap, convert: LogHelper.Foreign)

  /** `PersistedRecord`: a Raft record, or an application record with its
      typed events in buffer order. */
  datatype PersistedRecord =
    | RaftRecord(index: int, term: int)
    | ApplicationRecord(index: int, term: int, highestPosition: int, lowestPosition: int,
                        entries: seq<TypedEvent>)

  const NON_POSITIVE_LENGTH: string := "Framed event with a non-positive length"

  // ---- framing ----

  /** The offsets a run of events sits at, the first at `offset` and each
      next one past the length of the one before. */
  function Offsets(offset: int, events: seq<LoggedEvent>): (r: seq<int>)
    ensures |r| == |events|
    decreases |events|
  {
    if |events| == 0 then [] else [offset] + Offsets(offset + events[0].length, events[1..])
  }

  /** The offset just past a run of events. */
  function End(offset: int, events: seq<LoggedEvent>): int
    decreases |events|
  {
    if |events| == 0 then offset else End(offset + events[0].length, events[1..])
  }

  /** The framing loop of `convertToPersistedRecord`: wrap an event at the
      offset, move past its length, and go on while the offset is inside the
      buffer. The first event is wrapped whatever the buffer's size. A frame
      length of zero or less would never leave the loop; it is reported as an
      error. */
  function Frames(wrap: Wrap, buf: Bytes, offset: int): (r: Result<seq<LoggedEvent>>)
    ensures r.Ok? ==> |r.value| > 0 && wrap(buf, offset) == Ok(r.value[0])
    ensures wrap(buf, offset).Throws? ==> r == Throws(wrap(buf, offset).error)
    decreases |buf| - offset
  {
    var e :- wrap(buf, offset);
    if e.length <= 0 then Throws(IllegalState(NON_POSITIVE_LENGTH))
    else if offset + e.length < |buf| then
      var rest :- Frames(wrap, buf, offset + e.length);
      Ok([e] + rest)
    else Ok([e])
  }

  /** The events of a buffer, described without the loop: each is the event
      wrapped at its offset, every length is positive, every offset after the
      first is inside the buffer, and the last event reaches its end. */
  predicate Chained(wrap: Wrap, buf: Bytes, offset: int, events: seq<LoggedEvent>) {
    var at := Offsets(offset, events);
    && |events| > 0
    && (forall k :: 0 <= k < |events| ==> wrap(buf, at[k]) == Ok(events[k]) && events[k].length > 0)
    && (forall k :: 0 < k < |events| ==> at[k] < |buf|)
    && End(offset, events) >= |buf|
  }

  lemma OffsetsCons(offset: int, e: LoggedEvent, rest: seq<LoggedEvent>)
    ensures Offsets(offset, [e] + rest) == [offset] + Offsets(offset + e.length, rest)
    ensures End(offset, [e] + rest) == End(offset + e.length, rest)
  {
    assert ([e] + rest)[1..] == rest;
  }

  /** A single event is a chained run iff it reaches the buffer's end. */
  lemma ChainedSingle(wrap: Wrap, buf: Bytes, offset: int, e: LoggedEvent)
    requires wrap(buf, offset) == Ok(e) && e.length > 0
    ensures Chained(wrap, buf, offset, [e]) <==> offset + e.length >= |buf|
  {
    OffsetsCons(offset, e, []);
  }

  /** The rest of a chained run is chained from the second offset. */
  lemma ChainedTail(wrap: Wrap, buf: Bytes, offset: int, e: LoggedEvent, rest: seq<LoggedEvent>)
    requires |rest| > 0 && Chained(wrap, buf, offset, [e] + rest)
    ensures wrap(buf, offset) == Ok(e) && e.length > 0 && offset + e.length < |buf|
    ensures Chained(wrap, buf, offset + e.length, rest)
  {
    var all := [e] + rest;
    OffsetsCons(offset, e, rest);
    var at := Offsets(offset, all);
    assert at[0] == offset && all[0] == e;
    assert at[1] == offset + e.length;
    forall k | 0 <= k < |rest| ensures Offsets(offset + e.length, rest)[k] == at[k + 1] && rest[k] == all[k + 1] {
    }
  }

  /** An event that stops short of the end, followed by a run chained from
      the next offset, is a chained run. */
  lemma ChainedJoin(wrap: Wrap, buf: Bytes, offset: int, e: LoggedEvent, rest: seq<LoggedEvent>)
    requires wrap(buf, offset) == Ok(e) && e.length > 0 && offset + e.length < |buf|
    requires Chained(wrap, buf, offset + e.length, rest)
    ensures Chained(wrap, buf, offset, [e] + rest)
  {
    var all := [e] + rest;
    OffsetsCons(offset, e, rest);
    var at := Offsets(offset, all);
    forall k | 0 < k < |all| ensures at[k] == Offsets(offset + e.length, rest)[k - 1] && all[k] == rest[k - 1] {
    }
  }

  /** What the framing loop yields is a chained run. */
  lemma {:induction false} FramesChained(wrap: Wrap, buf: Bytes, offset: int)
    requires Frames(wrap, buf, offset).Ok?
    ensures Chained(wrap, buf, offset, Frames(wrap, buf, offset).value)
    decreases |buf| - offset
  {
    var e := wrap(buf, offset).value;
    if offset + e.length < |buf| {
      var rest := Frames(wrap, buf, offset + e.length).value;
      FramesChained(wrap, buf, offset + e.length);
      ChainedJoin(wrap, buf, offset, e, rest);
    } else {
      ChainedSingle(wrap, buf, offset, e);
    }
  }

  /** A chained run is what the framing loop yields. */
  lemma {:induction false} ChainedFrames(wrap: Wrap, buf: Bytes, offset: int, events: seq<LoggedEvent>)
    requires Chained(wrap, buf, offset, events)
    ensures Frames(wrap, buf, offset) == Ok(events)
    decreases |buf| - offset
  {
    var e := events[0];
    var rest := events[1..];
    assert events == [e] + rest;
    OffsetsCons(offset, e, rest);
    if |rest| > 0 {
      ChainedTail(wrap, buf, offset, e, rest);
      ChainedFrames(wrap, buf, offset + e.length, rest);
    } else {
      assert events == [e];
      assert Offsets(offset, events)[0] == offset;
      assert wrap(buf, offset) == Ok(e) && e.length > 0;
      ChainedSingle(wrap, buf, offset, e);
      assert offset + e.length >= |buf|;
    }
  }

  /** The framing loop yields exactly the chained run of events. */
  lemma FramesAreChained(wrap: Wrap, buf: Bytes, offset: int, events: seq<LoggedEvent>)
    ensures Frames(wrap, buf, offset) == Ok(events) <==> Chained(wrap, buf, offset, events)
  {
    if Frames(wrap, buf, offset) == Ok(events) {
      FramesChained(wrap, buf, offset);
    }
    if Chained(wrap, buf, offset, events) {
      ChainedFrames(wrap, buf, offset, events);
    }
  }

  // ---- records ----

  /** The typed events of an application entry's data. */
  function TypedEvents(ev: Events, data: Bytes): (r: Result<seq<TypedEvent>>)
    ensures r.Ok? <==> Frames(ev.wrap, data, 0).Ok?
    ensures r.Ok? ==> var frames := Frames(ev.wrap, data, 0).value;
              |r.value| == |frames|
              && forall k :: 0 <= k < |frames| ==>
                   r.value[k] == ConvertToTypedEvent(ev.convert, frames[k], frames[k].metadata)
  {
    var frames :- Frames(ev.wrap, data, 0);
    Ok(seq(|frames|, k requires 0 <= k < |frames| => ConvertToTypedEvent(ev.convert, frames[k], frames[k].metadata)))
  }

  /** `convertToPersistedRecord(entry)`: a Raft record for a control entry;
      for an application entry, a record with the entry's index, term and
      positions and one typed event per framed event, in buffer order. */
  function ToPersistedRecord(ev: Events, entry: Entry): (r: Result<PersistedRecord>)
    ensures entry.data.Control? ==> r == Ok(RaftRecord(entry.index, entry.data.term))
    ensures entry.data.Application? ==>
              (r.Ok? <==> TypedEvents(ev, entry.data.data).Ok?)
              && (r.Ok? ==> r.value.ApplicationRecord? && r.value.index == entry.index
                            && r.value.term == entry.data.term
                            && r.value.highestPosition == entry.data.highestPosition
                            && r.value.lowestPosition == entry.data.lowestPosition
                            && r.value.entries == TypedEvents(ev, entry.data.data).value)
  {
    match entry.data
    case Control(term) => Ok(RaftRecord(entry.index, term))
    case Application(term, lowest, highest, data) =>
      var events :- TypedEvents(ev, data);
      Ok(ApplicationRecord(entry.index, term, highest, lowest, events))
  }

  /** The records of a run of entries, in order, up to the first failure. */
  function ToPersistedRecords(ev: Events, entries: seq<Entry>): (r: Result<seq<PersistedRecord>>)
    ensures r.Ok? ==> |r.value| == |entries|
    ensures r.Ok? ==> forall k :: 0 <= k < |entries| ==> ToPersistedRecord(ev, entries[k]) == Ok(r.value[k])
    ensures (forall k :: 0 <= k < |entries| ==> ToPersistedRecord(ev, entries[k]).Ok?) ==> r.Ok?
  {
    if |entries| == 0 then Ok([])
    else
      var head :- ToPersistedRecord(ev, entries[0]);
      var tail :- ToPersistedRecords(ev, entries[1..]);
      assert forall k :: 1 <= k < |entries| ==> entries[k] == entries[1..][k - 1];
      Ok([head] + tail)
  }

  /** The entries a reader has yet to return. */
  function Remaining(r: Reader): (es: seq<Entry>)
    requires JournalReader.Valid(r.journal)
    ensures JournalReader.HasNext(r) ==> |es| == JournalReader.LastIndex(r.journal) - r.nextIndex + 1
    ensures !JournalReader.HasNext(r) ==> es == []
  {
    if JournalReader.HasNext(r) then r.journal.entries[r.nextIndex - r.journal.firstIndex..] else []
  }

  /** `readAll()`: drains the reader, converting every entry it returns. */
  method ReadAll(ev: Events, r: Reader) returns (records: Result<seq<PersistedRecord>>, done: Reader)
    requires JournalReader.Valid(r.journal)
    ensures records == ToPersistedRecords(ev, Remaining(r))
    ensures records.Ok? ==> done.journal == r.journal && !JournalReader.HasNext(done)
  {
    var cursor := r;
    var acc: seq<PersistedRecord> := [];
    ghost var all := Remaining(r);
    while JournalReader.HasNext(cursor)
      invariant cursor.journal == r.journal
      invariant |acc| <= |all|
      invariant JournalReader.HasNext(cursor) ==> Remaining(cursor) == all[|acc|..]
      invariant !JournalReader.HasNext(cursor) ==> |acc| == |all|
      invariant ToPersistedRecords(ev, all[..|acc|]) == Ok(acc)
      decreases JournalReader.LastIndex(cursor.journal) - cursor.nextIndex
    {
      var (entry, next) := JournalReader.Next(cursor);
      var record := ToPersistedRecord(ev, entry);
      assert entry == all[|acc|];
      if record.Throws? {
        PrefixThrows(ev, all, |acc|);
        return Throws(record.error), next;
      }
      PrefixAppend(ev, all, acc, record.value);
      acc := acc + [record.value];
      cursor := next;
    }
    assert all[..|acc|] == all;
    return Ok(acc), cursor;
  }

  /** Extending a converted prefix by one entry. */
  lemma PrefixAppend(ev: Events, all: seq<Entry>, acc: seq<PersistedRecord>, record: PersistedRecord)
    requires |acc| < |all|
    requires ToPersistedRecords(ev, all[..|acc|]) == Ok(acc)
    requires ToPersistedRecord(ev, all[|acc|]) == Ok(record)
    ensures ToPersistedRecords(ev, all[..|acc| + 1]) == Ok(acc + [record])
  {
    var n := |acc|;
    var next := all[..n + 1];
    assert ToPersistedRecords(ev, next).Ok? by {
      forall k | 0 <= k < |next| ensures ToPersistedRecord(ev, next[k]).Ok? {
        if k < n {
          assert next[k] == all[..n][k];
        }
      }
    }
    var got := ToPersistedRecords(ev, next).value;
    forall k | 0 <= k < n + 1 ensures got[k] == (acc + [record])[k] {
      if k < n {
        assert next[k] == all[..n][k];
        assert ToPersistedRecord(ev, all[..n][k]) == Ok(acc[k]);
      }
    }
    assert |got| == n + 1;
    assert got == acc + [record];
  }

  /** A failing entry makes the whole conversion fail with its error. */
  lemma {:induction false} PrefixThrows(ev: Events, all: seq<Entry>, n: nat)
    requires n < |all|
    requires ToPersistedRecords(ev, all[..n]).Ok?
    requires ToPersistedRecord(ev, all[n]).Throws?
    ensures ToPersistedRecords(ev, all) == Throws(ToPersistedRecord(ev, all[n]).error)
    decreases n
  {
    if n > 0 {
      assert all[..n][0] == all[0];
      assert all[..n][1..] == all[1..][..n - 1];
      PrefixThrows(ev, all[1..], n - 1);
    }
  }

  // ---- seeking ----

  /** `seekToPosition(position)`: the reader's ASQN seek, the ASQN of an
      application entry being a log-stream position. The entries left to
      read start at the last entry with an ASQN at most the position, which
      in a log of ascending ASQNs is the one with the highest such ASQN;
      without one, the whole journal is left to read. */
  function SeekToPosition(r: Reader, position: int): (s: Reader)
    requires JournalReader.Valid(r.journal)
    ensures s.journal == r.journal
    ensures (forall e :: e in r.journal.entries ==> !Reaches(r, e, position)) ==>
              Remaining(s) == r.journal.entries
    ensures (exists e :: e in r.journal.entries && Reaches(r, e, position)) ==>
              Remaining(s) != [] && Reaches(r, Remaining(s)[0], position)
              && forall k :: 0 < k < |Remaining(s)| ==> !Reaches(r, Remaining(s)[k], position)
    ensures JournalReader.AsqnsAscending(r.journal) ==>
              forall e :: e in r.journal.entries && Reaches(r, e, position) ==>
                Remaining(s) != [] && e.asqn <= Remaining(s)[0].asqn
  {
    SeekToAsqnLands(r, position);
    JournalReader.SeekToAsqn(r, position).0
  }

  /** Where the ASQN seek with no index bound leaves the entries to read. */
  lemma SeekToAsqnLands(r: Reader, position: int)
    requires JournalReader.Valid(r.journal)
    ensures var s := JournalReader.SeekToAsqn(r, position).0;
            s.journal == r.journal
            && ((forall e :: e in r.journal.entries ==> !Reaches(r, e, position)) ==>
                  Remaining(s) == r.journal.entries)
            && ((exists e :: e in r.journal.entries && Reaches(r, e, position)) ==>
                  Remaining(s) != [] && Reaches(r, Remaining(s)[0], position)
                  && forall k :: 0 < k < |Remaining(s)| ==> !Reaches(r, Remaining(s)[k], position))
            && (JournalReader.AsqnsAscending(r.journal) ==>
                  forall e :: e in r.journal.entries && Reaches(r, e, position) ==>
                    Remaining(s) != [] && e.asqn <= Remaining(s)[0].asqn)
  {
    var j := r.journal;
    var ub := JournalReader.LastIndex(j);
    var res := JournalReader.SeekToAsqnBounded(r, position, ub);
    assert JournalReader.SeekToAsqn(r, position) == res;
    if exists e :: e in j.entries && Reaches(r, e, position) {
      if JournalReader.AsqnsAscending(j) {
        JournalReader.SeekToAsqnFindsHighest(r, position, ub);
      }
      var rest := Remaining(res.0);
      assert rest[0] == JournalReader.Next(res.0).0;
      forall k | 0 < k < |rest|
        ensures !Reaches(r, rest[k], position)
      {
        var i := res.1 - j.firstIndex + k;
        assert rest[k] == j.entries[i];
        assert j.entries[i] in j.entries;
      }
    } else {
      if |j.entries| > 0 {
        assert Remaining(res.0) == j.entries[0..];
      }
    }
  }

  /** An entry the position seek may land on: one with an ASQN, at most the
      position sought. */
  predicate Reaches(r: Reader, e: Entry, position: int) {
    JournalReader.Candidate(e, position, JournalReader.LastIndex(r.journal))
  }

  /** `seekToIndex(index)`: the reader's index seek. */
  function SeekToIndex(r: Reader, index: int): (s: Reader)
    requires JournalReader.Valid(r.journal)
    ensures s.journal == r.journal
    ensures r.journal.firstIndex <= index <= JournalReader.LastIndex(r.journal) ==>
              Remaining(s) == r.journal.entries[index - r.journal.firstIndex..]
                && Remaining(s)[0].index == index
  {
    JournalReader.Seek(r, index).0
  }
}
