/** The segments manager of the read-only journal: the loaded segments keyed
    by the first index each holds, the lookups the reader uses, and the
    checks made while reading a segment's descriptor from disk. */
module Segments {

  import opened Wrappers
  import opened Bytes
  import opened Text
  import NavMap
  import SegmentFile
  import SD = SegmentDescriptor

  /** A loaded segment: its file name and its descriptor. */
  datatype Segment = Segment(fileName: string, descriptor: SD.Descriptor)

  /** The first index the segment holds. */
  function StartIndex(s: Segment): int {
    s.descriptor.index
  }

  /** The manager's map from start index to segment, and the current (last
      opened) segment. */
  datatype Manager = Manager(segments: NavMap.Entries<Segment>, current: Option<Segment>)

  /** The map is ordered by key, and each segment is stored under its own
      start index. */
  predicate Valid(m: Manager) {
    NavMap.Sorted(m.segments)
    && forall e :: e in m.segments ==> e.0 == StartIndex(e.1)
  }

  predicate Stored(m: Manager, s: Segment) {
    (StartIndex(s), s) in m.segments
  }

  /** `getFirstSegment`: the segment with the least start index, or null. */
  function FirstSegment(m: Manager): (r: Option<Segment>)
    requires Valid(m)
    ensures r.None? <==> |m.segments| == 0
    ensures r.Some? ==> Stored(m, r.value)
                        && forall e :: e in m.segments ==> StartIndex(r.value) <= e.0
  {
    match NavMap.FirstEntry(m.segments)
    case None => None
    case Some(e) => Some(e.1)
  }

  /** `getLastSegment`: the segment with the greatest start index, or null. */
  function LastSegment(m: Manager): (r: Option<Segment>)
    requires Valid(m)
    ensures r.None? <==> |m.segments| == 0
    ensures r.Some? ==> Stored(m, r.value)
                        && forall e :: e in m.segments ==> e.0 <= StartIndex(r.value)
  {
    match NavMap.LastEntry(m.segments)
    case None => None
    case Some(e) => Some(e.1)
  }

  /** `getNextSegment(index)`: the segment with the least start index
      strictly above `index`, or null. */
  function NextSegment(m: Manager, index: int): (r: Option<Segment>)
    requires Valid(m)
    ensures r.None? <==> forall e :: e in m.segments ==> e.0 <= index
    ensures r.Some? ==> Stored(m, r.value) && StartIndex(r.value) > index
                        && forall e :: e in m.segments && e.0 > index ==> StartIndex(r.value) <= e.0
  {
    match NavMap.HigherEntry(m.segments, index)
    case None => None
    case Some(e) => Some(e.1)
  }

  /** The segment the map alone assigns to `index`: the one with the greatest
      start index not above it, or else the first segment. */
  function FloorOrFirst(m: Manager, index: int): (r: Option<Segment>)
    requires Valid(m)
    ensures r.None? <==> |m.segments| == 0
    ensures r.Some? ==> Stored(m, r.value)
    ensures r.Some? && StartIndex(r.value) <= index ==>
              forall e :: e in m.segments && e.0 <= index ==> e.0 <= StartIndex(r.value)
    ensures r.Some? && StartIndex(r.value) > index ==>
              forall e :: e in m.segments ==> e.0 > index && StartIndex(r.value) <= e.0
  {
    match NavMap.FloorEntry(m.segments, index)
    case Some(e) => Some(e.1)
    case None => FirstSegment(m)
  }

  /** `getSegment(index)`: the current segment when `index` lies above its
      start, otherwise the map's floor segment, otherwise the first one. */
  function GetSegment(m: Manager, index: int): (r: Option<Segment>)
    requires Valid(m)
    ensures m.current.Some? && index > StartIndex(m.current.value) ==> r == m.current
    ensures !(m.current.Some? && index > StartIndex(m.current.value)) ==> r == FloorOrFirst(m, index)
  {
    if m.current.Some? && index > StartIndex(m.current.value) then m.current
    else FloorOrFirst(m, index)
  }

  /** `getFirstIndex`: the start index of the first segment, or 0. */
  function FirstIndex(m: Manager): (r: int)
    requires Valid(m)
    ensures |m.segments| == 0 ==> r == 0
    ensures |m.segments| > 0 ==> r in NavMap.Keys(m.segments)
                                 && forall e :: e in m.segments ==> r <= e.0
  {
    match FirstSegment(m)
    case None => 0
    case Some(s) => StartIndex(s)
  }

  /** `getTailSegments(index)`: the segment `getSegment(index)` picks and all
      segments after it, ascending; empty when there is none. */
  function TailSegments(m: Manager, index: int): (r: seq<Segment>)
    requires Valid(m)
    ensures GetSegment(m, index).None? ==> r == []
    ensures GetSegment(m, index).Some? ==>
              var start := StartIndex(GetSegment(m, index).value);
              (forall i, j :: 0 <= i < j < |r| ==> StartIndex(r[i]) < StartIndex(r[j]))
              && (forall s :: s in r ==> Stored(m, s) && StartIndex(s) >= start)
              && (forall s :: Stored(m, s) && StartIndex(s) >= start ==> s in r)
  {
    match GetSegment(m, index)
    case None => []
    case Some(s) =>
      TailValues(m, StartIndex(s));
      NavMap.Values(NavMap.TailFrom(m.segments, StartIndex(s)))
  }

  /** The segments stored from a start index on, ascending. */
  lemma TailValues(m: Manager, start: int)
    requires Valid(m)
    ensures var r := NavMap.Values(NavMap.TailFrom(m.segments, start));
            (forall i, j :: 0 <= i < j < |r| ==> StartIndex(r[i]) < StartIndex(r[j]))
            && (forall s :: s in r ==> Stored(m, s) && StartIndex(s) >= start)
            && (forall s :: Stored(m, s) && StartIndex(s) >= start ==> s in r)
  {
    var tail := NavMap.TailFrom(m.segments, start);
    TailKeys(m, tail, start);
    TailComplete(m, tail, start);
  }

  /** Each entry of the tail is stored under its segment's start index. */
  lemma TailKeys(m: Manager, tail: NavMap.Entries<Segment>, start: int)
    requires Valid(m) && tail == NavMap.TailFrom(m.segments, start)
    ensures var r := NavMap.Values(tail);
            forall i :: 0 <= i < |r| ==> tail[i] == (StartIndex(r[i]), r[i]) && tail[i] in m.segments && tail[i].0 >= start
  {
  }

  /** Every stored segment from the start index on is among the tail's values. */
  lemma TailComplete(m: Manager, tail: NavMap.Entries<Segment>, start: int)
    requires Valid(m) && tail == NavMap.TailFrom(m.segments, start)
    ensures forall s :: Stored(m, s) && StartIndex(s) >= start ==> s in NavMap.Values(tail)
  {
    var r := NavMap.Values(tail);
    forall x | Stored(m, x) && StartIndex(x) >= start ensures x in r {
      var i :| 0 <= i < |tail| && tail[i] == (StartIndex(x), x);
      assert r[i] == x;
    }
  }


  /** The start indices of the loaded segments. */
  function StartIndices(loaded: seq<Segment>): set<int> {
    set s | s in loaded :: StartIndex(s)
  }

  /** The map after `put`-ting every loaded segment under its start index. */
  function PutAll(m: NavMap.Entries<Segment>, loaded: seq<Segment>): (r: NavMap.Entries<Segment>)
    requires NavMap.Sorted(m) && forall e :: e in m ==> e.0 == StartIndex(e.1)
    ensures NavMap.Sorted(r) && forall e :: e in r ==> e.0 == StartIndex(e.1)
    ensures |r| == 0 <==> |m| == 0 && |loaded| == 0
    ensures NavMap.Keys(r) == NavMap.Keys(m) + StartIndices(loaded)
    decreases |loaded|
  {
    if |loaded| == 0 then m
    else
      var m' := PutOne(m, loaded[0]);
      StartIndicesCons(loaded);
      PutAll(m', loaded[1..])
  }

  function PutOne(m: NavMap.Entries<Segment>, s: Segment): (r: NavMap.Entries<Segment>)
    requires NavMap.Sorted(m) && forall e :: e in m ==> e.0 == StartIndex(e.1)
    ensures NavMap.Sorted(r) && forall e :: e in r ==> e.0 == StartIndex(e.1)
    ensures |r| > 0
    ensures NavMap.Keys(r) == NavMap.Keys(m) + {StartIndex(s)}
  {
    NavMap.PutGet(m, StartIndex(s), s, 0);
    NavMap.Put(m, StartIndex(s), s)
  }

  lemma StartIndicesCons(loaded: seq<Segment>)
    requires |loaded| > 0
    ensures StartIndices(loaded) == {StartIndex(loaded[0])} + StartIndices(loaded[1..])
  {
    assert loaded == [loaded[0]] + loaded[1..];
  }

  const NOTHING_TO_READ: string := "Expected to read segments, but there was nothing to read."

  /** `open`: loads the segments from disk into the map and makes the last one
      current; a journal without segments cannot be opened. */
  function Open(loaded: seq<Segment>): (r: Result<Manager>)
    ensures |loaded| == 0 <==> r == Throws(IllegalState(NOTHING_TO_READ))
    ensures r.Ok? ==> Valid(r.value)
                      && NavMap.Keys(r.value.segments) == StartIndices(loaded)
                      && r.value.current == LastSegment(r.value)
                      && r.value.current.Some?
  {
    var segments := PutAll([], loaded);
    var m := Manager(segments, None);
    if |segments| > 0 then Ok(m.(current := LastSegment(m)))
    else Throws(IllegalState(NOTHING_TO_READ))
  }

  /** In a sorted map one key holds one segment. */
  lemma SameKeySameSegment(m: Manager, a: Segment, b: Segment)
    requires Valid(m) && Stored(m, a) && Stored(m, b) && StartIndex(a) == StartIndex(b)
    ensures a == b
  {
    NavMap.GetOfMember(m.segments, StartIndex(a), a);
    NavMap.GetOfMember(m.segments, StartIndex(b), b);
  }

  /** Once opened, the shortcut through the current segment never changes
      the answer: `getSegment` is the map's floor-or-first segment. */
  lemma GetSegmentAfterOpen(loaded: seq<Segment>, index: int)
    requires Open(loaded).Ok?
    ensures GetSegment(Open(loaded).value, index) == FloorOrFirst(Open(loaded).value, index)
  {
    var m := Open(loaded).value;
    var last := m.current.value;
    if index > StartIndex(last) {
      var f := FloorOrFirst(m, index);
      assert Stored(m, last);
      assert StartIndex(f.value) <= index;
      assert StartIndex(last) <= StartIndex(f.value);
      SameKeySameSegment(m, f.value, last);
    }
  }

  // ---- reading a segment's descriptor ----

  function Quoted(s: string): string {
    "'" + s + "'"
  }

  /** `readVersion`: the channel's read count decides; a full read yields the
      first byte of the file as a signed Java byte. */
  function ReadVersion(fileName: string, readBytes: int, firstByte: Byte): (r: Result<int>)
    ensures readBytes == 0 <==> r.Throws? && r.error.Journal?
    ensures readBytes == -1 <==> r.Throws? && r.error.CorruptedJournal?
    ensures r.Throws? ==> (r.error.Journal? || r.error.CorruptedJournal?)
                          && StartsWith(r.error.message, "Expected to read the version byte from segment")
    ensures r.Ok? ==> MinSigned(1) <= r.value <= MaxSigned(1) && FromSigned(r.value, 1) == firstByte
  {
    if readBytes == 0 then
      Throws(Journal("Expected to read the version byte from segment " + Quoted(fileName)
                     + " but nothing was read."))
    else if readBytes == -1 then
      Throws(CorruptedJournal("Expected to read the version byte from segment " + Quoted(fileName)
                              + " but got EOF instead."))
    else Ok(ToSigned(firstByte, 1))
  }

  /** `readDescriptor` after the version byte: a file shorter than the
      descriptor length for its version is corrupt, a short read is a journal
      error, and an out-of-bounds decode reports that nothing was read.
      `length` is the encoding length for the version and `decode` the
      generated descriptor codec, which yields nothing when it reads past
      the buffer. */
  function ReadDescriptor(fileName: string, version: int, fileSize: int, length: int,
                          readBytes: int, buffer: Bytes,
                          decode: Bytes -> Option<SD.Descriptor>): (r: Result<SD.Descriptor>)
    ensures fileSize < length <==> r.Throws? && r.error.CorruptedJournal?
    ensures fileSize < length ==>
              r.error.message == "Expected segment " + Quoted(fileName) + " with version "
                                 + IntToString(version) + " to be at least " + IntToString(length)
                                 + " bytes long but it only has " + IntToString(fileSize) + "."
    ensures fileSize >= length && readBytes != -1 && readBytes < length ==>
              r.Throws? && r.error.Journal?
    ensures fileSize >= length && !(readBytes != -1 && readBytes < length) ==>
              (decode(buffer).Some? ==> r == Ok(decode(buffer).value))
              && (decode(buffer).None? ==>
                    r == Throws(Journal("Expected to read descriptor of segment " + Quoted(fileName)
                                        + ", but nothing was read.")))
  {
    if fileSize < length then
      Throws(CorruptedJournal("Expected segment " + Quoted(fileName) + " with version "
                              + IntToString(version) + " to be at least " + IntToString(length)
                              + " bytes long but it only has " + IntToString(fileSize) + "."))
    else if readBytes != -1 && readBytes < length then
      Throws(Journal("Expected to read " + IntToString(length) + " bytes of segment " + Quoted(fileName)
                     + " with " + IntToString(version) + " version but only read "
                     + IntToString(readBytes) + " bytes."))
    else
      match decode(buffer)
      case None =>
        Throws(Journal("Expected to read descriptor of segment " + Quoted(fileName)
                       + ", but nothing was read."))
      case Some(d) => Ok(d)
  }

  /** The whole descriptor read: the version byte, then the length check for
      that version. The file is corrupt exactly when its version byte is
      missing at end of file or it is shorter than its version requires. */
  function LoadDescriptor(fileName: string, versionRead: int, firstByte: Byte, fileSize: int,
                          lengthForVersion: int -> int, readBytes: int, buffer: Bytes,
                          decode: Bytes -> Option<SD.Descriptor>): (r: Result<SD.Descriptor>)
    ensures r.Throws? && r.error.CorruptedJournal? <==>
              versionRead == -1
              || (versionRead != 0 && fileSize < lengthForVersion(ToSigned(firstByte, 1)))
  {
    var version :- ReadVersion(fileName, versionRead, firstByte);
    ReadDescriptor(fileName, version, fileSize, lengthForVersion(version), readBytes, buffer, decode)
  }

  // ---- listing the segment files ----

  /** The id a segment file name carries. */
  function Id(f: SegmentFile.File): int {
    SegmentFile.SegmentIdFromPath(f.name)
  }

  /** The listing filter: a regular file that is a segment of the journal. */
  predicate Accepted(journalName: string, f: SegmentFile.File) {
    f.isFile && SegmentFile.IsSegmentFile(Some(journalName), Some(f.name)) == Ok(true)
  }

  function Filter(journalName: string, files: seq<SegmentFile.File>): (r: seq<SegmentFile.File>)
    ensures forall f :: f in r ==> Accepted(journalName, f)
    ensures forall f :: multiset(r)[f] == if Accepted(journalName, f) then multiset(files)[f] else 0
  {
    Keep((f: SegmentFile.File) => Accepted(journalName, f), files)
  }

  /** The files that pass `keep`, in order. */
  function Keep(keep: SegmentFile.File -> bool, files: seq<SegmentFile.File>): (r: seq<SegmentFile.File>)
    ensures forall f :: f in r ==> keep(f)
    ensures forall f :: multiset(r)[f] == if keep(f) then multiset(files)[f] else 0
  {
    if |files| == 0 then []
    else
      var rest := Keep(keep, files[1..]);
      assert multiset(files) == multiset{files[0]} + multiset(files[1..]) by {
        assert files == [files[0]] + files[1..];
      }
      if keep(files[0]) then [files[0]] + rest else rest
  }

  predicate SortedById(s: seq<SegmentFile.File>) {
    SortedBy(Id, s)
  }

  /** Ordered by `id`, ascending. */
  predicate SortedBy(id: SegmentFile.File -> int, s: seq<SegmentFile.File>) {
    forall i, j :: 0 <= i < j < |s| ==> id(s[i]) <= id(s[j])
  }

  /** The files of `s` whose id is `k`, in order. */
  function WithId(id: SegmentFile.File -> int, k: int, s: seq<SegmentFile.File>): (r: seq<SegmentFile.File>)
    ensures forall f :: f in r ==> f in s && id(f) == k
  {
    if |s| == 0 then []
    else (if id(s[0]) == k then [s[0]] else []) + WithId(id, k, s[1..])
  }

  /** `WithId` of a sequence with one more file in front. */
  lemma WithIdCons(id: SegmentFile.File -> int, x: SegmentFile.File, s: seq<SegmentFile.File>, k: int)
    ensures WithId(id, k, [x] + s) == (if id(x) == k then [x] else []) + WithId(id, k, s)
  {
    assert ([x] + s)[1..] == s;
  }

  /** One step of the insertion sort: `f` goes before the first element with
      an id not below its own, so before every element with the same id. */
  function Insert(id: SegmentFile.File -> int, f: SegmentFile.File, s: seq<SegmentFile.File>): (r: seq<SegmentFile.File>)
    requires SortedBy(id, s)
    ensures SortedBy(id, r)
    ensures |r| == |s| + 1 && (r[0] == f || (|s| > 0 && r[0] == s[0]))
    ensures multiset(r) == multiset(s) + multiset{f}
  {
    if |s| == 0 then [f]
    else if id(f) <= id(s[0]) then [f] + s
    else
      var rest := Insert(id, f, s[1..]);
      assert multiset(s) == multiset{s[0]} + multiset(s[1..]) by {
        assert s == [s[0]] + s[1..];
      }
      ConsSorted(id, s[0], rest);
      [s[0]] + rest
  }

  /** Insertion is stable: among the files with `f`'s id, `f` comes first,
      and the other files keep their order. */
  lemma {:induction false} InsertWithId(id: SegmentFile.File -> int, f: SegmentFile.File, s: seq<SegmentFile.File>, k: int)
    requires SortedBy(id, s)
    ensures WithId(id, k, Insert(id, f, s)) == (if id(f) == k then [f] else []) + WithId(id, k, s)
  {
    if |s| == 0 || id(f) <= id(s[0]) {
      assert Insert(id, f, s) == [f] + s;
      WithIdCons(id, f, s, k);
    } else {
      var rest := Insert(id, f, s[1..]);
      assert Insert(id, f, s) == [s[0]] + rest;
      InsertWithId(id, f, s[1..], k);
      WithIdCons(id, s[0], rest, k);
      var w := WithId(id, k, s[1..]);
      WithIdCons(id, s[0], s[1..], k);
      assert s == [s[0]] + s[1..];
      if id(f) == k {
        assert id(s[0]) != k;
        assert WithId(id, k, s) == w;
      } else {
        assert [] + w == w;
      }
    }
  }

  /** An element no greater than the head of a sorted sequence keeps it
      sorted when put in front. */
  lemma ConsSorted(id: SegmentFile.File -> int, x: SegmentFile.File, s: seq<SegmentFile.File>)
    requires SortedBy(id, s) && |s| > 0 && id(x) <= id(s[0])
    ensures SortedBy(id, [x] + s)
  {
    var r := [x] + s;
    forall i, j | 0 <= i < j < |r| ensures id(r[i]) <= id(r[j]) {
      if i > 0 {
        assert r[i] == s[i - 1] && r[j] == s[j - 1];
      } else {
        assert r[j] == s[j - 1];
      }
    }
  }

  /** A sort by segment id. As `Arrays.sort` on objects, it is stable:
      files with the same id keep their order. */
  function SortById(s: seq<SegmentFile.File>): (r: seq<SegmentFile.File>)
    ensures SortedById(r)
    ensures multiset(r) == multiset(s)
    ensures forall k :: WithId(Id, k, r) == WithId(Id, k, s)
  {
    SortBy(Id, s)
  }

  /** Stable insertion sort by `id`. */
  function SortBy(id: SegmentFile.File -> int, s: seq<SegmentFile.File>): (r: seq<SegmentFile.File>)
    ensures SortedBy(id, r)
    ensures multiset(r) == multiset(s)
    ensures forall k :: WithId(id, k, r) == WithId(id, k, s)
  {
    if |s| == 0 then []
    else
      assert s == [s[0]] + s[1..];
      var rest := SortBy(id, s[1..]);
      assert forall k :: WithId(id, k, Insert(id, s[0], rest)) == WithId(id, k, s) by {
        forall k ensures WithId(id, k, Insert(id, s[0], rest)) == WithId(id, k, s) {
          InsertWithId(id, s[0], rest, k);
        }
      }
      Insert(id, s[0], rest)
  }

  /** A run of files that all carry one id is its own `WithId`. */
  lemma {:induction false} WithIdOfOneId(k: int, s: seq<SegmentFile.File>)
    requires forall i :: 0 <= i < |s| ==> Id(s[i]) == k
    ensures WithId(Id, k, s) == s
  {
    if |s| > 0 {
      WithIdOfOneId(k, s[1..]);
    }
  }

  /** Files that all carry the same id come out of the sort in their
      listing order. */
  lemma SameIdsKeepOrder(s: seq<SegmentFile.File>)
    requires forall i :: 0 <= i < |s| ==> Id(s[i]) == Id(s[0])
    ensures SortById(s) == s
  {
    if |s| > 0 {
      var r := SortById(s);
      var k := Id(s[0]);
      assert forall f :: f in multiset(r) <==> f in multiset(s);
      assert forall i :: 0 <= i < |r| ==> Id(r[i]) == k by {
        forall i | 0 <= i < |r| ensures Id(r[i]) == k {
          assert r[i] in multiset(r);
        }
      }
      WithIdOfOneId(k, s);
      WithIdOfOneId(k, r);
    }
  }

  /** The error of a directory that cannot be listed. */
  function ListingFailed(directory: string): Exception {
    IllegalState("Could not list files in directory " + Quoted(directory)
                 + ". Either the path doesn't point to a directory or an I/O error occurred.")
  }

  /** `getSortedLogSegments`: the journal's segment files in the directory,
      ordered by id; a directory that cannot be listed is an error. */
  function SortedLogSegments(journalName: string, directory: string,
                             listing: Option<seq<SegmentFile.File>>): (r: Result<seq<SegmentFile.File>>)
    ensures listing.None? <==> r.Throws?
    ensures r.Throws? ==>
              r.error == ListingFailed(directory)
    ensures r.Ok? ==> SortedById(r.value)
                      && (forall f :: f in r.value ==> Accepted(journalName, f))
                      && (forall f :: multiset(r.value)[f]
                                      == if Accepted(journalName, f) then multiset(listing.value)[f] else 0)
                      && (forall k :: WithId(Id, k, r.value) == WithId(Id, k, Filter(journalName, listing.value)))
  {
    match listing
    case None =>
      Throws(ListingFailed(directory))
    case Some(files) =>
      var kept := Filter(journalName, files);
      var r := SortById(kept);
      SameMembers(r, kept);
      Ok(r)
  }

  /** Two permutations of each other have the same members. */
  lemma SameMembers(a: seq<SegmentFile.File>, b: seq<SegmentFile.File>)
    requires multiset(a) == multiset(b)
    ensures forall f :: f in a <==> f in b
  {
    assert forall f :: f in a <==> f in multiset(a);
  }
}
