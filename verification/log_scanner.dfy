/** `LogScanner`: the consistency check of the older tool. A journal index
    sees every entry once while the log is opened; it flags the log as
    inconsistent when an index does not follow the last accepted one, and
    reports, without flagging, Zeebe entries whose positions are out of
    order. */
module LogScanner {

  import opened Wrappers
  import opened Bytes
  import opened Text
  import opened Extremes
  import opened Paths
  import opened RaftLog
  import LogFactory

  const PARTITION_NAME_PREFIX: string := "raft-partition-partition-"

  /** What the scanner reports while scanning. */
  datatype Warning =
    | IndexGap(index: int, lastIndex: int)
    | LowestAboveHighest(lowestPosition: int, highestPosition: int, index: int)
    | PositionRegression(lastRecordPosition: int, lowestPosition: int, index: int)

  /** The scanner's fields without the floating-point average, and the
      warnings it appended to the report, in order. */
  datatype Scanner = Scanner(
    lastIndex: int,
    lastRecordPosition: int,
    lowestRecordPosition: int,
    lastInitEntry: string,
    inconsistentLog: bool,
    maxEntrySize: int,
    scannedEntries: int,
    warnings: seq<Warning>)

  const INITIAL: Scanner := Scanner(LONG_MIN, LONG_MIN, LONG_MAX, "none", false, 0, 0, [])

  /** Java's `long + 1`, which wraps at the top of the range. */
  function LongSucc(v: int): (r: int)
    requires IsLong(v)
    ensures IsLong(r)
    ensures v < LONG_MAX ==> r == v + 1
  {
    if v == LONG_MAX then LONG_MIN else v + 1
  }

  /** Whether `processIndex` rejects an index after the last accepted one:
      it goes back, or it does not follow directly, unless nothing was
      accepted yet (the last index is still the sentinel). */
  predicate Gap(lastIndex: int, currentIndex: int)
    requires IsLong(lastIndex)
  {
    lastIndex > currentIndex || (LongSucc(lastIndex) != currentIndex && lastIndex != LONG_MIN)
  }

  /** `processIndex(currentIndex)`: a gap sets the flag and is reported; an
      index that follows is accepted as the last index. */
  function ProcessIndex(s: Scanner, currentIndex: int): (r: Scanner)
    requires IsLong(s.lastIndex)
    ensures Gap(s.lastIndex, currentIndex) ==>
              r == s.(inconsistentLog := true, warnings := s.warnings + [IndexGap(currentIndex, s.lastIndex)])
    ensures !Gap(s.lastIndex, currentIndex) ==> r == s.(lastIndex := currentIndex)
  {
    if Gap(s.lastIndex, currentIndex) then
      s.(inconsistentLog := true, warnings := s.warnings + [IndexGap(currentIndex, s.lastIndex)])
    else s.(lastIndex := currentIndex)
  }

  /** `processZeebeEntry`: reports a lowest position above the highest and
      a lowest position below the last entry's highest, then moves the last
      and lowest record positions; neither report sets the flag. */
  function ProcessZeebeEntry(s: Scanner, lowest: int, highest: int, currentIndex: int): (r: Scanner)
    ensures r.inconsistentLog == s.inconsistentLog && r.lastIndex == s.lastIndex
    ensures r.lastRecordPosition == highest
    ensures r.lowestRecordPosition == Lower(s.lowestRecordPosition, lowest)
    ensures r.lastInitEntry == s.lastInitEntry && r.maxEntrySize == s.maxEntrySize
            && r.scannedEntries == s.scannedEntries
    ensures LowestAboveHighest(lowest, highest, currentIndex) in r.warnings <==>
              LowestAboveHighest(lowest, highest, currentIndex) in s.warnings || lowest > highest
    ensures PositionRegression(s.lastRecordPosition, lowest, currentIndex) in r.warnings <==>
              PositionRegression(s.lastRecordPosition, lowest, currentIndex) in s.warnings
              || s.lastRecordPosition > lowest
    ensures |s.warnings| <= |r.warnings| <= |s.warnings| + 2 && r.warnings[..|s.warnings|] == s.warnings
    ensures forall k :: |s.warnings| <= k < |r.warnings| ==>
              r.warnings[k] == LowestAboveHighest(lowest, highest, currentIndex)
              || r.warnings[k] == PositionRegression(s.lastRecordPosition, lowest, currentIndex)
  {
    var w1 := if lowest > highest then [LowestAboveHighest(lowest, highest, currentIndex)] else [];
    var w2 := if s.lastRecordPosition > lowest then [PositionRegression(s.lastRecordPosition, lowest, currentIndex)] else [];
    s.(warnings := s.warnings + w1 + w2, lastRecordPosition := highest,
       lowestRecordPosition := Lower(s.lowestRecordPosition, lowest))
  }

  /** `index(indexedEntry, position)`: the index check, the size and count,
      then the initialize or Zeebe entry. The text of an initialize entry
      is `toString()` of a foreign class and a parameter. */
  function Index(s: Scanner, e: Indexed, describe: RaftLogEntry -> string): (r: Scanner)
    requires IsLong(s.lastIndex)
  {
    var s1 := ProcessIndex(s, e.index);
    var s2 := s1.(maxEntrySize := Raise(s1.maxEntrySize, e.size), scannedEntries := s1.scannedEntries + 1);
    match e.entry
    case InitializeEntry(_) => s2.(lastInitEntry := describe(e.entry))
    case ZeebeEntry(lowest, highest, _) => ProcessZeebeEntry(s2, lowest, highest, e.index)
    case OtherEntry => s2
  }

  /** Every index of the run is a long. */
  predicate LongIndices(entries: seq<Indexed>) {
    forall k :: 0 <= k < |entries| ==> IsLong(entries[k].index)
  }

  /** The scanner after the entries, in log order; the last accepted index
      stays a long. */
  function Scan(entries: seq<Indexed>, describe: RaftLogEntry -> string): (r: Scanner)
    requires LongIndices(entries)
    ensures IsLong(r.lastIndex)
    decreases |entries|
  {
    if |entries| == 0 then INITIAL
    else
      var n := |entries| - 1;
      assert LongIndices(entries[..n]);
      Index(Scan(entries[..n], describe), entries[n], describe)
  }

  /** Each index follows the one before it by exactly one. */
  predicate Consecutive(entries: seq<Indexed>) {
    forall k :: 0 < k < |entries| ==> entries[k].index == entries[k - 1].index + 1
  }

  /** Indices the sentinel cannot be confused with: longs above the
      smallest one. */
  predicate ProperIndices(entries: seq<Indexed>) {
    forall k :: 0 <= k < |entries| ==> LONG_MIN < entries[k].index <= LONG_MAX
  }

  /** The log is reported consistent exactly when its indices are
      consecutive, and then the last index is the last entry's. */
  lemma {:induction false} ConsistentIffConsecutive(entries: seq<Indexed>, describe: RaftLogEntry -> string)
    requires ProperIndices(entries)
    ensures !Scan(entries, describe).inconsistentLog <==> Consecutive(entries)
    ensures Consecutive(entries) ==>
              Scan(entries, describe).lastIndex == if entries == [] then LONG_MIN else entries[|entries| - 1].index
    decreases |entries|
  {
    if |entries| > 0 {
      var n := |entries| - 1;
      var init := entries[..n];
      var e := entries[n];
      assert ProperIndices(init);
      ConsistentIffConsecutive(init, describe);
      ConsecutiveSnoc(entries);
      var s := Scan(init, describe);
      IndexEffect(s, e, describe);
      if Consecutive(init) && n > 0 {
        assert Gap(s.lastIndex, e.index) <==> e.index != init[n - 1].index + 1;
      }
    }
  }

  /** A run is consecutive exactly when the run before its last entry is and
      the last entry follows it. */
  lemma ConsecutiveSnoc(entries: seq<Indexed>)
    requires |entries| > 0
    ensures var n := |entries| - 1;
            Consecutive(entries) <==>
              Consecutive(entries[..n]) && (n > 0 ==> entries[n].index == entries[n - 1].index + 1)
  {
    var n := |entries| - 1;
    assert forall k :: 0 <= k < n ==> entries[..n][k] == entries[k];
  }

  /** What one entry does to the flag and the last accepted index. */
  lemma IndexEffect(s: Scanner, e: Indexed, describe: RaftLogEntry -> string)
    requires IsLong(s.lastIndex)
    ensures Index(s, e, describe).inconsistentLog == (s.inconsistentLog || Gap(s.lastIndex, e.index))
    ensures Index(s, e, describe).lastIndex == if Gap(s.lastIndex, e.index) then s.lastIndex else e.index
  {
  }

  /** The first entry is always accepted: the sentinel suppresses the
      check. */
  lemma FirstIndexAccepted(e: Indexed, describe: RaftLogEntry -> string)
    requires IsLong(e.index)
    ensures !Scan([e], describe).inconsistentLog && Scan([e], describe).lastIndex == e.index
  {
    assert [e][..0] == [];
  }

  /** The flag and the last accepted index depend on the indices alone:
      the position reports never set the flag. */
  lemma {:induction false} FlagFromIndicesOnly(a: seq<Indexed>, b: seq<Indexed>, describe: RaftLogEntry -> string)
    requires LongIndices(a) && Indices(a) == Indices(b)
    ensures LongIndices(b)
    ensures Scan(a, describe).inconsistentLog == Scan(b, describe).inconsistentLog
    ensures Scan(a, describe).lastIndex == Scan(b, describe).lastIndex
    decreases |a|
  {
    assert |a| == |Indices(a)| == |b|;
    assert forall k :: 0 <= k < |a| ==> a[k].index == Indices(a)[k] == b[k].index;
    if |a| > 0 {
      var n := |a| - 1;
      assert LongIndices(a[..n]);
      assert Indices(a[..n]) == Indices(b[..n]);
      FlagFromIndicesOnly(a[..n], b[..n], describe);
      IndexFlag(Scan(a[..n], describe), Scan(b[..n], describe), a[n], b[n], describe);
    }
  }

  /** One entry moves the flag and the last accepted index by its index
      alone. */
  lemma IndexFlag(s: Scanner, t: Scanner, e: Indexed, f: Indexed, describe: RaftLogEntry -> string)
    requires IsLong(s.lastIndex) && s.lastIndex == t.lastIndex && s.inconsistentLog == t.inconsistentLog
    requires e.index == f.index
    ensures Index(s, e, describe).inconsistentLog == Index(t, f, describe).inconsistentLog
    ensures Index(s, e, describe).lastIndex == Index(t, f, describe).lastIndex
  {
  }

  /** The last record position is the highest position of the last Zeebe
      entry, the lowest record position the running minimum of their lowest
      positions; the largest size starts from zero and every entry is
      counted. */
  lemma {:induction false} ScanPositions(entries: seq<Indexed>, describe: RaftLogEntry -> string)
    requires LongIndices(entries)
    ensures var zs := ZeebeEntries(entries);
            Scan(entries, describe).lastRecordPosition
            == if zs == [] then LONG_MIN else zs[|zs| - 1].entry.highestPosition
    ensures Scan(entries, describe).lowestRecordPosition == Min(LowestPositions(entries), LONG_MAX)
    ensures Scan(entries, describe).maxEntrySize == Max(Sizes(entries), 0)
    ensures Scan(entries, describe).scannedEntries == |entries|
    decreases |entries|
  {
    ScanCounts(entries, describe);
    ScanLastPosition(entries, describe);
    ScanLowestPosition(entries, describe);
  }

  /** The last record position is the highest position of the last Zeebe
      entry. */
  lemma {:induction false} ScanLastPosition(entries: seq<Indexed>, describe: RaftLogEntry -> string)
    requires LongIndices(entries)
    ensures var zs := ZeebeEntries(entries);
            Scan(entries, describe).lastRecordPosition
            == if zs == [] then LONG_MIN else zs[|zs| - 1].entry.highestPosition
    decreases |entries|
  {
    if |entries| > 0 {
      var n := |entries| - 1;
      var init := entries[..n];
      var e := entries[n];
      assert entries == init + [e];
      assert LongIndices(init);
      ScanLastPosition(init, describe);
      ProjectionsAppend(init, e);
      IndexFields(Scan(init, describe), e, describe);
    }
  }

  /** The lowest record position is the running minimum of the Zeebe
      entries' lowest positions. */
  lemma {:induction false} ScanLowestPosition(entries: seq<Indexed>, describe: RaftLogEntry -> string)
    requires LongIndices(entries)
    ensures Scan(entries, describe).lowestRecordPosition == Min(LowestPositions(entries), LONG_MAX)
    decreases |entries|
  {
    if |entries| > 0 {
      var n := |entries| - 1;
      var init := entries[..n];
      var e := entries[n];
      assert entries == init + [e];
      assert LongIndices(init);
      ScanLowestPosition(init, describe);
      ProjectionsAppend(init, e);
      IndexFields(Scan(init, describe), e, describe);
      if e.entry.ZeebeEntry? {
        MinAppend(LowestPositions(init), e.entry.lowestPosition, LONG_MAX);
      }
    }
  }

  /** The largest size starts from zero and every entry is counted. */
  lemma {:induction false} ScanCounts(entries: seq<Indexed>, describe: RaftLogEntry -> string)
    requires LongIndices(entries)
    ensures Scan(entries, describe).maxEntrySize == Max(Sizes(entries), 0)
    ensures Scan(entries, describe).scannedEntries == |entries|
    decreases |entries|
  {
    if |entries| > 0 {
      var n := |entries| - 1;
      var init := entries[..n];
      var e := entries[n];
      assert entries == init + [e];
      assert LongIndices(init);
      ScanCounts(init, describe);
      ProjectionsAppend(init, e);
      IndexFields(Scan(init, describe), e, describe);
      MaxAppend(Sizes(init), e.size, 0);
    }
  }

  /** What one entry does to the position, size and count fields. */
  lemma IndexFields(s: Scanner, e: Indexed, describe: RaftLogEntry -> string)
    requires IsLong(s.lastIndex)
    ensures var r := Index(s, e, describe);
            && r.lastRecordPosition == (if e.entry.ZeebeEntry? then e.entry.highestPosition else s.lastRecordPosition)
            && r.lowestRecordPosition == (if e.entry.ZeebeEntry? then Lower(s.lowestRecordPosition, e.entry.lowestPosition)
                                          else s.lowestRecordPosition)
            && r.maxEntrySize == Raise(s.maxEntrySize, e.size)
            && r.scannedEntries == s.scannedEntries + 1
  {
  }

  /** The verdict line of the report. */
  function Verdict(inconsistentLog: bool): (line: string)
    ensures inconsistentLog <==> line == ANSI_RED + "LOG IS INCONSISTENT!" + ANSI_RESET
  {
    if inconsistentLog then ANSI_RED + "LOG IS INCONSISTENT!" + ANSI_RESET
    else ANSI_GREEN + "LOG IS CONSISTENT." + ANSI_RESET
  }

  /** The report calls a log with proper indices inconsistent exactly when
      its indices are not consecutive. */
  lemma ReportsInconsistentIff(entries: seq<Indexed>, describe: RaftLogEntry -> string)
    requires ProperIndices(entries)
    ensures Verdict(Scan(entries, describe).inconsistentLog) == ANSI_RED + "LOG IS INCONSISTENT!" + ANSI_RESET
            <==> !Consecutive(entries)
  {
    ConsistentIffConsecutive(entries, describe);
  }

  /** `scan(path)`: the partition name from the directory's name, with the
      same message as the log factory's for a name that is not an integer.
      It is the same name the log factory derives. */
  function ScanPartitionName(path: Path): (r: Result<string>)
    ensures r == LogFactory.ExtractPartitionNameFromPath(path)
  {
    match FileName(path)
    case None => Throws(NullPointer("fileName"))
    case Some(name) =>
      match ParseInt(name)
      case None =>
        Throws(IllegalArgument("Expected to extract partition as integer from path, but path was '"
                               + ToText(path) + "'."))
      case Some(partitionId) => Ok(PARTITION_NAME_PREFIX + IntToString(partitionId))
  }
}
