/** The `Scanner` of both `LogStatus` commands of the older tool: a journal
    index that sees every entry once while the log is opened, and keeps the
    extreme indices, sizes and record positions, the entry count and the
    text of every initialize entry. */
module StatusScanner {

  import opened Bytes
  import opened Text
  import opened Extremes
  import opened RaftLog

  /** The scanner's counters without the floating-point average. */
  datatype ScanDetails = ScanDetails(
    highestIndex: int,
    lowestIndex: int,
    highestRecordPosition: int,
    lowestRecordPosition: int,
    maxEntrySize: int,
    minEntrySize: int,
    scannedEntries: int,
    initialEntries: seq<string>)

  const INITIAL: ScanDetails := ScanDetails(LONG_MIN, LONG_MAX, LONG_MIN, LONG_MAX, INT_MIN, INT_MAX, 0, [])

  const NO_INITIAL_ENTRIES: string := "No initial entries in the log."

  /** `index(indexedEntry, position)`: the index extremes, the size extremes
      and the count for every entry; the text of an initialize entry; the
      position extremes of a Zeebe entry. How an initialize entry is shown
      is `toString()` of a foreign class and a parameter: the newer command
      shows the indexed entry, the older one the initialize entry itself. */
  function Index(d: ScanDetails, e: Indexed, describe: Indexed -> string): ScanDetails {
    var d' := d.(highestIndex := Raise(d.highestIndex, e.index),
                 lowestIndex := Lower(d.lowestIndex, e.index),
                 maxEntrySize := Raise(d.maxEntrySize, e.size),
                 minEntrySize := Lower(d.minEntrySize, e.size),
                 scannedEntries := d.scannedEntries + 1);
    match e.entry
    case InitializeEntry(_) => d'.(initialEntries := d'.initialEntries + [describe(e)])
    case ZeebeEntry(lowest, highest, _) =>
      d'.(highestRecordPosition := Raise(d'.highestRecordPosition, highest),
          lowestRecordPosition := Lower(d'.lowestRecordPosition, lowest))
    case OtherEntry => d'
  }

  /** The scanner after the entries, in log order. */
  function Scan(entries: seq<Indexed>, describe: Indexed -> string): ScanDetails
    decreases |entries|
  {
    if |entries| == 0 then INITIAL
    else Index(Scan(entries[..|entries| - 1], describe), entries[|entries| - 1], describe)
  }

  /** The texts of the initialize entries of a run, in order. */
  function InitialTexts(entries: seq<Indexed>, describe: Indexed -> string): (r: seq<string>)
    ensures |r| <= |entries|
    ensures (forall k :: 0 <= k < |entries| ==> !entries[k].entry.InitializeEntry?) <==> r == []
    decreases |entries|
  {
    if |entries| == 0 then []
    else
      var n := |entries| - 1;
      var before := InitialTexts(entries[..n], describe);
      assert forall k :: 0 <= k < n ==> entries[..n][k] == entries[k];
      if entries[n].entry.InitializeEntry? then before + [describe(entries[n])] else before
  }

  /** The scanner's fields are the running extremes from the sentinels: of
      the indices and sizes over every entry, of the record positions over
      the Zeebe entries only; it counts every entry and collects the texts
      of the initialize entries in order. */
  lemma {:induction false} ScanIsExtremes(entries: seq<Indexed>, describe: Indexed -> string)
    ensures Scan(entries, describe) == ScanDetails(
              Max(Indices(entries), LONG_MIN), Min(Indices(entries), LONG_MAX),
              Max(HighestPositions(entries), LONG_MIN), Min(LowestPositions(entries), LONG_MAX),
              Max(Sizes(entries), INT_MIN), Min(Sizes(entries), INT_MAX),
              |entries|, InitialTexts(entries, describe))
    decreases |entries|
  {
    if |entries| > 0 {
      var n := |entries| - 1;
      var init := entries[..n];
      var e := entries[n];
      assert entries == init + [e];
      ScanIsExtremes(init, describe);
      ProjectionsAppend(init, e);
      MaxAppend(Indices(init), e.index, LONG_MIN);
      MinAppend(Indices(init), e.index, LONG_MAX);
      MaxAppend(Sizes(init), e.size, INT_MIN);
      MinAppend(Sizes(init), e.size, INT_MAX);
      if e.entry.ZeebeEntry? {
        MaxAppend(HighestPositions(init), e.entry.highestPosition, LONG_MIN);
        MinAppend(LowestPositions(init), e.entry.lowestPosition, LONG_MAX);
      }
    }
  }

  /** With no entries every field keeps its sentinel. */
  lemma EmptyScan(describe: Indexed -> string)
    ensures Scan([], describe) == INITIAL
    ensures Scan([], describe).highestIndex == LONG_MIN && Scan([], describe).lowestIndex == LONG_MAX
  {
  }

  /** `Arrays.toString`: the texts between brackets, joined with ", ". */
  function ArrayText(texts: seq<string>): (s: string)
    ensures |s| >= 2 && s[0] == '[' && s[|s| - 1] == ']'
  {
    "[" + Join(texts, ", ") + "]"
  }

  /** The initial-entries line of the report: the fixed sentence exactly
      when no initialize entry was seen, the list of their texts otherwise. */
  function InitialEntriesText(initialEntries: seq<string>): (s: string)
    ensures s == NO_INITIAL_ENTRIES <==> initialEntries == []
    ensures initialEntries != [] ==> s == ArrayText(initialEntries)
  {
    if initialEntries == [] then NO_INITIAL_ENTRIES else ArrayText(initialEntries)
  }

  /** The report says there are no initial entries exactly when the log
      holds no initialize entry. */
  lemma NoInitialEntriesIff(entries: seq<Indexed>, describe: Indexed -> string)
    ensures InitialEntriesText(Scan(entries, describe).initialEntries) == NO_INITIAL_ENTRIES
            <==> forall k :: 0 <= k < |entries| ==> !entries[k].entry.InitializeEntry?
  {
    ScanIsExtremes(entries, describe);
  }

  /** The two commands' scanners differ only in how an initialize entry is
      shown: every counter agrees, and so does the number of texts kept. */
  lemma {:induction false} DescribeOnlyTexts(entries: seq<Indexed>, newer: Indexed -> string, older: Indexed -> string)
    ensures Scan(entries, newer).(initialEntries := []) == Scan(entries, older).(initialEntries := [])
    ensures |Scan(entries, newer).initialEntries| == |Scan(entries, older).initialEntries|
    decreases |entries|
  {
    if |entries| > 0 {
      DescribeOnlyTexts(entries[..|entries| - 1], newer, older);
    }
  }
}
