/** The Raft log as the older command-line tool reads it through Atomix:
    indexed entries, each with its serialised size and one of the entry
    kinds the tool tells apart. */
module RaftLog {

  import opened Bytes

  /** The entry an indexed entry carries: an initialize entry (shown by its
      text), a Zeebe entry with the range of record positions it holds and
      its framed events, or any other Raft entry. */
  datatype RaftLogEntry =
    | InitializeEntry(text: string)
    | ZeebeEntry(lowestPosition: int, highestPosition: int, data: Bytes)
    | OtherEntry

  /** `Indexed`: an entry with its index and its size in bytes. */
  datatype Indexed = Indexed(index: int, size: int, entry: RaftLogEntry)

  /** The terminal colour codes of the reports. */
  const ANSI_RESET: string := "\U{1B}[0m"
  const ANSI_GREEN: string := "\U{1B}[32m"
  const ANSI_RED: string := "\U{1B}[31m"

  /** The indices of a run of entries, in order. */
  function Indices(entries: seq<Indexed>): (r: seq<int>)
    ensures |r| == |entries| && forall k :: 0 <= k < |entries| ==> r[k] == entries[k].index
  {
    seq(|entries|, k requires 0 <= k < |entries| => entries[k].index)
  }

  /** The sizes of a run of entries, in order. */
  function Sizes(entries: seq<Indexed>): (r: seq<int>)
    ensures |r| == |entries| && forall k :: 0 <= k < |entries| ==> r[k] == entries[k].size
  {
    seq(|entries|, k requires 0 <= k < |entries| => entries[k].size)
  }

  /** The Zeebe entries of a run, in order. */
  function ZeebeEntries(entries: seq<Indexed>): (r: seq<Indexed>)
    ensures forall k :: 0 <= k < |r| ==> r[k].entry.ZeebeEntry? && r[k] in entries
    ensures forall k :: 0 <= k < |entries| && entries[k].entry.ZeebeEntry? ==> entries[k] in r
    decreases |entries|
  {
    if |entries| == 0 then []
    else
      var n := |entries| - 1;
      var before := ZeebeEntries(entries[..n]);
      assert forall k :: 0 <= k < n ==> entries[..n][k] == entries[k];
      if entries[n].entry.ZeebeEntry? then before + [entries[n]] else before
  }

  /** The highest and lowest record positions of the Zeebe entries of a
      run, in order. */
  function HighestPositions(entries: seq<Indexed>): (r: seq<int>)
    ensures |r| == |ZeebeEntries(entries)|
  {
    var zs := ZeebeEntries(entries);
    seq(|zs|, k requires 0 <= k < |zs| => zs[k].entry.highestPosition)
  }

  function LowestPositions(entries: seq<Indexed>): (r: seq<int>)
    ensures |r| == |ZeebeEntries(entries)|
  {
    var zs := ZeebeEntries(entries);
    seq(|zs|, k requires 0 <= k < |zs| => zs[k].entry.lowestPosition)
  }

  /** One more entry adds its index and size, and its positions when it is
      a Zeebe entry. */
  lemma ProjectionsAppend(entries: seq<Indexed>, e: Indexed)
    ensures Indices(entries + [e]) == Indices(entries) + [e.index]
    ensures Sizes(entries + [e]) == Sizes(entries) + [e.size]
    ensures e.entry.ZeebeEntry? ==> ZeebeEntries(entries + [e]) == ZeebeEntries(entries) + [e]
    ensures e.entry.ZeebeEntry? ==> HighestPositions(entries + [e]) == HighestPositions(entries) + [e.entry.highestPosition]
    ensures e.entry.ZeebeEntry? ==> LowestPositions(entries + [e]) == LowestPositions(entries) + [e.entry.lowestPosition]
    ensures !e.entry.ZeebeEntry? ==> ZeebeEntries(entries + [e]) == ZeebeEntries(entries)
    ensures !e.entry.ZeebeEntry? ==> HighestPositions(entries + [e]) == HighestPositions(entries)
    ensures !e.entry.ZeebeEntry? ==> LowestPositions(entries + [e]) == LowestPositions(entries)
  {
    assert (entries + [e])[..|entries|] == entries;
  }
}
