/** `LogStatus.status()`: one pass over the log that keeps the highest term,
    the extreme indices and the extreme record positions of the application
    entries. Every field starts at the sentinel `LogStatusDetails` gives it. */
module LogStatus {

  import opened Bytes
  import opened LogReader
  import opened Extremes

  /** `LogStatusDetails` without its floating-point average. */
  datatype StatusDetails = StatusDetails(
    scannedEntries: int,
    maxEntrySizeBytes: int,
    minEntrySizeBytes: int,
    lowestRecordPosition: int,
    highestRecordPosition: int,
    lowestIndex: int,
    highestIndex: int,
    highestTerm: int)

  /** The details before any entry: every extreme at the sentinel that any
      value replaces. */
  const INITIAL: StatusDetails := StatusDetails(0, INT_MIN, INT_MAX, LONG_MAX, LONG_MIN, LONG_MAX, LONG_MIN, LONG_MIN)

  /** The term of an entry, whichever kind it is. */
  function Term(e: Entry): int {
    e.data.term
  }

  /** The body of the `forEach`: raise the highest term and index, lower the
      lowest index, and for an application entry move the record-position
      extremes. */
  function Step(d: StatusDetails, e: Entry): StatusDetails {
    var d' := d.(highestTerm := Raise(d.highestTerm, Term(e)),
                 highestIndex := Raise(d.highestIndex, e.index),
                 lowestIndex := Lower(d.lowestIndex, e.index));
    if !e.data.Application? then d'
    else d'.(highestRecordPosition := Raise(d.highestRecordPosition, e.data.highestPosition),
             lowestRecordPosition := Lower(d.lowestRecordPosition, e.data.lowestPosition))
  }

  /** The terms of the entries, in order. */
  function Terms(entries: seq<Entry>): (r: seq<int>)
    ensures |r| == |entries| && forall k :: 0 <= k < |entries| ==> r[k] == Term(entries[k])
  {
    seq(|entries|, k requires 0 <= k < |entries| => Term(entries[k]))
  }

  /** The indices of the entries, in order. */
  function Indices(entries: seq<Entry>): (r: seq<int>)
    ensures |r| == |entries| && forall k :: 0 <= k < |entries| ==> r[k] == entries[k].index
  {
    seq(|entries|, k requires 0 <= k < |entries| => entries[k].index)
  }

  /** The application entries, in order. */
  function Applications(entries: seq<Entry>): (r: seq<Entry>)
    ensures forall k :: 0 <= k < |r| ==> r[k].data.Application? && r[k] in entries
    ensures forall k :: 0 <= k < |entries| && entries[k].data.Application? ==> entries[k] in r
    decreases |entries|
  {
    if |entries| == 0 then []
    else
      var n := |entries| - 1;
      var before := Applications(entries[..n]);
      assert forall k :: 0 <= k < n ==> entries[..n][k] == entries[k];
      if entries[n].data.Application? then before + [entries[n]] else before
  }

  /** The highest and lowest record positions of the application entries. */
  function Highest(entries: seq<Entry>): (r: seq<int>)
    ensures |r| == |Applications(entries)|
  {
    var apps := Applications(entries);
    seq(|apps|, k requires 0 <= k < |apps| => apps[k].data.highestPosition)
  }

  function Lowest(entries: seq<Entry>): (r: seq<int>)
    ensures |r| == |Applications(entries)|
  {
    var apps := Applications(entries);
    seq(|apps|, k requires 0 <= k < |apps| => apps[k].data.lowestPosition)
  }

  /** `status()` over the entries the reader returns, in order. */
  function Status(entries: seq<Entry>): (d: StatusDetails)
    decreases |entries|
  {
    if |entries| == 0 then INITIAL
    else Step(Status(entries[..|entries| - 1]), entries[|entries| - 1])
  }

  /** The details are the running extremes from the sentinels: the highest
      term and index and the lowest index over all entries, the record
      positions over the application entries only; the entry count and the
      sizes keep their initial values. */
  lemma {:induction false} StatusIsExtremes(entries: seq<Entry>)
    ensures Status(entries) == StatusDetails(
              0, INT_MIN, INT_MAX,
              Extremes.Min(Lowest(entries), LONG_MAX), Extremes.Max(Highest(entries), LONG_MIN),
              Extremes.Min(Indices(entries), LONG_MAX), Extremes.Max(Indices(entries), LONG_MIN),
              Extremes.Max(Terms(entries), LONG_MIN))
    decreases |entries|
  {
    if |entries| > 0 {
      var n := |entries| - 1;
      var init := entries[..n];
      var e := entries[n];
      assert entries == init + [e];
      StatusIsExtremes(init);
      ProjectionsAppend(init, e);
      Extremes.MaxAppend(Terms(init), Term(e), LONG_MIN);
      Extremes.MaxAppend(Indices(init), e.index, LONG_MIN);
      Extremes.MinAppend(Indices(init), e.index, LONG_MAX);
      if e.data.Application? {
        Extremes.MaxAppend(Highest(init), e.data.highestPosition, LONG_MIN);
        Extremes.MinAppend(Lowest(init), e.data.lowestPosition, LONG_MAX);
      }
    }
  }

  /** One more entry adds its term and index, and its positions when it is
      an application entry. */
  lemma ProjectionsAppend(entries: seq<Entry>, e: Entry)
    ensures Terms(entries + [e]) == Terms(entries) + [Term(e)]
    ensures Indices(entries + [e]) == Indices(entries) + [e.index]
    ensures e.data.Application? ==> Highest(entries + [e]) == Highest(entries) + [e.data.highestPosition]
    ensures e.data.Application? ==> Lowest(entries + [e]) == Lowest(entries) + [e.data.lowestPosition]
    ensures !e.data.Application? ==> Highest(entries + [e]) == Highest(entries)
    ensures !e.data.Application? ==> Lowest(entries + [e]) == Lowest(entries)
  {
    assert (entries + [e])[..|entries|] == entries;
    if e.data.Application? {
      assert Applications(entries + [e]) == Applications(entries) + [e];
    } else {
      assert Applications(entries + [e]) == Applications(entries);
    }
  }

  /** A control entry never moves the record positions. */
  lemma PositionsFromApplicationsOnly(entries: seq<Entry>, e: Entry)
    requires !e.data.Application?
    ensures Status(entries + [e]).highestRecordPosition == Status(entries).highestRecordPosition
    ensures Status(entries + [e]).lowestRecordPosition == Status(entries).lowestRecordPosition
  {
    assert (entries + [e])[..|entries|] == entries;
  }

  /** With no entries every field keeps its sentinel. */
  lemma EmptyStatus()
    ensures Status([]) == INITIAL
    ensures Status([]).lowestIndex == LONG_MAX && Status([]).highestIndex == LONG_MIN
  {
  }

  /** With at least one entry of a long index, the lowest index is at most
      the highest, and both are indices of entries. */
  lemma IndexRange(entries: seq<Entry>)
    requires |entries| > 0
    requires forall k :: 0 <= k < |entries| ==> IsLong(entries[k].index)
    ensures Status(entries).lowestIndex <= Status(entries).highestIndex
    ensures Status(entries).highestIndex in Indices(entries)
    ensures Status(entries).lowestIndex in Indices(entries)
  {
    StatusIsExtremes(entries);
    Extremes.NonEmptyRange(Indices(entries), LONG_MAX, LONG_MIN);
  }
}
