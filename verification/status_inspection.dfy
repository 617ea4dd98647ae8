/** zdb's `StatusInspection`: the counts and extremes the status report
    prints, each a fold over one family walked in key order. The report text
    around them is left out; the lowest exported position is shown as its
    decimal text or as "No exporters". */
module StatusInspection {

  import opened Bytes
  import opened Text
  import opened Tables
  import opened Extremes
  import IncidentState
  import GeneralState

  datatype InstanceCounts = InstanceCounts(workflowInstances: int, elementInstances: int)

  /** `workflowInstances()` over the ELEMENT_INSTANCE_KEY family, given as
      each instance's key and parent key: an instance without a parent
      (parent key -1) counts as a workflow instance, and every instance
      counts as an element instance. */
  function WorkflowInstances(instances: Table<int, int>): (r: InstanceCounts)
    ensures r.elementInstances == |instances|
    ensures 0 <= r.workflowInstances <= r.elementInstances
    ensures r.workflowInstances == 0 <==> forall i :: 0 <= i < |instances| ==> instances[i].1 != -1
    ensures r.workflowInstances == r.elementInstances <==> forall i :: 0 <= i < |instances| ==> instances[i].1 == -1
    decreases |instances|
  {
    if |instances| == 0 then InstanceCounts(0, 0)
    else
      var n := |instances| - 1;
      var c := WorkflowInstances(instances[..n]);
      assert forall i :: 0 <= i < n ==> instances[..n][i] == instances[i];
      InstanceCounts(c.workflowInstances + (if instances[n].1 == -1 then 1 else 0), c.elementInstances + 1)
  }

  /** `variables()` over the variable values in walk order: their number
      and the running extremes of their sizes from the `Long.MAX_VALUE` and
      `Long.MIN_VALUE` sentinels. */
  function Variables(values: seq<Bytes>): (r: GeneralState.VariablesDetails)
    ensures r.variablesCount == |values|
    ensures values == [] ==> r == GeneralState.NO_VARIABLES
    ensures forall k :: 0 <= k < |values| ==> r.minSize <= |values[k]| <= r.maxSize
    ensures values != [] ==> (r.minSize == LONG_MAX || r.minSize in GeneralState.Sizes(values))
  {
    GeneralState.SizeFold(values)
  }

  /** `messageCount()`: one per MESSAGES entry. */
  function MessageCount(messages: Table<((string, string), int), ()>): (r: int)
    ensures r == |messages|
  {
    Count(messages)
  }

  datatype Deadlines = Deadlines(next: int, last: int)

  /** Before any deadline: the next deadline at -1, the last at 0. */
  const NO_DEADLINES: Deadlines := Deadlines(-1, 0)

  /** The consumer of the deadline walk: the deadline becomes the next one
      while that is still -1, and always becomes the last one. */
  function DeadlineStep(d: Deadlines, deadline: int): Deadlines {
    Deadlines(if d.next == -1 then deadline else d.next, deadline)
  }

  /** `messageDeadlines()` over the deadline components of the
      MESSAGE_DEADLINES keys, in walk order. The next deadline is the first
      one other than -1 (so the first one, for real deadlines), or -1; the
      last is the last one, or 0. */
  function MessageDeadlines(deadlines: seq<int>): (r: Deadlines)
    ensures deadlines == [] ==> r == NO_DEADLINES
    ensures deadlines != [] ==> r.last == deadlines[|deadlines| - 1]
    ensures r.next == -1 <==> forall i :: 0 <= i < |deadlines| ==> deadlines[i] == -1
    ensures r.next != -1 ==> exists i :: 0 <= i < |deadlines| && deadlines[i] == r.next && forall j :: 0 <= j < i ==> deadlines[j] == -1
    ensures deadlines != [] && deadlines[0] != -1 ==> r.next == deadlines[0]
    decreases |deadlines|
  {
    if |deadlines| == 0 then NO_DEADLINES
    else
      var n := |deadlines| - 1;
      assert forall i :: 0 <= i < n ==> deadlines[..n][i] == deadlines[i];
      DeadlineStep(MessageDeadlines(deadlines[..n]), deadlines[n])
  }

  /** The deadlines of a family in key order are ascending; then both
      status reports agree: the next deadline is the smallest, and the last
      is the same. */
  lemma {:induction false} ReportsAgree(deadlines: Table<(int, int), ()>)
    requires |deadlines| > 0
    requires forall i :: 0 <= i < |deadlines| ==> 0 <= deadlines[i].0.0 <= LONG_MAX
    requires forall i, j :: 0 <= i <= j < |deadlines| ==> deadlines[i].0.0 <= deadlines[j].0.0
    ensures var g := GeneralState.MessagesDetailsOf(deadlines);
            var s := MessageDeadlines(GeneralState.Deadlines(deadlines));
            s.next == g.firstDeadline && s.last == g.lastDeadline
  {
    var g := GeneralState.MessagesDetailsOf(deadlines);
    var ds := GeneralState.Deadlines(deadlines);
    var i :| 0 <= i < |deadlines| && deadlines[i].0.0 == g.firstDeadline;
    assert g.firstDeadline <= ds[0] <= ds[i];
  }

  datatype IncidentCounts = IncidentCounts(blacklistedInstances: int, incidents: int)

  /** `incidentRelated()`: one count per BLACKLIST entry and one per
      INCIDENTS entry. */
  function IncidentRelated(blacklist: Table<int, ()>, incidents: Table<int, IncidentState.Incident>): (r: IncidentCounts)
    ensures r.blacklistedInstances == |blacklist| && r.incidents == |incidents|
  {
    IncidentCounts(Count(blacklist), Count(incidents))
  }

  const NO_EXPORTERS: string := "No exporters"

  /** `lowestExportedPosition()`: the decimal text of the lowest exporter
      position, or "No exporters" when no exporter is present. */
  function LowestExportedPosition(positions: Table<string, int>): (r: string)
    requires forall i :: 0 <= i < |positions| ==> IsLong(positions[i].1)
    ensures r == NO_EXPORTERS <==> positions == []
    ensures positions != [] ==> r == IntToString(GeneralState.ExporterDetails(positions).lowestPosition)
  {
    if |positions| == 0 then NO_EXPORTERS
    else
      var lowest := GeneralState.ExporterDetails(positions).lowestPosition;
      IntToStringNotWord(lowest);
      IntToString(lowest)
  }

  /** A number's decimal text is never the "No exporters" text. */
  lemma IntToStringNotWord(v: int)
    ensures IntToString(v) != NO_EXPORTERS
  {
    IntToStringChars(v, 'N');
    assert 'N' in NO_EXPORTERS;
  }
}
