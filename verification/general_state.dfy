/** The backend's `GeneralState`: one pass over each of the exporter,
    banned-instance, instance, variable and message-deadline families, each
    folding what it walks into a details record. Every family is walked in
    key order; the running extremes start at the sentinels the code gives
    them. The averages are left out. */
module GeneralState {

  import opened Bytes
  import opened Tables
  import opened Extremes
  import IncidentState
  import VariablesState

  datatype ExportingDetails = ExportingDetails(exporters: map<string, int>, lowestPosition: int)

  /** `exporterDetails()`: every exporter's position by id, and the lowest
      position, which is 0 when there is no exporter. */
  function ExporterDetails(positions: Table<string, int>): (r: ExportingDetails)
    requires forall i :: 0 <= i < |positions| ==> IsLong(positions[i].1)
    ensures forall id :: id in r.exporters <==> exists i :: 0 <= i < |positions| && positions[i].0 == id
    ensures UniqueKeys(positions) ==> forall i :: 0 <= i < |positions| ==> r.exporters[positions[i].0] == positions[i].1
    ensures positions == [] ==> r.lowestPosition == 0
    ensures positions != [] ==> r.lowestPosition in Values(positions)
    ensures forall i :: 0 <= i < |positions| ==> r.lowestPosition <= positions[i].1
  {
    ExporterMap(positions);
    LowestExported(positions);
    var exporters := ToMap(positions);
    ExportingDetails(exporters, if |exporters| == 0 then 0 else Min(Values(positions), LONG_MAX))
  }

  /** With one entry per exporter, the map holds each exporter's position. */
  lemma ExporterMap(positions: Table<string, int>)
    ensures UniqueKeys(positions) ==> forall i :: 0 <= i < |positions| ==> ToMap(positions)[positions[i].0] == positions[i].1
  {
    forall i | 0 <= i < |positions| && UniqueKeys(positions)
      ensures ToMap(positions)[positions[i].0] == positions[i].1
    {
      ToMapStored(positions, i);
    }
  }

  /** The lowest position reported: 0 without exporters, otherwise the
      minimum from the long sentinel, which is one of the positions. */
  lemma LowestExported(positions: Table<string, int>)
    requires forall i :: 0 <= i < |positions| ==> IsLong(positions[i].1)
    ensures var lowest := if |ToMap(positions)| == 0 then 0 else Min(Values(positions), LONG_MAX);
            && (positions == [] ==> lowest == 0)
            && (positions != [] ==> lowest in Values(positions))
            && forall i :: 0 <= i < |positions| ==> lowest <= positions[i].1
  {
    if positions != [] {
      assert positions[0].0 in ToMap(positions);
      forall k | 0 <= k < |positions| ensures LONG_MIN <= Values(positions)[k] <= LONG_MAX {
        assert IsLong(positions[k].1);
      }
      NonEmptyRange(Values(positions), LONG_MAX, LONG_MIN);
    }
  }

  datatype IncidentDetails = IncidentDetails(bannedInstances: int, incidents: int)

  /** `incidentDetails()`: one count per banned-instance entry, and the
      number of incidents the incident family lists. */
  function IncidentDetailsOf(banned: Table<int, ()>, incidents: Table<int, IncidentState.Incident>): (r: IncidentDetails)
    ensures r.bannedInstances == |banned| && r.incidents == |incidents|
  {
    IncidentDetails(Count(banned), Count(incidents))
  }

  datatype ProcessInstancesDetails = ProcessInstancesDetails(processInstances: int, elementInstances: int)

  /** `instanceDetails()` over the (key, process-instance key) pairs of the
      element instances in walk order: an instance that is its own process
      instance counts as a process instance, every other one as an element
      instance. */
  function InstanceDetails(instances: seq<(int, int)>): (r: ProcessInstancesDetails)
    ensures r.processInstances >= 0 && r.elementInstances >= 0
    ensures r.processInstances + r.elementInstances == |instances|
    ensures r.processInstances == 0 <==> forall i :: 0 <= i < |instances| ==> instances[i].0 != instances[i].1
    ensures r.elementInstances == 0 <==> forall i :: 0 <= i < |instances| ==> instances[i].0 == instances[i].1
    decreases |instances|
  {
    if |instances| == 0 then ProcessInstancesDetails(0, 0)
    else
      var n := |instances| - 1;
      var d := InstanceDetails(instances[..n]);
      assert forall i :: 0 <= i < n ==> instances[..n][i] == instances[i];
      if instances[n].1 == instances[n].0 then d.(processInstances := d.processInstances + 1)
      else d.(elementInstances := d.elementInstances + 1)
  }

  datatype VariablesDetails = VariablesDetails(variablesCount: int, maxSize: int, minSize: int)

  /** The details before any variable: the count at 0, the maximum at
      `Long.MIN_VALUE` and the minimum at `Long.MAX_VALUE`. */
  const NO_VARIABLES: VariablesDetails := VariablesDetails(0, LONG_MIN, LONG_MAX)

  /** The value sizes of the walked variables, in walk order. */
  function Sizes(values: seq<Bytes>): (r: seq<int>)
    ensures |r| == |values| && forall k :: 0 <= k < |values| ==> r[k] == |values[k]|
  {
    seq(|values|, k requires 0 <= k < |values| => |values[k]|)
  }

  /** The consumer of the variable walk, given one value size: lower the
      minimum, raise the maximum, count the variable. */
  function SizeStep(d: VariablesDetails, size: int): VariablesDetails {
    VariablesDetails(d.variablesCount + 1, Raise(d.maxSize, size), Lower(d.minSize, size))
  }

  /** The size fold over values in walk order. */
  function SizeFold(values: seq<Bytes>): (r: VariablesDetails)
    ensures r == VariablesDetails(|values|, Max(Sizes(values), LONG_MIN), Min(Sizes(values), LONG_MAX))
    decreases |values|
  {
    if |values| == 0 then NO_VARIABLES
    else
      var n := |values| - 1;
      assert Sizes(values) == Sizes(values[..n]) + [|values[n]|];
      MaxAppend(Sizes(values[..n]), |values[n]|, LONG_MIN);
      MinAppend(Sizes(values[..n]), |values[n]|, LONG_MAX);
      SizeStep(SizeFold(values[..n]), |values[n]|)
  }

  /** `variablesDetails()`: the number of variables and the extreme value
      sizes; with no variable the extremes keep their sentinels. */
  function VariablesDetailsOf(variables: VariablesState.Variables): (r: VariablesDetails)
    ensures r.variablesCount == |variables|
    ensures variables == [] ==> r == NO_VARIABLES
    ensures forall i :: 0 <= i < |variables| ==> r.minSize <= |variables[i].1| <= r.maxSize
  {
    SizeFold(Values(variables))
  }

  /** With at least one variable, and buffers no larger than an int allows,
      both extremes are sizes of stored values and the minimum is at most
      the maximum. */
  lemma VariableRange(variables: VariablesState.Variables)
    requires |variables| > 0
    requires forall i :: 0 <= i < |variables| ==> |variables[i].1| <= INT_MAX
    ensures var d := VariablesDetailsOf(variables);
            && (exists i :: 0 <= i < |variables| && |variables[i].1| == d.minSize)
            && (exists j :: 0 <= j < |variables| && |variables[j].1| == d.maxSize)
            && d.minSize <= d.maxSize
  {
    var sizes := Sizes(Values(variables));
    NonEmptyRange(sizes, LONG_MAX, LONG_MIN);
    var a :| 0 <= a < |sizes| && sizes[a] == Min(sizes, LONG_MAX);
    var b :| 0 <= b < |sizes| && sizes[b] == Max(sizes, LONG_MIN);
    assert |variables[a].1| == sizes[a];
    assert |variables[b].1| == sizes[b];
  }

  datatype MessagesDetails = MessagesDetails(messageCount: int, firstDeadline: int, lastDeadline: int)

  /** The details before any deadline: the first deadline at
      `Long.MAX_VALUE`, the last at 0. */
  const NO_MESSAGES: MessagesDetails := MessagesDetails(0, LONG_MAX, 0)

  /** The consumer of the deadline walk: count the message, lower the first
      deadline, and take this deadline as the last. */
  function DeadlineStep(d: MessagesDetails, deadline: int): MessagesDetails {
    MessagesDetails(d.messageCount + 1, Lower(d.firstDeadline, deadline), deadline)
  }

  /** The deadline fold over the deadlines of the MESSAGE_DEADLINES keys,
      in walk order. */
  function DeadlineFold(deadlines: seq<int>): (r: MessagesDetails)
    ensures r.messageCount == |deadlines|
    ensures r.firstDeadline == Min(deadlines, LONG_MAX)
    ensures r.lastDeadline == if deadlines == [] then 0 else deadlines[|deadlines| - 1]
    decreases |deadlines|
  {
    if |deadlines| == 0 then NO_MESSAGES
    else
      var n := |deadlines| - 1;
      assert deadlines == deadlines[..n] + [deadlines[n]];
      MinAppend(deadlines[..n], deadlines[n], LONG_MAX);
      DeadlineStep(DeadlineFold(deadlines[..n]), deadlines[n])
  }

  /** `messagesDetails()` over the MESSAGE_DEADLINES family, whose keys are
      (deadline, message key): one message per entry, the smallest deadline
      as the first and the deadline of the last entry as the last. */
  function MessagesDetailsOf(deadlines: Table<(int, int), ()>): (r: MessagesDetails)
    requires forall i :: 0 <= i < |deadlines| ==> IsLong(deadlines[i].0.0)
    ensures r.messageCount == |deadlines|
    ensures deadlines == [] ==> r == NO_MESSAGES
    ensures deadlines != [] ==> r.lastDeadline == deadlines[|deadlines| - 1].0.0
    ensures deadlines != [] ==> exists i :: 0 <= i < |deadlines| && deadlines[i].0.0 == r.firstDeadline
    ensures forall i :: 0 <= i < |deadlines| ==> r.firstDeadline <= deadlines[i].0.0
  {
    var ds := Deadlines(deadlines);
    if |deadlines| == 0 then DeadlineFold(ds)
    else
      assert forall k :: 0 <= k < |ds| ==> LONG_MIN <= ds[k] <= LONG_MAX by {
        forall k | 0 <= k < |ds| ensures LONG_MIN <= ds[k] <= LONG_MAX {
          assert IsLong(deadlines[k].0.0);
        }
      }
      NonEmptyRange(ds, LONG_MAX, LONG_MIN);
      DeadlineFold(ds)
  }

  /** The deadline component of each MESSAGE_DEADLINES key, in walk order. */
  function Deadlines(deadlines: Table<(int, int), ()>): (r: seq<int>)
    ensures |r| == |deadlines| && forall i :: 0 <= i < |deadlines| ==> r[i] == deadlines[i].0.0
  {
    seq(|deadlines|, i requires 0 <= i < |deadlines| => deadlines[i].0.0)
  }
}
