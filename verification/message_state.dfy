/** Messages (`MessageState`): MESSAGE_KEY maps a message key to the
    message; MESSAGES is keyed by (name, correlation key, message key) and
    MESSAGE_DEADLINES by (deadline, message key); MESSAGE_CORRELATED,
    MESSAGE_WORKFLOWS_ACTIVE_BY_CORRELATION_KEY and MESSAGE_IDS record
    facts by their keys alone; MESSAGE_WORKFLOW_INSTANCE_CORRELATION_KEYS
    maps a workflow instance to its correlation key. */
module MessageState {

  import opened Wrappers
  import opened Tables

  /** The argument checks: a key that is not positive and an empty name
      throw, naming the argument. */
  function EnsureGreaterThanZero(property: string, value: int): (r: Result<()>)
    ensures r.Ok? <==> value > 0
    ensures r.Throws? ==> r.error == IllegalArgument(property)
  {
    if value > 0 then Ok(()) else Throws(IllegalArgument(property))
  }

  function EnsureNotEmpty(property: string, value: string): (r: Result<()>)
    ensures r.Ok? <==> value != ""
    ensures r.Throws? ==> r.error == IllegalArgument(property)
  {
    if value != "" then Ok(()) else Throws(IllegalArgument(property))
  }

  /** Whether a family holds a key. */
  predicate Has<K(==), V>(t: Table<K, V>, key: K) {
    exists i :: 0 <= i < |t| && t[i].0 == key
  }

  /** `existMessageCorrelation(messageKey, bpmnProcessId)`: whether the
      message is correlated to the process, after the argument checks. */
  function ExistMessageCorrelation(correlated: Table<(int, string), ()>, messageKey: int, bpmnProcessId: string): (r: Result<bool>)
    ensures r.Ok? <==> messageKey > 0 && bpmnProcessId != ""
    ensures messageKey <= 0 ==> r == Throws(IllegalArgument("message key"))
    ensures messageKey > 0 && bpmnProcessId == "" ==> r == Throws(IllegalArgument("BPMN process id"))
    ensures r.Ok? ==> (r.value <==> Has(correlated, (messageKey, bpmnProcessId)))
  {
    var _ :- EnsureGreaterThanZero("message key", messageKey);
    var _ :- EnsureNotEmpty("BPMN process id", bpmnProcessId);
    Ok(Lookup(correlated, (messageKey, bpmnProcessId)).Some?)
  }

  /** `existActiveWorkflowInstance(bpmnProcessId, correlationKey)`. */
  function ExistActiveWorkflowInstance(active: Table<(string, string), ()>, bpmnProcessId: string, correlationKey: string): (r: Result<bool>)
    ensures r.Ok? <==> bpmnProcessId != "" && correlationKey != ""
    ensures bpmnProcessId == "" ==> r == Throws(IllegalArgument("BPMN process id"))
    ensures bpmnProcessId != "" && correlationKey == "" ==> r == Throws(IllegalArgument("correlation key"))
    ensures r.Ok? ==> (r.value <==> Has(active, (bpmnProcessId, correlationKey)))
  {
    var _ :- EnsureNotEmpty("BPMN process id", bpmnProcessId);
    var _ :- EnsureNotEmpty("correlation key", correlationKey);
    Ok(Lookup(active, (bpmnProcessId, correlationKey)).Some?)
  }

  /** `getWorkflowInstanceCorrelationKey(workflowInstanceKey)`: the stored
      correlation key, or null, after the argument check. */
  function GetWorkflowInstanceCorrelationKey(keys: Table<int, string>, workflowInstanceKey: int): (r: Result<Option<string>>)
    ensures r.Ok? <==> workflowInstanceKey > 0
    ensures r.Throws? ==> r.error == IllegalArgument("workflow instance key")
    ensures r.Ok? ==> (r.value.None? <==> !Has(keys, workflowInstanceKey))
    ensures r.Ok? && r.value.Some? ==> (workflowInstanceKey, r.value.value) in keys
  {
    var _ :- EnsureGreaterThanZero("workflow instance key", workflowInstanceKey);
    Ok(Lookup(keys, workflowInstanceKey))
  }

  /** `exist(name, correlationKey, messageId)`: no argument checks. */
  function Exist(ids: Table<((string, string), string), ()>, name: string, correlationKey: string, messageId: string): (r: bool)
    ensures r <==> Has(ids, ((name, correlationKey), messageId))
  {
    Lookup(ids, ((name, correlationKey), messageId)).Some?
  }

  /** The messages a walk hands to its visitor, looked up by key (null
      for a message that is gone), until the visitor answers false. */
  function Handed<M>(keys: seq<int>, messages: Table<int, M>, visit: Option<M> -> bool): (r: seq<Option<M>>)
    ensures |r| <= |keys|
    ensures forall k :: 0 <= k < |r| ==> r[k] == Lookup(messages, keys[k])
    ensures forall k :: 0 <= k < |r| - 1 ==> visit(r[k])
    ensures |r| < |keys| ==> |r| > 0 && !visit(r[|r| - 1])
  {
    if |keys| == 0 then []
    else
      var m := Lookup(messages, keys[0]);
      if !visit(m) then [m]
      else
        var rest := Handed(keys[1..], messages, visit);
        var r := [m] + rest;
        assert forall k :: 0 < k < |r| ==> r[k] == rest[k - 1];
        assert forall k :: 0 < k < |r| ==> keys[k] == keys[1..][k - 1];
        r
  }

  /** `visitMessages(name, correlationKey, visitor)`: the messages filed
      under the name and correlation key, in message key order. */
  function VisitMessages<M>(index: Table<((string, string), int), ()>, messages: Table<int, M>, name: string, correlationKey: string, visit: Option<M> -> bool): (r: seq<Option<M>>)
    ensures forall k :: 0 <= k < |r| ==> exists i :: 0 <= i < |index| && index[i].0.0 == (name, correlationKey) && r[k] == Lookup(messages, index[i].0.1)
    ensures forall k :: 0 <= k < |r| - 1 ==> visit(r[k])
    ensures (forall k :: 0 <= k < |r| ==> visit(r[k])) ==> |r| == |Prefixed(index, (name, correlationKey))|
  {
    var entries := Prefixed(index, (name, correlationKey));
    var keys := Keys(entries);
    var r := Handed(keys, messages, visit);
    forall k | 0 <= k < |r|
      ensures exists i :: 0 <= i < |index| && index[i].0.0 == (name, correlationKey) && r[k] == Lookup(messages, index[i].0.1)
    {
      assert entries[k] in entries;
      var i :| 0 <= i < |index| && index[i].0.0 == (name, correlationKey) && entries[k] == (index[i].0.1, index[i].1);
    }
    r
  }

  /** The message keys of the deadlines the deadline walk finds due:
      those before the first deadline later than the timestamp. */
  function DueMessageKeys(deadlines: Table<(int, int), ()>, timestamp: int): (r: seq<int>)
    ensures |r| <= |deadlines|
    ensures forall k :: 0 <= k < |r| ==> r[k] == deadlines[k].0.1 && deadlines[k].0.0 <= timestamp
    ensures |r| < |deadlines| ==> deadlines[|r|].0.0 > timestamp
  {
    if |deadlines| == 0 || deadlines[0].0.0 > timestamp then []
    else
      var rest := DueMessageKeys(deadlines[1..], timestamp);
      var r := [deadlines[0].0.1] + rest;
      assert forall k :: 0 < k < |r| ==> r[k] == rest[k - 1] && deadlines[k] == deadlines[1..][k - 1];
      r
  }

  /** `visitMessagesWithDeadlineBefore(timestamp, visitor)`: the messages
      of the deadlines in key order while the deadline is not after the
      timestamp, until the visitor answers false. */
  function VisitMessagesWithDeadlineBefore<M>(deadlines: Table<(int, int), ()>, messages: Table<int, M>, timestamp: int, visit: Option<M> -> bool): (r: seq<Option<M>>)
    ensures |r| <= |deadlines|
    ensures forall k :: 0 <= k < |r| ==> deadlines[k].0.0 <= timestamp && r[k] == Lookup(messages, deadlines[k].0.1)
    ensures forall k :: 0 <= k < |r| - 1 ==> visit(r[k])
    ensures (forall k :: 0 <= k < |r| ==> visit(r[k])) ==> |r| == |deadlines| || deadlines[|r|].0.0 > timestamp
  {
    Handed(DueMessageKeys(deadlines, timestamp), messages, visit)
  }
}
