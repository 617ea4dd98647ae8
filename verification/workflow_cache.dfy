/** Deployed workflows (`WorkflowPersistenceCache`): WORKFLOW_CACHE maps a
    workflow key to the workflow; WORKFLOW_CACHE_BY_ID_AND_VERSION is keyed
    by (process id, version); WORKFLOW_CACHE_LATEST_KEY maps a process id
    to its latest version and WORKFLOW_CACHE_DIGEST_BY_ID to its digest.
    The queries over all workflows walk WORKFLOW_CACHE with a value-only
    `forEach`, which hands its consumer the same value object each time. */
module WorkflowCache {

  import opened Wrappers
  import opened Bytes
  import opened Tables

  /** The version used when no latest version is stored. */
  const NO_VERSION: int := -1

  datatype Workflow = Workflow(key: int, bpmnProcessId: string, version: int, resource: Bytes)

  /** `getWorkflowByProcessIdAndVersion(processId, version)`. */
  function GetWorkflowByProcessIdAndVersion(byIdAndVersion: Table<(string, int), Workflow>, processId: string, version: int): (r: Option<Workflow>)
    ensures r.None? <==> forall i :: 0 <= i < |byIdAndVersion| ==> byIdAndVersion[i].0 != (processId, version)
    ensures r.Some? ==> ((processId, version), r.value) in byIdAndVersion
  {
    Lookup(byIdAndVersion, (processId, version))
  }

  /** `getLatestWorkflowVersionByProcessId(processId)`: the workflow of the
      process's latest version, the version being NO_VERSION when none is
      stored. */
  function GetLatestWorkflowVersionByProcessId(latest: Table<string, int>, byIdAndVersion: Table<(string, int), Workflow>, processId: string): (r: Option<Workflow>)
    ensures (forall i :: 0 <= i < |latest| ==> latest[i].0 != processId) ==>
              r == GetWorkflowByProcessIdAndVersion(byIdAndVersion, processId, NO_VERSION)
    ensures UniqueKeys(latest) ==> forall i :: 0 <= i < |latest| && latest[i].0 == processId ==>
              r == GetWorkflowByProcessIdAndVersion(byIdAndVersion, processId, latest[i].1)
  {
    forall i | 0 <= i < |latest| && UniqueKeys(latest) && latest[i].0 == processId
      ensures Lookup(latest, processId) == Some(latest[i].1)
    {
      LookupStored(latest, i);
    }
    var version := match Lookup(latest, processId) case Some(v) => v case None => NO_VERSION;
    GetWorkflowByProcessIdAndVersion(byIdAndVersion, processId, version)
  }

  /** The HashMap the walk fills: each workflow put under its own key, a
      later workflow replacing an earlier one with the same key. */
  function ByKey(ws: seq<Workflow>): (m: map<int, Workflow>)
    ensures forall k :: k in m <==> exists i :: 0 <= i < |ws| && ws[i].key == k
    ensures forall k :: k in m ==> m[k].key == k && m[k] in ws
    decreases |ws|
  {
    if |ws| == 0 then map[]
    else
      var n := |ws| - 1;
      var before := ByKey(ws[..n]);
      assert forall i :: 0 <= i < n ==> ws[..n][i] == ws[i];
      assert forall w :: w in ws[..n] ==> w in ws;
      before[ws[n].key := ws[n]]
  }

  /** A key's entry is the last workflow of the walk with that key. */
  lemma {:induction false} ByKeyLastWins(ws: seq<Workflow>, i: nat)
    requires i < |ws|
    requires forall j :: i < j < |ws| ==> ws[j].key != ws[i].key
    ensures ByKey(ws)[ws[i].key] == ws[i]
    decreases |ws|
  {
    var n := |ws| - 1;
    assert ByKey(ws) == ByKey(ws[..n])[ws[n].key := ws[n]];
    if i < n {
      assert ws[..n][i] == ws[i];
      assert ws[n].key != ws[i].key;
      assert forall j :: i < j < n ==> ws[..n][j] == ws[j];
      ByKeyLastWins(ws[..n], i);
    }
  }

  /** `getWorkflowByKey(key)` as meant: the workflow stored under the key,
      the last one the walk met when several share it. */
  function GetWorkflowByKey(ws: seq<Workflow>, key: int): (r: Option<Workflow>)
    ensures r.None? <==> forall i :: 0 <= i < |ws| ==> ws[i].key != key
    ensures r.Some? ==> r.value.key == key && r.value in ws
  {
    var m := ByKey(ws);
    if key in m then Some(m[key]) else None
  }

  /** `getWorkflows()` as meant: one workflow per key. */
  function GetWorkflows(ws: seq<Workflow>): (r: map<int, Workflow>)
    ensures forall k :: k in r ==> r[k].key == k && r[k] in ws
    ensures forall i :: 0 <= i < |ws| ==> ws[i].key in r
  {
    ByKey(ws)
  }

  /** `getWorkflowsByBpmnProcessId(processId)` as meant: the workflows of
      the process, in the order the walk met them. */
  function GetWorkflowsByBpmnProcessId(ws: seq<Workflow>, processId: string): (r: seq<Workflow>)
    ensures |r| <= |ws|
    ensures forall w :: w in r <==> w in ws && w.bpmnProcessId == processId
  {
    if |ws| == 0 then []
    else
      var rest := GetWorkflowsByBpmnProcessId(ws[1..], processId);
      assert forall w :: w in ws <==> w == ws[0] || w in ws[1..];
      if ws[0].bpmnProcessId == processId then [ws[0]] + rest else rest
  }

  /** The value object the walk reuses: after the walk it holds the last
      workflow of the family. */
  function Flyweight(ws: seq<Workflow>): (r: Workflow)
    requires |ws| > 0
    ensures r in ws
  {
    ws[|ws| - 1]
  }

  /** `getWorkflowByKey(key)` as written: the map holds the reused value
      object under every key, so any key that is present yields the last
      workflow of the family. */
  function GetWorkflowByKeyAsWritten(ws: seq<Workflow>, key: int): (r: Option<Workflow>)
    ensures r.None? <==> forall i :: 0 <= i < |ws| ==> ws[i].key != key
    ensures r.Some? ==> r.value == ws[|ws| - 1]
  {
    if key in ByKey(ws) then Some(Flyweight(ws)) else None
  }

  /** `getWorkflowsByBpmnProcessId(processId)` as written: one reference
      to the reused value object per matching workflow. */
  function GetWorkflowsByBpmnProcessIdAsWritten(ws: seq<Workflow>, processId: string): (r: seq<Workflow>)
    ensures |r| == |GetWorkflowsByBpmnProcessId(ws, processId)|
    ensures forall k :: 0 <= k < |r| ==> r[k] == ws[|ws| - 1]
  {
    var n := |GetWorkflowsByBpmnProcessId(ws, processId)|;
    if n == 0 then [] else seq(n, _ => Flyweight(ws))
  }

  /** `getWorkflows()` as written: one entry per key, each the reused value
      object, so every workflow listed is the last one of the family. */
  function GetWorkflowsAsWritten(ws: seq<Workflow>): (r: map<int, Workflow>)
    ensures r.Keys == GetWorkflows(ws).Keys
    ensures forall k :: k in r ==> r[k] == ws[|ws| - 1]
  {
    if |ws| == 0 then map[] else map k | k in ByKey(ws) :: Flyweight(ws)
  }

  /** Two workflows of two processes: asking for the first by its key, or
      by its process, answers with the second, and listing all workflows
      lists the second twice. */
  lemma AliasedValue()
    ensures var a := Workflow(1, "a", 1, []);
            var b := Workflow(2, "b", 1, []);
            && GetWorkflowByKeyAsWritten([a, b], 1) == Some(b)
            && GetWorkflowByKey([a, b], 1) == Some(a)
            && GetWorkflowsByBpmnProcessIdAsWritten([a, b], "a") == [b]
            && GetWorkflowsByBpmnProcessId([a, b], "a") == [a]
            && GetWorkflowsAsWritten([a, b])[1] == b
            && GetWorkflows([a, b])[1] == a
  {
    var a := Workflow(1, "a", 1, []);
    var b := Workflow(2, "b", 1, []);
    ByKeyLastWins([a, b], 0);
    assert [a, b][1..] == [b];
    assert GetWorkflowsByBpmnProcessId([b], "a") == [] by {
      assert [b][1..] == [];
    }
  }

  /** `getLatestVersionDigest(processId)`: the stored digest, or null. */
  function GetLatestVersionDigest(digests: Table<string, Bytes>, processId: string): (r: Option<Bytes>)
    ensures r.None? <==> forall i :: 0 <= i < |digests| ==> digests[i].0 != processId
    ensures r.Some? ==> (processId, r.value) in digests
  {
    Lookup(digests, processId)
  }
}
