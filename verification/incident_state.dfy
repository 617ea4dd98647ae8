/** Incidents (`IncidentState`): INCIDENTS maps an incident key to its
    record; INCIDENT_WORKFLOW_INSTANCES and INCIDENT_JOBS map an element
    instance or a job to the key of its incident. A missing key reads as
    MISSING_INCIDENT. */
module IncidentState {

  import opened Wrappers
  import opened Tables

  const MISSING_INCIDENT: int := -1

  /** The part of an incident record the queries read. */
  datatype Incident = Incident(jobKey: int, elementInstanceKey: int)

  /** `getIncidentRecord(key)`: the stored record, or null. */
  function GetIncidentRecord(incidents: Table<int, Incident>, key: int): (r: Option<Incident>)
    ensures r.None? <==> forall i :: 0 <= i < |incidents| ==> incidents[i].0 != key
    ensures r.Some? ==> (key, r.value) in incidents
  {
    Lookup(incidents, key)
  }

  /** `getWorkflowInstanceIncidentKey` and `getJobIncidentKey`: the stored
      incident key, or MISSING_INCIDENT. */
  function IncidentKeyOf(t: Table<int, int>, key: int): (r: int)
    ensures (forall i :: 0 <= i < |t| ==> t[i].0 != key) ==> r == MISSING_INCIDENT
    ensures r != MISSING_INCIDENT ==> (key, r) in t
    ensures UniqueKeys(t) ==> forall i :: 0 <= i < |t| && t[i].0 == key ==> r == t[i].1
  {
    forall i | 0 <= i < |t| && UniqueKeys(t) && t[i].0 == key ensures Lookup(t, key) == Some(t[i].1) {
      LookupStored(t, i);
    }
    match Lookup(t, key)
    case Some(k) => k
    case None => MISSING_INCIDENT
  }

  /** `isJobIncident(record)`: whether the incident is about a job. */
  predicate IsJobIncident(record: Incident) {
    record.jobKey > 0
  }

  /** `forExistingWorkflowIncident(elementInstanceKey, resolver)`: the
      resolver's one call, with the incident record (null when the incident
      is gone) and the incident key, made exactly when an incident key other
      than MISSING_INCIDENT is stored for the element instance. */
  function ForExistingWorkflowIncident(instanceIncidents: Table<int, int>, incidents: Table<int, Incident>, elementInstanceKey: int): (r: Option<(Option<Incident>, int)>)
    requires UniqueKeys(instanceIncidents)
    ensures r.Some? <==> exists i :: 0 <= i < |instanceIncidents| && instanceIncidents[i].0 == elementInstanceKey && instanceIncidents[i].1 != MISSING_INCIDENT
    ensures r.Some? ==> (elementInstanceKey, r.value.1) in instanceIncidents
                        && r.value.0 == GetIncidentRecord(incidents, r.value.1)
  {
    var key := IncidentKeyOf(instanceIncidents, elementInstanceKey);
    if key != MISSING_INCIDENT then Some((GetIncidentRecord(incidents, key), key)) else None
  }
}
