/** Jobs (`JobState`): JOBS maps a job key to its record, JOB_STATES a job
    key to its state, JOB_ACTIVATABLE is keyed by (job type, job key) and
    JOB_DEADLINES by (deadline, job key). Walks over the last two hand each
    job that still exists to a callback until it answers false. */
module JobState {

  import opened Wrappers
  import opened Tables
  import ReadOnlyDb

  datatype State = ACTIVATABLE | ACTIVATED | FAILED | NOT_FOUND | ERROR_THROWN

  /** The byte each state is stored as. */
  function Code(s: State): (b: nat)
    ensures b < 5
  {
    match s
    case ACTIVATABLE => 0
    case ACTIVATED => 1
    case FAILED => 2
    case NOT_FOUND => 3
    case ERROR_THROWN => 4
  }

  /** Distinct states are stored as distinct bytes. */
  lemma CodeInjective(a: State, b: State)
    requires Code(a) == Code(b)
    ensures a == b
  {
  }

  /** `getState(key)`: the stored state, or NOT_FOUND. */
  function GetState(states: Table<int, State>, key: int): (r: State)
    ensures (forall i :: 0 <= i < |states| ==> states[i].0 != key) ==> r == NOT_FOUND
    ensures r != NOT_FOUND ==> (key, r) in states
    ensures UniqueKeys(states) ==> forall i :: 0 <= i < |states| && states[i].0 == key ==> r == states[i].1
  {
    forall i | 0 <= i < |states| && UniqueKeys(states) && states[i].0 == key
      ensures Lookup(states, key) == Some(states[i].1)
    {
      LookupStored(states, i);
    }
    match Lookup(states, key)
    case Some(s) => s
    case None => NOT_FOUND
  }

  /** `isInState(key, state)`. */
  function IsInState(states: Table<int, State>, key: int, s: State): (r: bool) {
    GetState(states, key) == s
  }

  /** A job is in a state exactly when that state is stored for it, or
      when nothing is stored and the state asked about is NOT_FOUND. */
  lemma IsInStateIff(states: Table<int, State>, key: int, s: State)
    requires UniqueKeys(states)
    ensures IsInState(states, key, s) <==>
              (exists i :: 0 <= i < |states| && states[i] == (key, s))
              || (s == NOT_FOUND && forall i :: 0 <= i < |states| ==> states[i].0 != key)
  {
    if IsInState(states, key, s) && s != NOT_FOUND {
      var i :| 0 <= i < |states| && states[i] == (key, s);
    }
  }

  /** `getJob(key)`: the stored record, or null. */
  function GetJob<J>(jobs: Table<int, J>, key: int): (r: Option<J>)
    ensures r.None? <==> forall i :: 0 <= i < |jobs| ==> jobs[i].0 != key
    ensures r.Some? ==> (key, r.value) in jobs
  {
    Lookup(jobs, key)
  }

  /** The callbacks a walk made, in order, and the exception that ended
      it, if one did. */
  datatype Calls<J> = Calls(handed: seq<(int, J)>, failure: Option<Exception>)

  /** `visitJob` for each of the keys in turn, until the callback answers
      false: an existing job goes to the callback; a missing one runs the
      cleanup, which throws or lets the walk go on. */
  function VisitJobs<J>(keys: seq<int>, jobs: Table<int, J>, callback: (int, J) -> bool, cleanup: Result<()>): (r: Calls<J>)
    ensures |r.handed| <= |keys|
    ensures forall k :: 0 <= k < |r.handed| ==> r.handed[k].0 in keys && GetJob(jobs, r.handed[k].0) == Some(r.handed[k].1)
    ensures forall k :: 0 <= k < |r.handed| - 1 ==> callback(r.handed[k].0, r.handed[k].1)
    ensures r.failure.Some? ==> cleanup.Throws? && r.failure.value == cleanup.error
    ensures cleanup.Ok? ==> r.failure.None?
  {
    if |keys| == 0 then Calls([], None)
    else
      match GetJob(jobs, keys[0])
      case None =>
        if cleanup.Throws? then Calls([], Some(cleanup.error))
        else VisitJobs(keys[1..], jobs, callback, cleanup)
      case Some(job) =>
        if !callback(keys[0], job) then Calls([(keys[0], job)], None)
        else
          var rest := VisitJobs(keys[1..], jobs, callback, cleanup);
          var r := Calls([(keys[0], job)] + rest.handed, rest.failure);
          assert forall k :: 0 < k < |r.handed| ==> r.handed[k] == rest.handed[k - 1];
          r
  }

  /** With a callback that always answers true and a cleanup that lets
      the walk go on, every key's job that exists is handed over. */
  lemma {:induction false} VisitJobsComplete<J>(keys: seq<int>, jobs: Table<int, J>, callback: (int, J) -> bool)
    requires forall k, j :: callback(k, j)
    ensures var r := VisitJobs(keys, jobs, callback, Ok(()));
            forall i :: 0 <= i < |keys| && GetJob(jobs, keys[i]).Some? ==> (keys[i], GetJob(jobs, keys[i]).value) in r.handed
  {
    if |keys| > 0 {
      VisitJobsComplete(keys[1..], jobs, callback);
      forall i | 0 < i < |keys| ensures keys[i] == keys[1..][i - 1] { }
    }
  }

  /** The job keys of the deadlines a `forEachTimedOutEntry` walk finds due:
      those before the first deadline not below the bound. */
  function DueKeys(deadlines: Table<(int, int), ()>, upperBound: int): (r: seq<int>)
    ensures |r| <= |deadlines|
    ensures forall k :: 0 <= k < |r| ==> r[k] == deadlines[k].0.1 && deadlines[k].0.0 < upperBound
    ensures |r| < |deadlines| ==> deadlines[|r|].0.0 >= upperBound
  {
    if |deadlines| == 0 || deadlines[0].0.0 >= upperBound then []
    else
      var rest := DueKeys(deadlines[1..], upperBound);
      var r := [deadlines[0].0.1] + rest;
      assert forall k :: 0 < k < |r| ==> r[k] == rest[k - 1] && deadlines[k] == deadlines[1..][k - 1];
      r
  }

  /** The cleanup under the read-only database: the deletion of the
      walked entry, which throws. */
  function ReadOnlyCleanup(): (r: Result<()>)
    ensures r == Throws(UnsupportedOperation(ReadOnlyDb.CANNOT_MODIFY))
  {
    ReadOnlyDb.Perform(ReadOnlyDb.FamilyDelete)
  }

  /** `forEachTimedOutEntry(upperBound, callback)` as written: the
      deadlines in key order while they are below the bound, each job that
      exists going to the callback; a missing job's cleanup deletes the
      deadline entry, which the read-only column family refuses. */
  function ForEachTimedOutEntryAsWritten<J>(deadlines: Table<(int, int), ()>, jobs: Table<int, J>, upperBound: int, callback: (int, J) -> bool): (r: Calls<J>)
    ensures r.failure.Some? ==> r.failure.value == UnsupportedOperation(ReadOnlyDb.CANNOT_MODIFY)
    ensures r.failure.None? ==> r == ForEachTimedOutEntry(deadlines, jobs, upperBound, callback)
  {
    var keys := DueKeys(deadlines, upperBound);
    var r := VisitJobs(keys, jobs, callback, ReadOnlyCleanup());
    if r.failure.None? then
      CleanupUnused(keys, jobs, callback, ReadOnlyCleanup());
      r
    else r
  }

  /** A walk that never needed its cleanup is the walk whose cleanup lets
      it go on. */
  lemma {:induction false} CleanupUnused<J>(keys: seq<int>, jobs: Table<int, J>, callback: (int, J) -> bool, cleanup: Result<()>)
    requires VisitJobs(keys, jobs, callback, cleanup).failure.None?
    ensures VisitJobs(keys, jobs, callback, cleanup) == VisitJobs(keys, jobs, callback, Ok(()))
    decreases |keys|
  {
    if |keys| > 0 {
      match GetJob(jobs, keys[0])
      case None =>
        CleanupUnused(keys[1..], jobs, callback, cleanup);
      case Some(job) =>
        if callback(keys[0], job) {
          CleanupUnused(keys[1..], jobs, callback, cleanup);
        }
    }
  }

  /** A due deadline whose job is gone aborts the as-written walk, though
      the code means to skip it and go on. */
  lemma MissingJobAborts()
    ensures var deadlines := [((1, 7), ())];
            ForEachTimedOutEntryAsWritten(deadlines, [], 2, (k: int, j: int) => true).failure.Some?
            && ForEachTimedOutEntry(deadlines, [], 2, (k: int, j: int) => true) == Calls([], None)
    ensures var activatable := [(("task", 7), ())];
            ForEachActivatableJobsAsWritten(activatable, [], "task", (k: int, j: int) => true).failure.Some?
            && ForEachActivatableJobs(activatable, [], "task", (k: int, j: int) => true) == Calls([], None)
  {
    var deadlines := [((1, 7), ())];
    assert DueKeys(deadlines, 2) == [7];
    var activatable := [(("task", 7), ())];
    assert ActivatableKeys(activatable, "task") == [7];
  }

  /** `forEachTimedOutEntry(upperBound, callback)` as meant: a missing job
      is skipped and the walk goes on. */
  function ForEachTimedOutEntry<J>(deadlines: Table<(int, int), ()>, jobs: Table<int, J>, upperBound: int, callback: (int, J) -> bool): (r: Calls<J>)
    ensures r.failure.None?
    ensures forall k :: 0 <= k < |r.handed| ==>
              GetJob(jobs, r.handed[k].0) == Some(r.handed[k].1)
              && exists i :: 0 <= i < |deadlines| && deadlines[i].0 == (deadlines[i].0.0, r.handed[k].0) && deadlines[i].0.0 < upperBound
  {
    var keys := DueKeys(deadlines, upperBound);
    var r := VisitJobs(keys, jobs, callback, Ok(()));
    forall k | 0 <= k < |r.handed|
      ensures exists i :: 0 <= i < |deadlines| && deadlines[i].0 == (deadlines[i].0.0, r.handed[k].0) && deadlines[i].0.0 < upperBound
    {
      var i :| 0 <= i < |keys| && keys[i] == r.handed[k].0;
      assert deadlines[i].0 == (deadlines[i].0.0, r.handed[k].0);
    }
    r
  }

  /** With a callback that always answers true, every due deadline
      before the first one not below the bound has its job handed over,
      when the job exists. */
  lemma TimedOutComplete<J>(deadlines: Table<(int, int), ()>, jobs: Table<int, J>, upperBound: int, callback: (int, J) -> bool, i: nat)
    requires forall k, j :: callback(k, j)
    requires i < |deadlines| && forall m :: 0 <= m <= i ==> deadlines[m].0.0 < upperBound
    requires GetJob(jobs, deadlines[i].0.1).Some?
    ensures (deadlines[i].0.1, GetJob(jobs, deadlines[i].0.1).value) in ForEachTimedOutEntry(deadlines, jobs, upperBound, callback).handed
  {
    var keys := DueKeys(deadlines, upperBound);
    assert i < |keys|;
    VisitJobsComplete(keys, jobs, callback);
  }

  /** The job keys filed under a job type, in job key order. */
  function ActivatableKeys(activatable: Table<(string, int), ()>, jobType: string): seq<int> {
    Keys(Prefixed(activatable, jobType))
  }

  /** `forEachActivatableJobs(type, callback)` as written: a missing job's
      cleanup deletes the activatable entry, which throws under the
      read-only database and ends the walk. Where nothing throws it is the
      walk as meant. */
  function ForEachActivatableJobsAsWritten<J>(activatable: Table<(string, int), ()>, jobs: Table<int, J>, jobType: string, callback: (int, J) -> bool): (r: Calls<J>)
    ensures r.failure.Some? ==> r.failure.value == UnsupportedOperation(ReadOnlyDb.CANNOT_MODIFY)
    ensures r.failure.None? ==> r == ForEachActivatableJobs(activatable, jobs, jobType, callback)
  {
    var keys := ActivatableKeys(activatable, jobType);
    var r := VisitJobs(keys, jobs, callback, ReadOnlyCleanup());
    if r.failure.None? then
      CleanupUnused(keys, jobs, callback, ReadOnlyCleanup());
      r
    else r
  }

  /** `forEachActivatableJobs(type, callback)`: the jobs of the type, in
      job key order, until the callback answers false; a missing job is
      skipped. */
  function ForEachActivatableJobs<J>(activatable: Table<(string, int), ()>, jobs: Table<int, J>, jobType: string, callback: (int, J) -> bool): (r: Calls<J>)
    ensures r.failure.None?
    ensures forall k :: 0 <= k < |r.handed| ==>
              GetJob(jobs, r.handed[k].0) == Some(r.handed[k].1) && ((jobType, r.handed[k].0), ()) in activatable
  {
    var entries := Prefixed(activatable, jobType);
    var keys := ActivatableKeys(activatable, jobType);
    var r := VisitJobs(keys, jobs, callback, Ok(()));
    forall k | 0 <= k < |r.handed| ensures ((jobType, r.handed[k].0), ()) in activatable {
      var m :| 0 <= m < |keys| && keys[m] == r.handed[k].0;
      assert entries[m] in entries;
      var i :| 0 <= i < |activatable| && activatable[i].0.0 == jobType && entries[m] == (activatable[i].0.1, activatable[i].1);
      assert keys[m] == entries[m].0;
      assert activatable[i].0.1 == r.handed[k].0;
      assert activatable[i].0 == (jobType, r.handed[k].0);
      assert activatable[i].1 == ();
      assert activatable[i] == ((jobType, r.handed[k].0), ());
    }
    r
  }
}
