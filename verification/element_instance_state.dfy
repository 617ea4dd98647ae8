/** Element instances (`ElementInstanceState`): ELEMENT_INSTANCE_KEY maps
    a key to the instance; ELEMENT_INSTANCE_PARENT_CHILD is keyed by
    (parent, child); STORED_INSTANCE_EVENTS maps a record key to a stored
    record with its purpose, and STORED_INSTANCE_EVENTS_PARENT_CHILD is
    keyed by (scope, purpose ordinal, record key). Reads hand out copies,
    which in a value model are the stored values themselves. */
module ElementInstanceState {

  import opened Wrappers
  import opened Tables

  datatype Purpose = DEFERRED | FAILED

  /** `purpose.ordinal()`, the byte a purpose is filed under. */
  function Ordinal(p: Purpose): (b: nat)
    ensures b < 2
  {
    match p
    case DEFERRED => 0
    case FAILED => 1
  }

  /** A stored record: its purpose and the record itself. */
  datatype Stored<R> = Stored(purpose: Purpose, record: R)

  /** `getInstance(key)`: a copy of the stored instance, or null. */
  function GetInstance<I>(instances: Table<int, I>, key: int): (r: Option<I>)
    ensures r.None? <==> forall i :: 0 <= i < |instances| ==> instances[i].0 != key
    ensures r.Some? ==> (key, r.value) in instances
  {
    Lookup(instances, key)
  }

  /** The keys filed under a parent, in key order. */
  function ChildKeys(parentChild: Table<(int, int), ()>, parentKey: int): (r: seq<int>)
    ensures forall k :: 0 <= k < |r| ==> ((parentKey, r[k]), ()) in parentChild
    ensures forall i :: 0 <= i < |parentChild| && parentChild[i].0.0 == parentKey ==> parentChild[i].0.1 in r
  {
    var entries := Prefixed(parentChild, parentKey);
    var r := Keys(entries);
    forall k | 0 <= k < |r| ensures ((parentKey, r[k]), ()) in parentChild {
      assert entries[k] in entries;
      var i :| 0 <= i < |parentChild| && parentChild[i].0.0 == parentKey && entries[k] == (parentChild[i].0.1, parentChild[i].1);
      assert parentChild[i].0.1 == r[k];
      assert parentChild[i].0 == (parentKey, r[k]);
      assert parentChild[i].1 == ();
      assert parentChild[i] == ((parentKey, r[k]), ());
    }
    forall i | 0 <= i < |parentChild| && parentChild[i].0.0 == parentKey ensures parentChild[i].0.1 in r {
      var e := (parentChild[i].0.1, parentChild[i].1);
      assert e in entries;
      var k :| 0 <= k < |entries| && entries[k] == e;
      assert r[k] == e.0;
    }
    r
  }

  /** The instances of a run of keys, each looked up (null when gone). */
  function InstancesOf<I>(instances: Table<int, I>, keys: seq<int>): (r: seq<Option<I>>)
    ensures |r| == |keys| && forall k :: 0 <= k < |keys| ==> r[k] == GetInstance(instances, keys[k])
  {
    if |keys| == 0 then [] else [GetInstance(instances, keys[0])] + InstancesOf(instances, keys[1..])
  }

  /** `getChildren(parentKey)`: empty when the parent instance does not
      exist; otherwise a copy of the instance of every child filed under
      the parent, in child key order. */
  function GetChildren<I>(instances: Table<int, I>, parentChild: Table<(int, int), ()>, parentKey: int): (r: seq<Option<I>>)
    ensures GetInstance(instances, parentKey).None? ==> r == []
    ensures GetInstance(instances, parentKey).Some? ==>
              |r| == |ChildKeys(parentChild, parentKey)|
              && forall i :: 0 <= i < |parentChild| && parentChild[i].0.0 == parentKey ==>
                   GetInstance(instances, parentChild[i].0.1) in r
  {
    if GetInstance(instances, parentKey).None? then []
    else
      var keys := ChildKeys(parentChild, parentKey);
      var r := InstancesOf(instances, keys);
      forall i | 0 <= i < |parentChild| && parentChild[i].0.0 == parentKey
        ensures GetInstance(instances, parentChild[i].0.1) in r
      {
        var k :| 0 <= k < |keys| && keys[k] == parentChild[i].0.1;
        assert r[k] == GetInstance(instances, keys[k]);
      }
      r
  }

  /** `getStoredRecord(key)`. */
  function GetStoredRecord<R>(records: Table<int, Stored<R>>, key: int): (r: Option<Stored<R>>)
    ensures r.None? <==> forall i :: 0 <= i < |records| ==> records[i].0 != key
    ensures r.Some? ==> (key, r.value) in records
  {
    Lookup(records, key)
  }

  /** `getFailedRecord(key)`: the stored record when it was stored as
      failed, null otherwise. */
  function GetFailedRecord<R>(records: Table<int, Stored<R>>, key: int): (r: Option<R>)
    ensures r.Some? <==> GetStoredRecord(records, key).Some? && GetStoredRecord(records, key).value.purpose == FAILED
    ensures r.Some? ==> (key, Stored(FAILED, r.value)) in records
  {
    match GetStoredRecord(records, key)
    case Some(stored) => if stored.purpose == FAILED then Some(stored.record) else None
    case None => None
  }

  /** The records of a run of keys, those that are gone left out. */
  function Present<R>(records: Table<int, Stored<R>>, keys: seq<int>): (r: seq<R>)
    ensures |r| <= |keys|
    ensures forall x :: x in r ==> exists k :: 0 <= k < |keys| && GetStoredRecord(records, keys[k]).Some? && GetStoredRecord(records, keys[k]).value.record == x
    ensures forall k :: 0 <= k < |keys| && GetStoredRecord(records, keys[k]).Some? ==> GetStoredRecord(records, keys[k]).value.record in r
  {
    if |keys| == 0 then []
    else
      var rest := Present(records, keys[1..]);
      assert forall k :: 0 < k < |keys| ==> keys[k] == keys[1..][k - 1];
      match GetStoredRecord(records, keys[0])
      case Some(stored) => [stored.record] + rest
      case None => rest
  }

  /** `visitRecords(scopeKey, purpose, visitor)`, as `getDeferredRecords`
      collects it: the records filed under the scope and purpose, in record
      key order, skipping entries whose record is gone. */
  function VisitRecords<R>(records: Table<int, Stored<R>>, filed: Table<((int, nat), int), ()>, scopeKey: int, purpose: Purpose): (r: seq<R>)
    ensures forall x :: x in r ==>
              (exists i, j :: 0 <= i < |filed| && 0 <= j < |records|
                 && filed[i].0 == ((scopeKey, Ordinal(purpose)), records[j].0) && records[j].1.record == x)
    ensures forall i, j ::
              (0 <= i < |filed| && 0 <= j < |records| && UniqueKeys(records)
               && filed[i].0 == ((scopeKey, Ordinal(purpose)), records[j].0)) ==> records[j].1.record in r
  {
    var entries := Prefixed(filed, (scopeKey, Ordinal(purpose)));
    var keys := Keys(entries);
    var r := Present(records, keys);
    forall x | x in r
      ensures (exists i, j :: 0 <= i < |filed| && 0 <= j < |records|
                 && filed[i].0 == ((scopeKey, Ordinal(purpose)), records[j].0) && records[j].1.record == x)
    {
      var k :| 0 <= k < |keys| && GetStoredRecord(records, keys[k]).Some? && GetStoredRecord(records, keys[k]).value.record == x;
      assert entries[k] in entries;
      var i :| 0 <= i < |filed| && filed[i].0.0 == (scopeKey, Ordinal(purpose)) && entries[k] == (filed[i].0.1, filed[i].1);
      var stored := GetStoredRecord(records, keys[k]).value;
      assert (keys[k], stored) in records;
      var j :| 0 <= j < |records| && records[j] == (keys[k], stored);
      assert filed[i].0 == ((scopeKey, Ordinal(purpose)), records[j].0);
    }
    forall i, j | 0 <= i < |filed| && 0 <= j < |records| && UniqueKeys(records)
              && filed[i].0 == ((scopeKey, Ordinal(purpose)), records[j].0)
      ensures records[j].1.record in r
    {
      var e := (filed[i].0.1, filed[i].1);
      assert e in entries;
      var k :| 0 <= k < |entries| && entries[k] == e;
      assert keys[k] == records[j].0;
      LookupStored(records, j);
    }
    r
  }

  /** `getDeferredRecords(scopeKey)`: the records filed as deferred. */
  function GetDeferredRecords<R>(records: Table<int, Stored<R>>, filed: Table<((int, nat), int), ()>, scopeKey: int): (r: seq<R>)
    ensures forall x :: x in r ==>
              (exists i, j :: 0 <= i < |filed| && 0 <= j < |records|
                 && filed[i].0 == ((scopeKey, 0), records[j].0) && records[j].1.record == x)
  {
    VisitRecords(records, filed, scopeKey, DEFERRED)
  }
}
