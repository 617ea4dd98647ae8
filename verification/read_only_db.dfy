/** The read-only database of the original debugger (`ZeebeReadOnlyDB`,
    `ReadOnlyColumnFamily`, `ReadOnlyContext`): every column family is its
    own RocksDB column family, so a family is a sorted table of its own and
    keys carry no family prefix. Reads look a key up or walk the table;
    every write throws. */
module ReadOnlyDb {

  import opened Wrappers
  import opened Bytes
  import opened Keyspace
  import PrefixPool

  /** The resources the database closes, in the roles it gives them. */
  datatype Resource =
    | Caller(index: nat)
    | Database
    | Handle(index: nat)
    | PrefixReadOptions
    | DefaultReadOptions
    | DefaultWriteOptions

  /** An open database: how many column family handles RocksDB returned,
      and the resources to close, in the order they were registered. */
  datatype Db = Db(handleCount: nat, closables: seq<Resource>)

  function Callers(n: nat): (r: seq<Resource>)
    ensures |r| == n && forall k :: 0 <= k < n ==> r[k] == Caller(k)
  {
    if n == 0 then [] else Callers(n - 1) + [Caller(n - 1)]
  }

  function Handles(n: nat): (r: seq<Resource>)
    ensures |r| == n && forall k :: 0 <= k < n ==> r[k] == Handle(k)
  {
    if n == 0 then [] else Handles(n - 1) + [Handle(n - 1)]
  }

  /** `openTransactionalDb` followed by the constructor: the caller's
      closables, then the database, its handles and the three option
      objects are registered. The i-th handle is given the i-th family
      constant, so more handles than constants throw. */
  function Open(callerCount: nat, familyCount: nat, handleCount: nat): (r: Result<Db>)
    ensures r.Ok? <==> handleCount <= familyCount
    ensures r.Throws? ==> r.error == IndexOutOfBounds
    ensures r.Ok? ==> r.value.handleCount == handleCount
    ensures r.Ok? ==> |r.value.closables| == callerCount + handleCount + 4
  {
    if handleCount > familyCount then Throws(IndexOutOfBounds)
    else
      Ok(Db(handleCount, Callers(callerCount) + [Database] + Handles(handleCount)
                         + [PrefixReadOptions, DefaultReadOptions, DefaultWriteOptions]))
  }

  /** `getColumnFamilyHandle(family)`: the handle of a family, by its
      ordinal; a family without a handle has a null entry, whose unboxing
      throws. */
  function HandleOf(db: Db, family: nat): (r: Result<nat>)
    ensures r.Ok? <==> family < db.handleCount
    ensures r.Ok? ==> r.value == family
    ensures r.Throws? ==> r.error.NullPointer?
  {
    if family < db.handleCount then Ok(family) else Throws(NullPointer("columnFamilyMap"))
  }

  /** `get(key)`: the value stored under the key in the family's table, or
      null when there is none, it is empty, or the read failed (the
      failure is only printed). */
  function Get(table: Store, key: Bytes, readFails: bool): (r: Option<Bytes>)
    requires Sorted(table)
    ensures r.Some? <==> !readFails && exists j :: 0 <= j < |table| && table[j].0 == key && table[j].1 != []
    ensures r.Some? ==> (key, r.value) in table
  {
    assert !readFails && (exists j :: 0 <= j < |table| && table[j].0 == key && table[j].1 != []) ==>
           Keyspace.Get(table, key).Some? && Keyspace.Get(table, key).value != [] by {
      if j :| 0 <= j < |table| && table[j].0 == key && table[j].1 != [] {
        GetSorted(table, j);
      }
    }
    if readFails then None else View(Keyspace.Get(table, key))
  }

  /** `exists(key)`: the value view starts out empty, so a failed read
      answers false like a missing key. */
  function Exists(table: Store, key: Bytes, readFails: bool): (r: bool)
    requires Sorted(table)
    ensures r <==> Get(table, key, readFails).Some?
    ensures r ==> exists j :: 0 <= j < |table| && table[j].0 == key && table[j].1 != []
  {
    Get(table, key, readFails).Some?
  }

  /** `whileTrue(visitor)`: a walk over the family's whole table, from its
      first key. */
  function WhileTrue(table: Store, visit: Visitor): (w: Walk)
    ensures |w.visited| <= |table|
    ensures forall k :: 0 <= k < |w.visited| ==> w.visited[k] == table[k]
  {
    var w := Scan(table, 0, [], 0, visit);
    assert forall k :: 0 <= k < |w.visited| ==> w.visited[k] == Stripped(table[k], 0);
    w
  }

  /** `forEach(consumer)` with a consumer of keys and values: the
      whole-table walk with a visitor that never stops. */
  function ForEach(table: Store): (w: Walk)
    ensures |w.visited| <= |table|
    ensures forall k :: 0 <= k < |w.visited| ==> w.visited[k] == table[k]
  {
    WhileTrue(table, Always())
  }

  /** Over a table whose pairs all have views, `forEach` hands over every
      pair, in key order, and fails nowhere. */
  lemma ForEachVisitsAll(table: Store)
    requires Sorted(table) && AllViewable(table, [], 0)
    ensures ForEach(table) == Walk(table, None)
  {
    forall j | 0 <= j < |table| ensures !Less(table[j].0, []) {
      PrefixNotBelow([], table[j].0);
    }
    ScanFromAbove(table, 0, [], 0, Always());
    EmptyPrefixMatchesAll(table, 0);
  }

  /** The values `forEach` with a consumer of values only hands over,
      from position `i` on: only an empty value, whose view is null,
      throws, since the key view is never read. */
  function ValuesFrom(table: Store, i: nat): (r: (seq<Bytes>, Option<Exception>))
    requires i <= |table|
    ensures |r.0| <= |table| - i
    ensures forall k :: 0 <= k < |r.0| ==> r.0[k] == table[i + k].1 && r.0[k] != []
    ensures r.1.None? <==> i + |r.0| == |table|
    ensures r.1.Some? ==> r.1.value == NULL_VALUE_VIEW && table[i + |r.0|].1 == []
    decreases |table| - i
  {
    if i == |table| then ([], None)
    else if table[i].1 == [] then ([], Some(NULL_VALUE_VIEW))
    else
      var rest := ValuesFrom(table, i + 1);
      var r := ([table[i].1] + rest.0, rest.1);
      assert forall k :: 0 <= k < |r.0| ==> r.0[k] == table[i + k].1 && r.0[k] != [] by {
        forall k | 0 < k < |r.0| ensures r.0[k] == table[i + k].1 && r.0[k] != [] {
          assert r.0[k] == rest.0[k - 1];
        }
      }
      r
  }

  /** `forEach(consumer)` with a consumer of values only. */
  function ForEachValue(table: Store): (r: (seq<Bytes>, Option<Exception>))
    ensures |r.0| <= |table|
    ensures forall k :: 0 <= k < |r.0| ==> r.0[k] == table[k].1
    ensures r.1.None? <==> forall j :: 0 <= j < |table| ==> table[j].1 != []
  {
    ValuesFrom(table, 0)
  }

  /** `whileEqualPrefix(prefix, visitor)`: seek to the prefix and walk
      while keys start with it and the visitor asks for more. The keys the
      visitor sees are whole. */
  function WhileEqualPrefix(table: Store, prefix: Bytes, visit: Visitor): (w: Walk)
    ensures forall k :: 0 <= k < |w.visited| ==> prefix <= w.visited[k].0 && w.visited[k] in table
  {
    var i := Seek(table, prefix);
    var w := Scan(table, i, prefix, 0, visit);
    assert forall k :: 0 <= k < |w.visited| ==> w.visited[k] == table[i + k];
    w
  }

  /** With a visitor that never stops and pairs that all have views, a
      prefix walk hands over exactly the pairs whose keys start with the
      prefix, in key order. */
  lemma WhileEqualPrefixIsMatching(table: Store, prefix: Bytes)
    requires Sorted(table) && AllViewable(table, prefix, 0)
    ensures WhileEqualPrefix(table, prefix, Always()) == Walk(Matching(table, 0, prefix, 0), None)
  {
    PrefixWalkIsMatching(table, prefix, 0, Always());
  }

  /** A prefix walk takes one of the context's two prefix buffers for as
      long as it runs; a walk started from inside the visitor of `depth`
      enclosing walks finds none left when `depth` is two or more. */
  function NestedPrefixWalk(depth: nat): (r: Result<()>)
    ensures r.Ok? <==> depth < 2
    ensures r.Throws? ==> r.error == IllegalState(PrefixPool.NESTED_ITERATION)
  {
    PrefixPool.Nested(PrefixPool.INITIAL, depth + 1, Ok(())).0
  }

  /** `isEmpty()`: whether the iterator finds a first pair; no view is
      taken, so an empty key or value does not throw. */
  function IsEmpty(table: Store): (r: bool)
    ensures r <==> ForEach(table) == Walk([], None)
  {
    table == []
  }

  /** The writes of the database and of its column families. */
  datatype Write =
    | DbPut | DbDelete | CreateSnapshot
    | FamilyPut | FamilyDelete

  const CANNOT_WRITE: string := "Cannot write to read only database"
  const CANNOT_MODIFY: string := "Cannot modify read only database"

  /** Every write throws: the database's own without a message, the
      column family's with one. */
  function Perform(op: Write): (r: Result<()>)
    ensures r.Throws? && r.error.UnsupportedOperation?
    ensures op == FamilyPut ==> r.error.message == CANNOT_WRITE
    ensures op == FamilyDelete ==> r.error.message == CANNOT_MODIFY
    ensures op in {DbPut, DbDelete, CreateSnapshot} ==> r.error.message == ""
  {
    match op
    case FamilyPut => Throws(UnsupportedOperation(CANNOT_WRITE))
    case FamilyDelete => Throws(UnsupportedOperation(CANNOT_MODIFY))
    case _ => Throws(UnsupportedOperation(""))
  }

  const ROCKSDB_ERROR: string := "Unexpected error occurred during RocksDB transaction."
  const OPERATION_ERROR: string := "Unexpected error occurred during zeebe db transaction operation."

  /** `runInTransaction(operations)`: the outcome of the operations, with
      a recoverable exception passed on as it is, a RocksDB exception (never
      recoverable here) wrapped in a runtime exception, and any other
      exception wrapped in another. */
  function RunInTransaction<T>(outcome: Result<T>): (r: Result<T>)
    ensures outcome.Ok? <==> r.Ok?
    ensures outcome.Ok? ==> r == outcome
    ensures r.Throws? ==> (r.error.Recoverable? <==> outcome.error.Recoverable?)
    ensures r.Throws? && outcome.error.Recoverable? ==> r.error == outcome.error
    ensures r.Throws? && !outcome.error.Recoverable? ==>
              r.error == Runtime(if outcome.error.RocksDb? then ROCKSDB_ERROR else OPERATION_ERROR)
  {
    match outcome
    case Ok(_) => outcome
    case Throws(e) =>
      if e.Recoverable? then outcome
      else if e.RocksDb? then Throws(Runtime(ROCKSDB_ERROR))
      else Throws(Runtime(OPERATION_ERROR))
  }

  const CLOSE_FAILED: string :=
    "Expected to close RocksDB resource successfully, but exception was thrown. Will continue to close remaining resources."

  /** `close()`: the closables in reverse registration order, each closed
      whether or not closing an earlier one failed; a failure is logged and
      the loop goes on. Returns the resources closed, in order, and those
      whose failure was logged. */
  method Close(closables: seq<Resource>, fails: Resource -> bool) returns (closed: seq<Resource>, logged: seq<Resource>)
    ensures |closed| == |closables|
    ensures forall k :: 0 <= k < |closed| ==> closed[k] == closables[|closables| - 1 - k]
    ensures forall x :: x in logged <==> x in closables && fails(x)
  {
    closed := [];
    logged := [];
    var i := |closables|;
    while i > 0
      invariant 0 <= i <= |closables|
      invariant |closed| == |closables| - i
      invariant forall k :: 0 <= k < |closed| ==> closed[k] == closables[|closables| - 1 - k]
      invariant forall x :: x in logged <==> x in closables[i..] && fails(x)
    {
      i := i - 1;
      var c := closables[i];
      closed := closed + [c];
      if fails(c) {
        logged := logged + [c];
      }
      assert closables[i..] == [c] + closables[i + 1..];
    }
  }

  /** The order RocksDB asks for: option objects before column family
      handles, handles before the database, and the caller's resources
      (the database options among them) last. */
  function Rank(r: Resource): nat {
    match r
    case PrefixReadOptions => 3
    case DefaultReadOptions => 3
    case DefaultWriteOptions => 3
    case Handle(_) => 2
    case Database => 1
    case Caller(_) => 0
  }

  /** An opened database registers its resources in ascending rank, so
      `Close`, which goes through them in reverse, closes them in the order
      RocksDB asks for. */
  lemma CloseOrder(callerCount: nat, familyCount: nat, handleCount: nat)
    requires handleCount <= familyCount
    ensures var c := Open(callerCount, familyCount, handleCount).value.closables;
            forall x, y :: 0 <= x <= y < |c| ==> Rank(c[x]) <= Rank(c[y])
  {
    var c := Open(callerCount, familyCount, handleCount).value.closables;
    var h := callerCount + 1 + handleCount;
    forall x, y | 0 <= x <= y < |c| ensures Rank(c[x]) <= Rank(c[y]) {
      if x < callerCount { assert c[x] == Caller(x); }
      else if x == callerCount { assert c[x] == Database; if y > x && y < h { assert c[y] == Handle(y - callerCount - 1); } }
      else if x < h {
        assert c[x] == Handle(x - callerCount - 1);
        if y < h { assert c[y] == Handle(y - callerCount - 1); }
      }
    }
  }
}
