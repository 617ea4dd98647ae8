/** The backend's read-only column family (`TransactionalColumnFamily`
    with its `ColumnFamilyContext`): one column family of the single
    physical keyspace, whose keys all start with the family's 8-byte
    prefix. Lookups write the family prefix before the key; walks seek to
    the family prefix followed by a key prefix and hand their visitor each
    pair's key without the family prefix. Every write throws. */
module TransactionalColumnFamily {

  import opened Wrappers
  import opened Bytes
  import opened Keyspace
  import opened FamilyKeys

  /** `get(key)`: the value stored under the family's key, or null when
      there is none or it is empty. */
  function Get(s: Store, cf: nat, key: Bytes, order: ByteOrder): (r: Option<Bytes>)
    requires Sorted(s) && cf <= INT_MAX
    ensures r.Some? <==> exists j :: 0 <= j < |s| && s[j].0 == WriteKey(cf, key, order) && s[j].1 != []
    ensures r.Some? ==> (WriteKey(cf, key, order), r.value) in s
  {
    var k := WriteKey(cf, key, order);
    assert (exists j :: 0 <= j < |s| && s[j].0 == k && s[j].1 != []) ==> Keyspace.Get(s, k).Some? && Keyspace.Get(s, k).value != [] by {
      if j :| 0 <= j < |s| && s[j].0 == k && s[j].1 != [] {
        GetSorted(s, j);
      }
    }
    View(Keyspace.Get(s, k))
  }

  /** `exists(key)`: whether a non-empty value is stored under the
      family's key. */
  function Exists(s: Store, cf: nat, key: Bytes, order: ByteOrder): (r: bool)
    requires Sorted(s) && cf <= INT_MAX
    ensures r <==> exists j :: 0 <= j < |s| && s[j] == (WriteKey(cf, key, order), s[j].1) && s[j].1 != []
  {
    Get(s, cf, key, order).Some?
  }

  const OPERATION_ERROR: string := "Unexpected error occurred during zeebe db transaction operation."

  /** `new RuntimeException(cause)` takes the cause's class name as the
      start of its message; the RocksDB exception's own text is left out. */
  const ROCKSDB_EXCEPTION: string := "org.rocksdb.RocksDBException"

  /** `DefaultTransactionContext.runInTransaction`, applied to what an
      operation threw: a recoverable exception passes as it is, a RocksDB
      exception is wrapped in a runtime exception, and any other exception is
      wrapped in one with the operation-error message. */
  function InTransaction(e: Exception): (r: Exception)
    ensures r.Recoverable? <==> e.Recoverable?
    ensures e.Recoverable? ==> r == e
    ensures !e.Recoverable? ==> r.Runtime?
    ensures !e.Recoverable? && !e.RocksDb? ==> r == Runtime(OPERATION_ERROR)
  {
    if e.Recoverable? then e
    else if e.RocksDb? then Runtime(ROCKSDB_EXCEPTION)
    else Runtime(OPERATION_ERROR)
  }

  /** A walk run inside the transaction context: the pairs it visited, and
      its failure as the context rethrows it. */
  function InTransactionWalk(w: Walk): (r: Walk)
    ensures r.visited == w.visited
    ensures r.failure.Some? <==> w.failure.Some?
    ensures w.failure.Some? ==> r.failure == Some(InTransaction(w.failure.value))
  {
    match w.failure
    case None => w
    case Some(e) => Walk(w.visited, Some(InTransaction(e)))
  }

  /** The loop of `whileEqualPrefix(prefix, visitor)`, inside the transaction
      context: seek to the family prefix followed by the key prefix, and walk
      while keys carry both, handing the visitor each key without the family
      prefix. A pair without a key or value view ends the walk with a null
      pointer, which the context rethrows as the operation error. */
  function WhileEqualPrefix(s: Store, cf: nat, prefix: Bytes, visit: Visitor, order: ByteOrder): (w: Walk)
    requires cf <= INT_MAX
    ensures forall k :: 0 <= k < |w.visited| ==>
              prefix <= w.visited[k].0 && (WriteKey(cf, w.visited[k].0, order), w.visited[k].1) in s
    ensures w.failure.Some? ==> w.failure.value == Runtime(OPERATION_ERROR)
    ensures w.failure.Some? <==> Scan(s, Seek(s, WriteKey(cf, prefix, order)), WriteKey(cf, prefix, order),
                                      PREFIX_LENGTH, visit).failure.Some?
  {
    var full := WriteKey(cf, prefix, order);
    var i := Seek(s, full);
    var w := Scan(s, i, full, PREFIX_LENGTH, visit);
    assert w.failure.Some? ==> w.failure.value == NULL_KEY_VIEW || w.failure.value == NULL_VALUE_VIEW;
    forall k | 0 <= k < |w.visited|
      ensures prefix <= w.visited[k].0 && (WriteKey(cf, w.visited[k].0, order), w.visited[k].1) in s
    {
      var e := s[i + k];
      assert full <= e.0;
      assert w.visited[k] == (e.0[PREFIX_LENGTH..], e.1);
      assert e.0 == FamilyPrefix(cf, order) + e.0[PREFIX_LENGTH..] by {
        assert e.0[..PREFIX_LENGTH] == full[..PREFIX_LENGTH];
      }
      assert WriteKey(cf, w.visited[k].0, order) == e.0;
      forall n | 0 <= n < |prefix| ensures prefix[n] == e.0[PREFIX_LENGTH..][n] {
        assert prefix[n] == full[PREFIX_LENGTH + n];
      }
    }
    InTransactionWalk(w)
  }

  /** With a visitor that never stops and pairs that all have views, a
      prefix walk hands over exactly the family's pairs whose keys start
      with the prefix, in key order, keys without the family prefix. */
  lemma WhileEqualPrefixIsMatching(s: Store, cf: nat, prefix: Bytes, visit: Visitor, order: ByteOrder)
    requires Sorted(s) && cf <= INT_MAX
    requires AllViewable(s, WriteKey(cf, prefix, order), PREFIX_LENGTH)
    requires forall j :: 0 <= j < |s| && WriteKey(cf, prefix, order) <= s[j].0 ==> visit(s[j].0[PREFIX_LENGTH..], s[j].1)
    ensures WhileEqualPrefix(s, cf, prefix, visit, order)
            == Walk(Matching(s, 0, WriteKey(cf, prefix, order), PREFIX_LENGTH), None)
  {
    PrefixWalkIsMatching(s, WriteKey(cf, prefix, order), PREFIX_LENGTH, visit);
  }

  /** `whileTrue(visitor)`: a walk over the whole family, with the empty
      key (`DbNullKey`) as the prefix. */
  function WhileTrue(s: Store, cf: nat, visit: Visitor, order: ByteOrder): (w: Walk)
    requires cf <= INT_MAX
    ensures forall k :: 0 <= k < |w.visited| ==> (WriteKey(cf, w.visited[k].0, order), w.visited[k].1) in s
    ensures w.failure.Some? ==> w.failure.value == Runtime(OPERATION_ERROR)
  {
    WhileEqualPrefix(s, cf, [], visit, order)
  }

  /** `whileTrue(startAtKey, visitor)`: the start key is ignored, and the
      walk is the one over the whole family. */
  function WhileTrueFrom(s: Store, cf: nat, startAtKey: Bytes, visit: Visitor, order: ByteOrder): (w: Walk)
    requires cf <= INT_MAX
    ensures forall k :: 0 <= k < |w.visited| ==> (WriteKey(cf, w.visited[k].0, order), w.visited[k].1) in s
    ensures w.failure.Some? ==> w.failure.value == Runtime(OPERATION_ERROR)
  {
    WhileTrue(s, cf, visit, order)
  }

  /** `forEach(consumer)`: the whole-family walk with a visitor that never
      stops. */
  function ForEach(s: Store, cf: nat, order: ByteOrder): (w: Walk)
    requires cf <= INT_MAX
    ensures forall k :: 0 <= k < |w.visited| ==> (WriteKey(cf, w.visited[k].0, order), w.visited[k].1) in s
    ensures w.failure.Some? ==> w.failure.value == Runtime(OPERATION_ERROR)
  {
    WhileTrue(s, cf, Always(), order)
  }

  /** `forEach` over a family whose pairs all have views hands over every
      pair of the family, in key order, and no other. */
  lemma ForEachVisitsFamily(s: Store, cf: nat, order: ByteOrder)
    requires Sorted(s) && cf <= INT_MAX && AllViewable(s, FamilyPrefix(cf, order), PREFIX_LENGTH)
    ensures ForEach(s, cf, order) == Walk(Matching(s, 0, FamilyPrefix(cf, order), PREFIX_LENGTH), None)
  {
    assert WriteKey(cf, [], order) == FamilyPrefix(cf, order);
    WhileEqualPrefixIsMatching(s, cf, [], Always(), order);
  }

  /** The visitor `isEmpty` uses: it stops at the first pair. */
  function StopAtFirst(): Visitor {
    (key: Bytes, value: Bytes) => false
  }

  /** `isEmpty()`: whether the family holds no pair, found by a walk whose
      visitor stops at the first pair; a first pair without views throws,
      rethrown by the transaction context. */
  function IsEmpty(s: Store, cf: nat, order: ByteOrder): (r: Result<bool>)
    requires Sorted(s) && cf <= INT_MAX
    ensures r == Ok(true) <==> forall j :: 0 <= j < |s| ==> !(FamilyPrefix(cf, order) <= s[j].0)
    ensures r.Throws? ==> r.error == Runtime(OPERATION_ERROR)
  {
    var w := WhileTrue(s, cf, StopAtFirst(), order);
    assert WriteKey(cf, [], order) == FamilyPrefix(cf, order);
    StoppedWalk(s, FamilyPrefix(cf, order), PREFIX_LENGTH);
    if w.failure.Some? then Throws(w.failure.value) else Ok(w.visited == [])
  }

  /** The writes of the column family interface. */
  datatype Write = Insert | Update | Upsert | DeleteExisting | DeleteIfExists | WhileEqualPrefixFromKey

  const NOT_SUPPORTED: string := "not supported"

  /** Every write, and the prefix walk from a start key, throws. */
  function Perform(op: Write): (r: Result<()>)
    ensures r == Throws(UnsupportedOperation(NOT_SUPPORTED))
  {
    Throws(UnsupportedOperation(NOT_SUPPORTED))
  }
}
