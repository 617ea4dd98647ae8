/** The journal's sparse index: every `density`-th record's position in its
    segment, and the index of each indexed record that carries an
    application sequence number (ASQN). */
module SparseIndex {

  import opened Wrappers
  import opened NavMap

  /** The ASQN of records that carry none. */
  const ASQN_IGNORE: int := -1

  /** What the index sees of a journal record. */
  datatype Record = Record(index: int, asqn: int)

  /** An indexed record's index and its position within the segment. */
  datatype IndexInfo = IndexInfo(index: int, position: int)

  datatype Index = Index(
    density: int,
    indexToPosition: Entries<int>,
    asqnToIndex: Entries<int>,
    indexToAsqn: Entries<int>)

  predicate Valid(s: Index) {
    s.density > 0 && Sorted(s.indexToPosition) && Sorted(s.asqnToIndex) && Sorted(s.indexToAsqn)
  }

  function Empty(density: int): (s: Index)
    requires density > 0
    ensures Valid(s)
  {
    Index(density, [], [], [])
  }

  /** Whether `index` is a multiple of the density (`index % density == 0`;
      the remainder is zero under truncating and Euclidean division alike). */
  predicate Sampled(s: Index, index: int)
    requires s.density > 0
  {
    index % s.density == 0
  }

  /** `index(record, position)`: only sampled records are indexed; their
      ASQN, unless ignored, is recorded in both directions. */
  function IndexRecord(s: Index, record: Record, position: int): (r: Index)
    requires Valid(s)
    ensures Valid(r) && r.density == s.density
    ensures !Sampled(s, record.index) ==> r == s
    ensures Sampled(s, record.index) ==>
      (record.index, position) in r.indexToPosition &&
      forall e :: e in s.indexToPosition && e.0 != record.index ==> e in r.indexToPosition
    ensures !Sampled(s, record.index) || record.asqn == ASQN_IGNORE ==>
      r.asqnToIndex == s.asqnToIndex && r.indexToAsqn == s.indexToAsqn
    ensures Sampled(s, record.index) && record.asqn != ASQN_IGNORE ==>
      (record.asqn, record.index) in r.asqnToIndex && (record.index, record.asqn) in r.indexToAsqn
  {
    if !Sampled(s, record.index) then s
    else
      var withPosition := s.(indexToPosition := Put(s.indexToPosition, record.index, position));
      if record.asqn == ASQN_IGNORE then withPosition
      else withPosition.(
        asqnToIndex := Put(s.asqnToIndex, record.asqn, record.index),
        indexToAsqn := Put(s.indexToAsqn, record.index, record.asqn))
  }

  /** `lookup(index)`: the greatest indexed record at or below `index`. */
  function Lookup(s: Index, index: int): (r: Option<IndexInfo>)
    requires Valid(s)
    ensures r.Some? ==> r.value.index <= index && (r.value.index, r.value.position) in s.indexToPosition
    ensures r.Some? ==> forall e :: e in s.indexToPosition && e.0 <= index ==> e.0 <= r.value.index
    ensures r.None? <==> forall e :: e in s.indexToPosition ==> e.0 > index
  {
    match FloorEntry(s.indexToPosition, index)
    case None => None
    case Some(e) => Some(IndexInfo(e.0, e.1))
  }

  /** `lookupAsqn(asqn, indexUpperBound)`. */
  function LookupAsqn(s: Index, asqn: int, indexUpperBound: int): (r: Option<int>)
    requires Valid(s)
    ensures r.Some? ==> r.value <= indexUpperBound
    ensures (forall e :: e in s.asqnToIndex ==> e.0 > asqn) ==> r.None?
  {
    match FloorEntry(s.asqnToIndex, asqn)
    case None => None
    case Some(e) =>
      if e.1 <= indexUpperBound then Some(e.1)
      else
        (match FloorEntry(s.indexToAsqn, indexUpperBound)
         case None => None
         case Some(f) => Some(f.0))
  }

  /** `hasIndexed(index)`: some record in the window
      `(index - density, index]` has been indexed. */
  function HasIndexed(s: Index, index: int): (r: bool)
    requires Valid(s)
    ensures r <==> exists e :: e in s.indexToPosition && index - s.density < e.0 <= index
  {
    match Lookup(s, index)
    case None => false
    case Some(info) => info.index > index - s.density
  }

  // -----------------------------------------------------------------------
  // The documented ASQN contract
  // -----------------------------------------------------------------------

  /** The two ASQN maps are inverses and ASQNs ascend with the index, as
      they do in a journal that is indexed in append order. */
  predicate Consistent(s: Index) {
    Valid(s) &&
    (forall e :: e in s.asqnToIndex ==> (e.1, e.0) in s.indexToAsqn) &&
    (forall e :: e in s.indexToAsqn ==> (e.1, e.0) in s.asqnToIndex) &&
    (forall p, q :: p in s.indexToAsqn && q in s.indexToAsqn && p.0 < q.0 ==> p.1 < q.1)
  }

  /** Appending records in journal order keeps the index consistent. */
  lemma IndexKeepsConsistent(s: Index, record: Record, position: int)
    requires Consistent(s)
    requires record.asqn != ASQN_IGNORE ==>
      forall e :: e in s.indexToAsqn ==> e.0 < record.index && e.1 < record.asqn
    ensures Consistent(IndexRecord(s, record, position))
  {
    var r := IndexRecord(s, record, position);
    if Sampled(s, record.index) && record.asqn != ASQN_IGNORE {
      forall e | e in r.asqnToIndex
        ensures (e.1, e.0) in r.indexToAsqn
      {
        if e != (record.asqn, record.index) {
          assert e in s.asqnToIndex;
          assert (e.1, e.0) in s.indexToAsqn;
        }
      }
      forall e | e in r.indexToAsqn
        ensures (e.1, e.0) in r.asqnToIndex
      {
        if e != (record.index, record.asqn) {
          assert e in s.indexToAsqn;
        }
      }
    }
  }

  /** On a consistent index, `lookupAsqn` keeps the promise of its
      interface: the result is the greatest indexed record at or below the
      bound whose ASQN is at most `asqn`, and there is none when it
      returns null. */
  lemma LookupAsqnIsGreatestBelow(s: Index, asqn: int, indexUpperBound: int)
    requires Consistent(s)
    ensures var r := LookupAsqn(s, asqn, indexUpperBound);
      (r.Some? ==> exists a :: (r.value, a) in s.indexToAsqn && a <= asqn) &&
      (r.Some? ==> forall e :: e in s.indexToAsqn && e.0 <= indexUpperBound && e.1 <= asqn ==> e.0 <= r.value) &&
      (r.None? ==> forall e :: e in s.indexToAsqn && e.0 <= indexUpperBound ==> e.1 > asqn)
  {
    var r := LookupAsqn(s, asqn, indexUpperBound);
    match FloorEntry(s.asqnToIndex, asqn)
    case None =>
      forall e | e in s.indexToAsqn && e.0 <= indexUpperBound
        ensures e.1 > asqn
      {
        assert (e.1, e.0) in s.asqnToIndex;
      }
    case Some(top) =>
      assert (top.1, top.0) in s.indexToAsqn;
      if top.1 <= indexUpperBound {
        forall e | e in s.indexToAsqn && e.0 <= indexUpperBound && e.1 <= asqn
          ensures e.0 <= top.1
        {
          assert (e.1, e.0) in s.asqnToIndex;
        }
      } else {
        match FloorEntry(s.indexToAsqn, indexUpperBound)
        case None =>
        case Some(f) =>
          assert f.0 < top.1;
          assert f.1 < top.0 by {
            assert (top.1, top.0) in s.indexToAsqn;
          }
      }
  }
}
