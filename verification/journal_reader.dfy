/** A reference model of the journal reader's documented contract: a journal
    is a run of records with consecutive indices, some of which carry an
    application sequence number (ASQN), and a reader is a cursor into it. */
module JournalReader {

  import opened Wrappers
  import SparseIndex

  datatype Entry<P> = Entry(index: int, asqn: int, data: P)

  /** The journal's first index, and its records in index order. */
  datatype Journal<P> = Journal(firstIndex: int, entries: seq<Entry<P>>)

  /** Record `i` has index `firstIndex + i`. */
  predicate Valid<P>(j: Journal<P>) {
    forall i :: 0 <= i < |j.entries| ==> j.entries[i].index == j.firstIndex + i
  }

  /** The index of the last record; below the first index when empty. */
  function LastIndex<P>(j: Journal<P>): int {
    j.firstIndex + |j.entries| - 1
  }

  predicate IsEmpty<P>(j: Journal<P>) {
    |j.entries| == 0
  }

  /** A reader: the journal and the index of the record `next()` returns. */
  datatype Reader<P> = Reader(journal: Journal<P>, nextIndex: int)

  /** `hasNext()`. */
  predicate HasNext<P>(r: Reader<P>) {
    r.journal.firstIndex <= r.nextIndex <= LastIndex(r.journal)
  }

  /** `next()`: the record at the cursor, and the cursor moved past it. */
  function Next<P>(r: Reader<P>): (res: (Entry<P>, Reader<P>))
    requires Valid(r.journal) && HasNext(r)
    ensures res.0 in r.journal.entries
    ensures res.0.index == r.nextIndex
    ensures res.1 == Reader(r.journal, r.nextIndex + 1)
  {
    (r.journal.entries[r.nextIndex - r.journal.firstIndex], Reader(r.journal, r.nextIndex + 1))
  }

  /** `seek(index)`: positions the cursor at `index`, clamped to the journal;
      returns the index of the record `next()` will return. An empty journal
      is left alone and the first index returned. */
  function Seek<P>(r: Reader<P>, index: int): (res: (Reader<P>, int))
    requires Valid(r.journal)
    ensures res.0.journal == r.journal
    ensures IsEmpty(r.journal) ==> res == (r, r.journal.firstIndex)
    ensures !IsEmpty(r.journal) ==> res.1 == res.0.nextIndex
    ensures !IsEmpty(r.journal) && index < r.journal.firstIndex ==>
              HasNext(res.0) && Next(res.0).0.index == r.journal.firstIndex
    ensures !IsEmpty(r.journal) && r.journal.firstIndex <= index <= LastIndex(r.journal) ==>
              HasNext(res.0) && Next(res.0).0.index == index
    ensures !IsEmpty(r.journal) && index > LastIndex(r.journal) ==>
              !HasNext(res.0) && res.1 == LastIndex(r.journal) + 1
  {
    var j := r.journal;
    if IsEmpty(j) then (r, j.firstIndex)
    else
      var target := if index < j.firstIndex then j.firstIndex
                    else if index > LastIndex(j) then LastIndex(j) + 1
                    else index;
      (Reader(j, target), target)
  }

  /** `seekToFirst()`. */
  function SeekToFirst<P>(r: Reader<P>): (res: (Reader<P>, int))
    requires Valid(r.journal)
    ensures res.0.journal == r.journal && res.1 == r.journal.firstIndex
    ensures !IsEmpty(r.journal) ==> HasNext(res.0) && Next(res.0).0 == r.journal.entries[0]
  {
    if IsEmpty(r.journal) then (r, r.journal.firstIndex)
    else (Reader(r.journal, r.journal.firstIndex), r.journal.firstIndex)
  }

  /** `seekToFirst()` is `seek(getFirstIndex())`. */
  lemma SeekToFirstIsSeek<P>(r: Reader<P>)
    requires Valid(r.journal)
    ensures SeekToFirst(r) == Seek(r, r.journal.firstIndex)
  {
  }

  /** `seekToLast()`: on an empty journal it returns the last index, which
      is then one below the first index. */
  function SeekToLast<P>(r: Reader<P>): (res: (Reader<P>, int))
    requires Valid(r.journal)
    ensures res.0.journal == r.journal && res.1 == LastIndex(r.journal)
    ensures IsEmpty(r.journal) ==> res.0 == r && res.1 < r.journal.firstIndex
    ensures !IsEmpty(r.journal) ==>
              HasNext(res.0) && Next(res.0).0 == r.journal.entries[|r.journal.entries| - 1]
  {
    if IsEmpty(r.journal) then (r, LastIndex(r.journal))
    else (Reader(r.journal, LastIndex(r.journal)), LastIndex(r.journal))
  }

  /** On a non-empty journal `seekToLast()` is `seek(getLastIndex())`. */
  lemma SeekToLastIsSeek<P>(r: Reader<P>)
    requires Valid(r.journal) && !IsEmpty(r.journal)
    ensures SeekToLast(r) == Seek(r, LastIndex(r.journal))
  {
  }

  /** A record the ASQN seek may land on: it has an ASQN, the ASQN is at most
      `asqn`, and its index is at most `indexUpperBound`. */
  predicate Candidate<P>(e: Entry<P>, asqn: int, indexUpperBound: int) {
    e.asqn != SparseIndex.ASQN_IGNORE && e.asqn <= asqn && e.index <= indexUpperBound
  }

  /** The position of the last candidate among the first `n` records. */
  function LastCandidate<P>(entries: seq<Entry<P>>, n: nat, asqn: int, indexUpperBound: int): (r: Option<nat>)
    requires n <= |entries|
    ensures r.Some? ==> r.value < n && Candidate(entries[r.value], asqn, indexUpperBound)
    ensures r.Some? ==> forall i :: r.value < i < n ==> !Candidate(entries[i], asqn, indexUpperBound)
    ensures r.None? <==> forall i :: 0 <= i < n ==> !Candidate(entries[i], asqn, indexUpperBound)
  {
    if n == 0 then None
    else if Candidate(entries[n - 1], asqn, indexUpperBound) then Some(n - 1)
    else LastCandidate(entries, n - 1, asqn, indexUpperBound)
  }

  /** `seekToAsqn(asqn, indexUpperBound)`: positions at the last record with
      an ASQN at most `asqn` and an index at most `indexUpperBound`; without
      such a record it behaves like `seekToFirst()`. */
  function SeekToAsqnBounded<P>(r: Reader<P>, asqn: int, indexUpperBound: int): (res: (Reader<P>, int))
    requires Valid(r.journal)
    ensures res.0.journal == r.journal
    ensures (forall e :: e in r.journal.entries ==> !Candidate(e, asqn, indexUpperBound)) ==>
              res == SeekToFirst(r)
    ensures (exists e :: e in r.journal.entries && Candidate(e, asqn, indexUpperBound)) ==>
              HasNext(res.0) && res.1 == res.0.nextIndex
              && Candidate(Next(res.0).0, asqn, indexUpperBound)
              && forall e :: e in r.journal.entries && Candidate(e, asqn, indexUpperBound) ==>
                   e.index <= res.1
  {
    var j := r.journal;
    match LastCandidate(j.entries, |j.entries|, asqn, indexUpperBound)
    case None => SeekToFirst(r)
    case Some(i) =>
      assert forall e :: e in j.entries ==> exists k :: 0 <= k < |j.entries| && j.entries[k] == e;
      (Reader(j, j.entries[i].index), j.entries[i].index)
  }

  /** `seekToAsqn(asqn)`: the same seek with no upper bound on the index. */
  function SeekToAsqn<P>(r: Reader<P>, asqn: int): (res: (Reader<P>, int))
    requires Valid(r.journal)
    ensures forall ub :: ub >= LastIndex(r.journal) ==> res == SeekToAsqnBounded(r, asqn, ub)
  {
    var j := r.journal;
    match LastCandidate(j.entries, |j.entries|, asqn, LastIndex(j))
    case None => SeekToFirst(r)
    case Some(i) => (Reader(j, j.entries[i].index), j.entries[i].index)
  }

  /** Records that have an ASQN carry them in ascending order. */
  predicate AsqnsAscending<P>(j: Journal<P>) {
    forall i, k ::
      (0 <= i < k < |j.entries| && j.entries[i].asqn != SparseIndex.ASQN_IGNORE && j.entries[k].asqn != SparseIndex.ASQN_IGNORE)
      ==> j.entries[i].asqn < j.entries[k].asqn
  }

  /** When ASQNs ascend with the index, the record the seek lands on has the
      highest ASQN at most `asqn` among the records up to the bound. */
  lemma SeekToAsqnFindsHighest<P>(r: Reader<P>, asqn: int, indexUpperBound: int)
    requires Valid(r.journal) && AsqnsAscending(r.journal)
    requires exists e :: e in r.journal.entries && Candidate(e, asqn, indexUpperBound)
    ensures var res := SeekToAsqnBounded(r, asqn, indexUpperBound);
            forall e :: e in r.journal.entries && Candidate(e, asqn, indexUpperBound) ==>
              e.asqn <= Next(res.0).0.asqn
  {
    var j := r.journal;
    var res := SeekToAsqnBounded(r, asqn, indexUpperBound);
    var found := Next(res.0).0;
    forall e | e in j.entries && Candidate(e, asqn, indexUpperBound)
      ensures e.asqn <= found.asqn
    {
      var i :| 0 <= i < |j.entries| && j.entries[i] == e;
      var k := found.index - j.firstIndex;
      assert j.entries[k] == found;
      if i != k {
        assert i < k;
      }
    }
  }
}
