/** A navigable map with integer keys (Java's `TreeMap` and
    `ConcurrentSkipListMap`), held as its entries in ascending key order. */
module NavMap {

  import opened Wrappers

  type Entries<V> = seq<(int, V)>

  /** Keys strictly ascend, so each key appears once. */
  predicate Sorted<V(==)>(m: Entries<V>) {
    forall i, j :: 0 <= i < j < |m| ==> m[i].0 < m[j].0
  }

  function Keys<V(==)>(m: Entries<V>): set<int> {
    set e | e in m :: e.0
  }

  /** `get(k)`. */
  function Get<V(==)>(m: Entries<V>, k: int): (r: Option<V>)
    requires Sorted(m)
    ensures r.Some? <==> k in Keys(m)
    ensures r.Some? ==> (k, r.value) in m
  {
    if |m| == 0 then None
    else if m[0].0 == k then Some(m[0].1)
    else Get(m[1..], k)
  }

  /** A sorted map holds at most one entry per key, so membership decides `Get`. */
  lemma GetOfMember<V>(m: Entries<V>, k: int, v: V)
    requires Sorted(m) && (k, v) in m
    ensures Get(m, k) == Some(v)
  {
    if m[0].0 != k {
      GetOfMember(m[1..], k, v);
    }
  }

  /** `put(k, v)`: replaces the value under `k`, or inserts it in order. */
  function Put<V(==)>(m: Entries<V>, k: int, v: V): (r: Entries<V>)
    requires Sorted(m)
    ensures Sorted(r)
    ensures (k, v) in r
    ensures forall e :: e in r ==> e in m || e == (k, v)
    ensures forall e :: e in m && e.0 != k ==> e in r
  {
    if |m| == 0 then [(k, v)]
    else if m[0].0 == k then [(k, v)] + m[1..]
    else if k < m[0].0 then [(k, v)] + m
    else [m[0]] + Put(m[1..], k, v)
  }

  /** After `put(k, v)`, `k` maps to `v`, every other key keeps its value,
      and the key set grows by `k`. */
  lemma PutGet<V>(m: Entries<V>, k: int, v: V, k': int)
    requires Sorted(m)
    ensures Get(Put(m, k, v), k) == Some(v)
    ensures k' != k ==> Get(Put(m, k, v), k') == Get(m, k')
    ensures Keys(Put(m, k, v)) == Keys(m) + {k}
  {
    var r := Put(m, k, v);
    GetOfMember(r, k, v);
    if k' != k {
      var g := Get(m, k');
      if g.Some? {
        GetOfMember(r, k', g.value);
      }
    }
  }

  /** `floorEntry(k)`: the entry with the greatest key `<= k`. */
  function FloorEntry<V(==)>(m: Entries<V>, k: int): (r: Option<(int, V)>)
    requires Sorted(m)
    ensures r.Some? ==> r.value in m && r.value.0 <= k
    ensures r.Some? ==> forall e :: e in m && e.0 <= k ==> e.0 <= r.value.0
    ensures r.None? <==> forall e :: e in m ==> e.0 > k
  {
    if |m| == 0 then None
    else if m[|m| - 1].0 <= k then Some(m[|m| - 1])
    else FloorEntry(m[..|m| - 1], k)
  }

  /** `higherEntry(k)`: the entry with the least key `> k`. */
  function HigherEntry<V(==)>(m: Entries<V>, k: int): (r: Option<(int, V)>)
    requires Sorted(m)
    ensures r.Some? ==> r.value in m && r.value.0 > k
    ensures r.Some? ==> forall e :: e in m && e.0 > k ==> r.value.0 <= e.0
    ensures r.None? <==> forall e :: e in m ==> e.0 <= k
  {
    if |m| == 0 then None
    else if m[0].0 > k then Some(m[0])
    else HigherEntry(m[1..], k)
  }

  /** `firstEntry()`. */
  function FirstEntry<V(==)>(m: Entries<V>): (r: Option<(int, V)>)
    requires Sorted(m)
    ensures r.None? <==> |m| == 0
    ensures r.Some? ==> r.value in m && forall e :: e in m ==> r.value.0 <= e.0
  {
    if |m| == 0 then None else Some(m[0])
  }

  /** `lastEntry()`. */
  function LastEntry<V(==)>(m: Entries<V>): (r: Option<(int, V)>)
    requires Sorted(m)
    ensures r.None? <==> |m| == 0
    ensures r.Some? ==> r.value in m && forall e :: e in m ==> e.0 <= r.value.0
  {
    if |m| == 0 then None else Some(m[|m| - 1])
  }

  /** `tailMap(k, true)`: the entries with key `>= k`, still ascending. */
  function TailFrom<V(==)>(m: Entries<V>, k: int): (r: Entries<V>)
    requires Sorted(m)
    ensures Sorted(r)
    ensures forall e :: e in r ==> e in m && e.0 >= k
    ensures forall e :: e in m && e.0 >= k ==> e in r
  {
    if |m| == 0 then []
    else if m[0].0 >= k then m
    else TailFrom(m[1..], k)
  }

  /** The values of the entries, in key order (`values()`). */
  function Values<V(==)>(m: Entries<V>): (r: seq<V>)
    ensures |r| == |m|
    ensures forall i :: 0 <= i < |m| ==> r[i] == m[i].1
  {
    if |m| == 0 then [] else [m[0].1] + Values(m[1..])
  }
}
