/** Column families as the engine-state classes see them: typed tables of
    (key, value) pairs in key order. A lookup finds a key's value; a prefix
    walk hands over, in order, the pairs whose composite key starts with a
    given first component; a `whileTrue` walk goes through the table until
    its visitor answers false. The byte-level walks these stand for are in
    `ReadOnlyDb`. */
module Tables {

  import opened Wrappers

  type Table<K, V> = seq<(K, V)>

  /** A column family holds each key at most once. */
  predicate UniqueKeys<K(==), V>(t: Table<K, V>) {
    forall i, j :: 0 <= i < j < |t| ==> t[i].0 != t[j].0
  }

  /** `get(key)`: the value stored under the key, or null. */
  function Lookup<K(==), V>(t: Table<K, V>, key: K): (r: Option<V>)
    ensures r.None? <==> forall i :: 0 <= i < |t| ==> t[i].0 != key
    ensures r.Some? ==> (key, r.value) in t
  {
    if |t| == 0 then None
    else if t[0].0 == key then Some(t[0].1)
    else Lookup(t[1..], key)
  }

  /** In a family that holds each key once, a stored pair is found. */
  lemma {:induction false} LookupStored<K, V>(t: Table<K, V>, i: nat)
    requires UniqueKeys(t) && i < |t|
    ensures Lookup(t, t[i].0) == Some(t[i].1)
  {
    if i > 0 {
      assert t[0].0 != t[i].0;
      assert UniqueKeys(t[1..]) by {
        forall a, b | 0 <= a < b < |t[1..]| ensures t[1..][a].0 != t[1..][b].0 {
          assert t[1..][a] == t[a + 1] && t[1..][b] == t[b + 1];
        }
      }
      assert t[1..][i - 1] == t[i];
      LookupStored(t[1..], i - 1);
    }
  }

  /** `whileEqualPrefix(first, visitor)` over a family with composite keys,
      with a visitor that never stops: the second key components and the
      values of the pairs whose first component is `first`, in key order. */
  function Prefixed<P(==), S(!new), V(!new)>(t: Table<(P, S), V>, first: P): (r: seq<(S, V)>)
    ensures |r| <= |t|
    ensures forall x :: x in r <==> exists i :: 0 <= i < |t| && t[i].0.0 == first && x == (t[i].0.1, t[i].1)
  {
    if |t| == 0 then []
    else
      var rest := Prefixed(t[1..], first);
      assert forall i :: 0 < i < |t| ==> t[i] == t[1..][i - 1];
      if t[0].0.0 == first then [(t[0].0.1, t[0].1)] + rest else rest
  }

  /** A prefix walk keeps the family's order: walking a family made of two
      runs hands over the first run's pairs before the second's. */
  lemma {:induction false} PrefixedKeepsOrder<P, S(!new), V(!new)>(t: Table<(P, S), V>, u: Table<(P, S), V>, first: P)
    ensures Prefixed(t + u, first) == Prefixed(t, first) + Prefixed(u, first)
  {
    if |t| > 0 {
      assert (t + u)[1..] == t[1..] + u;
      PrefixedKeepsOrder(t[1..], u, first);
    } else {
      assert t + u == u;
    }
  }

  /** How many pairs a `whileTrue` walk hands to its visitor: it goes on
      while the visitor answers true, so every pair before the last one
      handed over was answered true, and a walk that ends before the end of
      the family ends at a pair answered false. */
  function WhileTrue<K, V>(t: Table<K, V>, visit: (K, V) -> bool): (n: nat)
    ensures n <= |t|
    ensures forall k :: 0 <= k < n - 1 ==> visit(t[k].0, t[k].1)
    ensures n < |t| ==> n > 0 && !visit(t[n - 1].0, t[n - 1].1)
    ensures n == |t| && n > 0 ==> forall k :: 0 <= k < n - 1 ==> visit(t[k].0, t[k].1)
  {
    if |t| == 0 then 0
    else if !visit(t[0].0, t[0].1) then 1
    else
      var rest := WhileTrue(t[1..], visit);
      assert forall k :: 0 < k < 1 + rest ==> t[k] == t[1..][k - 1];
      1 + rest
  }

  /** A visitor that answers true for every pair walks the whole family. */
  lemma WhileTrueAll<K, V>(t: Table<K, V>, visit: (K, V) -> bool)
    requires forall i :: 0 <= i < |t| ==> visit(t[i].0, t[i].1)
    ensures WhileTrue(t, visit) == |t|
  {
  }

  /** The values of a family, in order. */
  function Values<K, V>(t: Table<K, V>): (r: seq<V>)
    ensures |r| == |t| && forall i :: 0 <= i < |t| ==> r[i] == t[i].1
  {
    if |t| == 0 then [] else [t[0].1] + Values(t[1..])
  }

  /** The keys of a family, in order. */
  function Keys<K, V>(t: Table<K, V>): (r: seq<K>)
    ensures |r| == |t| && forall i :: 0 <= i < |t| ==> r[i] == t[i].0
  {
    if |t| == 0 then [] else [t[0].0] + Keys(t[1..])
  }

  /** `forEach { counter++ }`: one increment per pair of the family. */
  function Count<K, V>(t: Table<K, V>): (n: nat)
    ensures n == |t|
    decreases |t|
  {
    if |t| == 0 then 0 else Count(t[..|t| - 1]) + 1
  }

  /** The map a walk fills with `map[key] = value`: every key of the
      family, each with a value stored under it. */
  function ToMap<K(!new), V>(t: Table<K, V>): (m: map<K, V>)
    ensures forall k :: k in m <==> exists i :: 0 <= i < |t| && t[i].0 == k
    ensures forall k :: k in m ==> (k, m[k]) in t
    decreases |t|
  {
    if |t| == 0 then map[]
    else
      var n := |t| - 1;
      var before := ToMap(t[..n]);
      assert forall i :: 0 <= i < n ==> t[..n][i] == t[i];
      assert forall x :: x in t[..n] ==> x in t;
      before[t[n].0 := t[n].1]
  }

  /** In a family that holds each key once, the map holds every pair. */
  lemma ToMapStored<K(!new), V>(t: Table<K, V>, i: nat)
    requires UniqueKeys(t) && i < |t|
    ensures t[i].0 in ToMap(t) && ToMap(t)[t[i].0] == t[i].1
  {
    var m := ToMap(t);
    var k := t[i].0;
    assert k in m;
    var j :| 0 <= j < |t| && t[j] == (k, m[k]);
  }
}
