/** A RocksDB keyspace as the read-only views see it: key/value pairs in the
    iterator's order, that is strictly ascending under the byte-wise
    comparator, with the iterator operations the views use (seek to a key,
    point lookup, and prefix-bounded walks that a visitor may stop). */
module Keyspace {

  import opened Wrappers
  import opened Bytes

  /** A key and its value. */
  type Entry = (Bytes, Bytes)

  /** The pairs of a keyspace in iterator order. */
  type Store = seq<Entry>

  /** Keys strictly ascend, as RocksDB's default comparator orders them. */
  predicate Sorted(s: Store) {
    forall i, j :: 0 <= i < j < |s| ==> Less(s[i].0, s[j].0)
  }

  /** `seek(target)`: the position of the first pair whose key is not below
      the target, or the end when there is none. */
  function Seek(s: Store, target: Bytes): (k: nat)
    ensures k <= |s|
    ensures forall j :: 0 <= j < k ==> Less(s[j].0, target)
    ensures k < |s| ==> !Less(s[k].0, target)
  {
    if |s| == 0 || !Less(s[0].0, target) then 0
    else
      var k := 1 + Seek(s[1..], target);
      assert forall j :: 1 <= j < k ==> s[j] == s[1..][j - 1];
      k
  }

  /** In a sorted keyspace every pair from the seek position on is at or
      above the target. */
  lemma SeekSorted(s: Store, target: Bytes)
    requires Sorted(s)
    ensures forall j :: Seek(s, target) <= j < |s| ==> !Less(s[j].0, target)
  {
    var k := Seek(s, target);
    forall j | k <= j < |s| ensures !Less(s[j].0, target) {
      if j > k && Less(s[j].0, target) {
        LessTransitive(s[k].0, s[j].0, target);
      }
    }
  }

  /** `get(key)`: the value stored under the key, or nothing. */
  function Get(s: Store, key: Bytes): (r: Option<Bytes>)
    ensures r.None? <==> forall j :: 0 <= j < |s| ==> s[j].0 != key
    ensures r.Some? ==> exists j :: 0 <= j < |s| && s[j] == (key, r.value)
  {
    if |s| == 0 then None
    else if s[0].0 == key then Some(s[0].1)
    else
      var r := Get(s[1..], key);
      assert forall j :: 1 <= j < |s| ==> s[j] == s[1..][j - 1];
      if r.Some? then
        assert exists j :: 1 <= j < |s| && s[j] == (key, r.value) by {
          var j :| 0 <= j < |s[1..]| && s[1..][j] == (key, r.value);
          assert s[j + 1] == (key, r.value);
        }
        r
      else r
  }

  /** The lookup finds the one pair a seek to the key lands on: in a sorted
      keyspace a key is stored iff the seek lands on exactly that key. */
  lemma GetIsSeek(s: Store, key: Bytes)
    requires Sorted(s)
    ensures var k := Seek(s, key);
            Get(s, key) == if k < |s| && s[k].0 == key then Some(s[k].1) else None
  {
    var k := Seek(s, key);
    SeekSorted(s, key);
    if k < |s| && s[k].0 == key {
      var r := Get(s, key);
      assert r.Some?;
      var j :| 0 <= j < |s| && s[j] == (key, r.value);
      if j != k {
        LessIrreflexive(key);
      }
    } else if k < |s| {
      forall j | 0 <= j < |s| ensures s[j].0 != key {
        if j < k {
          LessIrreflexive(key);
        }
      }
    } else {
      forall j | 0 <= j < |s| ensures s[j].0 != key {
        LessIrreflexive(key);
      }
    }
  }

  /** In a sorted keyspace a stored key is found with its own value. */
  lemma GetSorted(s: Store, j: nat)
    requires Sorted(s) && j < |s|
    ensures Get(s, s[j].0) == Some(s[j].1)
  {
    var r := Get(s, s[j].0);
    var i :| 0 <= i < |s| && s[i] == (s[j].0, r.value);
    if i != j {
      LessIrreflexive(s[j].0);
    }
  }

  /** `wrapValueView` then `getValueView`: a missing value and an empty one
      both read as null, anything else as itself. */
  function View(value: Option<Bytes>): (r: Option<Bytes>)
    ensures r.None? <==> value.None? || value.value == []
    ensures r.Some? ==> Some(r.value) == value
  {
    if value.None? || value.value == [] then None else value
  }

  /** A visitor of key/value pairs; `false` asks the walk to stop. */
  type Visitor = (Bytes, Bytes) -> bool

  /** A visitor that never stops a walk: a `BiConsumer` or `Consumer`
      adapted to one. */
  function Always(): Visitor {
    (key: Bytes, value: Bytes) => true
  }

  /** The pairs a walk handed to its visitor, in order, and the exception
      that ended it, if one did. */
  datatype Walk = Walk(visited: seq<Entry>, failure: Option<Exception>)

  /** Wrapping the key of a visited pair whose key view is null. */
  const NULL_KEY_VIEW: Exception := NullPointer("keyViewBuffer")

  /** Wrapping the value of a visited pair whose value view is null. */
  const NULL_VALUE_VIEW: Exception := NullPointer("valueViewBuffer")

  /** A pair as the visitor sees it: the key without its first `strip`
      bytes, and the value. */
  function Stripped(e: Entry, strip: nat): Entry
    requires strip <= |e.0|
  {
    (e.0[strip..], e.1)
  }

  /** Whether a pair reaches the visitor: both its views are non-null. */
  predicate Viewable(e: Entry, strip: nat)
    requires strip <= |e.0|
  {
    e.0[strip..] != [] && e.1 != []
  }

  /** The iteration loop of `whileEqualPrefix`: from position `i` on, visit
      the pairs while their keys start with the prefix and the visitor asks
      for more. A pair whose key view (the key without its first `strip`
      bytes) or value view is empty makes the view null, and wrapping it
      throws. */
  function Scan(s: Store, i: nat, prefix: Bytes, strip: nat, visit: Visitor): (w: Walk)
    requires i <= |s| && strip <= |prefix|
    ensures |w.visited| <= |s| - i
    ensures forall j :: i <= j < i + |w.visited| ==> prefix <= s[j].0
    ensures forall k :: 0 <= k < |w.visited| ==> w.visited[k] == Stripped(s[i + k], strip)
    ensures forall k :: 0 <= k < |w.visited| - 1 ==> visit(w.visited[k].0, w.visited[k].1)
    ensures w.failure.Some? ==>
              var j := i + |w.visited|;
              j < |s| && prefix <= s[j].0 && !Viewable(s[j], strip)
              && w.failure.value == (if s[j].0[strip..] == [] then NULL_KEY_VIEW else NULL_VALUE_VIEW)
    ensures w.failure.None? && (w.visited == [] || visit(w.visited[|w.visited| - 1].0, w.visited[|w.visited| - 1].1)) ==>
              var j := i + |w.visited|;
              j == |s| || !(prefix <= s[j].0)
    decreases |s| - i, 1
  {
    if i == |s| || !(prefix <= s[i].0) then Walk([], None)
    else if s[i].0[strip..] == [] then Walk([], Some(NULL_KEY_VIEW))
    else if s[i].1 == [] then Walk([], Some(NULL_VALUE_VIEW))
    else
      var e := Stripped(s[i], strip);
      if !visit(e.0, e.1) then Walk([e], None)
      else
        var rest := Scan(s, i + 1, prefix, strip, visit);
        ScanCons(s, i, prefix, strip, visit);
        Walk([e] + rest.visited, rest.failure)
  }

  /** A visited pair in front of the walk from the next position keeps the
      walk's pairs in store order, each with the prefix and each but the last
      accepted by the visitor, and leaves the walk's end where it was. */
  lemma ScanCons(s: Store, i: nat, prefix: Bytes, strip: nat, visit: Visitor)
    requires i < |s| && strip <= |prefix| && prefix <= s[i].0
    requires visit(Stripped(s[i], strip).0, Stripped(s[i], strip).1)
    ensures var rest := Scan(s, i + 1, prefix, strip, visit);
            var w := Walk([Stripped(s[i], strip)] + rest.visited, rest.failure);
            |w.visited| <= |s| - i
            && (forall j :: i <= j < i + |w.visited| ==> prefix <= s[j].0)
            && (forall k :: 0 <= k < |w.visited| ==> w.visited[k] == Stripped(s[i + k], strip))
            && (forall k :: 0 <= k < |w.visited| - 1 ==> visit(w.visited[k].0, w.visited[k].1))
            && (w.failure.Some? ==>
                  var j := i + |w.visited|;
                  j < |s| && prefix <= s[j].0 && !Viewable(s[j], strip)
                  && w.failure.value == (if s[j].0[strip..] == [] then NULL_KEY_VIEW else NULL_VALUE_VIEW))
            && (w.failure.None? && visit(w.visited[|w.visited| - 1].0, w.visited[|w.visited| - 1].1) ==>
                  var j := i + |w.visited|;
                  j == |s| || !(prefix <= s[j].0))
    decreases |s| - i, 0
  {
    var rest := Scan(s, i + 1, prefix, strip, visit);
    var v := [Stripped(s[i], strip)] + rest.visited;
    forall k | 0 < k < |v| ensures v[k] == Stripped(s[i + k], strip) && v[k] == rest.visited[k - 1] {
      assert (i + 1) + (k - 1) == i + k;
    }
  }


  /** The pairs from position `i` on whose keys start with the prefix, as
      the visitor sees them: the reference the walks are measured against. */
  function Matching(s: Store, i: nat, prefix: Bytes, strip: nat): seq<Entry>
    requires i <= |s| && strip <= |prefix|
    decreases |s| - i
  {
    if i == |s| then []
    else if prefix <= s[i].0 then [Stripped(s[i], strip)] + Matching(s, i + 1, prefix, strip)
    else Matching(s, i + 1, prefix, strip)
  }

  /** Every pair with the prefix has non-empty views. */
  predicate AllViewable(s: Store, prefix: Bytes, strip: nat)
    requires strip <= |prefix|
  {
    forall j :: 0 <= j < |s| && prefix <= s[j].0 ==> Viewable(s[j], strip)
  }

  /** Pairs without the prefix add nothing to the matching pairs. */
  lemma {:induction false} MatchingSkips(s: Store, i: nat, k: nat, prefix: Bytes, strip: nat)
    requires i <= k <= |s| && strip <= |prefix|
    requires forall j :: i <= j < k ==> !(prefix <= s[j].0)
    ensures Matching(s, i, prefix, strip) == Matching(s, k, prefix, strip)
    decreases k - i
  {
    if i < k {
      MatchingSkips(s, i + 1, k, prefix, strip);
    }
  }

  /** In a sorted keyspace, a walk that starts at or above the prefix and
      whose visitor never stops visits exactly the pairs with the prefix
      from there on: the first key without it ends the run of keys that
      have it. */
  lemma {:induction false} ScanFromAbove(s: Store, i: nat, prefix: Bytes, strip: nat, visit: Visitor)
    requires Sorted(s) && i <= |s| && strip <= |prefix|
    requires forall j :: i <= j < |s| ==> !Less(s[j].0, prefix)
    requires forall j :: i <= j < |s| && prefix <= s[j].0 ==> Viewable(s[j], strip) && visit(s[j].0[strip..], s[j].1)
    ensures Scan(s, i, prefix, strip, visit) == Walk(Matching(s, i, prefix, strip), None)
    decreases |s| - i
  {
    if i < |s| {
      if prefix <= s[i].0 {
        ScanFromAbove(s, i + 1, prefix, strip, visit);
      } else {
        OutsiderEndsRun(s, i, prefix);
        MatchingSkips(s, i + 1, |s|, prefix, strip);
      }
    }
  }

  /** In a sorted keyspace whose keys from `i` on are at or above the
      prefix, a key at `i` without the prefix is above every key with it,
      so no later key has it. */
  lemma OutsiderEndsRun(s: Store, i: nat, prefix: Bytes)
    requires Sorted(s) && i < |s|
    requires forall j :: i <= j < |s| ==> !Less(s[j].0, prefix)
    requires !(prefix <= s[i].0)
    ensures forall j :: i < j < |s| ==> !(prefix <= s[j].0)
  {
    forall j | i < j < |s| ensures !(prefix <= s[j].0) {
      if prefix <= s[j].0 {
        PrefixBelowOutsider(prefix, s[j].0, s[i].0);
        LessTransitive(s[i].0, s[j].0, s[i].0);
        LessIrreflexive(s[i].0);
      }
    }
  }

  /** `whileEqualPrefix(prefix, visitor)` from the seek position: with a
      visitor that never stops and viewable pairs it hands over exactly the
      pairs of the whole keyspace whose keys start with the prefix, in key
      order. */
  lemma PrefixWalkIsMatching(s: Store, prefix: Bytes, strip: nat, visit: Visitor)
    requires Sorted(s) && strip <= |prefix| && AllViewable(s, prefix, strip)
    requires forall j :: 0 <= j < |s| && prefix <= s[j].0 ==> visit(s[j].0[strip..], s[j].1)
    ensures Scan(s, Seek(s, prefix), prefix, strip, visit) == Walk(Matching(s, 0, prefix, strip), None)
  {
    var k := Seek(s, prefix);
    SeekSorted(s, prefix);
    forall j | 0 <= j < k ensures !(prefix <= s[j].0) {
      if prefix <= s[j].0 {
        PrefixNotBelow(prefix, s[j].0);
      }
    }
    MatchingSkips(s, 0, k, prefix, strip);
    ScanFromAbove(s, k, prefix, strip, visit);
  }

  /** With the empty prefix every pair matches: a walk from the first pair
      is a walk over the whole keyspace. */
  lemma {:induction false} EmptyPrefixMatchesAll(s: Store, i: nat)
    requires i <= |s|
    ensures Matching(s, i, [], 0) == s[i..]
    decreases |s| - i
  {
    if i < |s| {
      EmptyPrefixMatchesAll(s, i + 1);
      assert s[i..] == [s[i]] + s[i + 1..];
    }
  }

  /** A visitor that stops at once sees at most the first pair with the
      prefix: the walk is empty iff no pair from the seek on has it. */
  lemma StoppedWalk(s: Store, prefix: Bytes, strip: nat)
    requires Sorted(s) && strip <= |prefix|
    ensures var w := Scan(s, Seek(s, prefix), prefix, strip, (k: Bytes, v: Bytes) => false);
            |w.visited| <= 1
            && (w.visited == [] && w.failure.None? <==> forall j :: 0 <= j < |s| ==> !(prefix <= s[j].0))
  {
    var k := Seek(s, prefix);
    SeekSorted(s, prefix);
    forall j | 0 <= j < k ensures !(prefix <= s[j].0) {
      if prefix <= s[j].0 {
        PrefixNotBelow(prefix, s[j].0);
      }
    }
    if k < |s| && !(prefix <= s[k].0) {
      forall j | k < j < |s| ensures !(prefix <= s[j].0) {
        if prefix <= s[j].0 {
          PrefixBelowOutsider(prefix, s[j].0, s[k].0);
          LessTransitive(s[k].0, s[j].0, s[k].0);
          LessIrreflexive(s[k].0);
        }
      }
    }
  }
}
