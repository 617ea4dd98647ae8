/** `ZeebeDbReader` and its older twin `Experimental`: walks over the whole
    keyspace of a state directory opened read-only, walks over one column
    family, point lookups of long-keyed values and per-family entry counts.
    A column family is an enum constant, written here as its ordinal below
    `familyCount`; the MessagePack-to-JSON conversion is the parameter
    `toJson`; the byte order of the keys is the parameter `order`. */
module ZeebeDbReader {

  import opened Wrappers
  import opened Bytes
  import opened Text
  import opened Keyspace
  import opened FamilyKeys

  /** The part of an I/O error's message that means the directory is missing. */
  const NO_SUCH_FILE: string := "No such file or directory"

  /** The message of the exception that replaces it. */
  function MissingStateMessage(statePath: string): string {
    "Expected to find RocksDB instance under given path " + statePath + ", but nothing found."
  }

  /** What the constructor throws when opening the database fails with
      `cause`: an I/O error whose message mentions a missing file becomes a
      `FileNotFoundException`; every other failure escapes unchanged. */
  function OpenFailure(cause: Exception, statePath: string): (e: Exception)
    requires cause.RocksDb?
    ensures e.FileNotFound? <==>
              cause.ioError && cause.status.Some? && Contains(cause.status.value, NO_SUCH_FILE)
    ensures e.FileNotFound? ==> e.message == MissingStateMessage(statePath)
    ensures !e.FileNotFound? ==> e == cause
  {
    if cause.ioError && cause.status.Some? && Contains(cause.status.value, NO_SUCH_FILE) then
      FileNotFound(MissingStateMessage(statePath))
    else cause
  }

  /** What a `Visitor` of `visitDB` receives for one pair: the family its key
      names, and the key and value as stored. */
  datatype Visit = Visit(family: nat, key: Bytes, value: Bytes)

  /** The visitor calls of a walk, in order, and the exception that ended it,
      if one did. */
  datatype Visits<T> = Visits(visited: seq<T>, failure: Option<Exception>)

  /** One step of `visitDB`: read the family from the key's first long,
      narrowed to an int, and index the family constants with it. */
  function VisitOf(e: Entry, familyCount: nat, order: ByteOrder): Result<Visit> {
    var cf :- DecodeFamily(e.0, familyCount, order);
    Ok(Visit(cf, e.0, e.1))
  }

  /** The loop of `visitDB` from position `i` on: each pair is visited with
      its family, and the first key that names no family ends the walk with
      the exception. */
  function VisitFrom(s: Store, i: nat, familyCount: nat, order: ByteOrder): (w: Visits<Visit>)
    requires i <= |s|
    ensures i + |w.visited| <= |s|
    ensures forall k :: 0 <= k < |w.visited| ==> VisitOf(s[i + k], familyCount, order) == Ok(w.visited[k])
    ensures w.failure.None? <==> i + |w.visited| == |s|
    ensures w.failure.Some? ==> VisitOf(s[i + |w.visited|], familyCount, order) == Throws(w.failure.value)
    decreases |s| - i
  {
    if i == |s| then Visits([], None)
    else match VisitOf(s[i], familyCount, order)
      case Throws(e) => Visits([], Some(e))
      case Ok(v) =>
        var rest := VisitFrom(s, i + 1, familyCount, order);
        VisitsShift(s, i, familyCount, order, v, rest.visited);
        Visits([v] + rest.visited, rest.failure)
  }

  /** The visits from `i + 1` on, after the visit at `i`, are the visits
      from `i` on. */
  lemma VisitsShift(s: Store, i: nat, familyCount: nat, order: ByteOrder, v: Visit, rest: seq<Visit>)
    requires i + 1 + |rest| <= |s| && VisitOf(s[i], familyCount, order) == Ok(v)
    requires forall k :: 0 <= k < |rest| ==> VisitOf(s[i + 1 + k], familyCount, order) == Ok(rest[k])
    ensures forall k :: 0 <= k < 1 + |rest| ==> VisitOf(s[i + k], familyCount, order) == Ok(([v] + rest)[k])
  {
    forall k | 0 < k < 1 + |rest| ensures VisitOf(s[i + k], familyCount, order) == Ok(([v] + rest)[k]) {
      assert ([v] + rest)[k] == rest[k - 1];
      assert i + 1 + (k - 1) == i + k;
    }
  }

  /** `visitDB(visitor)`: every pair of the keyspace from the first, each
      with the family its key names, until a key names none. */
  function VisitDB(s: Store, familyCount: nat, order: ByteOrder): (w: Visits<Visit>)
    ensures |w.visited| <= |s|
    ensures forall k :: 0 <= k < |w.visited| ==> VisitOf(s[k], familyCount, order) == Ok(w.visited[k])
    ensures w.failure.None? <==> |w.visited| == |s|
    ensures w.failure.Some? ==> VisitOf(s[|w.visited|], familyCount, order) == Throws(w.failure.value)
  {
    VisitFrom(s, 0, familyCount, order)
  }

  /** What a `JsonValueVisitor` receives for one pair. */
  datatype JsonVisit = JsonVisit(family: nat, key: Bytes, json: string)

  /** `visitDBWithJsonValues(visitor)`: the walk of `visitDB` with each value
      converted to JSON before the visitor sees it. */
  function VisitDBWithJsonValues(s: Store, familyCount: nat, order: ByteOrder, toJson: Bytes -> string)
    : (w: Visits<JsonVisit>)
    ensures |w.visited| <= |s|
    ensures forall k :: 0 <= k < |w.visited| ==>
              VisitOf(s[k], familyCount, order) == Ok(Visit(w.visited[k].family, w.visited[k].key, s[k].1))
              && w.visited[k].json == toJson(s[k].1)
    ensures w.failure.None? <==> |w.visited| == |s|
    ensures w.failure.Some? ==> VisitOf(s[|w.visited|], familyCount, order) == Throws(w.failure.value)
  {
    var raw := VisitDB(s, familyCount, order);
    var visited := seq(|raw.visited|, k requires 0 <= k < |raw.visited| =>
      JsonVisit(raw.visited[k].family, raw.visited[k].key, toJson(raw.visited[k].value)));
    Visits(visited, raw.failure)
  }

  /** Pairs as a `JsonValueWithKeyPrefixVisitor` receives them: the whole
      key, and the value as JSON. */
  function JsonEntries(es: seq<Entry>, toJson: Bytes -> string): (r: seq<(Bytes, string)>)
    ensures |r| == |es|
  {
    seq(|es|, k requires 0 <= k < |es| => (es[k].0, toJson(es[k].1)))
  }

  /** The loop of `visitDBWithPrefix(cf)` from position `i` on. The iterator
      reads with `prefixSameAsStart` under an 8-byte prefix extractor, so it
      stays valid while keys start with the family prefix; each key's family
      is read again and only pairs of `cf` are visited. */
  function PrefixFrom(s: Store, i: nat, cf: nat, familyCount: nat, order: ByteOrder, toJson: Bytes -> string)
    : (w: Visits<(Bytes, string)>)
    requires i <= |s| && cf <= INT_MAX
    ensures forall k :: 0 <= k < |w.visited| ==> FamilyPrefix(cf, order) <= w.visited[k].0
    ensures w.failure.Some? ==> w.failure.value == IndexOutOfBounds
    decreases |s| - i
  {
    var prefix := FamilyPrefix(cf, order);
    if i == |s| || !(prefix <= s[i].0) then Visits([], None)
    else match DecodeFamily(s[i].0, familyCount, order)
      case Throws(e) => Visits([], Some(e))
      case Ok(kvCf) =>
        var rest := PrefixFrom(s, i + 1, cf, familyCount, order, toJson);
        if kvCf == cf then Visits([(s[i].0, toJson(s[i].1))] + rest.visited, rest.failure)
        else rest
  }

  /** `visitDBWithPrefix(cf, visitor)`: seek to the family prefix and walk on
      from there. */
  function VisitDBWithPrefix(s: Store, cf: nat, familyCount: nat, order: ByteOrder, toJson: Bytes -> string)
    : (w: Visits<(Bytes, string)>)
    requires cf <= INT_MAX
    ensures forall k :: 0 <= k < |w.visited| ==> FamilyPrefix(cf, order) <= w.visited[k].0
  {
    PrefixFrom(s, Seek(s, FamilyPrefix(cf, order)), cf, familyCount, order, toJson)
  }

  /** From a position whose keys are all at or above the family prefix, the
      walk hands over exactly the pairs of the family, and never throws. */
  lemma {:induction false} PrefixFromAbove(s: Store, i: nat, cf: nat, familyCount: nat, order: ByteOrder,
                                           toJson: Bytes -> string)
    requires Sorted(s) && i <= |s| && cf <= INT_MAX && cf < familyCount
    requires forall j :: i <= j < |s| ==> !Less(s[j].0, FamilyPrefix(cf, order))
    ensures PrefixFrom(s, i, cf, familyCount, order, toJson)
            == Visits(JsonEntries(Matching(s, i, FamilyPrefix(cf, order), 0), toJson), None)
    decreases |s| - i, 1
  {
    if i < |s| {
      if FamilyPrefix(cf, order) <= s[i].0 {
        PrefixFromHit(s, i, cf, familyCount, order, toJson);
      } else {
        OutsiderEndsRun(s, i, FamilyPrefix(cf, order));
        MatchingSkips(s, i, |s|, FamilyPrefix(cf, order), 0);
      }
    }
  }

  /** The step of `PrefixFromAbove` at a key of the family. */
  lemma {:induction false} PrefixFromHit(s: Store, i: nat, cf: nat, familyCount: nat, order: ByteOrder,
                                         toJson: Bytes -> string)
    requires Sorted(s) && i < |s| && cf <= INT_MAX && cf < familyCount
    requires forall j :: i <= j < |s| ==> !Less(s[j].0, FamilyPrefix(cf, order))
    requires FamilyPrefix(cf, order) <= s[i].0
    ensures PrefixFrom(s, i, cf, familyCount, order, toJson)
            == Visits(JsonEntries(Matching(s, i, FamilyPrefix(cf, order), 0), toJson), None)
    decreases |s| - i, 0
  {
    PrefixFromStep(s, i, cf, familyCount, order, toJson);
    PrefixFromAbove(s, i + 1, cf, familyCount, order, toJson);
    JsonEntriesCons(s[i], Matching(s, i + 1, FamilyPrefix(cf, order), 0), toJson);
  }

  lemma JsonEntriesCons(e: Entry, rest: seq<Entry>, toJson: Bytes -> string)
    ensures JsonEntries([e] + rest, toJson) == [(e.0, toJson(e.1))] + JsonEntries(rest, toJson)
  {
  }

  /** A key of the family is handed over, and the walk goes on after it. */
  lemma PrefixFromStep(s: Store, i: nat, cf: nat, familyCount: nat, order: ByteOrder, toJson: Bytes -> string)
    requires i < |s| && cf <= INT_MAX && cf < familyCount && FamilyPrefix(cf, order) <= s[i].0
    ensures var rest := PrefixFrom(s, i + 1, cf, familyCount, order, toJson);
            PrefixFrom(s, i, cf, familyCount, order, toJson)
            == Visits([(s[i].0, toJson(s[i].1))] + rest.visited, rest.failure)
    ensures Matching(s, i, FamilyPrefix(cf, order), 0) == [s[i]] + Matching(s, i + 1, FamilyPrefix(cf, order), 0)
  {
    var key := s[i].0;
    assert key == FamilyPrefix(cf, order) + key[PREFIX_LENGTH..];
    DecodeFamilyOfPrefix(cf, key[PREFIX_LENGTH..], familyCount, order);
    assert Stripped(s[i], 0) == s[i];
  }

  /** For a family among the constants, `visitDBWithPrefix` hands over
      exactly the family's pairs, in key order, values as JSON, and throws
      nothing. */
  lemma VisitDBWithPrefixIsMatching(s: Store, cf: nat, familyCount: nat, order: ByteOrder, toJson: Bytes -> string)
    requires Sorted(s) && cf <= INT_MAX && cf < familyCount
    ensures VisitDBWithPrefix(s, cf, familyCount, order, toJson)
            == Visits(JsonEntries(Matching(s, 0, FamilyPrefix(cf, order), 0), toJson), None)
  {
    var prefix := FamilyPrefix(cf, order);
    var k := Seek(s, prefix);
    SeekSorted(s, prefix);
    forall j | 0 <= j < k ensures !(prefix <= s[j].0) {
      if prefix <= s[j].0 {
        PrefixNotBelow(prefix, s[j].0);
      }
    }
    MatchingSkips(s, 0, k, prefix, 0);
    PrefixFromAbove(s, k, cf, familyCount, order, toJson);
  }

  /** The 16-byte key `getValue(cf, key)` looks up: the family's ordinal and
      then the key, each as a long in the database's byte order. */
  function LongKey(cf: nat, key: int, order: ByteOrder): (r: Bytes)
    requires cf <= INT_MAX && IsLong(key)
    ensures |r| == 2 * PREFIX_LENGTH && FamilyPrefix(cf, order) <= r
  {
    Widths();
    FamilyPrefix(cf, order) + EncodeUnsigned(FromSigned(key, 8), 8, order)
  }

  /** A lookup key takes apart into its family and its long again, so
      distinct lookups use distinct keys. */
  lemma LongKeyRoundTrip(cf: nat, key: int, familyCount: nat, order: ByteOrder)
    requires cf <= INT_MAX && cf < familyCount && IsLong(key)
    ensures DecodeFamily(LongKey(cf, key, order), familyCount, order) == Ok(cf)
    ensures HeadLong(LongKey(cf, key, order)[PREFIX_LENGTH..], order) == key
  {
    Widths();
    var tail := EncodeUnsigned(FromSigned(key, 8), 8, order);
    DecodeFamilyOfPrefix(cf, tail, familyCount, order);
    assert LongKey(cf, key, order)[PREFIX_LENGTH..] == tail;
    assert tail[..PREFIX_LENGTH] == tail;
    DecodeEncodeUnsigned(FromSigned(key, 8), 8, order);
  }

  /** `getValue(cf, key)`: the value stored under the long key, or null. */
  function GetValue(s: Store, cf: nat, key: int, order: ByteOrder): (r: Option<Bytes>)
    requires cf <= INT_MAX && IsLong(key)
    ensures r.None? <==> forall j :: 0 <= j < |s| ==> s[j].0 != LongKey(cf, key, order)
    ensures r.Some? ==> exists j :: 0 <= j < |s| && s[j] == (LongKey(cf, key, order), r.value)
  {
    Get(s, LongKey(cf, key, order))
  }

  /** `getValueAsJson(cf, key)`: the stored value as JSON, or `{}` when
      nothing is stored under the key. */
  function GetValueAsJson(s: Store, cf: nat, key: int, order: ByteOrder, toJson: Bytes -> string): (r: string)
    requires cf <= INT_MAX && IsLong(key)
    ensures (forall j :: 0 <= j < |s| ==> s[j].0 != LongKey(cf, key, order)) ==> r == "{}"
    ensures (exists j :: 0 <= j < |s| && s[j].0 == LongKey(cf, key, order)) ==>
              exists j :: 0 <= j < |s| && s[j].0 == LongKey(cf, key, order) && r == toJson(s[j].1)
  {
    match GetValue(s, cf, key, order)
    case None => "{}"
    case Some(bytes) => toJson(bytes)
  }

  /** The families of a run of visits. */
  function Families(vs: seq<Visit>): (r: seq<nat>)
    ensures |r| == |vs|
  {
    seq(|vs|, k requires 0 <= k < |vs| => vs[k].family)
  }

  /** The counting visitor of `stateStatistics` after the visits `vs`: for
      each, `computeIfAbsent(cf) { 0 }` and then `put(cf, count + 1)`. A
      family is present iff it was visited, with its number of visits. */
  function Tally(vs: seq<Visit>): (m: map<nat, nat>)
    ensures forall cf :: cf in m <==> multiset(Families(vs))[cf] > 0
    ensures forall cf :: cf in m ==> m[cf] == multiset(Families(vs))[cf]
    decreases |vs|
  {
    if vs == [] then map[]
    else
      var init := vs[..|vs| - 1];
      var m := Tally(init);
      var cf := vs[|vs| - 1].family;
      var count := if cf in m then m[cf] else 0;
      assert Families(vs) == Families(init) + [cf];
      m[cf := count + 1]
  }

  /** The sum of the counts of the families below `n`. */
  function Total(m: map<nat, nat>, n: nat): nat {
    if n == 0 then 0
    else Total(m, n - 1) + (if n - 1 in m then m[n - 1] else 0)
  }

  /** Counting one more visit of a family below `n` adds one to the sum. */
  lemma {:induction false} TotalBump(m: map<nat, nat>, cf: nat, n: nat)
    ensures Total(m[cf := (if cf in m then m[cf] else 0) + 1], n) == Total(m, n) + (if cf < n then 1 else 0)
  {
    if n > 0 {
      TotalBump(m, cf, n - 1);
    }
  }

  /** Nothing counted sums to nothing. */
  lemma {:induction false} TotalEmpty(n: nat)
    ensures Total(map[], n) == 0
  {
    if n > 0 {
      TotalEmpty(n - 1);
    }
  }

  /** The counts of visits of families below `n` add up to the number of
      visits. */
  lemma {:induction false} TallyTotal(vs: seq<Visit>, n: nat)
    requires forall k :: 0 <= k < |vs| ==> vs[k].family < n
    ensures Total(Tally(vs), n) == |vs|
    decreases |vs|
  {
    if vs == [] {
      TotalEmpty(n);
    } else {
      var init := vs[..|vs| - 1];
      var m, cf := Tally(init), vs[|vs| - 1].family;
      assert Tally(vs) == m[cf := (if cf in m then m[cf] else 0) + 1];
      TallyTotal(init, n);
      TotalBump(m, cf, n);
    }
  }

  /** The number of pairs from position `i` on whose keys name family `cf`. */
  function FamilyCount(s: Store, i: nat, cf: nat, familyCount: nat, order: ByteOrder): nat
    requires i <= |s|
    decreases |s| - i
  {
    if i == |s| then 0
    else (if DecodeFamily(s[i].0, familyCount, order) == Ok(cf) then 1 else 0)
         + FamilyCount(s, i + 1, cf, familyCount, order)
  }

  /** A walk that does not fail at `i` visits the pair there and walks on. */
  lemma VisitFromStep(s: Store, i: nat, familyCount: nat, order: ByteOrder) returns (v: Visit)
    requires i < |s| && VisitFrom(s, i, familyCount, order).failure.None?
    ensures VisitOf(s[i], familyCount, order) == Ok(v)
    ensures v.family == FamilyKeys.DecodeFamily(s[i].0, familyCount, order).value
    ensures VisitFrom(s, i + 1, familyCount, order).failure.None?
    ensures VisitFrom(s, i, familyCount, order).visited == [v] + VisitFrom(s, i + 1, familyCount, order).visited
  {
    v := VisitOf(s[i], familyCount, order).value;
  }

  lemma FamiliesCons(v: Visit, vs: seq<Visit>)
    ensures multiset(Families([v] + vs)) == multiset{v.family} + multiset(Families(vs))
  {
    assert Families([v] + vs) == [v.family] + Families(vs);
  }

  /** A walk without failure visits each family as often as its keys occur. */
  lemma {:induction false} VisitCounts(s: Store, i: nat, cf: nat, familyCount: nat, order: ByteOrder)
    requires i <= |s| && VisitFrom(s, i, familyCount, order).failure.None?
    ensures multiset(Families(VisitFrom(s, i, familyCount, order).visited))[cf]
            == FamilyCount(s, i, cf, familyCount, order)
    decreases |s| - i
  {
    if i < |s| {
      var v := VisitFromStep(s, i, familyCount, order);
      VisitCounts(s, i + 1, cf, familyCount, order);
      FamiliesCons(v, VisitFrom(s, i + 1, familyCount, order).visited);
    }
  }

  /** `stateStatistics()`: how many pairs each family holds, for the
      families that hold any; a key that names no family throws. */
  function StateStatistics(s: Store, familyCount: nat, order: ByteOrder): (r: Result<map<nat, nat>>)
    ensures r.Ok? <==> forall j :: 0 <= j < |s| ==> DecodeFamily(s[j].0, familyCount, order).Ok?
    ensures r.Ok? ==> forall cf :: cf in r.value <==> FamilyCount(s, 0, cf, familyCount, order) > 0
    ensures r.Ok? ==> forall cf :: cf in r.value ==> r.value[cf] == FamilyCount(s, 0, cf, familyCount, order)
  {
    var w := VisitDB(s, familyCount, order);
    if w.failure.Some? then Throws(w.failure.value)
    else
      assert forall cf :: multiset(Families(w.visited))[cf] == FamilyCount(s, 0, cf, familyCount, order) by {
        forall cf {
          VisitCounts(s, 0, cf, familyCount, order);
        }
      }
      Ok(Tally(w.visited))
  }

  /** A key in its family: its first long names a family and is exactly
      that family's prefix, as every key the state writes is. */
  predicate InFamily(key: Bytes, familyCount: nat, order: ByteOrder) {
    var r := DecodeFamily(key, familyCount, order);
    r.Ok? && FamilyPrefix(r.value, order) <= key
  }

  /** A keyspace whose every key is in its family. */
  predicate WellFormed(s: Store, familyCount: nat, order: ByteOrder) {
    forall j :: 0 <= j < |s| ==> InFamily(s[j].0, familyCount, order)
  }

  /** Every key the state writes is in its family. */
  lemma WriteKeyInFamily(ordinal: nat, key: Bytes, familyCount: nat, order: ByteOrder)
    requires ordinal <= INT_MAX && ordinal < familyCount
    ensures InFamily(WriteKey(ordinal, key, order), familyCount, order)
  {
    WriteKeyRoundTrip(ordinal, key, familyCount, order);
  }

  /** A key in its family names family `cf` iff it starts with the prefix
      of `cf`. */
  lemma FamilyIffPrefix(key: Bytes, cf: nat, familyCount: nat, order: ByteOrder)
    requires InFamily(key, familyCount, order) && cf <= INT_MAX
    ensures DecodeFamily(key, familyCount, order) == Ok(cf) <==> FamilyPrefix(cf, order) <= key
  {
    var named := DecodeFamily(key, familyCount, order).value;
    if FamilyPrefix(cf, order) <= key {
      assert FamilyPrefix(cf, order) == key[..PREFIX_LENGTH] == FamilyPrefix(named, order);
      PrefixInjective(cf, named, order);
    }
  }

  /** In a well-formed keyspace a family's count is the number of keys with
      its prefix. */
  lemma {:induction false} CountIsMatching(s: Store, i: nat, cf: nat, familyCount: nat, order: ByteOrder)
    requires i <= |s| && WellFormed(s, familyCount, order) && cf <= INT_MAX
    ensures FamilyCount(s, i, cf, familyCount, order) == |Matching(s, i, FamilyPrefix(cf, order), 0)|
    decreases |s| - i
  {
    if i < |s| {
      FamilyIffPrefix(s[i].0, cf, familyCount, order);
      CountIsMatching(s, i + 1, cf, familyCount, order);
    }
  }

  /** The statistics and the per-family walk agree: in a well-formed
      keyspace the statistics succeed, list a family iff its walk visits
      something, and count exactly the pairs its walk visits. */
  lemma StatisticsMatchPrefixWalk(s: Store, cf: nat, familyCount: nat, order: ByteOrder, toJson: Bytes -> string)
    requires Sorted(s) && WellFormed(s, familyCount, order) && cf <= INT_MAX && cf < familyCount
    ensures StateStatistics(s, familyCount, order).Ok?
    ensures var stats := StateStatistics(s, familyCount, order).value;
            var w := VisitDBWithPrefix(s, cf, familyCount, order, toJson);
            (cf in stats <==> w.visited != []) && (cf in stats ==> stats[cf] == |w.visited|)
  {
    CountIsMatching(s, 0, cf, familyCount, order);
    VisitDBWithPrefixIsMatching(s, cf, familyCount, order, toJson);
  }

  /** The statistics account for every pair: their counts add up to the
      number of pairs the walk visited. */
  lemma StatisticsTotal(s: Store, familyCount: nat, order: ByteOrder)
    requires StateStatistics(s, familyCount, order).Ok?
    ensures Total(StateStatistics(s, familyCount, order).value, familyCount) == |VisitDB(s, familyCount, order).visited| == |s|
  {
    var w := VisitDB(s, familyCount, order);
    forall k | 0 <= k < |w.visited| ensures w.visited[k].family < familyCount {
      assert VisitOf(s[k], familyCount, order) == Ok(w.visited[k]);
    }
    TallyTotal(w.visited, familyCount);
  }
}
