/** Keys of the single physical keyspace the backend reads: every key starts
    with its column family's enum ordinal written as an 8-byte long in the
    database's byte order, and continues with the family's own key bytes.
    The byte order (`ZB_DB_BYTE_ORDER`) is a parameter. */
module FamilyKeys {

  import opened Wrappers
  import opened Bytes

  /** `Long.BYTES`: the length of the family prefix. */
  const PREFIX_LENGTH: nat := 8

  /** `convertColumnFamilyToArray(cf)`: the ordinal as an 8-byte long. */
  function FamilyPrefix(ordinal: nat, order: ByteOrder): (r: Bytes)
    requires ordinal <= INT_MAX
    ensures |r| == PREFIX_LENGTH
  {
    Widths();
    EncodeUnsigned(ordinal, PREFIX_LENGTH, order)
  }

  /** `getLong(0, order)`: the signed long the first 8 bytes of a key hold. */
  function HeadLong(key: Bytes, order: ByteOrder): (r: int)
    requires |key| >= PREFIX_LENGTH
    ensures IsLong(r)
  {
    Widths();
    ToSigned(DecodeUnsigned(key[..PREFIX_LENGTH], order), PREFIX_LENGTH)
  }

  /** `values()[getLong(0).toInt()]`: the family a key belongs to, as an
      index into the family constants. A key shorter than a long, and an
      index outside the constants after the narrowing to an int, throw. */
  function DecodeFamily(key: Bytes, familyCount: nat, order: ByteOrder): (r: Result<nat>)
    ensures |key| < PREFIX_LENGTH ==> r == Throws(IndexOutOfBounds)
    ensures r.Ok? ==> |key| >= PREFIX_LENGTH && r.value < familyCount && r.value <= INT_MAX
    ensures r.Throws? ==> r.error == IndexOutOfBounds
    ensures |key| >= PREFIX_LENGTH ==>
              (r.Ok? <==> 0 <= Truncate(HeadLong(key, order), 4) < familyCount)
  {
    Widths();
    if |key| < PREFIX_LENGTH then Throws(IndexOutOfBounds)
    else
      var index := Truncate(HeadLong(key, order), 4);
      if 0 <= index < familyCount then Ok(index) else Throws(IndexOutOfBounds)
  }

  /** Reading the family back from a key that starts with a family prefix
      gives that family; an ordinal outside the constants throws instead of
      being skipped. */
  lemma DecodeFamilyOfPrefix(ordinal: nat, rest: Bytes, familyCount: nat, order: ByteOrder)
    requires ordinal <= INT_MAX
    ensures var r := DecodeFamily(FamilyPrefix(ordinal, order) + rest, familyCount, order);
            r == if ordinal < familyCount then Ok(ordinal) else Throws(IndexOutOfBounds)
  {
    Widths();
    var key := FamilyPrefix(ordinal, order) + rest;
    assert key[..PREFIX_LENGTH] == FamilyPrefix(ordinal, order);
    DecodeEncodeUnsigned(ordinal, PREFIX_LENGTH, order);
    TruncateInRange(ordinal, 4);
  }

  /** Distinct families have distinct prefixes. */
  lemma PrefixInjective(a: nat, b: nat, order: ByteOrder)
    requires a <= INT_MAX && b <= INT_MAX
    requires FamilyPrefix(a, order) == FamilyPrefix(b, order)
    ensures a == b
  {
    Widths();
    DecodeEncodeUnsigned(a, PREFIX_LENGTH, order);
    DecodeEncodeUnsigned(b, PREFIX_LENGTH, order);
  }

  /** `writeKey(key)`, and the prefix key `withPrefixKey` hands its consumer:
      the family prefix followed by the key, of length 8 plus the key's. */
  function WriteKey(ordinal: nat, key: Bytes, order: ByteOrder): (r: Bytes)
    requires ordinal <= INT_MAX
    ensures |r| == PREFIX_LENGTH + |key|
    ensures FamilyPrefix(ordinal, order) <= r
  {
    FamilyPrefix(ordinal, order) + key
  }

  /** `wrapKeyView(key)` then `getKeyView()`: the key without its family
      prefix; a missing key, and a key that is only the prefix, leave an
      empty view, which reads as null. */
  function KeyView(key: Option<Bytes>): (r: Option<Bytes>)
    requires key.Some? ==> |key.value| >= PREFIX_LENGTH
    ensures r.None? <==> key.None? || |key.value| == PREFIX_LENGTH
    ensures r.Some? ==> key.value == key.value[..PREFIX_LENGTH] + r.value
  {
    if key.None? || |key.value| == PREFIX_LENGTH then None
    else Some(key.value[PREFIX_LENGTH..])
  }

  /** A written key takes apart into its family and its key again. */
  lemma WriteKeyRoundTrip(ordinal: nat, key: Bytes, familyCount: nat, order: ByteOrder)
    requires ordinal <= INT_MAX && ordinal < familyCount
    ensures DecodeFamily(WriteKey(ordinal, key, order), familyCount, order) == Ok(ordinal)
    ensures KeyView(Some(WriteKey(ordinal, key, order))) == if key == [] then None else Some(key)
  {
    DecodeFamilyOfPrefix(ordinal, key, familyCount, order);
    var w := WriteKey(ordinal, key, order);
    assert w[PREFIX_LENGTH..] == key;
  }
}
