/** The descriptor at the head of every journal segment file: which segment
    it is, the first index it holds and how large it may grow. */
module SegmentDescriptor {

  import opened Bytes

  /** Current descriptor version and the first version carrying a metadata block. */
  const CUR_VERSION: int := 2
  const META_VERSION: int := 2
  /** The version is a single byte in front of everything else. */
  const VERSION_LENGTH: nat := 1

  datatype Descriptor = Descriptor(
    version: int,              // a Java byte
    actingSchemaVersion: int,  // a Java int
    id: int,                   // a Java long
    index: int,                // a Java long
    maxSegmentSize: int,       // a Java int
    encodedLength: int,        // a Java int
    lastIndex: int,            // a Java long; 0 when unset
    lastPosition: int)         // a Java int; 0 when unset

  /** Every field fits the Java type it is declared with. */
  predicate Valid(d: Descriptor) {
    MinSigned(1) <= d.version <= MaxSigned(1)
    && IsInt(d.actingSchemaVersion) && IsLong(d.id) && IsLong(d.index)
    && IsInt(d.maxSegmentSize) && IsInt(d.encodedLength)
    && IsLong(d.lastIndex) && IsInt(d.lastPosition)
  }

  /** `equals`: two descriptors are equal when their id, start index and
      maximum size agree; version, last index and last position are ignored. */
  predicate Equal(a: Descriptor, b: Descriptor) {
    a.id == b.id && a.index == b.index && a.maxSegmentSize == b.maxSegmentSize
  }

  /** `equals` is an equivalence relation that does not look at the last
      index or last position. */
  lemma EqualIsEquivalence(a: Descriptor, b: Descriptor, c: Descriptor, lastIndex: int, lastPosition: int)
    ensures Equal(a, a)
    ensures Equal(a, b) ==> Equal(b, a)
    ensures Equal(a, b) && Equal(b, c) ==> Equal(a, c)
    ensures Equal(a, a.(lastIndex := lastIndex, lastPosition := lastPosition))
  {
  }

  /** A Java `int` operation result: wraps modulo 2^32. */
  function IntWrap(v: int): (r: int)
    ensures IsInt(r)
  {
    Truncate(v, 4)
  }

  const WORD: nat := 0x1_0000_0000

  /** `Long.hashCode(v)`: `(int) (v ^ (v >>> 32))`, i.e. the low word of `v`
      exclusive-or its high word, read as a signed int. */
  function LongHash(v: int): (r: int)
    requires IsLong(v)
    ensures IsInt(r)
  {
    Pow256Of8();
    var u := FromSigned(v, 8);
    ToSigned(FoldWords(u), 4)
  }

  /** The low word of a 64-bit pattern exclusive-or its high word. */
  function FoldWords(u: nat): (r: nat)
    requires u < WORD * WORD
    ensures r < WORD
  {
    Pow2Of32();
    Xor(u % WORD, u / WORD, 32)
  }

  function Pow2(n: nat): (r: nat)
    ensures r > 0
  {
    if n == 0 then 1 else 2 * Pow2(n - 1)
  }

  /** Bitwise exclusive-or of the low `n` bits of `a` and `b`. */
  function Xor(a: nat, b: nat, n: nat): (r: nat)
    ensures r < Pow2(n)
  {
    if n == 0 then 0
    else (if a % 2 == b % 2 then 0 else 1) + 2 * Xor(a / 2, b / 2, n - 1)
  }

  lemma Pow2Of32()
    ensures Pow2(32) == WORD
  {
    assert Pow2(8) == 0x100;
    Pow2Add(8, 8);
    Pow2Add(16, 16);
  }

  lemma {:induction false} Pow2Add(a: nat, b: nat)
    ensures Pow2(a + b) == Pow2(a) * Pow2(b)
  {
    if b > 0 {
      Pow2Add(a, b - 1);
    }
  }

  lemma Pow256Of8()
    ensures Pow256(4) == WORD && Pow256(8) == WORD * WORD && Half(4) == 0x8000_0000
  {
  }

  /** Exclusive-or with zero keeps an `n`-bit value. */
  lemma {:induction false} XorZero(a: nat, n: nat)
    requires a < Pow2(n)
    ensures Xor(a, 0, n) == a
  {
    if n > 0 {
      XorZero(a / 2, n - 1);
    }
  }

  /** A pattern whose high word is zero folds to itself. */
  lemma FoldSmall(u: nat)
    requires u < WORD
    ensures FoldWords(u) == u
  {
    Pow2Of32();
    assert u / WORD == 0;
    assert u % WORD == u;
    XorZero(u, 32);
  }

  /** A non-negative long that fits an int hashes to itself. */
  lemma LongHashOfInt(v: int)
    requires 0 <= v <= INT_MAX
    ensures LongHash(v) == v
  {
    Pow256Of8();
    assert FromSigned(v, 8) == v;
    FoldSmall(v);
  }

  /** `Objects.hash(id, index, maxSegmentSize)`: `Arrays.hashCode` of the three
      boxed fields, starting from 1. */
  function HashCode(d: Descriptor): (r: int)
    requires Valid(d)
    ensures IsInt(r)
  {
    HashStep(HashStep(HashStep(1, LongHash(d.id)), LongHash(d.index)), d.maxSegmentSize)
  }

  /** One step of `Arrays.hashCode`: `31 * h + element`, in int arithmetic. */
  function HashStep(h: int, element: int): (r: int)
    ensures IsInt(r)
  {
    IntWrap(31 * h + element)
  }

  /** `hashCode` agrees with `equals`. */
  lemma EqualHashCode(a: Descriptor, b: Descriptor)
    requires Valid(a) && Valid(b) && Equal(a, b)
    ensures HashCode(a) == HashCode(b)
  {
  }

  /** The fixed lengths of the parts of the encoded descriptor. The message
      header is eight bytes in the Simple Binary Encoding; the two block
      lengths come from the generated codecs. */
  datatype Blocks = Blocks(headerLength: nat, metadataBlockLength: nat, descriptorBlockLength: nat)

  /** `getEncodingLength()`: a version byte, then a header and the metadata
      block, then a header and the descriptor block. */
  function EncodingLength(b: Blocks): nat {
    VERSION_LENGTH + b.headerLength * 2 + b.metadataBlockLength + b.descriptorBlockLength
  }

  /** The bytes of an encoded descriptor, in file order. */
  function Layout(version: Byte, metadataHeader: Bytes, metadata: Bytes,
                  descriptorHeader: Bytes, descriptor: Bytes): Bytes
  {
    [version] + metadataHeader + metadata + descriptorHeader + descriptor
  }

  /** Each part sits at the offset the encoding length accounts for, and the
      whole layout is exactly `EncodingLength` bytes long. */
  lemma LayoutMatchesEncodingLength(b: Blocks, version: Byte, metadataHeader: Bytes, metadata: Bytes,
                                    descriptorHeader: Bytes, descriptor: Bytes)
    requires |metadataHeader| == b.headerLength && |descriptorHeader| == b.headerLength
    requires |metadata| == b.metadataBlockLength && |descriptor| == b.descriptorBlockLength
    ensures var l := Layout(version, metadataHeader, metadata, descriptorHeader, descriptor);
            var h := b.headerLength;
            var m := b.metadataBlockLength;
            |l| == EncodingLength(b)
            && l[0] == version
            && l[1..1 + h] == metadataHeader
            && l[1 + h..1 + h + m] == metadata
            && l[1 + h + m..1 + 2 * h + m] == descriptorHeader
            && l[1 + 2 * h + m..] == descriptor
  {
    var l := Layout(version, metadataHeader, metadata, descriptorHeader, descriptor);
    var h := b.headerLength;
    var m := b.metadataBlockLength;
    assert l == [version] + metadataHeader + metadata + descriptorHeader + descriptor;
    assert l[1..1 + h] == metadataHeader;
    assert l[1 + h..1 + h + m] == metadata;
    assert l[1 + h + m..1 + 2 * h + m] == descriptorHeader;
    assert l[1 + 2 * h + m..] == descriptor;
  }
}
