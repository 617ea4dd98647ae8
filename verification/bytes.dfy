/** Bytes and fixed-width integers as the JVM lays them out: unsigned
    little- and big-endian encodings, two's-complement reinterpretation,
    and the space-delimited lower-case hex rendering used for raw keys. */
module Bytes {

  import opened Wrappers

  type Byte = x: int | 0 <= x < 256
  type Bytes = seq<Byte>

  /** The byte order of a multi-byte value. */
  datatype ByteOrder = LittleEndian | BigEndian

  function Pow256(n: nat): (r: nat)
    ensures r > 0
  {
    if n == 0 then 1 else 256 * Pow256(n - 1)
  }

  /** The unsigned value of `bs` read least significant byte first. */
  function LeValue(bs: Bytes): (r: nat)
    ensures r < Pow256(|bs|)
  {
    if |bs| == 0 then 0 else bs[0] + 256 * LeValue(bs[1..])
  }

  /** The `n` bytes of `v`, least significant first. */
  function LeBytes(v: nat, n: nat): (r: Bytes)
    requires v < Pow256(n)
    ensures |r| == n
  {
    if n == 0 then [] else [v % 256] + LeBytes(v / 256, n - 1)
  }

  lemma {:induction false} LeValueOfBytes(v: nat, n: nat)
    requires v < Pow256(n)
    ensures LeValue(LeBytes(v, n)) == v
  {
    if n > 0 {
      LeValueOfBytes(v / 256, n - 1);
      assert LeBytes(v, n)[1..] == LeBytes(v / 256, n - 1);
    }
  }

  lemma {:induction false} LeBytesOfValue(bs: Bytes)
    ensures LeBytes(LeValue(bs), |bs|) == bs
  {
    if |bs| > 0 {
      var rest := LeValue(bs[1..]);
      LeBytesOfValue(bs[1..]);
      ByteDigit(bs[0], rest);
      assert LeBytes(LeValue(bs), |bs|) == [bs[0]] + LeBytes(rest, |bs| - 1);
      assert bs == [bs[0]] + bs[1..];
    }
  }

  /** A byte below 256 times the rest is the last base-256 digit and the
      quotient. */
  lemma ByteDigit(b: Byte, rest: nat)
    ensures (b + 256 * rest) % 256 == b && (b + 256 * rest) / 256 == rest
  {
  }

  function Reverse<T>(s: seq<T>): (r: seq<T>)
    ensures |r| == |s|
    ensures forall i :: 0 <= i < |s| ==> r[i] == s[|s| - 1 - i]
  {
    if |s| == 0 then [] else Reverse(s[1..]) + [s[0]]
  }

  lemma ReverseReverse<T>(s: seq<T>)
    ensures Reverse(Reverse(s)) == s
  {
  }

  /** The `n` bytes of `v` in the given byte order. */
  function EncodeUnsigned(v: nat, n: nat, order: ByteOrder): (r: Bytes)
    requires v < Pow256(n)
    ensures |r| == n
  {
    if order == LittleEndian then LeBytes(v, n) else Reverse(LeBytes(v, n))
  }

  /** The unsigned value of `bs` read in the given byte order. */
  function DecodeUnsigned(bs: Bytes, order: ByteOrder): (r: nat)
    ensures r < Pow256(|bs|)
  {
    if order == LittleEndian then LeValue(bs) else LeValue(Reverse(bs))
  }

  lemma DecodeEncodeUnsigned(v: nat, n: nat, order: ByteOrder)
    requires v < Pow256(n)
    ensures DecodeUnsigned(EncodeUnsigned(v, n, order), order) == v
  {
    LeValueOfBytes(v, n);
    if order == BigEndian {
      ReverseReverse(LeBytes(v, n));
    }
  }

  /** Half the range of an `n`-byte integer: 2^(8n-1). */
  function Half(n: nat): (r: nat)
    requires n > 0
    ensures r > 0 && Pow256(n) == 2 * r
  {
    if n == 1 then 128 else 256 * Half(n - 1)
  }

  /** Smallest and largest values of an `n`-byte two's-complement integer. */
  function MinSigned(n: nat): int
    requires n > 0
  {
    -(Half(n) as int)
  }

  function MaxSigned(n: nat): int
    requires n > 0
  {
    Half(n) - 1
  }

  /** The two's-complement bit pattern of `v` on `n` bytes. */
  function FromSigned(v: int, n: nat): (r: nat)
    requires n > 0 && MinSigned(n) <= v <= MaxSigned(n)
    ensures r < Pow256(n)
    ensures v >= 0 <==> r < Half(n)
  {
    if v < 0 then v + 2 * Half(n) else v
  }

  /** The signed value of an `n`-byte two's-complement bit pattern. */
  function ToSigned(u: nat, n: nat): (r: int)
    requires n > 0 && u < Pow256(n)
    ensures MinSigned(n) <= r <= MaxSigned(n)
    ensures r >= 0 <==> u < Half(n)
  {
    if u >= Half(n) then u - 2 * Half(n) else u
  }

  lemma SignedRoundTrip(v: int, n: nat)
    requires n > 0 && MinSigned(n) <= v <= MaxSigned(n)
    ensures ToSigned(FromSigned(v, n), n) == v
  {
  }

  /** A JVM narrowing cast: keeps the low `n` bytes of `v`, read as signed
      (for example `Long.toInt()` is `Truncate(v, 4)`). */
  function Truncate(v: int, n: nat): (r: int)
    requires n > 0
    ensures MinSigned(n) <= r <= MaxSigned(n)
  {
    ToSigned(v % Pow256(n), n)
  }

  /** A value that already fits is unchanged by the cast. */
  lemma TruncateInRange(v: int, n: nat)
    requires n > 0 && MinSigned(n) <= v <= MaxSigned(n)
    ensures Truncate(v, n) == v
  {
    var m := Pow256(n);
    if v < 0 {
      ModShift(v, m);
    } else {
      ModSmall(v, m);
    }
  }

  lemma ModSmall(x: int, m: int)
    requires 0 <= x < m
    ensures x % m == x
  {
  }

  lemma ModShift(x: int, m: int)
    requires -m <= x < 0
    ensures x % m == x + m
  {
    ModSmall(x + m, m);
    assert (x + m) % m == x % m;
  }

  const INT_MIN: int := -0x8000_0000
  const INT_MAX: int := 0x7FFF_FFFF
  const LONG_MIN: int := -0x8000_0000_0000_0000
  const LONG_MAX: int := 0x7FFF_FFFF_FFFF_FFFF

  predicate IsInt(v: int) { INT_MIN <= v <= INT_MAX }
  predicate IsLong(v: int) { LONG_MIN <= v <= LONG_MAX }

  /** The widths of the JVM's integer types. */
  lemma Widths()
    ensures Pow256(1) == 0x100 && Pow256(2) == 0x1_0000 && Pow256(4) == 0x1_0000_0000
    ensures Pow256(8) == 0x1_0000_0000_0000_0000
    ensures MinSigned(4) == INT_MIN && MaxSigned(4) == INT_MAX
    ensures MinSigned(8) == LONG_MIN && MaxSigned(8) == LONG_MAX
  {
    assert Half(4) == 0x8000_0000;
    assert Half(8) == 0x8000_0000_0000_0000;
  }

  /** Little-endian signed integer fields, as SBE writes them. */
  function EncodeSignedLe(v: int, n: nat): (r: Bytes)
    requires n > 0 && MinSigned(n) <= v <= MaxSigned(n)
    ensures |r| == n
  {
    LeBytes(FromSigned(v, n), n)
  }

  function DecodeSignedLe(bs: Bytes): (r: int)
    requires |bs| > 0
    ensures MinSigned(|bs|) <= r <= MaxSigned(|bs|)
  {
    ToSigned(LeValue(bs), |bs|)
  }

  lemma SignedLeRoundTrip(v: int, n: nat)
    requires n > 0 && MinSigned(n) <= v <= MaxSigned(n)
    ensures DecodeSignedLe(EncodeSignedLe(v, n)) == v
  {
    LeValueOfBytes(FromSigned(v, n), n);
  }

  // ---------------------------------------------------------------------
  // Hex rendering
  // ---------------------------------------------------------------------

  function HexDigit(d: int): (c: char)
    requires 0 <= d < 16
    ensures '0' <= c <= '9' || 'a' <= c <= 'f'
  {
    if d < 10 then ('0' as int + d) as char else ('a' as int + d - 10) as char
  }

  function HexDigitValue(c: char): (r: Option<int>)
    ensures r.Some? ==> 0 <= r.value < 16
  {
    if '0' <= c <= '9' then Some(c as int - '0' as int)
    else if 'a' <= c <= 'f' then Some(c as int - 'a' as int + 10)
    else None
  }

  /** Two lower-case hex digits of one byte (`%02x`). */
  function HexByte(b: Byte): (s: string)
    ensures |s| == 2
  {
    [HexDigit(b / 16), HexDigit(b % 16)]
  }

  /** Every byte as two lower-case hex digits, separated by single spaces. */
  function Hex(bs: Bytes): (s: string)
    ensures |bs| == 0 ==> s == ""
    ensures |bs| > 0 ==> |s| == 3 * |bs| - 1
  {
    if |bs| == 0 then ""
    else if |bs| == 1 then HexByte(bs[0])
    else HexByte(bs[0]) + " " + Hex(bs[1..])
  }

  /** Reads back a space-delimited hex rendering. */
  function ParseHex(s: string): (r: Option<Bytes>)
    decreases |s|
  {
    if |s| == 0 then Some([])
    else if |s| < 2 then None
    else
      match (HexDigitValue(s[0]), HexDigitValue(s[1]))
      case (Some(hi), Some(lo)) =>
        if |s| == 2 then Some([hi * 16 + lo])
        else if s[2] != ' ' || |s| == 3 then None
        else
          (match ParseHex(s[3..])
           case Some(rest) => Some([hi * 16 + lo] + rest)
           case None => None)
      case _ => None
  }

  lemma HexDigitRoundTrip(d: int)
    requires 0 <= d < 16
    ensures HexDigitValue(HexDigit(d)) == Some(d)
  {
  }

  lemma {:induction false} ParseHexOfHex(bs: Bytes)
    ensures ParseHex(Hex(bs)) == Some(bs)
  {
    if |bs| > 0 {
      var b := bs[0];
      HexDigitRoundTrip(b / 16);
      HexDigitRoundTrip(b % 16);
      if |bs| > 1 {
        var s := Hex(bs);
        ParseHexOfHex(bs[1..]);
        assert s[3..] == Hex(bs[1..]);
        assert bs == [b] + bs[1..];
      } else {
        assert bs == [b];
      }
    }
  }

  // ---------------------------------------------------------------------
  // Byte-wise order (RocksDB's default comparator)
  // ---------------------------------------------------------------------

  /** Unsigned lexicographic "strictly less than"; a proper prefix is smaller. */
  predicate Less(a: Bytes, b: Bytes)
    decreases |a|
  {
    if |a| == 0 then |b| > 0
    else if |b| == 0 then false
    else a[0] < b[0] || (a[0] == b[0] && Less(a[1..], b[1..]))
  }

  lemma {:induction false} LessIrreflexive(a: Bytes)
    ensures !Less(a, a)
  {
    if |a| > 0 {
      LessIrreflexive(a[1..]);
    }
  }

  lemma {:induction false} LessTransitive(a: Bytes, b: Bytes, c: Bytes)
    requires Less(a, b) && Less(b, c)
    ensures Less(a, c)
    decreases |a|
  {
    if |a| > 0 && a[0] == b[0] && b[0] == c[0] {
      LessTransitive(a[1..], b[1..], c[1..]);
    }
  }

  lemma {:induction false} LessTotal(a: Bytes, b: Bytes)
    ensures a == b || Less(a, b) || Less(b, a)
    decreases |a|
  {
    if |a| > 0 && |b| > 0 && a[0] == b[0] {
      LessTotal(a[1..], b[1..]);
      if a[1..] == b[1..] {
        assert a == [a[0]] + a[1..] && b == [b[0]] + b[1..];
      }
    }
  }

  /** A key that starts with `p` is not below `p`. */
  lemma {:induction false} PrefixNotBelow(p: Bytes, k: Bytes)
    requires p <= k
    ensures !Less(k, p)
    decreases |p|
  {
    if |p| > 0 {
      PrefixNotBelow(p[1..], k[1..]);
    }
  }

  /** Keys that start with `p` are contiguous: anything strictly between two
      of them starts with `p` too. */
  lemma {:induction false} PrefixConvex(p: Bytes, a: Bytes, b: Bytes, c: Bytes)
    requires p <= a && p <= c && Less(a, b) && Less(b, c)
    ensures p <= b
    decreases |p|
  {
    if |p| > 0 {
      assert |b| > 0;
      assert b[0] == p[0];
      PrefixConvex(p[1..], a[1..], b[1..], c[1..]);
    }
  }

  /** A key at or above `p` that lacks the prefix is above every key that has it. */
  lemma {:induction false} PrefixBelowOutsider(p: Bytes, a: Bytes, b: Bytes)
    requires p <= a && !(p <= b) && !Less(b, p)
    ensures Less(a, b)
    decreases |p|
  {
    if |p| > 0 {
      assert |b| > 0;
      if b[0] == p[0] {
        PrefixBelowOutsider(p[1..], a[1..], b[1..]);
      }
    }
  }
}
