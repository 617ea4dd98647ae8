/** The version byte in front of every journal frame. A zero version marks
    the end of the written part of a segment. */
module FrameUtil {

  import opened Wrappers
  import opened Bytes

  /** The version value that means "nothing written here". */
  const IGNORE: int := 0
  /** The version is one byte long. */
  const LENGTH: nat := 1

  /** A `ByteBuffer`: its content up to the capacity, a position and a
      limit, with position <= limit <= capacity. */
  datatype Buffer = Buffer(content: Bytes, position: nat, limit: nat)

  predicate ValidBuffer(b: Buffer) {
    b.position <= b.limit <= |b.content|
  }

  function Capacity(b: Buffer): nat {
    |b.content|
  }

  /** `hasValidVersion`: no room before the capacity for a version byte at
      the position means no valid version; otherwise the absolute
      `get(position)` reads the byte, which throws at or past the limit, and
      the version is valid when it is not `IGNORE`. The buffer is not
      changed. */
  function HasValidVersion(b: Buffer): (r: Result<bool>)
    requires ValidBuffer(b)
    ensures Capacity(b) < b.position + LENGTH ==> r == Ok(false)
    ensures r.Throws? <==> b.limit <= b.position < Capacity(b)
    ensures r.Throws? ==> r.error == IndexOutOfBounds
  {
    if Capacity(b) < b.position + LENGTH then Ok(false)
    else if b.limit <= b.position then Throws(IndexOutOfBounds)
    else Ok(b.content[b.position] != IGNORE)
  }

  /** `readVersion`: the byte at the position as a signed Java byte, with the
      position advanced by one; at the limit the relative `get()` underflows. */
  function ReadVersion(b: Buffer): (r: Result<(int, Buffer)>)
    requires ValidBuffer(b)
    ensures r.Ok? <==> b.position < b.limit
    ensures r.Ok? ==> ValidBuffer(r.value.1)
                      && r.value.1 == b.(position := b.position + 1)
                      && MinSigned(1) <= r.value.0 <= MaxSigned(1)
                      && FromSigned(r.value.0, 1) == b.content[b.position]
    ensures r.Throws? ==> r.error == BufferUnderflow
  {
    if b.position < b.limit then
      Ok((ToSigned(b.content[b.position], 1), b.(position := b.position + 1)))
    else
      Throws(BufferUnderflow)
  }

  /** A version is valid exactly when reading it succeeds and yields a
      non-zero version; the check itself leaves the position where it was, so
      the read that follows sees the same byte. */
  lemma ValidVersionIsReadable(b: Buffer)
    requires ValidBuffer(b)
    ensures HasValidVersion(b) == Ok(true) <==> ReadVersion(b).Ok? && ReadVersion(b).value.0 != IGNORE
  {
  }
}
