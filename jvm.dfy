/** The few pieces of the Java runtime that the frame analyzer relies on:
    the exceptions its calls can raise, and java.nio.ByteBuffer as seen
    through the two operations the analyzer uses on an image plane. */
module Jvm {

  type byte = bv8

  /** The exceptions that can escape from the analyzer's own code. */
  datatype JavaException =
    | AssertionError      // a Kotlin `assert` that failed while JVM assertions are on
    | BufferUnderflow     // ByteBuffer.get asked for more bytes than remain
    | IndexOutOfBounds    // ByteBuffer.get asked to write outside the destination array
    | IllegalArgument     // ByteBuffer.position out of [0, limit], or Bitmap.createBitmap with a zero side
    | OpenCvError         // org.opencv.core.CvException: an OpenCV kernel handed a Mat it refuses (here: a non-colour input to RGBA2GRAY)

  /** The exceptions java.nio.ByteBuffer's get and position throw. */
  predicate FromByteBuffer(e: JavaException)
  {
    e.BufferUnderflow? || e.IndexOutOfBounds? || e.IllegalArgument?
  }

  datatype Option<T> = None | Some(value: T)

  /** The outcome of a call that either returns a value or throws. */
  datatype Result<T> = Ok(value: T) | Err(error: JavaException)

  /** Kotlin's `ByteArray(n)`: every element starts at zero. */
  function Zeros(n: nat): (z: seq<byte>)
    ensures |z| == n
  {
    seq(n, _ => 0)
  }

  /** A read-only java.nio.ByteBuffer over the bytes of one image plane.
      Its limit is the number of bytes; only the read position moves. */
  class ByteBuffer {
    const bytes: seq<byte>
    var position: int

    ghost predicate Valid()
      reads this
    {
      0 <= position <= |bytes|
    }

    /** A buffer positioned at its first byte, as Image.Plane.getBuffer hands it out. */
    constructor (bytes: seq<byte>)
      ensures Valid()
      ensures this.bytes == bytes && position == 0
    {
      this.bytes := bytes;
      position := 0;
    }

    function Remaining(): (n: int)
      reads this
      requires Valid()
      ensures 0 <= n <= |bytes| && position + n == |bytes|
    {
      |bytes| - position
    }

    /** ByteBuffer.get(dst, offset, length): bulk relative read. The destination
        range is checked first, then the bytes remaining; a failed call changes nothing. */
    method Get(dst: array<byte>, offset: int, length: int) returns (err: Option<JavaException>)
      requires Valid()
      modifies this, dst
      ensures Valid()
      ensures err == if offset < 0 || length < 0 || offset + length > dst.Length then Some(IndexOutOfBounds)
                     else if length > old(Remaining()) then Some(BufferUnderflow)
                     else None
      ensures err.None? ==> position == old(position) + length
      ensures err.None? ==> dst[..] == old(dst[..])[..offset] + bytes[old(position)..old(position) + length]
                                       + old(dst[..])[offset + length..]
      ensures err.Some? ==> position == old(position) && dst[..] == old(dst[..])
    {
      if offset < 0 || length < 0 || offset + length > dst.Length {
        return Some(IndexOutOfBounds);
      }
      if length > |bytes| - position {
        return Some(BufferUnderflow);
      }
      ghost var before := dst[..];
      forall k | offset <= k < offset + length {
        dst[k] := bytes[position + k - offset];
      }
      assert dst[..] == before[..offset] + bytes[position..position + length] + before[offset + length..];
      position := position + length;
      err := None;
    }

    /** ByteBuffer.position(newPosition): moves the read position, which must stay
        within [0, limit]. */
    method SetPosition(newPosition: int) returns (err: Option<JavaException>)
      requires Valid()
      modifies this
      ensures Valid()
      ensures err == if newPosition < 0 || newPosition > |bytes| then Some(IllegalArgument) else None
      ensures position == if err.None? then newPosition else old(position)
    {
      if newPosition < 0 || newPosition > |bytes| {
        return Some(IllegalArgument);
      }
      position := newPosition;
      err := None;
    }
  }
}
