/**
 * The part of `java.nio.ByteBuffer` the encoder relies on: a buffer of fixed
 * capacity, a write position, relative `put` of one octet and of a big-endian
 * `long`, and the copy of the written prefix into a fresh array.
 */
module ByteBuffers {
  import opened Bytes

  class ByteBuffer {
    /** The backing store; its length is the capacity given to `allocate`. */
    const data: array<Byte>
    /** The position: how many octets have been written so far. */
    var pos: nat

    ghost predicate Valid()
      reads this
    {
      pos <= data.Length
    }

    /** The octets written so far, in order. */
    function Written(): (w: seq<Byte>)
      reads this, data
      requires Valid()
      ensures |w| == pos
    {
      data[..pos]
    }

    /** `ByteBuffer.allocate(capacity)`: an empty buffer of the given capacity. */
    constructor Allocate(capacity: nat)
      ensures Valid() && fresh(data)
      ensures data.Length == capacity && Written() == []
    {
      data := new Byte[capacity];
      pos := 0;
    }

    /** `put(byte)`: appends one octet; only called while there is room. */
    method Put(b: Byte)
      requires Valid() && pos < data.Length
      modifies this, data
      ensures Valid()
      ensures Written() == old(Written()) + [b]
    {
      data[pos] := b;
      pos := pos + 1;
    }

    /** `putLong(v)` in big-endian order: appends the 8 octets of the 64-bit pattern `v`. */
    method PutLong(v: nat)
      requires Valid() && v < TWO_64 && pos + 8 <= data.Length
      modifies this, data
      ensures Valid()
      ensures Written() == old(Written()) + BigEndian(v, 8)
    {
      var octets := BigEndian(v, 8);
      for i := 0 to 8
        invariant Valid() && pos == old(pos) + i
        invariant Written() == old(Written()) + octets[..i]
      {
        Put(octets[i]);
        assert octets[..i + 1] == octets[..i] + [octets[i]];
      }
    }

    /**
     * `byteBufferToArray`: rewinds and reads back the written prefix into a new
     * array whose length is the position. The rewind is undone by the read, so
     * the position ends where it started.
     */
    method ToArray() returns (bytes: array<Byte>)
      requires Valid()
      ensures fresh(bytes)
      ensures bytes[..] == Written()
    {
      bytes := new Byte[pos];
      var i := 0;
      while i < bytes.Length
        invariant 0 <= i <= bytes.Length == pos
        invariant bytes[..i] == data[..i]
      {
        bytes[i] := data[i];
        i := i + 1;
      }
    }
  }
}
