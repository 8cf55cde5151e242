/**
 The part of a heap `java.nio.ByteBuffer` the decoder reads: its backing array
 (what `array()` returns), the offset of the buffer inside that array, and its
 position and limit.
 */
module Buffers {
  import opened JavaTypes

  datatype ByteBuffer = ByteBuffer(backing: seq<Byte>, arrayOffset: nat, position: nat, limit: nat)
  {
    /** The invariants `java.nio` keeps for a heap buffer: position <= limit,
        and the buffer's window lies inside its backing array. */
    predicate Valid()
    {
      position <= limit && arrayOffset + limit <= |backing|
    }

    /** `remaining()`: the number of bytes between position and limit. */
    function Remaining(): (n: nat)
      requires Valid()
      ensures position + n == limit
    {
      limit - position
    }
  }

  /** Every buffer a packet can carry satisfies the `java.nio` invariants. */
  type HeapBuffer = b: ByteBuffer | b.Valid() witness ByteBuffer([], 0, 0, 0)

  /** The bytes from `position` up to `limit`, read from the backing array
      starting at `arrayOffset() + position()`, in order. */
  function Payload(b: HeapBuffer): (bytes: seq<Byte>)
    ensures |bytes| == b.Remaining()
    ensures forall i :: 0 <= i < |bytes| ==> bytes[i] == b.backing[b.arrayOffset + b.position + i]
  {
    b.backing[b.arrayOffset + b.position .. b.arrayOffset + b.limit]
  }
}
