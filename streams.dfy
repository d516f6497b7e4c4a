/** A `MemoryStream`: a growable byte buffer with a read/write position. */
module Streams {

  newtype byte = x: int | 0 <= x < 256

  /**
   * The buffer after writing `bytes` at position `pos`: a gap past the end is
   * filled with zeros, the written bytes overwrite what was there, and whatever
   * lies beyond them is kept.
   */
  function Overwrite(data: seq<byte>, pos: nat, bytes: seq<byte>): (r: seq<byte>)
    ensures |r| == if pos + |bytes| <= |data| then |data| else pos + |bytes|
    ensures r[pos..pos + |bytes|] == bytes
    ensures forall i :: 0 <= i < pos && i < |data| ==> r[i] == data[i]
    ensures forall i :: pos + |bytes| <= i < |data| ==> r[i] == data[i]
  {
    var front := if pos <= |data| then data[..pos] else data + seq(pos - |data|, _ => 0 as byte);
    var back := if pos + |bytes| <= |data| then data[pos + |bytes|..] else [];
    assert (front + bytes + back)[pos..pos + |bytes|] == bytes;
    front + bytes + back
  }

  class MemoryStream {
    var data: seq<byte>
    var position: nat

    constructor ()
      ensures data == [] && position == 0
    {
      data := [];
      position := 0;
    }

    /** The bytes from the position to the end. */
    function Remaining(): seq<byte>
      reads this
    {
      if position <= |data| then data[position..] else []
    }

    /** `Write` / `CopyTo` into the stream: writes at the position and moves past what was written. */
    method Write(bytes: seq<byte>)
      modifies this
      ensures data == Overwrite(old(data), old(position), bytes)
      ensures position == old(position) + |bytes|
    {
      data := Overwrite(data, position, bytes);
      position := position + |bytes|;
    }

    /** `Position = position`. */
    method Seek(position: nat)
      modifies this
      ensures this.position == position && data == old(data)
    {
      this.position := position;
    }

    /**
     * `Read(buffer, offset, count)`: copies up to `count` bytes from the position
     * into `buffer` at `offset`, moves the position past them and returns how many
     * were copied; a `MemoryStream` copies all that are available.
     */
    method Read(buffer: array<byte>, offset: nat, count: nat) returns (n: nat)
      requires offset + count <= buffer.Length
      modifies this, buffer
      ensures n == if count <= |old(Remaining())| then count else |old(Remaining())|
      ensures buffer[offset..offset + n] == old(Remaining())[..n]
      ensures forall i :: 0 <= i < buffer.Length && !(offset <= i < offset + n) ==> buffer[i] == old(buffer[i])
      ensures data == old(data) && position == old(position) + n
    {
      var rest := Remaining();
      n := if count <= |rest| then count else |rest|;
      var k := 0;
      while k < n
        modifies buffer
        invariant 0 <= k <= n
        invariant buffer[offset..offset + k] == rest[..k]
        invariant forall i :: 0 <= i < buffer.Length && !(offset <= i < offset + k) ==> buffer[i] == old(buffer[i])
      {
        buffer[offset + k] := rest[k];
        k := k + 1;
      }
      position := position + n;
    }
  }
}
