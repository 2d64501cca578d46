/** ByteQueue: a queue of bytes in a buffer that is compacted and grown as needed. */
module ByteQueues {
  import opened Bytes

  const DEFAULT_QUEUE_SIZE: nat := 1024
  const INT_LIMIT: nat := 0x8000_0000

  /** `size` is `was` doubled, and doubled again only as long as it was not enough. */
  ghost predicate Doubled(was: nat, size: nat, needed: nat) {
    needed <= size && (size == 2 * was || size < 2 * needed)
  }

  /** Doubles the size, in 64-bit arithmetic, until it is enough. */
  method LargerSize(size: nat, needed: nat) returns (newSize: nat)
    requires 0 < size < needed < INT_LIMIT
    ensures size < newSize <= 2 * INT_LIMIT && Doubled(size, newSize, needed)
  {
    newSize := 2 * size % TWO_64;
    ghost var half := size;
    while needed > newSize && newSize > size
      invariant newSize == 2 * half && size <= half < INT_LIMIT && (half == size || half < needed)
      decreases needed - newSize
    {
      half := newSize;
      newSize := newSize * 2 % TWO_64;
    }
  }

  class ByteQueue {
    var buffer: array<byte>
    var offset: nat
    var used: nat

    ghost predicate Valid()
      reads this
    {
      && offset + used <= buffer.Length && used < INT_LIMIT
      && offset < buffer.Length
      && DEFAULT_QUEUE_SIZE <= buffer.Length <= 2 * INT_LIMIT
    }

    ghost function Contents(): (s: seq<byte>)
      requires Valid()
      reads this, buffer
      ensures |s| == used
    {
      buffer[offset..offset + used]
    }

    constructor ()
      ensures Valid() && fresh(buffer) && Contents() == [] && buffer.Length == 1024
    {
      buffer := new byte[DEFAULT_QUEUE_SIZE];
      offset := 0;
      used := 0;
    }

    method Reset()
      requires Valid()
      modifies this
      ensures Valid() && buffer == old(buffer) && Contents() == []
    {
      offset := 0;
      used := 0;
    }

    /** Appends data, whose bytes are not in the queue's own buffer. */
    method Push(data: seq<byte>)
      requires Valid() && |data| > 0 && used + |data| < INT_LIMIT
      modifies this, buffer
      ensures Valid() && Contents() == old(Contents()) + data
      ensures if old(used) + |data| <= old(buffer.Length) then buffer == old(buffer) else fresh(buffer)
      ensures fresh(buffer) ==> Doubled(old(buffer.Length), buffer.Length, used)
    {
      var needed := used + |data|;
      if needed > buffer.Length {
        Grow(needed);
      } else if offset + used + |data| > buffer.Length {
        ghost var was := Contents();
        Store(buffer, 0, buffer[offset..offset + used]);
        SpliceRead(old(buffer[..]), 0, was);
        offset := 0;
        assert buffer[..used] == was;
      }
      Append(data);
    }

    /** Moves the queue to the start of a buffer of twice the size, or twice that, and so on. */
    method Grow(needed: nat)
      requires Valid() && buffer.Length < needed < INT_LIMIT
      modifies this
      ensures Valid() && fresh(buffer) && offset == 0 && needed <= buffer.Length
      ensures used == old(used) && Contents() == old(Contents())
      ensures Doubled(old(buffer.Length), buffer.Length, needed)
    {
      var newSize := LargerSize(buffer.Length, needed);
      assert newSize > buffer.Length;
      ghost var was := Contents();
      var newBuffer := new byte[newSize];
      ghost var blank := newBuffer[..];
      if used > 0 {
        Store(newBuffer, 0, buffer[offset..offset + used]);
        SpliceRead(blank, 0, was);
      }
      assert newBuffer[..used] == was;
      buffer := newBuffer;
      offset := 0;
    }

    method Append(data: seq<byte>)
      requires Valid() && offset + used + |data| <= buffer.Length && 0 < |data| && used + |data| < INT_LIMIT
      modifies this, buffer
      ensures Valid() && buffer == old(buffer)
      ensures Contents() == old(Contents()) + data
    {
      hide Splice;
      ghost var before := buffer[..];
      var at := offset + used;
      Store(buffer, at, data);
      SpliceRead(before, at, data);
      Extended(before, offset, at, buffer[..], data);
      used := used + |data|;
    }

    /** A view of the bytes in the queue: where they start, and how many there are. */
    method Peek() returns (data: array<byte>, at: nat, size: nat)
      requires Valid()
      ensures data == buffer && at == offset && size == used && data[at..at + size] == Contents()
    {
      return buffer, offset, used;
    }

    method Pop(count: nat)
      requires Valid() && count <= used
      modifies this
      ensures Valid() && buffer == old(buffer)
      ensures Contents() == old(Contents())[count..]
    {
      offset := offset + count;
      used := used - count;
      if offset == buffer.Length {
        assert used == 0;
        offset := 0;
      }
    }
  }

  lemma Extended(before: seq<byte>, from: nat, at: nat, after: seq<byte>, data: seq<byte>)
    requires from <= at && at + |data| <= |before| == |after|
    requires after[..at] == before[..at] && after[at..at + |data|] == data
    ensures after[from..at + |data|] == before[from..at] + data
  {
    assert after[from..at] == after[..at][from..] == before[from..at];
    assert after[from..at + |data|] == after[from..at] + after[at..at + |data|];
  }
}
