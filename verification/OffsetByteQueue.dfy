/** OffsetByteQueue: a ByteQueue addressed by absolute offsets into everything pushed. */
module OffsetByteQueues {
  import opened Bytes
  import opened ByteQueues

  lemma DropDrop(s: seq<byte>, a: nat, b: nat)
    requires a + b <= |s|
    ensures s[a..][b..] == s[a + b..]
  {
  }

  class OffsetByteQueue {
    const queue: ByteQueue
    // The view of the queue's bytes: a pointer, which may be null, as an array and an index, and a size.
    var buf: array?<byte>
    var bufAt: nat
    var size: nat
    var head: nat
    // Everything pushed since the last Reset.
    ghost var pushed: seq<byte>

    /** The view is that of the inner queue, which holds what was pushed from `head` on. */
    ghost predicate Valid()
      reads this, queue, queue.buffer
    {
      && queue.Valid()
      && size == queue.used
      && (if buf == null then size == 0 else buf == queue.buffer && bufAt == queue.offset)
      && head + size == |pushed|
      && queue.Contents() == pushed[head..]
    }

    function Tail(): nat
      reads this
    {
      head + size
    }

    constructor ()
      ensures Valid() && fresh(queue) && fresh(queue.buffer) && head == 0 && pushed == []
    {
      queue := new ByteQueue();
      buf, bufAt, size, head := null, 0, 0, 0;
      pushed := [];
    }

    method Reset()
      requires Valid()
      modifies this, queue
      ensures Valid() && queue.buffer == old(queue.buffer) && head == 0 && pushed == []
    {
      queue.Reset();
      buf, size, head := null, 0, 0;
      pushed := [];
    }

    method Push(data: seq<byte>)
      requires Valid() && |data| > 0 && size + |data| < INT_LIMIT
      modifies this, queue, queue.buffer
      ensures Valid() && (queue.buffer == old(queue.buffer) || fresh(queue.buffer))
      ensures head == old(head) && pushed == old(pushed) + data
    {
      queue.Push(data);
      pushed := pushed + data;
      assert pushed[head..] == old(pushed)[head..] + data;
      Sync();
    }

    method Peek() returns (data: array?<byte>, at: nat, n: nat)
      requires Valid()
      ensures n == |pushed| - head && (data == null <==> n == 0)
      ensures data != null ==> at + n <= data.Length && data[at..at + n] == pushed[head..]
    {
      return if size > 0 then buf else null, bufAt, size;
    }

    method Pop(count: nat)
      requires Valid() && count <= size
      modifies this, queue
      ensures Valid() && queue.buffer == old(queue.buffer)
      ensures head == old(head) + count && pushed == old(pushed)
    {
      queue.Pop(count);
      DropDrop(pushed, head, count);
      head := head + count;
      Sync();
    }

    /** The bytes pushed from the absolute offset on; none if it is not between head and tail. */
    method PeekAt(offset: int) returns (data: array?<byte>, at: nat, n: nat)
      requires Valid()
      ensures data != null <==> head <= offset < |pushed|
      ensures data != null ==> n == |pushed| - offset && at + n <= data.Length && data[at..at + n] == pushed[offset..]
      ensures data == null ==> n == 0
    {
      if offset < head || offset >= Tail() {
        return null, 0, 0;
      }
      data, at, n := buf, bufAt + (offset - head), Tail() - offset;
      SliceSlice(buf[..], bufAt, bufAt + size, offset - head, size);
      DropDrop(pushed, head, offset - head);
    }

    /** Drops the bytes before maxOffset; false if there are not that many. */
    method Trim(maxOffset: int) returns (all: bool)
      requires Valid()
      modifies this, queue
      ensures Valid() && queue.buffer == old(queue.buffer) && pushed == old(pushed)
      ensures all == (maxOffset <= |pushed|)
      ensures head == if maxOffset < old(head) then old(head) else if all then maxOffset else |pushed|
    {
      if maxOffset < head {
        return true;
      }
      if maxOffset > Tail() {
        Pop(size);
        return false;
      }
      Pop(maxOffset - head);
      return true;
    }

    /** Makes the view that of the inner queue. */
    method Sync()
      requires queue.Valid() && head + queue.used == |pushed| && queue.Contents() == pushed[head..]
      modifies this
      ensures Valid() && head == old(head) && pushed == old(pushed)
    {
      buf, bufAt, size := queue.Peek();
    }
  }
}
