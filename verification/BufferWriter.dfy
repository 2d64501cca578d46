/** BufferWriter: a growing byte buffer. */
module BufferWriters {
  import opened Bytes
  import opened BufferCodec

  class BufferWriter {
    var buf: seq<byte>

    constructor ()
      ensures buf == []
    {
      buf := [];
    }

    /** The overloads of AppendInt: `size` is the width of the argument's type. */
    method AppendInt(v: int, size: nat)
      requires size == 1 || size == 2 || size == 4 || size == 8
      requires Fits(v, false, size) || (size > 1 && Fits(v, true, size))
      modifies this
      ensures buf == old(buf) + EncodeInt(v, size)
    {
      AppendArray(EncodeInt(v, size));
    }

    method AppendNBytes(v: nat, numBytes: nat)
      requires v < TWO_64 && numBytes <= 8
      modifies this
      ensures forall w: int | w % TWO_64 == v :: buf == old(buf) + EncodeInt(w, numBytes)
    {
      hide EncodeInt, ToBE;
      var data := ToBE(v, 8);
      forall w: int | w % TWO_64 == v
        ensures data[8 - numBytes..] == EncodeInt(w, numBytes)
      {
        LastBytesOf64(w, numBytes);
      }
      AppendArray(data[8 - numBytes..]);
    }

    method AppendVector(v: seq<byte>)
      modifies this
      ensures buf == old(buf) + Encode(Vector(v))
    {
      buf := buf + v;
    }

    method AppendArray(data: seq<byte>)
      modifies this
      ensures buf == old(buf) + data
    {
      buf := buf + data;
    }
  }
}
