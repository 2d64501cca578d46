/** BufferReader: a cursor over a fixed byte buffer. */
module BufferReaders {
  import opened Bytes
  import opened Options
  import opened BufferCodec

  // ---------------------------------------------------------------- accumulating bytes in a machine integer

  /** Conversion to an integer type of `size` bytes: reduction modulo 2^(8 * size). */
  function Wrap(size: nat, signed: bool, x: int): int
    requires size > 0
  {
    var m := x % Pow256(size);
    if signed && m >= Half(size) then m - Pow256(size) else m
  }

  /** What the accumulator of an n-byte read holds after the bytes `pre`. */
  function Accumulated(size: nat, signed: bool, n: nat, pre: seq<byte>): int
    requires pre != []
  {
    DecodeInt(signed && (n < size || |pre| == size), pre)
  }

  lemma {:induction false} PowMonotone(a: nat, b: nat)
    requires a <= b
    ensures Pow256(a) <= Pow256(b)
    decreases b
  {
    if a < b {
      PowMonotone(a, b - 1);
    }
  }

  lemma WrapFits(size: nat, signed: bool, v: int)
    requires size > 0 && Fits(v, signed, size)
    ensures Wrap(size, signed, v) == v
  {
    if v >= 0 {
      SmallMod(v, Pow256(size));
    } else {
      ModUnique(v, Pow256(size), -1, v + Pow256(size));
    }
  }

  lemma FitsWider(v: int, signed: bool, a: nat, b: nat)
    requires 0 < a <= b && Fits(v, signed, a)
    ensures Fits(v, signed, b)
    ensures a < b && !signed ==> Fits(v, true, b)
  {
    PowMonotone(a, b);
    PowMonotone(a - 1, b - 1);
    if a < b {
      PowMonotone(a, b - 1);
    }
  }

  /** A further byte shifts the value up, whatever its sign. */
  lemma DecodeNext(signed: bool, pre: seq<byte>, b: byte)
    requires pre != []
    ensures DecodeInt(signed, pre + [b]) == DecodeInt(signed, pre) * 256 + b
  {
    assert (pre + [b])[..|pre|] == pre;
  }

  lemma AccumulateNext(size: nat, signed: bool, n: nat, pre: seq<byte>, b: byte)
    requires 0 < |pre| < n <= size
    ensures Wrap(size, signed, Accumulated(size, signed, n, pre) * 256 + b) == Accumulated(size, signed, n, pre + [b])
  {
    hide DecodeInt, Fits, Wrap;
    var s := pre + [b];
    var ext := signed && n < size;
    DecodeNext(ext, pre, b);
    var v := DecodeInt(ext, s);
    DecodeFits(ext, s);
    if signed && !ext && |s| == size {
      FullWidth(size, s);
    } else {
      FitsWider(v, ext, |s|, size);
      WrapFits(size, signed, v);
    }
  }

  /** All bytes of a signed type, accumulated without regard to the sign, wrap to the signed value. */
  lemma FullWidth(size: nat, s: seq<byte>)
    requires |s| == size > 0
    ensures Wrap(size, true, DecodeInt(false, s)) == DecodeInt(true, s)
  {
    SignBit(s);
    SmallMod(FromBE(s), Pow256(size));
  }

  lemma FirstByte(b: byte)
    ensures DecodeInt(false, [b]) == b && DecodeInt(true, [b]) == if b >= 128 then b - 256 else b as int
  {
    assert FromBE([b][..0]) == 0 && Pow256(1) == 256;
  }

  // ---------------------------------------------------------------- the reader

  class BufferReader {
    const buf: seq<byte>
    var pos: nat

    ghost predicate Valid()
      reads this
    {
      pos <= |buf|
    }

    /** The bytes not read yet. */
    ghost function Rest(): seq<byte>
      requires Valid()
      reads this
    {
      buf[pos..]
    }

    constructor (buf: seq<byte>)
      ensures Valid() && this.buf == buf && pos == 0 && Rest() == buf
    {
      this.buf := buf;
      pos := 0;
    }

    predicate HasBytes(count: nat)
      reads this
    {
      pos + count <= |buf|
    }

    /** Read1. */
    method Read1() returns (ok: bool, v: byte)
      requires Valid()
      modifies this
      ensures Valid() && ok == (|old(Rest())| >= 1)
      ensures if ok then [v] + Rest() == old(Rest()) else pos == old(pos)
    {
      if !HasBytes(1) {
        return false, 0;
      }
      v := buf[pos];
      pos := pos + 1;
      ok := true;
    }

    /** Read2, Read2s, Read4, Read4s, Read8, Read8s, ReadNBytesInto8 and ReadNBytesInto8s: reads numBytes
        bytes into an integer type of `size` bytes. A read of no bytes takes one all the same, without asking
        whether it is there. */
    method ReadNBytes(size: nat, signed: bool, numBytes: nat) returns (ok: bool, v: int)
      requires Valid()
      requires size == 2 || size == 4 || size == 8
      requires numBytes <= size && (numBytes == 0 ==> HasBytes(1))
      modifies this
      ensures Valid()
      ensures numBytes > 0 ==>
                && Decode(NumberKind(signed, numBytes), old(Rest()))
                   == (if ok then Some((Number(v, signed, numBytes), Rest())) else None)
                && pos == old(pos) + if ok then numBytes else 0
      ensures numBytes == 0 ==> ok && v == DecodeInt(signed, old(Rest())[..1]) && pos == old(pos) + 1
    {
      hide DecodeInt, Wrap;
      if !HasBytes(numBytes) {
        return false, 0;
      }
      ghost var s := Rest();
      var signExtension := numBytes < size && signed;
      FirstByte(buf[pos]);
      var tmp: int := buf[pos];
      if signExtension && tmp >= 128 {
        tmp := tmp - 256;
      }
      pos := pos + 1;
      assert s[..1] == [s[0]];
      var i: nat := 1;
      while i < numBytes
        invariant 1 <= i && (i == 1 || i <= numBytes) && pos == old(pos) + i && Valid()
        invariant tmp == Accumulated(size, signed, numBytes, s[..i])
      {
        AccumulateNext(size, signed, numBytes, s[..i], s[i]);
        assert s[..i + 1] == s[..i] + [s[i]];
        tmp := Wrap(size, signed, tmp * 256 + buf[pos]);
        pos := pos + 1;
        i := i + 1;
      }
      v := tmp;
      ok := true;
    }

    method Read4() returns (ok: bool, v: nat)
      requires Valid()
      modifies this
      ensures Valid() && pos == old(pos) + if ok then 4 else 0
      ensures ok == (|old(Rest())| >= 4)
      ensures ok ==> v == FromBE(old(Rest())[..4]) && Rest() == old(Rest())[4..]
    {
      var value;
      ok, value := ReadNBytes(4, false, 4);
      v := if ok then value else 0;
    }

    /** ReadToVector and ReadToString. */
    method ReadToVector(count: nat) returns (ok: bool, v: seq<byte>)
      requires Valid()
      modifies this
      ensures Valid()
      ensures Decode(VectorKind(count), old(Rest())) == if ok then Some((Vector(v), Rest())) else None
      ensures pos == old(pos) + if ok then count else 0
    {
      if !HasBytes(count) {
        return false, [];
      }
      v := buf[pos..pos + count];
      pos := pos + count;
      assert v == old(Rest())[..count] && Rest() == old(Rest())[count..];
      ok := true;
    }

    method SkipBytes(numBytes: nat) returns (ok: bool)
      requires Valid()
      modifies this
      ensures Valid()
      ensures ok == (numBytes <= |old(Rest())|)
      ensures pos == old(pos) + if ok then numBytes else 0
    {
      if !HasBytes(numBytes) {
        return false;
      }
      pos := pos + numBytes;
      ok := true;
    }
  }
}
