/** Counter mode, section 6.5 of NIST SP 800-38A, with the CENC rule that only the low 64 bits of
    the counter block count. */
module Ctr {
  import opened Bytes
  import opened Cbc

  /** The j-th counter block after `start`: the low 8 bytes run modulo 2^64, the high 8 stay. */
  function CounterBlock(start: Block, j: nat): (b: Block)
  {
    start[..8] + AddBE(start[8..], j)
  }

  function KeyByte(c: Cipher, start: Block, k: nat): byte {
    c.enc(CounterBlock(start, k / 16))[k % 16]
  }

  function KeyStream(c: Cipher, start: Block, pos: nat, n: nat): (ks: seq<byte>)
    ensures |ks| == n
  {
    seq<byte>(n, i requires 0 <= i < n => KeyByte(c, start, pos + i))
  }

  /** The text at stream positions pos, pos + 1, ... masked by the key stream. */
  function CtrCrypt(c: Cipher, start: Block, pos: nat, text: seq<byte>): (r: seq<byte>)
    ensures |r| == |text|
  {
    Xor(text, KeyStream(c, start, pos, |text|))
  }

  lemma CtrCryptByte(c: Cipher, start: Block, pos: nat, text: seq<byte>, i: nat)
    requires i < |text|
    ensures CtrCrypt(c, start, pos, text)[i] == XorByte(text[i], KeyByte(c, start, pos + i))
  {
    hide XorByte, KeyByte;
  }

  lemma CounterBlockZero(start: Block)
    ensures CounterBlock(start, 0) == start
  {
    AddBEZero(start[8..]);
    assert start == start[..8] + start[8..];
  }

  lemma CounterBlockLow(start: Block, j: nat)
    ensures FromBE(CounterBlock(start, j)[8..]) == (FromBE(start[8..]) + j) % TWO_64
  {
    Pow256Of8();
    AddBEValue(start[8..], j);
    assert CounterBlock(start, j)[8..] == AddBE(start[8..], j);
  }

  /** One 64-bit increment leads from each counter block to the next. */
  lemma CounterBlockNext(start: Block, j: nat)
    ensures var b := CounterBlock(start, j);
            b[..8] + AddBE(b[8..], 1) == CounterBlock(start, j + 1)
  {
    AddBEAdd(start[8..], j, 1);
    assert CounterBlock(start, j)[8..] == AddBE(start[8..], j);
  }

  lemma CtrInvolution(c: Cipher, start: Block, pos: nat, text: seq<byte>)
    ensures CtrCrypt(c, start, pos, CtrCrypt(c, start, pos, text)) == text
  {
    XorCancel(text, KeyStream(c, start, pos, |text|));
  }

  lemma CtrAppend(c: Cipher, start: Block, pos: nat, a: seq<byte>, b: seq<byte>)
    ensures CtrCrypt(c, start, pos, a + b)
            == CtrCrypt(c, start, pos, a) + CtrCrypt(c, start, pos + |a|, b)
  {
    var ks, ks' := KeyStream(c, start, pos, |a|), KeyStream(c, start, pos + |a|, |b|);
    assert KeyStream(c, start, pos, |a + b|) == ks + ks';
    XorConcat(a, ks, b, ks');
  }

  // ---------------------------------------------------------------- block by block and byte by byte

  /** Each block is masked by the encryption of its counter block. */
  lemma CtrBlock(c: Cipher, start: Block, j: nat, b: Block)
    ensures CtrCrypt(c, start, 16 * j, b) == Xor(b, c.enc(CounterBlock(start, j)))
  {
    hide CounterBlock;
    var key := c.enc(CounterBlock(start, j));
    forall i | 0 <= i < 16
      ensures KeyStream(c, start, 16 * j, 16)[i] == key[i]
    {
      ModUnique(16 * j + i, 16, j, i);
      assert KeyStream(c, start, 16 * j, 16)[i] == KeyByte(c, start, 16 * j + i);
    }
    assert KeyStream(c, start, 16 * j, 16) == key;
  }

  /** A counter block is known by its high half and the number its low half stands for. */
  lemma CounterBlockIs(start: Block, j: nat, ctr: Block)
    requires ctr[..8] == start[..8] && FromBE(ctr[8..]) == (FromBE(start[8..]) + j) % TWO_64
    ensures ctr == CounterBlock(start, j)
  {
    hide FromBE, AddBE;
    var b := CounterBlock(start, j);
    CounterBlockLow(start, j);
    assert b[..8] == start[..8];
    SameNumber(ctr[8..], b[8..]);
    assert ctr == ctr[..8] + ctr[8..] && b == b[..8] + b[8..];
  }

  /** Byte k of a stream that starts at `start` is masked by byte k % 16 of the encrypted block that has the
      start's high half and, in its low half, the start's number plus k / 16. */
  lemma CtrByte(c: Cipher, start: Block, text: seq<byte>, k: nat, ctr: Block)
    requires k < |text|
    requires ctr[..8] == start[..8] && FromBE(ctr[8..]) == (FromBE(start[8..]) + k / 16) % TWO_64
    ensures CtrCrypt(c, start, 0, text)[k] == XorByte(text[k], c.enc(ctr)[k % 16])
  {
    CounterBlockIs(start, k / 16, ctr);
    CtrCryptByte(c, start, 0, text, k);
  }
}
