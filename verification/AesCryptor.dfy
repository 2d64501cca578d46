/** AesCryptor and its leaf classes. The virtual overrides are selected by `kind`. */
module AesCryptors {
  import opened Bytes
  import opened Cbc
  import opened Ctr
  import opened CryptStream

  /** AES_cbc_encrypt: reads its input before it writes, and hands back the new chaining value. */
  method AesCbc(c: Cipher, decrypt: bool, text: seq<byte>, dst: array<byte>, d: nat, ivec: Block)
    returns (ivec': Block)
    requires Whole(text) && d + |text| <= dst.Length
    modifies dst
    ensures dst[..] == Splice(old(dst[..]), d, if decrypt then CbcDecrypt(c, ivec, text) else CbcEncrypt(c, ivec, text))
    ensures ivec' == LastBlock(ivec, if decrypt then text else CbcEncrypt(c, ivec, text))
  {
    var out := if decrypt then CbcDecrypt(c, ivec, text) else CbcEncrypt(c, ivec, text);
    Store(dst, d, out);
    ivec' := LastBlock(ivec, if decrypt then text else out);
  }

  /** Increments an 8-byte counter, reporting whether it wrapped around to zero. */
  method Increment64(c: seq<byte>) returns (r: seq<byte>, overflow: bool)
    requires |c| == 8
    ensures r == AddBE(c, 1)
    ensures overflow <==> r == Zeros(8)
  {
    hide AddBE;
    r := c;
    var i := 7;
    ghost var sum := AddBE(c, 1);
    assert c[..8] == c && AddBE(c[..8], 1) + [] == sum;
    while i >= 0
      invariant -1 <= i <= 7 && |r| == 8
      invariant r[..i + 1] == c[..i + 1]
      invariant sum == AddBE(c[..i + 1], 1) + r[i + 1..]
      invariant r[i + 1..] == Zeros(7 - i)
    {
      var x := r[i] as int + 1;
      IncrementDigit(c, r, i, sum);
      r := r[i := x % 256];
      if r[i] != 0 {
        assert Zeros(8)[i] == 0;
        return r, false;
      }
      i := i - 1;
    }
    return r, true;
  }

  /** One digit of the increment: either the carry stops here or it moves on. */
  lemma IncrementDigit(c: seq<byte>, r: seq<byte>, i: nat, sum: seq<byte>)
    requires i < |c| == |r| && r[..i + 1] == c[..i + 1]
    requires sum == AddBE(c[..i + 1], 1) + r[i + 1..]
    requires r[i + 1..] == Zeros(|r| - 1 - i)
    ensures r[i] < 255 ==> r[i := r[i] + 1] == sum
    ensures r[i] == 255 ==> var r' := r[i := 0];
                            && r'[..i] == c[..i]
                            && sum == AddBE(c[..i], 1) + r'[i..]
                            && r'[i..] == Zeros(|r| - i)
  {
    AddBEPrefix(c, i, 1);
    assert r[i] == r[..i + 1][i] == c[..i + 1][i] == c[i];
    assert r[..i] == r[..i + 1][..i] == c[..i + 1][..i] == c[..i];
    if r[i] < 255 {
      AddBEZero(c[..i]);
    } else {
      var r' := r[i := 0];
      assert r'[i..] == [0] + r[i + 1..];
    }
  }

  /** The carry loop of UpdateIv. */
  method AddToIv(iv: seq<byte>, n: nat) returns (r: seq<byte>)
    ensures r == AddBE(iv, n)
  {
    hide AddBE;
    r := iv;
    var increment: nat := n;
    var i := |iv| - 1;
    assert iv[..|iv|] == iv && AddBE(iv[..|iv|], n) + [] == AddBE(iv, n);
    while increment > 0 && i >= 0
      invariant -1 <= i < |iv| == |r|
      invariant r[..i + 1] == iv[..i + 1]
      invariant AddBE(iv, n) == AddBE(iv[..i + 1], increment) + r[i + 1..]
    {
      AddDigit(iv, r, i, increment, AddBE(iv, n));
      increment := increment + r[i];
      r := r[i := increment % 256];
      increment := increment / 256;
      i := i - 1;
    }
    AddedAll(iv, r, i, increment, AddBE(iv, n));
  }

  lemma AddedAll(c: seq<byte>, r: seq<byte>, i: int, n: nat, sum: seq<byte>)
    requires -1 <= i < |c| == |r| && r[..i + 1] == c[..i + 1]
    requires sum == AddBE(c[..i + 1], n) + r[i + 1..]
    requires n == 0 || i == -1
    ensures r == sum
  {
    if n == 0 {
      AddBEZero(c[..i + 1]);
    }
    assert r == r[..i + 1] + r[i + 1..];
  }

  lemma AddDigit(c: seq<byte>, r: seq<byte>, i: nat, n: nat, sum: seq<byte>)
    requires i < |c| == |r| && r[..i + 1] == c[..i + 1]
    requires sum == AddBE(c[..i + 1], n) + r[i + 1..]
    ensures var t := n + r[i];
            var r' := r[i := t % 256];
            r'[..i] == c[..i] && sum == AddBE(c[..i], t / 256) + r'[i..]
  {
    AddBEPrefix(c, i, n);
    assert r[i] == r[..i + 1][i] == c[..i + 1][i] == c[i];
    assert r[..i] == r[..i + 1][..i] == c[..i + 1][..i] == c[..i];
    var t := n + r[i];
    var r' := r[i := t % 256];
    assert r'[i..] == [t % 256] + r[i + 1..];
  }

  predicate IsIvSizeValid(n: nat) {
    n == 8 || n == 16
  }

  predicate IsKeySizeValidForAes(n: nat) {
    n == 16 || n == 24 || n == 32
  }

  /** Counter blocks a, a + 1, ..., b - 1 of the stream that starts at `start`. */
  function Counters(start: Block, a: nat, b: nat): (r: seq<Block>)
    requires a <= b
    ensures |r| == b - a
  {
    seq<Block>(b - a, i requires 0 <= i < b - a => CounterBlock(start, a + i))
  }

  lemma CountersNext(past: seq<Block>, start: Block, j: nat)
    ensures (past + Counters(start, 0, j)) + [CounterBlock(start, j)] == past + Counters(start, 0, j + 1)
  {
  }

  lemma CtrSpliceByte(c: Cipher, start: Block, pos: nat, before: seq<byte>, d: nat, text: seq<byte>, i: nat)
    requires i < |text| && d + |text| <= |before|
    ensures Splice(before, d, CtrCrypt(c, start, pos, text[..i]))[d + i := XorByte(text[i], KeyByte(c, start, pos + i))]
            == Splice(before, d, CtrCrypt(c, start, pos, text[..i + 1]))
  {
    hide CtrCrypt, KeyByte, XorByte, Splice;
    var x := CtrCrypt(c, start, pos, text[..i]);
    var y := CtrCrypt(c, start, pos + i, [text[i]]);
    assert text[..i + 1] == text[..i] + [text[i]];
    CtrAppend(c, start, pos, text[..i], [text[i]]);
    CtrCryptByte(c, start, pos + i, [text[i]], 0);
    assert y == [y[0]];
    SpliceOne(before, d, x, y[0]);
  }

  /** Blocks touched by the first n bytes of a stream. */
  function BlocksOf(n: nat): nat {
    (n + 15) / 16
  }

  lemma SameBlock(pos: nat)
    ensures pos % 16 == 0 ==> BlocksOf(pos) == pos / 16 && BlocksOf(pos + 1) == pos / 16 + 1
    ensures pos % 16 != 0 ==> BlocksOf(pos + 1) == BlocksOf(pos) == pos / 16 + 1
    ensures (pos + 1) % 16 != 0 ==> (pos + 1) / 16 == pos / 16
  {
  }

  function NumPaddingBytes(k: Kind, n: nat): nat {
    if k == CbcEncryptor(Pkcs5Padding) then 16 - n % 16 else 0
  }

  ghost predicate Outside(before: seq<byte>, after: seq<byte>, d: nat, n: nat) {
    && |before| == |after|
    && d + n <= |after|
    && after[..d] == before[..d]
    && after[d + n..] == before[d + n..]
  }

  lemma EncryptSize(c: Cipher, padding: Padding, iv: Block, text: seq<byte>)
    ensures |EncryptStep(c, padding, iv, text).out| == |text| + NumPaddingBytes(CbcEncryptor(padding), |text|)
  {
  }

  /** The whole blocks and the residue of a slice are themselves slices. */
  lemma Slices(source: seq<byte>, s: nat, m: nat, n: nat)
    requires s + n <= |source| && m == n - n % 16
    ensures WholePart(source[s..s + n]) == source[s..s + m] && Residue(source[s..s + n]) == source[s + m..s + n]
  {
  }

  lemma NoPaddingShape(c: Cipher, iv: Block, text: seq<byte>)
    ensures var q := CbcEncrypt(c, iv, WholePart(text));
            EncryptStep(c, NoPadding, iv, text) == Outcome(true, q + Residue(text), Chain(LastBlock(iv, q)))
  {
  }

  lemma Pkcs5PadResidue(text: seq<byte>)
    ensures Pkcs5Pad(text) == WholePart(text) + Pkcs5Pad(Residue(text))
  {
    assert text == WholePart(text) + Residue(text);
  }

  /** Padding the residue is padding the text. */
  lemma Pkcs5Shape(c: Cipher, iv: Block, text: seq<byte>)
    ensures var q := CbcEncrypt(c, iv, WholePart(text));
            var e := CbcEncrypt(c, LastBlock(iv, q), Pkcs5Pad(Residue(text)));
            EncryptStep(c, Pkcs5Padding, iv, text) == Outcome(true, q + e, Chain(e))
  {
    hide CbcEncrypt, Pkcs5Pad, WholePart, Residue;
    var q := CbcEncrypt(c, iv, WholePart(text));
    Pkcs5PadResidue(text);
    CbcEncryptAppend(c, iv, WholePart(text), Pkcs5Pad(Residue(text)));
    LastOfAppend(iv, q, CbcEncrypt(c, LastBlock(iv, q), Pkcs5Pad(Residue(text))));
  }

  /** What stealing comes to after the whole blocks have been chained. */
  lemma CtsStepShape(c: Cipher, iv: Block, text: seq<byte>)
    requires |text| >= 16
    ensures var r := |text| % 16; var m := |text| - r;
            var q := CbcEncrypt(c, iv, WholePart(text));
            var o := EncryptStep(c, CtsPadding, iv, text);
            && (r == 0 ==> o.out == q && o.next.iv == LastBlock(iv, q))
            && (r != 0 ==>
                  var e := CbcEncrypt(c, LastBlock(iv, q), Residue(text) + Zeros(16 - r));
                  o.out == q[..m - 16] + e + q[m - 16..m - 16 + r] && o.next.iv == e)
  {
    hide CbcEncrypt, Zeros;
    if |text| % 16 == 0 {
      assert WholePart(text) == text;
    } else {
      CtsEncryptShape(c, iv, text);
    }
  }

  lemma CtsShort(c: Cipher, iv: Block, text: seq<byte>)
    requires |text| < 16
    ensures EncryptStep(c, CtsPadding, iv, text) == Outcome(true, text, Chain(iv))
    ensures DecryptStep(c, CtsPadding, iv, text) == Outcome(true, text, Chain(iv))
  {
    hide CbcEncrypt, CbcDecrypt, CtsReorder, StolenBlock;
    assert |text| % 16 == |text|;
  }

  /** What PKCS5 decryption accepts, and what it then yields. */
  lemma Pkcs5DecryptShape(c: Cipher, iv: Block, text: seq<byte>)
    ensures var o := DecryptStep(c, Pkcs5Padding, iv, text);
            if text == [] || |text| % 16 != 0 then !o.ok && o.next.iv == iv
            else
              var p := CbcDecrypt(c, iv, text);
              var count := p[|p| - 1];
              && o.next.iv == LastBlock(iv, text)
              && (o.ok <==> count <= 16)
              && (o.ok ==> o.out == p[..|p| - count])
  {
  }

  lemma CtsWhole(c: Cipher, iv: Block, text: seq<byte>)
    requires |text| >= 16 && |text| % 16 == 0
    ensures DecryptStep(c, CtsPadding, iv, text) == Outcome(true, CbcDecrypt(c, iv, text), Chain(LastBlock(iv, text)))
  {
  }

  lemma SpliceStolen(b: seq<byte>, d: nat, q: seq<byte>, e: Block, r: nat)
    requires |q| >= 16 && r < 16 && d + |q| + r <= |b|
    ensures var m := |q|; var b' := Splice(b, d, q);
            Splice(Splice(b', d + m, b'[d + m - 16..d + m - 16 + r]), d + m - 16, e)
            == Splice(b, d, q[..m - 16] + e + q[m - 16..m - 16 + r])
  {
    var m := |q|;
    var b' := Splice(b, d, q);
    assert b'[d + m - 16..d + m - 16 + r] == q[m - 16..m - 16 + r];
    SpliceJoin(b, d, q, q[m - 16..m - 16 + r]);
  }

  /** By how much UpdateIv moves the IV on: one for an 8-byte IV, else the blocks of the sample, all in
      64-bit arithmetic. */
  function IvIncrement(ivSize: nat, numCryptBytes: nat): nat {
    if ivSize == 8 then 1 else (numCryptBytes + 15) % TWO_64 / 16
  }

  /** A counter-mode cryptor as far as its counters go: the IV of the sample, bytes of key stream used
      in the sample, the size_t byte count, and the counter blocks used in earlier samples. */
  datatype CtrState = CtrState(iv: seq<byte>, pos: nat, numCryptBytes: nat, past: seq<Block>)

  datatype CtrCall = CryptCall(n: nat) | UpdateIvCall

  /** Every counter block given to the cipher so far, in order. */
  function Fed(s: CtrState): seq<Block>
    requires IsIvSizeValid(|s.iv|)
  {
    s.past + Counters(PadBlock(s.iv), 0, BlocksOf(s.pos))
  }

  function NextCtr(s: CtrState, call: CtrCall): (t: CtrState)
    requires IsIvSizeValid(|s.iv|)
    ensures |t.iv| == |s.iv|
  {
    match call
    case CryptCall(n) => s.(pos := s.pos + n, numCryptBytes := (s.numCryptBytes + n) % TWO_64)
    case UpdateIvCall => CtrState(AddBE(s.iv, IvIncrement(|s.iv|, s.numCryptBytes)), 0, 0, Fed(s))
  }

  /** The bytes used so far in the sample are masked by the blocks given to the cipher, 16 bytes by each. */
  lemma FedAreUsed(c: Cipher, s: CtrState, text: seq<byte>, k: nat)
    requires IsIvSizeValid(|s.iv|) && k < s.pos && k < |text|
    ensures |Fed(s)| == |s.past| + (s.pos + 15) / 16
    ensures CtrCrypt(c, PadBlock(s.iv), 0, text)[k] == XorByte(text[k], c.enc(Fed(s)[|s.past| + k / 16])[k % 16])
  {
    hide CounterBlock, CtrCrypt;
    CtrCryptByte(c, PadBlock(s.iv), 0, text, k);
    assert k / 16 < BlocksOf(s.pos);
    assert Fed(s)[|s.past| + k / 16] == CounterBlock(PadBlock(s.iv), k / 16);
  }

  lemma OutsideIsSplice(before: seq<byte>, after: seq<byte>, d: nat, x: seq<byte>)
    requires Outside(before, after, d, |x|) && after[d..d + |x|] == x
    ensures after == Splice(before, d, x)
  {
    assert after == after[..d] + after[d..d + |x|] + after[d + |x|..];
  }

  class AesCryptor {
    const kind: Kind
    const constantIv: bool
    var cipher: Cipher
    var iv: seq<byte>
    var numCryptBytes: nat
    // AesCtrEncryptor
    var counter: Block
    var encryptedCounter: Block
    var blockOffset: nat
    // AesCbcEncryptor, AesCbcDecryptor
    var internalIv: Block
    // Bytes of key stream used since the IV was set, every counter block ever encrypted, and those
    // of them encrypted before the IV was set.
    ghost var pos: nat
    ghost var fed: seq<Block>
    ghost var past: seq<Block>

    /** Counter mode never has a constant IV, padded CBC always has. */
    ghost predicate ModeFits() {
      if kind.CtrKind? then !constantIv else kind.padding.NoPadding? || constantIv
    }

    ghost predicate Valid()
      reads this
    {
      && ModeFits()
      && IsIvSizeValid(|iv|)
      && numCryptBytes < TWO_64
      && (kind.CtrKind? ==>
            && blockOffset == pos % 16
            && counter == CounterBlock(PadBlock(iv), BlocksOf(pos))
            && (blockOffset != 0 ==> encryptedCounter == cipher.enc(CounterBlock(PadBlock(iv), pos / 16)))
            && fed == Fed(Counting()))
    }

    /** What the counter history depends on. */
    ghost function Counting(): CtrState
      reads this
    {
      CtrState(iv, pos, numCryptBytes, past)
    }

    ghost function State(): (st: Stream)
      requires IsIvSizeValid(|iv|)
      reads this
      ensures Fits(kind, st)
    {
      if kind.CtrKind? then AtCounter(PadBlock(iv), pos) else Chain(internalIv)
    }

    constructor (kind: Kind, constantIv: bool)
      requires kind.CtrKind? ==> !constantIv
      requires !kind.CtrKind? && !kind.padding.NoPadding? ==> constantIv
      ensures this.kind == kind && this.constantIv == constantIv && fed == [] && ModeFits()
    {
      this.kind := kind;
      this.constantIv := constantIv;
      cipher := Cipher(b => b, b => b);
      iv := [];
      numCryptBytes := 0;
      counter := Zeros(16);
      encryptedCounter := Zeros(16);
      blockOffset := 0;
      internalIv := Zeros(16);
      pos := 0;
      fed := [];
      past := [];
    }

    method InitializeWithIv(schedule: seq<byte> -> Cipher, key: seq<byte>, newIv: seq<byte>) returns (ok: bool)
      requires ModeFits()
      modifies this
      ensures ok <==> (|key| == 16 || |key| == 24 || |key| == 32) && (|newIv| == 8 || |newIv| == 16)
      ensures ok ==> Valid() && cipher == schedule(key) && iv == newIv && numCryptBytes == 0
                     && State() == Begin(kind, newIv) && (kind.CtrKind? ==> past == fed)
      ensures fed == old(fed)
    {
      if !IsKeySizeValidForAes(|key|) {
        return false;
      }
      cipher := schedule(key);
      ok := SetIv(newIv);
    }

    method SetIv(newIv: seq<byte>) returns (ok: bool)
      requires ModeFits()
      modifies this
      ensures ok <==> |newIv| == 8 || |newIv| == 16
      ensures ok ==> Valid() && iv == newIv && numCryptBytes == 0 && State() == Begin(kind, newIv)
      ensures cipher == old(cipher) && fed == old(fed) && (ok && kind.CtrKind? ==> past == fed)
      ensures !ok ==> unchanged(this)
    {
      if !IsIvSizeValid(|newIv|) {
        return false;
      }
      iv := newIv;
      numCryptBytes := 0;
      SetIvInternal();
      return true;
    }

    method SetIvInternal()
      requires ModeFits() && IsIvSizeValid(|iv|) && numCryptBytes < TWO_64
      modifies this
      ensures Valid() && State() == Begin(kind, iv)
      ensures if kind.CtrKind? then counter == PadBlock(iv) && blockOffset == 0 else internalIv == PadBlock(iv)
      ensures iv == old(iv) && numCryptBytes == old(numCryptBytes) && cipher == old(cipher)
      ensures fed == old(fed) && (kind.CtrKind? ==> past == fed)
    {
      if kind.CtrKind? {
        blockOffset := 0;
        counter := PadBlock(iv);
        pos := 0;
        past := fed;
        CounterBlockZero(counter);
      } else {
        internalIv := PadBlock(iv);
      }
    }

    /** Moves the IV on for the next sample. */
    method UpdateIv()
      requires Valid()
      modifies this
      ensures constantIv ==> unchanged(this)
      ensures !constantIv ==> Valid() && numCryptBytes == 0 && State() == Begin(kind, iv)
                              && iv == AddBE(old(iv), IvIncrement(|old(iv)|, old(numCryptBytes)))
      ensures !constantIv ==>
                var blocks := (old(numCryptBytes) + 15) % TWO_64 / 16;
                && |iv| == |old(iv)|
                && FromBE(iv) == (FromBE(old(iv)) + if |iv| == 8 then 1 else blocks) % Pow256(|iv|)
      ensures cipher == old(cipher) && fed == old(fed)
      ensures kind.CtrKind? && !constantIv ==> Counting() == NextCtr(old(Counting()), UpdateIvCall)
    {
      hide FromBE, AddBE, Pow256, CounterBlock, PadBlock;
      if constantIv {
        return;
      }
      var increment := if |iv| == 8 then 1 else (numCryptBytes + 15) % TWO_64 / 16;
      AddBEValue(iv, increment);
      iv := AddToIv(iv, increment);
      numCryptBytes := 0;
      SetIvInternal();
    }

    // -------------------------------------------------------------- Crypt

    /** A call at stream position st on `text`, with room for cap bytes at dst[d..], did what Step
        says: it refuses without touching anything if the room is too small, else it leaves the
        result, the next stream position, and every byte outside the result range as it was. */
    ghost predicate Crypted(st: Stream, text: seq<byte>, before: seq<byte>, dst: array<byte>, d: nat, cap: nat,
                            ok: bool, size: nat)
      requires IsIvSizeValid(|iv|) && Fits(kind, st)
      reads this, dst
    {
      var o := Step(cipher, kind, st, text);
      var need := |text| + NumPaddingBytes(kind, |text|);
      if cap < need then
        !ok && dst[..] == before && State() == st
      else
        && ok == o.ok
        && State() == o.next
        && Outside(before, dst[..], d, need)
        && (ok ==> size == |o.out| <= need && d + size <= dst.Length && dst[d..d + size] == o.out)
    }

    /** Crypt on raw buffers, in place (src == dst) or not. */
    method Crypt(src: array<byte>, s: nat, n: nat, dst: array<byte>, d: nat, cap: nat) returns (ok: bool, size: nat)
      requires Valid()
      requires s + n <= src.Length && d + cap <= dst.Length
      requires src != dst || s == d
      modifies this, dst
      ensures Valid() && iv == old(iv) && cipher == old(cipher)
      ensures numCryptBytes == if constantIv then old(numCryptBytes) else (old(numCryptBytes) + n) % TWO_64
      ensures var st := if constantIv then Begin(kind, old(iv)) else old(State());
              Crypted(st, old(src[s..s + n]), old(dst[..]), dst, d, cap, ok, size)
      ensures var st := if constantIv then Begin(kind, old(iv)) else old(State());
              var padding := if kind == CbcEncryptor(Pkcs5Padding) then 16 - n % 16 else 0;
              ok <==> cap >= n + padding && Step(cipher, kind, st, old(src[s..s + n])).ok
      ensures kind.CtrKind? && ok ==> Counting() == NextCtr(old(Counting()), CryptCall(n))
    {
      hide Step, CounterBlock, Counters;
      if constantIv {
        SetIvInternal();
      } else {
        numCryptBytes := (numCryptBytes + n) % TWO_64;
      }
      match kind {
        case CtrKind => ok, size := CryptCtr(src, s, n, dst, d, cap);
        case CbcEncryptor(_) => ok, size := EncryptCbc(src, s, n, dst, d, cap);
        case CbcDecryptor(_) => ok, size := DecryptCbc(src, s, n, dst, d, cap);
      }
    }

    /** Crypt without a size argument: room for as many bytes as the text has. It succeeds unless there is
        padding to write, or padding that is wrong. */
    method CryptSameSize(src: array<byte>, s: nat, n: nat, dst: array<byte>, d: nat) returns (ok: bool, ghost size: nat)
      requires Valid()
      requires s + n <= src.Length && d + n <= dst.Length
      requires src != dst || s == d
      modifies this, dst
      ensures Valid() && iv == old(iv) && cipher == old(cipher)
      ensures var st := if constantIv then Begin(kind, old(iv)) else old(State());
              Crypted(st, old(src[s..s + n]), old(dst[..]), dst, d, n, ok, size)
      ensures Chained(kind) ==>
                var st := if constantIv then Begin(kind, old(iv)) else old(State());
                var o := Step(cipher, kind, st, old(src[s..s + n]));
                ok && |o.out| == n && dst[..] == Splice(old(dst[..]), d, o.out) && State() == o.next
    {
      hide Splice, Step, CounterBlock, Counters;
      ghost var before, text := dst[..], src[s..s + n];
      ghost var st := if constantIv then Begin(kind, iv) else State();
      var written;
      ok, written := Crypt(src, s, n, dst, d, n);
      size := written;
      if Chained(kind) {
        StepLength(cipher, kind, st, text);
        OutsideIsSplice(before, dst[..], d, Step(cipher, kind, st, text).out);
      }
    }

    method CryptCtr(src: array<byte>, s: nat, n: nat, dst: array<byte>, d: nat, cap: nat) returns (ok: bool, size: nat)
      requires Valid() && kind.CtrKind?
      requires s + n <= src.Length && d + cap <= dst.Length
      requires src != dst || s == d
      modifies this`counter, this`encryptedCounter, this`blockOffset, this`pos, this`fed, dst
      ensures Valid()
      ensures Crypted(old(State()), old(src[s..s + n]), old(dst[..]), dst, d, cap, ok, size)
      ensures ok ==> pos == old(pos) + n
    {
      hide Splice, CtrCrypt;
      if cap < n {
        return false, cap;
      }
      ghost var text, before := src[s..s + n], dst[..];
      CtrLoop(src, s, n, dst, d);
      SpliceRead(before, d, CtrCrypt(cipher, PadBlock(iv), old(pos), text));
      return true, n;
    }

    method CtrLoop(src: array<byte>, s: nat, n: nat, dst: array<byte>, d: nat)
      requires Valid() && kind.CtrKind?
      requires s + n <= src.Length && d + n <= dst.Length
      requires src != dst || s == d
      modifies this`counter, this`encryptedCounter, this`blockOffset, this`pos, this`fed, dst
      ensures Valid() && pos == old(pos) + n
      ensures dst[..] == Splice(old(dst[..]), d, CtrCrypt(cipher, PadBlock(iv), old(pos), old(src[s..s + n])))
    {
      hide Splice, CtrCrypt, XorByte, KeyByte, CounterBlock;
      ghost var source, before, c := src[..], dst[..], cipher;
      ghost var start, pos0 := PadBlock(iv), pos;
      ghost var text := source[s..s + n];
      SpliceNone(before, d, CtrCrypt(c, start, pos0, text[..0]));
      for i := 0 to n
        invariant Valid() && pos == pos0 + i
        invariant dst[..] == Splice(before, d, CtrCrypt(c, start, pos0, text[..i]))
        invariant src[s + i..] == source[s + i..]
      {
        ghost var now := dst[..];
        var k := NextKeyByte();
        assert k == KeyByte(c, start, pos0 + i);
        assert src[s + i] == src[s + i..][0] == source[s + i] == text[i];
        var v := XorByte(src[s + i], k);
        dst[d + i] := v;
        assert dst[..] == now[d + i := v];
        CtrSpliceByte(c, start, pos0, before, d, text, i);
      }
      assert text[..n] == text;
    }

    /** The next byte of the key stream. */
    method NextKeyByte() returns (k: byte)
      requires Valid() && kind.CtrKind?
      modifies this`counter, this`encryptedCounter, this`blockOffset, this`pos, this`fed
      ensures Valid() && pos == old(pos) + 1
      ensures k == KeyByte(cipher, PadBlock(iv), old(pos))
    {
      hide CounterBlock, Counters, PadBlock;
      SameBlock(pos);
      if blockOffset == 0 {
        NextKeyBlock();
      }
      k := encryptedCounter[blockOffset];
      blockOffset := (blockOffset + 1) % 16;
      pos := pos + 1;
    }

    /** Encrypts the counter into the key block and increments it. */
    method NextKeyBlock()
      requires Valid() && kind.CtrKind? && blockOffset == 0
      modifies this`counter, this`encryptedCounter, this`fed
      ensures counter == CounterBlock(PadBlock(iv), BlocksOf(pos + 1))
      ensures encryptedCounter == cipher.enc(CounterBlock(PadBlock(iv), pos / 16))
      ensures fed == past + Counters(PadBlock(iv), 0, BlocksOf(pos + 1))
    {
      ghost var j := pos / 16;
      SameBlock(pos);
      encryptedCounter := cipher.enc(counter);
      fed := fed + [counter];
      CountersNext(past, PadBlock(iv), j);
      CounterBlockNext(PadBlock(iv), j);
      var low, _ := Increment64(counter[8..]);
      counter := counter[..8] + low;
    }

    // -------------------------------------------------------------- CBC

    method EncryptCbc(
        src: array<byte>, s: nat, n: nat, dst: array<byte>, d: nat, cap: nat)
      returns (ok: bool, size: nat)
      requires Valid() && kind.CbcEncryptor?
      requires s + n <= src.Length && d + cap <= dst.Length
      requires src != dst || s == d
      modifies this`internalIv, dst
      ensures Crypted(old(State()), old(src[s..s + n]), old(dst[..]), dst, d, cap, ok, size)
    {
      hide Splice, EncryptStep, DecryptStep, CtrCrypt;
      var padding := NumPaddingBytes(kind, n);
      if cap < n + padding {
        return false, cap;
      }
      size := n + padding;
      ghost var text, before, iv0 := src[s..s + n], dst[..], internalIv;
      ghost var out := EncryptStep(cipher, kind.padding, iv0, text).out;
      assert |out| == size by { EncryptSize(cipher, kind.padding, iv0, text); }
      EncryptBuffer(src, s, n, dst, d);
      SpliceRead(before, d, out);
      return true, size;
    }

    /** The body of AesCbcEncryptor::CryptInternal once the output buffer is known to be big enough. */
    method EncryptBuffer(src: array<byte>, s: nat, n: nat, dst: array<byte>, d: nat)
      requires kind.CbcEncryptor?
      requires s + n <= src.Length && d + n + NumPaddingBytes(kind, n) <= dst.Length
      requires src != dst || s == d
      modifies this`internalIv, dst
      ensures var o := EncryptStep(cipher, kind.padding, old(internalIv), old(src[s..s + n]));
              && |o.out| == n + NumPaddingBytes(kind, n)
              && dst[..] == Splice(old(dst[..]), d, o.out)
              && internalIv == o.next.iv
    {
      hide Splice, CbcEncrypt, EncryptStep, WholePart, Residue, Zeros, Pkcs5Pad;
      ghost var text, before, iv0, c := src[s..s + n], dst[..], internalIv, cipher;
      ghost var o := EncryptStep(c, kind.padding, iv0, text);
      EncryptSize(c, kind.padding, iv0, text);
      if n < 16 && kind.padding.CtsPadding? {
        // Not a full block: left unencrypted.
        Store(dst, d, src[s..s + n]);
        CtsShort(c, iv0, text);
        return;
      }
      var residual := EncryptWhole(src, s, n, dst, d);
      var m := n - |residual|;
      ghost var q := CbcEncrypt(c, iv0, WholePart(text));
      match kind.padding {
        case NoPadding =>
          EncryptNothing(residual, dst, d, m, before, q);
          NoPaddingShape(c, iv0, text);
        case Pkcs5Padding =>
          EncryptPadded(residual, dst, d, m, before, q);
          Pkcs5Shape(c, iv0, text);
        case CtsPadding =>
          if |residual| != 0 {
            EncryptStolen(residual, dst, d, m, before, q);
          }
          CtsStepShape(c, iv0, text);
      }
    }

    /** Chains the whole blocks and hands back the residue. */
    method EncryptWhole(src: array<byte>, s: nat, n: nat, dst: array<byte>, d: nat) returns (residual: seq<byte>)
      requires s + n <= src.Length && d + n <= dst.Length
      requires src != dst || s == d
      modifies this`internalIv, dst
      ensures var text := old(src[s..s + n]);
              var q := CbcEncrypt(cipher, old(internalIv), WholePart(text));
              && residual == Residue(text)
              && |q| == n - |residual|
              && dst[..] == Splice(old(dst[..]), d, q)
              && internalIv == LastBlock(old(internalIv), q)
    {
      hide Splice, CbcEncrypt, WholePart, Residue, LastBlock;
      var m := n - n % 16;
      ghost var source, before, iv0 := src[..], dst[..], internalIv;
      Slices(source, s, m, n);
      internalIv := AesCbc(cipher, false, src[s..s + m], dst, d, internalIv);
      residual := src[s + m..s + n];
      if src == dst {
        SpliceAfter(before, d, CbcEncrypt(cipher, iv0, source[s..s + m]), d + m, d + n);
      }
    }

    /** Leaves the residue in the clear after the m bytes of whole blocks. */
    method EncryptNothing(
        residual: seq<byte>, dst: array<byte>, d: nat, m: nat, ghost before: seq<byte>, ghost q: seq<byte>)
      requires m == |q| && d + m + |residual| <= |before|
      requires dst[..] == Splice(before, d, q)
      modifies dst
      ensures dst[..] == Splice(before, d, q + residual)
    {
      hide Splice;
      assert dst.Length == |dst[..]| == |before|;
      Store(dst, d + m, residual);
      SpliceJoin(before, d, q, residual);
    }

    /** Pads the residue with PKCS5 and encrypts it after the m bytes of whole blocks. */
    method EncryptPadded(
        residual: seq<byte>, dst: array<byte>, d: nat, m: nat, ghost before: seq<byte>, ghost q: seq<byte>)
      requires |residual| < 16 && Whole(q) && m == |q| && d + m + 16 <= |before|
      requires dst[..] == Splice(before, d, q)
      modifies this`internalIv, dst
      ensures var e := CbcEncrypt(cipher, old(internalIv), Pkcs5Pad(residual));
              dst[..] == Splice(before, d, q + e) && internalIv == e
    {
      hide Splice, CbcEncrypt;
      assert dst.Length == |dst[..]| == |before|;
      internalIv := AesCbc(cipher, false, Pkcs5Pad(residual), dst, d + m, internalIv);
      SpliceJoin(before, d, q, CbcEncrypt(cipher, old(internalIv), Pkcs5Pad(residual)));
    }

    /** Moves the start of the last full block behind it and puts the encrypted, zero-padded residue
        in its place. */
    method EncryptStolen(
        residual: seq<byte>, dst: array<byte>, d: nat, m: nat, ghost before: seq<byte>, ghost q: seq<byte>)
      requires 0 < |residual| < 16 && 16 <= m == |q| && d + m + |residual| <= |before|
      requires dst[..] == Splice(before, d, q)
      modifies this`internalIv, dst
      ensures var r := |residual|;
              var e := CbcEncrypt(cipher, old(internalIv), residual + Zeros(16 - r));
              && dst[..] == Splice(before, d, q[..m - 16] + e + q[m - 16..m - 16 + r])
              && internalIv == e
    {
      hide Splice, CbcEncrypt, Zeros;
      var r := |residual|;
      assert dst.Length == |dst[..]| == |before|;
      var block := new byte[16];
      ghost var blank := block[..];
      internalIv := AesCbc(cipher, false, residual + Zeros(16 - r), block, 0, internalIv);
      var e := block[..];
      SpliceAll(blank, CbcEncrypt(cipher, old(internalIv), residual + Zeros(16 - r)));
      ghost var now := dst[..];
      Store(dst, d + m, dst[d + m - 16..d + m - 16 + r]);
      assert dst[..] == Splice(now, d + m, now[d + m - 16..d + m - 16 + r]);
      Store(dst, d + m - 16, e);
      SpliceStolen(before, d, q, e, r);
    }

    method DecryptCbc(
        src: array<byte>, s: nat, n: nat, dst: array<byte>, d: nat, cap: nat)
      returns (ok: bool, size: nat)
      requires Valid() && kind.CbcDecryptor?
      requires s + n <= src.Length && d + cap <= dst.Length
      requires src != dst || s == d
      modifies this`internalIv, dst
      ensures Crypted(old(State()), old(src[s..s + n]), old(dst[..]), dst, d, cap, ok, size)
    {
      hide Splice, EncryptStep, DecryptStep, CtrCrypt;
      if cap < n {
        return false, cap;
      }
      ghost var before, text, iv0 := dst[..], src[s..s + n], internalIv;
      ok, size := true, n;
      match kind.padding {
        case NoPadding =>
          DecryptNoPadding(src, s, n, dst, d);
          SpliceRead(before, d, DecryptStep(cipher, NoPadding, iv0, text).out);
        case Pkcs5Padding =>
          ok, size := DecryptPkcs5(src, s, n, dst, d);
        case CtsPadding =>
          DecryptCts(src, s, n, dst, d);
          SpliceRead(before, d, DecryptStep(cipher, CtsPadding, iv0, text).out);
      }
    }

    method DecryptNoPadding(src: array<byte>, s: nat, n: nat, dst: array<byte>, d: nat)
      requires s + n <= src.Length && d + n <= dst.Length
      requires src != dst || s == d
      modifies this`internalIv, dst
      ensures var o := DecryptStep(cipher, NoPadding, old(internalIv), old(src[s..s + n]));
              |o.out| == n && dst[..] == Splice(old(dst[..]), d, o.out) && internalIv == o.next.iv
    {
      hide Splice, CbcDecrypt, WholePart, Residue, LastBlock;
      var m := n - n % 16;
      ghost var source, before, iv0 := src[..], dst[..], internalIv;
      Slices(source, s, m, n);
      ghost var p := CbcDecrypt(cipher, iv0, source[s..s + m]);
      internalIv := AesCbc(cipher, true, src[s..s + m], dst, d, internalIv);
      if src == dst {
        SpliceAfter(before, d, p, d + m, d + n);
      }
      // A residue was never encrypted.
      Store(dst, d + m, src[s + m..s + n]);
      SpliceJoin(before, d, p, source[s + m..s + n]);
    }

    method DecryptPkcs5(src: array<byte>, s: nat, n: nat, dst: array<byte>, d: nat) returns (ok: bool, size: nat)
      requires s + n <= src.Length && d + n <= dst.Length
      requires src != dst || s == d
      modifies this`internalIv, dst
      ensures var o := DecryptStep(cipher, Pkcs5Padding, old(internalIv), old(src[s..s + n]));
              && ok == o.ok
              && internalIv == o.next.iv
              && Outside(old(dst[..]), dst[..], d, n)
              && (ok ==> size == |o.out| <= n && dst[d..d + size] == o.out)
    {
      hide Splice, CbcDecrypt, DecryptStep;
      Pkcs5DecryptShape(cipher, internalIv, src[s..s + n]);
      if n == 0 || n % 16 != 0 {
        return false, n;
      }
      ghost var before, p := dst[..], CbcDecrypt(cipher, internalIv, src[s..s + n]);
      internalIv := AesCbc(cipher, true, src[s..s + n], dst, d, internalIv);
      SpliceRead(before, d, p);
      SubSlice(dst[..], d, p, n - 1);
      // Strip off the padding bytes.
      var count := dst[d + n - 1];
      if count > 16 {
        return false, n;
      }
      size := n - count;
      SubSlice(dst[..], d, p, size);
      return true, size;
    }

    method DecryptCts(src: array<byte>, s: nat, n: nat, dst: array<byte>, d: nat)
      requires s + n <= src.Length && d + n <= dst.Length
      requires src != dst || s == d
      modifies this`internalIv, dst
      ensures var o := DecryptStep(cipher, CtsPadding, old(internalIv), old(src[s..s + n]));
              |o.out| == n && dst[..] == Splice(old(dst[..]), d, o.out) && internalIv == o.next.iv
    {
      hide Splice, CbcDecrypt, CtsDecrypt, StolenBlock, LastBlock;
      ghost var source, before, iv0, c := src[..], dst[..], internalIv, cipher;
      ghost var text := source[s..s + n];
      if n < 16 {
        // Not a full block: left unencrypted.
        Store(dst, d, src[s..s + n]);
        CtsShort(c, iv0, text);
        return;
      }
      if n % 16 == 0 {
        internalIv := AesCbc(cipher, true, src[s..s + n], dst, d, internalIv);
        CtsWhole(c, iv0, text);
        return;
      }
      var k := n - n % 16 - 16;
      ghost var p := CbcDecrypt(c, iv0, text[..k]);
      assert src[s..s + k] == text[..k];
      // Everything up to the next-to-last full block.
      internalIv := AesCbc(cipher, true, src[s..s + k], dst, d, internalIv);
      ghost var iv1 := internalIv;
      assert source[s + k..s + n] == text[k..];
      if src == dst {
        SpliceAfter(before, d, p, d + k, d + n);
      }
      assert src[s + k..s + n] == text[k..];
      DecryptStolen(src, s + k, n % 16, dst, d + k);
      CtsDecryptSplit(c, iv0, text);
      SpliceJoin(before, d, p, CtsDecrypt(c, iv1, text[k..]));
    }

    /** The last full block and the residue after it. The residue is undone with the block's own
        decryption; the two are then swapped (in place) or copied across (from another buffer). */
    method DecryptStolen(src: array<byte>, s: nat, r: nat, dst: array<byte>, d: nat)
      requires 0 < r < 16 && s + 16 + r <= src.Length && d + 16 + r <= dst.Length
      requires src != dst || s == d
      modifies this`internalIv, dst
      ensures var t := old(src[s..s + 16 + r]);
              && dst[..] == Splice(old(dst[..]), d, CtsDecrypt(cipher, old(internalIv), t))
              && internalIv == StolenBlock(cipher, t)
    {
      hide Splice, CbcDecrypt, CtsDecrypt, StolenBlock, Xor;
      ghost var t, before, iv0, c := src[s..s + 16 + r], dst[..], internalIv, cipher;
      ghost var plain := RestoreStolen(src, s, r, dst, d);
      ghost var stolen := StolenBlock(c, t);
      CtsDecryptTail(c, iv0, t);
      SpliceTwo(before, d, stolen, plain, Xor(c.dec(stolen), iv0));
      CbcDecryptOne(c, iv0, stolen);
      internalIv := AesCbc(cipher, true, dst[d..d + 16], dst, d, internalIv);
    }

    /** Undoes the residue with the block's own decryption and puts the stolen block back together
        in front of it. */
    method RestoreStolen(src: array<byte>, s: nat, r: nat, dst: array<byte>, d: nat) returns (ghost plain: seq<byte>)
      requires 0 < r < 16 && s + 16 + r <= src.Length && d + 16 + r <= dst.Length
      requires src != dst || s == d
      modifies dst
      ensures var t := old(src[s..s + 16 + r]);
              && plain == Xor(cipher.dec(t[..16]), t[16..] + Zeros(16 - r))[..r]
              && dst[..] == Splice(old(dst[..]), d, StolenBlock(cipher, t) + plain)
    {
      hide Splice, CbcDecrypt, CtsDecrypt, StolenBlock, Zeros, Xor;
      ghost var source, before, c := src[..], dst[..], cipher;
      ghost var t := source[s..s + 16 + r];
      assert t[..16] == source[s..s + 16] && t[16..] == source[s + 16..s + 16 + r];
      var lastIv := src[s + 16..s + 16 + r] + Zeros(16 - r);
      ghost var w: Block := Xor(c.dec(t[..16]), lastIv);
      CbcDecryptOne(c, lastIv, t[..16]);
      CtsDecryptTail(c, lastIv, t);
      if src == dst {
        SpliceAfter(before, d, w, d + 16, d + 16 + r);
      }
      var _ := AesCbc(cipher, true, src[s..s + 16], dst, d, lastIv);
      SwapBack(src, s + 16, r, dst, d, before, w, t[16..]);
      plain := w[..r];
    }

    /** Puts the ciphertext residue x where the decrypted residue (the start of block w) stands, and
        the decrypted residue behind the block. */
    method SwapBack(src: array<byte>, s: nat, r: nat, dst: array<byte>, d: nat,
                    ghost before: seq<byte>, ghost w: Block, ghost x: seq<byte>)
      requires r < 16 && s + r <= src.Length && d + 16 + r <= |before|
      requires src != dst || s == d + 16
      requires dst[..] == Splice(before, d, w)
      requires |x| == r && src[s..s + r] == x && (src == dst ==> before[d + 16..d + 16 + r] == x)
      modifies dst
      ensures dst[..] == Splice(before, d, x + w[r..] + w[..r])
    {
      hide Splice, Swapped;
      assert dst.Length == |dst[..]| == |before|;
      SwapIsCopy(before, d, w, x);
      if src == dst {
        SwapRanges(dst, d, d + 16, r);
      } else {
        SpliceRead(before, d, w);
        SubSlice(dst[..], d, w, r);
        Store(dst, d + 16, dst[d..d + r]);
        Store(dst, d, src[s..s + r]);
      }
    }

    // -------------------------------------------------------------- whole vectors

    /** Crypt on vectors: sizes the output for the padding and trims it to what was written. The text
        may be the output vector itself. */
    method CryptVector(text: seq<byte>, inPlace: bool) returns (ok: bool, out: seq<byte>)
      requires Valid()
      modifies this
      ensures Valid() && iv == old(iv) && cipher == old(cipher)
      ensures var st := if constantIv then Begin(kind, iv) else old(State());
              var o := Step(cipher, kind, st, text);
              ok == o.ok && State() == o.next && (ok ==> out == o.out)
    {
      hide Step;
      var n := |text|;
      var buf := new byte[n + NumPaddingBytes(kind, n)](_ => 0);
      var size: nat;
      if inPlace {
        Store(buf, 0, text);
        SpliceRead(seq(buf.Length, _ => 0), 0, text);
        assert buf[..n] == text;
        ok, size := Crypt(buf, 0, n, buf, 0, buf.Length);
      } else {
        var src := new byte[n](i requires 0 <= i < n => text[i]);
        assert src[..n] == text;
        ok, size := Crypt(src, 0, n, buf, 0, buf.Length);
      }
      out := if ok then buf[..size] else [];
    }
  }
}
