/** When the subsamples of a sample are decrypted as one logical stream. */
module SubsampleStream {
  import opened Bytes
  import opened Cbc
  import opened CryptStream
  import opened Masking
  import opened SampleDecryption

  /** In counter mode, chunk by chunk is one stream, however the cipher bytes are split. */
  lemma {:induction false} CtrChunks(c: Cipher, st: Stream, subs: seq<Subsample>, g: seq<byte>)
    requires Fits(CtrKind, st) && |g| == CipherSize(subs)
    ensures ChunkStream(c, CtrKind, st, subs, g) == Step(c, CtrKind, st, g).out
    decreases subs
  {
    hide Step;
    if subs == [] {
      StepEmpty(c, CtrKind, st);
    } else {
      var a, b := g[..subs[0].cipher], g[subs[0].cipher..];
      CtrChunks(c, Step(c, CtrKind, st, a).next, subs[1..], b);
      assert g == a + b;
      StepAppend(c, CtrKind, st, a, b);
    }
  }

  /** 'cenc': for every list of subsamples that fits, the result is the cipher bytes gathered, decrypted as
      one stream and put back, and every clear and trailing byte as it was. Without subsamples the whole sample
      is one stream. */
  lemma CencIsOneStream(c: Cipher, pr: Profile, iv: seq<byte>, subs: seq<Subsample>, buffer: seq<byte>)
    requires pr.scheme == Cenc && (|iv| == 8 || |iv| == 16) && TotalSize(subs) <= |buffer|
    ensures var st := Begin(CtrKind, iv);
            DecryptSample(c, pr, iv, subs, buffer)
            == Decrypted(true, if subs == [] then Step(c, CtrKind, st, buffer).out
                               else AsOneStream(c, CtrKind, st, subs, buffer))
  {
    hide Step, Gather, Scatter, DecryptSubsamples, ChunkStream;
    if subs != [] {
      var st := Begin(CtrKind, iv);
      var g := Gather(buffer, SubsampleMask(subs, |buffer|));
      LoopScatters(c, pr, iv, st, subs, buffer);
      CtrChunks(c, st, subs, g);
    }
  }

  // ---------------------------------------------------------------- 'cbc1'

  const CBC: Kind := CbcDecryptor(NoPadding)

  /** Less than a block is left clear. */
  lemma ShortStep(c: Cipher, iv: Block, text: seq<byte>)
    requires |text| < 16
    ensures Step(c, CBC, Chain(iv), text) == Outcome(true, text, Chain(iv))
  {
    assert WholePart(text) == [] && Residue(text) == text && [] + text == text;
    assert CbcDecrypt(c, iv, []) == [];
  }

  lemma {:induction false} ShortChunks(c: Cipher, iv: Block, subs: seq<Subsample>, g: seq<byte>)
    requires |g| == CipherSize(subs) < 16
    ensures ChunkStream(c, CBC, Chain(iv), subs, g) == g
    decreases subs
  {
    hide Step;
    if subs != [] {
      var a, b := g[..subs[0].cipher], g[subs[0].cipher..];
      ShortStep(c, iv, a);
      ShortChunks(c, iv, subs[1..], b);
      assert g == a + b;
    }
  }

  /** A residue and less than a block after it: nothing more is decrypted. */
  lemma TailStep(c: Cipher, iv: Block, a: seq<byte>, b: seq<byte>)
    requires |a| % 16 + |b| < 16
    ensures Step(c, CBC, Chain(iv), a + b).out == Step(c, CBC, Chain(iv), a).out + b
  {
    hide CbcDecrypt, WholePart, Residue, LastBlock;
    TailParts(a, b);
    Associative(CbcDecrypt(c, iv, WholePart(a)), Residue(a), b);
  }

  lemma TailParts(a: seq<byte>, b: seq<byte>)
    requires |a| % 16 + |b| < 16
    ensures WholePart(a + b) == WholePart(a) && Residue(a + b) == Residue(a) + b
  {
    var m := |a| - |a| % 16;
    assert |a + b| % 16 == |a| % 16 + |b|;
    assert (a + b)[..m] == a[..m] && (a + b)[m..] == a[m..] + b;
  }

  lemma {:induction false} AlignedChunks(c: Cipher, iv: Block, subs: seq<Subsample>, g: seq<byte>)
    requires |g| == CipherSize(subs) && StreamAligned(subs)
    ensures ChunkStream(c, CBC, Chain(iv), subs, g) == Step(c, CBC, Chain(iv), g).out
    decreases subs
  {
    hide Step;
    if subs == [] {
      StepEmpty(c, CBC, Chain(iv));
    } else {
      var a, b := g[..subs[0].cipher], g[subs[0].cipher..];
      var o := Step(c, CBC, Chain(iv), a);
      assert g == a + b;
      if |a| % 16 == 0 {
        AlignedChunks(c, o.next.iv, subs[1..], b);
        StepAppend(c, CBC, Chain(iv), a, b);
      } else {
        ShortChunks(c, o.next.iv, subs[1..], b);
        TailStep(c, iv, a, b);
      }
    }
  }

  /** Whatever the cipher, the IV and the bytes, a 'cbc1' sample of n bytes with these subsamples comes out
      as one logical stream. */
  ghost predicate AlwaysOneStream(subs: seq<Subsample>, n: nat)
    requires TotalSize(subs) <= n
  {
    forall c: Cipher, iv: Block, buffer: seq<byte> | c.Valid() && |buffer| == n ::
      IsOneStream(c, iv, subs, buffer)
  }

  ghost predicate IsOneStream(c: Cipher, iv: Block, subs: seq<Subsample>, buffer: seq<byte>)
    requires TotalSize(subs) <= |buffer|
  {
    DecryptSubsamples(c, Profile(Cbc1, 0, 0), iv, Chain(iv), subs, buffer)
    == Decrypted(true, AsOneStream(c, CBC, Chain(iv), subs, buffer))
  }

  lemma AlignedIsOneStream(c: Cipher, iv: Block, subs: seq<Subsample>, buffer: seq<byte>)
    requires TotalSize(subs) <= |buffer| && StreamAligned(subs)
    ensures IsOneStream(c, iv, subs, buffer)
  {
    hide Step, Gather, Scatter, DecryptSubsamples, ChunkStream, StreamAligned;
    LoopScatters(c, Profile(Cbc1, 0, 0), iv, Chain(iv), subs, buffer);
    AlignedChunks(c, iv, subs, Gather(buffer, SubsampleMask(subs, |buffer|)));
  }

  // A block cipher and a sample that tell decrypted bytes from bytes left alone.

  function Flip(b: Block): (r: Block) {
    seq<byte>(16, i requires 0 <= i < 16 => 255 - b[i])
  }

  const FLIP: Cipher := Cipher(Flip, Flip)

  lemma FlipValid()
    ensures FLIP.Valid()
  {
    forall b: Block
      ensures FLIP.dec(FLIP.enc(b)) == b
    {
      assert Flip(Flip(b)) == b;
    }
  }

  function Ones(n: nat): (s: seq<byte>)
    ensures |s| == n
  {
    seq<byte>(n, _ => 255)
  }

  lemma {:induction false} FlipZeros(n: nat)
    requires n % 16 == 0
    ensures CbcDecrypt(FLIP, Zeros(16), Zeros(n)) == Ones(n)
  {
    if n > 0 {
      FlipZeros(n - 16);
      assert Zeros(n)[..16] == Zeros(16) && Zeros(n)[16..] == Zeros(n - 16);
      assert Xor(Flip(Zeros(16)), Zeros(16)) == Ones(16) by {
        XorByteZeroRight(255);
      }
      assert Ones(n) == Ones(16) + Ones(n - 16);
    }
  }

  /** On zeros, exactly the whole blocks turn into ones. */
  function Whole255(n: nat): (s: seq<byte>)
    ensures |s| == n
  {
    Ones(n - n % 16) + Zeros(n % 16)
  }

  lemma StepZeros(n: nat)
    ensures Step(FLIP, CBC, Chain(Zeros(16)), Zeros(n)) == Outcome(true, Whole255(n), Chain(Zeros(16)))
  {
    hide CbcDecrypt, FLIP;
    var m := n - n % 16;
    FlipZeros(m);
    assert WholePart(Zeros(n)) == Zeros(m) && Residue(Zeros(n)) == Zeros(n % 16);
    assert LastBlock(Zeros(16), Zeros(m)) == Zeros(16);
  }

  lemma {:induction false} ZeroChunksDiffer(subs: seq<Subsample>)
    requires ChunkStream(FLIP, CBC, Chain(Zeros(16)), subs, Zeros(CipherSize(subs))) == Whole255(CipherSize(subs))
    ensures StreamAligned(subs)
  {
    hide Step, FLIP;
    if subs != [] {
      var n, rest := subs[0].cipher, CipherSize(subs[1..]);
      var z := Zeros(n + rest);
      assert z[..n] == Zeros(n) && z[n..] == Zeros(rest);
      StepZeros(n);
      var tail := ChunkStream(FLIP, CBC, Chain(Zeros(16)), subs[1..], Zeros(rest));
      assert Whole255(n) + tail == Whole255(n + rest);
      if n % 16 == 0 {
        WholeConcat(n, rest, tail);
        ZeroChunksDiffer(subs[1..]);
      } else {
        var i := n - n % 16;
        assert (Whole255(n) + tail)[i] == 0;
        assert Whole255(n + rest)[i] == 0;
      }
    }
  }

  lemma WholeConcat(n: nat, rest: nat, tail: seq<byte>)
    requires n % 16 == 0 && |tail| == rest && Whole255(n) + tail == Whole255(n + rest)
    ensures tail == Whole255(rest)
  {
    assert (n + rest) % 16 == rest % 16;
    var s := Whole255(n + rest);
    assert tail == s[n..];
    assert s[n..] == Whole255(rest);
  }

  lemma {:induction false} GatherZeros(mask: seq<bool>)
    ensures Gather(Zeros(|mask|), mask) == Zeros(Marked(mask))
  {
    if mask != [] {
      GatherZeros(mask[1..]);
      assert Zeros(|mask|)[1..] == Zeros(|mask| - 1);
    }
  }

  lemma MisalignedIsNot(subs: seq<Subsample>, n: nat)
    requires TotalSize(subs) <= n && IsOneStream(FLIP, Zeros(16), subs, Zeros(n))
    ensures StreamAligned(subs)
  {
    hide Step, Gather, Scatter, DecryptSubsamples, ChunkStream, StreamAligned, FLIP, Whole255;
    var mask, size, st := SubsampleMask(subs, n), CipherSize(subs), Chain(Zeros(16));
    LoopScatters(FLIP, Profile(Cbc1, 0, 0), Zeros(16), st, subs, Zeros(n));
    GatherZeros(mask);
    StepZeros(size);
    var out := ChunkStream(FLIP, CBC, st, subs, Zeros(size));
    GatherScatter(Zeros(n), mask, out);
    GatherScatter(Zeros(n), mask, Whole255(size));
    ZeroChunksDiffer(subs);
  }

  /** 'cbc1': the subsamples are one logical stream, for every cipher, IV and content, exactly when their
      cipher bytes line up with the blocks. */
  lemma Cbc1OneStreamIff(subs: seq<Subsample>, n: nat)
    requires TotalSize(subs) <= n
    ensures AlwaysOneStream(subs, n) <==> StreamAligned(subs)
  {
    if StreamAligned(subs) {
      forall c: Cipher, iv: Block, buffer: seq<byte> | c.Valid() && |buffer| == n
        ensures IsOneStream(c, iv, subs, buffer)
      {
        AlignedIsOneStream(c, iv, subs, buffer);
      }
    }
    if AlwaysOneStream(subs, n) {
      FlipValid();
      assert IsOneStream(FLIP, Zeros(16), subs, Zeros(n));
      MisalignedIsNot(subs, n);
    }
  }
}
