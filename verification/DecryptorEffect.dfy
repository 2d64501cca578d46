/** What a decryptor does to samples, as far as samples can tell: when two profiles decrypt alike. */
module DecryptorEffects {
  import opened Bytes
  import opened Cbc
  import opened Ctr
  import opened CryptStream
  import opened Pattern
  import opened SampleDecryption
  import opened SubsampleStream

  /** Crypting whole streams, or runs of so many blocks with so many skipped in between, or nothing. */
  datatype Effect =
    | WholeCtr
    | WholeCbc
    | CtrRuns(crypt: nat, skip: nat)
    | CbcRuns(crypt: nat, skip: nat)
    | Nothing

  /** The schemes without a pattern ignore it; 0:0 is 1:0; and 0:n crypts nothing whatever the scheme. */
  function EffectOf(pr: Profile): Effect
    requires pr.scheme != OtherScheme
  {
    var a, b := pr.cryptBlocks, pr.skipBlocks;
    match pr.scheme
    case Cenc => WholeCtr
    case Cbc1 => WholeCbc
    case Cens => if a > 0 then CtrRuns(a, b) else if b == 0 then CtrRuns(1, 0) else Nothing
    case Cbcs => if a > 0 then CbcRuns(a, b) else if b == 0 then CbcRuns(1, 0) else Nothing
  }

  /** No cipher, IV of `size` bytes, list of subsamples and sample tells the two profiles apart. */
  ghost predicate Alike(pr: Profile, pr': Profile, size: nat)
    requires size == 8 || size == 16
  {
    forall c: Cipher, iv: seq<byte>, subs: seq<Subsample>, buffer: seq<byte> | c.Valid() && |iv| == size ::
      DecryptSample(c, pr, iv, subs, buffer) == DecryptSample(c, pr', iv, subs, buffer)
  }

  // ---------------------------------------------------------------- the same effect, the same samples

  lemma {:induction false} NothingCrypted(c: Cipher, k: Kind, p: Runs, st: Stream, text: seq<byte>)
    requires p.Valid() && Fits(k, st) && Chained(k) && p.crypt == 0
    ensures PatternCrypt(c, k, p, st, text) == Result(text, st)
    decreases |text|
  {
    hide Step;
    if text != [] && p.NeedEncrypt(|text|) {
      var x := Skipped(p, |text|);
      assert text[..0] == [] && text == text[0..x] + text[x..];
      StepEmpty(c, k, st);
      NothingCrypted(c, k, p, st, text[x..]);
      assert [] + text == text;
    }
  }

  lemma {:induction false} NothingDone(
      c: Cipher, pr: Profile, iv: seq<byte>, st: Stream, subs: seq<Subsample>, rest: seq<byte>)
    requires pr.Patterned() && pr.Runs().crypt == 0 && Fits(pr.Kind(), st) && (|iv| == 8 || |iv| == 16)
    ensures DecryptSubsamples(c, pr, iv, st, subs, rest) == Decrypted(TotalSize(subs) <= |rest|, rest)
    decreases subs
  {
    hide PatternCrypt;
    if subs != [] {
      var x, y := subs[0].clear, subs[0].clear + subs[0].cipher;
      if y <= |rest| {
        var st' := if pr.scheme == Cbcs then Begin(pr.Kind(), iv) else st;
        NothingCrypted(c, pr.Kind(), pr.Runs(), st', rest[x..y]);
        NothingDone(c, pr, iv, st', subs[1..], rest[y..]);
        Parts(rest, x, y);
      }
    }
  }

  /** The same scheme, and the same runs if it has a pattern. */
  predicate SameSetup(pr: Profile, pr': Profile) {
    pr.scheme == pr'.scheme && (pr.Patterned() ==> pr.Runs() == pr'.Runs())
  }

  lemma SameChunk(c: Cipher, pr: Profile, pr': Profile, iv: seq<byte>, st: Stream, text: seq<byte>)
    requires SameSetup(pr, pr') && Fits(pr.Kind(), st) && (|iv| == 8 || |iv| == 16)
    ensures DecryptChunk(c, pr, iv, st, text) == DecryptChunk(c, pr', iv, st, text)
  {
    hide PatternCrypt, Step;
  }

  lemma {:induction false} SameSubsamples(
      c: Cipher, pr: Profile, pr': Profile, iv: seq<byte>, st: Stream, subs: seq<Subsample>, rest: seq<byte>)
    requires SameSetup(pr, pr') && Fits(pr.Kind(), st) && (|iv| == 8 || |iv| == 16)
    ensures DecryptSubsamples(c, pr, iv, st, subs, rest) == DecryptSubsamples(c, pr', iv, st, subs, rest)
    decreases subs
  {
    hide DecryptChunk;
    if subs != [] {
      var x, y := subs[0].clear, subs[0].clear + subs[0].cipher;
      if y <= |rest| {
        SameChunk(c, pr, pr', iv, st, rest[x..y]);
        SameSubsamples(c, pr, pr', iv, DecryptChunk(c, pr, iv, st, rest[x..y]).next, subs[1..], rest[y..]);
      }
    }
  }

  lemma SameEffect(c: Cipher, pr: Profile, pr': Profile, iv: seq<byte>, subs: seq<Subsample>, buffer: seq<byte>)
    requires pr.scheme != OtherScheme && pr'.scheme != OtherScheme && EffectOf(pr) == EffectOf(pr')
    requires |iv| == 8 || |iv| == 16
    ensures DecryptSample(c, pr, iv, subs, buffer) == DecryptSample(c, pr', iv, subs, buffer)
  {
    hide PatternCrypt, Step, DecryptSubsamples;
    if EffectOf(pr) == Nothing {
      DoesNothing(c, pr, iv, subs, buffer);
      DoesNothing(c, pr', iv, subs, buffer);
    } else {
      assert SameSetup(pr, pr');
      SameChunk(c, pr, pr', iv, Begin(pr.Kind(), iv), buffer);
      SameSubsamples(c, pr, pr', iv, Begin(pr.Kind(), iv), subs, buffer);
    }
  }

  lemma DoesNothing(c: Cipher, pr: Profile, iv: seq<byte>, subs: seq<Subsample>, buffer: seq<byte>)
    requires pr.scheme != OtherScheme && EffectOf(pr) == Nothing && (|iv| == 8 || |iv| == 16)
    ensures DecryptSample(c, pr, iv, subs, buffer) == Decrypted(TotalSize(subs) <= |buffer|, buffer)
  {
    hide PatternCrypt, Step, DecryptSubsamples;
    var st := Begin(pr.Kind(), iv);
    NothingCrypted(c, pr.Kind(), pr.Runs(), st, buffer);
    NothingDone(c, pr, iv, st, subs, buffer);
  }

  // ---------------------------------------------------------------- different effects, a sample that tells

  /** The plaintext of a sample without subsamples. */
  function Plain(c: Cipher, pr: Profile, iv: seq<byte>, buffer: seq<byte>): (out: seq<byte>)
    requires |iv| == 8 || |iv| == 16
    ensures |out| == |buffer|
  {
    DecryptChunk(c, pr, iv, Begin(pr.Kind(), iv), buffer).out
  }

  lemma AlikePlain(pr: Profile, pr': Profile, c: Cipher, iv: seq<byte>, buffer: seq<byte>)
    requires |iv| == 8 || |iv| == 16
    requires Alike(pr, pr', |iv|) && c.Valid()
    ensures Plain(c, pr, iv, buffer) == Plain(c, pr', iv, buffer)
  {
    hide DecryptChunk, DecryptSubsamples;
    assert DecryptSample(c, pr, iv, [], buffer) == DecryptSample(c, pr', iv, [], buffer);
  }

  lemma AlikeSymmetric(pr: Profile, pr': Profile, size: nat)
    requires (size == 8 || size == 16) && Alike(pr, pr', size)
    ensures Alike(pr', pr, size)
  {
    hide DecryptSample;
  }

  /** On a block boundary of a stream that started from a zero IV and has met only zeros. */
  ghost predicate Zeroed(k: Kind, st: Stream) {
    (k == CtrKind && st.AtCounter? && st.start == Zeros(16) && st.pos % 16 == 0) || (k == CBC && st == Chain(Zeros(16)))
  }

  lemma BeginZeroed(pr: Profile, size: nat)
    requires size == 8 || size == 16
    ensures Zeroed(pr.Kind(), Begin(pr.Kind(), Zeros(size))) && Begin(CtrKind, Zeros(size)) == AtCounter(Zeros(16), 0)
  {
    assert PadBlock(Zeros(size)) == Zeros(16);
  }

  /** Decrypting zeros under the flipping cipher shows at the first byte. */
  lemma ZerosShow(k: Kind, st: Stream, n: nat)
    requires Zeroed(k, st) && (n >= 16 || (k == CtrKind && n > 0))
    ensures var o := Step(FLIP, k, st, Zeros(n));
            |o.out| == n && o.out[0] == 255 && (n % 16 == 0 ==> Zeroed(k, o.next))
  {
    hide Step, FLIP;
    if k == CBC {
      StepZeros(n);
    } else {
      CtrStep(FLIP, st, Zeros(n));
      CtrZeros(st.start, st.pos, n);
    }
  }

  lemma CtrStep(c: Cipher, st: Stream, text: seq<byte>)
    requires st.AtCounter?
    ensures Step(c, CtrKind, st, text)
            == Outcome(true, CtrCrypt(c, st.start, st.pos, text), AtCounter(st.start, st.pos + |text|))
  {
    hide CtrCrypt;
  }

  lemma CtrZeros(start: Block, pos: nat, n: nat)
    requires start[0] == 0 && pos % 16 == 0 && n > 0
    ensures CtrCrypt(FLIP, start, pos, Zeros(n))[0] == 255
  {
    hide CounterBlock, CtrCrypt, XorByte;
    CtrCryptByte(FLIP, start, pos, Zeros(n), 0);
    CounterHigh(start, pos / 16);
    XorByteZero(255);
  }

  lemma CounterHigh(start: Block, j: nat)
    ensures CounterBlock(start, j)[0] == start[0]
  {
  }

  /** One byte: only 'cenc' crypts less than a block. */
  lemma OneByte(pr: Profile, size: nat)
    requires pr.scheme != OtherScheme && (size == 8 || size == 16)
    ensures Plain(FLIP, pr, Zeros(size), Zeros(1))[0] == if pr.scheme == Cenc then 255 else 0
  {
    hide Step;
    var st := Begin(pr.Kind(), Zeros(size));
    BeginZeroed(pr, size);
    if pr.scheme == Cenc {
      ZerosShow(CtrKind, st, 1);
    } else if pr.scheme == Cbc1 {
      ShortStep(FLIP, Zeros(16), Zeros(1));
    } else {
      TooShortForRun(FLIP, pr, Zeros(size), Zeros(1));
    }
  }

  /** A sample shorter than a crypt run, or a pattern without crypt runs, is left alone. */
  lemma TooShortForRun(c: Cipher, pr: Profile, iv: seq<byte>, text: seq<byte>)
    requires pr.Patterned() && (pr.Runs().crypt == 0 || |text| < pr.Runs().crypt) && (|iv| == 8 || |iv| == 16)
    ensures Plain(c, pr, iv, text) == text
  {
    hide Step;
    if pr.Runs().crypt == 0 {
      NothingCrypted(c, pr.Kind(), pr.Runs(), Begin(pr.Kind(), iv), text);
    }
  }

  lemma RunShows(pr: Profile, size: nat)
    requires pr.Patterned() && pr.Runs().crypt > 0 && (size == 8 || size == 16)
    ensures Plain(FLIP, pr, Zeros(size), Zeros(pr.Runs().crypt))[0] == 255
  {
    hide Step, PatternCrypt, FLIP;
    var k, p, st := pr.Kind(), pr.Runs(), Begin(pr.Kind(), Zeros(size));
    BeginZeroed(pr, size);
    var z := Zeros(p.crypt);
    assert z[..p.crypt] == z;
    ZerosShow(k, st, p.crypt);
    PatternFirst(FLIP, k, p, st, z);
  }

  lemma SecondRunShows(pr: Profile, size: nat)
    requires pr.Patterned() && pr.Runs().crypt > 0 && (size == 8 || size == 16)
    ensures var p := pr.Runs();
            Plain(FLIP, pr, Zeros(size), Zeros(p.crypt + p.skip + p.crypt))[p.crypt + p.skip] == 255
  {
    hide Step, PatternCrypt, FLIP;
    var k, p, st := pr.Kind(), pr.Runs(), Begin(pr.Kind(), Zeros(size));
    BeginZeroed(pr, size);
    var z, x, y := Zeros(p.crypt + p.skip + p.crypt), p.crypt + p.skip, Zeros(p.crypt);
    assert Skipped(p, |z|) == p.skip;
    assert z[..p.crypt] == y && z[x..] == y && y[..p.crypt] == y;
    ZerosShow(k, st, p.crypt);
    var o := Step(FLIP, k, st, y);
    PatternFirst(FLIP, k, p, st, z);
    ZerosShow(k, o.next, p.crypt);
    PatternFirst(FLIP, k, p, o.next, y);
  }

  lemma SkippedHides(c: Cipher, pr: Profile, iv: seq<byte>, text: seq<byte>, i: nat)
    requires pr.Patterned() && (|iv| == 8 || |iv| == 16)
    requires pr.Runs().crypt <= i < pr.Runs().crypt + pr.Runs().skip && i < |text|
    ensures Plain(c, pr, iv, text)[i] == text[i]
  {
    hide Step, PatternCrypt;
    var p := pr.Runs();
    PatternFirst(c, pr.Kind(), p, Begin(pr.Kind(), iv), text);
  }

  // A cipher that moves bytes tells counter mode, which never moves any, from chaining.

  function Right(b: Block): (r: Block) {
    [b[15]] + b[..15]
  }

  function Left(b: Block): (r: Block) {
    b[1..] + [b[0]]
  }

  const ROTATE: Cipher := Cipher(Left, Right)

  lemma RotateValid()
    ensures ROTATE.Valid()
  {
    forall b: Block
      ensures ROTATE.dec(ROTATE.enc(b)) == b
    {
      assert Right(Left(b)) == b;
    }
  }

  function OneThenZeros(n: nat): (s: seq<byte>)
    requires n > 0
    ensures |s| == n
  {
    [1] + Zeros(n - 1)
  }

  lemma RotateStep(k: Kind, st: Stream, n: nat)
    requires n >= 16 && (k == CtrKind || k == CBC)
    requires st == if k == CtrKind then AtCounter(Zeros(16), 0) else Chain(Zeros(16))
    ensures var o := Step(ROTATE, k, st, OneThenZeros(n));
            |o.out| == n && o.out[0] == if k == CtrKind then 1 else 0
  {
    hide XorByte, CbcDecrypt, CtrCrypt;
    var text := OneThenZeros(n);
    if k == CtrKind {
      CtrCryptByte(ROTATE, Zeros(16), 0, text, 0);
      CounterBlockZero(Zeros(16));
      XorByteZeroRight(1);
    } else {
      RotateBlock(Zeros(16), WholePart(text));
      XorByteZero(0);
    }
  }

  lemma RotateBlock(iv: Block, q: seq<byte>)
    requires Whole(q) && |q| >= 16
    ensures CbcDecrypt(ROTATE, iv, q)[0] == XorByte(q[15], iv[0])
  {
    hide XorByte;
    var b := q[..16];
    assert Xor(Right(b), iv)[0] == XorByte(q[15], iv[0]);
  }

  lemma RotatePlain(pr: Profile, size: nat, n: nat)
    requires pr.scheme != OtherScheme && pr.scheme != Cenc && (size == 8 || size == 16)
    requires n >= 16 && (pr.Patterned() ==> pr.Runs().crypt == n)
    ensures Plain(ROTATE, pr, Zeros(size), OneThenZeros(n))[0] == if pr.Kind() == CtrKind then 1 else 0
  {
    hide Step, PatternCrypt, ROTATE;
    var k, st, text := pr.Kind(), Begin(pr.Kind(), Zeros(size)), OneThenZeros(n);
    BeginZeroed(pr, size);
    RotateStep(k, st, n);
    if pr.Patterned() {
      assert text[..n] == text;
      PatternFirst(ROTATE, k, pr.Runs(), st, text);
    }
  }

  // Two subsamples tell a stream that goes on from one that starts again.

  function TwoBlocks(): seq<Subsample> {
    [Subsample(0, 16), Subsample(0, 16)]
  }

  lemma FirstBlock(c: Cipher, pr: Profile, iv: seq<byte>, st: Stream, subs: seq<Subsample>, a: Block, b: seq<byte>)
    requires Fits(pr.Kind(), st) && (|iv| == 8 || |iv| == 16)
    ensures var o := DecryptChunk(c, pr, iv, st, a);
            DecryptSubsamples(c, pr, iv, st, [Subsample(0, 16)] + subs, a + b).buffer
            == o.out + DecryptSubsamples(c, pr, iv, o.next, subs, b).buffer
  {
    hide DecryptChunk;
    var s, all := a + b, [Subsample(0, 16)] + subs;
    assert all[1..] == subs && s[0..16] == a && s[16..] == b && s[..0] == [];
    var o := DecryptChunk(c, pr, iv, st, a);
    var r := DecryptSubsamples(c, pr, iv, o.next, subs, b).buffer;
    assert [] + (o.out + r) == o.out + r;
  }

  lemma TwoBlocksPlain(c: Cipher, pr: Profile, iv: seq<byte>, a: Block, b: Block)
    requires |iv| == 8 || |iv| == 16
    ensures var o := DecryptChunk(c, pr, iv, Begin(pr.Kind(), iv), a);
            DecryptSample(c, pr, iv, TwoBlocks(), a + b).buffer[16] == DecryptChunk(c, pr, iv, o.next, b).out[0]
  {
    hide DecryptChunk, DecryptSubsamples;
    var st := Begin(pr.Kind(), iv);
    var o := DecryptChunk(c, pr, iv, st, a);
    assert TwoBlocks() == [Subsample(0, 16)] + ([Subsample(0, 16)] + []);
    assert b == b + [];
    FirstBlock(c, pr, iv, st, [Subsample(0, 16)] + [], a, b);
    FirstBlock(c, pr, iv, o.next, [], b, []);
  }

  /** The block before the second one, or the IV again. */
  lemma SecondBlock(pr: Profile, size: nat)
    requires pr.scheme == Cbc1 || (pr.scheme == Cbcs && pr.Runs().crypt == 16)
    requires size == 8 || size == 16
    ensures DecryptSample(ROTATE, pr, Zeros(size), TwoBlocks(), OneThenZeros(16) + Zeros(16)).buffer[16]
            == if pr.scheme == Cbc1 then 1 else 0
  {
    hide PatternCrypt, Step, DecryptSample, ROTATE;
    var iv, a, b: Block := Zeros(size), OneThenZeros(16), Zeros(16);
    var st := Begin(pr.Kind(), iv);
    BeginZeroed(pr, size);
    TwoBlocksPlain(ROTATE, pr, iv, a, b);
    RotateSecond(a, b);
    if pr.scheme == Cbcs {
      assert b[..16] == b;
      PatternFirst(ROTATE, CBC, pr.Runs(), st, b);
    }
  }

  lemma RotateSecond(a: Block, b: Block)
    requires a == OneThenZeros(16) && b == Zeros(16)
    ensures Step(ROTATE, CBC, Chain(Zeros(16)), a).next == Chain(a)
    ensures Step(ROTATE, CBC, Chain(a), b).out[0] == 1
    ensures Step(ROTATE, CBC, Chain(Zeros(16)), b).out[0] == 0
  {
    assert WholePart(a) == a && WholePart(b) == b;
    RotateBlock(a, b);
    RotateBlock(Zeros(16), b);
    XorByteZero(1);
    XorByteZero(0);
  }

  // ---------------------------------------------------------------- the same samples, the same effect

  lemma TellsCenc(pr: Profile, pr': Profile, size: nat)
    requires pr.scheme != OtherScheme && pr'.scheme != OtherScheme && (size == 8 || size == 16)
    requires Alike(pr, pr', size)
    ensures pr.scheme == Cenc <==> pr'.scheme == Cenc
  {
    hide Plain, Alike;
    FlipValid();
    OneByte(pr, size);
    OneByte(pr', size);
    AlikePlain(pr, pr', FLIP, Zeros(size), Zeros(1));
  }

  /** Crypt runs of different sizes: a sample of the smaller size, or of the only one. */
  lemma TellsRuns(pr: Profile, pr': Profile, size: nat)
    requires pr.Patterned() && pr'.Patterned() && (size == 8 || size == 16) && Alike(pr, pr', size)
    requires pr.Runs().crypt > 0
    ensures 0 < pr'.Runs().crypt <= pr.Runs().crypt
  {
    hide Plain, Alike, FLIP;
    var n := pr.Runs().crypt;
    if pr'.Runs().crypt == 0 || n < pr'.Runs().crypt {
      FlipValid();
      RunShows(pr, size);
      TooShortForRun(FLIP, pr', Zeros(size), Zeros(n));
      AlikePlain(pr, pr', FLIP, Zeros(size), Zeros(n));
    }
  }

  lemma TellsSkips(pr: Profile, pr': Profile, size: nat)
    requires pr.Patterned() && pr'.Patterned() && (size == 8 || size == 16) && Alike(pr, pr', size)
    requires pr.Runs().crypt == pr'.Runs().crypt > 0
    ensures pr.Runs().skip >= pr'.Runs().skip
  {
    hide Plain, Alike, FLIP;
    var p := pr.Runs();
    if p.skip < pr'.Runs().skip {
      var z := Zeros(p.crypt + p.skip + p.crypt);
      FlipValid();
      SecondRunShows(pr, size);
      SkippedHides(FLIP, pr', Zeros(size), z, p.crypt + p.skip);
      AlikePlain(pr, pr', FLIP, Zeros(size), z);
    }
  }

  lemma TellsMode(pr: Profile, pr': Profile, size: nat, n: nat)
    requires (size == 8 || size == 16) && Alike(pr, pr', size) && n >= 16
    requires pr.scheme != OtherScheme && pr.scheme != Cenc && (pr.Patterned() ==> pr.Runs().crypt == n)
    requires pr'.scheme != OtherScheme && pr'.scheme != Cenc && (pr'.Patterned() ==> pr'.Runs().crypt == n)
    ensures pr.Kind() == pr'.Kind()
  {
    hide Plain, Alike, ROTATE;
    RotateValid();
    RotatePlain(pr, size, n);
    RotatePlain(pr', size, n);
    AlikePlain(pr, pr', ROTATE, Zeros(size), OneThenZeros(n));
  }

  lemma Cbc1Shows(pr: Profile, size: nat, n: nat, i: nat)
    requires pr.scheme == Cbc1 && (size == 8 || size == 16) && n % 16 == 0 && i < n
    ensures Plain(FLIP, pr, Zeros(size), Zeros(n))[i] == 255
  {
    hide Step, FLIP;
    BeginZeroed(pr, size);
    StepZeros(n);
  }

  lemma TellsCbc1(pr: Profile, pr': Profile, size: nat)
    requires pr.scheme == Cbc1 && pr'.Patterned() && (size == 8 || size == 16)
    ensures !Alike(pr, pr', size)
  {
    hide Plain, Alike, FLIP, ROTATE, DecryptSample;
    var p := pr'.Runs();
    if Alike(pr, pr', size) {
      FlipValid();
      Cbc1Shows(pr, size, 16, 0);
      Cbc1Shows(pr, size, 32, 16);
      AlikePlain(pr, pr', FLIP, Zeros(size), Zeros(16));
      AlikePlain(pr, pr', FLIP, Zeros(size), Zeros(32));
      if p.crypt != 16 {
        TooShortForRun(FLIP, pr', Zeros(size), Zeros(16));
      } else if pr'.scheme == Cens {
        TellsMode(pr, pr', size, 16);
      } else if p.skip > 0 {
        SkippedHides(FLIP, pr', Zeros(size), Zeros(32), 16);
      } else {
        RotateValid();
        SecondBlock(pr, size);
        SecondBlock(pr', size);
        AlikeTwo(pr, pr', ROTATE, Zeros(size), OneThenZeros(16) + Zeros(16));
      }
    }
  }

  lemma AlikeTwo(pr: Profile, pr': Profile, c: Cipher, iv: seq<byte>, buffer: seq<byte>)
    requires |iv| == 8 || |iv| == 16
    requires Alike(pr, pr', |iv|) && c.Valid()
    ensures DecryptSample(c, pr, iv, TwoBlocks(), buffer) == DecryptSample(c, pr', iv, TwoBlocks(), buffer)
  {
    hide DecryptSample;
  }

  lemma TellsPatterns(pr: Profile, pr': Profile, size: nat)
    requires pr.Patterned() && pr'.Patterned() && (size == 8 || size == 16) && Alike(pr, pr', size)
    ensures EffectOf(pr) == EffectOf(pr')
  {
    hide Alike;
    AlikeSymmetric(pr, pr', size);
    if pr.Runs().crypt > 0 {
      TellsRuns(pr, pr', size);
    }
    if pr'.Runs().crypt > 0 {
      TellsRuns(pr', pr, size);
    }
    if pr.Runs().crypt > 0 {
      TellsSkips(pr, pr', size);
      TellsSkips(pr', pr, size);
      TellsMode(pr, pr', size, pr.Runs().crypt);
    }
  }

  /** Two profiles decrypt every sample alike exactly if they have the same effect. */
  lemma AlikeIffSameEffect(pr: Profile, pr': Profile, size: nat)
    requires pr.scheme != OtherScheme && pr'.scheme != OtherScheme && (size == 8 || size == 16)
    ensures Alike(pr, pr', size) <==> EffectOf(pr) == EffectOf(pr')
  {
    if EffectOf(pr) == EffectOf(pr') {
      forall c: Cipher, iv: seq<byte>, subs: seq<Subsample>, buffer: seq<byte> | c.Valid() && |iv| == size
        ensures DecryptSample(c, pr, iv, subs, buffer) == DecryptSample(c, pr', iv, subs, buffer)
      {
        SameEffect(c, pr, pr', iv, subs, buffer);
      }
    }
    if Alike(pr, pr', size) {
      hide Alike;
      TellsCenc(pr, pr', size);
      AlikeSymmetric(pr, pr', size);
      if pr.Patterned() && pr'.Patterned() {
        TellsPatterns(pr, pr', size);
      } else if pr.scheme == Cbc1 && pr'.Patterned() {
        TellsCbc1(pr, pr', size);
      } else if pr'.scheme == Cbc1 && pr.Patterned() {
        TellsCbc1(pr', pr, size);
      }
    }
  }
}
