/** Decrypting one sample: which decryptor a protection scheme gets, and what the subsample loop does. */
module SampleDecryption {
  import opened Bytes
  import opened Cbc
  import opened CryptStream
  import opened Masking
  import opened Pattern

  datatype Scheme = Cenc | Cbc1 | Cens | Cbcs | OtherScheme

  /** What a decryptor is built from, besides the key. */
  datatype Profile = Profile(scheme: Scheme, cryptBlocks: nat, skipBlocks: nat) {
    function Kind(): (k: Kind)
      ensures Chained(k)
    {
      if scheme == Cenc || scheme == Cens then CtrKind else CbcDecryptor(NoPadding)
    }

    predicate Patterned() {
      scheme == Cens || scheme == Cbcs
    }

    function Runs(): (p: Runs)
      ensures p.Valid()
    {
      RunsOf(cryptBlocks, skipBlocks, EncryptIfCryptByteBlockRemaining)
    }
  }

  datatype Subsample = Subsample(clear: nat, cipher: nat)

  datatype Decrypted = Decrypted(ok: bool, buffer: seq<byte>)

  /** One Crypt call of the decryptor for a profile. 'cbcs' starts every call from the IV. */
  function DecryptChunk(c: Cipher, pr: Profile, iv: seq<byte>, st: Stream, text: seq<byte>): (r: Result)
    requires Fits(pr.Kind(), st) && (|iv| == 8 || |iv| == 16)
    ensures Fits(pr.Kind(), r.next) && |r.out| == |text|
  {
    if pr.Patterned() then
      var st' := if pr.scheme == Cbcs then Begin(pr.Kind(), iv) else st;
      PatternLength(c, pr.Kind(), pr.Runs(), st', text);
      PatternCrypt(c, pr.Kind(), pr.Runs(), st', text)
    else
      StepLength(c, pr.Kind(), st, text);
      var o := Step(c, pr.Kind(), st, text);
      Result(o.out, o.next)
  }

  lemma PatternLength(c: Cipher, k: Kind, p: Runs, st: Stream, text: seq<byte>)
    requires p.Valid() && Fits(k, st) && Chained(k)
    ensures |PatternCrypt(c, k, p, st, text).out| == |text|
  {
    PatternIsOneStream(c, k, p, st, text);
  }

  /** The subsample loop on what is left of the buffer: it stops, keeping what it has done, at a
      subsample that does not fit. */
  function DecryptSubsamples(c: Cipher, pr: Profile, iv: seq<byte>, st: Stream, subs: seq<Subsample>, rest: seq<byte>)
    : (r: Decrypted)
    requires Fits(pr.Kind(), st) && (|iv| == 8 || |iv| == 16)
    ensures |r.buffer| == |rest|
    decreases subs
  {
    if subs == [] then Decrypted(true, rest)
    else
      var x := subs[0].clear;
      var y := x + subs[0].cipher;
      if y > |rest| then Decrypted(false, rest)
      else
        var o := DecryptChunk(c, pr, iv, st, rest[x..y]);
        var r := DecryptSubsamples(c, pr, iv, o.next, subs[1..], rest[y..]);
        Decrypted(r.ok, rest[..x] + (o.out + r.buffer))
  }

  /** A sample decrypted by a decryptor whose IV has just been set. */
  function DecryptSample(c: Cipher, pr: Profile, iv: seq<byte>, subs: seq<Subsample>, buffer: seq<byte>)
    : (r: Decrypted)
    requires |iv| == 8 || |iv| == 16
    ensures |r.buffer| == |buffer|
  {
    var st := Begin(pr.Kind(), iv);
    if subs == [] then Decrypted(true, DecryptChunk(c, pr, iv, st, buffer).out)
    else DecryptSubsamples(c, pr, iv, st, subs, buffer)
  }

  // ---------------------------------------------------------------- one logical stream

  function TotalSize(subs: seq<Subsample>): nat {
    if subs == [] then 0 else subs[0].clear + subs[0].cipher + TotalSize(subs[1..])
  }

  /** Marks the cipher bytes of the subsamples in a buffer of n bytes; what follows them is clear. */
  function SubsampleMask(subs: seq<Subsample>, n: nat): (mask: seq<bool>)
    requires TotalSize(subs) <= n
    ensures |mask| == n
    decreases subs
  {
    if subs == [] then Fill(false, n)
    else
      Fill(false, subs[0].clear)
      + (Fill(true, subs[0].cipher) + SubsampleMask(subs[1..], n - (subs[0].clear + subs[0].cipher)))
  }

  /** Every subsample's cipher bytes are whole blocks, except where what is left of the stream, residue
      included, is less than a block. */
  ghost predicate StreamAligned(subs: seq<Subsample>) {
    subs == [] ||
    (if subs[0].cipher % 16 == 0 then StreamAligned(subs[1..])
     else subs[0].cipher % 16 + CipherSize(subs[1..]) < 16)
  }

  function CipherSize(subs: seq<Subsample>): nat {
    if subs == [] then 0 else subs[0].cipher + CipherSize(subs[1..])
  }

  /** The cipher bytes of all subsamples, decrypted as one stream and put back; all else unchanged. */
  function AsOneStream(c: Cipher, k: Kind, st: Stream, subs: seq<Subsample>, buffer: seq<byte>): (r: seq<byte>)
    requires Fits(k, st) && Chained(k) && TotalSize(subs) <= |buffer|
  {
    var mask := SubsampleMask(subs, |buffer|);
    var g := Gather(buffer, mask);
    StepLength(c, k, st, g);
    Scatter(buffer, mask, Step(c, k, st, g).out)
  }

  /** The cipher bytes decrypted subsample by subsample. */
  function ChunkStream(c: Cipher, k: Kind, st: Stream, subs: seq<Subsample>, g: seq<byte>): (r: seq<byte>)
    requires Fits(k, st) && Chained(k) && |g| == CipherSize(subs)
    ensures |r| == |g|
    decreases subs
  {
    if subs == [] then []
    else
      var n := subs[0].cipher;
      var o := Step(c, k, st, g[..n]);
      StepLength(c, k, st, g[..n]);
      o.out + ChunkStream(c, k, o.next, subs[1..], g[n..])
  }

  lemma {:induction false} MaskSize(subs: seq<Subsample>, n: nat)
    requires TotalSize(subs) <= n
    ensures Marked(SubsampleMask(subs, n)) == CipherSize(subs)
    decreases subs
  {
    if subs == [] {
      EmptyMask(Zeros(n));
    } else {
      var x, y := subs[0].clear, subs[0].cipher;
      MaskSize(subs[1..], n - (x + y));
      EmptyMask(Zeros(x));
      FullMask(Zeros(y), Zeros(y));
      MarkedConcat(Fill(true, y), SubsampleMask(subs[1..], n - (x + y)));
      MarkedConcat(Fill(false, x), Fill(true, y) + SubsampleMask(subs[1..], n - (x + y)));
    }
  }

  /** The loop succeeds exactly when the subsamples fit the buffer. */
  lemma {:induction false} FitsIffOk(
      c: Cipher, pr: Profile, iv: seq<byte>, st: Stream, subs: seq<Subsample>, rest: seq<byte>)
    requires Fits(pr.Kind(), st) && (|iv| == 8 || |iv| == 16)
    ensures DecryptSubsamples(c, pr, iv, st, subs, rest).ok <==> TotalSize(subs) <= |rest|
    decreases subs
  {
    hide DecryptChunk;
    if subs != [] {
      var x, y := subs[0].clear, subs[0].clear + subs[0].cipher;
      if y <= |rest| {
        FitsIffOk(c, pr, iv, DecryptChunk(c, pr, iv, st, rest[x..y]).next, subs[1..], rest[y..]);
      }
    }
  }

  /** A subsample that does not fit ends the loop; what the subsamples before it did stays. */
  lemma {:induction false} OverflowKeepsWork(
      c: Cipher, pr: Profile, iv: seq<byte>, st: Stream, subs: seq<Subsample>, rest: seq<byte>, k: nat)
    requires Fits(pr.Kind(), st) && (|iv| == 8 || |iv| == 16) && k < |subs|
    requires TotalSize(subs[..k]) <= |rest| < TotalSize(subs[..k]) + subs[k].clear + subs[k].cipher
    ensures DecryptSubsamples(c, pr, iv, st, subs, rest)
            == Decrypted(false, DecryptSubsamples(c, pr, iv, st, subs[..k], rest).buffer)
    decreases k
  {
    hide DecryptChunk;
    if k > 0 {
      var x, y := subs[0].clear, subs[0].clear + subs[0].cipher;
      assert subs[..k][1..] == subs[1..][..k - 1] && subs[1..][k - 1] == subs[k] && subs[..k][0] == subs[0];
      OverflowKeepsWork(c, pr, iv, DecryptChunk(c, pr, iv, st, rest[x..y]).next, subs[1..], rest[y..], k - 1);
    }
  }

  /** i clear bytes, n marked bytes, and a masked rest. */
  lemma ClearThenMarked(t: seq<byte>, i: nat, n: nat, m: seq<bool>, gy: seq<byte>, g: seq<byte>)
    requires i + n <= |t| && |m| == |t| - (i + n) && |gy| == n && |g| == Marked(m)
    ensures var full := Fill(false, i) + (Fill(true, n) + m);
            && Marked(full) == |gy + g|
            && Gather(t, full) == t[i..i + n] + Gather(t[i + n..], m)
            && Scatter(t, full, gy + g) == t[..i] + (gy + Scatter(t[i + n..], m, g))
  {
    hide Gather, Scatter, Marked, Fill;
    var x, y, z := t[..i], t[i..i + n], t[i + n..];
    Parts(t, i, i + n);
    EmptyMask(x);
    FullMask(y, gy);
    GatherConcat(y, Fill(true, n), z, m);
    GatherConcat(x, Fill(false, i), y + z, Fill(true, n) + m);
    ScatterConcat(y, Fill(true, n), gy, z, m, g);
    ScatterConcat(x, Fill(false, i), [], y + z, Fill(true, n) + m, gy + g);
    assert [] + (gy + g) == gy + g && [] + (y + Gather(z, m)) == y + Gather(z, m);
  }

  lemma MaskCons(subs: seq<Subsample>, n: nat)
    requires subs != [] && TotalSize(subs) <= n
    ensures SubsampleMask(subs, n)
            == Fill(false, subs[0].clear)
               + (Fill(true, subs[0].cipher) + SubsampleMask(subs[1..], n - (subs[0].clear + subs[0].cipher)))
  {
  }

  /** What the mask takes out and puts back in the first subsample and after it. */
  lemma FirstSubsample(
      subs: seq<Subsample>, buffer: seq<byte>, mask: seq<bool>, m: seq<bool>, gy: seq<byte>, g: seq<byte>)
    requires subs != [] && TotalSize(subs) <= |buffer| && |gy| == subs[0].cipher
    requires mask == SubsampleMask(subs, |buffer|)
    requires m == SubsampleMask(subs[1..], |buffer| - (subs[0].clear + subs[0].cipher)) && |g| == Marked(m)
    ensures var x, y := subs[0].clear, subs[0].clear + subs[0].cipher;
            && Marked(mask) == |gy + g|
            && Gather(buffer, mask) == buffer[x..y] + Gather(buffer[y..], m)
            && Scatter(buffer, mask, gy + g) == buffer[..x] + (gy + Scatter(buffer[y..], m, g))
  {
    hide Gather, Scatter, Marked, Fill, TotalSize;
    MaskCons(subs, |buffer|);
    ClearThenMarked(buffer, subs[0].clear, subs[0].cipher, m, gy, g);
  }

  /** Without a pattern, the loop decrypts the cipher bytes subsample by subsample and leaves every clear
      and trailing byte as it was. */
  lemma {:induction false} LoopScatters(
      c: Cipher, pr: Profile, iv: seq<byte>, st: Stream, subs: seq<Subsample>, buffer: seq<byte>)
    requires Fits(pr.Kind(), st) && (|iv| == 8 || |iv| == 16) && !pr.Patterned()
    requires TotalSize(subs) <= |buffer|
    ensures var mask := SubsampleMask(subs, |buffer|);
            && Marked(mask) == CipherSize(subs)
            && DecryptSubsamples(c, pr, iv, st, subs, buffer)
               == Decrypted(true, Scatter(buffer, mask, ChunkStream(c, pr.Kind(), st, subs, Gather(buffer, mask))))
    decreases subs
  {
    hide Step, Gather, Scatter, Marked;
    var mask := SubsampleMask(subs, |buffer|);
    MaskSize(subs, |buffer|);
    if subs == [] {
      EmptyMask(buffer);
    } else {
      var k, x, y := pr.Kind(), subs[0].clear, subs[0].clear + subs[0].cipher;
      var m := SubsampleMask(subs[1..], |buffer| - y);
      MaskSize(subs[1..], |buffer| - y);
      var o, g := Step(c, k, st, buffer[x..y]), Gather(buffer[y..], m);
      LoopScatters(c, pr, iv, o.next, subs[1..], buffer[y..]);
      StepLength(c, k, st, buffer[x..y]);
      FirstSubsample(subs, buffer, mask, m, o.out, ChunkStream(c, k, o.next, subs[1..], g));
      ChunkStreamCons(c, k, st, subs, buffer[x..y], g);
    }
  }

  lemma ChunkStreamCons(c: Cipher, k: Kind, st: Stream, subs: seq<Subsample>, a: seq<byte>, g: seq<byte>)
    requires Fits(k, st) && Chained(k) && subs != [] && |a| == subs[0].cipher && |g| == CipherSize(subs[1..])
    ensures var o := Step(c, k, st, a);
            ChunkStream(c, k, st, subs, a + g) == o.out + ChunkStream(c, k, o.next, subs[1..], g)
  {
    hide Step;
    assert (a + g)[..|a|] == a && (a + g)[|a|..] == g;
  }
}
