/** Subsamples under the schemes with a pattern. */
module PatternSubsamples {
  import opened Bytes
  import opened Cbc
  import opened CryptStream
  import opened Masking
  import opened Pattern
  import opened SampleDecryption

  /** Marks what the pattern, begun anew in every subsample, crypts of a buffer of n bytes. */
  function PatternedMask(p: Runs, subs: seq<Subsample>, n: nat): (mask: seq<bool>)
    requires p.Valid() && TotalSize(subs) <= n
    ensures |mask| == n
    decreases subs
  {
    if subs == [] then Fill(false, n)
    else
      Fill(false, subs[0].clear)
      + (PatternMask(p, subs[0].cipher) + PatternedMask(p, subs[1..], n - (subs[0].clear + subs[0].cipher)))
  }

  /** Clear bytes, masked bytes, and a masked rest. */
  lemma ThreeStretches(
      x: seq<byte>, y: seq<byte>, z: seq<byte>, pm: seq<bool>, m: seq<bool>, gy: seq<byte>, g: seq<byte>)
    requires |pm| == |y| && |m| == |z| && |gy| == Marked(pm) && |g| == Marked(m)
    ensures var full := Fill(false, |x|) + (pm + m);
            && Marked(full) == |gy + g|
            && Gather(x + (y + z), full) == Gather(y, pm) + Gather(z, m)
            && Scatter(x + (y + z), full, gy + g) == x + (Scatter(y, pm, gy) + Scatter(z, m, g))
  {
    hide Gather, Scatter, Marked, Fill;
    EmptyMask(x);
    GatherConcat(y, pm, z, m);
    ScatterConcat(y, pm, gy, z, m, g);
    ClearInFront(x, y + z, pm + m, gy + g);
  }

  lemma ClearInFront(x: seq<byte>, t: seq<byte>, m: seq<bool>, g: seq<byte>)
    requires |t| == |m| && |g| == Marked(m)
    ensures var full := Fill(false, |x|) + m;
            && Marked(full) == |g|
            && Gather(x + t, full) == Gather(t, m)
            && Scatter(x + t, full, g) == x + Scatter(t, m, g)
  {
    hide Gather, Scatter, Marked, Fill;
    EmptyMask(x);
    GatherConcat(x, Fill(false, |x|), t, m);
    ScatterConcat(x, Fill(false, |x|), [], t, m, g);
    assert [] + g == g && [] + Gather(t, m) == Gather(t, m);
  }

  lemma PatternedMaskCons(p: Runs, subs: seq<Subsample>, n: nat)
    requires p.Valid() && subs != [] && TotalSize(subs) <= n
    ensures PatternedMask(p, subs, n)
            == Fill(false, subs[0].clear)
               + (PatternMask(p, subs[0].cipher) + PatternedMask(p, subs[1..], n - (subs[0].clear + subs[0].cipher)))
  {
  }

  /** What the mask takes out and puts back in the first subsample and after it. */
  lemma FirstPatterned(
      p: Runs, subs: seq<Subsample>, x: seq<byte>, y: seq<byte>, z: seq<byte>, mask: seq<bool>, m: seq<bool>,
      gy: seq<byte>, g: seq<byte>)
    requires p.Valid() && subs != [] && TotalSize(subs) <= |x| + |y| + |z|
    requires |x| == subs[0].clear && |y| == subs[0].cipher && mask == PatternedMask(p, subs, |x| + |y| + |z|)
    requires |gy| == Marked(PatternMask(p, |y|)) && m == PatternedMask(p, subs[1..], |z|) && |g| == Marked(m)
    ensures Marked(mask) == |gy + g|
    ensures Gather(x + (y + z), mask) == Gather(y, PatternMask(p, |y|)) + Gather(z, m)
    ensures Scatter(x + (y + z), mask, gy + g) == x + (Scatter(y, PatternMask(p, |y|), gy) + Scatter(z, m, g))
  {
    hide Gather, Scatter, Marked, Fill, TotalSize, PatternMask, PatternedMask;
    PatternedMaskCons(p, subs, |x| + |y| + |z|);
    ThreeStretches(x, y, z, PatternMask(p, |y|), m, gy, g);
  }

  // ---------------------------------------------------------------- 'cens'

  /** The loop is one counter stream over everything the pattern crypts in all subsamples. */
  lemma {:induction false} CensLoop(
      c: Cipher, pr: Profile, iv: seq<byte>, st: Stream, subs: seq<Subsample>, buffer: seq<byte>, mask: seq<bool>)
    requires pr.scheme == Cens && Fits(CtrKind, st) && (|iv| == 8 || |iv| == 16) && TotalSize(subs) <= |buffer|
    requires mask == PatternedMask(pr.Runs(), subs, |buffer|)
    ensures var o := Step(c, CtrKind, st, Gather(buffer, mask));
            && |o.out| == Marked(mask)
            && DecryptSubsamples(c, pr, iv, st, subs, buffer) == Decrypted(true, Scatter(buffer, mask, o.out))
    decreases subs
  {
    hide Step, Gather, Scatter, Marked, PatternMask, PatternCrypt;
    StepLength(c, CtrKind, st, Gather(buffer, mask));
    if subs == [] {
      EmptyMask(buffer);
      StepEmpty(c, CtrKind, st);
    } else {
      var p, i, j := pr.Runs(), subs[0].clear, subs[0].clear + subs[0].cipher;
      LoopTurn(c, pr, iv, st, subs, buffer);
      var x, y, z := buffer[..i], buffer[i..j], buffer[j..];
      Parts(buffer, i, j);
      var m := PatternedMask(p, subs[1..], |z|);
      PatternIsOneStream(c, CtrKind, p, st, y);
      var a, b := Gather(y, PatternMask(p, |y|)), Gather(z, m);
      var o := Step(c, CtrKind, st, a);
      CensLoop(c, pr, iv, o.next, subs[1..], z, m);
      FirstPatterned(p, subs, x, y, z, mask, m, o.out, Step(c, CtrKind, o.next, b).out);
      StepAppend(c, CtrKind, st, a, b);
    }
  }

  lemma LoopTurn(c: Cipher, pr: Profile, iv: seq<byte>, st: Stream, subs: seq<Subsample>, buffer: seq<byte>)
    requires Fits(pr.Kind(), st) && (|iv| == 8 || |iv| == 16) && subs != [] && TotalSize(subs) <= |buffer|
    ensures var x, y := subs[0].clear, subs[0].clear + subs[0].cipher;
            var o := DecryptChunk(c, pr, iv, st, buffer[x..y]);
            var r := DecryptSubsamples(c, pr, iv, o.next, subs[1..], buffer[y..]);
            && y <= |buffer|
            && DecryptSubsamples(c, pr, iv, st, subs, buffer) == Decrypted(r.ok, buffer[..x] + (o.out + r.buffer))
  {
    hide DecryptChunk;
  }

  /** 'cens': the bytes the pattern crypts in all subsamples, decrypted as one stream and put back; all else as
      it was. */
  lemma CensIsOneStream(c: Cipher, pr: Profile, iv: seq<byte>, subs: seq<Subsample>, buffer: seq<byte>)
    requires pr.scheme == Cens && (|iv| == 8 || |iv| == 16) && subs != [] && TotalSize(subs) <= |buffer|
    ensures var mask := PatternedMask(pr.Runs(), subs, |buffer|);
            var o := Step(c, CtrKind, Begin(CtrKind, iv), Gather(buffer, mask));
            && |o.out| == Marked(mask)
            && DecryptSample(c, pr, iv, subs, buffer) == Decrypted(true, Scatter(buffer, mask, o.out))
  {
    hide Step, Gather, Scatter, Marked, PatternedMask, DecryptSubsamples;
    CensLoop(c, pr, iv, Begin(CtrKind, iv), subs, buffer, PatternedMask(pr.Runs(), subs, |buffer|));
  }

  // ---------------------------------------------------------------- 'cbcs'

  /** Where subsample k starts. */
  function Offset(subs: seq<Subsample>, k: nat): (x: nat)
    requires k <= |subs|
    decreases k
  {
    if k == 0 then 0 else subs[0].clear + subs[0].cipher + Offset(subs[1..], k - 1)
  }

  /** One range decrypted from the IV: what the pattern crypts of it is one stream, the rest stays. */
  function FromIv(c: Cipher, p: Runs, iv: seq<byte>, text: seq<byte>): (r: seq<byte>)
    requires p.Valid() && (|iv| == 8 || |iv| == 16)
  {
    var k, mask := CbcDecryptor(NoPadding), PatternMask(p, |text|);
    var g := Gather(text, mask);
    StepLength(c, k, Begin(k, iv), g);
    Scatter(text, mask, Step(c, k, Begin(k, iv), g).out)
  }

  lemma ChunkFromIv(c: Cipher, pr: Profile, iv: seq<byte>, st: Stream, text: seq<byte>)
    requires pr.scheme == Cbcs && Fits(pr.Kind(), st) && (|iv| == 8 || |iv| == 16)
    ensures DecryptChunk(c, pr, iv, st, text).out == FromIv(c, pr.Runs(), iv, text)
  {
    hide Step, Gather, Scatter, Marked, PatternMask, PatternCrypt;
    PatternIsOneStream(c, pr.Kind(), pr.Runs(), Begin(pr.Kind(), iv), text);
  }

  /** In r the subsample that starts at a has its clear range unchanged and its cipher range decrypted from
      the IV. */
  ghost predicate Done(
      c: Cipher, p: Runs, iv: seq<byte>, sub: Subsample, a: nat, buffer: seq<byte>, r: seq<byte>)
    requires p.Valid() && (|iv| == 8 || |iv| == 16)
  {
    var x := a + sub.clear;
    var y := x + sub.cipher;
    && y <= |buffer| == |r|
    && r[a..x] == buffer[a..x]
    && r[x..y] == FromIv(c, p, iv, buffer[x..y])
  }

  lemma DoneFirst(c: Cipher, p: Runs, iv: seq<byte>, sub: Subsample, buffer: seq<byte>, out: seq<byte>, r: seq<byte>)
    requires p.Valid() && (|iv| == 8 || |iv| == 16)
    requires var y := sub.clear + sub.cipher;
             && y <= |buffer| && |out| == sub.cipher && |r| == |buffer| - y
             && out == FromIv(c, p, iv, buffer[sub.clear..y])
    ensures Done(c, p, iv, sub, 0, buffer, buffer[..sub.clear] + (out + r))
  {
    hide FromIv;
    FrontRanges(buffer[..sub.clear], out, r);
  }

  lemma DoneLater(c: Cipher, p: Runs, iv: seq<byte>, sub: Subsample, a: nat, buffer: seq<byte>, x: nat, y: nat,
                  out: seq<byte>, r: seq<byte>)
    requires p.Valid() && (|iv| == 8 || |iv| == 16)
    requires x <= y <= |buffer| && |out| == y - x && Done(c, p, iv, sub, a, buffer[y..], r)
    ensures Done(c, p, iv, sub, y + a, buffer, buffer[..x] + (out + r))
  {
    hide FromIv;
    var b := a + sub.clear;
    BackRange(buffer[..x], out, r, a, b);
    BackRange(buffer[..x], out, r, b, b + sub.cipher);
    SliceSlice(buffer, y, |buffer|, a, b);
    SliceSlice(buffer, y, |buffer|, b, b + sub.cipher);
    assert buffer[y..][a..b] == buffer[y + a..y + b];
    assert buffer[y..][b..b + sub.cipher] == buffer[y + b..y + (b + sub.cipher)];
  }

  /** 'cbcs': every subsample's cipher range is decrypted on its own from the IV, and its clear range stays. */
  lemma {:induction false} CbcsEach(
      c: Cipher, pr: Profile, iv: seq<byte>, st: Stream, subs: seq<Subsample>, buffer: seq<byte>, k: nat)
    requires pr.scheme == Cbcs && Fits(pr.Kind(), st) && (|iv| == 8 || |iv| == 16)
    requires TotalSize(subs) <= |buffer| && k < |subs|
    ensures Done(c, pr.Runs(), iv, subs[k], Offset(subs, k), buffer,
                 DecryptSubsamples(c, pr, iv, st, subs, buffer).buffer)
    decreases k
  {
    hide DecryptChunk, FromIv, Done;
    LoopTurn(c, pr, iv, st, subs, buffer);
    var x, y := subs[0].clear, subs[0].clear + subs[0].cipher;
    var o := DecryptChunk(c, pr, iv, st, buffer[x..y]);
    var r := DecryptSubsamples(c, pr, iv, o.next, subs[1..], buffer[y..]).buffer;
    if k == 0 {
      ChunkFromIv(c, pr, iv, st, buffer[x..y]);
      DoneFirst(c, pr.Runs(), iv, subs[0], buffer, o.out, r);
    } else {
      assert subs[1..][k - 1] == subs[k] && Offset(subs, k) == y + Offset(subs[1..], k - 1);
      CbcsEach(c, pr, iv, o.next, subs[1..], buffer[y..], k - 1);
      DoneLater(c, pr.Runs(), iv, subs[k], Offset(subs[1..], k - 1), buffer, x, y, o.out, r);
    }
  }

  lemma FrontRanges(x: seq<byte>, y: seq<byte>, z: seq<byte>)
    ensures (x + (y + z))[0..|x|] == x && (x + (y + z))[|x|..|x| + |y|] == y
  {
  }

  lemma BackRange(x: seq<byte>, y: seq<byte>, z: seq<byte>, a: nat, b: nat)
    requires a <= b <= |z|
    ensures var n := |x| + |y|; (x + (y + z))[n + a..n + b] == z[a..b]
  {
    Associative(x, y, z);
    var s := x + y + z;
    assert s[|x + y|..] == z;
    SliceSlice(s, |x + y|, |s|, a, b);
  }

  /** And what follows the last subsample stays. */
  lemma {:induction false} TrailingStays(
      c: Cipher, pr: Profile, iv: seq<byte>, st: Stream, subs: seq<Subsample>, buffer: seq<byte>)
    requires Fits(pr.Kind(), st) && (|iv| == 8 || |iv| == 16) && TotalSize(subs) <= |buffer|
    ensures var n := TotalSize(subs); DecryptSubsamples(c, pr, iv, st, subs, buffer).buffer[n..] == buffer[n..]
    decreases subs
  {
    hide DecryptChunk;
    if subs != [] {
      LoopTurn(c, pr, iv, st, subs, buffer);
      var x, y := subs[0].clear, subs[0].clear + subs[0].cipher;
      var o := DecryptChunk(c, pr, iv, st, buffer[x..y]);
      var r := DecryptSubsamples(c, pr, iv, o.next, subs[1..], buffer[y..]).buffer;
      TrailingStays(c, pr, iv, o.next, subs[1..], buffer[y..]);
      hide DecryptSubsamples;
      SameTail(buffer, x, y, o.out, r, TotalSize(subs[1..]));
    }
  }

  lemma SameTail(buffer: seq<byte>, x: nat, y: nat, out: seq<byte>, r: seq<byte>, n: nat)
    requires x <= y <= |buffer| && |out| == y - x && |r| == |buffer| - y && n <= |r| && r[n..] == buffer[y..][n..]
    ensures (buffer[..x] + (out + r))[y + n..] == buffer[y + n..]
  {
    BackRange(buffer[..x], out, r, n, |r|);
    SliceSlice(buffer, y, |buffer|, n, |r|);
  }
}
