/** Pattern encryption: crypt a run of blocks, skip a run of blocks, over and over. */
module Pattern {
  import opened Bytes
  import opened Cbc
  import opened CryptStream
  import opened Masking

  datatype PatternMode = EncryptIfCryptByteBlockRemaining | SkipIfCryptByteBlockRemaining

  /** Sizes in bytes of a crypt run and of a skip run. */
  datatype Runs = Runs(crypt: nat, skip: nat, mode: PatternMode) {
    ghost predicate Valid() {
      crypt % 16 == 0 && crypt + skip > 0
    }

    predicate NeedEncrypt(inputSize: nat) {
      if mode == SkipIfCryptByteBlockRemaining then inputSize > crypt else inputSize >= crypt
    }
  }

  /** The runs of a pattern of blocks; 0:0 means 1:0. */
  function RunsOf(cryptBlocks: nat, skipBlocks: nat, mode: PatternMode): (p: Runs)
    ensures p.Valid()
  {
    var c := if cryptBlocks == 0 && skipBlocks == 0 then 1 else cryptBlocks;
    Runs(c * 16, skipBlocks * 16, mode)
  }

  // ---------------------------------------------------------------- which bytes are crypted

  /** Where the period of length d that holds byte i starts. */
  function PeriodStart(i: nat, d: nat): (s: nat)
    requires d > 0
    ensures s <= i
  {
    MulNonNegative(i / d, d);
    assert i == d * (i / d) + i % d;
    i / d * d
  }

  lemma MulNonNegative(x: nat, y: nat)
    ensures x * y >= 0
  {
  }

  /** Byte i of n lies in the crypt run of its period, and that run is not the tail to be left clear. */
  predicate InPattern(p: Runs, n: nat, i: nat)
    requires p.Valid() && i < n
  {
    var period := p.crypt + p.skip;
    i % period < p.crypt && p.NeedEncrypt(n - PeriodStart(i, period))
  }

  function PatternMask(p: Runs, n: nat): (mask: seq<bool>)
    requires p.Valid()
    ensures |mask| == n
  {
    seq(n, i requires 0 <= i < n => InPattern(p, n, i))
  }

  /** Which bytes a pattern of a crypt blocks and b skip blocks crypts of n, by position alone: those in the first a
      of every a + b blocks, as long as the bytes from the start of the period on are enough for a blocks, or in
      the other mode more than that. 0:0 is 1:0. */
  lemma MarkedExactly(a: nat, b: nat, mode: PatternMode, n: nat, i: nat)
    requires i < n
    ensures var c := if a == 0 && b == 0 then 1 else a;
            var left := n - i / 16 / (c + b) * (c + b) * 16;
            PatternMask(RunsOf(a, b, mode), n)[i] <==>
              && i / 16 % (c + b) < c
              && (match mode
                  case EncryptIfCryptByteBlockRemaining => left >= 16 * c
                  case SkipIfCryptByteBlockRemaining => left > 16 * c)
  {
    var c := if a == 0 && b == 0 then 1 else a;
    var p, d := RunsOf(a, b, mode), 16 * (c + b);
    var q, r := i / 16 / (c + b), i / 16 % (c + b);
    PeriodOf(i, c + b, q, r);
    assert p.crypt == 16 * c && p.crypt + p.skip == d;
    assert PatternMask(p, n)[i] == InPattern(p, n, i);
    assert PeriodStart(i, d) == q * d == q * (c + b) * 16;
  }

  lemma PeriodOf(i: nat, period: nat, q: nat, r: nat)
    requires period > 0 && q == i / 16 / period && r == i / 16 % period
    ensures i / (16 * period) == q && i % (16 * period) == 16 * r + i % 16
  {
    var u, v := i / 16, i % 16;
    assert u == period * q + r;
    assert 16 * (period * q) == (16 * period) * q;
    ModUnique(i, 16 * period, q, 16 * r + v);
  }

  lemma DivModStep(i: nat, d: nat)
    requires d > 0
    ensures i < d ==> i / d == 0 && i % d == i
    ensures i >= d ==> i / d == (i - d) / d + 1 && i % d == (i - d) % d
  {
    if i >= d {
      var q, r := (i - d) / d, (i - d) % d;
      assert i == d * (q + 1) + r;
      ModUnique(i, d, q + 1, r);
    } else {
      ModUnique(i, d, 0, i);
    }
  }

  /** One period on, the pattern looks the same. */
  lemma InPatternShift(p: Runs, n: nat, i: nat)
    requires p.Valid() && p.crypt + p.skip <= i < n
    ensures InPattern(p, n, i) == InPattern(p, n - p.crypt - p.skip, i - p.crypt - p.skip)
  {
    var d := p.crypt + p.skip;
    DivModStep(i, d);
    var q := (i - d) / d;
    assert (q + 1) * d == q * d + d;
    assert PeriodStart(i, d) == PeriodStart(i - d, d) + d;
  }

  /** Nothing is crypted once the rest is too short for a crypt run. */
  lemma TailClear(p: Runs, n: nat, i: nat)
    requires p.Valid() && i < n && !p.NeedEncrypt(n)
    ensures !InPattern(p, n, i)
  {
    hide PeriodStart;
  }

  lemma MaskTail(p: Runs, n: nat)
    requires p.Valid() && (n == 0 || !p.NeedEncrypt(n))
    ensures PatternMask(p, n) == Fill(false, n)
  {
    forall i | 0 <= i < n
      ensures PatternMask(p, n)[i] == false
    {
      TailClear(p, n, i);
    }
  }

  function Skipped(p: Runs, n: nat): (k: nat)
    requires p.NeedEncrypt(n)
    ensures p.crypt + k <= n
  {
    if p.skip < n - p.crypt then p.skip else n - p.crypt
  }

  lemma MaskPeriod(p: Runs, n: nat)
    requires p.Valid() && n > 0 && p.NeedEncrypt(n)
    ensures var k := Skipped(p, n);
            PatternMask(p, n) == Fill(true, p.crypt) + (Fill(false, k) + PatternMask(p, n - p.crypt - k))
  {
    var k := Skipped(p, n);
    var d := p.crypt + p.skip;
    var rest := PatternMask(p, n - p.crypt - k);
    forall i | 0 <= i < n
      ensures InPattern(p, n, i) == (Fill(true, p.crypt) + (Fill(false, k) + rest))[i]
    {
      DivModStep(i, d);
      if i >= p.crypt + k {
        assert k == p.skip;
        InPatternShift(p, n, i);
      } else {
        assert i < d;
        assert 0 * d == 0;
      }
    }
  }

  // ---------------------------------------------------------------- what the loop computes

  datatype Result = Result(out: seq<byte>, next: Stream)

  /** The loop of AesPatternCryptor::CryptInternal: crypt a run, copy a run, and so on. */
  function PatternCrypt(c: Cipher, k: Kind, p: Runs, st: Stream, text: seq<byte>): (r: Result)
    requires p.Valid() && Fits(k, st) && Chained(k)
    ensures Fits(k, r.next)
    decreases |text|
  {
    if text == [] || !p.NeedEncrypt(|text|) then Result(text, st)
    else
      var o := Step(c, k, st, text[..p.crypt]);
      var x := p.crypt + Skipped(p, |text|);
      var r := PatternCrypt(c, k, p, o.next, text[x..]);
      Result(o.out + (text[p.crypt..x] + r.out), r.next)
  }

  /** The first crypt run, the bytes skipped after it, and the rest. */
  lemma PatternFirst(c: Cipher, k: Kind, p: Runs, st: Stream, text: seq<byte>)
    requires p.Valid() && Fits(k, st) && Chained(k) && text != [] && p.NeedEncrypt(|text|)
    ensures var o := Step(c, k, st, text[..p.crypt]);
            var x := p.crypt + Skipped(p, |text|);
            && |o.out| == p.crypt
            && PatternCrypt(c, k, p, st, text).out
               == o.out + (text[p.crypt..x] + PatternCrypt(c, k, p, o.next, text[x..]).out)
  {
    hide Step;
    StepLength(c, k, st, text[..p.crypt]);
  }

  lemma Parts(text: seq<byte>, i: nat, j: nat)
    requires i <= j <= |text|
    ensures text == text[..i] + (text[i..j] + text[j..])
  {
  }

  /** Pattern crypt of `text` is the inner cryptor run once over all crypt runs joined together, with
      every other byte copied. */
  ghost predicate OneStream(c: Cipher, k: Kind, p: Runs, st: Stream, text: seq<byte>)
    requires p.Valid() && Fits(k, st) && Chained(k)
  {
    var mask := PatternMask(p, |text|);
    var o := Step(c, k, st, Gather(text, mask));
    && |o.out| == Marked(mask)
    && PatternCrypt(c, k, p, st, text) == Result(Scatter(text, mask, o.out), o.next)
  }

  /** What the mask takes out and puts back in the first period and after it. */
  lemma FirstPeriod(p: Runs, text: seq<byte>, mask: seq<bool>, m: seq<bool>, gx: seq<byte>, g: seq<byte>)
    requires p.Valid() && text != [] && p.NeedEncrypt(|text|) && |gx| == p.crypt && |g| == Marked(m)
    requires mask == PatternMask(p, |text|) && m == PatternMask(p, |text| - p.crypt - Skipped(p, |text|))
    ensures var x := p.crypt + Skipped(p, |text|);
            && Marked(mask) == |gx + g|
            && Gather(text, mask) == text[..p.crypt] + Gather(text[x..], m)
            && Scatter(text, mask, gx + g) == gx + (text[p.crypt..x] + Scatter(text[x..], m, g))
  {
    hide PatternMask, Gather, Scatter, Marked, Fill, Skipped;
    MaskPeriod(p, |text|);
    FirstStretches(text, p.crypt, p.crypt + Skipped(p, |text|), mask, m, gx, g);
  }

  lemma FirstStretches(text: seq<byte>, a: nat, b: nat, mask: seq<bool>, m: seq<bool>, gx: seq<byte>, g: seq<byte>)
    requires a <= b <= |text| && |m| == |text| - b && mask == Fill(true, a) + (Fill(false, b - a) + m)
    requires |gx| == a && |g| == Marked(m)
    ensures |mask| == |text| && Marked(mask) == |gx + g|
    ensures Gather(text, mask) == text[..a] + Gather(text[b..], m)
    ensures Scatter(text, mask, gx + g) == gx + (text[a..b] + Scatter(text[b..], m, g))
  {
    hide Gather, Scatter, Marked, Fill;
    var x, y, t := text[..a], text[a..b], text[b..];
    assert |x| == a && |y| == b - a && |t| == |m|;
    Parts(text, a, b);
    Stretches(x, y, t, m, gx, g);
  }

  lemma OneStreamPeriod(c: Cipher, k: Kind, p: Runs, st: Stream, text: seq<byte>)
    requires p.Valid() && Fits(k, st) && Chained(k)
    requires text != [] && p.NeedEncrypt(|text|)
    requires OneStream(c, k, p, Step(c, k, st, text[..p.crypt]).next, text[p.crypt + Skipped(p, |text|)..])
    ensures OneStream(c, k, p, st, text)
  {
    hide Step, PatternMask, Gather, Scatter, Marked;
    var x := p.crypt + Skipped(p, |text|);
    var a, t := text[..p.crypt], text[x..];
    var o, g := Step(c, k, st, a), Gather(t, PatternMask(p, |t|));
    StepLength(c, k, st, a);
    FirstPeriod(p, text, PatternMask(p, |text|), PatternMask(p, |t|), o.out, Step(c, k, o.next, g).out);
    StepAppend(c, k, st, a, g);
  }

  /** This holds for every pattern and every text. */
  lemma {:induction false} PatternIsOneStream(c: Cipher, k: Kind, p: Runs, st: Stream, text: seq<byte>)
    requires p.Valid() && Fits(k, st) && Chained(k)
    ensures OneStream(c, k, p, st, text)
    decreases |text|
  {
    hide Step, PatternMask, Gather, Scatter, Marked, Fill;
    if text == [] || !p.NeedEncrypt(|text|) {
      MaskTail(p, |text|);
      EmptyMask(text);
      StepEmpty(c, k, st);
    } else {
      PatternIsOneStream(c, k, p, Step(c, k, st, text[..p.crypt]).next, text[p.crypt + Skipped(p, |text|)..]);
      OneStreamPeriod(c, k, p, st, text);
    }
  }

  /** Pattern decryption undoes pattern encryption for every pattern, last-block mode and length. */
  lemma PatternRoundTrip(c: Cipher, k: Kind, p: Runs, st: Stream, text: seq<byte>)
    requires c.Valid() && p.Valid() && Fits(k, st) && (k == CtrKind || k == CbcEncryptor(NoPadding))
    ensures var e := PatternCrypt(c, k, p, st, text);
            PatternCrypt(c, Inverse(k), p, st, e.out) == Result(text, e.next)
  {
    hide Step, PatternMask, PatternCrypt;
    var mask := PatternMask(p, |text|);
    var g := Gather(text, mask);
    var e := Step(c, k, st, g);
    PatternIsOneStream(c, k, p, st, text);
    var out := Scatter(text, mask, e.out);
    PatternIsOneStream(c, Inverse(k), p, st, out);
    GatherScatter(text, mask, e.out);
    StepInverse(c, k, st, g);
    ScatterGather(text, mask, e.out);
  }
}
