/** What decryption does to the bytes and blocks of a sample, scheme by scheme. */
module SampleBlocks {
  import opened Bytes
  import opened Cbc
  import opened Ctr
  import opened CryptStream
  import opened Masking
  import opened Pattern
  import opened SampleDecryption
  import opened PatternSubsamples

  /** 'cenc', whole sample: byte k is masked by byte k % 16 of the encrypted block that has the IV's high half and,
      in its low half, the IV's number plus k / 16. */
  lemma CencByte(c: Cipher, pr: Profile, iv: seq<byte>, buffer: seq<byte>, k: nat, ctr: Block)
    requires pr.scheme == Cenc && (|iv| == 8 || |iv| == 16) && k < |buffer|
    requires ctr[..8] == PadBlock(iv)[..8] && FromBE(ctr[8..]) == (FromBE(PadBlock(iv)[8..]) + k / 16) % TWO_64
    ensures DecryptSample(c, pr, iv, [], buffer).buffer[k] == XorByte(buffer[k], c.enc(ctr)[k % 16])
  {
    hide Step, FromBE;
    CounterCall(c, iv, buffer, k, ctr);
  }

  /** 'cbc1', whole sample: each block is decrypted and masked by the block before it, the first one by the IV, and
      less than a block at the end is copied. */
  lemma Cbc1Block(c: Cipher, pr: Profile, iv: seq<byte>, buffer: seq<byte>, m: nat)
    requires pr.scheme == Cbc1 && (|iv| == 8 || |iv| == 16) && m % 16 == 0 && m <= |buffer|
    ensures var p := DecryptSample(c, pr, iv, [], buffer).buffer;
            if m + 16 > |buffer| then p[m..] == buffer[m..]
            else p[m..m + 16] == Xor(c.dec(buffer[m..m + 16]), if m == 0 then PadBlock(iv) else buffer[m - 16..m])
  {
    hide Step, Xor;
    ChainedDecryption(c, iv, buffer, m);
  }

  /** 'cens' and 'cbcs', whole sample: the bytes the pattern marks are one stream from the IV, all others stay. */
  lemma PatternedSample(c: Cipher, pr: Profile, iv: seq<byte>, buffer: seq<byte>, mask: seq<bool>)
    requires (pr.scheme == Cens || pr.scheme == Cbcs) && (|iv| == 8 || |iv| == 16)
    requires mask == PatternMask(
                       RunsOf(pr.cryptBlocks, pr.skipBlocks, EncryptIfCryptByteBlockRemaining), |buffer|)
    ensures var k := if pr.scheme == Cens then CtrKind else CbcDecryptor(NoPadding);
            var o := Step(c, k, Begin(k, iv), Gather(buffer, mask));
            && |o.out| == Marked(mask)
            && DecryptSample(c, pr, iv, [], buffer) == Decrypted(true, Scatter(buffer, mask, o.out))
  {
    hide Step, PatternMask, Gather, Scatter, Marked, PatternCrypt;
    PatternIsOneStream(c, pr.Kind(), pr.Runs(), Begin(pr.Kind(), iv), buffer);
  }

  /** 'cbcs': the first block of every subsample that holds a crypt run is decrypted and masked by the IV. */
  lemma CbcsFirstBlock(
      c: Cipher, pr: Profile, iv: seq<byte>, subs: seq<Subsample>, buffer: seq<byte>, k: nat, x: nat)
    requires pr.scheme == Cbcs && (|iv| == 8 || |iv| == 16) && TotalSize(subs) <= |buffer|
    requires k < |subs| && x == TotalSize(subs[..k]) + subs[k].clear
    requires var a := if pr.cryptBlocks == 0 && pr.skipBlocks == 0 then 1 else pr.cryptBlocks;
             0 < a && 16 * a <= subs[k].cipher
    ensures x + 16 <= |buffer|
    ensures DecryptSample(c, pr, iv, subs, buffer).buffer[x..x + 16]
            == Xor(c.dec(buffer[x..x + 16]), PadBlock(iv))
  {
    hide DecryptSample, TotalSize, Xor, PadBlock;
    assert 16 <= pr.Runs().crypt <= subs[k].cipher;
    FirstInSubsample(c, pr, iv, subs, buffer, k, x);
  }

  lemma FirstInSubsample(
      c: Cipher, pr: Profile, iv: seq<byte>, subs: seq<Subsample>, buffer: seq<byte>, k: nat, x: nat)
    requires pr.scheme == Cbcs && (|iv| == 8 || |iv| == 16) && TotalSize(subs) <= |buffer|
    requires k < |subs| && x == TotalSize(subs[..k]) + subs[k].clear && 16 <= pr.Runs().crypt <= subs[k].cipher
    ensures x + 16 <= |buffer|
    ensures DecryptSample(c, pr, iv, subs, buffer).buffer[x..x + 16]
            == Xor(c.dec(buffer[x..x + 16]), PadBlock(iv))
  {
    hide Done, Xor, DecryptSubsamples, DecryptSample, TotalSize, Offset, RunsOf, PadBlock;
    OffsetIs(subs, k);
    CbcsEach(c, pr, iv, Begin(pr.Kind(), iv), subs, buffer, k);
    LoopSample(c, pr, iv, subs, buffer);
    FirstDone(c, pr, iv, subs[k], Offset(subs, k), buffer, DecryptSample(c, pr, iv, subs, buffer).buffer);
  }

  lemma LoopSample(c: Cipher, pr: Profile, iv: seq<byte>, subs: seq<Subsample>, buffer: seq<byte>)
    requires (|iv| == 8 || |iv| == 16) && subs != []
    ensures DecryptSample(c, pr, iv, subs, buffer)
            == DecryptSubsamples(c, pr, iv, Begin(pr.Kind(), iv), subs, buffer)
  {
    hide DecryptSubsamples;
  }

  lemma FirstDone(c: Cipher, pr: Profile, iv: seq<byte>, sub: Subsample, a: nat, buffer: seq<byte>, r: seq<byte>)
    requires pr.scheme == Cbcs && (|iv| == 8 || |iv| == 16) && 16 <= pr.Runs().crypt <= sub.cipher
    requires Done(c, pr.Runs(), iv, sub, a, buffer, r)
    ensures var x := a + sub.clear;
            && x + 16 <= |buffer| == |r|
            && r[x..x + 16] == Xor(c.dec(buffer[x..x + 16]), PadBlock(iv))
  {
    hide FromIv, Xor;
    var x := a + sub.clear;
    var y := x + sub.cipher;
    FirstFromIv(c, pr, iv, buffer[x..y]);
    FrontOf(r, x, y);
    FrontOf(buffer, x, y);
  }

  lemma FrontOf(s: seq<byte>, x: nat, y: nat)
    requires x + 16 <= y <= |s|
    ensures s[x..y][..16] == s[x..x + 16]
  {
  }

  lemma {:induction false} OffsetIs(subs: seq<Subsample>, k: nat)
    requires k <= |subs|
    ensures Offset(subs, k) == TotalSize(subs[..k])
    decreases k
  {
    if k > 0 {
      OffsetIs(subs[1..], k - 1);
      assert subs[..k][1..] == subs[1..][..k - 1];
    }
  }

  lemma FirstFromIv(c: Cipher, pr: Profile, iv: seq<byte>, text: seq<byte>)
    requires pr.scheme == Cbcs && (|iv| == 8 || |iv| == 16)
    requires 16 <= pr.Runs().crypt <= |text|
    ensures |FromIv(c, pr.Runs(), iv, text)| == |text|
    ensures FromIv(c, pr.Runs(), iv, text)[..16] == Xor(c.dec(text[..16]), PadBlock(iv))
  {
    hide Step, PatternCrypt, FromIv, Xor;
    var k, p, st := pr.Kind(), pr.Runs(), Begin(pr.Kind(), iv);
    ChunkFromIv(c, pr, iv, st, text);
    PatternFirst(c, k, p, st, text);
    var run := text[..p.crypt];
    ChainedDecryption(c, iv, run, 0);
    assert run[0..16] == text[..16];
    var o := Step(c, k, st, run).out;
    assert o[0..16] == o[..16];
  }
}
