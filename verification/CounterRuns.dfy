/** No counter block is given to the cipher twice, over whole runs of Crypt and UpdateIv. */
module CounterRuns {
  import opened Bytes
  import opened Ctr
  import opened AesCryptors

  function Low(b: Block): nat {
    FromBE(b[8..])
  }

  function High(b: Block): nat {
    FromBE(b[..8])
  }

  /** The state right after SetIv on a fresh cryptor. */
  function Start(iv: seq<byte>): CtrState {
    CtrState(iv, 0, 0, [])
  }

  function Run(s: CtrState, calls: seq<CtrCall>): (t: CtrState)
    requires IsIvSizeValid(|s.iv|)
    ensures |t.iv| == |s.iv|
    decreases calls
  {
    if calls == [] then s else Run(NextCtr(s, calls[0]), calls[1..])
  }

  /** Every sample that an UpdateIv of the run ends, starting pos bytes into one, stays below 2^64 - 15 bytes:
      the range in which the size_t arithmetic of UpdateIv is exact. */
  ghost predicate SamplesFit(pos: nat, calls: seq<CtrCall>)
    decreases calls
  {
    calls != [] ==>
      match calls[0]
      case CryptCall(n) => SamplesFit(pos + n, calls[1..])
      case UpdateIvCall => pos + 15 < TWO_64 && SamplesFit(0, calls[1..])
  }

  ghost predicate Distinct(bs: seq<Block>) {
    forall i, j :: 0 <= i < j < |bs| ==> bs[i] != bs[j]
  }

  /** For a 16-byte IV, UpdateIv moves the IV on by the blocks of the sample exactly when the sample is
      small enough. */
  lemma IncrementExact(bytes: nat)
    ensures IvIncrement(16, bytes % TWO_64) == BlocksOf(bytes) <==> bytes + 15 < TWO_64
  {
    if bytes < TWO_64 {
      assert bytes % TWO_64 == bytes;
    }
  }

  // ---------------------------------------------------------------- 16-byte IVs

  /** The low halves of the blocks used so far, and then of the IV, count up from `base` modulo 2^64. */
  ghost predicate CountsUp(s: CtrState, base: nat) {
    && |s.iv| == 16
    && s.numCryptBytes == s.pos % TWO_64
    && (forall i :: 0 <= i < |s.past| ==> Low(s.past[i]) == (base + i) % TWO_64)
    && Low(s.iv) == (base + |s.past|) % TWO_64
  }

  lemma ModAdd(a: nat, b: nat)
    ensures (a % TWO_64 + b) % TWO_64 == (a + b) % TWO_64
  {
  }

  lemma FedCountsUp(s: CtrState, base: nat, i: nat)
    requires CountsUp(s, base) && i < |Fed(s)|
    ensures Low(Fed(s)[i]) == (base + i) % TWO_64
  {
    hide CounterBlock, FromBE;
    if i >= |s.past| {
      var j := i - |s.past|;
      assert PadBlock(s.iv) == s.iv;
      assert Fed(s)[i] == CounterBlock(s.iv, j);
      CounterBlockLow(s.iv, j);
      ModAdd(base + |s.past|, j);
    }
  }

  lemma UpdateCountsUp(s: CtrState, base: nat)
    requires CountsUp(s, base) && s.pos + 15 < TWO_64
    ensures CountsUp(NextCtr(s, UpdateIvCall), base)
  {
    hide FromBE, AddBE, CounterBlock;
    var k := BlocksOf(s.pos);
    var t := NextCtr(s, UpdateIvCall);
    assert s.pos % TWO_64 == s.pos;
    IncrementExact(s.pos);
    forall i | 0 <= i < |t.past|
      ensures Low(t.past[i]) == (base + i) % TWO_64
    {
      FedCountsUp(s, base, i);
    }
    Pow256Of8();
    AddBELow(s.iv, 8, k);
    AddBEValue(s.iv[8..], k);
    ModAdd(base + |s.past|, k);
  }

  lemma {:induction false} RunCountsUp(s: CtrState, base: nat, calls: seq<CtrCall>)
    requires |s.iv| == 16 && CountsUp(s, base) && SamplesFit(s.pos, calls)
    ensures CountsUp(Run(s, calls), base)
    decreases calls
  {
    hide CountsUp;
    if calls != [] {
      var t := NextCtr(s, calls[0]);
      match calls[0] {
        case CryptCall(n) => CryptCountsUp(s, base, n);
        case UpdateIvCall => UpdateCountsUp(s, base);
      }
      RunCountsUp(t, base, calls[1..]);
    }
  }

  lemma CryptCountsUp(s: CtrState, base: nat, n: nat)
    requires CountsUp(s, base)
    ensures CountsUp(NextCtr(s, CryptCall(n)), base)
  {
    ModAdd(s.pos, n);
  }

  /** With a 16-byte IV no counter block is used twice while at most 2^64 blocks are used. */
  lemma NoReuse16(iv: Block, calls: seq<CtrCall>)
    requires SamplesFit(0, calls)
    requires |Fed(Run(Start(iv), calls))| <= TWO_64
    ensures Distinct(Fed(Run(Start(iv), calls)))
  {
    hide FromBE, CounterBlock, Run, SamplesFit;
    var base := Low(iv);
    Pow256Of8();
    assert base < TWO_64;
    assert base % TWO_64 == base;
    RunCountsUp(Start(iv), base, calls);
    var fed := Fed(Run(Start(iv), calls));
    forall i, j | 0 <= i < j < |fed|
      ensures fed[i] != fed[j]
    {
      FedCountsUp(Run(Start(iv), calls), base, i);
      FedCountsUp(Run(Start(iv), calls), base, j);
      ModDiffer(base, i, j);
    }
  }

  lemma ModDiffer(base: nat, i: nat, j: nat)
    requires base < TWO_64 && i < j < TWO_64
    ensures (base + i) % TWO_64 != (base + j) % TWO_64
  {
  }

  /** Without a carry out of the low half, adding to the IV is moving on along the counter blocks. */
  lemma SumIsCounterBlock(iv: Block, n: nat)
    requires Low(iv) + n < TWO_64
    ensures AddBE(iv, n) == CounterBlock(iv, n)
  {
    hide AddBE, FromBE;
    Pow256Of8();
    AddBELow(iv, 8, n);
    AddBEHigh(iv, 8, n);
    var sum := AddBE(iv, n);
    assert sum == sum[..8] + sum[8..];
  }

  /** Past that sample size the IV no longer keeps up: whatever was done before, UpdateIv leads back into the
      sample just ended, and the next byte uses one of its counter blocks again, unless the addition happens to
      carry into the high half. */
  lemma OversizedSampleReuses(s: CtrState)
    requires |s.iv| == 16 && s.numCryptBytes == s.pos % TWO_64 && s.pos + 15 >= TWO_64
    requires Low(s.iv) + IvIncrement(16, s.numCryptBytes) < TWO_64
    ensures var t := NextCtr(NextCtr(s, UpdateIvCall), CryptCall(1));
            var i := |s.past| + IvIncrement(16, s.numCryptBytes);
            && i < |Fed(s)| == |Fed(t)| - 1
            && Fed(t)[i] == Fed(t)[|Fed(s)|]
  {
    hide AddBE, FromBE, CounterBlock;
    var n, k := IvIncrement(16, s.numCryptBytes), BlocksOf(s.pos);
    var u := NextCtr(s, UpdateIvCall);
    var t := NextCtr(u, CryptCall(1));
    StaysBehind(s.pos);
    SumIsCounterBlock(s.iv, n);
    assert PadBlock(s.iv) == s.iv && PadBlock(u.iv) == u.iv;
    assert Fed(s)[|s.past| + n] == Counters(s.iv, 0, k)[n] == CounterBlock(s.iv, n);
    CounterBlockZero(u.iv);
    assert BlocksOf(1) == 1;
    assert Fed(t) == Fed(s) + Counters(u.iv, 0, 1);
    assert Counters(u.iv, 0, 1)[0] == u.iv;
  }

  lemma StaysBehind(pos: nat)
    requires pos + 15 >= TWO_64
    ensures IvIncrement(16, pos % TWO_64) < BlocksOf(pos)
  {
    assert (pos % TWO_64 + 15) % TWO_64 <= TWO_64 - 1;
    assert BlocksOf(pos) >= TWO_64 / 16;
  }

  /** For example a first sample of 2^64 - 8 bytes, whatever the IV. */
  lemma ReuseInOversizedSample(iv: Block)
    ensures var calls := [CryptCall(TWO_64 - 8), UpdateIvCall, CryptCall(1)];
            var fed := Fed(Run(Start(iv), calls));
            !SamplesFit(0, calls) && 0 < |fed| <= TWO_64 && fed[0] == fed[|fed| - 1]
  {
    hide FromBE, CounterBlock, AddBE;
    var calls := [CryptCall(TWO_64 - 8), UpdateIvCall, CryptCall(1)];
    var s1 := NextCtr(Start(iv), calls[0]);
    var s2 := NextCtr(s1, UpdateIvCall);
    var s3 := NextCtr(s2, CryptCall(1));
    assert calls[1..] == [UpdateIvCall, CryptCall(1)];
    assert calls[1..][1..] == [CryptCall(1)] && calls[1..][1..][1..] == [];
    assert Run(s3, []) == s3;
    assert Run(s2, [CryptCall(1)]) == s3;
    assert Run(s1, calls[1..]) == s3;
    assert Run(Start(iv), calls) == s3;
    assert IvIncrement(16, s1.numCryptBytes) == 0;
    Pow256Of8();
    OversizedSampleReuses(s1);
    assert |Fed(s1)| == BlocksOf(TWO_64 - 8);
    assert !SamplesFit(TWO_64 - 8, calls[1..]);
  }

  // ---------------------------------------------------------------- 8-byte IVs

  function Updates(calls: seq<CtrCall>): nat {
    if calls == [] then 0
    else (if calls[0].UpdateIvCall? then 1 else 0) + Updates(calls[1..])
  }

  /** The bytes of every sample of the run take at most 2^64 blocks. */
  ghost predicate SamplesCount(pos: nat, calls: seq<CtrCall>)
    decreases calls
  {
    && BlocksOf(pos) <= TWO_64
    && (calls != [] ==>
          SamplesCount(match calls[0] case CryptCall(n) => pos + n case UpdateIvCall => 0, calls[1..]))
  }

  /** After t updates: the blocks used so far are distinct and carry earlier samples' IVs, and the IV is
      t past the first one. */
  ghost predicate Separated(s: CtrState, first: nat, t: nat) {
    && |s.iv| == 8
    && first < TWO_64
    && BlocksOf(s.pos) <= TWO_64
    && FromBE(s.iv) == (first + t) % TWO_64
    && Distinct(s.past)
    && (forall i :: 0 <= i < |s.past| ==> OfEarlierSample(s.past[i], first, t))
  }

  ghost predicate OfEarlierSample(b: Block, first: nat, t: nat) {
    exists k :: 0 <= k < t && High(b) == SampleIv(first, k)
  }

  function SampleIv(first: nat, k: nat): nat {
    (first + k) % TWO_64
  }

  lemma CurrentBlock(s: CtrState, first: nat, t: nat, j: nat)
    requires Separated(s, first, t) && j < BlocksOf(s.pos)
    ensures var b := CounterBlock(PadBlock(s.iv), j);
            High(b) == SampleIv(first, t) && Low(b) == j
  {
    hide FromBE, AddBE;
    var start := PadBlock(s.iv);
    var b := CounterBlock(start, j);
    assert b[..8] == start[..8] == s.iv;
    CounterBlockLow(start, j);
    ZerosValue(8);
    assert start[8..] == Zeros(8);
  }

  lemma {:induction false} ZerosValue(n: nat)
    ensures FromBE(Zeros(n)) == 0
  {
    if n > 0 {
      ZerosValue(n - 1);
      assert Zeros(n)[..n - 1] == Zeros(n - 1);
    }
  }

  lemma FedSeparated(s: CtrState, first: nat, t: nat)
    requires Separated(s, first, t) && t < TWO_64
    ensures Distinct(Fed(s))
    ensures forall i :: 0 <= i < |Fed(s)| ==> OfEarlierSample(Fed(s)[i], first, t + 1)
  {
    hide CounterBlock, PadBlock;
    var fed, m := Fed(s), |s.past|;
    forall i | 0 <= i < |fed|
      ensures OfEarlierSample(fed[i], first, t + 1)
      ensures i >= m ==> High(fed[i]) == SampleIv(first, t) && Low(fed[i]) == i - m
    {
      if i >= m {
        CurrentBlock(s, first, t, i - m);
        assert fed[i] == CounterBlock(PadBlock(s.iv), i - m);
      } else {
        assert fed[i] == s.past[i];
      }
    }
    forall i, j | 0 <= i < j < |fed|
      ensures fed[i] != fed[j]
    {
      if i < m <= j {
        assert OfEarlierSample(s.past[i], first, t);
        EarlierDiffers(s.past[i], first, t);
      } else if j < m {
        assert s.past[i] != s.past[j];
      }
    }
  }

  lemma EarlierDiffers(b: Block, first: nat, t: nat)
    requires first < TWO_64 && t < TWO_64 && OfEarlierSample(b, first, t)
    ensures High(b) != SampleIv(first, t)
  {
    var k :| 0 <= k < t && High(b) == SampleIv(first, k);
    ModDiffer(first, k, t);
  }

  lemma UpdateSeparated(s: CtrState, first: nat, t: nat)
    requires Separated(s, first, t) && t < TWO_64
    ensures Separated(NextCtr(s, UpdateIvCall), first, t + 1)
  {
    hide FromBE, AddBE;
    FedSeparated(s, first, t);
    Pow256Of8();
    AddBEValue(s.iv, 1);
    ModAdd(first + t, 1);
  }

  lemma {:induction false} RunSeparated(s: CtrState, first: nat, t: nat, calls: seq<CtrCall>)
    requires Separated(s, first, t) && SamplesCount(s.pos, calls) && t + Updates(calls) < TWO_64
    ensures Separated(Run(s, calls), first, t + Updates(calls))
    decreases calls
  {
    if calls != [] {
      match calls[0] {
        case CryptCall(n) =>
          RunSeparated(NextCtr(s, calls[0]), first, t, calls[1..]);
        case UpdateIvCall =>
          UpdateSeparated(s, first, t);
          RunSeparated(NextCtr(s, calls[0]), first, t + 1, calls[1..]);
      }
    }
  }

  /** With an 8-byte IV no counter block is used twice while no sample takes more than 2^64 blocks and
      there are at most 2^64 samples. */
  lemma NoReuse8(iv: seq<byte>, calls: seq<CtrCall>)
    requires |iv| == 8
    requires SamplesCount(0, calls) && Updates(calls) < TWO_64
    ensures Distinct(Fed(Run(Start(iv), calls)))
  {
    hide FromBE, Run, SamplesCount, Updates;
    Pow256Of8();
    var first := FromBE(iv);
    assert SampleIv(first, 0) == first;
    RunSeparated(Start(iv), first, 0, calls);
    FedSeparated(Run(Start(iv), calls), first, Updates(calls));
  }
}
