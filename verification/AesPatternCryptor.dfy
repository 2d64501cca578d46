/** AesPatternCryptor: an AesCryptor that hands the crypt runs to an inner cryptor. */
module AesPatternCryptors {
  import opened Bytes
  import opened Cbc
  import opened Ctr
  import opened CryptStream
  import opened AesCryptors
  import opened Pattern

  class AesPatternCryptor {
    const runs: Runs
    const constantIv: bool
    const cryptor: AesCryptor
    var iv: seq<byte>
    var numCryptBytes: nat

    ghost predicate Valid()
      reads this, cryptor
    {
      && InnerFits()
      && IsIvSizeValid(|iv|)
      && cryptor.Valid()
      && cryptor.iv == iv
    }

    /** The inner cryptor keeps its stream across calls. */
    ghost predicate InnerFits() {
      runs.Valid() && cryptor.ModeFits() && !cryptor.constantIv
    }

    constructor (cryptBlocks: nat, skipBlocks: nat, mode: PatternMode, constantIv: bool, cryptor: AesCryptor)
      requires cryptBlocks < 256 && skipBlocks < 256
      requires cryptor.ModeFits() && !cryptor.constantIv
      ensures this.cryptor == cryptor && this.constantIv == constantIv && InnerFits()
      ensures runs == RunsOf(cryptBlocks, skipBlocks, mode)
    {
      this.cryptor := cryptor;
      this.constantIv := constantIv;
      runs := RunsOf(cryptBlocks, skipBlocks, mode);
      iv := [];
      numCryptBytes := 0;
    }

    method InitializeWithIv(schedule: seq<byte> -> Cipher, key: seq<byte>, newIv: seq<byte>) returns (ok: bool)
      requires InnerFits()
      modifies this, cryptor
      ensures ok <==> (|key| == 16 || |key| == 24 || |key| == 32) && (|newIv| == 8 || |newIv| == 16)
      ensures ok ==> Valid() && iv == newIv && cryptor.cipher == schedule(key)
                     && cryptor.State() == Begin(cryptor.kind, newIv)
    {
      ok := SetIv(newIv);
      if ok {
        ok := cryptor.InitializeWithIv(schedule, key, newIv);
      }
    }

    method SetIv(newIv: seq<byte>) returns (ok: bool)
      requires InnerFits()
      modifies this, cryptor
      ensures ok <==> |newIv| == 8 || |newIv| == 16
      ensures ok ==> Valid() && iv == newIv && numCryptBytes == 0 && cryptor.State() == Begin(cryptor.kind, newIv)
      ensures cryptor.cipher == old(cryptor.cipher)
      ensures !ok ==> unchanged(this) && unchanged(cryptor)
    {
      if !IsIvSizeValid(|newIv|) {
        return false;
      }
      iv := newIv;
      numCryptBytes := 0;
      SetIvInternal();
      return true;
    }

    method SetIvInternal()
      requires InnerFits() && IsIvSizeValid(|iv|)
      modifies cryptor
      ensures Valid() && cryptor.State() == Begin(cryptor.kind, iv) && cryptor.cipher == old(cryptor.cipher)
    {
      var done := cryptor.SetIv(iv);
      assert done;
    }

    method UpdateIv()
      requires Valid()
      modifies this, cryptor
      ensures constantIv ==> unchanged(this) && unchanged(cryptor)
      ensures !constantIv ==> Valid() && numCryptBytes == 0 && cryptor.State() == Begin(cryptor.kind, iv)
                              && iv == AddBE(old(iv), IvIncrement(|old(iv)|, old(numCryptBytes)))
      ensures !constantIv ==>
                var blocks := (old(numCryptBytes) + 15) % TWO_64 / 16;
                && |iv| == |old(iv)|
                && FromBE(iv) == (FromBE(old(iv)) + if |iv| == 8 then 1 else blocks) % Pow256(|iv|)
      ensures cryptor.cipher == old(cryptor.cipher)
    {
      hide FromBE, AddBE, Pow256;
      if constantIv {
        return;
      }
      var increment := if |iv| == 8 then 1 else (numCryptBytes + 15) % TWO_64 / 16;
      AddBEValue(iv, increment);
      iv := AddToIv(iv, increment);
      numCryptBytes := 0;
      SetIvInternal();
    }

    method Crypt(src: array<byte>, s: nat, n: nat, dst: array<byte>, d: nat, cap: nat) returns (ok: bool)
      requires Valid()
      requires s + n <= src.Length && d + cap <= dst.Length
      requires src != dst || s == d
      modifies this, cryptor, dst
      ensures Valid() && iv == old(iv) && cryptor.cipher == old(cryptor.cipher)
      ensures numCryptBytes == if constantIv then old(numCryptBytes) else (old(numCryptBytes) + n) % TWO_64
      ensures ok <==> cap >= n
      ensures !ok ==> dst[..] == old(dst[..])
      ensures ok ==> var st := if constantIv then Begin(cryptor.kind, iv) else old(cryptor.State());
                     var r := PatternCrypt(cryptor.cipher, cryptor.kind, runs, st, old(src[s..s + n]));
                     |r.out| == n && dst[..] == Splice(old(dst[..]), d, r.out) && cryptor.State() == r.next
    {
      hide Splice, PatternCrypt;
      if constantIv {
        SetIvInternal();
      } else {
        numCryptBytes := (numCryptBytes + n) % TWO_64;
      }
      if cap < n {
        return false;
      }
      CryptRuns(src, s, n, dst, d);
      return true;
    }

    /** The loop of CryptInternal. */
    method CryptRuns(src: array<byte>, s: nat, n: nat, dst: array<byte>, d: nat)
      requires Valid()
      requires s + n <= src.Length && d + n <= dst.Length
      requires src != dst || s == d
      modifies cryptor, dst
      ensures Valid() && cryptor.cipher == old(cryptor.cipher)
      ensures var r := PatternCrypt(cryptor.cipher, cryptor.kind, runs, old(cryptor.State()), old(src[s..s + n]));
              |r.out| == n && dst[..] == Splice(old(dst[..]), d, r.out) && cryptor.State() == r.next
    {
      hide Splice, PatternCrypt, Step, LeadsTo, AesCryptor.Valid, AesCryptor.State;
      ghost var before, rest, c, kind := dst[..], src[s..s + n], cryptor.cipher, cryptor.kind;
      ghost var r := PatternCrypt(c, kind, runs, cryptor.State(), rest);
      ghost var out := [];
      SpliceNone(before, d, out);
      LeadsFrom(c, kind, runs, cryptor.State(), rest, r);
      var x := 0;
      while x < n
        invariant x <= n && Valid() && cryptor.cipher == c
        invariant |out| == x && dst[..] == Splice(before, d, out)
        invariant |rest| == n - x && src[s + x..s + n] == rest
        invariant LeadsTo(c, kind, runs, cryptor.State(), out, rest, r)
      {
        if !runs.NeedEncrypt(n - x) {
          // Not enough data: kept in clear.
          LeadsHere(c, kind, runs, cryptor.State(), out, rest, r);
          Store(dst, d + x, src[s + x..s + n]);
          SpliceJoin(before, d, out, rest);
          return;
        }
        LeadsOn(c, kind, runs, cryptor.State(), out, rest, r);
        var k := Skipped(runs, n - x);
        ghost var more := CryptPeriod(src, s + x, n - x, dst, d + x, k, rest);
        SpliceJoin(before, d, out, more);
        out := out + more;
        rest := rest[runs.crypt + k..];
        x := x + runs.crypt + k;
      }
      LeadsHere(c, kind, runs, cryptor.State(), out, rest, r);
      assert out + rest == out;
    }

    /** Crypts one crypt run and copies the k bytes after it. */
    method CryptPeriod(src: array<byte>, s: nat, n: nat, dst: array<byte>, d: nat, k: nat, ghost rest: seq<byte>)
      returns (ghost more: seq<byte>)
      requires Valid()
      requires runs.crypt + k <= n && s + n <= src.Length && d + n <= dst.Length
      requires src != dst || s == d
      requires src[s..s + n] == rest
      modifies cryptor, dst
      ensures Valid() && cryptor.cipher == old(cryptor.cipher)
      ensures var o := Step(cryptor.cipher, cryptor.kind, old(cryptor.State()), rest[..runs.crypt]);
              && more == o.out + rest[runs.crypt..runs.crypt + k]
              && |more| == runs.crypt + k
              && cryptor.State() == o.next
      ensures dst[..] == Splice(old(dst[..]), d, more)
      ensures src[s + runs.crypt + k..s + n] == rest[runs.crypt + k..]
    {
      hide Splice, Step, AesCryptor.Valid, AesCryptor.State, AesCryptor.Crypted;
      ghost var before, m := dst[..], runs.crypt;
      SliceSlice(src[..], s, s + n, 0, m);
      ghost var out := Step(cryptor.cipher, cryptor.kind, cryptor.State(), rest[..m]).out;
      var ok, _ := cryptor.CryptSameSize(src, s, runs.crypt, dst, d);
      CopyRun(src, s, n, dst, d, runs.crypt, k, before, out, rest);
      more := out + rest[m..m + k];
    }
  }

  /** Copies the k bytes after a crypt run of m bytes. */
  method CopyRun(src: array<byte>, s: nat, n: nat, dst: array<byte>, d: nat, m: nat, k: nat,
                 ghost before: seq<byte>, ghost out: seq<byte>, ghost rest: seq<byte>)
    requires m == |out| && m + k <= n && s + n <= src.Length && d + n <= |before|
    requires src != dst || s == d
    requires dst[..] == Splice(before, d, out)
    requires if src == dst then before[d..d + n] == rest else src[s..s + n] == rest
    modifies dst
    ensures dst[..] == Splice(before, d, out + rest[m..m + k])
    ensures src[s + m + k..s + n] == rest[m + k..]
  {
    hide Splice;
    assert dst.Length == |dst[..]| == |before|;
    ghost var source := if src == dst then before else src[..];
    SliceSlice(source, s, s + n, m, m + k);
    SliceSlice(source, s, s + n, m + k, n);
    if src == dst {
      SpliceAfter(before, d, out, d + m, d + m + k);
    }
    var skipped := src[s + m..s + m + k];
    assert skipped == rest[m..m + k];
    Store(dst, d + m, skipped);
    SpliceJoin(before, d, out, skipped);
    if src == dst {
      SpliceAfter(before, d, out + skipped, d + m + k, d + n);
    }
  }

  // ---------------------------------------------------------------- the loop

  /** Going on with `rest` from stream position st, after `out`, ends in result r. */
  ghost predicate LeadsTo(c: Cipher, k: Kind, p: Runs, st: Stream, out: seq<byte>, rest: seq<byte>, r: Result)
    requires p.Valid() && Fits(k, st) && Chained(k)
  {
    var q := PatternCrypt(c, k, p, st, rest);
    r == Result(out + q.out, q.next)
  }

  lemma LeadsFrom(c: Cipher, k: Kind, p: Runs, st: Stream, text: seq<byte>, r: Result)
    requires p.Valid() && Fits(k, st) && Chained(k) && r == PatternCrypt(c, k, p, st, text)
    ensures LeadsTo(c, k, p, st, [], text, r)
  {
    hide PatternCrypt;
    assert [] + r.out == r.out;
  }

  /** One turn of the loop. */
  lemma LeadsOn(c: Cipher, k: Kind, p: Runs, st: Stream, out: seq<byte>, rest: seq<byte>, r: Result)
    requires p.Valid() && Fits(k, st) && Chained(k) && LeadsTo(c, k, p, st, out, rest, r)
    requires rest != [] && p.NeedEncrypt(|rest|)
    ensures var x := p.crypt + Skipped(p, |rest|);
            var o := Step(c, k, st, rest[..p.crypt]);
            LeadsTo(c, k, p, o.next, out + (o.out + rest[p.crypt..x]), rest[x..], r)
  {
    hide Step;
    var x := p.crypt + Skipped(p, |rest|);
    var o := Step(c, k, st, rest[..p.crypt]);
    var q := PatternCrypt(c, k, p, o.next, rest[x..]);
    Associative(o.out, rest[p.crypt..x], q.out);
    Associative(out, o.out + rest[p.crypt..x], q.out);
  }

  /** The rest is too short for a crypt run, or there is none. */
  lemma LeadsHere(c: Cipher, k: Kind, p: Runs, st: Stream, out: seq<byte>, rest: seq<byte>, r: Result)
    requires p.Valid() && Fits(k, st) && Chained(k) && LeadsTo(c, k, p, st, out, rest, r)
    requires rest == [] || !p.NeedEncrypt(|rest|)
    ensures r == Result(out + rest, st)
  {
  }
}
