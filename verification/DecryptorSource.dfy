/** DecryptorSource: one cached decryptor per key id. */
module DecryptorSources {
  import opened Options
  import opened Bytes
  import opened Cbc
  import opened CryptStream
  import opened AesCryptors
  import opened Pattern
  import opened AesPatternCryptors
  import opened SampleDecryption
  import opened DecryptorCaches

  /** An owned decryptor: AesCtrDecryptor or AesCbcDecryptor, or one inside a pattern cryptor. */
  datatype Decryptor = Plain(cryptor: AesCryptor) | Patterned(pattern: AesPatternCryptor) {
    ghost function Inner(): AesCryptor {
      match this case Plain(a) => a case Patterned(p) => p.cryptor
    }

    ghost function Footprint(): set<object> {
      match this case Plain(a) => {a} case Patterned(p) => {p, p.cryptor}
    }

    /** Initialised, and set up for entry e. */
    ghost predicate Ready(e: Entry)
      reads Footprint()
    {
      && e.profile.scheme != OtherScheme
      && Inner().kind == e.profile.Kind()
      && Inner().cipher == e.cipher
      && !Inner().constantIv
      && (match this
          case Plain(a) => !e.profile.Patterned() && a.Valid()
          case Patterned(p) =>
            && e.profile.Patterned()
            && p.runs == e.profile.Runs()
            && p.constantIv == (e.profile.scheme == Cbcs)
            && p.Valid())
    }

    ghost function Iv(): seq<byte>
      reads Footprint()
    {
      Inner().iv
    }

    method SetIv(iv: seq<byte>, ghost e: Entry) returns (ok: bool)
      requires Ready(e)
      modifies Footprint()
      ensures Ready(e)
      ensures ok <==> IsIvSizeValid(|iv|)
      ensures ok ==> Iv() == iv && Inner().State() == Begin(e.profile.Kind(), iv)
    {
      match this {
        case Plain(a) => ok := a.SetIv(iv);
        case Patterned(p) => ok := p.SetIv(iv);
      }
    }

    /** Crypt in place. */
    method Crypt(buffer: array<byte>, d: nat, n: nat, ghost e: Entry) returns (ok: bool)
      requires Ready(e) && d + n <= buffer.Length
      modifies Footprint(), buffer
      ensures Ready(e) && Iv() == old(Iv()) && ok
      ensures var r := DecryptChunk(e.cipher, e.profile, Iv(), old(Inner().State()), old(buffer[d..d + n]));
              |r.out| == n && buffer[..] == Splice(old(buffer[..]), d, r.out) && Inner().State() == r.next
    {
      hide Splice, Step, PatternCrypt;
      match this {
        case Plain(a) =>
          ghost var size;
          ok, size := a.CryptSameSize(buffer, d, n, buffer, d);
        case Patterned(p) => ok := p.Crypt(buffer, d, n, buffer, d, n);
      }
    }
  }

  /** Builds and initialises the decryptor for the config's scheme. */
  method MakeDecryptor(keys: Keys, config: Config, key: seq<byte>) returns (made: Option<Decryptor>)
    requires config.Valid() && keys.get(config.keyId) == Some(key)
    ensures made.Some? <==> Build(keys, config).Some?
    ensures made.Some? ==> fresh(made.value.Footprint()) && made.value.Ready(Build(keys, config).value)
  {
    var pr := config.profile;
    if pr.scheme == OtherScheme {
      return None;
    }
    var inner := new AesCryptor(pr.Kind(), false);
    var ok;
    if pr.Patterned() {
      var p := new AesPatternCryptor(
        pr.cryptBlocks, pr.skipBlocks, EncryptIfCryptByteBlockRemaining, pr.scheme == Cbcs, inner);
      ok := p.InitializeWithIv(keys.schedule, key, config.iv);
      made := if ok then Some(Patterned(p)) else None;
    } else {
      ok := inner.InitializeWithIv(keys.schedule, key, config.iv);
      made := if ok then Some(Plain(inner)) else None;
    }
  }

  /** Decrypts a sample with a decryptor whose IV has just been set: the whole buffer, or subsample by
      subsample until one does not fit. */
  method DecryptInPlace(dec: Decryptor, ghost e: Entry, subs: seq<Subsample>, buffer: array<byte>) returns (ok: bool)
    requires dec.Ready(e) && IsIvSizeValid(|dec.Iv()|)
    requires dec.Inner().State() == Begin(e.profile.Kind(), dec.Iv())
    modifies dec.Footprint(), buffer
    ensures dec.Ready(e)
    ensures Decrypted(ok, buffer[..]) == DecryptSample(e.cipher, e.profile, old(dec.Iv()), subs, old(buffer[..]))
  {
    hide DecryptChunk, DecryptSubsamples, Splice;
    if subs == [] {
      ghost var before := buffer[..];
      assert buffer[0..buffer.Length] == before;
      SpliceAll(before, DecryptChunk(e.cipher, e.profile, dec.Iv(), dec.Inner().State(), before).out);
      ok := dec.Crypt(buffer, 0, buffer.Length, e);
    } else {
      ok := DecryptSubsamplesInPlace(dec, e, subs, buffer);
    }
  }

  method DecryptSubsamplesInPlace(
      dec: Decryptor, ghost e: Entry, subs: seq<Subsample>, buffer: array<byte>)
    returns (ok: bool)
    requires dec.Ready(e) && IsIvSizeValid(|dec.Iv()|)
    modifies dec.Footprint(), buffer
    ensures dec.Ready(e)
    ensures Decrypted(ok, buffer[..])
            == DecryptSubsamples(e.cipher, e.profile, old(dec.Iv()), old(dec.Inner().State()), subs, old(buffer[..]))
  {
    hide DecryptChunk, DecryptSubsamples, Splice, Going;
    ghost var c, pr, iv, left := e.cipher, e.profile, dec.Iv(), subs;
    ghost var goal := DecryptSubsamples(c, pr, iv, dec.Inner().State(), subs, buffer[..]);
    GoingStarts(c, pr, iv, dec.Inner().State(), subs, buffer[..], goal);
    var x: nat := 0;
    for i := 0 to |subs|
      invariant x <= buffer.Length && dec.Ready(e) && dec.Iv() == iv
      invariant left == subs[i..]
      invariant Going(c, pr, iv, dec.Inner().State(), left, buffer[..], x, goal)
    {
      ghost var now, st := buffer[..], dec.Inner().State();
      var sub := subs[i];
      if x + sub.clear + sub.cipher > buffer.Length {
        GoingOverflows(c, pr, iv, st, left, now, x, goal);
        return false;
      }
      GoesOn(c, pr, iv, st, left, now, x, goal);
      x := x + sub.clear;
      ok := dec.Crypt(buffer, x, sub.cipher, e);
      x := x + sub.cipher;
      left := left[1..];
    }
    GoingEnds(c, pr, iv, dec.Inner().State(), buffer[..], x, goal);
    return true;
  }

  /** The buffer is done up to x, and going on with the remaining subsamples ends in `goal`. */
  ghost predicate Going(
      c: Cipher, pr: Profile, iv: seq<byte>, st: Stream, subs: seq<Subsample>, buffer: seq<byte>, x: nat,
      goal: Decrypted)
    requires Fits(pr.Kind(), st) && IsIvSizeValid(|iv|) && x <= |buffer|
  {
    var r := DecryptSubsamples(c, pr, iv, st, subs, buffer[x..]);
    goal == Decrypted(r.ok, buffer[..x] + r.buffer)
  }

  lemma GoingStarts(
      c: Cipher, pr: Profile, iv: seq<byte>, st: Stream, subs: seq<Subsample>, buffer: seq<byte>, goal: Decrypted)
    requires Fits(pr.Kind(), st) && IsIvSizeValid(|iv|) && goal == DecryptSubsamples(c, pr, iv, st, subs, buffer)
    ensures Going(c, pr, iv, st, subs, buffer, 0, goal)
  {
    hide DecryptSubsamples;
    assert buffer[0..] == buffer && buffer[..0] + goal.buffer == goal.buffer;
  }

  lemma GoingOverflows(
      c: Cipher, pr: Profile, iv: seq<byte>, st: Stream, subs: seq<Subsample>, buffer: seq<byte>, x: nat,
      goal: Decrypted)
    requires Fits(pr.Kind(), st) && IsIvSizeValid(|iv|) && x <= |buffer|
    requires subs != [] && x + subs[0].clear + subs[0].cipher > |buffer| && Going(c, pr, iv, st, subs, buffer, x, goal)
    ensures goal == Decrypted(false, buffer)
  {
    assert buffer == buffer[..x] + buffer[x..];
  }

  lemma GoingEnds(c: Cipher, pr: Profile, iv: seq<byte>, st: Stream, buffer: seq<byte>, x: nat, goal: Decrypted)
    requires Fits(pr.Kind(), st) && IsIvSizeValid(|iv|) && x <= |buffer| && Going(c, pr, iv, st, [], buffer, x, goal)
    ensures goal == Decrypted(true, buffer)
  {
    assert buffer == buffer[..x] + buffer[x..];
  }

  lemma GoesOn(c: Cipher, pr: Profile, iv: seq<byte>, st: Stream, subs: seq<Subsample>, buffer: seq<byte>, x: nat,
               goal: Decrypted)
    requires Fits(pr.Kind(), st) && IsIvSizeValid(|iv|) && x <= |buffer|
    requires subs != [] && x + subs[0].clear + subs[0].cipher <= |buffer| && Going(c, pr, iv, st, subs, buffer, x, goal)
    ensures var y := x + subs[0].clear;
            var o := DecryptChunk(c, pr, iv, st, buffer[y..y + subs[0].cipher]);
            Going(c, pr, iv, o.next, subs[1..], Splice(buffer, y, o.out), y + subs[0].cipher, goal)
  {
    hide DecryptChunk, Splice;
    var a, n := subs[0].clear, subs[0].cipher;
    var y, rest := x + a, buffer[x..];
    SpliceRest(buffer, x, a, n, DecryptChunk(c, pr, iv, st, buffer[y..y + n]).out);
    var o := DecryptChunk(c, pr, iv, st, rest[a..a + n]);
    var r := DecryptSubsamples(c, pr, iv, o.next, subs[1..], rest[a + n..]);
    Associative(rest[..a], o.out, r.buffer);
    Associative(buffer[..x], rest[..a] + o.out, r.buffer);
  }

  lemma SpliceRest(buffer: seq<byte>, x: nat, a: nat, n: nat, out: seq<byte>)
    requires x + a + n <= |buffer| && |out| == n
    ensures var rest, y := buffer[x..], x + a;
            && rest[a..a + n] == buffer[y..y + n]
            && Splice(buffer, y, out)[..y + n] == buffer[..x] + (rest[..a] + out)
            && Splice(buffer, y, out)[y + n..] == rest[a + n..]
  {
    var rest, y := buffer[x..], x + a;
    SliceSlice(buffer, x, |buffer|, a, a + n);
    SliceSlice(buffer, x, |buffer|, a + n, |rest|);
    assert buffer[..y] == buffer[..x] + rest[..a];
    Associative(buffer[..x], rest[..a], out);
  }

  method DecryptCached(dec: Decryptor, ghost e: Entry, config: Config, buffer: array<byte>) returns (ok: bool)
    requires dec.Ready(e)
    modifies dec.Footprint(), buffer
    ensures dec.Ready(e)
    ensures Decrypted(ok, buffer[..]) == DecryptWith(Some(e), config, old(buffer[..]))
  {
    hide DecryptSample;
    ok := dec.SetIv(config.iv, e);
    if ok {
      ok := DecryptInPlace(dec, e, config.subsamples, buffer);
    }
  }

  ghost predicate Inside(decs: map<seq<byte>, Decryptor>, repr: set<object>) {
    forall k :: k in decs ==> decs[k].Footprint() <= repr
  }

  /** No two key ids share an object. */
  ghost predicate Apart(decs: map<seq<byte>, Decryptor>) {
    forall k, k' :: k in decs && k' in decs && k != k' ==> decs[k].Footprint() !! decs[k'].Footprint()
  }

  lemma ApartAdd(decs: map<seq<byte>, Decryptor>, repr: set<object>, key: seq<byte>, dec: Decryptor)
    requires Inside(decs, repr) && Apart(decs) && key !in decs && dec.Footprint() !! repr
    ensures Inside(decs[key := dec], repr + dec.Footprint()) && Apart(decs[key := dec])
  {
    var more := decs[key := dec];
    forall k, k' | k in more && k' in more && k != k'
      ensures more[k].Footprint() !! more[k'].Footprint()
    {
      if k in decs && k' in decs {
        assert decs[k].Footprint() !! decs[k'].Footprint();
      } else if k in decs {
        assert decs[k].Footprint() <= repr;
      } else {
        assert decs[k'].Footprint() <= repr;
      }
    }
  }

  lemma ApartAt(decs: map<seq<byte>, Decryptor>, k: seq<byte>, k': seq<byte>)
    requires Apart(decs) && k in decs && k' in decs && k != k'
    ensures decs[k].Footprint() !! decs[k'].Footprint()
  {
  }

  class DecryptorSource {
    const keys: Keys
    var decryptors: map<seq<byte>, Decryptor>
    ghost var cache: Cache
    ghost var Repr: set<object>

    ghost predicate Valid()
      reads this, Repr
    {
      && this !in Repr
      && (forall o :: o in Repr ==> o is AesCryptor || o is AesPatternCryptor)
      && decryptors.Keys == cache.Keys
      && Inside(decryptors, Repr)
      && (forall k :: k in decryptors ==> decryptors[k].Ready(cache[k]))
      && Apart(decryptors)
    }

    constructor (keys: Keys)
      ensures Valid() && fresh(Repr) && this.keys == keys && cache == map[]
    {
      this.keys := keys;
      decryptors := map[];
      cache := map[];
      Repr := {};
    }

    method DecryptSampleBuffer(config: Config, buffer: array<byte>) returns (ok: bool)
      requires Valid() && config.Valid()
      modifies this, Repr, buffer
      ensures Valid() && fresh(Repr - old(Repr))
      ensures cache == NextCache(keys, old(cache), config)
      ensures Decrypted(ok, buffer[..]) == DecryptWith(EntryFor(keys, old(cache), config), config, old(buffer[..]))
    {
      hide DecryptSample, Decryptor.Ready;
      var dec: Decryptor;
      if config.keyId in decryptors {
        dec := decryptors[config.keyId];
        assert cache[config.keyId := cache[config.keyId]] == cache;
      } else {
        var key := keys.get(config.keyId);
        if key.None? {
          return false;
        }
        var made := MakeDecryptor(keys, config, key.value);
        if made.None? {
          return false;
        }
        dec := made.value;
        Add(config.keyId, dec, Build(keys, config).value);
      }
      ok := Use(config, buffer);
    }

    /** Takes ownership of a new decryptor. */
    method Add(keyId: seq<byte>, dec: Decryptor, ghost e: Entry)
      requires Valid() && keyId !in decryptors && dec.Ready(e) && dec.Footprint() !! Repr && this !in dec.Footprint()
      modifies this
      ensures Valid() && Repr == old(Repr) + dec.Footprint()
      ensures cache == old(cache)[keyId := e] && decryptors == old(decryptors)[keyId := dec]
    {
      hide Apart, Decryptor.Ready;
      ApartAdd(decryptors, Repr, keyId, dec);
      decryptors := decryptors[keyId := dec];
      cache := cache[keyId := e];
      Repr := Repr + dec.Footprint();
    }

    /** Sets the IV of a cached decryptor and decrypts with it. */
    method Use(config: Config, buffer: array<byte>) returns (ok: bool)
      requires Valid() && config.keyId in decryptors
      modifies Repr, buffer
      ensures Valid()
      ensures Decrypted(ok, buffer[..]) == DecryptWith(Some(cache[config.keyId]), config, old(buffer[..]))
    {
      hide DecryptWith, Apart, Decryptor.Ready, Decryptor.Footprint;
      ghost var decs, key := decryptors, config.keyId;
      forall k | k in decs && k != key
        ensures decs[k].Footprint() !! decs[key].Footprint()
      {
        ApartAt(decs, k, key);
      }
      ok := DecryptCached(decryptors[config.keyId], cache[config.keyId], config, buffer);
    }
  }
}
