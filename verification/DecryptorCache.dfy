/** The decryptor cache as a value, and when it cannot be told from building a decryptor for every call. */
module DecryptorCaches {
  import opened Options
  import opened Bytes
  import opened Cbc
  import opened CryptStream
  import opened AesCryptors
  import opened SampleDecryption
  import opened SubsampleStream
  import opened DecryptorEffects

  datatype Config = Config(keyId: seq<byte>, iv: seq<byte>, subsamples: seq<Subsample>, profile: Profile) {
    ghost predicate Valid() {
      profile.cryptBlocks < 256 && profile.skipBlocks < 256
    }
  }

  /** The key source and the AES key schedule. */
  datatype Keys = Keys(get: seq<byte> -> Option<seq<byte>>, schedule: seq<byte> -> Cipher)

  /** What a decryptor stays set up for. */
  datatype Entry = Entry(profile: Profile, cipher: Cipher)

  /** The decryptor a fresh DecryptorSource would build, if the key and the scheme allow one. */
  function Build(keys: Keys, config: Config): (e: Option<Entry>) {
    match keys.get(config.keyId)
    case None => None
    case Some(key) =>
      if config.profile.scheme == OtherScheme || !IsKeySizeValidForAes(|key|) || !IsIvSizeValid(|config.iv|) then None
      else Some(Entry(config.profile, keys.schedule(key)))
  }

  type Cache = map<seq<byte>, Entry>

  /** The entry a call works with: the cached one, whatever the config's profile, or a new one. */
  function EntryFor(keys: Keys, cache: Cache, config: Config): (e: Option<Entry>) {
    if config.keyId in cache then Some(cache[config.keyId]) else Build(keys, config)
  }

  function NextCache(keys: Keys, cache: Cache, config: Config): (cache': Cache) {
    match EntryFor(keys, cache, config)
    case None => cache
    case Some(e) => cache[config.keyId := e]
  }

  function DecryptWith(e: Option<Entry>, config: Config, buffer: seq<byte>): (r: Decrypted)
    ensures |r.buffer| == |buffer|
  {
    if e.None? || !IsIvSizeValid(|config.iv|) then Decrypted(false, buffer)
    else DecryptSample(e.value.cipher, e.value.profile, config.iv, config.subsamples, buffer)
  }

  /** A call on a source with an empty cache. */
  function DecryptFresh(keys: Keys, config: Config, buffer: seq<byte>): (r: Decrypted)
    ensures |r.buffer| == |buffer|
  {
    DecryptWith(Build(keys, config), config, buffer)
  }

  /** What such a call asks for: a key of an AES size, a scheme it knows, and an IV of 8 or 16 bytes. Refused, it
      leaves the sample as it is. */
  lemma FreshCall(keys: Keys, config: Config, buffer: seq<byte>)
    ensures var key := keys.get(config.keyId);
            DecryptFresh(keys, config, buffer)
            == if || key.None?
                  || config.profile.scheme !in {Cenc, Cbc1, Cens, Cbcs}
                  || |key.value| !in {16, 24, 32}
                  || |config.iv| !in {8, 16}
               then Decrypted(false, buffer)
               else DecryptSample(keys.schedule(key.value), config.profile, config.iv, config.subsamples, buffer)
  {
    hide DecryptSample;
  }

  datatype Call = Call(config: Config, buffer: seq<byte>)

  /** The results of a run of calls. */
  function RunCalls(keys: Keys, cache: Cache, calls: seq<Call>): (rs: seq<Decrypted>)
    ensures |rs| == |calls|
    decreases calls
  {
    if calls == [] then []
    else
      var call := calls[0];
      [DecryptWith(EntryFor(keys, cache, call.config), call.config, call.buffer)]
      + RunCalls(keys, NextCache(keys, cache, call.config), calls[1..])
  }

  // ---------------------------------------------------------------- when the cache does not show

  /** Every call of the run does what it would do on an empty cache. */
  ghost predicate Transparent(keys: Keys, calls: seq<Call>) {
    forall i :: 0 <= i < |calls| ==>
      RunCalls(keys, map[], calls)[i] == DecryptFresh(keys, calls[i].config, calls[i].buffer)
  }

  /** The same key ids, profiles and IV sizes, on any IVs, subsamples and samples. */
  ghost predicate SameShape(calls: seq<Call>, calls': seq<Call>) {
    |calls| == |calls'| && forall i :: 0 <= i < |calls| ==> SameShapeOf(calls[i].config, calls'[i].config)
  }

  predicate SameShapeOf(config: Config, config': Config) {
    config.keyId == config'.keyId && config.profile == config'.profile && |config.iv| == |config'.iv|
  }

  ghost predicate SoundSchedule(schedule: seq<byte> -> Cipher) {
    forall key :: schedule(key).Valid()
  }

  /** Whatever the ciphers, the IVs, the subsamples and the samples. */
  ghost predicate AlwaysTransparent(get: seq<byte> -> Option<seq<byte>>, calls: seq<Call>) {
    forall schedule: seq<byte> -> Cipher, calls': seq<Call> | SoundSchedule(schedule) && SameShape(calls, calls') ::
      Transparent(Keys(get, schedule), calls')
  }

  /** A fresh source would build a decryptor for this config, and cache it. */
  predicate Buildable(get: seq<byte> -> Option<seq<byte>>, config: Config) {
    && get(config.keyId).Some? && IsKeySizeValidForAes(|get(config.keyId).value|)
    && config.profile.scheme != OtherScheme && IsIvSizeValid(|config.iv|)
  }

  /** Once one config has left its decryptor in the cache, the other does as well with it as with its own. */
  predicate Compatible(get: seq<byte> -> Option<seq<byte>>, first: Config, later: Config) {
    first.keyId == later.keyId && Buildable(get, first) && IsIvSizeValid(|later.iv|) ==>
      later.profile.scheme != OtherScheme && EffectOf(first.profile) == EffectOf(later.profile)
  }

  ghost predicate AllCompatible(get: seq<byte> -> Option<seq<byte>>, calls: seq<Call>) {
    forall i, j :: 0 <= i < j < |calls| ==> Compatible(get, calls[i].config, calls[j].config)
  }

  // ---------------------------------------------------------------- compatible calls

  /** What is cached for the config's key id is as good as what would be built for it. */
  ghost predicate Agrees(keys: Keys, cache: Cache, config: Config) {
    config.keyId in cache && IsIvSizeValid(|config.iv|) ==>
      && Buildable(keys.get, config)
      && cache[config.keyId].cipher == keys.schedule(keys.get(config.keyId).value)
      && cache[config.keyId].profile.scheme != OtherScheme
      && EffectOf(cache[config.keyId].profile) == EffectOf(config.profile)
  }

  lemma AgreeingCall(keys: Keys, cache: Cache, config: Config, buffer: seq<byte>)
    requires Agrees(keys, cache, config)
    ensures DecryptWith(EntryFor(keys, cache, config), config, buffer) == DecryptFresh(keys, config, buffer)
  {
    hide DecryptSample, EffectOf;
    if config.keyId in cache && IsIvSizeValid(|config.iv|) {
      var e := cache[config.keyId];
      SameEffect(e.cipher, e.profile, config.profile, config.iv, config.subsamples, buffer);
    }
  }

  lemma NextAgrees(keys: Keys, cache: Cache, config: Config, later: Config)
    requires Agrees(keys, cache, later) && Compatible(keys.get, config, later)
    ensures Agrees(keys, NextCache(keys, cache, config), later)
  {
    hide EffectOf;
  }

  lemma {:induction false} RunAgrees(keys: Keys, cache: Cache, calls: seq<Call>)
    requires AllCompatible(keys.get, calls)
    requires forall i :: 0 <= i < |calls| ==> Agrees(keys, cache, calls[i].config)
    ensures forall i :: 0 <= i < |calls| ==>
              RunCalls(keys, cache, calls)[i] == DecryptFresh(keys, calls[i].config, calls[i].buffer)
    decreases calls
  {
    hide DecryptWith, DecryptFresh, Agrees, Compatible;
    if calls != [] {
      var config := calls[0].config;
      var next := NextCache(keys, cache, config);
      assert Agrees(keys, cache, config);
      AgreeingCall(keys, cache, config, calls[0].buffer);
      var rest := calls[1..];
      forall i | 0 <= i < |rest|
        ensures Agrees(keys, next, rest[i].config)
      {
        assert rest[i] == calls[i + 1];
        assert Agrees(keys, cache, calls[i + 1].config) && Compatible(keys.get, calls[0].config, calls[i + 1].config);
        NextAgrees(keys, cache, config, rest[i].config);
      }
      RunAgrees(keys, next, rest);
      forall i | 0 <= i < |calls|
        ensures RunCalls(keys, cache, calls)[i] == DecryptFresh(keys, calls[i].config, calls[i].buffer)
      {
        if i > 0 {
          assert calls[i] == rest[i - 1];
        }
      }
    }
  }

  lemma CompatibleIsTransparent(keys: Keys, calls: seq<Call>)
    requires AllCompatible(keys.get, calls)
    ensures Transparent(keys, calls)
  {
    RunAgrees(keys, map[], calls);
  }

  // ---------------------------------------------------------------- incompatible calls

  function CacheAfter(keys: Keys, cache: Cache, calls: seq<Call>): Cache
    decreases calls
  {
    if calls == [] then cache else CacheAfter(keys, NextCache(keys, cache, calls[0].config), calls[1..])
  }

  /** A call works with the cache that the calls before it left. */
  lemma {:induction false} CallOnCache(keys: Keys, cache: Cache, calls: seq<Call>, j: nat)
    requires j < |calls|
    ensures var before := CacheAfter(keys, cache, calls[..j]);
            RunCalls(keys, cache, calls)[j]
            == DecryptWith(EntryFor(keys, before, calls[j].config), calls[j].config, calls[j].buffer)
    decreases j
  {
    hide DecryptWith, EntryFor, NextCache;
    if j > 0 {
      CallOnCache(keys, NextCache(keys, cache, calls[0].config), calls[1..], j - 1);
      assert calls[..j][1..] == calls[1..][..j - 1];
    }
  }

  /** What is cached stays. */
  lemma {:induction false} CachedStays(keys: Keys, cache: Cache, calls: seq<Call>, keyId: seq<byte>)
    requires keyId in cache
    ensures keyId in CacheAfter(keys, cache, calls) && CacheAfter(keys, cache, calls)[keyId] == cache[keyId]
    decreases calls
  {
    if calls != [] {
      CachedStays(keys, NextCache(keys, cache, calls[0].config), calls[1..], keyId);
    }
  }

  /** The first call of a key id that can be built leaves its decryptor there for good. */
  lemma {:induction false} FirstIsCached(keys: Keys, cache: Cache, calls: seq<Call>, i: nat)
    requires i < |calls| && Buildable(keys.get, calls[i].config) && calls[i].config.keyId !in cache
    requires forall k :: 0 <= k < i && calls[k].config.keyId == calls[i].config.keyId ==>
                           !Buildable(keys.get, calls[k].config)
    ensures var config, after := calls[i].config, CacheAfter(keys, cache, calls);
            config.keyId in after
            && after[config.keyId] == Entry(config.profile, keys.schedule(keys.get(config.keyId).value))
    decreases i
  {
    var next := NextCache(keys, cache, calls[0].config);
    if i == 0 {
      CachedStays(keys, next, calls[1..], calls[0].config.keyId);
    } else {
      assert calls[1..][i - 1] == calls[i];
      FirstIsCached(keys, next, calls[1..], i - 1);
    }
  }

  /** If the cache never shows, a later call under the same key id decrypts every sample as the profile that
      was cached first would. */
  lemma LaterCallsAlike(get: seq<byte> -> Option<seq<byte>>, calls: seq<Call>, i: nat, j: nat)
    requires AlwaysTransparent(get, calls) && i < j < |calls| && FirstBuildable(get, calls, i)
    requires calls[i].config.keyId == calls[j].config.keyId && IsIvSizeValid(|calls[j].config.iv|)
    ensures var first, later := calls[i].config.profile, calls[j].config.profile;
            later.scheme != OtherScheme && Alike(first, later, |calls[j].config.iv|)
  {
    hide DecryptSample, AlwaysTransparent, FirstBuildable;
    var first, later := calls[i].config.profile, calls[j].config.profile;
    var size := |calls[j].config.iv|;
    FlipValid();
    LaterCall(get, calls, i, j, FLIP, Zeros(size), [], []);
    NoSubsamplesOk(FLIP, first, Zeros(size), []);
    forall c: Cipher, iv: seq<byte>, subs: seq<Subsample>, buffer: seq<byte> | c.Valid() && |iv| == size
      ensures DecryptSample(c, first, iv, subs, buffer) == DecryptSample(c, later, iv, subs, buffer)
    {
      LaterCall(get, calls, i, j, c, iv, subs, buffer);
    }
  }

  lemma NoSubsamplesOk(c: Cipher, pr: Profile, iv: seq<byte>, buffer: seq<byte>)
    requires IsIvSizeValid(|iv|)
    ensures DecryptSample(c, pr, iv, [], buffer).ok
  {
    hide DecryptChunk;
  }

  ghost predicate FirstBuildable(get: seq<byte> -> Option<seq<byte>>, calls: seq<Call>, i: nat)
    requires i < |calls|
  {
    && Buildable(get, calls[i].config)
    && forall k :: 0 <= k < i && calls[k].config.keyId == calls[i].config.keyId ==> !Buildable(get, calls[k].config)
  }

  /** The same calls with other bytes in the j-th. */
  lemma LaterCall(get: seq<byte> -> Option<seq<byte>>, calls: seq<Call>, i: nat, j: nat,
                  c: Cipher, iv: seq<byte>, subs: seq<Subsample>, buffer: seq<byte>)
    requires AlwaysTransparent(get, calls) && i < j < |calls| && FirstBuildable(get, calls, i)
    requires calls[i].config.keyId == calls[j].config.keyId && c.Valid()
    requires |iv| == |calls[j].config.iv| && IsIvSizeValid(|iv|)
    ensures var first, later := calls[i].config.profile, calls[j].config.profile;
            DecryptSample(c, first, iv, subs, buffer)
            == if later.scheme == OtherScheme then Decrypted(false, buffer)
               else DecryptSample(c, later, iv, subs, buffer)
  {
    hide DecryptSample;
    var config := calls[j].config.(iv := iv, subsamples := subs);
    var calls' := calls[j := Call(config, buffer)];
    var keys := Keys(get, _ => c);
    assert SoundSchedule(keys.schedule) && SameShape(calls, calls');
    assert Transparent(keys, calls');
    hide AlwaysTransparent;
    CallOnCache(keys, map[], calls', j);
    assert calls'[..j] == calls[..j] && calls[..j][i] == calls[i];
    FirstIsCached(keys, map[], calls[..j], i);
  }

  /** The earliest call under the same key id that can be built. */
  lemma {:induction false} Earliest(get: seq<byte> -> Option<seq<byte>>, calls: seq<Call>, i: nat) returns (f: nat)
    requires i < |calls| && Buildable(get, calls[i].config)
    ensures f <= i && FirstBuildable(get, calls, f) && calls[f].config.keyId == calls[i].config.keyId
    decreases i
  {
    if k :| 0 <= k < i && calls[k].config.keyId == calls[i].config.keyId && Buildable(get, calls[k].config) {
      f := Earliest(get, calls, k);
    } else {
      f := i;
    }
  }

  lemma TransparentIsCompatible(get: seq<byte> -> Option<seq<byte>>, calls: seq<Call>, i: nat, j: nat)
    requires AlwaysTransparent(get, calls) && i < j < |calls|
    ensures Compatible(get, calls[i].config, calls[j].config)
  {
    hide AlwaysTransparent, Alike, EffectOf;
    var first, later := calls[i].config, calls[j].config;
    if first.keyId == later.keyId && Buildable(get, first) && IsIvSizeValid(|later.iv|) {
      var f := Earliest(get, calls, i);
      var pr := calls[f].config.profile;
      LaterCallsAlike(get, calls, f, j);
      AlikeIffSameEffect(pr, later.profile, |later.iv|);
      if f < i {
        LaterCallsAlike(get, calls, f, i);
        AlikeIffSameEffect(pr, first.profile, |first.iv|);
      }
    }
  }

  /** The cache never shows, whatever the ciphers, IVs, subsamples and samples, exactly if every call agrees in
      effect with each earlier call of its key id that could be built. */
  lemma TransparentIff(get: seq<byte> -> Option<seq<byte>>, calls: seq<Call>)
    ensures AlwaysTransparent(get, calls) <==> AllCompatible(get, calls)
  {
    hide Transparent, Compatible;
    if AllCompatible(get, calls) {
      forall schedule: seq<byte> -> Cipher, calls': seq<Call> | SoundSchedule(schedule) && SameShape(calls, calls')
        ensures Transparent(Keys(get, schedule), calls')
      {
        ShapeCompatible(get, calls, calls');
        CompatibleIsTransparent(Keys(get, schedule), calls');
      }
    }
    if AlwaysTransparent(get, calls) {
      forall i, j | 0 <= i < j < |calls|
        ensures Compatible(get, calls[i].config, calls[j].config)
      {
        TransparentIsCompatible(get, calls, i, j);
      }
    }
  }

  lemma ShapeCompatible(get: seq<byte> -> Option<seq<byte>>, calls: seq<Call>, calls': seq<Call>)
    requires AllCompatible(get, calls) && SameShape(calls, calls')
    ensures AllCompatible(get, calls')
  {
    hide EffectOf;
    forall i, j | 0 <= i < j < |calls'|
      ensures Compatible(get, calls'[i].config, calls'[j].config)
    {
      assert SameShapeOf(calls[i].config, calls'[i].config) && SameShapeOf(calls[j].config, calls'[j].config);
      assert Compatible(get, calls[i].config, calls[j].config);
    }
  }

  /** Every key id keeps one scheme and pattern. */
  ghost predicate Consistent(calls: seq<Call>) {
    forall i, j :: 0 <= i < j < |calls| && calls[i].config.keyId == calls[j].config.keyId
                   ==> calls[i].config.profile == calls[j].config.profile
  }

  /** In particular the cache never shows in a run in which each key id keeps one scheme and pattern. */
  lemma CacheIsTransparent(keys: Keys, calls: seq<Call>)
    requires Consistent(calls)
    ensures Transparent(keys, calls)
  {
    hide EffectOf, Transparent;
    CompatibleIsTransparent(keys, calls);
  }

  /** The cache is keyed by the key id alone: the same sample, decrypted under 'cbc1' after a 'cenc' sample with
      the same key id, comes out as a 'cenc' sample. */
  lemma CacheIgnoresProfile(keys: Keys, keyId: seq<byte>)
    requires keys.get(keyId).Some? && |keys.get(keyId).value| == 16 && keys.schedule(keys.get(keyId).value) == FLIP
    ensures var first := Call(Config(keyId, Zeros(16), [], Profile(Cenc, 0, 0)), [0]);
            var second := Call(Config(keyId, Zeros(16), [], Profile(Cbc1, 0, 0)), [0]);
            && RunCalls(keys, map[], [first, second])[1] == Decrypted(true, [255])
            && DecryptFresh(keys, second.config, second.buffer) == Decrypted(true, [0])
  {
    hide DecryptSample, FLIP;
    var first := Call(Config(keyId, Zeros(16), [], Profile(Cenc, 0, 0)), [0]);
    var second := Call(Config(keyId, Zeros(16), [], Profile(Cbc1, 0, 0)), [0]);
    var calls := [first, second];
    CallOnCache(keys, map[], calls, 1);
    assert calls[..1] == [first];
    FirstIsCached(keys, map[], [first], 0);
    OneByteSample(first.config.profile);
    OneByteSample(second.config.profile);
  }

  lemma OneByteSample(pr: Profile)
    requires pr.scheme != OtherScheme
    ensures DecryptSample(FLIP, pr, Zeros(16), [], [0]) == Decrypted(true, [if pr.scheme == Cenc then 255 else 0])
  {
    hide DecryptChunk, DecryptSubsamples, FLIP;
    OneByte(pr, 16);
    assert Zeros(1) == [0];
    var r := DecryptSample(FLIP, pr, Zeros(16), [], [0]);
    assert r == Decrypted(true, Plain(FLIP, pr, Zeros(16), [0]));
    assert r.buffer == [r.buffer[0]];
  }
}
