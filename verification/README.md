# Verified model of the packager's cipher stack, queues, playlists and codecs

This project models, in Dafny, the parts of the media packager whose behaviour is decided by its own code rather than
by libraries or I/O, and proves what they promise:

- the Common Encryption cipher stack: counter mode and CBC cryptors with their three padding schemes, ciphertext
  stealing in place and out of place, IV arithmetic, crypt/skip patterns, and the per-key decryptor cache;
- the producer/consumer queue with its three condition variables, as a transition system over threads;
- the entry list of an HLS media playlist and the keys in force in it;
- segment templates and the names made from them;
- the graph of media handlers;
- cursors and codecs: bit reader, buffer reader and writer, 'pssh' boxes, byte queues.

`dafny verify dfyconfig.toml` checks everything.

## Modules

| files | subject |
|---|---|
| `Bytes`, `Options` | octets, buffer writes, big-endian numbers; optional values |
| `Cbc`, `Ctr`, `CryptStream` | the modes as their standards define them, and runs of calls |
| `AesCryptor`, `CounterRuns` | the cryptor classes; counter reuse over whole runs |
| `Masking`, `Pattern`, `AesPatternCryptor` | pattern encryption |
| `SampleDecryption`, `SubsampleStream`, `PatternSubsamples`, `SampleBlocks` | samples, their subsamples and blocks |
| `DecryptorEffect`, `DecryptorCache`, `DecryptorSource` | what tells decryptors apart; the decryptor cache |
| `ProducerConsumerQueue`, `QueueRuns`, `QueueEndings` | the stretches a thread runs under the lock; all interleavings of them; how each ends |
| `MediaPlaylist`, `SegmentTemplate` | playlists and segment names |
| `MediaGraph`, `MediaHandler` | routing and initialization of the handler graph |
| `BitReader`, `BufferCodec`, `BufferWriter`, `BufferReader`, `PsshBoxes`, `ProtectionSystemSpecificInfo`, `ByteQueue`, `OffsetByteQueue` | cursors, codecs and queues of bytes |

## How the code is modelled

- The AES block function is an arbitrary pair of functions on 16-byte blocks of which the second undoes the first.
  `AES_cbc_encrypt` is chaining that hands back the new chaining value and does nothing on length 0.
- Buffers are arrays with an index; in-place calls pass the same array twice. Virtual functions are selected by a field.
- The queue's operations are split at their waits. A `Signal` wakes any one waiting thread; a waiting thread may also wake
  up at any time, which covers timeouts and spurious wake-ups.
- The key source, the AES key schedule, `InitializeInternal` and overridden virtual functions are parameters.
- Graphs without cycles (Initialize: among the handlers not initialized) are given with a rank that falls along every edge;
  exactly those graphs have one.

## Where the code and its documentation differ

- `packager/media/base/decrypt_config.h:21-27` describes all cipher bytes of a sample as one logical stream. Under
  'cbc1' this holds only if they line up with the blocks (`SubsampleStream.Cbc1OneStreamIff`).
- `packager/media/base/producer_consumer_queue.h:71-73` has `Peek` return OK or an error; woken after the head has passed
  its position it reads outside the queue (`QueueRuns.ResumedPeek`, `QueueRuns.PeekCanMissItsElement`).
- `packager/media/base/decryptor_source.cc:30` looks decryptors up by key id alone, so that a second scheme under the same
  key id gets the first one's decryptor (`DecryptorCaches.CacheIgnoresProfile`); `DecryptorCaches.TransparentIff` says
  exactly when this does not matter.
- `packager/media/base/bit_reader.h:76-82` does not say that a `SkipBytes` refused for want of bytes has already moved the
  reader's pointer (`BitReaders.BitReader.SkipBytes`).
- For samples of 2^64 - 15 bytes and more the increment of `UpdateIv` wraps around (`CounterRuns.IncrementExact`,
  `CounterRuns.OversizedSampleReuses`).

## Model

| member | source | states |
|---|---|---|
| `Cbc.CtsRoundTrip` | packager/media/base/aes_decryptor.cc:108-153 | For every invertible block cipher, IV and text of any length, ciphertext-stealing decryption returns what ciphertext-stealing encryption was given. |
| `Cbc.CtsReorderUndoes` | packager/media/base/aes_decryptor.cc:126-148 | Recovering the stolen block and putting the last two blocks back in order yields exactly the plain chained encryption of the zero-padded text. |
| `Cbc.CtsEncryptShape` | packager/media/base/aes_encryptor.cc:151-183 | The code's order of work (chain the whole blocks, then the padded residue, then move the bytes) computes CBC-CS2 as the standard defines it. |
| `Cbc.CtsDecryptSplit` | packager/media/base/aes_decryptor.cc:115-124 | Decrypting everything before the last full block by plain chaining and the tail on its own is CBC-CS2 decryption of the whole. |
| `Cbc.CtsDecryptTail` | packager/media/base/aes_decryptor.cc:126-153 | On the last full block and residue, decrypting the block with the zero-padded residue as IV recovers the residue and the stolen block. |
| `Cbc.CbcRoundTrip` | packager/media/base/aes_decryptor.cc:78-101 | Plain chaining: decryption undoes encryption for every cipher, IV and whole-block text. |
| `Cbc.CbcEncryptAppend` | packager/media/base/aes_encryptor.cc:130-134 | Chained encryption of a concatenation is the concatenation, the second part starting from the last ciphertext block of the first. |
| `Cbc.CbcDecryptAppend` | packager/media/base/aes_decryptor.cc:78-82 | The same for chained decryption. |
| `Cbc.Pkcs5RoundTrip` | packager/media/base/aes_decryptor.cc:86-94 | For every length, padding, encrypting, decrypting and stripping gives back the text, and the padding count read is acceptable. |
| `Bytes.SwapIsCopy` | packager/media/base/aes_decryptor.cc:138-148 | The in-place path (swapping the two ranges) and the separate-buffer path (two copies) leave the same bytes. |
| `Bytes.SwapRanges` | packager/media/base/aes_decryptor.cc:139-142 | Element by element, exchanges the two ranges of the array and nothing else. |
| `Ctr.CounterBlockLow` | packager/media/base/aes_encryptor.cc:80-85 | The low 64 bits of the j-th counter block are the start plus j modulo 2^64. |
| `Ctr.CounterBlockNext` | packager/media/base/aes_encryptor.cc:78-86 | One 64-bit increment leads from each counter block to the next. |
| `Ctr.CtrInvolution` | packager/media/base/aes_encryptor.cc:77-89 | Applying counter mode twice from the same position restores the text. |
| `Ctr.CtrAppend` | packager/media/base/aes_encryptor.cc:77-89 | Counter mode on a concatenation is counter mode on the parts, the second at the position where the first ended. |
| `Ctr.CtrBlock` | packager/media/base/aes_encryptor.cc:77-89 | Each block is masked by the encryption of its own counter block, byte by byte. |
| `Ctr.CtrByte` | packager/media/base/aes_encryptor.cc:77-89 | Byte k is masked by byte k % 16 of the encrypted block with the start's high half and the start's low number plus k / 16 modulo 2^64. |
| `CryptStream.CounterCall` | packager/media/base/aes_encryptor.cc:77-97 | The same of a call right after SetIv, from the IV itself. |
| `CryptStream.ChainedEncryption` | packager/media/base/aes_encryptor.cc:130-149 | Right after SetIv each block is encrypted together with the ciphertext block before it, the first one with the zero-filled IV, and the residue is copied. |
| `CryptStream.ChainedDecryption` | packager/media/base/aes_decryptor.cc:95-101 | Right after SetIv each decrypted block is masked by the ciphertext block before it, the first one by the zero-filled IV, and the residue is copied. |
| `CryptStream.FirstBlockEncrypted` | packager/media/base/aes_encryptor.cc:187-190 | With every padding scheme the first block is encrypted with the IV, unless its end is stolen. |
| `Cbc.CbcEncryptBlock` | packager/media/base/aes_encryptor.cc:132-134 | Each ciphertext block is the encryption of its plaintext block masked by the ciphertext block before it. |
| `Cbc.CbcDecryptBlock` | packager/media/base/aes_decryptor.cc:80-82 | Each plaintext block is its decrypted ciphertext block masked by the ciphertext block before it. |
| `Cbc.Pkcs5Bytes` | packager/media/base/aes_encryptor.cc:156-163 | Every padding byte is the number of padding bytes, which fill up the block. |
| `Bytes.XorByteBit` | packager/media/base/aes_encryptor.cc:87 | A bit of the masked byte is set exactly if it is set in one of the two. |
| `Bytes.BigEndian` | packager/media/base/aes_cryptor.cc:98-102 | The most significant byte of a number comes first. |
| `AesCryptors.FedAreUsed` | packager/media/base/aes_encryptor.cc:78-88 | The bytes of a sample are masked by exactly the blocks counted as given to the cipher, 16 bytes by each. |
| `Bytes.AddBEValue` | packager/media/base/aes_cryptor.cc:98-102 | Byte-wise addition with carry computes the sum modulo 256^n. |
| `Bytes.AddBEAdd` | packager/media/base/aes_cryptor.cc:98-102 | Adding twice is adding the sum. |
| `CryptStream.StepInverse` | packager/media/base/aes_decryptor.cc:52-154 | For every mode, padding scheme, stream position and text, the inverse cryptor accepts the output and returns the text; chained cryptors also end at the same stream position. |
| `CryptStream.StepAppend` | packager/media/base/aes_encryptor.cc:130-149 | Splitting a text after whole blocks (anywhere in counter mode) gives the bytes and the final position of one call. |
| `CryptStream.RunIsOneCall` | packager/media/base/aes_encryptor.cc:61-149 | Any run of calls whose chunks, but the last, are whole blocks (any chunks in counter mode) outputs what one call on the concatenation outputs. |
| `CryptStream.RunInverse` | packager/media/base/aes_decryptor.cc:78-101 | Any run of calls of any lengths is undone chunk by chunk by a run with the same split. |
| `CryptStream.StepLength` | packager/media/base/aes_encryptor.cc:69-75 | A chained cryptor always succeeds and keeps the length. |
| `AesCryptors.Increment64` | packager/media/base/aes_encryptor.cc:16-23 | The carry loop adds one to an 8-byte big-endian number and reports wrap-around exactly when the result is zero. |
| `AesCryptors.AddToIv` | packager/media/base/aes_cryptor.cc:98-102 | The carry loop, which stops as soon as nothing is carried, adds the increment to the whole IV. |
| `AesCryptors.AesCryptor.constructor` | packager/media/base/aes_encryptor.cc:53-56 | Counter mode never has a constant IV, padded CBC always has. |
| `AesCryptors.AesCryptor.InitializeWithIv` | packager/media/base/aes_encryptor.cc:39-49 | Succeeds exactly for AES key sizes and valid IV sizes; the stream then stands at its beginning. |
| `AesCryptors.AesCryptor.SetIv` | packager/media/base/aes_cryptor.cc:67-76 | Succeeds exactly for 8- and 16-byte IVs and restarts the stream there; otherwise changes nothing. |
| `AesCryptors.AesCryptor.SetIvInternal` | packager/media/base/aes_encryptor.cc:93-97 | Puts the counter, or the chaining value, at the IV filled up with zeros. |
| `AesCryptors.AesCryptor.UpdateIv` | packager/media/base/aes_cryptor.cc:78-105 | Does nothing with a constant IV; else adds 1 (8-byte IV) or the blocks of the sample (in 64-bit arithmetic) to the IV as a big-endian number, clears the byte count and restarts the stream. |
| `AesCryptors.AesCryptor.Crypt` | packager/media/base/aes_cryptor.h:59-68 | In place or not: succeeds exactly if there is room for the text and its padding and the text is acceptable; refusing for room it touches nothing; else it outputs and advances the stream as Step says, from the IV if it is constant, and changes no byte outside the output range. |
| `AesCryptors.AesCryptor.CryptSameSize` | packager/media/base/aes_cryptor.h:54-58 | With room for exactly the text size, constant IV or not: outputs and advances as Step says or refuses; a cryptor that chains always succeeds. |
| `AesCryptors.AesCryptor.CryptVector` | packager/media/base/aes_cryptor.cc:38-51 | Sizes the output for the padding and trims it to exactly what Step yields. |
| `AesCryptors.AesCryptor.CryptCtr` | packager/media/base/aes_encryptor.cc:61-91 | Counter mode call: refuses too small a buffer, else advances the position by the text size. |
| `AesCryptors.AesCryptor.CtrLoop` | packager/media/base/aes_encryptor.cc:77-89 | The byte loop writes the text masked by the key stream from the old position on, across block boundaries and earlier calls. |
| `AesCryptors.AesCryptor.NextKeyByte` | packager/media/base/aes_encryptor.cc:78-88 | Yields the key stream byte at the current position; the block offset stays the position modulo 16. |
| `AesCryptors.AesCryptor.NextKeyBlock` | packager/media/base/aes_encryptor.cc:79-85 | Encrypts the counter and increments its low half. |
| `AesCryptors.AesCryptor.EncryptCbc` | packager/media/base/aes_encryptor.cc:114-128 | CBC encryption call: buffer check, then the whole of Step. |
| `AesCryptors.AesCryptor.EncryptBuffer` | packager/media/base/aes_encryptor.cc:130-184 | Writes exactly the mode's ciphertext and leaves the right chaining value, for all three padding schemes. |
| `AesCryptors.AesCryptor.EncryptWhole` | packager/media/base/aes_encryptor.cc:130-134 | Chains the whole blocks. |
| `AesCryptors.AesCryptor.EncryptPadded` | packager/media/base/aes_encryptor.cc:156-163 | Pads the residue and encrypts it behind the whole blocks. |
| `AesCryptors.AesCryptor.EncryptStolen` | packager/media/base/aes_encryptor.cc:168-182 | Moves the start of the last full block behind it and puts the encrypted residue in its place. |
| `AesCryptors.AesCryptor.DecryptCbc` | packager/media/base/aes_decryptor.cc:52-154 | CBC decryption call: buffer check, empty texts, and the three padding schemes. |
| `AesCryptors.AesCryptor.DecryptNoPadding` | packager/media/base/aes_decryptor.cc:95-101 | Decrypts the whole blocks, copies the residue. |
| `AesCryptors.AesCryptor.DecryptPkcs5` | packager/media/base/aes_decryptor.cc:80-94 | Fails exactly for empty or unaligned input or a padding count above 16; else strips the count. |
| `AesCryptors.AesCryptor.DecryptCts` | packager/media/base/aes_decryptor.cc:108-153 | Writes the CBC-CS2 plaintext, in place or not, and leaves the right chaining value. |
| `AesCryptors.AesCryptor.DecryptStolen` | packager/media/base/aes_decryptor.cc:121-153 | The last full block and residue are decrypted, in place or not. |
| `AesCryptors.AesCryptor.RestoreStolen` | packager/media/base/aes_decryptor.cc:126-148 | Reassembles the stolen block in front of the decrypted residue. |
| `AesCryptors.AesCryptor.SwapBack` | packager/media/base/aes_decryptor.cc:138-148 | Both branches leave the same bytes. |
| `CounterRuns.NoReuse16` | packager/media/base/aes_cryptor.cc:86-95 | Over every run of Crypt and UpdateIv after SetIv with a 16-byte IV, no counter block is given to the cipher twice while at most 2^64 are used and every sample that an UpdateIv ends is below 2^64 - 15 bytes. |
| `CounterRuns.NoReuse8` | packager/media/base/aes_cryptor.cc:83-92 | With an 8-byte IV no counter block is used twice over at most 2^64 samples of at most 2^64 blocks. |
| `CounterRuns.RunCountsUp` | packager/media/base/aes_encryptor.cc:77-97 | The low halves of all counter blocks used run on without gaps across samples, modulo 2^64. |
| `CounterRuns.RunSeparated` | packager/media/base/aes_cryptor.cc:91-92 | Blocks of different samples differ in their high half. |
| `CounterRuns.IncrementExact` | packager/media/base/aes_cryptor.cc:94-96 | UpdateIv's increment is the number of blocks of the sample exactly if the sample is below 2^64 - 15 bytes. |
| `CounterRuns.OversizedSampleReuses` | packager/media/base/aes_cryptor.cc:94-102 | Conversely, from every state with a larger sample, UpdateIv and one more byte use a counter block again, unless the addition carries into the high half. |
| `CounterRuns.ReuseInOversizedSample` | packager/media/base/aes_cryptor.cc:94-96 | For example a first sample of 2^64 - 8 bytes, whatever the IV. |
| `Pattern.PatternIsOneStream` | packager/media/base/aes_pattern_cryptor.cc:52-73 | For every pattern (0:0 and 0:n included), text and inner cryptor, the loop equals one inner call on all crypt runs joined, with every other byte copied. |
| `Pattern.PatternRoundTrip` | packager/media/base/aes_pattern_cryptor.cc:40-74 | Pattern decryption undoes pattern encryption for every pattern, last-block mode and length. |
| `Pattern.MaskPeriod` | packager/media/base/aes_pattern_cryptor.cc:52-72 | The bytes crypted, defined by position alone, are one crypt run, one skip run and the pattern of the rest. |
| `Pattern.MarkedExactly` | packager/media/base/aes_pattern_cryptor.cc:52-85 | Byte i of n is crypted under a:b exactly if its block is among the first a of its period of a + b blocks, 0:0 being 1:0, and the bytes from the period on are enough for a blocks, or in the other mode more than enough. |
| `Masking.ScatterGather` | packager/media/base/decrypt_config.h:24-27 | Taking marked bytes out and putting them back restores a buffer. |
| `Masking.GatherScatter` | packager/media/base/decrypt_config.h:24-27 | What was put in the marked places is what is taken out. |
| `Masking.ScatterKeepsClear` | packager/media/base/decrypt_config.h:22-24 | Unmarked bytes stay as they are. |
| `AesPatternCryptors.AesPatternCryptor.constructor` | packager/media/base/aes_pattern_cryptor.cc:16-31 | 0:0 becomes 1:0; the inner cryptor must chain. |
| `AesPatternCryptors.AesPatternCryptor.InitializeWithIv` | packager/media/base/aes_pattern_cryptor.cc:35-38 | Succeeds exactly for valid key and IV sizes, and sets up the inner cryptor. |
| `AesPatternCryptors.AesPatternCryptor.SetIv` | packager/media/base/aes_cryptor.cc:67-76 | Restarts the inner stream, or changes nothing. |
| `AesPatternCryptors.AesPatternCryptor.UpdateIv` | packager/media/base/aes_cryptor.cc:78-105 | Moves both IVs on together. |
| `AesPatternCryptors.AesPatternCryptor.Crypt` | packager/media/base/aes_cryptor.h:59-68 | Succeeds exactly if the buffer is big enough, and then writes the pattern crypt of the text. |
| `AesPatternCryptors.AesPatternCryptor.CryptRuns` | packager/media/base/aes_pattern_cryptor.cc:52-73 | The loop terminates and writes the pattern crypt of the text, in place or not. |
| `AesPatternCryptors.AesPatternCryptor.CryptPeriod` | packager/media/base/aes_pattern_cryptor.cc:54-71 | One crypt run and one skip run. |
| `SampleDecryption.FitsIffOk` | packager/media/base/decryptor_source.cc:97-102 | The subsample loop succeeds exactly when the subsamples fit the buffer. |
| `SampleDecryption.OverflowKeepsWork` | packager/media/base/decryptor_source.cc:98-102 | A subsample that does not fit ends the loop, and what was decrypted before it stays decrypted. |
| `SampleDecryption.LoopScatters` | packager/media/base/decryptor_source.cc:97-109 | Without a pattern, the loop changes the cipher bytes alone, decrypting them subsample by subsample. |
| `PatternSubsamples.CensIsOneStream` | packager/media/base/decryptor_source.cc:97-109 | Under 'cens' the loop is one counter stream over what the pattern, begun anew in each subsample, crypts in all of them; all other bytes are unchanged. |
| `PatternSubsamples.CbcsEach` | packager/media/base/decryptor_source.cc:97-109 | Under 'cbcs' every subsample's cipher range is decrypted on its own from the IV, and its clear range is unchanged. |
| `PatternSubsamples.TrailingStays` | packager/media/base/decryptor_source.cc:97-109 | What follows the last subsample is unchanged, whatever the scheme. |
| `SampleBlocks.CencByte` | packager/media/base/decryptor_source.cc:42-44 | Byte k of a 'cenc' sample is masked by byte k % 16 of the encrypted block k / 16 after the IV. |
| `SampleBlocks.Cbc1Block` | packager/media/base/decryptor_source.cc:45-47 | Each block of a 'cbc1' sample is decrypted and masked by the block before it, the first one by the IV, and less than a block is copied. |
| `SampleBlocks.PatternedSample` | packager/media/base/decryptor_source.cc:48-63 | What the pattern marks of a 'cens' sample is one counter stream from the IV, of a 'cbcs' sample one chained stream; all other bytes stay. |
| `SampleBlocks.CbcsFirstBlock` | packager/media/base/decryptor_source.cc:103-104 | The first block of every 'cbcs' subsample that holds a crypt run is decrypted and masked by the IV. |
| `SubsampleStream.CencIsOneStream` | packager/media/base/decrypt_config.h:21-27 | Under 'cenc' a sample with subsamples comes out as its cipher bytes gathered, decrypted as one stream and put back, with all other bytes unchanged, for every list that fits; without subsamples the whole sample is one stream. |
| `SubsampleStream.Cbc1OneStreamIff` | packager/media/base/decrypt_config.h:21-27 | Under 'cbc1' the documented single logical stream holds, for every cipher, IV and content, exactly when the cipher bytes line up with the blocks. |
| `SubsampleStream.MisalignedIsNot` | packager/media/base/decryptor_source.cc:103-108 | One cipher and sample on which every misaligned list deviates. |
| `SubsampleStream.AlignedIsOneStream` | packager/media/base/decryptor_source.cc:103-108 | Aligned lists are one stream. |
| `DecryptorEffects.AlikeIffSameEffect` | packager/media/base/decryptor_source.cc:41-68 | Two profiles decrypt every sample alike, for all ciphers, IVs, subsamples and bytes, exactly if they have the same effect: the scheme, and for the schemes with a pattern its block counts, where 0:0 is 1:0 and 0:n is nothing. |
| `DecryptorEffects.SameEffect` | packager/media/base/decryptor_source.cc:41-68 | Profiles with the same effect decrypt alike. |
| `DecryptorEffects.TellsCbc1` | packager/media/base/decryptor_source.cc:45-63 | Some sample tells 'cbc1' from every profile with a pattern: by the first or the second block, by counter mode, or by a second subsample. |
| `DecryptorEffects.TellsPatterns` | packager/media/base/decryptor_source.cc:48-63 | Some sample tells any two patterns, or the same pattern of 'cens' and 'cbcs', apart. |
| `DecryptorCaches.TransparentIff` | packager/media/base/decryptor_source.cc:28-82 | The cache never shows, whatever the ciphers, IVs of the given sizes, subsamples and samples, exactly if each call with a valid IV size has a supported scheme and the same effect as every earlier call of its key id that could be built. |
| `DecryptorCaches.FreshCall` | packager/media/base/decryptor_source.cc:31-82 | A call on an empty cache decrypts exactly if there is a key of 16, 24 or 32 bytes, one of the four schemes and an IV of 8 or 16 bytes; else it returns false and leaves the sample alone. |
| `DecryptorCaches.CompatibleIsTransparent` | packager/media/base/decryptor_source.cc:28-82 | On compatible calls each status and output are those of a source with an empty cache. |
| `DecryptorCaches.TransparentIsCompatible` | packager/media/base/decryptor_source.cc:28-82 | If the cache never shows, any two calls of one key id are compatible. |
| `DecryptorCaches.LaterCallsAlike` | packager/media/base/decryptor_source.cc:76-82 | If the cache never shows, a later call decrypts every sample as the first profile cached for its key id does. |
| `DecryptorCaches.CacheIsTransparent` | packager/media/base/decryptor_source.cc:28-82 | In particular in every run in which each key id keeps one scheme and pattern. |
| `DecryptorCaches.CacheIgnoresProfile` | packager/media/base/decryptor_source.cc:30-31 | A 'cbc1' sample after a 'cenc' sample of the same key id comes out decrypted as 'cenc'. |
| `DecryptorCaches.RunAgrees` | packager/media/base/decryptor_source.cc:28-82 | The same from any cache that agrees with the calls to come. |
| `DecryptorCaches.AgreeingCall` | packager/media/base/decryptor_source.cc:28-82 | A call on an agreeing cache gives the fresh result. |
| `DecryptorSources.MakeDecryptor` | packager/media/base/decryptor_source.cc:40-73 | Builds a decryptor exactly if the scheme is known and the key and IV sizes are valid. |
| `DecryptorSources.DecryptInPlace` | packager/media/base/decryptor_source.cc:84-110 | Decrypts the whole sample or its subsamples. |
| `DecryptorSources.DecryptSubsamplesInPlace` | packager/media/base/decryptor_source.cc:93-110 | The loop refines the subsample function, including what it leaves behind when a subsample does not fit. |
| `DecryptorSources.DecryptCached` | packager/media/base/decryptor_source.cc:79-110 | A cached decryptor's result depends on the entry, the config and the buffer alone. |
| `DecryptorSources.DecryptorSource.constructor` | packager/media/base/decryptor_source.cc:16-19 | Starts with an empty cache. |
| `DecryptorSources.DecryptorSource.DecryptSampleBuffer` | packager/media/base/decryptor_source.cc:22-111 | The cache, the status and the buffer are those of the value-level model. |
| `DecryptorSources.DecryptorSource.Add` | packager/media/base/decryptor_source.cc:74-75 | Takes ownership of a new decryptor. |
| `DecryptorSources.DecryptorSource.Use` | packager/media/base/decryptor_source.cc:76-110 | Decrypts with the cached decryptor whatever the config's scheme. |
| `ProducerConsumerQueues.ProducerConsumerQueue.constructor` | packager/media/base/producer_consumer_queue.h:147-155 | An empty queue at the starting position. |
| `ProducerConsumerQueues.ProducerConsumerQueue.Push` | packager/media/base/producer_consumer_queue.h:161-207 | One stretch under the lock: the state, the ending and the signals. |
| `ProducerConsumerQueues.ProducerConsumerQueue.Pop` | packager/media/base/producer_consumer_queue.h:210-249 | One stretch under the lock. |
| `ProducerConsumerQueues.ProducerConsumerQueue.Peek` | packager/media/base/producer_consumer_queue.h:252-299 | One stretch under the lock; the position is compared with the head on entry only. |
| `ProducerConsumerQueues.ProducerConsumerQueue.SlideHeadOnCenter` | packager/media/base/producer_consumer_queue.h:302-315 | Drops exactly the elements more than capacity / 2 before pos, and signals if that makes room in a full queue. |
| `ProducerConsumerQueues.ProducerConsumerQueue.Stop` | packager/media/base/producer_consumer_queue.h:79-85 | Marks the queue stopped and broadcasts all three condition variables. |
| `ProducerConsumerQueues.BlockedPeekMadeRoom` | packager/media/base/producer_consumer_queue.h:268-291 | A Peek about to block leaves at most capacity / 2 elements. |
| `QueueEndings.PopEnds` | packager/media/base/producer_consumer_queue.h:217-248 | From the history: a Pop yields the element at the head whenever one is left, stopped or not; it returns STOPPED exactly if none is left and the queue is stopped; and which condition variables it signals. |
| `QueueEndings.PushEnds` | packager/media/base/producer_consumer_queue.h:165-206 | From the history: a Push returns STOPPED exactly if stopped, blocks exactly if as many elements are left as the capacity, else pushes; and its signals. |
| `QueueEndings.PeekEnds` | packager/media/base/producer_consumer_queue.h:256-298 | From the history: which of its endings a Peek has, the element it yields, where it leaves the head, and its signals. |
| `QueueEndings.EveryPop` | packager/media/base/producer_consumer_queue.h:210-249 | In every run: what each Pop takes and whether its thread then waits. |
| `QueueEndings.EveryPush` | packager/media/base/producer_consumer_queue.h:161-207 | In every run: when each Push adds its element and whether its thread then waits. |
| `QueueEndings.EveryPeek` | packager/media/base/producer_consumer_queue.h:252-299 | In every run: when the thread of a Peek waits. |
| `QueueEndings.StoppedQueueDrains` | packager/media/base/producer_consumer_queue.h:76-78 | In every run, once stopped, as many Pops as elements are left return them in order and the next returns STOPPED. |
| `QueueRuns.EveryRunKeepsInv` | packager/media/base/producer_consumer_queue.h:161-315 | In every state of every interleaving of Push, Pop, Peek, Stop, timeouts and spurious wake-ups: contents are the pushed history from the head on, within capacity; pops are in push order; no wake-up is lost. |
| `QueueRuns.StepInv` | packager/media/base/producer_consumer_queue.h:161-315 | Every step keeps that invariant. |
| `QueueRuns.PoppersKept` | packager/media/base/producer_consumer_queue.h:196-247 | If a popper waits and the queue is not empty, some woken popper is pending after every step. |
| `QueueRuns.PushersKept` | packager/media/base/producer_consumer_queue.h:203-315 | If a pusher waits and there is room, some woken pusher is pending after every step. |
| `QueueRuns.NoStandoff` | packager/media/base/producer_consumer_queue.h:172-249 | Poppers and pushers are never all asleep together. |
| `QueueRuns.HistoryGrows` | packager/media/base/producer_consumer_queue.h:241-243 | Head plus size is start plus successful pushes; positions and history only grow; nothing is pushed after Stop. |
| `QueueRuns.StoppedForGood` | packager/media/base/producer_consumer_queue.h:76-85 | Once stopped, the queue stays stopped, takes no element and has no waiting thread in any later state. |
| `QueueRuns.LonePeekerNotStuck` | packager/media/base/producer_consumer_queue.h:196-201 | In every run in which never more than one thread waits in Peek, none waits for an element that is there. |
| `QueueRuns.ResumedPeek` | packager/media/base/producer_consumer_queue.h:255-293 | A Peek returns the element at its position; it reads outside the queue exactly if it was woken and the head has passed its position. |
| `QueueRuns.PeekCanMissItsElement` | packager/media/base/producer_consumer_queue.h:271-293 | A concrete run in which that happens. |
| `MediaPlaylists.MediaPlaylist.constructor` | packager/hls/base/media_playlist.cc:125-132 | A player sees nothing. |
| `MediaPlaylists.MediaPlaylist.AddSegment` | packager/hls/base/media_playlist.cc:168-189 | A player sees one more segment, under the key last announced. |
| `MediaPlaylists.MediaPlaylist.AddEncryptionInfo` | packager/hls/base/media_playlist.cc:248-261 | A player sees the same segments, and the new key for what follows. |
| `MediaPlaylists.MediaPlaylist.RemoveOldestSegment` | packager/hls/base/media_playlist.cc:201-246 | A player sees exactly the oldest segment gone, every other under the same key; the assumption of line 243 is asserted. |
| `MediaPlaylists.RemoveSeen` | packager/hls/base/media_playlist.cc:201-246 | Every branch of the removal keeps the keys in force and keeps adjacent keys to positions 0 and 1, so that a segment does follow two leading keys. |
| `MediaPlaylists.AddKeySeen` | packager/hls/base/media_playlist.cc:253-260 | Replacing a trailing key changes the key in force and nothing else. |
| `MediaPlaylists.KeyInForce` | packager/hls/base/media_playlist.cc:212-214 | A segment is read under the last key entry before it. |
| `MediaPlaylists.NoKeyInForce` | packager/hls/base/media_playlist.cc:212-214 | And under none if there is no key entry before it. |
| `MediaPlaylists.RemovedExactly` | packager/hls/base/media_playlist.cc:201-246 | The list that is left: of the keys in front of the first segment the last, and everything after that segment. |
| `MediaPlaylists.RunSeen` | packager/hls/base/media_playlist.cc:168-261 | The same over every run from any list. |
| `MediaPlaylists.KeysStayInForce` | packager/hls/base/media_playlist.cc:168-261 | Over every run of the three calls the remaining segments are a suffix of those added, one less per removal that found one, each under the key in force when it was added. |
| `SegmentTemplates.ValidateSegmentTemplate` | packager/media/base/muxer_util.cc:39-100 | Accepts exactly the templates with paired '$', known identifiers with valid tags, and one of $Number$ and $Time$. |
| `SegmentTemplates.TemplateExactly` | packager/media/base/muxer_util.cc:39-100 | What a valid template is, written out with its literal names, tags and the rule on $Number$ and $Time$. |
| `SegmentTemplates.AcceptableExactly` | packager/media/base/muxer_util.cc:57-86 | The identifiers accepted are "" and Number, Time, Bandwidth, alone or followed by %0[width]d. |
| `SegmentTemplates.ValidateIdentifier` | packager/media/base/muxer_util.cc:58-86 | Accepts exactly "" and the three identifiers with or without a valid tag, and tells which field is named. |
| `SegmentTemplates.GetSegmentName` | packager/media/base/muxer_util.cc:102-155 | The name is one text per part: literals copied, "$" for "$$", and for an identifier the digits of index + 1 modulo 2^32, the time or the bandwidth, with zeros in front only as far as the width asks; an unknown identifier is never met. |
| `SegmentTemplates.RenderIdentifier` | packager/media/base/muxer_util.cc:121-152 | The text of one identifier, as above. |
| `SegmentTemplates.NamesAreInjective` | packager/media/base/muxer_util.cc:102-155 | For every accepted template and fixed bandwidth, names are equal exactly if the index ($Number$) or the start time ($Time$) is, whatever literals, repeats, escapes and widths occur. |
| `SegmentTemplates.RenderInjective` | packager/media/base/muxer_util.cc:113-154 | The same for any list of pieces that uses the field. |
| `SegmentTemplates.UsesIffNamed` | packager/media/base/muxer_util.cc:73-76 | A template's pieces use a field exactly when an identifier names it. |
| `SegmentTemplates.PaddedValue` | packager/media/base/muxer_util.cc:131-151 | A zero-padded number can be read back whatever the width. |
| `SegmentTemplates.DigitAt` | packager/media/base/muxer_util.cc:142-152 | The most significant digit of a number comes first. |
| `SegmentTemplates.SplitJoin` | packager/media/base/muxer_util.cc:43-44 | Splitting at '$' loses nothing and leaves no '$' behind. |
| `BitReaders.BitReader.constructor` | packager/media/base/bit_reader.cc:12-20 | The cursor stands at bit 0. |
| `BitReaders.BitReader.ReadBits` | packager/media/base/bit_reader.cc:69-87 | Returns the big-endian value of the next n bits and advances by n, or fails at the end with the value of what was left. |
| `BitReaders.BitReader.TakeBits` | packager/media/base/bit_reader.cc:74-83 | One turn of the loop appends the next bits of the current byte. |
| `BitReaders.BitReader.SkipBits` | packager/media/base/bit_reader.cc:24-52 | Moves the cursor as a read of n bits would, for every n. |
| `BitReaders.BitReader.SkipBitsConditional` | packager/media/base/bit_reader.h:69-74 | Reads one bit, most significant first, and skips exactly if it is equal to the condition; fails exactly at the end or if there are not so many bits. |
| `BitReaders.BitReader.SkipBytes` | packager/media/base/bit_reader.cc:54-67 | Succeeds exactly on a byte boundary before the end with enough bytes, and then moves like SkipBits(8n); failing, it moves nothing, and leaves the reader unusable exactly if bytes were wanting and one was still to be loaded. |
| `BitReaders.BitReader.UpdateCurrByte` | packager/media/base/bit_reader.cc:89-99 | Loads the next byte without moving the cursor. |
| `BitReaders.FailureSticks` | packager/media/base/bit_reader.h:54-57 | Over every run of the four operations, once a ReadBits, SkipBits or SkipBitsConditional fails, every later operation fails, SkipBytes(0) included, but reads and skips of no bits. |
| `BitReaders.BitsInByte` | packager/media/base/bit_reader.cc:77-81 | Shifting and masking one byte yields the value of its bits. |
| `BitReaders.BitsAppend` | packager/media/base/bit_reader.cc:77-78 | Shifting the value so far and adding the next bits is the value of all of them. |
| `BufferCodec.ReadBack` | packager/media/base/buffer_writer.cc:25-64 | Any sequence of appended numbers (1 to 8 bytes, signed or not) and vectors is read back value for value by the matching reads, which end where the appends ended. |
| `BufferCodec.WriteBack` | packager/media/base/buffer_reader.cc:14-99 | Whatever a sequence of reads accepts is what appending the values read would write. |
| `BufferCodec.EnoughBytes` | packager/media/base/buffer_reader.cc:47-82 | All reads succeed exactly if there are bytes for all of them. |
| `BufferCodec.NumberReadBack` | packager/media/base/buffer_reader.cc:84-97 | n bytes read back give the value written exactly if it fits in n bytes of that signedness, negative values included. |
| `BufferCodec.NumberWriteBack` | packager/media/base/buffer_reader.cc:84-97 | Writing a number back reproduces its bytes. |
| `BufferCodec.TwosComplement` | packager/media/base/buffer_reader.cc:84-97 | The bytes of v stand for v modulo 256^n; read signed, for the same residue between -256^n / 2 and 256^n / 2. |
| `BufferCodec.LastBytesOf64` | packager/media/base/buffer_writer.cc:47-52 | The last n bytes of a 64-bit number are its n-byte encoding. |
| `BufferWriters.BufferWriter.AppendInt` | packager/media/base/buffer_writer.cc:25-45 | Appends the two's complement bytes in network byte order. |
| `BufferWriters.BufferWriter.AppendNBytes` | packager/media/base/buffer_writer.cc:47-52 | Appends the n-byte encoding of every value with these low 64 bits. |
| `BufferWriters.BufferWriter.AppendVector` | packager/media/base/buffer_writer.cc:54-56 | Appends the bytes. |
| `BufferReaders.BufferReader.ReadNBytes` | packager/media/base/buffer_reader.cc:77-99 | The shifting loop, with or without sign extension, in a machine integer that wraps, yields the signed or unsigned value; too few bytes fail and move nothing; a count of zero takes one byte. |
| `BufferReaders.AccumulateNext` | packager/media/base/buffer_reader.cc:91-96 | One turn of that loop, in every combination of width, signedness and byte count. |
| `BufferReaders.BufferReader.Read1` | packager/media/base/buffer_reader.cc:14-20 | Reads one byte. |
| `BufferReaders.BufferReader.Read4` | packager/media/base/buffer_reader.cc:28-30 | Reads an unsigned 32-bit number. |
| `BufferReaders.BufferReader.ReadToVector` | packager/media/base/buffer_reader.cc:47-54 | Reads that many bytes or fails and moves nothing. |
| `BufferReaders.BufferReader.SkipBytes` | packager/media/base/buffer_reader.cc:65-70 | Skips that many bytes or fails and moves nothing. |
| `PsshBoxes.ParseExact` | packager/media/base/protection_system_specific_info.cc:44-81 | Parsing accepts exactly the layouts of version 0 without key ids or version 1, with a 16-byte system id and key ids, 24-bit flags and less than 2^32 bytes, and finds the only fields they can have. |
| `PsshBoxes.HeaderFields` | packager/media/base/protection_system_specific_info.cc:51-59 | Byte by byte: size, 'pssh', version, flags, system id. |
| `PsshBoxes.BodyFields` | packager/media/base/protection_system_specific_info.cc:61-80 | Then in version 1 the number of key ids and the key ids; then the size of the data and the data to the end. |
| `PsshBoxes.KeyField` | packager/media/base/protection_system_specific_info.cc:66-68 | Where each key id stands. |
| `PsshBoxes.TwoBoxes` | packager/media/base/protection_system_specific_info.cc:31-39 | Boxes are found in the order in which they stand. |
| `PsshBoxes.ParseAllExact` | packager/media/base/protection_system_specific_info.cc:25-42 | Parsing several boxes accepts exactly the concatenations of well-formed boxes, and finds the only list they can be. |
| `PsshBoxes.CreateParse` | packager/media/base/protection_system_specific_info.cc:83-116 | A created box parses back to its fields exactly if the version has room for the key ids and the whole is below 2^32 bytes. |
| `PsshBoxes.CreateParseAll` | packager/media/base/protection_system_specific_info.cc:25-42 | Created boxes that follow one another parse back to their list exactly if that condition holds of each. |
| `PsshBoxes.ParseCreate` | packager/media/base/protection_system_specific_info.cc:83-116 | A parsed box is created again byte for byte exactly if its flags were zero. |
| `PsshBoxes.CreatedIsBox` | packager/media/base/protection_system_specific_info.cc:86-112 | Where nothing is truncated, CreateBox writes the layout with zero flags. |
| `ProtectionSystems.ProtectionSystemSpecificInfo.Parse` | packager/media/base/protection_system_specific_info.cc:44-81 | Succeeds exactly on what the parsing function accepts; a version 0 box leaves old key ids in the object. |
| `ProtectionSystems.ProtectionSystemSpecificInfo.ReadKeys` | packager/media/base/protection_system_specific_info.cc:61-69 | The key id loop. |
| `ProtectionSystems.ProtectionSystemSpecificInfo.ReadData` | packager/media/base/protection_system_specific_info.cc:72-80 | The data must fill the box. |
| `ProtectionSystems.ProtectionSystemSpecificInfo.CreateBox` | packager/media/base/protection_system_specific_info.cc:83-116 | Writes the box in 32-bit arithmetic. |
| `ProtectionSystems.ParseNext` | packager/media/base/protection_system_specific_info.cc:32-38 | One box, sizes below 4 wrapping around in the skip. |
| `ProtectionSystems.ParseBoxes` | packager/media/base/protection_system_specific_info.cc:25-42 | Terminates on all input and agrees with the parsing function. |
| `ByteQueues.ByteQueue.constructor` | packager/media/base/byte_queue.cc:15-20 | An empty queue. |
| `ByteQueues.ByteQueue.Push` | packager/media/base/byte_queue.cc:29-61 | Whether it grows, compacts or just appends, the contents are the old ones and the data. |
| `ByteQueues.ByteQueue.Grow` | packager/media/base/byte_queue.cc:36-52 | Doubling ends, without overflow, in a buffer that is big enough and holds the same contents. |
| `ByteQueues.LargerSize` | packager/media/base/byte_queue.cc:37-42 | The size is doubled, and doubled again only as long as it is not enough; 64-bit overflow does not occur. |
| `ByteQueues.ByteQueue.Append` | packager/media/base/byte_queue.cc:59-60 | Appends in place. |
| `ByteQueues.ByteQueue.Peek` | packager/media/base/byte_queue.cc:63-68 | A view of exactly the contents. |
| `ByteQueues.ByteQueue.Pop` | packager/media/base/byte_queue.cc:70-81 | Drops the oldest bytes; reaching the end of the buffer means the queue is empty. |
| `ByteQueues.ByteQueue.Reset` | packager/media/base/byte_queue.cc:24-27 | Empties the queue. |
| `OffsetByteQueues.OffsetByteQueue.PeekAt` | packager/media/base/offset_byte_queue.cc:41-49 | For head <= o < tail exactly the bytes from o on of everything ever pushed, else nothing; the cached view is always that of the inner queue. |
| `OffsetByteQueues.OffsetByteQueue.Push` | packager/media/base/offset_byte_queue.cc:24-28 | Extends what was pushed and keeps the view in step across growth and compaction. |
| `OffsetByteQueues.OffsetByteQueue.Pop` | packager/media/base/offset_byte_queue.cc:35-39 | Moves the head and keeps the view in step. |
| `OffsetByteQueues.OffsetByteQueue.Peek` | packager/media/base/offset_byte_queue.cc:30-33 | The bytes from the head on. |
| `OffsetByteQueues.OffsetByteQueue.Trim` | packager/media/base/offset_byte_queue.cc:51-59 | Drops what lies before the offset; false exactly if it is beyond the tail, and then everything is dropped. |
| `OffsetByteQueues.OffsetByteQueue.Sync` | packager/media/base/offset_byte_queue.cc:61-63 | Makes the view that of the inner queue. |
| `OffsetByteQueues.OffsetByteQueue.Reset` | packager/media/base/offset_byte_queue.cc:17-22 | Starts again at offset 0. |
| `OffsetByteQueues.OffsetByteQueue.constructor` | packager/media/base/offset_byte_queue.cc:14 | Nothing pushed, head at 0. |
| `MediaGraphs.EveryGraphRouted` | packager/media/base/media_handler.cc:12-24 | After every sequence of SetHandler calls no two outputs feed one input, and the inputs assigned at each handler are exactly 0 to one less than its number of inputs. |
| `MediaGraphs.ConnectRouted` | packager/media/base/media_handler.cc:20-21 | A single connection keeps that. |
| `MediaGraphs.StreamsStayApart` | packager/media/base/media_handler.cc:41-50 | On every such acyclic graph two streams of one handler never end at the same input of the same handler. |
| `MediaGraphs.MeetingPaths` | packager/media/base/media_handler.cc:41-50 | Streams that end together are one the continuation of the other. |
| `MediaGraphs.RankOf` | packager/media/base/media_handler.h:84-86 | Every acyclic graph, in which among any handlers one feeds none of them, can be numbered so that each handler comes after all it feeds. |
| `MediaGraphs.RankedIsAcyclic` | packager/media/base/media_handler.h:84-86 | Conversely a graph that can be so numbered is acyclic. |
| `MediaGraphs.OrderlyOf` | packager/media/base/media_handler.cc:26-39 | Every graph without cycles among the handlers not initialized can be so numbered. |
| `MediaGraphs.OrderlyIsAcyclic` | packager/media/base/media_handler.cc:26-39 | And only such graphs. |
| `MediaGraphs.AcyclicEnds` | packager/media/base/media_handler.cc:41-50 | On an acyclic graph every flush ends, where following the stream ends. |
| `MediaGraphs.InitializedExactly` | packager/media/base/media_handler.cc:26-39 | A successful Initialize has called InitializeInternal exactly once on each handler it reaches through handlers not initialized, has initialized it, and has done nothing to any other, whatever was initialized before. |
| `MediaGraphs.InitializedOnce` | packager/media/base/media_handler.cc:26-39 | On an acyclic graph where nothing was called, it has called InitializeInternal exactly once on each reachable handler and on no other. |
| `MediaGraphs.SuccessMeansAllWork` | packager/media/base/media_handler.cc:29-36 | It succeeds only if every handler it has to initialize works. |
| `MediaHandlers.MediaHandler.constructor` | packager/media/base/media_handler.h:70-73 | A fresh handler. |
| `MediaHandlers.MediaHandler.SetHandler` | packager/media/base/media_handler.cc:12-24 | The status of each case; the output entry, the input count and the new routing of the whole graph. |
| `MediaHandlers.MediaHandler.AddHandler` | packager/media/base/media_handler.h:79-82 | Connects the next index, with the statuses of SetHandler. |
| `MediaHandlers.MediaHandler.Initialize` | packager/media/base/media_handler.cc:26-39 | Terminates unless handlers not initialized form a cycle; on OK every handler reached is initialized by one working call; otherwise one of them does not work and none was called twice; the children of what it initialized are initialized. |
| `MediaHandlers.MediaHandler.InitializeOutputs` | packager/media/base/media_handler.cc:32-36 | The loop over the outputs, in order of their indices. |
| `MediaHandlers.MediaHandler.FlushStream` | packager/media/base/media_handler.cc:41-50 | The status is that of the handler where the stream ends, NOT_FOUND if nothing there takes it, on every graph and stream that ends. |
| `MediaHandlers.MediaHandler.Dispatch` | packager/media/base/media_handler.cc:56-65 | Data goes to Process of the connected handler under its own input index, whose status is returned, or nowhere with NOT_FOUND. |

## Left out

- AES itself, its key schedule and `RAND_bytes` (`GenerateRandomIv`): the block cipher is abstract.
- Files, HTTP, key servers, and the fetching of keys: the key source is a function that does not change during a run.
- The string overload of `Crypt`: the same as the vector overload on another type.
- Pointer and `size_t` wrap-around in `BufferReader::HasBytes`, in buffer positions, in queue positions and in the
  subsample overflow test: these are unbounded integers here. The `size_t` byte count of a sample, 32-bit box sizes and
  buffer growth are modelled with their wrap-around.
- ProducerConsumerQueues.ProducerConsumerQueue.Peek: the out-of-range read has no further effect in the model.
- Wake-up guarantees for several peekers waiting at different positions: the code signals one of them only.
- The order in which threads get the lock, fairness, and the clock: any enabled step may come next.
- Playlist durations, bitrates, target duration and text rendering: floating point and formatting.
- Playlists with several key formats in force at once, which the code does not support either.
- SegmentTemplates.GetSegmentName: `StringPrintf` as zero-padding to any width, without limits of the C library.
- MediaHandlers.MediaHandler.Initialize: not on a cycle of handlers that are not initialized, on which the recursion has no
  end unless a handler fails first.
- MediaHandlers.MediaHandler.FlushStream: not on a stream that runs in a circle, on which the recursion has no end.
- What `Process` of concrete handlers does and dispatches; its status is a function of the stream index.
- BufferReaders.BufferReader.ReadNBytes: not a count of zero at the end of the buffer, where the code reads outside it.
- ByteQueues.ByteQueue.Push: data of the caller's own, not a view into the queue, and fewer than 2^31 bytes in all, as the
  `int` sizes of the interface demand.
- The CHECKs and DCHECKs on arguments of constructors and setters are preconditions.
- `container_names.cc`, `Demuxer`, `Muxer`, `MediaStream`, `AudioTimestampHelper`, master playlists: shallow or library-bound.
