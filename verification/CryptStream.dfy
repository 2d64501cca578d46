/** What one Crypt call of each leaf cryptor computes, as a function of the text and of where the
    stream stands, and what a run of calls computes. */
module CryptStream {
  import opened Bytes
  import opened Cbc
  import opened Ctr

  datatype Padding = NoPadding | Pkcs5Padding | CtsPadding

  /** Which override of CryptInternal a cryptor runs. */
  datatype Kind =
    | CtrKind
    | CbcEncryptor(padding: Padding)
    | CbcDecryptor(padding: Padding)

  /** Where a cryptor stands: a position in the key stream, or a chaining value. */
  datatype Stream =
    | AtCounter(start: Block, pos: nat)
    | Chain(iv: Block)

  ghost predicate Fits(k: Kind, st: Stream) {
    k.CtrKind? <==> st.AtCounter?
  }

  /** The stream right after SetIv. */
  function Begin(k: Kind, iv: seq<byte>): (st: Stream)
    requires |iv| == 8 || |iv| == 16
    ensures Fits(k, st)
  {
    if k.CtrKind? then AtCounter(PadBlock(iv), 0) else Chain(PadBlock(iv))
  }

  datatype Outcome = Outcome(ok: bool, out: seq<byte>, next: Stream)

  /** One Crypt call with room enough in the output buffer. */
  function Step(c: Cipher, k: Kind, st: Stream, text: seq<byte>): (o: Outcome)
    requires Fits(k, st)
    ensures Fits(k, o.next)
  {
    match k
    case CtrKind =>
      Outcome(true, CtrCrypt(c, st.start, st.pos, text), st.(pos := st.pos + |text|))
    case CbcEncryptor(padding) => EncryptStep(c, padding, st.iv, text)
    case CbcDecryptor(padding) => DecryptStep(c, padding, st.iv, text)
  }

  function WholePart(text: seq<byte>): (s: seq<byte>)
    ensures Whole(s) && s <= text && |text| - |s| < 16
  {
    text[..|text| - |text| % 16]
  }

  function Residue(text: seq<byte>): (s: seq<byte>)
    ensures |s| == |text| % 16
  {
    text[|text| - |text| % 16..]
  }

  function EncryptStep(c: Cipher, padding: Padding, iv: Block, text: seq<byte>): (o: Outcome)
    ensures o.ok && o.next.Chain?
  {
    var m := |text| - |text| % 16;
    match padding
    case NoPadding =>
      var q := CbcEncrypt(c, iv, WholePart(text));
      Outcome(true, q + Residue(text), Chain(LastBlock(iv, q)))
    case Pkcs5Padding =>
      var q := CbcEncrypt(c, iv, Pkcs5Pad(text));
      Outcome(true, q, Chain(LastBlock(iv, q)))
    case CtsPadding =>
      var q := CtsEncrypt(c, iv, text);
      Outcome(true, q, Chain(if m == 0 then iv else if m == |text| then LastBlock(iv, q) else q[m - 16..m]))
  }

  function DecryptStep(c: Cipher, padding: Padding, iv: Block, text: seq<byte>): (o: Outcome)
    ensures o.next.Chain?
    ensures !padding.Pkcs5Padding? ==> o.ok
  {
    var m := |text| - |text| % 16;
    match padding
    case NoPadding =>
      Outcome(true, CbcDecrypt(c, iv, WholePart(text)) + Residue(text), Chain(LastBlock(iv, WholePart(text))))
    case Pkcs5Padding =>
      if |text| == 0 || m != |text| then Outcome(false, [], Chain(iv))
      else
        var r := CbcDecrypt(c, iv, text);
        var next := Chain(LastBlock(iv, text));
        if r[|r| - 1] > 16 then Outcome(false, [], next) else Outcome(true, Pkcs5Strip(r), next)
    case CtsPadding =>
      Outcome(true, CtsDecrypt(c, iv, text),
              Chain(if m == 0 then iv else if m == |text| then LastBlock(iv, text) else StolenBlock(c, text)))
  }

  lemma TextParts(text: seq<byte>)
    ensures text == WholePart(text) + Residue(text)
  {
  }

  // ---------------------------------------------------------------- what a call does to each block

  /** Right after SetIv, each byte in counter mode is masked by a byte of an encrypted block that has the IV's high
      half and, in its low half, the IV's number plus the number of blocks before. */
  lemma CounterCall(c: Cipher, iv: seq<byte>, text: seq<byte>, k: nat, ctr: Block)
    requires (|iv| == 8 || |iv| == 16) && k < |text|
    requires ctr[..8] == PadBlock(iv)[..8] && FromBE(ctr[8..]) == (FromBE(PadBlock(iv)[8..]) + k / 16) % TWO_64
    ensures Step(c, CtrKind, Begin(CtrKind, iv), text).out[k] == XorByte(text[k], c.enc(ctr)[k % 16])
  {
    hide FromBE, CtrCrypt;
    CtrByte(c, PadBlock(iv), text, k, ctr);
  }

  /** Right after SetIv, each block is encrypted together with the ciphertext block before it, the first one with
      the IV, and what is left of the text after the whole blocks is copied. */
  lemma ChainedEncryption(c: Cipher, iv: seq<byte>, text: seq<byte>, m: nat)
    requires (|iv| == 8 || |iv| == 16) && m % 16 == 0 && m <= |text|
    ensures var k := CbcEncryptor(NoPadding);
            var q := Step(c, k, Begin(k, iv), text).out;
            && |q| == |text|
            && (if m + 16 > |text| then q[m..] == text[m..]
                else q[m..m + 16] == c.enc(Xor(text[m..m + 16], if m == 0 then PadBlock(iv) else q[m - 16..m])))
  {
    hide CbcEncrypt, Xor;
    var w, rest := WholePart(text), Residue(text);
    TextParts(text);
    var q := CbcEncrypt(c, PadBlock(iv), w);
    if m + 16 > |text| {
      EndSlice(q, rest, w, m);
    } else {
      CbcEncryptBlock(c, PadBlock(iv), w, m);
      FrontSlice(w, rest, m, m + 16);
      FrontSlice(q, rest, m, m + 16);
      if m > 0 {
        FrontSlice(q, rest, m - 16, m);
      }
    }
  }

  lemma FrontSlice(x: seq<byte>, y: seq<byte>, a: nat, b: nat)
    requires a <= b <= |x|
    ensures (x + y)[a..b] == x[a..b]
  {
  }

  lemma EndSlice(x: seq<byte>, y: seq<byte>, z: seq<byte>, m: nat)
    requires |x| == |z| == m
    ensures (x + y)[m..] == y == (z + y)[m..]
  {
  }

  /** The same for decryption: each decrypted block is masked by the ciphertext block before it, the first one by
      the IV. */
  lemma ChainedDecryption(c: Cipher, iv: seq<byte>, text: seq<byte>, m: nat)
    requires (|iv| == 8 || |iv| == 16) && m % 16 == 0 && m <= |text|
    ensures var k := CbcDecryptor(NoPadding);
            var p := Step(c, k, Begin(k, iv), text).out;
            && |p| == |text|
            && (if m + 16 > |text| then p[m..] == text[m..]
                else p[m..m + 16] == Xor(c.dec(text[m..m + 16]), if m == 0 then PadBlock(iv) else text[m - 16..m]))
  {
    hide CbcDecrypt, Xor;
    var w, rest := WholePart(text), Residue(text);
    TextParts(text);
    var p := CbcDecrypt(c, PadBlock(iv), w);
    if m + 16 > |text| {
      EndSlice(p, rest, w, m);
    } else {
      CbcDecryptBlock(c, PadBlock(iv), w, m);
      FrontSlice(w, rest, m, m + 16);
      FrontSlice(p, rest, m, m + 16);
      if m > 0 {
        FrontSlice(w, rest, m - 16, m);
      }
    }
  }

  /** With padding too, the first block is encrypted with the IV, unless its end is stolen. */
  lemma FirstBlockEncrypted(c: Cipher, padding: Padding, iv: seq<byte>, text: seq<byte>)
    requires (|iv| == 8 || |iv| == 16) && |text| >= 16
    requires padding == CtsPadding ==> |text| % 16 == 0 || |text| >= 32
    ensures var k := CbcEncryptor(padding);
            var q := Step(c, k, Begin(k, iv), text).out;
            |q| >= 16 && q[..16] == c.enc(Xor(text[..16], PadBlock(iv)))
  {
    hide Xor, CbcEncrypt;
    match padding
    case NoPadding =>
      ChainedEncryption(c, iv, text, 0);
    case Pkcs5Padding =>
      FirstEncrypted(c, PadBlock(iv), Pkcs5Pad(text));
      assert Pkcs5Pad(text)[..16] == text[..16];
    case CtsPadding =>
      FirstStolen(c, PadBlock(iv), text);
  }

  lemma FirstStolen(c: Cipher, iv: Block, text: seq<byte>)
    requires |text| >= 16 && (|text| % 16 == 0 || |text| >= 32)
    ensures CtsEncrypt(c, iv, text)[..16] == c.enc(Xor(text[..16], iv))
  {
    hide Xor, CbcEncrypt;
    var r := |text| % 16;
    if r == 0 {
      FirstEncrypted(c, iv, text);
    } else {
      var padded := text + Zeros(16 - r);
      FirstEncrypted(c, iv, padded);
      FrontSlice(text, Zeros(16 - r), 0, 16);
      var full := CbcEncrypt(c, iv, padded);
      var x := full[..|text| - r - 16];
      assert x[..16] == full[..16];
    }
  }

  // ---------------------------------------------------------------- decryption undoes encryption

  /** The cryptor that reads what a cryptor of kind k writes. */
  function Inverse(k: Kind): (d: Kind)
    requires !k.CbcDecryptor?
  {
    match k
    case CtrKind => CtrKind
    case CbcEncryptor(padding) => CbcDecryptor(padding)
  }

  /** For every mode, padding scheme, IV and text, decrypting with the inverse cryptor from the same
      stream position succeeds and gives the text back. */
  lemma StepInverse(c: Cipher, k: Kind, st: Stream, text: seq<byte>)
    requires c.Valid() && Fits(k, st) && !k.CbcDecryptor?
    ensures var e := Step(c, k, st, text);
            var d := Step(c, Inverse(k), st, e.out);
            e.ok && d.ok && d.out == text
    ensures var e := Step(c, k, st, text);
            k == CtrKind || k == CbcEncryptor(NoPadding) ==> Step(c, Inverse(k), st, e.out).next == e.next
  {
    match k
    case CtrKind =>
      CtrInvolution(c, st.start, st.pos, text);
    case CbcEncryptor(NoPadding) =>
      EncryptInverse(c, st.iv, text);
    case CbcEncryptor(Pkcs5Padding) =>
      Pkcs5RoundTrip(c, st.iv, text);
    case CbcEncryptor(CtsPadding) =>
      CtsRoundTrip(c, st.iv, text);
  }

  lemma EncryptInverse(c: Cipher, iv: Block, text: seq<byte>)
    requires c.Valid()
    ensures var e := EncryptStep(c, NoPadding, iv, text);
            DecryptStep(c, NoPadding, iv, e.out) == Outcome(true, text, e.next)
  {
    hide CbcEncrypt, CbcDecrypt;
    var q := CbcEncrypt(c, iv, WholePart(text));
    CbcRoundTrip(c, iv, WholePart(text));
    assert WholePart(q + Residue(text)) == q && Residue(q + Residue(text)) == Residue(text);
    assert text == WholePart(text) + Residue(text);
  }

  // ---------------------------------------------------------------- runs of chained calls

  /** Cryptors whose stream goes on from call to call. */
  ghost predicate Chained(k: Kind) {
    k.CtrKind? || k.padding.NoPadding?
  }

  lemma StepLength(c: Cipher, k: Kind, st: Stream, text: seq<byte>)
    requires Fits(k, st) && Chained(k)
    ensures var o := Step(c, k, st, text); o.ok && |o.out| == |text|
  {
  }

  lemma StepEmpty(c: Cipher, k: Kind, st: Stream)
    requires Fits(k, st) && Chained(k)
    ensures Step(c, k, st, []) == Outcome(true, [], st)
  {
    hide CbcEncrypt, CbcDecrypt;
    if k.CtrKind? {
      assert CtrCrypt(c, st.start, st.pos, []) == [];
    } else {
      assert WholePart([]) == [] && Residue([]) == [] && LastBlock(st.iv, []) == st.iv;
      assert |CbcEncrypt(c, st.iv, [])| == |CbcDecrypt(c, st.iv, [])| == 0;
    }
  }

  function Flatten(chunks: seq<seq<byte>>): seq<byte> {
    if chunks == [] then [] else chunks[0] + Flatten(chunks[1..])
  }

  function RunOutputs(c: Cipher, k: Kind, st: Stream, chunks: seq<seq<byte>>): (outs: seq<seq<byte>>)
    requires Fits(k, st)
    ensures |outs| == |chunks|
    decreases chunks
  {
    if chunks == [] then []
    else
      var o := Step(c, k, st, chunks[0]);
      [o.out] + RunOutputs(c, k, o.next, chunks[1..])
  }

  /** Splitting a text after a whole number of blocks (anywhere, in counter mode) changes nothing. */
  lemma StepAppend(c: Cipher, k: Kind, st: Stream, a: seq<byte>, b: seq<byte>)
    requires Fits(k, st) && Chained(k) && (k.CtrKind? || Whole(a))
    ensures var o := Step(c, k, st, a);
            var o' := Step(c, k, o.next, b);
            Step(c, k, st, a + b) == Outcome(true, o.out + o'.out, o'.next)
  {
    if k.CtrKind? {
      CtrAppend(c, st.start, st.pos, a, b);
    } else if k.CbcEncryptor? {
      EncryptAppend(c, st.iv, a, b);
    } else {
      DecryptAppend(c, st.iv, a, b);
    }
  }

  lemma EncryptAppend(c: Cipher, iv: Block, a: seq<byte>, b: seq<byte>)
    requires Whole(a)
    ensures var o := EncryptStep(c, NoPadding, iv, a);
            var o' := EncryptStep(c, NoPadding, o.next.iv, b);
            EncryptStep(c, NoPadding, iv, a + b) == Outcome(true, o.out + o'.out, o'.next)
  {
    hide CbcEncrypt;
    WholePrefix(a, b);
    CbcEncryptAppend(c, iv, a, WholePart(b));
    var q := CbcEncrypt(c, iv, a);
    var q' := CbcEncrypt(c, LastBlock(iv, q), WholePart(b));
    LastOfAppend(iv, q, q');
    assert q + [] == q;
    Associative(q, q', Residue(b));
  }

  lemma DecryptAppend(c: Cipher, iv: Block, a: seq<byte>, b: seq<byte>)
    requires Whole(a)
    ensures var o := DecryptStep(c, NoPadding, iv, a);
            var o' := DecryptStep(c, NoPadding, o.next.iv, b);
            DecryptStep(c, NoPadding, iv, a + b) == Outcome(true, o.out + o'.out, o'.next)
  {
    hide CbcDecrypt;
    WholePrefix(a, b);
    CbcDecryptAppend(c, iv, a, WholePart(b));
    var p := CbcDecrypt(c, iv, a);
    var p' := CbcDecrypt(c, LastBlock(iv, a), WholePart(b));
    LastOfAppend(iv, a, WholePart(b));
    assert p + [] == p;
    Associative(p, p', Residue(b));
  }

  lemma LastOfAppend(iv: Block, q: seq<byte>, q': seq<byte>)
    requires Whole(q) && Whole(q')
    ensures LastBlock(iv, q + q') == LastBlock(LastBlock(iv, q), q')
  {
    if q' == [] {
      assert q + q' == q;
    }
  }

  lemma WholePrefix(a: seq<byte>, b: seq<byte>)
    requires Whole(a)
    ensures WholePart(a) == a && Residue(a) == []
    ensures WholePart(a + b) == a + WholePart(b) && Residue(a + b) == Residue(b)
  {
    assert |a + b| % 16 == |b| % 16;
  }

  /** Every chunk but the last must be whole blocks, except in counter mode. */
  ghost predicate GoodSplit(k: Kind, chunks: seq<seq<byte>>) {
    k.CtrKind? || forall i :: 0 <= i < |chunks| - 1 ==> Whole(chunks[i])
  }

  /** Any good split of a text into calls gives the bytes of one call on the whole text. */
  lemma {:induction false} RunIsOneCall(c: Cipher, k: Kind, st: Stream, chunks: seq<seq<byte>>)
    requires Fits(k, st) && Chained(k) && GoodSplit(k, chunks)
    ensures Flatten(RunOutputs(c, k, st, chunks)) == Step(c, k, st, Flatten(chunks)).out
    decreases chunks
  {
    if |chunks| > 0 {
      var o := Step(c, k, st, chunks[0]);
      var rest := chunks[1..];
      RunIsOneCall(c, k, o.next, rest);
      if |chunks| == 1 {
        assert Flatten(rest) == [] && chunks[0] + [] == chunks[0];
        assert RunOutputs(c, k, o.next, rest) == [];
        assert o.out + [] == o.out;
      } else {
        StepAppend(c, k, st, chunks[0], Flatten(rest));
      }
      assert RunOutputs(c, k, st, chunks)[1..] == RunOutputs(c, k, o.next, rest);
    }
  }

  /** Any sequence of calls, of any lengths, is undone by decrypting with the same split. */
  lemma {:induction false} RunInverse(c: Cipher, k: Kind, st: Stream, chunks: seq<seq<byte>>)
    requires c.Valid() && Fits(k, st) && (k == CtrKind || k == CbcEncryptor(NoPadding))
    ensures RunOutputs(c, Inverse(k), st, RunOutputs(c, k, st, chunks)) == chunks
    decreases chunks
  {
    if |chunks| > 0 {
      var o := Step(c, k, st, chunks[0]);
      StepInverse(c, k, st, chunks[0]);
      RunInverse(c, k, o.next, chunks[1..]);
      var outs := RunOutputs(c, k, st, chunks);
      assert outs[0] == o.out && outs[1..] == RunOutputs(c, k, o.next, chunks[1..]);
      assert chunks == [chunks[0]] + chunks[1..];
    }
  }
}
