/** Cipher block chaining over an abstract block cipher: plain chaining, PKCS5 padding and
    ciphertext stealing, each defined the way its standard defines it. */
module Cbc {
  import opened Bytes

  /** The keyed AES block function and its inverse. */
  datatype Cipher = Cipher(enc: Block -> Block, dec: Block -> Block) {
    ghost predicate Valid() {
      forall b: Block :: dec(enc(b)) == b
    }
  }

  ghost predicate Whole(s: seq<byte>) {
    |s| % 16 == 0
  }

  // ---------------------------------------------------------------- plain chaining

  /** CBC encryption, section 6.2 of NIST SP 800-38A. */
  function CbcEncrypt(c: Cipher, iv: Block, p: seq<byte>): (q: seq<byte>)
    requires Whole(p)
    ensures |q| == |p|
    decreases |p|
  {
    if p == [] then []
    else
      var b := c.enc(Xor(p[..16], iv));
      b + CbcEncrypt(c, b, p[16..])
  }

  /** CBC decryption, section 6.2 of NIST SP 800-38A. */
  function CbcDecrypt(c: Cipher, iv: Block, q: seq<byte>): (p: seq<byte>)
    requires Whole(q)
    ensures |p| == |q|
    decreases |q|
  {
    if q == [] then []
    else Xor(c.dec(q[..16]), iv) + CbcDecrypt(c, q[..16], q[16..])
  }

  /** The chaining value after ciphertext q: its last block, or the old value if q is empty. */
  function LastBlock(iv: Block, q: seq<byte>): (b: Block)
    requires Whole(q)
  {
    if q == [] then iv else q[|q| - 16..]
  }

  lemma {:induction false} CbcRoundTrip(c: Cipher, iv: Block, p: seq<byte>)
    requires c.Valid() && Whole(p)
    ensures CbcDecrypt(c, iv, CbcEncrypt(c, iv, p)) == p
    decreases |p|
  {
    if p != [] {
      var b := c.enc(Xor(p[..16], iv));
      var q := CbcEncrypt(c, iv, p);
      assert q[..16] == b && q[16..] == CbcEncrypt(c, b, p[16..]);
      XorCancel(p[..16], iv);
      CbcRoundTrip(c, b, p[16..]);
      assert p == p[..16] + p[16..];
    }
  }

  lemma {:induction false} CbcEncryptAppend(c: Cipher, iv: Block, p: seq<byte>, p': seq<byte>)
    requires Whole(p) && Whole(p')
    ensures var q := CbcEncrypt(c, iv, p);
            CbcEncrypt(c, iv, p + p') == q + CbcEncrypt(c, LastBlock(iv, q), p')
    decreases |p|
  {
    hide Xor;
    var q := CbcEncrypt(c, iv, p);
    if p == [] {
      assert p + p' == p';
    } else {
      var b := c.enc(Xor(p[..16], iv));
      var t := CbcEncrypt(c, b, p[16..]);
      CbcEncryptAppend(c, b, p[16..], p');
      TakeFirst(p, p');
      LastOfConcat(iv, b, t);
      Associative(b, t, CbcEncrypt(c, LastBlock(b, t), p'));
    }
  }

  /** The first block of a concatenation, and the rest. */
  lemma TakeFirst(p: seq<byte>, p': seq<byte>)
    requires |p| >= 16
    ensures (p + p')[..16] == p[..16] && (p + p')[16..] == p[16..] + p'
  {
  }

  lemma LastOfConcat(iv: Block, b: Block, t: seq<byte>)
    requires Whole(t)
    ensures LastBlock(iv, b + t) == LastBlock(b, t)
  {
  }

  lemma {:induction false} CbcDecryptAppend(c: Cipher, iv: Block, q: seq<byte>, q': seq<byte>)
    requires Whole(q) && Whole(q')
    ensures CbcDecrypt(c, iv, q + q') == CbcDecrypt(c, iv, q) + CbcDecrypt(c, LastBlock(iv, q), q')
    decreases |q|
  {
    hide Xor;
    if q == [] {
      assert q + q' == q';
    } else {
      var b, t := q[..16], q[16..];
      var x, y := Xor(c.dec(b), iv), CbcDecrypt(c, b, t);
      CbcDecryptAppend(c, b, t, q');
      TakeFirst(q, q');
      assert q == b + t;
      LastOfConcat(iv, b, t);
      Associative(x, y, CbcDecrypt(c, LastBlock(b, t), q'));
    }
  }

  lemma CbcEncryptOne(c: Cipher, iv: Block, b: Block)
    ensures CbcEncrypt(c, iv, b) == c.enc(Xor(b, iv))
  {
    assert b[..16] == b && b[16..] == [];
    assert CbcEncrypt(c, c.enc(Xor(b, iv)), []) == [];
  }

  lemma CbcDecryptOne(c: Cipher, iv: Block, b: Block)
    ensures CbcDecrypt(c, iv, b) == Xor(c.dec(b), iv)
  {
    assert b[..16] == b && b[16..] == [];
    assert CbcDecrypt(c, b, []) == [];
  }

  /** Each ciphertext block encrypts its plaintext block and the ciphertext block before it, the first one the
      IV. */
  lemma CbcEncryptBlock(c: Cipher, iv: Block, p: seq<byte>, m: nat)
    requires Whole(p) && m % 16 == 0 && m + 16 <= |p|
    ensures var q := CbcEncrypt(c, iv, p);
            q[m..m + 16] == c.enc(Xor(p[m..m + 16], if m == 0 then iv else q[m - 16..m]))
  {
    hide Xor, CbcEncrypt;
    var p1, p2: seq<byte> := p[..m], p[m..];
    assert p == p1 + p2 && p2[..16] == p[m..m + 16];
    var q1 := CbcEncrypt(c, iv, p1);
    CbcEncryptAppend(c, iv, p1, p2);
    FirstEncrypted(c, LastBlock(iv, q1), p2);
    BlockAt(iv, q1, CbcEncrypt(c, LastBlock(iv, q1), p2));
  }

  lemma FirstEncrypted(c: Cipher, iv: Block, p: seq<byte>)
    requires Whole(p) && |p| >= 16
    ensures CbcEncrypt(c, iv, p)[..16] == c.enc(Xor(p[..16], iv))
  {
    hide Xor;
  }

  lemma FirstDecrypted(c: Cipher, iv: Block, q: seq<byte>)
    requires Whole(q) && |q| >= 16
    ensures CbcDecrypt(c, iv, q)[..16] == Xor(c.dec(q[..16]), iv)
  {
    hide Xor;
  }

  /** The first block of q2, and the block before it, in q1 + q2. */
  lemma BlockAt(iv: Block, q1: seq<byte>, q2: seq<byte>)
    requires Whole(q1) && |q2| >= 16
    ensures var q, m := q1 + q2, |q1|;
            q[m..m + 16] == q2[..16] && LastBlock(iv, q1) == if m == 0 then iv else q[m - 16..m]
  {
    var q, m := q1 + q2, |q1|;
    assert q[m..m + 16] == q2[..16];
    if m > 0 {
      assert m >= 16 && q[m - 16..m] == q1[m - 16..];
    }
  }

  /** Each plaintext block is its decrypted ciphertext block masked by the ciphertext block before it, the first
      one by the IV. */
  lemma CbcDecryptBlock(c: Cipher, iv: Block, q: seq<byte>, m: nat)
    requires Whole(q) && m % 16 == 0 && m + 16 <= |q|
    ensures CbcDecrypt(c, iv, q)[m..m + 16]
            == Xor(c.dec(q[m..m + 16]), if m == 0 then iv else q[m - 16..m])
  {
    hide Xor, CbcDecrypt;
    var q1, q2: seq<byte> := q[..m], q[m..];
    assert q == q1 + q2 && q2[..16] == q[m..m + 16];
    var p1, p2 := CbcDecrypt(c, iv, q1), CbcDecrypt(c, LastBlock(iv, q1), q2);
    CbcDecryptAppend(c, iv, q1, q2);
    FirstDecrypted(c, LastBlock(iv, q1), q2);
    BlockAt(iv, q1, q2);
    BlockAt(iv, p1, p2);
  }

  // ---------------------------------------------------------------- PKCS5 padding

  /** Section 6.3 of RFC 5652: k bytes of value k, 1 <= k <= 16, up to the next whole block. */
  function Pkcs5Pad(p: seq<byte>): (r: seq<byte>)
    ensures Whole(r) && |p| < |r| <= |p| + 16
  {
    var k := 16 - |p| % 16;
    p + seq(k, _ => k)
  }

  /** Every byte of the padding is the number of padding bytes, which fill up the block. */
  lemma Pkcs5Bytes(p: seq<byte>, i: nat)
    requires i < |Pkcs5Pad(p)|
    ensures |Pkcs5Pad(p)| == |p| + 16 - |p| % 16
    ensures Pkcs5Pad(p)[i] == if i < |p| then p[i] else 16 - |p| % 16
  {
  }

  /** What stripping accepts and yields: the count byte must not exceed a block. */
  function Pkcs5Strip(r: seq<byte>): (p: seq<byte>)
    requires Whole(r) && r != [] && r[|r| - 1] <= 16
  {
    r[..|r| - r[|r| - 1]]
  }

  // ---------------------------------------------------------------- ciphertext stealing

  ghost predicate Steals(n: nat) {
    n > 16 && n % 16 != 0
  }

  /** CBC-CS2 of the Addendum to NIST SP 800-38A: encrypt the zero-padded text, then put the last
      block before the truncated next-to-last one. Texts of less than one block stay clear. */
  function CtsEncrypt(c: Cipher, iv: Block, p: seq<byte>): (q: seq<byte>)
    ensures |q| == |p|
  {
    var r := |p| % 16;
    var m := |p| - r;
    if m == 0 then p
    else if r == 0 then CbcEncrypt(c, iv, p)
    else
      var full := CbcEncrypt(c, iv, p + Zeros(16 - r));
      full[..m - 16] + full[m..] + full[m - 16..m - 16 + r]
  }

  /** CBC-CS2 decryption: recover the stolen tail of the next-to-last block from the last block,
      put the two blocks back in order, decrypt, and drop the padding. */
  function CtsDecrypt(c: Cipher, iv: Block, q: seq<byte>): (p: seq<byte>)
    ensures |p| == |q|
  {
    var r := |q| % 16;
    var m := |q| - r;
    if m == 0 then q
    else if r == 0 then CbcDecrypt(c, iv, q)
    else CbcDecrypt(c, iv, CtsReorder(c, q))[..|q|]
  }

  function StolenBlock(c: Cipher, q: seq<byte>): (b: Block)
    requires Steals(|q|)
  {
    var r := |q| % 16;
    var m := |q| - r;
    q[m..] + c.dec(q[m - 16..m])[r..]
  }

  function CtsReorder(c: Cipher, q: seq<byte>): (full: seq<byte>)
    requires Steals(|q|)
    ensures Whole(full) && |full| == |q| - |q| % 16 + 16
  {
    var m := |q| - |q| % 16;
    q[..m - 16] + StolenBlock(c, q) + q[m - 16..m]
  }

  /** n is m, a number of whole blocks, and r more. */
  ghost predicate Cut(n: nat, r: nat, m: nat) {
    n == m + r && 0 < r < 16 <= m && Blocks(m)
  }

  ghost predicate Blocks(m: nat) {
    m % 16 == 0
  }

  lemma CutAt(n: nat, r: nat, m: nat)
    requires Cut(n, r, m)
    ensures Steals(n) && n % 16 == r
  {
  }

  lemma StealsCut(n: nat, r: nat, m: nat)
    requires Steals(n) && r == n % 16 && m == n - r
    ensures Cut(n, r, m)
  {
  }

  /** The last block of the padded encryption is the encryption of the padded residue under the
      block before it. */
  lemma CtsLastBlock(c: Cipher, iv: Block, p: seq<byte>, r: nat, m: nat, full: seq<byte>)
    requires Cut(|p|, r, m) && Whole(p + Zeros(16 - r)) && full == CbcEncrypt(c, iv, p + Zeros(16 - r))
    ensures |full| == m + 16 && full[m..] == c.enc(Xor(p[m..] + Zeros(16 - r), full[m - 16..m]))
  {
    hide CbcEncrypt, Xor;
    var last: Block := p[m..] + Zeros(16 - r);
    assert p + Zeros(16 - r) == p[..m] + last;
    var q := CbcEncrypt(c, iv, p[..m]);
    CbcEncryptAppend(c, iv, p[..m], last);
    CbcEncryptOne(c, LastBlock(iv, q), last);
  }

  lemma StolenBlockIs(c: Cipher, q: seq<byte>, r: nat, m: nat, last: Block, prev: Block)
    requires c.Valid() && Cut(|q|, r, m)
    requires q[m - 16..m] == c.enc(Xor(last, prev)) && q[m..] == prev[..r] && last[r..] == Zeros(16 - r)
    ensures Steals(|q|) && StolenBlock(c, q) == prev
  {
    CutAt(|q|, r, m);
    hide Xor, Steals, Blocks;
    XorTail(last, prev, r);
    assert StolenBlock(c, q) == prev[..r] + Xor(last, prev)[r..];
  }

  lemma XorTail(x: Block, y: Block, r: nat)
    requires r <= 16 && x[r..] == Zeros(16 - r)
    ensures Xor(x, y)[r..] == y[r..]
  {
    hide XorByte;
    forall i | 0 <= i < 16 - r
      ensures Xor(x, y)[r..][i] == y[r..][i]
    {
      assert x[r..][i] == 0;
      XorByteZero(y[r + i]);
    }
  }

  lemma CtsReorderUndoes(c: Cipher, iv: Block, p: seq<byte>)
    requires c.Valid() && Steals(|p|)
    ensures CtsReorder(c, CtsEncrypt(c, iv, p)) == CbcEncrypt(c, iv, p + Zeros(16 - |p| % 16))
  {
    var r := |p| % 16;
    var m := |p| - r;
    hide CbcEncrypt, CtsEncrypt, CtsReorder, Zeros;
    StealsCut(|p|, r, m);
    ReorderWhole(c, iv, p, r, m, CbcEncrypt(c, iv, p + Zeros(16 - r)), CtsEncrypt(c, iv, p));
  }

  lemma ReorderWhole(c: Cipher, iv: Block, p: seq<byte>, r: nat, m: nat, full: seq<byte>, q: seq<byte>)
    requires c.Valid() && Cut(|p|, r, m) && Whole(p + Zeros(16 - r))
    requires full == CbcEncrypt(c, iv, p + Zeros(16 - r)) && q == CtsEncrypt(c, iv, p)
    ensures Steals(|q|) && CtsReorder(c, q) == full
  {
    hide CbcEncrypt, CtsEncrypt, CtsReorder, StolenBlock, Zeros, Whole, Steals, Blocks;
    CtsPieces(c, iv, p, r, m, full, q);
    CtsStolen(c, iv, p, r, m, full, q);
    ReorderIs(c, q, r, m);
    ThreePieces(full, m - 16, m);
  }

  lemma ReorderIs(c: Cipher, q: seq<byte>, r: nat, m: nat)
    requires Cut(|q|, r, m)
    ensures Steals(|q|) && CtsReorder(c, q) == q[..m - 16] + StolenBlock(c, q) + q[m - 16..m]
  {
    hide StolenBlock;
    CutAt(|q|, r, m);
  }

  lemma ThreePieces(s: seq<byte>, a: nat, b: nat)
    requires a <= b <= |s|
    ensures s == s[..a] + s[a..b] + s[b..]
  {
  }

  lemma CtsStolen(c: Cipher, iv: Block, p: seq<byte>, r: nat, m: nat, full: seq<byte>, q: seq<byte>)
    requires c.Valid() && Cut(|p|, r, m) && Whole(p + Zeros(16 - r))
    requires full == CbcEncrypt(c, iv, p + Zeros(16 - r)) && q == CtsEncrypt(c, iv, p)
    ensures |full| == m + 16 && Steals(|q|) && StolenBlock(c, q) == full[m - 16..m]
  {
    hide CbcEncrypt, CtsEncrypt, StolenBlock, Xor, Blocks, Steals, Whole;
    CtsPieces(c, iv, p, r, m, full, q);
    CtsLastBlock(c, iv, p, r, m, full);
    var last: Block := p[m..] + Zeros(16 - r);
    assert last[r..] == Zeros(16 - r);
    StolenBlockIs(c, q, r, m, last, full[m - 16..m]);
  }

  lemma CtsForm(c: Cipher, iv: Block, p: seq<byte>, r: nat, m: nat, full: seq<byte>)
    requires Cut(|p|, r, m) && Whole(p + Zeros(16 - r)) && full == CbcEncrypt(c, iv, p + Zeros(16 - r))
    ensures |full| == m + 16 && CtsEncrypt(c, iv, p) == full[..m - 16] + full[m..] + full[m - 16..m - 16 + r]
  {
    CutAt(|p|, r, m);
    hide CbcEncrypt, Zeros, Blocks, Steals;
  }

  /** How the pieces of a stealing ciphertext relate to the plain chained one. */
  lemma CtsPieces(c: Cipher, iv: Block, p: seq<byte>, r: nat, m: nat, full: seq<byte>, q: seq<byte>)
    requires Cut(|p|, r, m) && Whole(p + Zeros(16 - r))
    requires full == CbcEncrypt(c, iv, p + Zeros(16 - r)) && q == CtsEncrypt(c, iv, p)
    ensures |full| == m + 16 && |q| == m + r
    ensures q[..m - 16] == full[..m - 16] && q[m - 16..m] == full[m..] && q[m..] == full[m - 16..m][..r]
  {
    hide CbcEncrypt, CtsEncrypt, Zeros, Blocks, Whole;
    CtsForm(c, iv, p, r, m, full);
    SliceSlice(full, m - 16, m, 0, r);
    ThreeParts(full[..m - 16], full[m..], full[m - 16..m - 16 + r]);
  }

  lemma ThreeParts(x: seq<byte>, y: seq<byte>, z: seq<byte>)
    ensures var s := x + y + z;
            s[..|x|] == x && s[|x|..|x| + |y|] == y && s[|x| + |y|..] == z
  {
  }

  /** For every cipher, IV and text of any length, stealing decryption undoes stealing encryption. */
  lemma CtsRoundTrip(c: Cipher, iv: Block, p: seq<byte>)
    requires c.Valid()
    ensures CtsDecrypt(c, iv, CtsEncrypt(c, iv, p)) == p
  {
    if |p| < 16 {
    } else if |p| % 16 == 0 {
      CbcRoundTrip(c, iv, p);
    } else {
      CtsReorderUndoes(c, iv, p);
      CbcRoundTrip(c, iv, p + Zeros(16 - |p| % 16));
    }
  }

  lemma Pkcs5RoundTrip(c: Cipher, iv: Block, p: seq<byte>)
    requires c.Valid()
    ensures var r := CbcDecrypt(c, iv, CbcEncrypt(c, iv, Pkcs5Pad(p)));
            r != [] && r[|r| - 1] <= 16 && Pkcs5Strip(r) == p
  {
    CbcRoundTrip(c, iv, Pkcs5Pad(p));
    var k := 16 - |p| % 16;
    assert Pkcs5Pad(p)[|Pkcs5Pad(p)| - 1] == k;
  }

  // ---------------------------------------------------------------- the order the code works in

  /** The encryptor chains the whole blocks first and the padded residue last. */
  lemma CtsEncryptShape(c: Cipher, iv: Block, p: seq<byte>)
    requires Steals(|p|)
    ensures var r := |p| % 16; var m := |p| - r;
            var q := CbcEncrypt(c, iv, p[..m]);
            var e := CbcEncrypt(c, LastBlock(iv, q), p[m..] + Zeros(16 - r));
            CtsEncrypt(c, iv, p) == q[..m - 16] + e + q[m - 16..m - 16 + r]
  {
    var r := |p| % 16;
    var m := |p| - r;
    assert p + Zeros(16 - r) == p[..m] + (p[m..] + Zeros(16 - r));
    CbcEncryptAppend(c, iv, p[..m], p[m..] + Zeros(16 - r));
  }

  /** The decryptor works off everything before the last full block by plain chaining. */
  lemma CtsDecryptSplit(c: Cipher, iv: Block, q: seq<byte>)
    requires Steals(|q|)
    ensures var m := |q| - |q| % 16;
            && CtsDecrypt(c, iv, q)
               == CbcDecrypt(c, iv, q[..m - 16]) + CtsDecrypt(c, LastBlock(iv, q[..m - 16]), q[m - 16..])
            && StolenBlock(c, q) == StolenBlock(c, q[m - 16..])
  {
    hide CbcDecrypt, CtsReorder, StolenBlock;
    var m := |q| - |q| % 16;
    var head, tail := q[..m - 16], q[m - 16..];
    CtsReorderTail(c, q);
    CbcDecryptAppend(c, iv, head, CtsReorder(c, tail));
    var x, y := CbcDecrypt(c, iv, head), CbcDecrypt(c, LastBlock(iv, head), CtsReorder(c, tail));
    assert (x + y)[..|q|] == x + y[..|tail|];
  }

  lemma CtsReorderTail(c: Cipher, q: seq<byte>)
    requires Steals(|q|)
    ensures var m := |q| - |q| % 16;
            && Steals(|q[m - 16..]|)
            && StolenBlock(c, q) == StolenBlock(c, q[m - 16..])
            && CtsReorder(c, q) == q[..m - 16] + CtsReorder(c, q[m - 16..])
  {
    var r := |q| % 16;
    var m := |q| - r;
    var head, tail := q[..m - 16], q[m - 16..];
    TailPieces(q, m);
    assert StolenBlock(c, tail) == q[m..] + c.dec(q[m - 16..m])[r..];
    var stolen, last := StolenBlock(c, q), q[m - 16..m];
    calc {
      head + CtsReorder(c, tail);
      head + ([] + stolen + last);
      { assert [] + stolen == stolen; }
      head + (stolen + last);
      { Associative(head, stolen, last); }
      CtsReorder(c, q);
    }
  }

  lemma TailPieces(q: seq<byte>, m: nat)
    requires 16 <= m < |q| < m + 16 && m % 16 == 0
    ensures var t := q[m - 16..];
            && |t| % 16 == |q| % 16 && |t| - |t| % 16 == 16
            && t[16..] == q[m..] && t[0..16] == q[m - 16..m] && t[..0] == []
  {
  }

  /** On the last full block and residue: undo the residue with the block's own decryption, and the
      block with the reassembled stolen block. */
  lemma CtsDecryptTail(c: Cipher, iv: Block, t: seq<byte>)
    requires 16 < |t| < 32
    ensures var r := |t| - 16;
            var w := Xor(c.dec(t[..16]), t[16..] + Zeros(16 - r));
            && StolenBlock(c, t) == t[16..] + w[r..]
            && CtsDecrypt(c, iv, t) == Xor(c.dec(StolenBlock(c, t)), iv) + w[..r]
  {
    hide CbcDecrypt, Xor;
    var r := |t| - 16;
    var z := c.dec(t[..16]);
    var stolen := StolenBlock(c, t);
    var w := Xor(z, t[16..] + Zeros(16 - r));
    assert |t| % 16 == r && t[0..16] == t[..16] && t[..0] == [];
    XorZeroTail(z, t[16..]);
    assert stolen == t[16..] + z[r..];
    CbcDecryptAppend(c, iv, stolen, t[..16]);
    CbcDecryptOne(c, iv, stolen);
    CbcDecryptOne(c, stolen, t[..16]);
    assert CtsReorder(c, t) == stolen + t[..16];
    var x := Xor(c.dec(stolen), iv);
    assert (x + Xor(z, stolen))[..|t|] == x + Xor(z, stolen)[..r];
    XorPrefix(z, t[16..], z[r..], Zeros(16 - r));
  }

  lemma XorPrefix(z: Block, x: seq<byte>, a: seq<byte>, b: seq<byte>)
    requires |x| + |a| == |x| + |b| == 16
    ensures Xor(z, x + a)[..|x|] == Xor(z, x + b)[..|x|]
  {
    hide XorByte;
  }

  lemma XorZeroTail(z: Block, x: seq<byte>)
    requires |x| <= 16
    ensures Xor(z, x + Zeros(16 - |x|))[|x|..] == z[|x|..]
  {
    forall i | |x| <= i < 16
      ensures Xor(z, x + Zeros(16 - |x|))[i] == z[i]
    {
      XorByteZeroRight(z[i]);
    }
  }
}
