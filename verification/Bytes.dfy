/** Octets, 16-byte cipher blocks and big-endian numbers. */
module Bytes {

  type byte = x: int | 0 <= x < 256

  type Block = b: seq<byte> | |b| == 16 witness seq(16, _ => 0)

  function Zeros(n: nat): (z: seq<byte>)
    ensures |z| == n
  {
    seq(n, _ => 0)
  }

  /** vector::resize(16, 0) on a vector of at most 16 bytes. */
  function PadBlock(s: seq<byte>): (b: Block)
    requires |s| <= 16
    ensures b[..|s|] == s && forall i :: |s| <= i < 16 ==> b[i] == 0
  {
    s + Zeros(16 - |s|)
  }

  lemma Associative(x: seq<byte>, y: seq<byte>, z: seq<byte>)
    ensures (x + y) + z == x + (y + z)
  {
  }

  lemma SliceSlice(s: seq<byte>, a: nat, b: nat, i: nat, j: nat)
    requires a <= b <= |s| && i <= j <= b - a
    ensures s[a..b][i..j] == s[a + i..a + j]
  {
    var x, y := s[a..b][i..j], s[a + i..a + j];
    forall k | 0 <= k < j - i
      ensures x[k] == y[k]
    {
      assert x[k] == s[a..b][i + k] == s[a + (i + k)];
    }
  }

  // ---------------------------------------------------------------- writing into a buffer

  /** Buffer s with `data` written over it from index d on. */
  function Splice(s: seq<byte>, d: nat, data: seq<byte>): (r: seq<byte>)
    requires d + |data| <= |s|
    ensures |r| == |s|
  {
    s[..d] + data + s[d + |data|..]
  }

  /** Two adjacent writes are one. */
  lemma SpliceJoin(s: seq<byte>, d: nat, x: seq<byte>, y: seq<byte>)
    requires d + |x| + |y| <= |s|
    ensures Splice(Splice(s, d, x), d + |x|, y) == Splice(s, d, x + y)
  {
  }

  lemma SpliceRead(s: seq<byte>, d: nat, x: seq<byte>)
    requires d + |x| <= |s|
    ensures Splice(s, d, x)[d..d + |x|] == x
    ensures Splice(s, d, x)[..d] == s[..d] && Splice(s, d, x)[d + |x|..] == s[d + |x|..]
  {
  }

  lemma SpliceAll(s: seq<byte>, x: seq<byte>)
    requires |s| == |x|
    ensures Splice(s, 0, x) == x
  {
  }

  lemma SpliceNone(s: seq<byte>, d: nat, x: seq<byte>)
    requires d <= |s| && |x| == 0
    ensures Splice(s, d, x) == s
  {
  }

  lemma SpliceAfter(s: seq<byte>, d: nat, x: seq<byte>, a: nat, b: nat)
    requires d + |x| <= a <= b <= |s|
    ensures Splice(s, d, x)[a..b] == s[a..b]
  {
  }

  lemma SubSlice(b: seq<byte>, d: nat, p: seq<byte>, k: nat)
    requires d + |p| <= |b| && b[d..d + |p|] == p && k <= |p|
    ensures b[d..d + k] == p[..k]
    ensures k < |p| ==> b[d + k] == p[k]
  {
    assert b[d..d + k] == b[d..d + |p|][..k];
  }

  /** Overwriting the first part of a write. */
  lemma SpliceTwo(s: seq<byte>, d: nat, x: seq<byte>, y: seq<byte>, x': seq<byte>)
    requires |x| == |x'| && d + |x| + |y| <= |s|
    ensures Splice(s, d, x + y)[d..d + |x|] == x
    ensures Splice(Splice(s, d, x + y), d, x') == Splice(s, d, x' + y)
  {
    var b := Splice(s, d, x + y);
    assert b == s[..d] + x + y + s[d + |x| + |y|..];
    assert b[..d] == s[..d] && b[d + |x|..] == y + s[d + |x| + |y|..];
  }

  lemma SpliceOne(s: seq<byte>, d: nat, x: seq<byte>, v: byte)
    requires d + |x| < |s|
    ensures Splice(s, d, x)[d + |x| := v] == Splice(s, d, x + [v])
  {
  }

  /** Buffer s with its ranges [i, i + n) and [j, j + n) exchanged. */
  function Swapped(s: seq<byte>, i: nat, j: nat, n: nat): (r: seq<byte>)
    requires i + n <= j && j + n <= |s|
  {
    s[..i] + s[j..j + n] + s[i + n..j] + s[i..i + n] + s[j + n..]
  }

  /** std::swap_ranges on two ranges that do not overlap. */
  method SwapRanges(a: array<byte>, i: nat, j: nat, n: nat)
    requires i + n <= j && j + n <= a.Length
    modifies a
    ensures a[..] == Swapped(old(a[..]), i, j, n)
  {
    ghost var was := a[..];
    for k := 0 to n
      invariant SwappedTo(was, i, j, k, a[..])
    {
      ghost var now := a[..];
      a[i + k], a[j + k] := a[j + k], a[i + k];
      assert a[..] == now[i + k := now[j + k]][j + k := now[i + k]];
    }
    SwappedWhole(was, i, j, n, a[..]);
  }

  ghost predicate SwappedTo(was: seq<byte>, i: nat, j: nat, k: nat, now: seq<byte>)
    requires i + k <= j && j + k <= |was|
  {
    && |now| == |was|
    && (forall x :: i <= x < i + k ==> now[x] == was[x - i + j])
    && (forall x :: j <= x < j + k ==> now[x] == was[x - j + i])
    && (forall x :: 0 <= x < i || i + k <= x < j || j + k <= x < |was| ==> now[x] == was[x])
  }

  lemma SwappedWhole(was: seq<byte>, i: nat, j: nat, n: nat, now: seq<byte>)
    requires i + n <= j && j + n <= |was| && SwappedTo(was, i, j, n, now)
    ensures now == Swapped(was, i, j, n)
  {
    var x, y, x', y' := was[i..i + n], was[j..j + n], now[i..i + n], now[j..j + n];
    forall k | 0 <= k < n
      ensures x'[k] == y[k]
    {
      assert now[i + k] == was[(i + k) - i + j];
    }
    forall k | 0 <= k < n
      ensures y'[k] == x[k]
    {
      assert now[j + k] == was[(j + k) - j + i];
    }
    assert x' == y && y' == x;
    assert now[..i] == was[..i] && now[i + n..j] == was[i + n..j] && now[j + n..] == was[j + n..];
    FivePieces(now, i, j, n);
  }

  lemma FivePieces(s: seq<byte>, i: nat, j: nat, n: nat)
    requires i + n <= j && j + n <= |s|
    ensures s == s[..i] + s[i..i + n] + s[i + n..j] + s[j..j + n] + s[j + n..]
  {
  }

  lemma SwapPieces(pre: seq<byte>, w: seq<byte>, y: seq<byte>, post: seq<byte>)
    requires |y| <= |w|
    ensures var d, r := |pre|, |y|;
            Swapped(pre + w + y + post, d, d + |w|, r) == pre + y + w[r..] + w[..r] + post
  {
    var d, r := |pre|, |y|;
    var b := pre + w + y + post;
    var j := d + |w|;
    assert b[..d] == pre;
    assert b[j..j + r] == y;
    assert b[d + r..j] == w[r..];
    assert b[d..d + r] == w[..r];
    assert b[j + r..] == post;
  }

  lemma CopyPieces(pre: seq<byte>, w: seq<byte>, y: seq<byte>, post: seq<byte>, x: seq<byte>)
    requires |x| == |y| <= |w|
    ensures var d, r := |pre|, |y|;
            Splice(Splice(pre + w + y + post, d + |w|, w[..r]), d, x) == pre + x + w[r..] + w[..r] + post
  {
    var d, r := |pre|, |y|;
    var b := pre + w + y + post;
    assert Splice(b, d + |w|, w[..r]) == pre + w + w[..r] + post by {
      assert b[..d + |w|] == pre + w && b[d + |w| + r..] == post;
    }
    var b' := pre + w + w[..r] + post;
    assert b'[..d] == pre && b'[d + r..] == w[r..] + w[..r] + post;
  }

  /** Copying the low part of block w behind it and x over it, or swapping it with an x that already
      stands behind it, come to the same. */
  lemma SwapIsCopy(b: seq<byte>, d: nat, w: Block, x: seq<byte>)
    requires |x| <= 16 && d + 16 + |x| <= |b|
    ensures var r := |x|; var b' := Splice(b, d, w);
            && Splice(Splice(b', d + 16, w[..r]), d, x) == Splice(b, d, x + w[r..] + w[..r])
            && (b[d + 16..d + 16 + r] == x ==> Swapped(b', d, d + 16, r) == Splice(b, d, x + w[r..] + w[..r]))
  {
    hide Splice, Swapped;
    var r := |x|;
    var pre, y, post := b[..d], b[d + 16..d + 16 + r], b[d + 16 + r..];
    SpliceBlock(b, d, w, r);
    CopyPieces(pre, w, y, post, x);
    SwapPieces(pre, w, y, post);
    Regroup(pre, x, w[r..], w[..r], post);
    SpliceIs(b, d, x + w[r..] + w[..r]);
  }

  lemma SpliceBlock(b: seq<byte>, d: nat, w: Block, r: nat)
    requires r <= 16 && d + 16 + r <= |b|
    ensures Splice(b, d, w) == b[..d] + w + b[d + 16..d + 16 + r] + b[d + 16 + r..]
  {
    assert b[d + 16..] == b[d + 16..d + 16 + r] + b[d + 16 + r..];
  }

  lemma SpliceIs(s: seq<byte>, d: nat, data: seq<byte>)
    requires d + |data| <= |s|
    ensures Splice(s, d, data) == s[..d] + data + s[d + |data|..]
  {
  }

  lemma Regroup(a: seq<byte>, x: seq<byte>, y: seq<byte>, z: seq<byte>, b: seq<byte>)
    ensures a + x + y + z + b == a + (x + y + z) + b
  {
  }

  /** memcpy. */
  method Store(dst: array<byte>, d: nat, data: seq<byte>)
    requires d + |data| <= dst.Length
    modifies dst
    ensures dst[..] == Splice(old(dst[..]), d, data)
  {
    forall i | 0 <= i < |data| {
      dst[d + i] := data[i];
    }
  }

  // ---------------------------------------------------------------- exclusive or

  function Pow2(n: nat): (p: nat)
    ensures p > 0
  {
    if n == 0 then 1 else 2 * Pow2(n - 1)
  }

  lemma Pow2Of8()
    ensures Pow2(8) == 256
  {
    assert Pow2(4) == 16;
  }

  /** The low n bits of a and b, added bit by bit without carry. */
  function XorBits(a: nat, b: nat, n: nat): (x: nat)
    ensures x < Pow2(n)
    decreases n
  {
    if n == 0 then 0 else 2 * XorBits(a / 2, b / 2, n - 1) + (a + b) % 2
  }

  function XorByte(a: byte, b: byte): byte {
    Pow2Of8();
    XorBits(a, b, 8)
  }

  lemma XorUnfold(a: nat, b: nat, n: nat, x: nat)
    requires n > 0 && x == XorBits(a, b, n)
    ensures x / 2 == XorBits(a / 2, b / 2, n - 1) && x % 2 == (a + b) % 2
  {
  }

  /** Bit k of x, the least significant one being bit 0. */
  function BitOf(x: nat, k: nat): (b: nat)
    ensures b < 2
  {
    if k == 0 then x % 2 else BitOf(x / 2, k - 1)
  }

  lemma {:induction false} BitOfIs(x: nat, k: nat)
    ensures BitOf(x, k) == x / Pow2(k) % 2
    decreases k
  {
    hide Pow2;
    Pow2Next(k);
    if k > 0 {
      BitOfIs(x / 2, k - 1);
      HalfThen(x, Pow2(k - 1));
    }
  }

  /** A bit of the result is set exactly if it is set in one of the two. */
  lemma {:induction false} XorBit(a: nat, b: nat, n: nat, k: nat)
    requires k < n
    ensures BitOf(XorBits(a, b, n), k) == (BitOf(a, k) + BitOf(b, k)) % 2
    decreases k
  {
    hide XorBits;
    XorUnfold(a, b, n, XorBits(a, b, n));
    if k > 0 {
      XorBit(a / 2, b / 2, n - 1, k - 1);
    }
  }

  lemma Pow2Next(n: nat)
    ensures Pow2(n) == if n == 0 then 1 else 2 * Pow2(n - 1)
  {
  }

  lemma HalfThen(x: nat, p: nat)
    requires p > 0
    ensures x / (2 * p) == x / 2 / p
  {
    var h := x / 2;
    var q, r := h / p, h % p;
    assert x == (2 * p) * q + (2 * r + x % 2);
    ModUnique(x, 2 * p, q, 2 * r + x % 2);
  }

  lemma XorByteBit(a: byte, b: byte, k: nat)
    requires k < 8
    ensures XorByte(a, b) / Pow2(k) % 2 == (a / Pow2(k) % 2 + b / Pow2(k) % 2) % 2
  {
    hide XorBits, BitOf, Pow2;
    XorBit(a, b, 8, k);
    BitOfIs(a, k);
    BitOfIs(b, k);
    BitOfIs(XorByte(a, b), k);
  }

  lemma {:induction false} XorBitsCancel(a: nat, b: nat, n: nat)
    requires a < Pow2(n)
    ensures XorBits(XorBits(a, b, n), b, n) == a
    decreases n
  {
    hide XorBits, Pow2;
    Pow2Next(n);
    if n == 0 {
      XorNothing(XorBits(a, b, n), b);
    } else {
      var x := XorBits(a, b, n);
      var z := XorBits(x, b, n);
      XorUnfold(a, b, n, x);
      XorUnfold(x, b, n, z);
      XorBitsCancel(a / 2, b / 2, n - 1);
      Parity(a, b, x);
    }
  }

  lemma XorNothing(a: nat, b: nat)
    ensures XorBits(a, b, 0) == 0
  {
  }

  lemma Parity(a: nat, b: nat, x: nat)
    requires x % 2 == (a + b) % 2
    ensures (x + b) % 2 == a % 2
  {
  }

  lemma {:induction false} XorBitsZero(b: nat, n: nat)
    requires b < Pow2(n)
    ensures XorBits(0, b, n) == b == XorBits(b, 0, n)
    decreases n
  {
    if n > 0 {
      XorBitsZero(b / 2, n - 1);
    }
  }

  lemma XorByteCancel(a: byte, b: byte)
    ensures XorByte(XorByte(a, b), b) == a
  {
    Pow2Of8();
    hide XorBits;
    XorBitsCancel(a, b, 8);
  }

  lemma XorByteZero(b: byte)
    ensures XorByte(0, b) == b
  {
    Pow2Of8();
    hide XorBits;
    XorBitsZero(b, 8);
  }

  lemma XorByteZeroRight(b: byte)
    ensures XorByte(b, 0) == b
  {
    Pow2Of8();
    hide XorBits;
    XorBitsZero(b, 8);
  }

  function Xor(a: seq<byte>, b: seq<byte>): (r: seq<byte>)
    requires |a| == |b|
    ensures |r| == |a|
  {
    seq(|a|, i requires 0 <= i < |a| => XorByte(a[i], b[i]))
  }

  lemma XorCancel(a: seq<byte>, b: seq<byte>)
    requires |a| == |b|
    ensures Xor(Xor(a, b), b) == a
  {
    hide XorByte;
    forall i | 0 <= i < |a|
      ensures Xor(Xor(a, b), b)[i] == a[i]
    {
      XorByteCancel(a[i], b[i]);
    }
  }

  lemma XorConcat(a: seq<byte>, b: seq<byte>, a': seq<byte>, b': seq<byte>)
    requires |a| == |b| && |a'| == |b'|
    ensures Xor(a + a', b + b') == Xor(a, b) + Xor(a', b')
  {
  }

  // ---------------------------------------------------------------- big-endian numbers

  function Pow256(n: nat): (p: nat)
    ensures p > 0
  {
    if n == 0 then 1 else 256 * Pow256(n - 1)
  }

  lemma PowNone()
    ensures Pow256(0) == 1
  {
  }

  lemma PowNext(n: nat)
    requires n > 0
    ensures Pow256(n) == 256 * Pow256(n - 1)
  {
  }

  const TWO_64: nat := 0x1_0000_0000_0000_0000

  lemma Pow256Of8()
    ensures Pow256(8) == TWO_64
  {
    assert Pow256(4) == 0x1_0000_0000;
    assert Pow256(8) == 256 * 256 * 256 * 256 * Pow256(4);
  }

  /** The unsigned value of a byte string in network byte order. */
  function FromBE(s: seq<byte>): (v: nat)
    ensures v < Pow256(|s|)
  {
    if s == [] then 0
    else 256 * FromBE(s[..|s| - 1]) + s[|s| - 1]
  }

  /** The low n bytes of v in network byte order. */
  function ToBE(v: nat, n: nat): (s: seq<byte>)
    ensures |s| == n
    decreases n
  {
    if n == 0 then [] else ToBE(v / 256, n - 1) + [v % 256]
  }

  lemma {:induction false} ToFromBE(s: seq<byte>)
    ensures ToBE(FromBE(s), |s|) == s
  {
    if s != [] {
      ToFromBE(s[..|s| - 1]);
      var last := s[|s| - 1];
      assert FromBE(s) / 256 == FromBE(s[..|s| - 1]);
      assert s == s[..|s| - 1] + [last];
    }
  }

  lemma {:induction false} FromToBE(v: nat, n: nat)
    ensures FromBE(ToBE(v, n)) == v % Pow256(n)
    decreases n
  {
    if n > 0 {
      var s := ToBE(v, n);
      FromToBE(v / 256, n - 1);
      assert s[..n - 1] == ToBE(v / 256, n - 1);
      ModOfProduct(v / 256, v % 256, Pow256(n - 1));
    }
  }

  lemma SameNumber(s: seq<byte>, t: seq<byte>)
    requires |s| == |t| && FromBE(s) == FromBE(t)
    ensures s == t
  {
    hide FromBE, ToBE;
    ToFromBE(s);
    ToFromBE(t);
  }

  /** The most significant byte comes first: byte i counts 256^(n - 1 - i)s. */
  lemma {:induction false} BigEndian(s: seq<byte>, i: nat)
    requires i < |s|
    ensures FromBE(s) / Pow256(|s| - 1 - i) % 256 == s[i]
  {
    hide Pow256;
    var front, last := s[..|s| - 1], s[|s| - 1];
    if i == |s| - 1 {
      PowNone();
    } else {
      BigEndian(front, i);
      PowNext(|s| - 1 - i);
      DivDrop(FromBE(front), last, Pow256(|s| - 2 - i));
    }
  }

  lemma DivDrop(f: nat, last: nat, p: nat)
    requires last < 256 && p > 0
    ensures (256 * f + last) / (256 * p) == f / p
  {
    var q, r := f / p, f % p;
    assert 256 * f + last == (256 * p) * q + (256 * r + last);
    ModUnique(256 * f + last, 256 * p, q, 256 * r + last);
  }

  lemma ModOfProduct(a: nat, b: nat, p: nat)
    requires b < 256 && p > 0
    ensures (256 * a + b) % (256 * p) == 256 * (a % p) + b
  {
    var q, r := a / p, a % p;
    assert 256 * a + b == (256 * p) * q + (256 * r + b);
    ModUnique(256 * a + b, 256 * p, q, 256 * r + b);
  }

  lemma ModUnique(x: int, d: int, q: int, r: int)
    requires d > 0 && x == d * q + r && 0 <= r < d
    ensures x % d == r && x / d == q
  {
    var q', r' := x / d, x % d;
    assert x == d * q' + r';
    assert d * (q - q') == d * q - d * q';
    MulFarFromZero(d, q - q');
  }

  lemma MulFarFromZero(d: int, k: int)
    requires d > 0
    ensures k >= 1 ==> d * k >= d
    ensures k <= -1 ==> d * k <= -d
  {
  }

  lemma MulDistribute(p: int, z: int, y: int)
    ensures p * (z + y) == p * z + p * y
  {
  }

  lemma MulAssoc(x: int, y: int, z: int)
    ensures (x * y) * z == x * (y * z)
  {
  }

  lemma ModOfMod(b: int, p: nat, q: nat, k: int, x: nat)
    requires p > 0 && b == p * q * k + x
    ensures x % p == b % p
  {
    var y, r := x / p, x % p;
    MulAssoc(p, q, k);
    var z := q * k;
    MulDistribute(p, z, y);
    ModUnique(b, p, z + y, r);
  }

  // ---------------------------------------------------------------- adding to a big-endian number

  /** Schoolbook addition of n to a big-endian number, dropping the final carry. */
  function AddBE(s: seq<byte>, n: nat): (r: seq<byte>)
    ensures |r| == |s|
  {
    if s == [] then []
    else
      var t := n + s[|s| - 1];
      AddBE(s[..|s| - 1], t / 256) + [t % 256]
  }

  lemma AddBEPrefix(s: seq<byte>, i: nat, n: nat)
    requires i < |s|
    ensures AddBE(s[..i + 1], n) == AddBE(s[..i], (n + s[i]) / 256) + [(n + s[i]) % 256]
  {
    assert s[..i + 1][..i] == s[..i];
  }

  lemma {:induction false} AddBEZero(s: seq<byte>)
    ensures AddBE(s, 0) == s
  {
    if s != [] {
      AddBEZero(s[..|s| - 1]);
      var last := s[|s| - 1];
      assert AddBE(s, 0) == AddBE(s[..|s| - 1], 0) + [last];
    }
  }

  lemma {:induction false} AddBEValue(s: seq<byte>, n: nat)
    ensures FromBE(AddBE(s, n)) == (FromBE(s) + n) % Pow256(|s|)
  {
    hide Pow256;
    if s == [] {
      PowNone();
    } else {
      hide AddBE, FromBE;
      PowNext(|s|);
      var front, last: int := s[..|s| - 1], s[|s| - 1];
      var q, r := (n + last) / 256, (n + last) % 256;
      AddBEValue(front, q);
      SumDigits(front, AddBE(front, q), last, n, q, r);
      AddBELast(front, last, n);
      assert s == front + [last];
      AddStep(FromBE(s) + n, FromBE(AddBE(s, n)), FromBE(front) + q, r, FromBE(AddBE(front, q)), Pow256(|front|));
    }
  }

  lemma AddStep(total: nat, value: nat, high: nat, r: nat, low: nat, p: nat)
    requires p > 0 && r < 256 && total == 256 * high + r && low == high % p && value == 256 * low + r
    ensures value == total % (256 * p)
  {
    ModOfProduct(high, r, p);
  }

  lemma AddBELast(front: seq<byte>, last: byte, n: nat)
    ensures AddBE(front + [last], n) == AddBE(front, (n + last) / 256) + [(n + last) % 256]
  {
    assert (front + [last])[..|front|] == front;
  }

  /** One more digit behind a number and behind its sum. */
  lemma SumDigits(front: seq<byte>, sum: seq<byte>, last: byte, n: nat, q: nat, r: byte)
    requires n + last == 256 * q + r
    ensures FromBE(front + [last]) + n == 256 * (FromBE(front) + q) + r
    ensures FromBE(sum + [r]) == 256 * FromBE(sum) + r
  {
    assert (front + [last])[..|front|] == front && (sum + [r])[..|sum|] == sum;
  }

  lemma CarryTwice(t: nat, k: nat)
    ensures (t + k) / 256 == t / 256 + (k + t % 256) / 256 && (t + k) % 256 == (k + t % 256) % 256
  {
  }

  /** Adding in two steps is adding the sum. */
  lemma {:induction false} AddBEAdd(s: seq<byte>, j: nat, k: nat)
    ensures AddBE(AddBE(s, j), k) == AddBE(s, j + k)
  {
    if s != [] {
      var front, last := s[..|s| - 1], s[|s| - 1];
      var t := j + last;
      var u := AddBE(s, j);
      assert u[..|s| - 1] == AddBE(front, t / 256) && u[|s| - 1] == t % 256;
      AddBEAdd(front, t / 256, (k + t % 256) / 256);
      CarryTwice(t, k);
    }
  }

  /** The low bytes of a sum depend on the low bytes alone. */
  lemma {:induction false} AddBELow(s: seq<byte>, h: nat, n: nat)
    requires h <= |s|
    ensures AddBE(s, n)[h..] == AddBE(s[h..], n)
    decreases |s|
  {
    if h < |s| {
      var front, t := s[..|s| - 1], n + s[|s| - 1];
      AddBELow(front, h, t / 256);
      var low := s[h..];
      assert low[..|low| - 1] == front[h..] && low[|low| - 1] == s[|s| - 1];
      assert AddBE(low, n) == AddBE(front[h..], t / 256) + [t % 256];
      var r := AddBE(front, t / 256);
      assert (r + [t % 256])[h..] == r[h..] + [t % 256];
    }
  }

  /** Its high bytes stay as they are if the low bytes do not overflow. */
  lemma {:induction false} AddBEHigh(s: seq<byte>, h: nat, n: nat)
    requires h <= |s| && FromBE(s[h..]) + n < Pow256(|s| - h)
    ensures AddBE(s, n)[..h] == s[..h]
    decreases |s|
  {
    hide Pow256;
    if h == |s| {
      PowNone();
      AddBEZero(s);
    } else {
      var front, last: int := s[..|s| - 1], s[|s| - 1];
      var low := s[h..];
      assert low[..|low| - 1] == front[h..];
      PowNext(|low|);
      NoCarry(FromBE(front[h..]), last, n, Pow256(|low| - 1));
      AddBEHigh(front, h, (n + last) / 256);
      assert AddBE(s, n)[..h] == AddBE(front, (n + last) / 256)[..h];
    }
  }

  lemma NoCarry(f: nat, last: int, n: nat, p: nat)
    requires 0 <= last < 256 && 256 * f + last + n < 256 * p
    ensures f + (n + last) / 256 < p
  {
  }
}
