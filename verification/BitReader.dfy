/** BitReader: a cursor over the bits of a buffer, most significant bit first. */
module BitReaders {
  import opened Bytes

  /** Bit i of the buffer, counting from the most significant bit of the first byte. */
  function BitAt(data: seq<byte>, i: nat): (b: nat)
    requires i < 8 * |data|
    ensures b < 2
  {
    data[i / 8] / Pow2(7 - i % 8) % 2
  }

  /** The number that bits p, p + 1, ..., p + n - 1 spell, most significant first. */
  function BitsValue(data: seq<byte>, p: nat, n: nat): (v: nat)
    requires p + n <= 8 * |data|
    ensures v < Pow2(n)
    decreases n
  {
    if n == 0 then 0 else 2 * BitsValue(data, p, n - 1) + BitAt(data, p + n - 1)
  }

  lemma {:induction false} BitsAppend(data: seq<byte>, p: nat, n: nat, m: nat)
    requires p + n + m <= 8 * |data|
    ensures BitsValue(data, p, n + m) == BitsValue(data, p, n) * Pow2(m) + BitsValue(data, p + n, m)
    decreases m
  {
    hide BitAt;
    if m > 0 {
      BitsAppend(data, p, n, m - 1);
      DoubleProduct(BitsValue(data, p, n), Pow2(m - 1));
      assert BitsValue(data, p, n + m) == 2 * BitsValue(data, p, n + m - 1) + BitAt(data, p + (n + m) - 1);
      assert p + (n + m) - 1 == (p + n) + m - 1;
    } else {
      assert Pow2(0) == 1;
    }
  }

  lemma DoubleProduct(x: int, y: int)
    ensures 2 * (x * y) == x * (2 * y)
  {
  }

  lemma BitOfByte(data: seq<byte>, j: nat, d: nat)
    requires j < |data| && d < 8
    ensures BitAt(data, 8 * j + (7 - d)) == data[j] / Pow2(d) % 2
  {
    hide Pow2;
    ModUnique(8 * j + (7 - d), 8, j, 7 - d);
  }

  /** k bits from within one byte: shift out what follows, mask off what precedes. */
  lemma {:induction false} BitsInByte(data: seq<byte>, j: nat, rem: nat, k: nat)
    requires j < |data| && k <= rem <= 8
    ensures BitsValue(data, 8 * j + (8 - rem), k) == data[j] % Pow2(rem) / Pow2(rem - k)
    decreases k
  {
    hide BitAt, Pow2;
    if k == 0 {
      DivSmall(data[j] % Pow2(rem), Pow2(rem));
    } else {
      BitsInByte(data, j, rem, k - 1);
      BitOfByte(data, j, rem - k);
      assert 8 * j + (8 - rem) + k - 1 == 8 * j + (7 - (rem - k));
      NextBit(data[j], rem, k);
    }
  }

  lemma DivSmall(x: nat, d: nat)
    requires x < d
    ensures x / d == 0
  {
    ModUnique(x, d, 0, x);
  }

  /** One more bit of a number masked to its low rem bits. */
  lemma NextBit(b: nat, rem: nat, k: nat)
    requires 1 <= k <= rem
    ensures b % Pow2(rem) / Pow2(rem - k) == 2 * (b % Pow2(rem) / Pow2(rem - k + 1)) + b / Pow2(rem - k) % 2
  {
    var p, x := Pow2(rem - k), b % Pow2(rem);
    DivTwice(x, p);
    PowAdd(rem - k, k);
    PowAdd(1, k - 1);
    MaskedBit(b, p, Pow2(k - 1));
  }

  lemma {:induction false} PowAdd(a: nat, b: nat)
    ensures Pow2(a + b) == Pow2(a) * Pow2(b)
    decreases b
  {
    if b > 0 {
      PowAdd(a, b - 1);
      assert 2 * (Pow2(a) * Pow2(b - 1)) == Pow2(a) * (2 * Pow2(b - 1));
    }
  }

  lemma DivTwice(x: nat, p: nat)
    requires p > 0
    ensures x / p == 2 * (x / (2 * p)) + x / p % 2
  {
    var q, r := x / p, x % p;
    var h, l := q / 2, q % 2;
    MulAssoc(p, 2, h);
    assert q == 2 * h + l && p * q == p * (2 * h) + p * l;
    assert l == 0 || l == 1;
    ModUnique(x, 2 * p, h, p * l + r);
  }

  /** Masking to a multiple of 2 * p leaves bit p alone. */
  lemma MaskedBit(b: nat, p: nat, t: nat)
    requires p > 0 && t > 0
    ensures p * (2 * t) > 0 && b % (p * (2 * t)) / p % 2 == b / p % 2
  {
    var m := p * (2 * t);
    MulPositive(p, 2 * t);
    var k, x := b / m, b % m;
    var y, r := x / p, x % p;
    var z := (2 * t) * k;
    MulAssoc(p, 2 * t, k);
    assert b == m * k + x == p * z + x;
    MulDistribute(p, z, y);
    ModUnique(b, p, z + y, r);
    MulAssoc(2, t, k);
    EvenPlus(t * k, y);
  }

  lemma EvenPlus(e: int, y: int)
    ensures (2 * e + y) % 2 == y % 2
  {
  }

  lemma MulPositive(x: nat, y: nat)
    requires x > 0 && y > 0
    ensures x * y > 0
  {
  }

  // ---------------------------------------------------------------- the cursor

  /** Moving a cursor on by n bits: all of them, or to the end and failing. */
  function Advance(size: nat, p: nat, n: nat): (r: (bool, nat)) {
    if p + n <= size then (true, p + n) else (false, size)
  }

  datatype Op = ReadOp(n: nat) | SkipOp(n: nat) | SkipIfOp(condition: bool, n: nat) | SkipBytesOp(n: nat)

  /** Reads and skips of no bits, which succeed anywhere. Skipping no bytes does not. */
  predicate Empty(op: Op) {
    (op.ReadOp? || op.SkipOp?) && op.n == 0
  }

  /** What each operation does to the cursor: whether it succeeds, and where the cursor goes. SkipBytes only
      works from a byte boundary before the end, and moves the cursor only if it succeeds. */
  function Move(data: seq<byte>, p: nat, op: Op): (r: (bool, nat))
    requires p <= 8 * |data|
    ensures r.1 <= 8 * |data|
  {
    var size := 8 * |data|;
    match op
    case ReadOp(n) => Advance(size, p, n)
    case SkipOp(n) => Advance(size, p, n)
    case SkipIfOp(condition, n) =>
      if p == size then (false, size)
      else if (BitAt(data, p) == 1) == condition then Advance(size, p + 1, n)
      else (true, p + 1)
    case SkipBytesOp(n) =>
      if p % 8 == 0 && p < size && p + 8 * n <= size then (true, p + 8 * n) else (false, p)
  }

  /** The operation leaves the reader unusable: SkipBytes for more bytes than there are, with at least one
      still to be loaded. */
  predicate Breaks(data: seq<byte>, p: nat, op: Op) {
    op.SkipBytesOp? && p % 8 == 0 && p + 8 < 8 * |data| < p + 8 * op.n
  }

  /** Which of the operations succeed, up to the first that leaves the reader unusable. */
  function Outcomes(data: seq<byte>, p: nat, ops: seq<Op>): (r: seq<bool>)
    requires p <= 8 * |data|
    ensures |r| <= |ops|
    decreases ops
  {
    if ops == [] then []
    else
      var (ok, p') := Move(data, p, ops[0]);
      [ok] + if Breaks(data, p, ops[0]) then [] else Outcomes(data, p', ops[1..])
  }

  /** Once a ReadBits, SkipBits or SkipBitsConditional fails, the reader stays usable, and every later operation
      fails but reads and skips of no bits: SkipBytes, of no bytes too. */
  lemma {:induction false} FailureSticks(data: seq<byte>, p: nat, ops: seq<Op>, i: nat, j: nat)
    requires p <= 8 * |data| && i < j < |ops| && i < |Outcomes(data, p, ops)|
    requires !Outcomes(data, p, ops)[i] && !ops[i].SkipBytesOp?
    ensures |Outcomes(data, p, ops)| == |ops|
    ensures !Empty(ops[j]) ==> !Outcomes(data, p, ops)[j]
    decreases ops
  {
    hide BitAt;
    var (ok, p') := Move(data, p, ops[0]);
    if i > 0 {
      assert !Breaks(data, p, ops[0]);
      FailureSticks(data, p', ops[1..], i - 1, j - 1);
    } else {
      assert !ok && p' == 8 * |data|;
      AtEndAllFail(data, ops[1..], j - 1);
    }
  }

  lemma {:induction false} AtEndAllFail(data: seq<byte>, ops: seq<Op>, j: nat)
    requires j < |ops|
    ensures |Outcomes(data, 8 * |data|, ops)| == |ops|
    ensures !Empty(ops[j]) ==> !Outcomes(data, 8 * |data|, ops)[j]
    decreases ops
  {
    hide BitAt;
    var size := 8 * |data|;
    assert Move(data, size, ops[0]).1 == size;
    if j > 0 {
      AtEndAllFail(data, ops[1..], j - 1);
    } else if |ops| > 1 {
      AtEndAllFail(data, ops[1..], 0);
    }
  }

  // ---------------------------------------------------------------- the reader

  class BitReader {
    const data: seq<byte>
    // The index of the next byte to load, and what is left after the current byte.
    var next: nat
    var bytesLeft: nat
    var currByte: nat
    var numRemaining: nat

    /** Everything but the next-byte index, which only has to be right while there is a byte to load. */
    ghost predicate CountsOk()
      reads this
    {
      && bytesLeft <= |data| && numRemaining <= 8
      && (numRemaining > 0 ==>
            && bytesLeft < |data|
            && currByte == data[|data| - bytesLeft - 1] % Pow2(numRemaining))
      && (bytesLeft > 0 ==> numRemaining > 0)
    }

    ghost predicate Valid()
      reads this
    {
      CountsOk() && (bytesLeft > 0 ==> next == |data| - bytesLeft)
    }

    function BitsAvailable(): nat
      reads this
    {
      8 * bytesLeft + numRemaining
    }

    function BitPosition(): int
      reads this
    {
      8 * |data| - BitsAvailable()
    }

    constructor (data: seq<byte>)
      requires |data| > 0
      ensures Valid() && this.data == data && BitPosition() == 0
    {
      this.data := data;
      next := 0;
      bytesLeft := |data|;
      currByte := 0;
      numRemaining := 0;
      new;
      UpdateCurrByte();
    }

    /** Loads the next byte, if there is one. */
    method UpdateCurrByte()
      requires numRemaining == 0 && bytesLeft <= |data| && (bytesLeft > 0 ==> next == |data| - bytesLeft)
      modifies this
      ensures Valid() && BitsAvailable() == old(BitsAvailable())
    {
      if bytesLeft == 0 {
        return;
      }
      currByte := data[next];
      next := next + 1;
      bytesLeft := bytesLeft - 1;
      numRemaining := 8;
      Powers();
    }

    method ReadBits(numBits: nat) returns (ok: bool, out: nat)
      requires Valid() && numBits <= 64
      modifies this
      ensures Valid()
      ensures (ok, BitPosition()) == Move(data, old(BitPosition()), ReadOp(numBits))
      ensures ok <==> old(BitPosition()) + numBits <= 8 * |data|
      ensures BitPosition() == if ok then old(BitPosition()) + numBits else 8 * |data|
      ensures ok ==> out == BitsValue(data, old(BitPosition()), numBits)
      ensures !ok ==> out == BitsValue(data, old(BitPosition()), 8 * |data| - old(BitPosition()))
    {
      hide BitsValue, Pow2, BitAt;
      out := 0;
      var n: nat := numBits;
      ghost var p := BitPosition();
      BitsNone(data, p);
      while numRemaining != 0 && n != 0
        invariant Valid() && n <= numBits && BitPosition() == p + (numBits - n)
        invariant out == BitsValue(data, p, numBits - n)
        decreases n
      {
        var take := if numRemaining < n then numRemaining else n;
        out := TakeBits(out, take, p, numBits - n);
        n := n - take;
      }
      ok := n == 0;
    }

    /** One turn of the read loop: appends the next `take` bits of the current byte to `sofar`. */
    method TakeBits(sofar: nat, take: nat, ghost p: nat, ghost taken: nat) returns (out: nat)
      requires Valid() && 0 < take <= numRemaining && BitPosition() == p + taken
      requires sofar == BitsValue(data, p, taken)
      modifies this
      ensures Valid() && BitPosition() == p + taken + take
      ensures out == BitsValue(data, p, taken + take)
    {
      hide BitsValue, Pow2, BitAt;
      ghost var b := data[|data| - bytesLeft - 1];
      TakeFromByte(data, p, taken, |data| - bytesLeft - 1, numRemaining, take);
      MaskAgain(b, numRemaining, take);
      out := sofar * Pow2(take) + currByte / Pow2(numRemaining - take);
      numRemaining := numRemaining - take;
      currByte := currByte % Pow2(numRemaining);
      if numRemaining == 0 {
        UpdateCurrByte();
      }
    }

    method SkipBits(numBits: nat) returns (ok: bool)
      requires Valid()
      modifies this
      ensures Valid()
      ensures (ok, BitPosition()) == Move(data, old(BitPosition()), SkipOp(numBits))
      ensures ok <==> old(BitPosition()) + numBits <= 8 * |data|
      ensures BitPosition() == if ok then old(BitPosition()) + numBits else 8 * |data|
    {
      hide BitsValue, Pow2, BitAt;
      var n := numBits;
      if n > numRemaining {
        n := n - numRemaining;
        numRemaining := 0;
        var numBytes := n / 8;
        n := n % 8;
        if bytesLeft < numBytes {
          bytesLeft := 0;
          return false;
        }
        bytesLeft := bytesLeft - numBytes;
        next := next + numBytes;
        UpdateCurrByte();
        if numRemaining == 0 {
          return n == 0;
        }
      }
      var notNeeded;
      ok, notNeeded := ReadBits(n);
    }

    method SkipBitsConditional(condition: bool, numBits: nat) returns (ok: bool)
      requires Valid()
      modifies this
      ensures Valid()
      ensures (ok, BitPosition()) == Move(data, old(BitPosition()), SkipIfOp(condition, numBits))
      ensures var p, size := old(BitPosition()), 8 * |data|;
              if p == size then !ok && BitPosition() == size
              else
                var bit := data[p / 8] / Pow2(7 - p % 8) % 2;
                var q := p + 1 + if (bit == 1) == condition then numBits else 0;
                ok == (q <= size) && BitPosition() == if ok then q else size
    {
      var bit;
      ok, bit := ReadBits(1);
      if !ok {
        return false;
      }
      BitsOne(data, old(BitPosition()));
      if (bit != 0) == condition {
        ok := SkipBits(numBits);
      }
    }

    /** Skips whole bytes from a byte boundary that is not the end. Failing for want of bytes it has already
        moved the next-byte index, which only does no harm if no byte is left to load. */
    method SkipBytes(numBytes: nat) returns (ok: bool)
      requires Valid()
      modifies this
      ensures CountsOk()
      ensures var p, op := old(BitPosition()), SkipBytesOp(numBytes);
              (ok, BitPosition()) == Move(data, p, op) && (Valid() <==> !Breaks(data, p, op))
      ensures var p, size := old(BitPosition()), 8 * |data|;
              && (ok <==> p % 8 == 0 && p < size && p + 8 * numBytes <= size)
              && BitPosition() == p + (if ok then 8 * numBytes else 0)
              && (Valid() <==> ok || p % 8 != 0 || p + 8 >= size)
    {
      if numRemaining != 8 {
        return false;
      }
      if numBytes == 0 {
        return true;
      }
      next := next + numBytes - 1;
      if numBytes > bytesLeft + 1 {
        return false;
      }
      bytesLeft := bytesLeft - (numBytes - 1);
      numRemaining := 0;
      UpdateCurrByte();
      return true;
    }
  }

  lemma Powers()
    ensures Pow2(0) == 1 && Pow2(1) == 2 && Pow2(8) == 256
  {
  }

  lemma BitsNone(data: seq<byte>, p: nat)
    requires p <= 8 * |data|
    ensures BitsValue(data, p, 0) == 0
  {
  }

  lemma BitsOne(data: seq<byte>, p: nat)
    requires p < 8 * |data|
    ensures BitsValue(data, p, 1) == BitAt(data, p)
  {
    hide BitAt;
    assert BitsValue(data, p, 0) == 0;
  }

  /** One turn of the read loop: `take` more bits from byte j, of which rem bits are unread. */
  lemma TakeFromByte(data: seq<byte>, p: nat, taken: nat, j: nat, rem: nat, take: nat)
    requires j < |data| && take <= rem <= 8 && p + taken == 8 * j + (8 - rem)
    ensures BitsValue(data, p, taken + take)
            == BitsValue(data, p, taken) * Pow2(take) + data[j] % Pow2(rem) / Pow2(rem - take)
  {
    hide BitsValue;
    BitsAppend(data, p, taken, take);
    BitsInByte(data, j, rem, take);
  }

  /** Masking off the bits just read leaves the byte masked to what is still unread. */
  lemma MaskAgain(b: nat, rem: nat, take: nat)
    requires take <= rem
    ensures b % Pow2(rem) % Pow2(rem - take) == b % Pow2(rem - take)
  {
    hide Pow2;
    PowAdd(rem - take, take);
    ModOfMod(b, Pow2(rem - take), Pow2(take), b / Pow2(rem), b % Pow2(rem));
  }
}
