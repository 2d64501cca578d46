/** What BufferWriter writes and BufferReader reads back: numbers in network byte order and byte vectors. */
module BufferCodec {
  import opened Bytes
  import opened Options

  // ---------------------------------------------------------------- one number

  function Half(n: nat): (h: nat)
    requires n > 0
    ensures 2 * h == Pow256(n)
  {
    128 * Pow256(n - 1)
  }

  /** v is a value of an n-byte integer of that signedness. */
  predicate Fits(v: int, signed: bool, n: nat)
    requires n > 0
  {
    if signed then -(Half(n) as int) <= v < Half(n) else 0 <= v < Pow256(n)
  }

  /** The low n bytes of v's two's complement representation. */
  function EncodeInt(v: int, n: nat): (s: seq<byte>)
    ensures |s| == n
  {
    ToBE(v % Pow256(n), n)
  }

  function DecodeInt(signed: bool, s: seq<byte>): int
    requires s != []
  {
    if signed && s[0] >= 128 then FromBE(s) - Pow256(|s|) else FromBE(s)
  }

  lemma {:induction false} TopByte(s: seq<byte>)
    requires s != []
    ensures s[0] * Pow256(|s| - 1) <= FromBE(s) < (s[0] as int + 1) * Pow256(|s| - 1)
  {
    hide Pow256;
    if |s| == 1 {
      PowNone();
      assert FromBE(s[..0]) == 0;
    } else {
      var front, last := s[..|s| - 1], s[|s| - 1];
      TopByte(front);
      PowNext(|s| - 1);
      ScaleBounds(s[0], Pow256(|s| - 2), FromBE(front), last);
    }
  }

  lemma ScaleBounds(t: nat, q: nat, f: int, b: int)
    requires t * q <= f < (t + 1) * q && 0 <= b < 256
    ensures t * (256 * q) <= 256 * f + b < (t + 1) * (256 * q)
  {
    var x, y := t * q, (t + 1) * q;
    assert t * (256 * q) == 256 * x && (t + 1) * (256 * q) == 256 * y;
  }

  lemma SignBit(s: seq<byte>)
    requires s != []
    ensures s[0] >= 128 <==> FromBE(s) >= Half(|s|)
  {
    TopByte(s);
    MulMonotone(128, s[0], Pow256(|s| - 1));
    MulMonotone(s[0] as int + 1, 128, Pow256(|s| - 1));
  }

  lemma MulMonotone(x: int, y: int, p: nat)
    ensures x <= y ==> x * p <= y * p
  {
  }

  lemma DecodeFits(signed: bool, s: seq<byte>)
    requires s != []
    ensures Fits(DecodeInt(signed, s), signed, |s|)
  {
    SignBit(s);
  }

  /** Reading n bytes gives back the value they were written from exactly if it fits in n bytes. */
  lemma NumberReadBack(v: int, signed: bool, n: nat)
    requires n > 0
    ensures DecodeInt(signed, EncodeInt(v, n)) == v <==> Fits(v, signed, n)
  {
    var m, s := Pow256(n), EncodeInt(v, n);
    DecodeFits(signed, s);
    FromToBE(v % m, n);
    SmallMod(v % m, m);
    SignBit(s);
    assert FromBE(s) == v % m;
    if Fits(v, signed, n) {
      if v >= 0 {
        SmallMod(v, m);
      } else {
        ModUnique(v, m, -1, v + m);
      }
    }
  }

  lemma SmallMod(v: nat, m: nat)
    requires v < m
    ensures v % m == v
  {
    ModUnique(v, m, 0, v);
  }

  /** Writing a number back reproduces the bytes it was read from. */
  lemma NumberWriteBack(signed: bool, s: seq<byte>)
    requires s != []
    ensures EncodeInt(DecodeInt(signed, s), |s|) == s
  {
    var m, v := Pow256(|s|), DecodeInt(signed, s);
    if signed && s[0] >= 128 {
      ModUnique(v, m, -1, FromBE(s));
    } else {
      SmallMod(v, m);
    }
    ToFromBE(s);
  }

  /** What the bytes stand for: written, v modulo 256^n; read, that number, or for a signed type the value of the
      same residue between -256^n / 2 and 256^n / 2. */
  lemma TwosComplement(v: int, s: seq<byte>)
    requires s != []
    ensures FromBE(EncodeInt(v, |s|)) == v % Pow256(|s|)
    ensures DecodeInt(false, s) == FromBE(s)
    ensures DecodeInt(true, s) == FromBE(s) - if 2 * FromBE(s) >= Pow256(|s|) then Pow256(|s|) else 0
  {
    hide Pow256, FromBE, ToBE;
    var m := Pow256(|s|);
    FromToBE(v % m, |s|);
    SmallMod(v % m, m);
    SignBit(s);
  }

  lemma {:induction false} LowBytes(v: nat, m: nat, n: nat)
    requires n <= m
    ensures ToBE(v, m)[m - n..] == ToBE(v, n)
    decreases n
  {
    if n > 0 {
      LowBytes(v / 256, m - 1, n - 1);
      var high, low := ToBE(v / 256, m - 1), [v % 256];
      assert (high + low)[m - n..] == high[m - n..] + low;
    }
  }

  /** The last n of the bytes of v as a 64-bit number are its n-byte encoding, negative values included. */
  lemma LastBytesOf64(v: int, n: nat)
    requires n <= 8
    ensures ToBE(v % TWO_64, 8)[8 - n..] == EncodeInt(v, n)
  {
    var p, u := Pow256(n), v % TWO_64;
    LowBytes(u, 8, n);
    PowSum(n, 8 - n);
    Pow256Of8();
    ModOfMod(v, p, Pow256(8 - n), v / TWO_64, u);
    FromToBE(u, n);
    ToFromBE(ToBE(u, n));
  }

  lemma {:induction false} PowSum(a: nat, b: nat)
    ensures Pow256(a + b) == Pow256(a) * Pow256(b)
    decreases b
  {
    if b > 0 {
      hide Pow256;
      PowSum(a, b - 1);
      PowNext(b);
      PowNext(a + b);
      Scale(Pow256(a), Pow256(b - 1));
    } else {
      PowNone();
    }
  }

  lemma Scale(x: int, y: int)
    ensures 256 * (x * y) == x * (256 * y)
  {
  }

  // ---------------------------------------------------------------- sequences of items

  datatype Item = Number(v: int, signed: bool, n: nat) | Vector(bytes: seq<byte>)

  datatype Kind = NumberKind(signed: bool, n: nat) | VectorKind(count: nat)

  predicate LegalKind(k: Kind) {
    k.NumberKind? ==> 1 <= k.n <= 8
  }

  function KindOf(item: Item): Kind {
    match item
    case Number(_, signed, n) => NumberKind(signed, n)
    case Vector(bytes) => VectorKind(|bytes|)
  }

  predicate Legal(item: Item) {
    item.Number? ==> 1 <= item.n <= 8 && Fits(item.v, item.signed, item.n)
  }

  function Encode(item: Item): seq<byte> {
    match item
    case Number(v, _, n) => EncodeInt(v, n)
    case Vector(bytes) => bytes
  }

  function Size(k: Kind): nat {
    match k
    case NumberKind(_, n) => n
    case VectorKind(count) => count
  }

  /** One read from the bytes that are left: the item and what is left after it, if there are enough. */
  function Decode(k: Kind, s: seq<byte>): Option<(Item, seq<byte>)>
    requires LegalKind(k)
  {
    if |s| < Size(k) then None
    else
      match k
      case NumberKind(signed, n) => Some((Number(DecodeInt(signed, s[..n]), signed, n), s[n..]))
      case VectorKind(count) => Some((Vector(s[..count]), s[count..]))
  }

  lemma DecodeEncode(item: Item, rest: seq<byte>)
    requires Legal(item)
    ensures Decode(KindOf(item), Encode(item) + rest) == Some((item, rest))
  {
    var e := Encode(item);
    assert (e + rest)[..|e|] == e && (e + rest)[|e|..] == rest;
    if item.Number? {
      NumberReadBack(item.v, item.signed, item.n);
    }
  }

  lemma EncodeDecode(k: Kind, s: seq<byte>)
    requires LegalKind(k) && Decode(k, s).Some?
    ensures var (item, rest) := Decode(k, s).value;
            Legal(item) && KindOf(item) == k && Encode(item) + rest == s
  {
    if k.NumberKind? {
      NumberWriteBack(k.signed, s[..k.n]);
      DecodeFits(k.signed, s[..k.n]);
    }
  }

  function EncodeAll(items: seq<Item>): seq<byte> {
    if items == [] then [] else Encode(items[0]) + EncodeAll(items[1..])
  }

  function Kinds(items: seq<Item>): (ks: seq<Kind>)
    ensures |ks| == |items|
  {
    if items == [] then [] else [KindOf(items[0])] + Kinds(items[1..])
  }

  function DecodeAll(ks: seq<Kind>, s: seq<byte>): (r: Option<(seq<Item>, seq<byte>)>)
    requires forall k <- ks :: LegalKind(k)
    decreases ks
  {
    if ks == [] then Some(([], s))
    else
      match Decode(ks[0], s)
      case None => None
      case Some((item, rest)) =>
        match DecodeAll(ks[1..], rest)
        case None => None
        case Some((items, last)) => Some(([item] + items, last))
  }

  /** Whatever is appended is read back by the matching reads, which stop where the appends stopped. */
  lemma {:induction false} ReadBack(items: seq<Item>, rest: seq<byte>)
    requires forall item <- items :: Legal(item)
    ensures (forall k <- Kinds(items) :: LegalKind(k))
            && DecodeAll(Kinds(items), EncodeAll(items) + rest) == Some((items, rest))
    decreases items
  {
    hide EncodeInt, DecodeInt, Fits, Encode, Decode;
    if items == [] {
      assert EncodeAll(items) + rest == rest;
    } else {
      var ks := Kinds(items);
      ReadBack(items[1..], rest);
      assert forall k <- ks :: k == ks[0] || k in ks[1..];
      DecodeEncode(items[0], EncodeAll(items[1..]) + rest);
      Associative(Encode(items[0]), EncodeAll(items[1..]), rest);
      assert ks[1..] == Kinds(items[1..]);
      assert [items[0]] + items[1..] == items;
    }
  }

  /** Conversely, whatever a sequence of reads accepts is what appending the values read would write. */
  lemma {:induction false} WriteBack(ks: seq<Kind>, s: seq<byte>)
    requires (forall k <- ks :: LegalKind(k)) && DecodeAll(ks, s).Some?
    ensures var (items, rest) := DecodeAll(ks, s).value;
            (forall item <- items :: Legal(item)) && Kinds(items) == ks && EncodeAll(items) + rest == s
    decreases ks
  {
    hide EncodeInt, DecodeInt, Fits, Encode, Decode;
    if ks == [] {
      assert EncodeAll([]) + s == s;
    } else {
      var (item, next) := Decode(ks[0], s).value;
      EncodeDecode(ks[0], s);
      WriteBack(ks[1..], next);
      var (items, rest) := DecodeAll(ks[1..], next).value;
      var all := [item] + items;
      assert all[1..] == items;
      Associative(Encode(item), EncodeAll(items), rest);
    }
  }

  function TotalSize(ks: seq<Kind>): nat {
    if ks == [] then 0 else Size(ks[0]) + TotalSize(ks[1..])
  }

  /** The reads all succeed exactly if there are enough bytes for all of them. */
  lemma {:induction false} EnoughBytes(ks: seq<Kind>, s: seq<byte>)
    requires forall k <- ks :: LegalKind(k)
    ensures DecodeAll(ks, s).Some? <==> TotalSize(ks) <= |s|
    decreases ks
  {
    hide DecodeInt;
    if ks != [] && |s| >= Size(ks[0]) {
      EnoughBytes(ks[1..], s[Size(ks[0])..]);
    }
  }
}
