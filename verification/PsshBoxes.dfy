/** The 'pssh' box: its layout, and parsing as a function. */
module PsshBoxes {
  import opened Bytes
  import opened Options

  const TWO_32: nat := 0x1_0000_0000
  const FOURCC_PSSH: nat := 0x70737368
  const FLAGS: nat := 0x100_0000

  /** The fields of a ProtectionSystemSpecificInfo. */
  datatype Info = Info(version: byte, systemId: seq<byte>, keyIds: seq<seq<byte>>, psshData: seq<byte>)

  /** What the setters of the class allow, and CreateBox asks for. */
  predicate Settable(x: Info) {
    x.version < 2 && |x.systemId| == 16 && forall k <- x.keyIds :: |k| == 16
  }

  datatype Box = Box(info: Info, flags: nat)

  function Join(parts: seq<seq<byte>>): seq<byte> {
    if parts == [] then [] else parts[0] + Join(parts[1..])
  }

  function KeyPart(x: Info): seq<byte> {
    if x.version == 1 then ToBE(|x.keyIds|, 4) + Join(x.keyIds) else []
  }

  function BoxSize(x: Info): nat {
    32 + (if x.version == 1 then 4 + 16 * |x.keyIds| else 0) + |x.psshData|
  }

  function DataPart(data: seq<byte>): seq<byte> {
    ToBE(|data|, 4) + data
  }

  function BodyPart(x: Info): seq<byte> {
    x.systemId + (KeyPart(x) + DataPart(x.psshData))
  }

  /** The layout of a box. */
  function BoxBytes(b: Box): seq<byte> {
    ToBE(BoxSize(b.info), 4)
    + (ToBE(FOURCC_PSSH, 4) + (ToBE(b.info.version as int * FLAGS + b.flags, 4) + BodyPart(b.info)))
  }

  /** A box whose layout determines it: a version 0 box has no room for key ids. */
  predicate Good(b: Box) {
    && Settable(b.info) && b.flags < FLAGS && BoxSize(b.info) < TWO_32
    && (b.info.version == 0 ==> b.info.keyIds == [])
  }

  // ---------------------------------------------------------------- parsing

  function TakeInt(s: seq<byte>): (r: Option<(nat, seq<byte>)>)
    ensures r.Some? ==> r.value.0 < Pow256(4)
  {
    if |s| < 4 then None else Some((FromBE(s[..4]), s[4..]))
  }

  function TakeKeys(count: nat, s: seq<byte>): (r: Option<(seq<seq<byte>>, seq<byte>)>)
    decreases count
  {
    if count == 0 then Some(([], s))
    else if |s| < 16 then None
    else
      match TakeKeys(count - 1, s[16..])
      case None => None
      case Some((keys, rest)) => Some(([s[..16]] + keys, rest))
  }

  function TakeKeyPart(version: byte, s: seq<byte>): Option<(seq<seq<byte>>, seq<byte>)> {
    if version != 1 then Some(([], s))
    else
      match TakeInt(s)
      case None => None
      case Some((count, t)) => TakeKeys(count, t)
  }

  /** The data must fill what is left of the box. */
  function TakeData(s: seq<byte>): Option<seq<byte>> {
    match TakeInt(s)
    case None => None
    case Some((n, data)) => if n == |data| then Some(data) else None
  }

  function ParseBody(version: byte, s: seq<byte>): Option<Info> {
    if |s| < 16 then None
    else
      match TakeKeyPart(version, s[16..])
      case None => None
      case Some((keys, rest)) =>
        match TakeData(rest)
        case None => None
        case Some(data) => Some(Info(version, s[..16], keys, data))
  }

  function ParseVersion(s: seq<byte>): Option<Box> {
    match TakeInt(s)
    case None => None
    case Some((word, t)) =>
      if word / FLAGS >= 2 then None
      else
        match ParseBody(word / FLAGS, t)
        case None => None
        case Some(info) => Some(Box(info, word % FLAGS))
  }

  /** The box that fills the whole of `data`, and its flags. */
  function ParseBox(data: seq<byte>): Option<Box> {
    match TakeInt(data)
    case None => None
    case Some((size, s)) =>
      match TakeInt(s)
      case None => None
      case Some((boxType, t)) =>
        if size != |data| || boxType != FOURCC_PSSH then None else ParseVersion(t)
  }

  // ---------------------------------------------------------------- parsing accepts exactly the layout

  lemma IntThen(v: nat, s: seq<byte>)
    requires v < TWO_32
    ensures TakeInt(ToBE(v, 4) + s) == Some((v, s))
  {
    var e := ToBE(v, 4);
    assert (e + s)[..4] == e && (e + s)[4..] == s;
    FromToBE(v, 4);
    assert Pow256(4) == TWO_32;
    ModUnique(v, TWO_32, 0, v);
  }

  lemma IntBack(s: seq<byte>)
    requires |s| >= 4
    ensures TakeInt(s).Some? && TakeInt(s).value.0 < TWO_32
    ensures s == ToBE(TakeInt(s).value.0, 4) + TakeInt(s).value.1
  {
    ToFromBE(s[..4]);
    assert Pow256(4) == TWO_32;
  }

  lemma {:induction false} JoinSize(keys: seq<seq<byte>>)
    requires forall k <- keys :: |k| == 16
    ensures |Join(keys)| == 16 * |keys|
  {
    if keys != [] {
      JoinSize(keys[1..]);
    }
  }

  lemma {:induction false} KeysThen(keys: seq<seq<byte>>, rest: seq<byte>)
    requires forall k <- keys :: |k| == 16
    ensures TakeKeys(|keys|, Join(keys) + rest) == Some((keys, rest))
  {
    if keys == [] {
      assert Join(keys) + rest == rest;
    } else {
      KeysThen(keys[1..], rest);
      Associative(keys[0], Join(keys[1..]), rest);
      KeyThen(keys[0], |keys| - 1, Join(keys[1..]) + rest, keys[1..], rest);
      assert [keys[0]] + keys[1..] == keys;
    }
  }

  lemma KeyThen(key: seq<byte>, count: nat, s: seq<byte>, keys: seq<seq<byte>>, rest: seq<byte>)
    requires |key| == 16 && TakeKeys(count, s) == Some((keys, rest))
    ensures TakeKeys(count + 1, key + s) == Some(([key] + keys, rest))
  {
    assert (key + s)[..16] == key && (key + s)[16..] == s;
  }

  lemma {:induction false} KeysBack(count: nat, s: seq<byte>)
    requires TakeKeys(count, s).Some?
    ensures var (keys, rest) := TakeKeys(count, s).value;
            |keys| == count && (forall k <- keys :: |k| == 16) && s == Join(keys) + rest
    decreases count
  {
    if count > 0 {
      KeysBack(count - 1, s[16..]);
      var (keys, rest) := TakeKeys(count - 1, s[16..]).value;
      Associative(s[..16], Join(keys), rest);
      var all := [s[..16]] + keys;
      assert all[1..] == keys;
    }
  }

  lemma BodyThen(x: Info)
    requires Good(Box(x, 0))
    ensures ParseBody(x.version, BodyPart(x)) == Some(x)
    ensures |BodyPart(x)| == BoxSize(x) - 12
  {
    hide TakeInt, TakeKeys, ToBE;
    var data := DataPart(x.psshData);
    JoinSize(x.keyIds);
    IntThen(|x.psshData|, x.psshData);
    var s := BodyPart(x);
    assert s[..16] == x.systemId && s[16..] == KeyPart(x) + data;
    if x.version == 1 {
      Associative(ToBE(|x.keyIds|, 4), Join(x.keyIds), data);
      IntThen(|x.keyIds|, Join(x.keyIds) + data);
      KeysThen(x.keyIds, data);
    } else {
      assert KeyPart(x) + data == data;
    }
  }

  lemma BodyBack(version: byte, s: seq<byte>)
    requires version < 2 && ParseBody(version, s).Some? && |s| < TWO_32 - 12
    ensures var x := ParseBody(version, s).value;
            x.version == version && Good(Box(x, 0)) && s == BodyPart(x) && BoxSize(x) == |s| + 12
  {
    hide TakeInt, TakeKeys, ToBE;
    var x := ParseBody(version, s).value;
    var t := s[16..];
    var (keys, rest) := TakeKeyPart(version, t).value;
    DataBack(rest);
    if version == 1 {
      KeyPartBack(t);
      Associative(ToBE(|keys|, 4), Join(keys), rest);
      JoinSize(keys);
    } else {
      assert KeyPart(x) + rest == rest;
    }
    assert s == s[..16] + t;
  }

  lemma DataBack(s: seq<byte>)
    requires TakeData(s).Some?
    ensures s == DataPart(TakeData(s).value)
  {
    if |s| >= 4 {
      IntBack(s);
    }
  }

  lemma KeyPartBack(s: seq<byte>)
    requires TakeKeyPart(1, s).Some?
    ensures var (keys, rest) := TakeKeyPart(1, s).value;
            |keys| < TWO_32 && (forall k <- keys :: |k| == 16) && s == ToBE(|keys|, 4) + (Join(keys) + rest)
  {
    hide TakeKeys;
    if |s| >= 4 {
      IntBack(s);
      var (count, t) := TakeInt(s).value;
      KeysBack(count, t);
    }
  }

  lemma SplitWord(version: nat, flags: nat)
    requires flags < FLAGS
    ensures (version * FLAGS + flags) / FLAGS == version && (version * FLAGS + flags) % FLAGS == flags
  {
    ModUnique(version * FLAGS + flags, FLAGS, version, flags);
  }

  lemma BoxThen(b: Box)
    requires Good(b)
    ensures ParseBox(BoxBytes(b)) == Some(b) && |BoxBytes(b)| == BoxSize(b.info)
  {
    hide TakeInt, ParseBody, ToBE;
    var word := b.info.version as int * FLAGS + b.flags;
    BodyThen(b.info);
    SplitWord(b.info.version, b.flags);
    var body := BodyPart(b.info);
    IntThen(word, body);
    IntThen(FOURCC_PSSH, ToBE(word, 4) + body);
    IntThen(BoxSize(b.info), ToBE(FOURCC_PSSH, 4) + (ToBE(word, 4) + body));
  }

  lemma VersionBack(s: seq<byte>)
    requires ParseVersion(s).Some? && |s| < TWO_32 - 8
    ensures var b := ParseVersion(s).value;
            && Good(b) && BoxSize(b.info) == |s| + 8
            && s == ToBE(b.info.version as int * FLAGS + b.flags, 4) + BodyPart(b.info)
  {
    hide ParseBody, ToBE, FromBE, BodyPart, BoxSize;
    if |s| >= 4 {
      IntBack(s);
      var (word, body) := TakeInt(s).value;
      BodyBack(word / FLAGS, body);
    }
  }

  lemma BoxBack(data: seq<byte>)
    requires ParseBox(data).Some?
    ensures var b := ParseBox(data).value; Good(b) && data == BoxBytes(b)
  {
    hide ParseVersion, ToBE, FromBE, Good, BodyPart, BoxSize;
    if |data| >= 8 {
      IntBack(data);
      IntBack(data[4..]);
      VersionBack(data[4..][4..]);
    }
  }

  /** Parse accepts exactly the well-formed boxes, and finds the only fields they can have. */
  lemma ParseExact(data: seq<byte>, b: Box)
    ensures ParseBox(data) == Some(b) <==>
              var x := b.info;
              && ((x.version == 0 && x.keyIds == []) || x.version == 1)
              && |x.systemId| == 16 && (forall k <- x.keyIds :: |k| == 16)
              && b.flags < 0x100_0000
              && data == BoxBytes(b) && |data| < 0x1_0000_0000
  {
    hide ParseBox, BoxBytes, BoxSize;
    if ParseBox(data) == Some(b) {
      BoxBack(data);
      BoxThen(b);
    }
    LayoutSize(b);
    if Good(b) && data == BoxBytes(b) {
      BoxThen(b);
    }
  }

  lemma LayoutSize(b: Box)
    ensures |b.info.systemId| == 16 && (forall k <- b.info.keyIds :: |k| == 16) ==> |BoxBytes(b)| == BoxSize(b.info)
  {
    hide ToBE, Join;
    if |b.info.systemId| == 16 && (forall k <- b.info.keyIds :: |k| == 16) {
      JoinSize(b.info.keyIds);
    }
  }

  // ---------------------------------------------------------------- the layout, field by field

  /** The bytes of a 32-bit number in network byte order. */
  lemma WordBytes(a: byte, b: byte, c: byte, d: byte)
    ensures ToBE(256 * (256 * (256 * a as int + b) + c) + d, 4) == [a, b, c, d]
  {
    var x: nat := a;
    var y: nat := 256 * x + b;
    var z: nat := 256 * y + c;
    NextByte(0, a, 0);
    NextByte(x, b, 1);
    NextByte(y, c, 2);
    NextByte(z, d, 3);
    assert ToBE(x, 1) == [a];
    assert ToBE(y, 2) == [a, b];
    assert ToBE(z, 3) == [a, b, c];
  }

  lemma NextByte(v: nat, d: byte, n: nat)
    ensures ToBE(256 * v + d, n + 1) == ToBE(v, n) + [d]
  {
    assert (256 * v + d) / 256 == v && (256 * v + d) % 256 == d;
  }

  /** The fields that every box starts with: size, 'pssh', version, flags, system id. */
  lemma HeaderFields(b: Box, s: seq<byte>)
    requires Good(b) && s == BoxBytes(b)
    ensures |s| >= 32 && FromBE(s[0..4]) == |s|
    ensures s[4..8] == [0x70, 0x73, 0x73, 0x68]
    ensures s[8] == b.info.version
    ensures 0x1_0000 * s[9] as int + 0x100 * s[10] as int + s[11] == b.flags
    ensures s[12..28] == b.info.systemId
    ensures s[28..] == KeyPart(b.info) + DataPart(b.info.psshData)
  {
    hide ToBE, FromBE, KeyPart, DataPart, ParseBox, Good;
    BoxThen(b);
    GoodBounds(b);
    var n, word := BoxSize(b.info), b.info.version as int * FLAGS + b.flags;
    var rest := KeyPart(b.info) + DataPart(b.info.psshData);
    WordBack(n);
    VersionWord(b.info.version, b.flags, word);
    WordBytes(0x70, 0x73, 0x73, 0x68);
    HeaderSlices(ToBE(n, 4), ToBE(FOURCC_PSSH, 4), ToBE(word, 4), b.info.systemId, rest);
  }

  lemma GoodBounds(b: Box)
    requires Good(b)
    ensures 32 <= BoxSize(b.info) < TWO_32 && b.info.version < 2 && b.flags < FLAGS && |b.info.systemId| == 16
  {
  }

  /** The version is the first byte of its word, the flags are the other three. */
  lemma VersionWord(version: byte, flags: nat, word: nat)
    requires version < 2 && flags < FLAGS && word == version as int * FLAGS + flags
    ensures var w := ToBE(word, 4);
            w[0] == version && 0x1_0000 * w[1] as int + 0x100 * w[2] as int + w[3] == flags
  {
    hide ToBE;
    var c, d := flags / 256 % 256, flags % 256;
    var b := flags / 256 / 256;
    assert flags == 256 * (256 * b + c) + d;
    WordBytes(version, b, c, d);
  }

  lemma WordBack(v: nat)
    requires v < TWO_32
    ensures FromBE(ToBE(v, 4)) == v
  {
    FromToBE(v, 4);
    assert Pow256(4) == TWO_32;
    Below(v);
  }

  lemma HeaderSlices(a: seq<byte>, b: seq<byte>, c: seq<byte>, d: seq<byte>, e: seq<byte>)
    requires |a| == |b| == |c| == 4 && |d| == 16
    ensures var s := a + (b + (c + (d + e)));
            s[0..4] == a && s[4..8] == b && s[8] == c[0] && s[9] == c[1] && s[10] == c[2] && s[11] == c[3]
            && s[12..28] == d && s[28..] == e
  {
  }

  /** What follows the system id: in version 1 the number of key ids and the key ids, 16 bytes each, and then the
      size of the data and the data, up to the end of the box. */
  lemma BodyFields(x: Info)
    requires Good(Box(x, 0))
    ensures var t := KeyPart(x) + DataPart(x.psshData);
            var y := if x.version == 1 then 4 + 16 * |x.keyIds| else 0;
            && y + 4 <= |t|
            && FromBE(t[y..y + 4]) == |x.psshData|
            && t[y + 4..] == x.psshData
            && (x.version == 1 ==> FromBE(t[0..4]) == |x.keyIds|)
  {
    hide ToBE, FromBE, Join;
    JoinSize(x.keyIds);
    var n, m := |x.keyIds|, |x.psshData|;
    WordBack(m);
    if x.version == 1 {
      WordBack(n);
      FourParts(ToBE(n, 4), Join(x.keyIds), ToBE(m, 4), x.psshData);
    } else {
      FourParts([], [], ToBE(m, 4), x.psshData);
    }
  }

  lemma FourParts(a: seq<byte>, b: seq<byte>, c: seq<byte>, d: seq<byte>)
    ensures var t, y := (a + b) + (c + d), |a| + |b|;
            t[0..|a|] == a && t[y..y + |c|] == c && t[y + |c|..] == d
  {
    var t, y := (a + b) + (c + d), |a| + |b|;
    assert t[y..] == c + d;
    assert (c + d)[..|c|] == c && (c + d)[|c|..] == d;
  }

  /** Key id k stands 4 + 16 * k bytes after the system id. */
  lemma {:induction false} KeyField(x: Info, k: nat)
    requires Good(Box(x, 0)) && x.version == 1 && k < |x.keyIds|
    ensures var t, y := KeyPart(x), 4 + 16 * k; y + 16 <= |t| && t[y..y + 16] == x.keyIds[k]
  {
    hide ToBE;
    JoinAt(x.keyIds, k);
    JoinSize(x.keyIds);
    var a, b := ToBE(|x.keyIds|, 4), Join(x.keyIds);
    assert (a + b)[4 + 16 * k..4 + 16 * k + 16] == b[16 * k..16 * k + 16];
  }

  lemma {:induction false} JoinAt(keys: seq<seq<byte>>, k: nat)
    requires (forall key <- keys :: |key| == 16) && k < |keys|
    ensures 16 * k + 16 <= |Join(keys)| && Join(keys)[16 * k..16 * k + 16] == keys[k]
    decreases k
  {
    JoinSize(keys);
    if k == 0 {
      assert Join(keys)[0..16] == keys[0];
    } else {
      JoinAt(keys[1..], k - 1);
      var rest := Join(keys[1..]);
      assert Join(keys)[16 * k..16 * k + 16] == rest[16 * (k - 1)..16 * (k - 1) + 16];
    }
  }

  // ---------------------------------------------------------------- several boxes

  function BoxesBytes(bs: seq<Box>): seq<byte> {
    if bs == [] then [] else BoxBytes(bs[0]) + BoxesBytes(bs[1..])
  }

  /** The box at the start of `data`, as long as its size field says, and what follows it. */
  function NextBox(data: seq<byte>): (r: Option<(Box, seq<byte>)>)
    ensures r.Some? ==> |r.value.1| < |data|
  {
    match TakeInt(data)
    case None => None
    case Some((size, _)) =>
      if size < 4 || |data| < size then None
      else
        match ParseBox(data[..size])
        case None => None
        case Some(b) => Some((b, data[size..]))
  }

  /** The boxes that follow one another in `data`. */
  function ParseAll(data: seq<byte>): Option<seq<Box>>
    decreases |data|
  {
    if data == [] then Some([])
    else
      match NextBox(data)
      case None => None
      case Some((b, rest)) =>
        match ParseAll(rest)
        case None => None
        case Some(bs) => Some([b] + bs)
  }

  lemma NextThen(b: Box, rest: seq<byte>)
    requires Good(b)
    ensures NextBox(BoxBytes(b) + rest) == Some((b, rest)) && BoxBytes(b) != []
  {
    hide ParseBox, TakeInt;
    BoxThen(b);
    var n, s := BoxSize(b.info), BoxBytes(b)[4..];
    assert BoxBytes(b) == ToBE(n, 4) + s;
    Associative(ToBE(n, 4), s, rest);
    IntThen(n, s + rest);
    var data := BoxBytes(b) + rest;
    assert data[..n] == BoxBytes(b) && data[n..] == rest;
  }

  lemma NextBack(data: seq<byte>)
    requires NextBox(data).Some?
    ensures var (b, rest) := NextBox(data).value; Good(b) && data == BoxBytes(b) + rest
  {
    hide ParseBox, TakeInt, Good, BoxBytes;
    var size := TakeInt(data).value.0;
    BoxBack(data[..size]);
    assert data == data[..size] + data[size..];
  }

  /** ParseBoxes accepts exactly the sequences of well-formed boxes, and finds the only boxes they can be. */
  lemma {:induction false} ParseAllExact(data: seq<byte>, bs: seq<Box>)
    ensures ParseAll(data) == Some(bs) <==> (forall b <- bs :: Good(b)) && data == BoxesBytes(bs)
    decreases |data|
  {
    if ParseAll(data) == Some(bs) {
      AllBack(data, bs);
    }
    if (forall b <- bs :: Good(b)) && data == BoxesBytes(bs) {
      AllThen(bs);
    }
  }

  lemma {:induction false} AllThen(bs: seq<Box>)
    requires forall b <- bs :: Good(b)
    ensures ParseAll(BoxesBytes(bs)) == Some(bs)
  {
    hide NextBox, BoxBytes, Good;
    if bs != [] {
      AllThen(bs[1..]);
      NextThen(bs[0], BoxesBytes(bs[1..]));
      assert [bs[0]] + bs[1..] == bs;
    }
  }

  lemma {:induction false} AllBack(data: seq<byte>, bs: seq<Box>)
    requires ParseAll(data) == Some(bs)
    ensures (forall b <- bs :: Good(b)) && data == BoxesBytes(bs)
    decreases |data|
  {
    hide NextBox, BoxBytes, Good;
    if data != [] {
      NextBack(data);
      AllBack(NextBox(data).value.1, bs[1..]);
    }
  }

  /** The first box in the data is the first in the list. */
  lemma TwoBoxes(a: Box, b: Box)
    requires Good(a) && Good(b)
    ensures ParseAll(BoxBytes(a) + BoxBytes(b)) == Some([a, b])
  {
    hide BoxBytes, Good, ParseAll;
    AllThen([a, b]);
    assert [a, b][1..] == [b] && [b][1..] == [];
    assert BoxesBytes([b]) == BoxBytes(b) + [] == BoxBytes(b);
  }

  // ---------------------------------------------------------------- creating boxes

  /** CreateBox, in 32-bit arithmetic: the counts and sizes are truncated. */
  function Created(x: Info): seq<byte> {
    var keyCount := |x.keyIds| % TWO_32;
    var keySize := (4 + 16 * keyCount) % TWO_32;
    var dataSize := |x.psshData| % TWO_32;
    var total := (32 + (if x.version == 1 then keySize else 0) + dataSize) % TWO_32;
    ToBE(total, 4)
    + (ToBE(FOURCC_PSSH, 4)
       + (ToBE(x.version as int * FLAGS, 4)
          + (x.systemId
             + ((if x.version == 1 then ToBE(keyCount, 4) + Join(x.keyIds[..keyCount]) else [])
                + (ToBE(dataSize, 4) + x.psshData)))))
  }

  lemma CreatedIsBox(x: Info)
    requires Good(Box(x, 0))
    ensures Created(x) == BoxBytes(Box(x, 0))
  {
    hide ToBE, Join;
    Below(|x.psshData|);
    Below(BoxSize(x));
    if x.version == 1 {
      Below(|x.keyIds|);
      Below(4 + 16 * |x.keyIds|);
      assert x.keyIds[..|x.keyIds|] == x.keyIds;
    }
  }

  lemma Below(n: nat)
    requires n < TWO_32
    ensures n % TWO_32 == n
  {
  }

  /** The version has room for the key ids, and the box is below 2^32 bytes. */
  predicate Reproducible(x: Info) {
    (x.version == 1 || x.keyIds == []) && BoxSize(x) < TWO_32
  }

  /** Parsing a created box gives back its fields exactly if they are below 2^32 bytes in all and the
      version has room for the key ids. */
  lemma CreateParse(x: Info)
    requires Settable(x)
    ensures (ParseBox(Created(x)).Some? && ParseBox(Created(x)).value.info == x)
            <==> Reproducible(x)
  {
    hide ParseBox, Created, BoxBytes, BoxSize;
    if ParseBox(Created(x)).Some? {
      BoxBack(Created(x));
    }
    if Reproducible(x) {
      CreatedIsBox(x);
      BoxThen(Box(x, 0));
    }
  }

  /** A parsed box is created again byte for byte exactly if its flags, which are not kept, were zero. */
  lemma ParseCreate(data: seq<byte>)
    requires ParseBox(data).Some?
    ensures Created(ParseBox(data).value.info) == data <==> ParseBox(data).value.flags == 0
  {
    hide ParseBox, Created, BoxBytes;
    var b := ParseBox(data).value;
    BoxBack(data);
    CreatedIsBox(b.info);
    BoxThen(b);
    BoxThen(Box(b.info, 0));
  }

  function CreatedAll(xs: seq<Info>): seq<byte> {
    if xs == [] then [] else Created(xs[0]) + CreatedAll(xs[1..])
  }

  function Boxes(xs: seq<Info>): (bs: seq<Box>)
    ensures |bs| == |xs| && forall i :: 0 <= i < |xs| ==> bs[i] == Box(xs[i], 0)
  {
    seq(|xs|, i requires 0 <= i < |xs| => Box(xs[i], 0))
  }

  function Infos(bs: seq<Box>): (xs: seq<Info>)
    ensures |xs| == |bs| && forall i :: 0 <= i < |bs| ==> xs[i] == bs[i].info
  {
    seq(|bs|, i requires 0 <= i < |bs| => bs[i].info)
  }

  /** Parsing created boxes that follow one another gives back the list they were created from exactly if each
      of them is reproducible. */
  lemma CreateParseAll(xs: seq<Info>)
    requires forall x <- xs :: Settable(x)
    ensures (ParseAll(CreatedAll(xs)).Some? && Infos(ParseAll(CreatedAll(xs)).value) == xs)
            <==> forall x <- xs :: Reproducible(x)
  {
    hide ParseAll, BoxesBytes, BoxSize, CreatedAll;
    if forall x <- xs :: Reproducible(x) {
      var bs := Boxes(xs);
      forall b | b in bs
        ensures Good(b)
      {
        var i :| 0 <= i < |bs| && bs[i] == b;
        assert xs[i] in xs;
      }
      CreatedAllAreBoxes(xs);
      AllThen(bs);
    }
    if ParseAll(CreatedAll(xs)).Some? && Infos(ParseAll(CreatedAll(xs)).value) == xs {
      var bs := ParseAll(CreatedAll(xs)).value;
      AllBack(CreatedAll(xs), bs);
      forall x | x in xs
        ensures Reproducible(x)
      {
        var i :| 0 <= i < |xs| && xs[i] == x;
        assert bs[i] in bs;
      }
    }
  }

  lemma {:induction false} CreatedAllAreBoxes(xs: seq<Info>)
    requires forall x <- xs :: Good(Box(x, 0))
    ensures CreatedAll(xs) == BoxesBytes(Boxes(xs))
  {
    hide Created, BoxBytes, Good;
    if xs != [] {
      CreatedIsBox(xs[0]);
      CreatedAllAreBoxes(xs[1..]);
      assert Boxes(xs)[1..] == Boxes(xs[1..]);
    }
  }
}
