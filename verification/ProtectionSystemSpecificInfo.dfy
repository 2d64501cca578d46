/** ProtectionSystemSpecificInfo: parsing 'pssh' boxes with a BufferReader, creating them with a BufferWriter. */
module ProtectionSystems {
  import opened Bytes
  import opened Options
  import opened BufferCodec
  import opened BufferReaders
  import opened BufferWriters
  import opened PsshBoxes

  /** Keys already read in front of those still to be read. */
  function AddKeys(pre: seq<seq<byte>>, r: Option<(seq<seq<byte>>, seq<byte>)>): Option<(seq<seq<byte>>, seq<byte>)> {
    match r
    case None => None
    case Some((keys, rest)) => Some((pre + keys, rest))
  }

  lemma TakeKeysNext(pre: seq<seq<byte>>, count: nat, s: seq<byte>)
    requires count > 0
    ensures AddKeys(pre, TakeKeys(count, s))
            == if |s| < 16 then None else AddKeys(pre + [s[..16]], TakeKeys(count - 1, s[16..]))
  {
    if |s| >= 16 && TakeKeys(count - 1, s[16..]).Some? {
      var keys := TakeKeys(count - 1, s[16..]).value.0;
      assert pre + ([s[..16]] + keys) == (pre + [s[..16]]) + keys;
    }
  }

  function AddBoxes(pre: seq<Box>, r: Option<seq<Box>>): Option<seq<Box>> {
    match r
    case None => None
    case Some(bs) => Some(pre + bs)
  }

  lemma ParseAllStep(pre: seq<Box>, data: seq<byte>, next: Option<(Box, seq<byte>)>)
    requires data != [] && next == NextBox(data)
    ensures AddBoxes(pre, ParseAll(data))
            == if next.None? then None else AddBoxes(pre + [next.value.0], ParseAll(next.value.1))
  {
    hide NextBox;
    if next.Some? && ParseAll(next.value.1).Some? {
      var b, bs := next.value.0, ParseAll(next.value.1).value;
      assert pre + ([b] + bs) == (pre + [b]) + bs;
    }
  }

  lemma AddNoKeys(r: Option<(seq<seq<byte>>, seq<byte>)>)
    ensures AddKeys([], r) == r
  {
    if r.Some? {
      var (keys, rest) := r.value;
      assert [] + keys == keys;
    }
  }

  lemma KeysDone(keys: seq<seq<byte>>, rest: seq<byte>)
    ensures AddKeys(keys[..|keys|], TakeKeys(0, rest)) == Some((keys, rest))
  {
    assert keys[..|keys|] + [] == keys;
  }

  lemma TakeNoKeys(version: byte, s: seq<byte>)
    requires version != 1
    ensures TakeKeyPart(version, s) == Some(([], s))
  {
  }

  lemma TakeIntIs(s: seq<byte>)
    ensures TakeInt(s) == if |s| < 4 then None else Some((FromBE(s[..4]), s[4..]))
  {
  }

  lemma AddNoBoxes(r: Option<seq<Box>>)
    ensures AddBoxes([], r) == r
  {
    if r.Some? {
      assert [] + r.value == r.value;
    }
  }

  lemma AddDone(bs: seq<Box>)
    ensures AddBoxes(bs, ParseAll([])) == Some(bs)
  {
    assert ParseAll([]) == Some([]);
    assert bs + [] == bs;
  }

  lemma SizeBound(s: seq<byte>)
    requires |s| >= 4
    ensures FromBE(s[..4]) < TWO_32
  {
    assert Pow256(4) == TWO_32;
  }

  lemma TooShort(data: seq<byte>)
    requires |data| < 4
    ensures ParseBox(data) == None
  {
  }

  lemma SameVersion(version: byte, s: seq<byte>)
    ensures ParseBody(version, s).Some? ==> ParseBody(version, s).value.version == version
  {
    hide TakeKeyPart, TakeData;
  }

  class ProtectionSystemSpecificInfo {
    var version: byte
    var systemId: seq<byte>
    var keyIds: seq<seq<byte>>
    var psshData: seq<byte>

    function Contents(): Info
      reads this
    {
      Info(version, systemId, keyIds, psshData)
    }

    constructor ()
      ensures Contents() == Info(0, [], [], [])
    {
      version, systemId, keyIds, psshData := 0, [], [], [];
    }

    /** Parses the box that fills `data`. A version 0 box leaves the key ids of the object as they were. */
    method Parse(data: seq<byte>) returns (ok: bool)
      modifies this
      ensures ok == ParseBox(data).Some?
      ensures ok ==> var x := ParseBox(data).value.info;
                     Contents() == if x.version == 0 then x.(keyIds := old(keyIds)) else x
    {
      hide ParseVersion, TakeInt;
      var reader := new BufferReader(data);
      var size, boxType;
      TakeIntIs(data);
      ok, size := reader.Read4();
      if !ok {
        return;
      }
      TakeIntIs(reader.Rest());
      ok, boxType := reader.Read4();
      if !ok {
        return;
      }
      if size != |data| || boxType != FOURCC_PSSH {
        return false;
      }
      ok := ReadVersion(reader);
    }

    method ReadVersion(reader: BufferReader) returns (ok: bool)
      requires reader.Valid()
      modifies this, reader
      ensures reader.Valid()
      ensures ok == ParseVersion(old(reader.Rest())).Some?
      ensures ok ==> var x := ParseVersion(old(reader.Rest())).value.info;
                     Contents() == if x.version == 0 then x.(keyIds := old(keyIds)) else x
    {
      hide ParseBody, TakeInt;
      var word;
      TakeIntIs(reader.Rest());
      ok, word := reader.Read4();
      if !ok {
        return;
      }
      SizeBound(old(reader.Rest()));
      version := word / FLAGS;
      if version >= 2 {
        return false;
      }
      ok := ReadBody(reader);
      SameVersion(version, old(reader.Rest())[4..]);
    }

    method ReadBody(reader: BufferReader) returns (ok: bool)
      requires reader.Valid() && version < 2
      modifies this, reader
      ensures reader.Valid() && version == old(version)
      ensures ok == ParseBody(old(version), old(reader.Rest())).Some?
      ensures ok ==> var x := ParseBody(old(version), old(reader.Rest())).value;
                     Contents() == if version == 0 then x.(keyIds := old(keyIds)) else x
    {
      hide TakeInt, TakeKeyPart, TakeData;
      var id;
      ok, id := reader.ReadToVector(16);
      if !ok {
        return;
      }
      systemId := id;
      if version == 1 {
        ok := ReadKeys(reader);
        if !ok {
          return;
        }
      } else {
        TakeNoKeys(version, reader.Rest());
      }
      ok := ReadData(reader);
    }

    method ReadKeys(reader: BufferReader) returns (ok: bool)
      requires reader.Valid()
      modifies this`keyIds, reader
      ensures reader.Valid()
      ensures ok == TakeKeyPart(1, old(reader.Rest())).Some?
      ensures ok ==> TakeKeyPart(1, old(reader.Rest())) == Some((keyIds, reader.Rest()))
    {
      hide TakeKeys, FromBE;
      var count;
      ghost var s := reader.Rest();
      ok, count := reader.Read4();
      if !ok {
        return;
      }
      ghost var t := reader.Rest();
      var was := keyIds;
      keyIds := seq(count, i requires 0 <= i < count => if i < |was| then was[i] else []);
      var i: nat := 0;
      AddNoKeys(TakeKeys(count, t));
      while i < count
        invariant i <= count == |keyIds| && reader.Valid()
        invariant TakeKeys(count, t) == AddKeys(keyIds[..i], TakeKeys(count - i, reader.Rest()))
      {
        TakeKeysNext(keyIds[..i], count - i, reader.Rest());
        var id;
        ok, id := reader.ReadToVector(16);
        if !ok {
          return;
        }
        assert keyIds[i := id][..i + 1] == keyIds[..i] + [id];
        keyIds := keyIds[i := id];
        i := i + 1;
      }
      KeysDone(keyIds, reader.Rest());
      ok := true;
    }

    method ReadData(reader: BufferReader) returns (ok: bool)
      requires reader.Valid()
      modifies this`psshData, reader
      ensures reader.Valid()
      ensures ok == TakeData(old(reader.Rest())).Some?
      ensures ok ==> psshData == TakeData(old(reader.Rest())).value
    {
      hide FromBE;
      var size, data;
      ok, size := reader.Read4();
      if !ok {
        return;
      }
      ok, data := reader.ReadToVector(size);
      if !ok {
        return;
      }
      psshData := data;
      ok := !reader.HasBytes(1);
    }

    /** The box for the current fields. */
    method CreateBox() returns (box: seq<byte>)
      requires Settable(Contents())
      ensures box == Created(Contents())
    {
      hide EncodeInt, ToBE, Join, Created, Settable;
      var keyCount := |keyIds| % TWO_32;
      var keySize := (4 + 16 * keyCount) % TWO_32;
      var dataSize := |psshData| % TWO_32;
      var total := (32 + (if version == 1 then keySize else 0) + dataSize) % TWO_32;
      var writer := new BufferWriter();
      AppendWord(writer, total);
      AppendWord(writer, FOURCC_PSSH);
      AppendWord(writer, version as int * FLAGS);
      writer.AppendVector(systemId);
      ghost var head, keyPart := writer.buf, [];
      if version == 1 {
        keyPart := ToBE(keyCount, 4) + Join(keyIds[..keyCount]);
        AppendKeys(writer, keyCount, keyIds[..keyCount]);
      }
      assert writer.buf == head + keyPart;
      AppendWord(writer, dataSize);
      writer.AppendVector(psshData);
      box := writer.buf;
      RightNested(ToBE(total, 4), ToBE(FOURCC_PSSH, 4), ToBE(version as int * FLAGS, 4),
                  systemId, keyPart, ToBE(dataSize, 4), psshData);
      CreatedIs(Contents(), keyCount, keySize, dataSize, total, keyPart);
    }
  }

  lemma CreatedIs(x: Info, keyCount: nat, keySize: nat, dataSize: nat, total: nat, keyPart: seq<byte>)
    requires Settable(x) && keyCount == |x.keyIds| % TWO_32
    requires keySize == (4 + 16 * keyCount) % TWO_32 && dataSize == |x.psshData| % TWO_32
    requires total == (32 + (if x.version == 1 then keySize else 0) + dataSize) % TWO_32
    requires keyPart == if x.version == 1 then ToBE(keyCount, 4) + Join(x.keyIds[..keyCount]) else []
    ensures Created(x)
            == ToBE(total, 4)
               + (ToBE(FOURCC_PSSH, 4)
                  + (ToBE(x.version as int * FLAGS, 4)
                     + (x.systemId + (keyPart + (ToBE(dataSize, 4) + x.psshData)))))
  {
    hide ToBE, Join;
  }

  lemma RightNested(a: seq<byte>, b: seq<byte>, c: seq<byte>, d: seq<byte>, e: seq<byte>, f: seq<byte>, g: seq<byte>)
    ensures [] + a + b + c + d + e + f + g == a + (b + (c + (d + (e + (f + g)))))
  {
    assert [] + a == a;
    Associative(a, b, c);
    Associative(a, b + c, d);
    Associative(b, c, d);
    var h := f + g;
    Associative(a + b + c + d + e, f, g);
    Associative(a + b + c + d, e, h);
    Associative(a + b + c, d, e + h);
    Associative(a + b, c, d + (e + h));
    Associative(a, b, c + (d + (e + h)));
  }

  method AppendWord(writer: BufferWriter, v: nat)
    requires v < TWO_32
    modifies writer
    ensures writer.buf == old(writer.buf) + ToBE(v, 4)
  {
    hide ToBE;
    WordFits(v);
    writer.AppendInt(v, 4);
  }

  lemma WordFits(v: nat)
    requires v < TWO_32
    ensures Fits(v, false, 4) && EncodeInt(v, 4) == ToBE(v, 4)
  {
    assert Pow256(4) == TWO_32;
    SmallMod(v, TWO_32);
  }

  method AppendKeys(writer: BufferWriter, count: nat, keys: seq<seq<byte>>)
    requires count < TWO_32
    modifies writer
    ensures writer.buf == old(writer.buf) + (ToBE(count, 4) + Join(keys))
  {
    hide ToBE;
    AppendWord(writer, count);
    ghost var before := writer.buf;
    assert keys[0..] == keys;
    for i := 0 to |keys|
      invariant writer.buf + Join(keys[i..]) == before + Join(keys)
    {
      assert keys[i..][1..] == keys[i + 1..];
      Associative(writer.buf, keys[i], Join(keys[i + 1..]));
      writer.AppendVector(keys[i]);
    }
    assert writer.buf + Join([]) == writer.buf;
    Associative(old(writer.buf), ToBE(count, 4), Join(keys));
  }

  /** One turn of the ParseBoxes loop. A size below 4 wraps around in `size - 4`; if so many bytes can be
      skipped, the box is too short to parse. */
  method ParseNext(reader: BufferReader) returns (ok: bool, info: Info)
    requires reader.Valid() && reader.Rest() != []
    modifies reader
    ensures reader.Valid()
    ensures ok == NextBox(old(reader.Rest())).Some?
    ensures ok ==> var (b, rest) := NextBox(old(reader.Rest())).value;
                   info == b.info && reader.Rest() == rest
  {
    hide ParseBox, FromBE;
    info := Info(0, [], [], []);
    var start := reader.pos;
    ghost var rest := reader.Rest();
    var size;
    ok, size := reader.Read4();
    if !ok {
      return;
    }
    SizeBound(rest);
    ok := reader.SkipBytes((size - 4) % TWO_32);
    if !ok {
      return;
    }
    var box := reader.buf[start..start + size];
    assert box == rest[..size];
    if size < 4 {
      TooShort(box);
    }
    var pssh := new ProtectionSystemSpecificInfo();
    ok := pssh.Parse(box);
    if ok {
      NoKeysInVersion0(box);
      info := pssh.Contents();
      assert reader.Rest() == rest[size..];
    }
  }

  lemma NoKeysInVersion0(data: seq<byte>)
    requires ParseBox(data).Some?
    ensures var x := ParseBox(data).value.info; x.version == 0 ==> x.keyIds == []
  {
    BoxBack(data);
  }

  /** Parses all the boxes in `data`, which terminates whatever sizes they claim. */
  method ParseBoxes(data: seq<byte>) returns (ok: bool, boxes: seq<Info>)
    ensures ok == ParseAll(data).Some?
    ensures ok ==> boxes == Infos(ParseAll(data).value)
  {
    hide ParseAll, NextBox;
    boxes := [];
    ghost var bs: seq<Box> := [];
    var reader := new BufferReader(data);
    AddNoBoxes(ParseAll(data));
    while reader.HasBytes(1)
      invariant fresh(reader) && reader.Valid()
      invariant boxes == Infos(bs) && ParseAll(data) == AddBoxes(bs, ParseAll(reader.Rest()))
      decreases |reader.buf| - reader.pos
    {
      ghost var rest := reader.Rest();
      var info;
      ok, info := ParseNext(reader);
      ParseAllStep(bs, rest, NextBox(rest));
      if !ok {
        return;
      }
      boxes := boxes + [info];
      bs := bs + [NextBox(rest).value.0];
    }
    assert reader.Rest() == [];
    AddDone(bs);
    ok := true;
  }
}
