/** The entry list of an HLS media playlist: segments, and the keys that apply to what follows them. */
module MediaPlaylists {
  import opened Options

  /** The duration is kept as it was given; the seconds it comes to are not modelled. */
  datatype SegmentInfo = SegmentInfo(fileName: string, duration: nat)

  datatype EncryptionMethod = NoEncryption | Aes128 | SampleAes

  datatype KeyInfo =
    KeyInfo(encryption: EncryptionMethod, url: string, iv: string, keyFormat: string, keyFormatVersions: string)

  datatype Entry = Segment(segment: SegmentInfo) | Key(key: KeyInfo)

  // ---------------------------------------------------------------- what a player sees

  /** A segment and the key in force for it: the last EXT-X-KEY before it, if any (section 4.3.2.4 of
      RFC 8216). */
  datatype Keyed = Keyed(segment: SegmentInfo, key: Option<KeyInfo>)

  /** The playlist as a player sees it: its segments, and the key in force for what comes next. */
  datatype View = View(segments: seq<Keyed>, key: Option<KeyInfo>)

  /** Reading the entries in order, starting under key k. */
  function Read(entries: seq<Entry>, k: Option<KeyInfo>): View {
    if entries == [] then View([], k)
    else
      match entries[0]
      case Key(k') => Read(entries[1..], Some(k'))
      case Segment(s) =>
        var v := Read(entries[1..], k);
        v.(segments := [Keyed(s, k)] + v.segments)
  }

  // What each operation should do, as a player sees it.

  function ViewAddSegment(v: View, s: SegmentInfo): View {
    v.(segments := v.segments + [Keyed(s, v.key)])
  }

  function ViewAddKey(v: View, k: KeyInfo): View {
    v.(key := Some(k))
  }

  function ViewRemove(v: View): View {
    if v.segments == [] then v else v.(segments := v.segments[1..])
  }

  // ---------------------------------------------------------------- the list operations

  /** Two keys stand next to each other only in front. */
  ghost predicate KeysApart(entries: seq<Entry>) {
    forall i, j :: 1 <= i < j < |entries| && entries[i].Key? && entries[j].Key? ==> j != i + 1
  }

  function AddKeyTo(entries: seq<Entry>, k: KeyInfo): seq<Entry> {
    var n := |entries|;
    (if n > 0 && entries[n - 1].Key? then entries[..n - 1] else entries) + [Key(k)]
  }

  function RemoveFrom(entries: seq<Entry>): (r: seq<Entry>) {
    if entries == [] then entries
    else if entries[0].Segment? then entries[1..]
    else if |entries| == 1 then entries
    else if entries[1].Segment? then [entries[0]] + entries[2..]
    else if |entries| == 2 then entries[1..]
    else [entries[1]] + entries[3..]
  }

  class MediaPlaylist {
    var entries: seq<Entry>

    ghost predicate Valid()
      reads this
    {
      KeysApart(entries)
    }

    ghost function Seen(): View
      reads this
    {
      Read(entries, None)
    }

    constructor ()
      ensures Valid() && Seen() == View([], None)
    {
      entries := [];
    }

    method AddSegment(s: SegmentInfo)
      requires Valid()
      modifies this
      ensures Valid() && Seen() == View(old(Seen()).segments + [Keyed(s, old(Seen()).key)], old(Seen()).key)
      ensures entries == Apply(old(entries), AddSegmentCall(s))
    {
      AddSegmentSeen(entries, None, s);
      entries := entries + [Segment(s)];
    }

    method AddEncryptionInfo(k: KeyInfo)
      requires Valid()
      modifies this
      ensures Valid() && Seen() == View(old(Seen()).segments, Some(k))
      ensures entries == Apply(old(entries), AddKeyCall(k))
    {
      AddKeySeen(entries, k);
      var n := |entries|;
      if n > 0 && entries[n - 1].Key? {
        entries := entries[..n - 1];
      }
      entries := entries + [Key(k)];
    }

    method RemoveOldestSegment()
      requires Valid()
      modifies this
      ensures Valid() && Seen().key == old(Seen()).key
      ensures if old(Seen()).segments == [] then Seen().segments == []
              else Seen().segments == old(Seen()).segments[1..]
      ensures entries == Apply(old(entries), RemoveCall)
    {
      hide Read, KeysApart;
      RemoveSeen(entries);
      if entries == [] {
        return;
      }
      if entries[0].Segment? {
        entries := entries[1..];
        return;
      }
      if |entries| == 1 {
        // More segments might get added: the key stays.
        return;
      }
      if |entries| == 2 {
        assert entries[..1] == [entries[0]] + entries[2..];
        entries := if entries[1].Key? then entries[1..] else entries[..1];
        return;
      }
      if entries[1].Segment? {
        assert entries[..1] == [entries[0]];
        entries := entries[..1] + entries[2..];
        return;
      }
      // There is a segment between any two keys but the first two.
      assert entries[2].Segment?;
      assert (entries[..2] + entries[3..])[1..] == [entries[1]] + entries[3..];
      entries := entries[..2] + entries[3..];
      entries := entries[1..];
    }
  }

  // ---------------------------------------------------------------- why they do

  lemma {:induction false} ReadConcat(a: seq<Entry>, b: seq<Entry>, k: Option<KeyInfo>)
    ensures var v := Read(a, k);
            var w := Read(b, v.key);
            Read(a + b, k) == View(v.segments + w.segments, w.key)
  {
    if a == [] {
      assert a + b == b;
    } else {
      assert (a + b)[1..] == a[1..] + b;
      ReadConcat(a[1..], b, if a[0].Key? then Some(a[0].key) else k);
    }
  }

  /** A segment is under the last key before it. */
  lemma KeyInForce(entries: seq<Entry>, i: nat, j: nat)
    requires i < j < |entries| && entries[i].Key? && entries[j].Segment?
    requires forall m :: i < m < j ==> entries[m].Segment?
    ensures var n := |Read(entries[..j], None).segments|;
            && n < |Read(entries, None).segments|
            && Read(entries, None).segments[n] == Keyed(entries[j].segment, Some(entries[i].key))
  {
    hide Read;
    var before, here, after := entries[..j], [entries[j]], entries[j + 1..];
    assert entries == before + (here + after);
    ReadConcat(before, here + after, None);
    var v := Read(before, None);
    ReadSegment(entries[j].segment, v.key, after);
    var first, key, between := entries[..i], [entries[i]], entries[i + 1..j];
    assert before == first + (key + between);
    ReadConcat(first, key + between, None);
    ReadKey(entries[i].key, Read(first, None).key, between);
    OnlySegments(between, Some(entries[i].key));
  }

  /** And under none if there is no key before it. */
  lemma NoKeyInForce(entries: seq<Entry>, j: nat)
    requires j < |entries| && forall m :: 0 <= m <= j ==> entries[m].Segment?
    ensures j < |Read(entries, None).segments|
    ensures Read(entries, None).segments[j] == Keyed(entries[j].segment, None)
  {
    hide Read;
    var before, here, after := entries[..j], [entries[j]], entries[j + 1..];
    assert entries == before + (here + after);
    OnlySegments(before, None);
    ReadConcat(before, here + after, None);
    ReadSegment(entries[j].segment, None, after);
  }

  lemma {:induction false} OnlySegments(entries: seq<Entry>, k: Option<KeyInfo>)
    requires forall m :: 0 <= m < |entries| ==> entries[m].Segment?
    ensures Read(entries, k).key == k && |Read(entries, k).segments| == |entries|
  {
    if entries != [] {
      OnlySegments(entries[1..], k);
    }
  }

  lemma AddSegmentSeen(entries: seq<Entry>, k: Option<KeyInfo>, s: SegmentInfo)
    requires KeysApart(entries)
    ensures KeysApart(entries + [Segment(s)])
    ensures Read(entries + [Segment(s)], k) == ViewAddSegment(Read(entries, k), s)
  {
    ReadConcat(entries, [Segment(s)], k);
    ReadSegment(s, Read(entries, k).key, []);
  }

  lemma ReadSegment(s: SegmentInfo, k: Option<KeyInfo>, rest: seq<Entry>)
    ensures var v := Read(rest, k); Read([Segment(s)] + rest, k) == View([Keyed(s, k)] + v.segments, v.key)
  {
    assert ([Segment(s)] + rest)[1..] == rest;
  }

  lemma ReadKey(k': KeyInfo, k: Option<KeyInfo>, rest: seq<Entry>)
    ensures Read([Key(k')] + rest, k) == Read(rest, Some(k'))
  {
    assert ([Key(k')] + rest)[1..] == rest;
  }

  lemma AddKeySeen(entries: seq<Entry>, k: KeyInfo)
    requires KeysApart(entries)
    ensures KeysApart(AddKeyTo(entries, k))
    ensures Read(AddKeyTo(entries, k), None) == ViewAddKey(Read(entries, None), k)
  {
    var n := |entries|;
    if n > 0 && entries[n - 1].Key? {
      var front := entries[..n - 1];
      assert entries == front + [entries[n - 1]];
      ReadConcat(front, [entries[n - 1]], None);
      ReadConcat(front, [Key(k)], None);
      ReadKey(k, Read(front, None).key, []);
      ReadKey(entries[n - 1].key, Read(front, None).key, []);
    } else {
      ReadConcat(entries, [Key(k)], None);
      ReadKey(k, Read(entries, None).key, []);
    }
  }

  lemma RemoveSeen(entries: seq<Entry>)
    requires KeysApart(entries)
    ensures KeysApart(RemoveFrom(entries))
    ensures Read(RemoveFrom(entries), None) == ViewRemove(Read(entries, None))
    ensures |entries| >= 3 && entries[0].Key? && entries[1].Key? ==> entries[2].Segment?
  {
    hide Read, RemoveFrom, ViewRemove;
    RemoveKeysApart(entries);
    ThirdIsSegment(entries);
    hide KeysApart;
    var n := |entries|;
    if n == 0 {
      RemoveFromNothing();
    } else if entries[0].Segment? {
      RemoveFirst(entries);
    } else if n >= 2 && entries[1].Segment? {
      RemoveAfterKey(entries);
    } else if n >= 3 {
      RemoveAfterTwoKeys(entries);
    } else {
      RemoveKeysOnly(entries);
    }
  }

  /** What is left of the list: of the keys in front of the first segment the last, and what follows that segment. */
  lemma RemovedExactly(entries: seq<Entry>, j: nat)
    requires KeysApart(entries) && j <= |entries|
    requires (forall m :: 0 <= m < j ==> entries[m].Key?) && (j < |entries| ==> entries[j].Segment?)
    ensures RemoveFrom(entries)
            == (if j == 0 then [] else [entries[j - 1]]) + (if j < |entries| then entries[j + 1..] else [])
  {
    ThirdIsSegment(entries);
    assert j <= 2;
  }

  lemma ThirdIsSegment(entries: seq<Entry>)
    requires KeysApart(entries)
    ensures |entries| >= 3 && entries[0].Key? && entries[1].Key? ==> entries[2].Segment?
  {
  }

  lemma RemoveKeysApart(entries: seq<Entry>)
    requires KeysApart(entries)
    ensures KeysApart(RemoveFrom(entries))
  {
  }

  lemma RemoveFromNothing()
    ensures RemoveFrom([]) == [] && Read([], None) == ViewRemove(Read([], None))
  {
  }

  lemma RemoveKeysOnly(entries: seq<Entry>)
    requires 1 <= |entries| <= 2 && forall i :: 0 <= i < |entries| ==> entries[i].Key?
    ensures Read(RemoveFrom(entries), None) == ViewRemove(Read(entries, None))
  {
    if |entries| == 2 {
      assert entries[1..] == [entries[1]] && entries[1..][1..] == [];
    }
  }

  lemma RemoveFirst(entries: seq<Entry>)
    requires |entries| >= 1 && entries[0].Segment?
    ensures Read(RemoveFrom(entries), None) == ViewRemove(Read(entries, None))
  {
    hide Read;
    var s, rest := entries[0].segment, entries[1..];
    assert entries == [Segment(s)] + rest;
    ReadSegment(s, None, rest);
  }

  lemma RemoveAfterKey(entries: seq<Entry>)
    requires |entries| >= 2 && entries[0].Key? && entries[1].Segment?
    ensures Read(RemoveFrom(entries), None) == ViewRemove(Read(entries, None))
  {
    hide Read;
    var k, s, rest := entries[0].key, entries[1].segment, entries[2..];
    assert entries == [Key(k)] + ([Segment(s)] + rest);
    ReadKey(k, None, [Segment(s)] + rest);
    ReadSegment(s, Some(k), rest);
    ReadKey(k, None, rest);
  }

  lemma RemoveAfterTwoKeys(entries: seq<Entry>)
    requires |entries| >= 3 && entries[0].Key? && entries[1].Key? && entries[2].Segment?
    ensures Read(RemoveFrom(entries), None) == ViewRemove(Read(entries, None))
  {
    hide Read;
    var k, k', s, rest := entries[0].key, entries[1].key, entries[2].segment, entries[3..];
    assert entries == [Key(k)] + ([Key(k')] + ([Segment(s)] + rest));
    ReadKey(k, None, [Key(k')] + ([Segment(s)] + rest));
    ReadKey(k', Some(k), [Segment(s)] + rest);
    ReadSegment(s, Some(k'), rest);
    ReadKey(k', None, rest);
  }

  // ---------------------------------------------------------------- whole runs

  datatype Call = AddSegmentCall(s: SegmentInfo) | AddKeyCall(k: KeyInfo) | RemoveCall

  function Apply(entries: seq<Entry>, call: Call): seq<Entry> {
    match call
    case AddSegmentCall(s) => entries + [Segment(s)]
    case AddKeyCall(k) => AddKeyTo(entries, k)
    case RemoveCall => RemoveFrom(entries)
  }

  function Run(entries: seq<Entry>, calls: seq<Call>): seq<Entry>
    decreases calls
  {
    if calls == [] then entries else Run(Apply(entries, calls[0]), calls[1..])
  }

  /** Every segment a run adds, each with the key last announced before it was added. */
  function Added(k: Option<KeyInfo>, calls: seq<Call>): seq<Keyed>
    decreases calls
  {
    if calls == [] then []
    else
      match calls[0]
      case AddSegmentCall(s) => [Keyed(s, k)] + Added(k, calls[1..])
      case AddKeyCall(k') => Added(Some(k'), calls[1..])
      case RemoveCall => Added(k, calls[1..])
  }

  /** How many of the calls find a segment to remove, if n are there at the start. */
  function Removed(n: nat, calls: seq<Call>): nat
    decreases calls
  {
    if calls == [] then 0
    else
      match calls[0]
      case AddSegmentCall(_) => Removed(n + 1, calls[1..])
      case AddKeyCall(_) => Removed(n, calls[1..])
      case RemoveCall => if n > 0 then 1 + Removed(n - 1, calls[1..]) else Removed(n, calls[1..])
  }

  lemma KeyedAssociative(x: seq<Keyed>, y: seq<Keyed>, z: seq<Keyed>)
    ensures (x + y) + z == x + (y + z)
  {
  }

  lemma {:induction false} RunSeen(entries: seq<Entry>, calls: seq<Call>)
    requires KeysApart(entries)
    ensures var v := Read(entries, None);
            var all := v.segments + Added(v.key, calls);
            var n := Removed(|v.segments|, calls);
            && KeysApart(Run(entries, calls))
            && n <= |all|
            && Read(Run(entries, calls), None).segments == all[n..]
    decreases calls
  {
    hide Read, KeysApart, AddKeyTo, RemoveFrom;
    var v := Read(entries, None);
    if calls == [] {
      assert v.segments + [] == v.segments;
    } else {
      var rest := calls[1..];
      match calls[0] {
        case AddSegmentCall(s) =>
          AddSegmentSeen(entries, None, s);
          KeyedAssociative(v.segments, [Keyed(s, v.key)], Added(v.key, rest));
        case AddKeyCall(k) =>
          AddKeySeen(entries, k);
        case RemoveCall =>
          RemoveSeen(entries);
          if v.segments != [] {
            assert v.segments[1..] + Added(v.key, rest) == (v.segments + Added(v.key, rest))[1..];
          }
      }
      RunSeen(Apply(entries, calls[0]), rest);
    }
  }

  /** Over every run the remaining segments are the last ones added, one less for each removal that found
      one, and each is still under the key that was in force when it was added. */
  lemma KeysStayInForce(calls: seq<Call>)
    ensures var n := Removed(0, calls);
            var all := Added(None, calls);
            n <= |all| && Read(Run([], calls), None).segments == all[n..]
  {
    var none: seq<Entry> := [];
    RunSeen(none, calls);
    assert Read(none, None).segments + Added(None, calls) == Added(None, calls);
  }
}
