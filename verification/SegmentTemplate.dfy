/** Segment templates, section 5.3.9.4.4 of ISO/IEC 23009-1:2012. */
module SegmentTemplates {
  import opened Options
  import Bytes

  // ---------------------------------------------------------------- strings

  /** base::SplitString on '$', keeping everything. */
  function Split(s: string): (parts: seq<string>)
    ensures |parts| > 0
  {
    if s == [] then [""]
    else
      var parts := Split(s[1..]);
      if s[0] == '$' then [""] + parts else [[s[0]] + parts[0]] + parts[1..]
  }

  function Join(parts: seq<string>): string
    requires |parts| > 0
  {
    if |parts| == 1 then parts[0] else parts[0] + "$" + Join(parts[1..])
  }

  /** Splitting loses nothing, and leaves no '$' in a part. */
  lemma {:induction false} SplitJoin(s: string)
    ensures Join(Split(s)) == s
    ensures forall i :: 0 <= i < |Split(s)| ==> '$' !in Split(s)[i]
  {
    if s != [] {
      SplitJoin(s[1..]);
      var parts := Split(s[1..]);
      if s[0] == '$' {
        assert ([""] + parts)[1..] == parts;
        assert "" + "$" + Join(parts) == ['$'] + Join(parts);
      } else {
        var p := [[s[0]] + parts[0]] + parts[1..];
        assert p[1..] == parts[1..];
        if |parts| > 1 {
          assert ([s[0]] + parts[0]) + "$" + Join(parts[1..]) == [s[0]] + (parts[0] + "$" + Join(parts[1..]));
        }
      }
      assert s == [s[0]] + s[1..];
    }
  }

  /** string::find: the index of the first c, or the length. */
  function Find(s: string, c: char): (i: nat)
    ensures i <= |s| && c !in s[..i] && (i < |s| ==> s[i] == c)
  {
    if s == [] || s[0] == c then 0
    else
      var i := Find(s[1..], c);
      assert s[..i + 1] == [s[0]] + s[1..][..i];
      i + 1
  }

  predicate IsDigit(c: char) {
    '0' <= c <= '9'
  }

  function DigitValue(c: char): nat
    requires IsDigit(c)
  {
    c as int - '0' as int
  }

  predicate AllDigits(s: string) {
    forall i :: 0 <= i < |s| ==> IsDigit(s[i])
  }

  /** The number a string of digits stands for. */
  function NumberOf(s: string): nat
    requires AllDigits(s)
  {
    if s == [] then 0 else 10 * NumberOf(s[..|s| - 1]) + DigitValue(s[|s| - 1])
  }

  function Pow10(n: nat): (p: nat)
    ensures p > 0
  {
    if n == 0 then 1 else 10 * Pow10(n - 1)
  }

  /** The most significant digit comes first. */
  lemma {:induction false} DigitAt(s: string, i: nat)
    requires AllDigits(s) && i < |s|
    ensures NumberOf(s) / Pow10(|s| - 1 - i) % 10 == s[i] as int - '0' as int
  {
    hide Pow10;
    var front, last := s[..|s| - 1], DigitValue(s[|s| - 1]);
    var n, f := NumberOf(s), NumberOf(front);
    assert n == 10 * f + last;
    Pow10Next(|s| - 1 - i);
    if i == |s| - 1 {
      LastDigit(n, f, last, Pow10(0));
    } else {
      DigitAt(front, i);
      hide NumberOf;
      HigherDigit(n, f, last, Pow10(|s| - 1 - i), Pow10(|s| - 2 - i));
    }
  }

  lemma LastDigit(n: nat, f: nat, last: nat, p: nat)
    requires n == 10 * f + last && last < 10 && p == 1
    ensures n / p % 10 == last
  {
  }

  lemma HigherDigit(n: nat, f: nat, last: nat, big: nat, p: nat)
    requires n == 10 * f + last && last < 10 && p > 0 && big == 10 * p
    ensures n / big == f / p
  {
    DivTen(f, last, p);
  }

  lemma Pow10Next(n: nat)
    ensures Pow10(n) == if n == 0 then 1 else 10 * Pow10(n - 1)
  {
  }

  lemma DivTen(f: nat, last: nat, p: nat)
    requires last < 10 && p > 0
    ensures (10 * f + last) / (10 * p) == f / p
  {
    var q, r := f / p, f % p;
    assert 10 * f + last == (10 * p) * q + (10 * r + last);
    Bytes.ModUnique(10 * f + last, 10 * p, q, 10 * r + last);
  }

  /** base::StringToUint: an optional '+' and decimal digits, below 2^32. */
  function StringToUint(s: string): Option<nat> {
    var digits := if s != [] && s[0] == '+' then s[1..] else s;
    if digits == [] || !AllDigits(digits) || NumberOf(digits) >= 0x1_0000_0000 then None
    else Some(NumberOf(digits))
  }

  function DigitChar(d: nat): (c: char)
    requires d < 10
    ensures IsDigit(c) && DigitValue(c) == d
  {
    '0' + d as char
  }

  /** The decimal digits of n. */
  function Decimal(n: nat): (s: string)
    ensures s != [] && AllDigits(s) && NumberOf(s) == n
  {
    if n < 10 then
      assert [DigitChar(n)][..0] == [];
      [DigitChar(n)]
    else
      var s := Decimal(n / 10) + [DigitChar(n % 10)];
      assert s[..|s| - 1] == Decimal(n / 10);
      s
  }

  /** printf("%0<width>u", n): the digits of n, zero-padded to the width. */
  function Padded(n: nat, width: nat): (s: string)
  {
    var s := Decimal(n);
    if |s| >= width then s else seq(width - |s|, _ => '0') + s
  }

  lemma {:induction false} LeadingZeros(k: nat, s: string)
    requires AllDigits(s)
    ensures var z := seq(k, _ => '0') + s; AllDigits(z) && NumberOf(z) == NumberOf(s)
    decreases |s|, k
  {
    var z := seq(k, _ => '0') + s;
    if s != [] {
      LeadingZeros(k, s[..|s| - 1]);
      assert z[..|z| - 1] == seq(k, _ => '0') + s[..|s| - 1];
    } else if k > 0 {
      LeadingZeros(k - 1, s);
      assert z[..|z| - 1] == seq(k - 1, _ => '0') + s;
    }
  }

  /** A padded number can be read back. */
  lemma PaddedValue(n: nat, width: nat)
    ensures AllDigits(Padded(n, width)) && NumberOf(Padded(n, width)) == n
  {
    var s := Decimal(n);
    if |s| < width {
      LeadingZeros(width - |s|, s);
    }
  }

  lemma {:induction false} DecimalGrows(n: nat, m: nat)
    requires n <= m
    ensures |Decimal(n)| <= |Decimal(m)|
  {
    if n >= 10 {
      DecimalGrows(n / 10, m / 10);
    }
  }

  lemma PaddedGrows(n: nat, m: nat, width: nat)
    requires n <= m
    ensures |Padded(n, width)| <= |Padded(m, width)|
  {
    DecimalGrows(n, m);
  }

  // ---------------------------------------------------------------- templates

  datatype Field = Number | Time | Bandwidth

  datatype Piece = Literal(text: string) | Value(field: Field, width: nat)

  function FieldNamed(identifier: string): Option<Field> {
    if identifier == "Number" then Some(Number)
    else if identifier == "Time" then Some(Time)
    else if identifier == "Bandwidth" then Some(Bandwidth)
    else None
  }

  function Identifier(part: string): string {
    part[..Find(part, '%')]
  }

  /** The format tag, or "" if there is none. */
  function FormatTag(part: string): string {
    part[Find(part, '%')..]
  }

  /** A tag must read %0[width]d. */
  predicate ValidateFormatTag(tag: string) {
    && |tag| > 3 && tag[0] == '%' && tag[1] == '0' && tag[|tag| - 1] == 'd'
    && StringToUint(tag[2..|tag| - 1]).Some?
  }

  /** What may stand between two '$': nothing (for "$$"), or one of the three identifiers, with or without a
      valid tag. */
  predicate Acceptable(part: string) {
    part == "" ||
    (FieldNamed(Identifier(part)).Some? && (FormatTag(part) == "" || ValidateFormatTag(FormatTag(part))))
  }

  function PieceOf(part: string): Piece
    requires Acceptable(part)
  {
    if part == "" then Literal("$")
    else
      var tag := FormatTag(part);
      Value(FieldNamed(Identifier(part)).value, if tag == "" then 1 else StringToUint(tag[2..|tag| - 1]).value)
  }

  // What identifiers, tags and numbers look like, written out.

  /** w is a width: decimal digits, perhaps after a '+', that stand for n < 2^32. */
  ghost predicate Width(w: string, n: nat) {
    exists sign: string, digits: string ::
      && (sign == "" || sign == "+") && w == sign + digits
      && digits != "" && AllDigits(digits) && NumberOf(digits) == n < 0x1_0000_0000
  }

  /** part is `name`, or `name` with a tag for width n; without a tag the width is 1. */
  ghost predicate Reads(part: string, name: string, n: nat) {
    (part == name && n == 1) || exists w: string :: part == name + ("%0" + w + "d") && Width(w, n)
  }

  /** text is `value` in decimal, with zeros in front only as far as the width asks for them. */
  ghost predicate Shows(text: string, value: nat, width: nat) {
    && text != "" && AllDigits(text) && NumberOf(text) == value && |text| >= width
    && (|text| > width && |text| > 1 ==> text[0] != '0')
  }

  lemma PartSplits(part: string, name: string, tag: string)
    requires part == name + tag && '%' !in name && (tag == "" || tag[0] == '%')
    ensures Identifier(part) == name && FormatTag(part) == tag
  {
    var i := Find(part, '%');
    assert tag != "" ==> part[|name|] == '%';
    assert i == |name|;
    assert part[..|name|] == name && part[|name|..] == tag;
  }

  lemma WidthIs(w: string, n: nat)
    ensures Width(w, n) <==> StringToUint(w) == Some(n)
  {
    if Width(w, n) {
      var sign: string, digits: string :|
        && (sign == "" || sign == "+") && w == sign + digits
        && digits != "" && AllDigits(digits) && NumberOf(digits) == n < 0x1_0000_0000;
      if sign == "+" {
        assert w[1..] == digits;
      } else {
        assert w == digits && IsDigit(w[0]);
      }
    }
    if StringToUint(w) == Some(n) {
      if w[0] == '+' {
        assert w == "+" + w[1..];
      } else {
        assert w == "" + w;
      }
    }
  }

  /** One of the three names, as written and with its width. */
  lemma ReadsPiece(part: string, name: string, field: Field, n: nat)
    requires FieldNamed(name) == Some(field)
    ensures Reads(part, name, n) <==>
              part != "" && Acceptable(part) && PieceOf(part) == Value(field, n)
  {
    hide Acceptable, PieceOf, FieldNamed;
    if part == name && n == 1 {
      BareName(part, name, field);
    } else if Reads(part, name, n) {
      var w: string :| part == name + ("%0" + w + "d") && Width(w, n);
      TaggedName(part, name, field, w, n);
    }
    if part != "" && Acceptable(part) && PieceOf(part) == Value(field, n) {
      PieceReads(part, name, field, n);
    }
  }

  lemma BareName(part: string, name: string, field: Field)
    requires FieldNamed(name) == Some(field) && part == name
    ensures part != "" && Acceptable(part) && PieceOf(part) == Value(field, 1)
  {
    hide StringToUint, Find;
    NoPercent(name, field);
    assert part == name + "";
    PartSplits(part, name, "");
  }

  lemma NoPercent(name: string, field: Field)
    requires FieldNamed(name) == Some(field)
    ensures '%' !in name && name != ""
  {
  }

  lemma TaggedName(part: string, name: string, field: Field, w: string, n: nat)
    requires FieldNamed(name) == Some(field) && part == name + ("%0" + w + "d") && Width(w, n)
    ensures part != "" && Acceptable(part) && PieceOf(part) == Value(field, n)
  {
    hide StringToUint, Find, Width, FieldNamed;
    NoPercent(name, field);
    var tag := "%0" + w + "d";
    PartSplits(part, name, tag);
    WidthIs(w, n);
    NoEmptyWidth(w, n);
    assert tag[2..|tag| - 1] == w;
  }

  lemma PieceReads(part: string, name: string, field: Field, n: nat)
    requires FieldNamed(name) == Some(field) && part != "" && Acceptable(part) && PieceOf(part) == Value(field, n)
    ensures Reads(part, name, n)
  {
    hide StringToUint, Find, Width, FieldNamed;
    SameName(Identifier(part), name, field);
    var tag := FormatTag(part);
    assert part == name + tag;
    if tag == "" {
      assert part == name;
    } else {
      var w := tag[2..|tag| - 1];
      WidthIs(w, n);
      assert tag == "%0" + w + "d";
    }
  }

  lemma NoEmptyWidth(w: string, n: nat)
    requires Width(w, n)
    ensures w != ""
  {
  }

  lemma SameName(a: string, b: string, field: Field)
    requires FieldNamed(a) == FieldNamed(b) == Some(field)
    ensures a == b
  {
  }

  /** The identifiers that are accepted: none, for "$$", or one of three names, with or without a tag. */
  lemma AcceptableExactly(part: string)
    ensures Acceptable(part) <==>
              || part == ""
              || exists n :: Reads(part, "Number", n) || Reads(part, "Time", n) || Reads(part, "Bandwidth", n)
  {
    assert Acceptable("");
    hide Acceptable, PieceOf, Reads;
    forall n
      ensures Reads(part, "Number", n) <==> part != "" && Acceptable(part) && PieceOf(part) == Value(Number, n)
      ensures Reads(part, "Time", n) <==> part != "" && Acceptable(part) && PieceOf(part) == Value(Time, n)
      ensures Reads(part, "Bandwidth", n) <==> part != "" && Acceptable(part) && PieceOf(part) == Value(Bandwidth, n)
    {
      ReadsPiece(part, "Number", Number, n);
      ReadsPiece(part, "Time", Time, n);
      ReadsPiece(part, "Bandwidth", Bandwidth, n);
    }
    if Acceptable(part) && part != "" {
      PieceIsValue(part);
      var n := PieceOf(part).width;
      match PieceOf(part).field
      case Number => ReadsPiece(part, "Number", Number, n);
      case Time => ReadsPiece(part, "Time", Time, n);
      case Bandwidth => ReadsPiece(part, "Bandwidth", Bandwidth, n);
    }
  }

  lemma PieceIsValue(part: string)
    requires Acceptable(part) && part != ""
    ensures PieceOf(part).Value?
  {
  }

  /** Every second one of the first n parts is an acceptable identifier. */
  ghost predicate PartsOk(parts: seq<string>, n: nat)
    requires n <= |parts|
  {
    forall i :: 0 <= i < n && i % 2 == 1 ==> Acceptable(parts[i])
  }

  predicate NamesField(part: string, field: Field) {
    FieldNamed(Identifier(part)) == Some(field)
  }

  /** One of the first n parts names the field. */
  ghost predicate Names(parts: seq<string>, n: nat, field: Field)
    requires n <= |parts|
  {
    exists i :: 0 <= i < n && i % 2 == 1 && NamesField(parts[i], field)
  }

  /** The templates to be accepted: '$' in pairs, known identifiers, and exactly one of $Number$ and $Time$. */
  ghost predicate ValidTemplate(template: string) {
    var parts := Split(template);
    && template != ""
    && |parts| % 2 == 1
    && PartsOk(parts, |parts|)
    && (Names(parts, |parts|, Number) <==> !Names(parts, |parts|, Time))
  }

  /** The same written out. */
  lemma TemplateExactly(template: string)
    ensures var parts := Split(template);
            ValidTemplate(template) <==>
              && template != "" && |parts| % 2 == 1
              && (forall i :: 0 <= i < |parts| && i % 2 == 1 ==> parts[i] == "" || ReadsSome(parts[i]))
              && ((exists i :: 0 <= i < |parts| && i % 2 == 1 && ReadsField(parts[i], "Number"))
                  <==> !exists i :: 0 <= i < |parts| && i % 2 == 1 && ReadsField(parts[i], "Time"))
  {
    hide Split, Acceptable, NamesField, ReadsSome, ReadsField;
    var parts := Split(template);
    forall i | 0 <= i < |parts|
      ensures Acceptable(parts[i]) <==> parts[i] == "" || ReadsSome(parts[i])
      ensures Acceptable(parts[i]) ==>
                && (NamesField(parts[i], Number) <==> ReadsField(parts[i], "Number"))
                && (NamesField(parts[i], Time) <==> ReadsField(parts[i], "Time"))
    {
      SomeIffAcceptable(parts[i]);
      if Acceptable(parts[i]) {
        FieldIffNamed(parts[i], "Number", Number);
        FieldIffNamed(parts[i], "Time", Time);
      }
    }
  }

  /** part is `name`, with or without a tag. */
  ghost predicate ReadsField(part: string, name: string) {
    exists n :: Reads(part, name, n)
  }

  ghost predicate ReadsSome(part: string) {
    ReadsField(part, "Number") || ReadsField(part, "Time") || ReadsField(part, "Bandwidth")
  }

  lemma SomeIffAcceptable(part: string)
    ensures Acceptable(part) <==> part == "" || ReadsSome(part)
  {
    hide Acceptable, Reads;
    AcceptableExactly(part);
  }

  lemma FieldIffNamed(part: string, name: string, field: Field)
    requires Acceptable(part) && FieldNamed(name) == Some(field)
    ensures NamesField(part, field) <==> ReadsField(part, name)
  {
    hide Acceptable, Reads, PieceOf, NamesField;
    PieceNames(part, field);
    if part == "" {
      EmptyPiece();
    } else {
      PieceIsValue(part);
    }
    if ReadsField(part, name) {
      var n :| Reads(part, name, n);
      ReadsPiece(part, name, field, n);
    }
    if NamesField(part, field) {
      ReadsPiece(part, name, field, PieceOf(part).width);
    }
  }

  lemma EmptyPiece()
    ensures Acceptable("") && PieceOf("") == Literal("$")
  {
  }

  method ValidateSegmentTemplate(template: string) returns (ok: bool)
    ensures ok <==> ValidTemplate(template)
  {
    hide Split, Acceptable, NamesField;
    if template == "" {
      return false;
    }
    var parts := Split(template);
    if |parts| % 2 == 0 {
      return false;
    }
    var hasNumber, hasTime := false, false;
    var i := 1;
    while i < |parts|
      invariant 1 <= i <= |parts| && i % 2 == 1
      invariant PartsOk(parts, i)
      invariant hasNumber <==> Names(parts, i, Number)
      invariant hasTime <==> Names(parts, i, Time)
    {
      NamesNext(parts, i, Number);
      NamesNext(parts, i, Time);
      assert PartsOk(parts, |parts|) ==> Acceptable(parts[i]);
      var field;
      ok, field := ValidateIdentifier(parts[i]);
      if !ok {
        return;
      }
      hasNumber := hasNumber || field == Some(Number);
      hasTime := hasTime || field == Some(Time);
      i := i + 2;
    }
    if hasNumber && hasTime {
      return false;
    }
    if !hasNumber && !hasTime {
      return false;
    }
    return true;
  }

  /** The body of the loop: checks what stands between two '$', and tells which field it names. */
  method ValidateIdentifier(part: string) returns (ok: bool, field: Option<Field>)
    ensures ok <==> Acceptable(part)
    ensures ok ==> forall f :: NamesField(part, f) <==> field == Some(f)
  {
    hide Find, StringToUint;
    field := None;
    var formatPos := Find(part, '%');
    var identifier := part[..formatPos];
    if formatPos < |part| {
      if !ValidateFormatTag(part[formatPos..]) {
        return false, None;
      }
    }
    if identifier == "RepresentationID" {
      return false, None;
    } else if identifier == "Number" {
      field := Some(Number);
    } else if identifier == "Time" {
      field := Some(Time);
    } else if identifier == "" {
      if formatPos < |part| {
        return false, None;
      }
    } else if identifier == "Bandwidth" {
      field := Some(Bandwidth);
    } else {
      return false, None;
    }
    ok := true;
  }

  lemma NamesNext(parts: seq<string>, i: nat, field: Field)
    requires i < |parts| && i % 2 == 1 && |parts| % 2 == 1
    ensures Names(parts, i + 2, field) <==> Names(parts, i, field) || NamesField(parts[i], field)
  {
    hide FieldNamed, Identifier;
    if NamesField(parts[i], field) {
      assert Names(parts, i + 2, field);
    }
    if Names(parts, i + 2, field) {
      var j :| 0 <= j < i + 2 && j % 2 == 1 && NamesField(parts[j], field);
      assert j < i || j == i;
    }
  }

  // ---------------------------------------------------------------- names

  datatype Values = Values(number: nat, time: nat, bandwidth: nat) {
    function At(field: Field): nat {
      match field case Number => number case Time => time case Bandwidth => bandwidth
    }
  }

  /** Segment numbers start from 1, in 32-bit arithmetic. */
  function ValuesOf(time: nat, index: nat, bandwidth: nat): Values {
    Values((index + 1) % 0x1_0000_0000, time, bandwidth)
  }

  function RenderPiece(p: Piece, v: Values): string {
    match p
    case Literal(text) => text
    case Value(field, width) => Padded(v.At(field), width)
  }

  function Render(pieces: seq<Piece>, v: Values): string {
    if pieces == [] then "" else RenderPiece(pieces[0], v) + Render(pieces[1..], v)
  }

  /** The pieces of a template from part i on. */
  function PiecesFrom(parts: seq<string>, i: nat): (pieces: seq<Piece>)
    requires i <= |parts| && forall j :: i <= j < |parts| && j % 2 == 1 ==> Acceptable(parts[j])
    ensures |pieces| == |parts| - i
    decreases |parts| - i
  {
    if i == |parts| then []
    else [if i % 2 == 0 then Literal(parts[i]) else PieceOf(parts[i])] + PiecesFrom(parts, i + 1)
  }

  lemma {:induction false} NoLeadingZero(n: nat)
    ensures |Decimal(n)| > 1 ==> Decimal(n)[0] != '0'
  {
    if n >= 10 {
      NoLeadingZero(n / 10);
      if n / 10 < 10 {
        assert DigitValue(Decimal(n / 10)[0]) == n / 10 != 0;
      }
    }
  }

  lemma PaddedShows(n: nat, width: nat)
    ensures Shows(Padded(n, width), n, width)
  {
    NoLeadingZero(n);
    PaddedValue(n, width);
  }

  /** What stands for an identifier in the name: "$" for "$$", or the value of the field in decimal. */
  ghost predicate StandsFor(part: string, text: string, number: nat, time: nat, bandwidth: nat) {
    && (part == "" ==> text == "$")
    && (forall n :: Reads(part, "Number", n) ==> Shows(text, number, n))
    && (forall n :: Reads(part, "Time", n) ==> Shows(text, time, n))
    && (forall n :: Reads(part, "Bandwidth", n) ==> Shows(text, bandwidth, n))
  }

  lemma PieceStandsFor(part: string, v: Values)
    requires Acceptable(part)
    ensures StandsFor(part, RenderPiece(PieceOf(part), v), v.number, v.time, v.bandwidth)
  {
    hide Acceptable, Reads, Shows, Padded;
    forall n
      ensures Reads(part, "Number", n) ==> part != "" && PieceOf(part) == Value(Number, n)
      ensures Reads(part, "Time", n) ==> part != "" && PieceOf(part) == Value(Time, n)
      ensures Reads(part, "Bandwidth", n) ==> part != "" && PieceOf(part) == Value(Bandwidth, n)
    {
      ReadsPiece(part, "Number", Number, n);
      ReadsPiece(part, "Time", Time, n);
      ReadsPiece(part, "Bandwidth", Bandwidth, n);
    }
    if PieceOf(part).Value? {
      PaddedShows(v.At(PieceOf(part).field), PieceOf(part).width);
    }
  }

  function Flat(texts: seq<string>): string {
    if texts == [] then "" else Flat(texts[..|texts| - 1]) + texts[|texts| - 1]
  }

  lemma NothingFlat()
    ensures Flat([]) == ""
  {
  }

  lemma FlatNext(texts: seq<string>, text: string)
    ensures Flat(texts + [text]) == Flat(texts) + text
  {
    assert (texts + [text])[..|texts|] == texts;
  }

  /** Substitutes the identifiers of an accepted template. The DCHECKs of the original are asserted. */
  method GetSegmentName(template: string, time: nat, index: nat, bandwidth: nat)
    returns (name: string, ghost texts: seq<string>)
    requires ValidTemplate(template)
    requires time < 0x1_0000_0000_0000_0000 && index < 0x1_0000_0000 && bandwidth < 0x1_0000_0000
    ensures name == NameOf(template, time, index, bandwidth)
    ensures |texts| == |Split(template)| && name == Flat(texts)
    ensures forall i :: 0 <= i < |texts| && i % 2 == 0 ==> texts[i] == Split(template)[i]
    ensures forall i :: 0 <= i < |texts| && i % 2 == 1 ==>
              StandsFor(Split(template)[i], texts[i], (index + 1) % 0x1_0000_0000, time, bandwidth)
  {
    hide Split, Acceptable, PieceOf, RenderPiece, Render, PiecesFrom, ValuesOf, StandsFor, Flat;
    var parts := Split(template);
    assert |parts| % 2 == 1;
    ghost var v := ValuesOf(time, index, bandwidth);
    ghost var goal := Render(PiecesFrom(parts, 0), v);
    name, texts := "", [];
    assert name + goal == goal;
    NothingFlat();
    for i := 0 to |parts|
      invariant goal == name + Render(PiecesFrom(parts, i), v)
      invariant |texts| == i && name == Flat(texts)
      invariant forall k :: 0 <= k < i && k % 2 == 0 ==> texts[k] == parts[k]
      invariant forall k :: 0 <= k < i && k % 2 == 1 ==>
                  StandsFor(parts[k], texts[k], (index + 1) % 0x1_0000_0000, time, bandwidth)
    {
      RenderNext(parts, i, v, name);
      var text;
      if i % 2 == 0 {
        text := parts[i];
      } else {
        text := RenderIdentifier(parts[i], time, index, bandwidth);
      }
      FlatNext(texts, text);
      name, texts := name + text, texts + [text];
    }
    RenderEnd(parts, v, name);
  }

  lemma RenderNext(parts: seq<string>, i: nat, v: Values, name: string)
    requires i < |parts| && forall j :: i <= j < |parts| && j % 2 == 1 ==> Acceptable(parts[j])
    ensures var text := if i % 2 == 0 then parts[i] else RenderPiece(PieceOf(parts[i]), v);
            name + Render(PiecesFrom(parts, i), v) == (name + text) + Render(PiecesFrom(parts, i + 1), v)
  {
    hide Acceptable, PieceOf;
    var text := if i % 2 == 0 then parts[i] else RenderPiece(PieceOf(parts[i]), v);
    var pieces, rest := PiecesFrom(parts, i), PiecesFrom(parts, i + 1);
    assert pieces[1..] == rest;
    assert Render(pieces, v) == text + Render(rest, v);
    assert name + (text + Render(rest, v)) == (name + text) + Render(rest, v);
  }

  lemma RenderEnd(parts: seq<string>, v: Values, name: string)
    ensures name + Render(PiecesFrom(parts, |parts|), v) == name
  {
  }

  method RenderIdentifier(part: string, time: nat, index: nat, bandwidth: nat) returns (text: string)
    requires Acceptable(part)
    ensures text == RenderPiece(PieceOf(part), ValuesOf(time, index, bandwidth))
    ensures StandsFor(part, text, (index + 1) % 0x1_0000_0000, time, bandwidth)
  {
    hide Find, StringToUint, Padded, StandsFor;
    PieceStandsFor(part, ValuesOf(time, index, bandwidth));
    if part == "" {
      // "$$" is an escape sequence.
      return "$";
    }
    var formatPos := Find(part, '%');
    var identifier := part[..formatPos];
    assert identifier == "Number" || identifier == "Time" || identifier == "Bandwidth";
    var width := 1;
    if formatPos < |part| {
      var tag := part[formatPos..];
      assert ValidateFormatTag(tag);
      width := StringToUint(tag[2..|tag| - 1]).value;
    }
    if identifier == "Number" {
      text := Padded((index + 1) % 0x1_0000_0000, width);
    } else if identifier == "Time" {
      text := Padded(time, width);
    } else {
      text := Padded(bandwidth, width);
    }
  }

  // ---------------------------------------------------------------- different segments, different names

  ghost predicate Uses(pieces: seq<Piece>, field: Field) {
    exists i :: 0 <= i < |pieces| && pieces[i].Value? && pieces[i].field == field
  }

  /** The two valuations differ at most in `field` among the fields the pieces use. */
  ghost predicate DifferOnlyIn(pieces: seq<Piece>, field: Field, v: Values, v': Values) {
    forall i :: 0 <= i < |pieces| && pieces[i].Value? && pieces[i].field != field ==>
                  v.At(pieces[i].field) == v'.At(pieces[i].field)
  }

  lemma DifferOnlyInTail(pieces: seq<Piece>, field: Field, v: Values, v': Values)
    requires pieces != [] && DifferOnlyIn(pieces, field, v, v')
    ensures DifferOnlyIn(pieces[1..], field, v, v')
  {
    forall i | 0 <= i < |pieces[1..]| && pieces[1..][i].Value? && pieces[1..][i].field != field
      ensures v.At(pieces[1..][i].field) == v'.At(pieces[1..][i].field)
    {
      assert pieces[1..][i] == pieces[i + 1];
    }
  }

  lemma PieceGrows(p: Piece, field: Field, v: Values, v': Values)
    requires p.Value? && p.field != field ==> v.At(p.field) == v'.At(p.field)
    requires v.At(field) <= v'.At(field)
    ensures |RenderPiece(p, v)| <= |RenderPiece(p, v')|
  {
    if p.Value? && p.field == field {
      PaddedGrows(v.At(field), v'.At(field), p.width);
    }
  }

  /** A larger value never makes the name shorter. */
  lemma {:induction false} RenderGrows(pieces: seq<Piece>, field: Field, v: Values, v': Values)
    requires DifferOnlyIn(pieces, field, v, v') && v.At(field) <= v'.At(field)
    ensures |Render(pieces, v)| <= |Render(pieces, v')|
  {
    hide RenderPiece;
    if pieces != [] {
      DifferOnlyInTail(pieces, field, v, v');
      RenderGrows(pieces[1..], field, v, v');
      PieceGrows(pieces[0], field, v, v');
    }
  }

  lemma {:induction false} RenderInjective(pieces: seq<Piece>, field: Field, v: Values, v': Values)
    requires Uses(pieces, field) && DifferOnlyIn(pieces, field, v, v') && v.At(field) <= v'.At(field)
    requires Render(pieces, v) == Render(pieces, v')
    ensures v.At(field) == v'.At(field)
  {
    hide RenderPiece;
    var p, rest := pieces[0], pieces[1..];
    DifferOnlyInTail(pieces, field, v, v');
    RenderGrows(rest, field, v, v');
    PieceGrows(p, field, v, v');
    SplitEqual(RenderPiece(p, v), Render(rest, v), RenderPiece(p, v'), Render(rest, v'));
    if p.Value? && p.field == field {
      PieceInjective(p, v, v');
    } else {
      UsesTail(pieces, field);
      RenderInjective(rest, field, v, v');
    }
  }

  lemma UsesTail(pieces: seq<Piece>, field: Field)
    requires Uses(pieces, field) && !(pieces[0].Value? && pieces[0].field == field)
    ensures Uses(pieces[1..], field)
  {
    var i :| 0 <= i < |pieces| && pieces[i].Value? && pieces[i].field == field;
    assert pieces[1..][i - 1] == pieces[i];
  }

  /** Equal strings whose first parts and rests are in the same order of length split the same way. */
  lemma SplitEqual(a: string, b: string, a': string, b': string)
    requires a + b == a' + b' && |a| <= |a'| && |b| <= |b'|
    ensures a == a' && b == b'
  {
    assert |a| + |b| == |a + b| == |a' + b'| == |a'| + |b'|;
    assert a == (a + b)[..|a|] && b == (a + b)[|a|..];
    assert a' == (a' + b')[..|a|] && b' == (a' + b')[|a|..];
  }

  lemma PieceInjective(p: Piece, v: Values, v': Values)
    requires p.Value? && RenderPiece(p, v) == RenderPiece(p, v')
    ensures v.At(p.field) == v'.At(p.field)
  {
    PaddedValue(v.At(p.field), p.width);
    PaddedValue(v'.At(p.field), p.width);
  }

  lemma {:induction false} PieceAt(parts: seq<string>, i: nat, k: nat)
    requires i <= k < |parts| && forall j :: i <= j < |parts| && j % 2 == 1 ==> Acceptable(parts[j])
    ensures PiecesFrom(parts, i)[k - i] == if k % 2 == 0 then Literal(parts[k]) else PieceOf(parts[k])
    decreases k - i
  {
    hide Acceptable;
    if i < k {
      PieceAt(parts, i + 1, k);
    }
  }

  /** The pieces use a field exactly when a part names it. */
  lemma UsesIffNamed(parts: seq<string>, field: Field)
    requires PartsOk(parts, |parts|)
    ensures Uses(PiecesFrom(parts, 0), field) <==> Names(parts, |parts|, field)
  {
    hide PiecesFrom, Acceptable, PieceOf, NamesField;
    var pieces := PiecesFrom(parts, 0);
    forall k | 0 <= k < |parts|
      ensures (pieces[k].Value? && pieces[k].field == field) <==> (k % 2 == 1 && NamesField(parts[k], field))
    {
      PieceAt(parts, 0, k);
      if k % 2 == 1 {
        PieceNames(parts[k], field);
      }
    }
    if Names(parts, |parts|, field) {
      var k :| 0 <= k < |parts| && k % 2 == 1 && NamesField(parts[k], field);
      assert pieces[k].Value? && pieces[k].field == field;
    }
  }

  lemma PieceNames(part: string, field: Field)
    requires Acceptable(part)
    ensures (PieceOf(part).Value? && PieceOf(part).field == field) <==> NamesField(part, field)
  {
    hide StringToUint;
  }

  /** What GetSegmentName returns. */
  ghost function NameOf(template: string, time: nat, index: nat, bandwidth: nat): string
    requires ValidTemplate(template)
  {
    Render(PiecesFrom(Split(template), 0), ValuesOf(time, index, bandwidth))
  }

  /** For every accepted template and a fixed bandwidth, two segments have the same name exactly if they have
      the same index, if the template uses $Number$, or the same start time, if it uses $Time$. */
  lemma NamesAreInjective(template: string, time: nat, index: nat, time': nat, index': nat, bandwidth: nat)
    requires ValidTemplate(template) && index < 0x1_0000_0000 && index' < 0x1_0000_0000
    ensures var parts := Split(template);
            var same := NameOf(template, time, index, bandwidth) == NameOf(template, time', index', bandwidth);
            && (Names(parts, |parts|, Number) ==> (same <==> index == index'))
            && (Names(parts, |parts|, Time) ==> (same <==> time == time'))
  {
    hide Split, PiecesFrom, Render, Names, Uses, Acceptable, DifferOnlyIn;
    var parts := Split(template);
    var pieces := PiecesFrom(parts, 0);
    UsesIffNamed(parts, Number);
    UsesIffNamed(parts, Time);
    var field := if Names(parts, |parts|, Number) then Number else Time;
    var v, v' := ValuesOf(time, index, bandwidth), ValuesOf(time', index', bandwidth);
    OnlyOneVaries(pieces, field, v, v');
    if v.At(field) == v'.At(field) {
      RenderSame(pieces, field, v, v');
    } else if Render(pieces, v) == Render(pieces, v') {
      if v.At(field) <= v'.At(field) {
        RenderInjective(pieces, field, v, v');
      } else {
        RenderInjective(pieces, field, v', v);
      }
    }
  }

  lemma {:induction false} RenderSame(pieces: seq<Piece>, field: Field, v: Values, v': Values)
    requires DifferOnlyIn(pieces, field, v, v') && v.At(field) == v'.At(field)
    ensures Render(pieces, v) == Render(pieces, v')
  {
    if pieces != [] {
      DifferOnlyInTail(pieces, field, v, v');
      RenderSame(pieces[1..], field, v, v');
    }
  }

  lemma OnlyOneVaries(pieces: seq<Piece>, field: Field, v: Values, v': Values)
    requires v.bandwidth == v'.bandwidth && field != Bandwidth
    requires !Uses(pieces, if field == Number then Time else Number)
    ensures DifferOnlyIn(pieces, field, v, v') && DifferOnlyIn(pieces, field, v', v)
  {
  }
}
