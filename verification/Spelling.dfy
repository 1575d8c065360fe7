/**
 What references and newlines spell, in the terms of XML 1.0 and without the tables and digits the
 code shares between reader and printer.
 */
module Spelling {
  import opened XmlBytes
  import opened CharRef
  import opened Decode
  import opened Escape
  import opened XmlParser

  // ---------------------------------------------------------------- numerals

  /** The digit of a value below 16. */
  function DigitOf(d: nat, upper: bool): (b: byte)
    requires d < 16
  {
    (if upper then "0123456789ABCDEF" else "0123456789abcdef")[d] as int % 256
  }

  /** n in base 10 or 16, by repeated division. */
  function Numeral(n: nat, hex: bool, upper: bool): (r: Bytes)
    ensures r != []
  {
    var radix := if hex then 16 else 10;
    if n < radix then [DigitOf(n, upper)] else Numeral(n / radix, hex, upper) + [DigitOf(n % radix, upper)]
  }

  lemma DigitIsRead(d: nat, hex: bool, upper: bool)
    requires d < if hex then 16 else 10
    ensures IsDigit(DigitOf(d, upper), hex) && Digit(DigitOf(d, upper), hex) == d
  {
  }

  lemma {:induction false} NumeralIsRead(n: nat, hex: bool, upper: bool)
    ensures AllDigits(Numeral(n, hex, upper), hex) && Positional(Numeral(n, hex, upper), hex) == n
  {
    hide DigitOf, Digit, IsDigit;
    var radix := if hex then 16 else 10;
    var ds := Numeral(n, hex, upper);
    DigitIsRead(n % radix, hex, upper);
    if n < radix {
      assert ds[..0] == [] && Positional([], hex) == 0;
    } else {
      NumeralIsRead(n / radix, hex, upper);
      assert ds[..|ds| - 1] == Numeral(n / radix, hex, upper);
    }
  }

  function Mark(hex: bool): string { if hex then "&#x" else "&#" }

  /** The reference to a code point. */
  function NumberText(c: nat, hex: bool, upper: bool): Bytes {
    Ascii(Mark(hex)) + Numeral(c, hex, upper) + Ascii(";")
  }

  lemma NumberTextIs(c: nat, hex: bool, upper: bool)
    ensures NumberText(c, hex, upper) == CharRef.Text(Numeral(c, hex, upper), hex)
  {
    assert Ascii("&#x") == [AMP, HASH] + [LOWERX] && Ascii("&#") == [AMP, HASH] && Ascii(";") == [SEMI];
    assert [AMP, HASH] + [] == [AMP, HASH];
  }

  // ---------------------------------------------------------------- powers of the base

  function Base(hex: bool): nat { if hex then 16 else 10 }

  /** A power of the base, by repeated division. */
  predicate IsPower(n: nat, hex: bool) {
    n == 1 || (n >= Base(hex) && n % Base(hex) == 0 && IsPower(n / Base(hex), hex))
  }

  ghost predicate OneAndZeros(ds: Bytes) {
    ds != [] && ds[0] == '1' as int && forall i :: 1 <= i < |ds| ==> ds[i] == '0' as int
  }

  lemma DigitsAre(d: nat, upper: bool)
    requires d < 16
    ensures DigitOf(d, upper) == '0' as int <==> d == 0
    ensures DigitOf(d, upper) == '1' as int <==> d == 1
  {
  }

  lemma {:induction false} PowersAre(n: nat, hex: bool, upper: bool)
    requires n > 0
    ensures var ds := Numeral(n, hex, upper); ds[0] != '0' as int && (OneAndZeros(ds) <==> IsPower(n, hex))
  {
    hide DigitOf;
    var ds, radix := Numeral(n, hex, upper), Base(hex);
    DigitsAre(n % radix, upper);
    if n >= radix {
      var init := Numeral(n / radix, hex, upper);
      PowersAre(n / radix, hex, upper);
      assert ds == init + [DigitOf(n % radix, upper)];
      OneMoreDigit(init, DigitOf(n % radix, upper));
    }
  }

  lemma OneMoreDigit(init: Bytes, d: byte)
    requires init != []
    ensures (init + [d])[0] == init[0]
    ensures OneAndZeros(init + [d]) <==> OneAndZeros(init) && d == '0' as int
  {
    var ds := init + [d];
    assert ds[|init|] == d && forall i :: 0 <= i < |init| ==> ds[i] == init[i];
  }

  lemma {:induction false} OneAndZerosIsPower(ds: Bytes, hex: bool)
    requires OneAndZeros(ds)
    ensures AllDigits(ds, hex) && Positional(ds, hex) == Power(hex, |ds| - 1)
  {
    var n := |ds| - 1;
    if n == 0 {
      assert ds[..0] == [] && Positional([], hex) == 0;
    } else {
      assert forall i :: 0 <= i < n ==> ds[..n][i] == ds[i];
      OneAndZerosIsPower(ds[..n], hex);
    }
  }

  /** Too large, and yet summed up to the largest code point: exactly the powers of the base. */
  lemma LoneOnes(n: nat, hex: bool, upper: bool)
    requires n > MAX_CODE_POINT
    ensures LoneOne(Numeral(n, hex, upper), hex, 0) <==> IsPower(n, hex)
  {
    hide Numeral, IsPower, Power, Positional;
    var ds := Numeral(n, hex, upper);
    PowersAre(n, hex, upper);
    NumeralIsRead(n, hex, upper);
    if OneAndZeros(ds) {
      OneAndZerosIsPower(ds, hex);
      PlaceIsPower(hex, |ds| - 1);
      assert LoneOneAt(ds, hex, 0, 0);
    }
    if LoneOne(ds, hex, 0) {
      var j :| 0 <= j < |ds| && LoneOneAt(ds, hex, 0, j);
      assert j == 0;
    }
  }

  /**
   The numeral of any number, in either base and case: a code point is read as that; a larger number
   is not read at all, unless it is a power of the base, which is read as the largest code point.
   */
  lemma NumberIsRead(c: nat, hex: bool, upper: bool, rest: Bytes)
    ensures Reference(NumberText(c, hex, upper) + rest) ==
      if c <= 0x10FFFF then Take(Utf8(c), |NumberText(c, hex, upper)|)
      else if IsPower(c, hex) then Take(Utf8(0x10FFFF), |NumberText(c, hex, upper)|)
      else Reject
    ensures c <= 0x10FFFF ==> FromUtf8(Utf8(c)) == c
  {
    hide Numeral, Reference, FromUtf8, Positional, Weighted, IsPower, LoneOne;
    NumberTextIs(c, hex, upper);
    NumeralIsRead(c, hex, upper);
    DigitReference(Numeral(c, hex, upper), hex, rest);
    if c <= 0x10FFFF {
      Utf8RoundTrip(c);
    } else {
      LoneOnes(c, hex, upper);
    }
    if c <= 0x10FFFF || IsPower(c, hex) {
      ReferenceSum(Numeral(c, hex, upper), hex, rest);
    }
  }

  lemma ReferenceSum(ds: Bytes, hex: bool, rest: Bytes)
    requires AllDigits(ds, hex) && (Positional(ds, hex) <= MAX_CODE_POINT || LoneOne(ds, hex, 0))
    ensures Reference(CharRef.Text(ds, hex) + rest) ==
      Take(Utf8(if Positional(ds, hex) <= MAX_CODE_POINT then Positional(ds, hex) else MAX_CODE_POINT),
        |CharRef.Text(ds, hex)|)
  {
    hide Positional, Weighted, LoneOne;
    ReferenceBody(ds, hex, rest);
    AcceptedSum(ds, hex);
  }

  // ---------------------------------------------------------------- the predefined entities

  /** Section 4.6 of XML 1.0. */
  datatype Predefined = Quot | Amp | Apos | Lt | Gt

  function EntityText(e: Predefined): string {
    match e
    case Quot => "&quot;"
    case Amp => "&amp;"
    case Apos => "&apos;"
    case Lt => "&lt;"
    case Gt => "&gt;"
  }

  function EntityChar(e: Predefined): byte {
    match e
    case Quot => '\"' as int
    case Amp => '&' as int
    case Apos => '\'' as int
    case Lt => '<' as int
    case Gt => '>' as int
  }

  function Index(e: Predefined): nat {
    match e case Quot => 0 case Amp => 1 case Apos => 2 case Lt => 3 case Gt => 4
  }

  /** The table spells the entities and has their values. */
  lemma TableIs(e: Predefined)
    ensures [AMP] + ENTITIES[Index(e)].pattern + [SEMI] == Ascii(EntityText(e))
    ensures ENTITIES[Index(e)].value == EntityChar(e)
    ensures |Ascii(EntityText(e))| == |ENTITIES[Index(e)].pattern| + 2 && Ascii(EntityText(e))[0] == AMP
    ensures |Ascii(EntityText(e))| > 1 && Ascii(EntityText(e))[1] != HASH
  {
    var p := ENTITIES[Index(e)].pattern;
    match e
    case Quot => assert Ascii("&quot;") == [38, 113, 117, 111, 116, 59];
    case Amp => assert Ascii("&amp;") == [38, 97, 109, 112, 59];
    case Apos => assert Ascii("&apos;") == [38, 97, 112, 111, 115, 59];
    case Lt => assert Ascii("&lt;") == [38, 108, 116, 59];
    case Gt => assert Ascii("&gt;") == [38, 103, 116, 59];
  }

  lemma EntityPiece(s: Bytes, p: nat, e: Predefined, m: Mode)
    requires m.entities && StartsAt(s, p, Ascii(EntityText(e)))
    ensures NextPiece(s, p, m) == Emit([EntityChar(e)], |Ascii(EntityText(e))|)
  {
    hide Spelled, StartsAt, Ascii;
    TableIs(e);
    StartBytesAt(s, p, Ascii(EntityText(e)));
    SpelledIs(s, p, Index(e));
  }

  lemma StartBytesAt(s: Bytes, p: nat, x: Bytes)
    requires StartsAt(s, p, x) && |x| > 1
    ensures p + 1 < |s| && s[p] == x[0] && s[p + 1] == x[1]
  {
    StartBytes(s, p, x);
    assert s[p + 0] == x[0];
  }

  /** Which bytes are printed as what: in text `&`, `<` and `>`, in attributes the quotes as well. */
  lemma PrintedAs(b: byte, style: Style)
    ensures EscapeByte(b, style) ==
      if b == '&' as int then Ascii("&amp;")
      else if b == '<' as int then Ascii("&lt;")
      else if b == '>' as int then Ascii("&gt;")
      else if b == '\"' as int && style.Attribute? then Ascii("&quot;")
      else if b == '\'' as int && style.Attribute? && style.apos then Ascii("&apos;")
      else [b]
  {
    hide Ascii;
    TableIs(Quot);
    TableIs(Amp);
    TableIs(Apos);
    TableIs(Lt);
    TableIs(Gt);
    if Flagged(b, style) {
      FlaggedHasEntity(b, style);
      var i := EntityOf(b, 0);
      assert i == 0 || i == 1 || i == 2 || i == 3 || i == 4;
    }
  }

  // ---------------------------------------------------------------- whole strings

  /** A part of a string as it stands in a document. */
  datatype Segment =
    | Plain(bytes: Bytes)
    | Entity(e: Predefined)
    | Newline(text: string)
    | Number(c: nat, hex: bool, upper: bool)

  predicate ValidNewline(t: string) { t == "\n" || t == "\r" || t == "\r\n" || t == "\n\r" }

  ghost predicate ValidSegment(g: Segment) {
    match g
    case Plain(bytes) => bytes != [] && forall b :: b in bytes ==> PlainByte(b)
    case Entity(_) => true
    case Newline(text) => ValidNewline(text)
    case Number(_, _, _) => true
  }

  predicate PlainByte(b: byte) { b != '&' as int && b != '\r' as int && b != '\n' as int }

  function SegmentText(g: Segment): Bytes {
    match g
    case Plain(bytes) => bytes
    case Entity(e) => Ascii(EntityText(e))
    case Newline(text) => Ascii(text)
    case Number(c, hex, upper) => NumberText(c, hex, upper)
  }

  /**
   What it stands for, in a place where references are processed and where they are not. A number that
   is no code point stands for itself, and a power of the base for the largest code point.
   */
  function Meaning(g: Segment, references: bool): Bytes {
    match g
    case Plain(bytes) => bytes
    case Entity(e) => if references then [EntityChar(e)] else SegmentText(g)
    case Newline(_) => ['\n' as int]
    case Number(c, hex, _) =>
      if !references || (c > 0x10FFFF && !IsPower(c, hex)) then SegmentText(g)
      else Utf8(if c <= 0x10FFFF then c else 0x10FFFF)
  }

  /** Newlines do not touch. */
  ghost predicate ValidSegments(gs: seq<Segment>) {
    && (forall i :: 0 <= i < |gs| ==> ValidSegment(gs[i]))
    && forall i :: 0 <= i < |gs| - 1 ==> gs[i].Newline? ==> !gs[i + 1].Newline?
  }

  /** gs[k..] as it stands. */
  function SegmentsText(gs: seq<Segment>, k: nat): Bytes
    requires k <= |gs|
    decreases |gs| - k
  {
    if k == |gs| then [] else SegmentText(gs[k]) + SegmentsText(gs, k + 1)
  }

  /** What gs[..k] stands for. */
  ghost function Meanings(gs: seq<Segment>, k: nat, references: bool): Bytes
    requires k <= |gs| && ValidSegments(gs)
  {
    if k == 0 then [] else Meanings(gs, k - 1, references) + Meaning(gs[k - 1], references)
  }

  /** Bytes that stand for themselves. */
  ghost predicate Untouched(v: Bytes, references: bool) {
    forall b :: b in v ==> PlainByte(b) || (b == AMP && !references)
  }

  /** The decoder reads one segment. */
  lemma {:induction false} PlainIsRead(s: Bytes, p: nat, out: Bytes, bytes: Bytes, rest: Bytes, m: Mode)
    requires |out| <= p <= |s| && s[p..] == bytes + rest && Untouched(bytes, m.entities)
    ensures p + |bytes| <= |s| && s[p + |bytes|..] == rest
    ensures DecodeFrom(s, p, out, m) == DecodeFrom(s, p + |bytes|, out + bytes, m)
    decreases |bytes|
  {
    hide DecodeFrom, Spelled;
    Advance(s, p, bytes, rest);
    if bytes == [] {
      assert out + bytes == out;
    } else {
      var b := bytes[0];
      assert b in bytes && s[p] == s[p..][0] == b;
      assert s[p + 1..] == s[p..][1..] == bytes[1..] + rest;
      DecodeStep(s, p, out, m);
      PlainIsRead(s, p + 1, out + [b], bytes[1..], rest, m);
      assert out + [b] + bytes[1..] == out + bytes;
    }
  }

  lemma NewlinePiece(s: Bytes, p: nat, text: string, rest: Bytes, m: Mode)
    requires m.newlines && p <= |s| && s[p..] == Ascii(text) + rest && ValidNewline(text)
    requires rest != [] ==> rest[0] != CR && rest[0] != LF
    ensures p < |s| && NextPiece(s, p, m) == Emit(['\n' as int], |Ascii(text)|)
  {
    hide Spelled;
    Advance(s, p, Ascii(text), rest);
    assert forall i :: p <= i < |s| ==> s[i] == s[p..][i - p];
    assert Ascii("\n") == [LF] && Ascii("\r") == [CR] && Ascii("\r\n") == [CR, LF] && Ascii("\n\r") == [LF, CR];
  }

  lemma NumberPiece(s: Bytes, p: nat, c: nat, hex: bool, upper: bool, rest: Bytes, m: Mode)
    requires m.entities && p <= |s| && s[p..] == NumberText(c, hex, upper) + rest
    ensures p < |s| && NextPiece(s, p, m) ==
      if c <= 0x10FFFF then Emit(Utf8(c), |NumberText(c, hex, upper)|)
      else if IsPower(c, hex) then Emit(Utf8(0x10FFFF), |NumberText(c, hex, upper)|)
      else Emit([AMP], 1)
  {
    hide Spelled, Reference, IsPower;
    NumberIsRead(c, hex, upper, rest);
    NumberTextIs(c, hex, upper);
    assert s[p] == s[p..][0] && s[p + 1] == s[p..][1];
  }

  /** Where references are not processed they are bytes like others. */
  lemma ReferenceIsText(g: Segment)
    requires g.Entity? || g.Number?
    ensures Untouched(SegmentText(g), false)
  {
    hide Ascii, Numeral, IsDigit;
    match g
    case Entity(e) => EntityIsText(e);
    case Number(c, hex, upper) =>
      NumberTextIs(c, hex, upper);
      NumeralIsRead(c, hex, upper);
      forall b | b in Numeral(c, hex, upper)
        ensures PlainByte(b)
      {
        DigitIsPlain(b, hex);
      }
  }

  lemma NumberTail(c: nat, hex: bool, upper: bool)
    ensures var t := NumberText(c, hex, upper); t != [] && t[0] == AMP && Untouched(t[1..], true)
  {
    hide Numeral, IsDigit;
    NumberTextIs(c, hex, upper);
    NumeralIsRead(c, hex, upper);
    var t := NumberText(c, hex, upper);
    forall b | b in t[1..]
      ensures PlainByte(b)
    {
      if b in Numeral(c, hex, upper) {
        DigitIsPlain(b, hex);
      }
    }
  }

  /** A reference that is not accepted: its ampersand is copied, and so is what follows. */
  lemma NumberIsCopied(s: Bytes, p: nat, out: Bytes, c: nat, hex: bool, upper: bool, rest: Bytes, m: Mode)
    requires |out| <= p <= |s| && s[p..] == NumberText(c, hex, upper) + rest && m.entities
    requires c > 0x10FFFF && !IsPower(c, hex)
    ensures var t := NumberText(c, hex, upper);
      p + |t| <= |s| && s[p + |t|..] == rest && DecodeFrom(s, p, out, m) == DecodeFrom(s, p + |t|, out + t, m)
  {
    hide DecodeFrom, NextPiece, NumberText, IsPower, Untouched;
    var t := NumberText(c, hex, upper);
    NumberTail(c, hex, upper);
    NumberPiece(s, p, c, hex, upper, rest, m);
    DecodeStep(s, p, out, m);
    assert t == [AMP] + t[1..];
    Advance(s, p, [AMP], t[1..] + rest);
    PlainIsRead(s, p + 1, out + [AMP], t[1..], rest, m);
    assert out + [AMP] + t[1..] == out + t;
  }

  lemma EntityIsText(e: Predefined)
    ensures Untouched(Ascii(EntityText(e)), false)
  {
    TableIs(e);
  }

  lemma DigitIsPlain(b: byte, hex: bool)
    ensures IsDigit(b, hex) ==> PlainByte(b)
  {
  }

  lemma SegmentIsRead(s: Bytes, p: nat, out: Bytes, g: Segment, rest: Bytes, m: Mode)
    requires |out| <= p <= |s| && s[p..] == SegmentText(g) + rest && ValidSegment(g) && m.newlines
    requires g.Newline? && rest != [] ==> rest[0] != CR && rest[0] != LF
    ensures var q := p + |SegmentText(g)|;
      && q <= |s| && s[q..] == rest && |out + Meaning(g, m.entities)| <= q
      && DecodeFrom(s, p, out, m) == DecodeFrom(s, q, out + Meaning(g, m.entities), m)
  {
    hide DecodeFrom, NextPiece, NumberText, Utf8, Ascii, Untouched, IsPower;
    Advance(s, p, SegmentText(g), rest);
    match g
    case Plain(bytes) => PlainIsUntouched(bytes, m.entities); PlainIsRead(s, p, out, bytes, rest, m);
    case Entity(e) =>
      if m.entities {
        TableIs(e);
        EntityPiece(s, p, e, m);
        DecodeStep(s, p, out, m);
      } else {
        ReferenceIsText(g);
        PlainIsRead(s, p, out, SegmentText(g), rest, m);
      }
    case Newline(text) =>
      NewlinePiece(s, p, text, rest, m);
      DecodeStep(s, p, out, m);
    case Number(c, hex, upper) =>
      if m.entities && c > 0x10FFFF && !IsPower(c, hex) {
        NumberIsCopied(s, p, out, c, hex, upper, rest, m);
      } else if m.entities {
        NumberPiece(s, p, c, hex, upper, rest, m);
        DecodeStep(s, p, out, m);
      } else {
        ReferenceIsText(g);
        PlainIsRead(s, p, out, SegmentText(g), rest, m);
      }
  }

  lemma PlainIsUntouched(v: Bytes, references: bool)
    requires forall b :: b in v ==> PlainByte(b)
    ensures Untouched(v, references)
  {
  }

  /** No segment but a newline starts with one. */
  lemma StartOfRest(gs: seq<Segment>, k: nat)
    requires ValidSegments(gs) && k <= |gs| && (k < |gs| ==> !gs[k].Newline?)
    ensures var r := SegmentsText(gs, k); r != [] ==> r[0] != CR && r[0] != LF
  {
    if k < |gs| {
      match gs[k]
      case Plain(bytes) => assert bytes[0] in bytes;
      case Entity(e) => TableIs(e);
      case Number(c, hex, upper) => NumberTextIs(c, hex, upper);
    }
  }

  lemma {:induction false} SegmentsAreDecoded(s: Bytes, p: nat, gs: seq<Segment>, k: nat, m: Mode)
    requires ValidSegments(gs) && k <= |gs| && m.newlines
    requires p <= |s| && s[p..] == SegmentsText(gs, k) && |Meanings(gs, k, m.entities)| <= p
    ensures DecodeFrom(s, p, Meanings(gs, k, m.entities), m) == Meanings(gs, |gs|, m.entities)
    decreases |gs| - k
  {
    hide DecodeFrom, SegmentText, Meaning, ValidSegment;
    if k == |gs| {
      DecodeStep(s, p, Meanings(gs, k, m.entities), m);
    } else {
      var rest := SegmentsText(gs, k + 1);
      if gs[k].Newline? {
        StartOfRest(gs, k + 1);
      }
      SegmentIsRead(s, p, Meanings(gs, k, m.entities), gs[k], rest, m);
      SegmentsAreDecoded(s, p + |SegmentText(gs[k])|, gs, k + 1, m);
    }
  }

  /**
   Any string of plain bytes, predefined entities, character references and newlines is read, up to a
   NUL, as what it means; with collapsing on, as the words of that.
   */
  lemma SegmentsAreRead(gs: seq<Segment>, m: Mode)
    requires ValidSegments(gs) && m.newlines
    ensures var meaning := Meanings(gs, |gs|, m.entities);
      && (!m.collapse ==> Value(SegmentsText(gs, 0), m) == CStr(meaning))
      && (m.collapse && NoNul(meaning) ==> Value(SegmentsText(gs, 0), m) == Join(Words(meaning, 0)))
  {
    hide DecodeFrom, SegmentsText, Words;
    var s := SegmentsText(gs, 0);
    assert s[0..] == s;
    SegmentsAreDecoded(s, 0, gs, 0, m);
    if m.collapse && NoNul(DecodeFrom(s, 0, [], m)) {
      CollapsedValue(s, m);
    }
  }

  /**
   What a string means in its place: newlines become line feeds everywhere, references are processed
   in attributes and text if the settings say so, and white space collapses in text only.
   */
  lemma PlacesRead(gs: seq<Segment>, cfg: Config)
    requires ValidSegments(gs)
    ensures var v, n := SegmentsText(gs, 0), |gs|;
      && Value(v, AttrMode(cfg)) == CStr(Meanings(gs, n, cfg.entities))
      && (cfg.whitespace != CollapseSpace ==> Value(v, TextMode(cfg)) == CStr(Meanings(gs, n, cfg.entities)))
      && (cfg.whitespace == CollapseSpace && NoNul(Meanings(gs, n, cfg.entities)) ==>
           Value(v, TextMode(cfg)) == Join(Words(Meanings(gs, n, cfg.entities), 0)))
      && Value(v, LINES) == CStr(Meanings(gs, n, false))
  {
    hide Value, SegmentsText, Meanings, Words;
    SegmentsAreRead(gs, AttrMode(cfg));
    SegmentsAreRead(gs, TextMode(cfg));
    SegmentsAreRead(gs, LINES);
  }

  ghost predicate PlainText(v: Bytes) {
    NoNul(v) && forall b :: b in v ==> PlainByte(b)
  }

  /** In particular each of the five, between any plain bytes. */
  lemma EntityIsRead(a: Bytes, e: Predefined, b: Bytes, m: Mode)
    requires PlainText(a) && PlainText(b) && m.entities && m.newlines && !m.collapse
    ensures Value(a + Ascii(EntityText(e)) + b, m) == a + [EntityChar(e)] + b
  {
    hide DecodeFrom, PlainText, Ascii;
    EntityDecoded(a, e, b, m);
    NoNulThrough(a, e, b);
    CStrIs(a + [EntityChar(e)] + b, a + [EntityChar(e)] + b);
  }

  lemma NoNulThrough(a: Bytes, e: Predefined, b: Bytes)
    requires PlainText(a) && PlainText(b)
    ensures NoNul(a + [EntityChar(e)] + b)
  {
  }

  lemma EntityDecoded(a: Bytes, e: Predefined, b: Bytes, m: Mode)
    requires PlainText(a) && PlainText(b) && m.entities && m.newlines
    ensures DecodeFrom(a + Ascii(EntityText(e)) + b, 0, [], m) == a + [EntityChar(e)] + b
  {
    hide DecodeFrom, Ascii, PlainByte;
    var t := Ascii(EntityText(e));
    var s := a + t + b;
    assert s[0..] == a + (t + b) && b + [] == b && [] + a == a;
    PlainIsRead(s, 0, [], a, t + b, m);
    SegmentIsRead(s, |a|, a, Segment.Entity(e), b, m);
    PlainIsRead(s, |a| + |t|, a + [EntityChar(e)], b, [], m);
    DecodeStep(s, |s|, a + [EntityChar(e)] + b, m);
  }
}
