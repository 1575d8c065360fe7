/** The printer's escaping of text and attribute values, and its inverse. */
module Escape {
  import opened XmlBytes
  import opened CharRef
  import opened Decode

  /** Which of the printer's two flag tables applies, and whether its first one covers apostrophes. */
  datatype Style = Text | Attribute(apos: bool)

  predicate Flagged(b: byte, style: Style) {
    match style
    case Text => b == AMP || b == LT || b == GT
    case Attribute(apos) => b == QUOTE || b == AMP || b == LT || b == GT || (apos && b == APOS)
  }

  /** The first table entry from the i-th on with value b. */
  function EntityOf(b: byte, i: nat): (r: nat)
    requires i <= 5
    ensures i <= r <= 5
    ensures r < 5 ==> ENTITIES[r].value == b
    ensures forall j :: i <= j < r ==> ENTITIES[j].value != b
    decreases 5 - i
  {
    if i == 5 || ENTITIES[i].value == b then i else EntityOf(b, i + 1)
  }

  lemma FlaggedHasEntity(b: byte, style: Style)
    requires Flagged(b, style)
    ensures EntityOf(b, 0) < 5 && 0 < b < 64
  {
    assert ENTITIES[0].value == QUOTE && ENTITIES[1].value == AMP && ENTITIES[2].value == APOS;
    assert ENTITIES[3].value == LT && ENTITIES[4].value == GT;
  }

  /** The reference to the entity with value b. */
  function Named(b: byte, style: Style): (r: Bytes)
    requires Flagged(b, style)
    ensures |r| > 1 && r[0] == AMP
  {
    FlaggedHasEntity(b, style);
    [AMP] + ENTITIES[EntityOf(b, 0)].pattern + [SEMI]
  }

  function EscapeByte(b: byte, style: Style): (r: Bytes)
    ensures |r| >= 1
  {
    if Flagged(b, style) then Named(b, style) else [b]
  }

  /** The escaped form of v[k..], byte by byte. */
  function Escaped(v: Bytes, k: nat, style: Style): Bytes
    requires k <= |v|
    decreases |v| - k
  {
    if k == |v| then [] else EscapeByte(v[k], style) + Escaped(v, k + 1, style)
  }

  // ---------------------------------------------------------------- no delimiters

  /** The bytes that would end the text early when it is read back. */
  predicate Delimits(b: byte, style: Style) {
    b == LT || (style.Attribute? && b == QUOTE)
  }

  lemma EscapedByteIsClean(b: byte, style: Style, i: nat)
    requires i < |EscapeByte(b, style)|
    ensures !Delimits(EscapeByte(b, style)[i], style)
    ensures b != 0 && b != CR ==> EscapeByte(b, style)[i] != 0 && EscapeByte(b, style)[i] != CR
  {
    if Flagged(b, style) {
      FlaggedHasEntity(b, style);
      var e := EntityOf(b, 0);
      assert e == 0 || e == 1 || e == 2 || e == 3 || e == 4;
    }
  }

  /** Escaped text holds no delimiter of its style, and no NUL or CR that was not there before. */
  lemma {:induction false} EscapedIsClean(v: Bytes, k: nat, style: Style)
    requires k <= |v|
    ensures forall i :: 0 <= i < |Escaped(v, k, style)| ==> !Delimits(Escaped(v, k, style)[i], style)
    ensures (forall i :: k <= i < |v| ==> v[i] != 0 && v[i] != CR) ==>
      forall i :: 0 <= i < |Escaped(v, k, style)| ==> Escaped(v, k, style)[i] != 0 && Escaped(v, k, style)[i] != CR
    decreases |v| - k
  {
    if k < |v| {
      EscapedIsClean(v, k + 1, style);
      var head, tail := EscapeByte(v[k], style), Escaped(v, k + 1, style);
      forall i | 0 <= i < |head + tail|
        ensures !Delimits((head + tail)[i], style)
        ensures (forall i :: k <= i < |v| ==> v[i] != 0 && v[i] != CR) ==>
          (head + tail)[i] != 0 && (head + tail)[i] != CR
      {
        if i < |head| {
          EscapedByteIsClean(v[k], style, i);
        } else {
          assert (head + tail)[i] == tail[i - |head|];
        }
      }
    }
  }

  // ---------------------------------------------------------------- round trip

  const READ_MODE := Mode(true, true, false)

  /** If t has a + b left at p, it has a there and b left after it. */
  lemma Advance(t: Bytes, p: nat, a: Bytes, b: Bytes)
    requires p <= |t| && t[p..] == a + b
    ensures p + |a| <= |t| && StartsAt(t, p, a) && t[p + |a|..] == b
    ensures |t| == p + |a| + |b|
  {
    assert t[p..p + |a|] == t[p..][..|a|] == a;
    assert t[p + |a|..] == t[p..][|a|..] == b;
  }

  /** The decoder reads one escaped byte back as the byte it came from. */
  lemma EscapedPiece(t: Bytes, p: nat, b: byte, style: Style)
    requires b != CR && StartsAt(t, p, EscapeByte(b, style))
    requires b == LF ==> p + 1 < |t| ==> t[p + 1] != CR
    ensures NextPiece(t, p, READ_MODE) == Emit([b], |EscapeByte(b, style)|)
  {
    var x := EscapeByte(b, style);
    StartBytes(t, p, x);
    if Flagged(b, style) {
      FlaggedHasEntity(b, style);
      var e := EntityOf(b, 0);
      assert t[p + 1] == x[1] == ENTITIES[e].pattern[0] != HASH;
      SpelledIs(t, p, e);
    }
  }

  lemma StartBytes(t: Bytes, p: nat, x: Bytes)
    requires StartsAt(t, p, x)
    ensures forall i :: 0 <= i < |x| ==> x[i] == t[p + i]
  {
    var y := t[p..p + |x|];
    assert forall i :: 0 <= i < |x| ==> y[i] == t[p + i];
  }

  /** No two entities start with the same two bytes. */
  lemma EntitiesDiffer(i: nat, j: nat)
    requires i < j < 5
    ensures ENTITIES[i].pattern[0] != ENTITIES[j].pattern[0] || ENTITIES[i].pattern[1] != ENTITIES[j].pattern[1]
  {
  }

  lemma EntityBytes(t: Bytes, p: nat, i: nat)
    requires i < 5 && StartsAt(t, p + 1, ENTITIES[i].pattern + [SEMI])
    ensures t[p + 1] == ENTITIES[i].pattern[0] && t[p + 2] == ENTITIES[i].pattern[1]
  {
    var s := ENTITIES[i].pattern + [SEMI];
    StartBytes(t, p + 1, s);
    assert s[0] == t[p + 1 + 0] && s[1] == t[p + 1 + 1];
  }

  lemma SpelledIs(t: Bytes, p: nat, e: nat)
    requires e < 5 && StartsAt(t, p, [AMP] + ENTITIES[e].pattern + [SEMI])
    ensures Spelled(t, p, 0) == e
  {
    var x := [AMP] + ENTITIES[e].pattern + [SEMI];
    var s := ENTITIES[e].pattern + [SEMI];
    StartBytes(t, p, x);
    assert forall i :: 0 <= i < |s| ==> s[i] == x[1 + i] == t[p + (1 + i)];
    assert StartsAt(t, p + 1, s);
    EntityBytes(t, p, e);
    var r := Spelled(t, p, 0);
    if r < e {
      EntityBytes(t, p, r);
      EntitiesDiffer(r, e);
      assert false;
    }
  }

  lemma EscapedUnfolds(v: Bytes, k: nat, style: Style)
    requires k <= |v|
    ensures Escaped(v, k, style) == if k == |v| then [] else EscapeByte(v[k], style) + Escaped(v, k + 1, style)
  {
  }

  /** A line feed is not followed by a carriage return. */
  lemma NoReturn(t: Bytes, p: nat, v: Bytes, k: nat, style: Style)
    requires k <= |v| && p <= |t| && t[p..] == Escaped(v, k, style)
    requires forall i :: k <= i < |v| ==> v[i] != CR && v[i] != 0
    ensures p + 1 < |t| ==> t[p + 1] != CR
  {
    hide Escaped;
    EscapedIsClean(v, k, style);
    assert p + 1 < |t| ==> t[p + 1] == t[p..][1];
  }

  /** Decoding escaped text returns the original: GetStr undoes PrintString. */
  lemma {:induction false} DecodeEscaped(t: Bytes, p: nat, v: Bytes, k: nat, style: Style)
    requires k <= |v| && k <= p <= |t| && t[p..] == Escaped(v, k, style)
    requires forall i :: k <= i < |v| ==> v[i] != CR && v[i] != 0
    ensures DecodeFrom(t, p, v[..k], READ_MODE) == v
    decreases |v| - k
  {
    hide NextPiece, Escaped, EscapeByte;
    EscapedUnfolds(v, k, style);
    if k < |v| {
      var x := EscapeByte(v[k], style);
      Advance(t, p, x, Escaped(v, k + 1, style));
      NoReturn(t, p, v, k, style);
      EscapedPiece(t, p, v[k], style);
      assert v[..k] + [v[k]] == v[..k + 1];
      DecodeEscaped(t, p + |x|, v, k + 1, style);
    } else {
      assert v[..k] == v;
    }
  }

  /** The value of an escaped slice is the string that was printed. */
  lemma ValueOfEscaped(v: Bytes, style: Style)
    requires forall i :: 0 <= i < |v| ==> v[i] != CR && v[i] != 0
    ensures Value(Escaped(v, 0, style), READ_MODE) == v
  {
    var t := Escaped(v, 0, style);
    assert t[0..] == t && v[..0] == [];
    DecodeEscaped(t, 0, v, 0, style);
    CStrIs(v, v);
  }
}
