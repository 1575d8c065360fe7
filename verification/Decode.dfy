/**
 What StrPair::GetStr makes of a slice of the buffer: newline folding, entities and character
 references, whitespace collapsing. The functions are over values; StrPairs.dfy has the loops.
 */
module Decode {
  import opened XmlBytes
  import opened CharRef

  /** The NEEDS_* flags of a StrPair. */
  datatype Mode = Mode(entities: bool, newlines: bool, collapse: bool)

  const NAME_MODE := Mode(false, false, false)

  // ---------------------------------------------------------------- entities

  datatype Entity = Entity(pattern: Bytes, value: byte)

  /** The predefined entities of section 4.6 of XML 1.0, in the order of the table. */
  const ENTITIES: seq<Entity> := [
    Entity([113, 117, 111, 116], QUOTE),
    Entity([97, 109, 112], AMP),
    Entity([97, 112, 111, 115], APOS),
    Entity([108, 116], LT),
    Entity([103, 116], GT)
  ]

  /** Does s continue with t at position p? */
  predicate StartsAt(s: Bytes, p: nat, t: Bytes) {
    p + |t| <= |s| && s[p..p + |t|] == t
  }

  /** The first entity from the i-th on whose pattern and a semicolon follow the ampersand at p, or 5. */
  function Spelled(s: Bytes, p: nat, i: nat): (r: nat)
    requires p < |s| && i <= 5
    ensures i <= r <= 5
    ensures r < 5 ==> StartsAt(s, p + 1, ENTITIES[r].pattern + [SEMI])
    ensures forall j :: i <= j < r ==> !StartsAt(s, p + 1, ENTITIES[j].pattern + [SEMI])
    decreases 5 - i
  {
    if i == 5 || StartsAt(s, p + 1, ENTITIES[i].pattern + [SEMI]) then i else Spelled(s, p, i + 1)
  }

  // ---------------------------------------------------------------- one step

  /** The bytes a step writes and the number it reads; Keep steps over an ampersand and writes nothing. */
  datatype Piece = Emit(bytes: Bytes, read: nat) | Keep

  /** A carriage return that stands alone becomes a line feed. */
  function Folded(b: byte, m: Mode): byte { if m.newlines && b == CR then LF else b }

  ghost function NextPiece(s: Bytes, p: nat, m: Mode): (r: Piece)
    requires p < |s|
    ensures r.Emit? ==> 1 <= r.read <= |s| - p && |r.bytes| <= r.read
    ensures r.Emit? && |r.bytes| == r.read ==> r.read == 1 && r.bytes == [Folded(s[p], m)]
    ensures r.Keep? ==> s[p] == AMP && !(p + 1 < |s| && s[p + 1] == HASH) && Spelled(s, p, 0) == 5
  {
    if m.newlines && s[p] == CR then Emit([LF], if p + 1 < |s| && s[p + 1] == LF then 2 else 1)
    else if m.newlines && s[p] == LF then Emit([LF], if p + 1 < |s| && s[p + 1] == CR then 2 else 1)
    else if m.entities && s[p] == AMP then
      if p + 1 < |s| && s[p + 1] == HASH then
        match Reference(s[p..])
        case Reject => Emit([AMP], 1)
        case Take(bytes, read) => Emit(bytes, read)
      else
        var i := Spelled(s, p, 0);
        if i < 5 then Emit([ENTITIES[i].value], |ENTITIES[i].pattern| + 2) else Keep
    else Emit([s[p]], 1)
  }

  // ---------------------------------------------------------------- decoding in place, as a function

  /**
   The result of decoding s in place from read index p on, with `out` already written. An
   ampersand that starts nothing known is stepped over without writing: the result then shows
   the byte of s that lies under the write index, since no byte from there on has been written.
   */
  ghost function DecodeFrom(s: Bytes, p: nat, out: Bytes, m: Mode): (r: Bytes)
    requires |out| <= p <= |s|
    ensures out <= r && |r| <= |s|
    decreases |s| - p
  {
    if p == |s| then out
    else
      match NextPiece(s, p, m)
      case Emit(bytes, read) => DecodeFrom(s, p + read, out + bytes, m)
      case Keep => DecodeFrom(s, p + 1, out + [s[|out|]], m)
  }

  /** The decoding of s[p..] one would expect, which copies an unknown ampersand. */
  ghost function Clean(s: Bytes, p: nat, m: Mode): Bytes
    requires p <= |s|
    decreases |s| - p
  {
    if p == |s| then []
    else
      match NextPiece(s, p, m)
      case Emit(bytes, read) => bytes + Clean(s, p + read, m)
      case Keep => [AMP] + Clean(s, p + 1, m)
  }

  /** Every unknown ampersand met on the way has an ampersand under the write index. */
  ghost predicate Faithful(s: Bytes, p: nat, out: Bytes, m: Mode)
    requires |out| <= p <= |s|
    decreases |s| - p
  {
    p < |s| ==>
      match NextPiece(s, p, m)
      case Emit(bytes, read) => Faithful(s, p + read, out + bytes, m)
      case Keep => s[|out|] == AMP && Faithful(s, p + 1, out + [AMP], m)
  }

  lemma DecodeStep(s: Bytes, p: nat, out: Bytes, m: Mode)
    requires |out| <= p <= |s|
    ensures p == |s| ==> DecodeFrom(s, p, out, m) == out
    ensures p < |s| && NextPiece(s, p, m).Emit? ==>
      DecodeFrom(s, p, out, m) == DecodeFrom(s, p + NextPiece(s, p, m).read, out + NextPiece(s, p, m).bytes, m)
    ensures p < |s| && NextPiece(s, p, m).Keep? ==>
      DecodeFrom(s, p, out, m) == DecodeFrom(s, p + 1, out + [s[|out|]], m)
  {
    hide NextPiece;
  }

  lemma CleanStep(s: Bytes, p: nat, m: Mode)
    requires p <= |s|
    ensures p == |s| ==> Clean(s, p, m) == []
    ensures p < |s| ==>
      var x := NextPiece(s, p, m);
      Clean(s, p, m) == if x.Emit? then x.bytes + Clean(s, p + x.read, m) else [AMP] + Clean(s, p + 1, m)
  {
    hide NextPiece;
  }

  lemma FaithfulStep(s: Bytes, p: nat, out: Bytes, m: Mode)
    requires |out| <= p <= |s|
    ensures p == |s| ==> Faithful(s, p, out, m)
    ensures p < |s| ==>
      var x := NextPiece(s, p, m);
      (Faithful(s, p, out, m) <==>
        if x.Emit? then Faithful(s, p + x.read, out + x.bytes, m)
        else s[|out|] == AMP && Faithful(s, p + 1, out + [AMP], m))
  {
    hide NextPiece;
  }

  lemma Parted(out: Bytes, b: byte, r: Bytes, rest: Bytes)
    requires out + [b] <= r
    ensures r == out + [AMP] + rest <==> b == AMP && r == out + [b] + rest
  {
    assert r[|out|] == (out + [b])[|out|] == b;
    assert (out + [AMP] + rest)[|out|] == AMP;
  }

  /** Decoding in place is clean exactly when every unknown ampersand is faithful. */
  lemma {:induction false} CleanIff(s: Bytes, p: nat, out: Bytes, m: Mode)
    requires |out| <= p <= |s|
    ensures DecodeFrom(s, p, out, m) == out + Clean(s, p, m) <==> Faithful(s, p, out, m)
    decreases |s| - p
  {
    hide NextPiece, DecodeFrom, Clean, Faithful, Spelled;
    DecodeStep(s, p, out, m);
    CleanStep(s, p, m);
    FaithfulStep(s, p, out, m);
    if p == |s| {
      assert out + [] == out;
    } else {
      var x := NextPiece(s, p, m);
      if x.Emit? {
        CleanIff(s, p + x.read, out + x.bytes, m);
        Regroup(out, x.bytes, Clean(s, p + x.read, m), []);
      } else {
        var next := out + [s[|out|]];
        CleanIff(s, p + 1, next, m);
        Regroup(out, [AMP], Clean(s, p + 1, m), []);
        Parted(out, next[|out|], DecodeFrom(s, p + 1, next, m), Clean(s, p + 1, m));
      }
    }
  }

  ghost predicate KnownReferences(s: Bytes) {
    forall i: nat :: i < |s| ==> KnownAt(s, i)
  }

  /** No ampersand at i, or one that starts a predefined entity or a numeric reference. */
  ghost predicate KnownAt(s: Bytes, i: nat)
    requires i < |s|
  {
    s[i] == AMP ==> (i + 1 < |s| && s[i + 1] == HASH) || Spelled(s, i, 0) < 5
  }

  lemma KnownOne(s: Bytes, i: nat)
    requires i < |s| && KnownReferences(s)
    ensures s[i] == AMP ==> (i + 1 < |s| && s[i + 1] == HASH) || Spelled(s, i, 0) < 5
  {
    assert KnownAt(s, i);
  }

  /** If every ampersand starts a predefined entity or a numeric reference, decoding is clean. */
  lemma {:induction false} KnownIsFaithful(s: Bytes, p: nat, out: Bytes, m: Mode)
    requires |out| <= p <= |s| && KnownReferences(s)
    ensures Faithful(s, p, out, m)
    decreases |s| - p
  {
    hide NextPiece, Spelled, Faithful, KnownReferences;
    FaithfulStep(s, p, out, m);
    if p < |s| {
      var piece := NextPiece(s, p, m);
      KnownOne(s, p);
      KnownIsFaithful(s, p + piece.read, out + piece.bytes, m);
    }
  }

  /** Where the first piece from p on stands that writes fewer bytes than it reads; the end if there is none. */
  ghost function FirstShrink(s: Bytes, p: nat, m: Mode): (q: nat)
    requires p <= |s|
    ensures p <= q <= |s|
    decreases |s| - p
  {
    if p == |s| then p
    else
      match NextPiece(s, p, m)
      case Emit(bytes, read) => if |bytes| < read then p else FirstShrink(s, p + read, m)
      case Keep => FirstShrink(s, p + 1, m)
  }

  lemma ShrinkStep(s: Bytes, p: nat, m: Mode)
    requires p <= |s| && FirstShrink(s, p, m) > p
    ensures p < |s| && FirstShrink(s, p, m) == FirstShrink(s, p + 1, m)
    ensures NextPiece(s, p, m) == Keep || NextPiece(s, p, m) == Emit([Folded(s[p], m)], 1)
  {
    hide NextPiece;
  }

  /** Up to the first piece that shrinks, everything is copied as it is, unknown ampersands included. */
  lemma {:induction false} UnshrunkIsVerbatim(s: Bytes, p: nat, out: Bytes, m: Mode)
    requires |out| == p <= |s|
    ensures var q, r := FirstShrink(s, p, m), DecodeFrom(s, p, out, m);
      && q <= |r| && r == DecodeFrom(s, q, r[..q], m)
      && forall i :: p <= i < q ==> r[i] == Folded(s[i], m)
    decreases |s| - p
  {
    hide NextPiece, DecodeFrom, FirstShrink;
    var q, r := FirstShrink(s, p, m), DecodeFrom(s, p, out, m);
    if p < q {
      ShrinkStep(s, p, m);
      DecodeStep(s, p, out, m);
      var next := out + [Folded(s[p], m)];
      if NextPiece(s, p, m).Keep? {
        assert next == out + [s[|out|]];
      }
      UnshrunkIsVerbatim(s, p + 1, next, m);
      assert r[p] == next[p];
    } else {
      assert r[..q] == out;
    }
  }

  /** "&lt;&x" decodes to "<lx", not "<&x": the clean reading fails once something has shrunk. */
  lemma StaleByte()
    ensures var s := [AMP, 108, 116, SEMI, AMP, 120];
      var m := Mode(true, true, false);
      DecodeFrom(s, 0, [], m) == [LT, 108, 120] && Clean(s, 0, m) == [LT, AMP, 120]
  {
    var s: Bytes := [AMP, 108, 116, SEMI, AMP, 120];
    var m := Mode(true, true, false);
    assert StartsAt(s, 1, [108, 116] + [SEMI]);
    assert Spelled(s, 0, 0) == 3 by {
      assert s[1..6][0] == 108 && s[1..5][0] == 108;
      assert [113, 117, 111, 116, SEMI][0] == 113;
      assert [97, 109, 112, SEMI][0] == 97 && [97, 112, 111, 115, SEMI][0] == 97;
    }
    assert NextPiece(s, 0, m) == Emit([LT], 4);
    assert NextPiece(s, 4, m) == Keep;
    assert NextPiece(s, 5, m) == Emit([120], 1);
    assert Clean(s, 6, m) == [];
    assert Clean(s, 5, m) == [120];
    assert DecodeFrom(s, 6, [LT, 108, 120], m) == [LT, 108, 120];
    assert DecodeFrom(s, 5, [LT, 108], m) == [LT, 108, 120];
    assert [LT] + [s[1]] == [LT, 108];
    assert DecodeFrom(s, 4, [LT], m) == [LT, 108, 120];
    assert [] + [LT] == [LT];
  }

  /** "&#" at the very end loses its ampersand, whatever comes before it; nothing else is read without a trace. */
  lemma HashAtEnd(s: Bytes, p: nat, out: Bytes, m: Mode)
    requires |out| <= p < |s|
    ensures var dropped := m.entities && p + 2 == |s| && s[p] == AMP && s[p + 1] == HASH;
      && (NextPiece(s, p, m) == Emit([], 1) <==> dropped)
      && (NextPiece(s, p, m).Emit? && NextPiece(s, p, m).bytes == [] ==> dropped)
      && (dropped ==> DecodeFrom(s, p, out, m) == out + [HASH])
  {
    hide Spelled, DecodeFrom;
    if m.entities && p + 2 == |s| && s[p] == AMP && s[p + 1] == HASH {
      assert s[p..] == [AMP, HASH];
      DecodeStep(s, p, out, m);
      assert out + [] == out;
      DecodeStep(s, p + 1, out, m);
      DecodeStep(s, p + 2, out + [HASH], m);
    }
  }

  // ---------------------------------------------------------------- collapsing

  function SkipSpace(s: Bytes, p: nat): (r: nat)
    requires p <= |s|
    ensures p <= r <= |s|
    ensures forall i :: p <= i < r ==> IsSpace(s[i])
    ensures r < |s| ==> !IsSpace(s[r])
    decreases |s| - p
  {
    if p < |s| && IsSpace(s[p]) then SkipSpace(s, p + 1) else p
  }

  /** The end of the run of non-space bytes at p. */
  function WordEnd(s: Bytes, p: nat): (r: nat)
    requires p <= |s|
    ensures p <= r <= |s|
    ensures forall i :: p <= i < r ==> !IsSpace(s[i])
    ensures r < |s| ==> IsSpace(s[r])
    decreases |s| - p
  {
    if p < |s| && !IsSpace(s[p]) then WordEnd(s, p + 1) else p
  }

  /** The maximal runs of non-space bytes of s[p..]. */
  function Words(s: Bytes, p: nat): seq<Bytes>
    requires p <= |s|
    decreases |s| - p
  {
    var q := SkipSpace(s, p);
    if q == |s| then [] else [s[q..WordEnd(s, q)]] + Words(s, WordEnd(s, q))
  }

  function Join(ws: seq<Bytes>): Bytes {
    if ws == [] then [] else if |ws| == 1 then ws[0] else ws[0] + [SPACE] + Join(ws[1..])
  }

  /** What CollapseWhitespace still writes when its read pointer stands at p. */
  function Squeeze(s: Bytes, p: nat): (r: Bytes)
    requires p <= |s|
    ensures |r| <= |s| - p
    ensures NoNul(s) ==> NoNul(r)
    decreases |s| - p
  {
    if p == |s| then []
    else if IsSpace(s[p]) then
      var q := SkipSpace(s, p);
      if q == |s| then [] else [SPACE, s[q]] + Squeeze(s, q + 1)
    else [s[p]] + Squeeze(s, p + 1)
  }

  lemma SqueezeByte(s: Bytes, p: nat)
    requires p <= |s|
    ensures p == |s| ==> Squeeze(s, p) == []
    ensures p < |s| && !IsSpace(s[p]) ==> Squeeze(s, p) == [s[p]] + Squeeze(s, p + 1)
  {
    hide SkipSpace;
  }

  lemma SqueezeBlank(s: Bytes, p: nat)
    requires p < |s| && IsSpace(s[p])
    ensures var q := SkipSpace(s, p);
      Squeeze(s, p) == if q == |s| then [] else [SPACE, s[q]] + Squeeze(s, q + 1)
  {
    hide SkipSpace;
  }

  lemma {:induction false} SqueezeWord(s: Bytes, p: nat)
    requires p <= |s|
    ensures Squeeze(s, p) == s[p..WordEnd(s, p)] + Squeeze(s, WordEnd(s, p))
    decreases |s| - p
  {
    hide Squeeze;
    if p < |s| && !IsSpace(s[p]) {
      SqueezeByte(s, p);
      SqueezeWord(s, p + 1);
      var e := WordEnd(s, p + 1);
      Regroup([s[p]], s[p + 1..e], Squeeze(s, e), []);
      assert s[p..e] == [s[p]] + s[p + 1..e];
    }
  }

  lemma SqueezeSpace(s: Bytes, p: nat)
    requires p < |s| ==> IsSpace(s[p])
    requires p <= |s|
    ensures var q := SkipSpace(s, p);
      Squeeze(s, p) == if q == |s| then [] else [SPACE] + Squeeze(s, q)
  {
    hide Squeeze, SkipSpace;
    var q := SkipSpace(s, p);
    if p == |s| {
      SqueezeByte(s, p);
    } else {
      SqueezeBlank(s, p);
    }
    if q < |s| {
      SqueezeByte(s, q);
      Regroup([SPACE], [s[q]], Squeeze(s, q + 1), []);
      assert [SPACE, s[q]] == [SPACE] + [s[q]];
    }
  }

  lemma JoinStep(w: Bytes, rest: seq<Bytes>)
    ensures Join([w] + rest) == if rest == [] then w else w + [SPACE] + Join(rest)
  {
    assert ([w] + rest)[1..] == rest;
  }

  /** The byte loop joins the words by single spaces. */
  lemma {:induction false} SqueezeIsJoin(s: Bytes, p: nat)
    requires p <= |s|
    ensures Squeeze(s, SkipSpace(s, p)) == Join(Words(s, p))
    decreases |s| - p
  {
    hide Squeeze, Join;
    var q := SkipSpace(s, p);
    if q < |s| {
      var e := WordEnd(s, q);
      SqueezeWord(s, q);
      SqueezeSpace(s, e);
      SqueezeIsJoin(s, e);
      JoinStep(s[q..e], Words(s, e));
    } else {
      SqueezeSpace(s, q);
      JoinEmpty();
    }
  }

  lemma JoinEmpty()
    ensures Join([]) == []
  {
  }

  // ---------------------------------------------------------------- the value of a slice

  /** The C string GetStr returns for a slice of NUL-free text. */
  ghost function Value(s: Bytes, m: Mode): (r: Bytes)
    ensures NoNul(r) && |r| <= |s|
  {
    var text := CStr(DecodeFrom(s, 0, [], m));
    if m.collapse then Squeeze(text, SkipSpace(text, 0)) else text
  }

  /** With collapsing on, and no NUL among the decoded bytes, it is the words joined by single spaces. */
  lemma CollapsedValue(s: Bytes, m: Mode)
    requires m.collapse && NoNul(DecodeFrom(s, 0, [], m))
    ensures Value(s, m) == Join(Words(DecodeFrom(s, 0, [], m), 0))
  {
    var text := DecodeFrom(s, 0, [], m);
    CStrIs(text, text);
    SqueezeIsJoin(text, 0);
  }

  /** No flags, no change: names are returned as they stand. */
  lemma {:induction false} NameIsVerbatim(s: Bytes, p: nat, out: Bytes)
    requires |out| == p <= |s| && out == s[..p]
    ensures DecodeFrom(s, p, out, NAME_MODE) == s
    decreases |s| - p
  {
    if p < |s| {
      assert s[..p] + [s[p]] == s[..p + 1];
      NameIsVerbatim(s, p + 1, out + [s[p]]);
    }
  }
}
