/** StrPair: a slice of the document buffer that is decoded in place the first time it is read. */
module StrPairs {
  import opened XmlBytes
  import opened CharRef
  import opened Decode

  // ---------------------------------------------------------------- reading

  lemma StartsAtIff(s: Bytes, p: nat, t: Bytes)
    ensures StartsAt(s, p, t) <==> p + |t| <= |s| && forall i :: 0 <= i < |t| ==> s[p + i] == t[i]
  {
    if p + |t| <= |s| {
      var y := s[p..p + |t|];
      assert forall i :: 0 <= i < |t| ==> y[i] == s[p + i];
    }
  }

  /** strncmp against a pattern without NULs, never reading past the end of s. */
  method StartsWith(buf: array<byte>, at: nat, t: Bytes, ghost base: nat, ghost s: Bytes, ghost p: nat)
    returns (b: bool)
    requires Tail(buf, base, s, p) && NoNul(s) && NoNul(t) && at == base + p
    ensures b <==> StartsAt(s, p, t)
  {
    hide StartsAt;
    StartsAtIff(s, p, t);
    var i := 0;
    while i < |t| && buf[at + i] == t[i]
      invariant 0 <= i <= |t| && p + i <= |s| && forall j :: 0 <= j < i ==> s[p + j] == t[j]
    {
      TailAt(buf, base, s, p, p + i);
      i := i + 1;
    }
    if i < |t| {
      TailAt(buf, base, s, p, p + i);
    }
    b := i == |t|;
  }

  /** The search through the entity table. */
  method FindEntity(buf: array<byte>, at: nat, ghost base: nat, ghost s: Bytes, ghost p: nat)
    returns (i: nat)
    requires Tail(buf, base, s, p) && NoNul(s) && p < |s| && at == base + p
    ensures i == Spelled(s, p, 0)
  {
    i := 0;
    while i < 5
      invariant i <= 5 && Spelled(s, p, 0) == Spelled(s, p, i)
    {
      var found := StartsWith(buf, at + 1, ENTITIES[i].pattern + [SEMI], base, s, p + 1);
      if found {
        return;
      }
      i := i + 1;
    }
  }

  /** One round of the decoding loop, up to its writes. */
  method ReadPiece(buf: array<byte>, at: nat, m: Mode, ghost base: nat, ghost s: Bytes, ghost p: nat)
    returns (piece: Piece)
    requires Tail(buf, base, s, p) && NoNul(s) && p < |s| && at == base + p
    ensures piece == NextPiece(s, p, m)
  {
    hide Reference, Spelled;
    TailAt(buf, base, s, p, p);
    TailAt(buf, base, s, p, p + 1);
    if m.newlines && buf[at] == CR {
      return Emit([LF], if buf[at + 1] == LF then 2 else 1);
    } else if m.newlines && buf[at] == LF {
      return Emit([LF], if buf[at + 1] == CR then 2 else 1);
    } else if m.entities && buf[at] == AMP {
      if buf[at + 1] == HASH {
        var r := GetCharacterRef(buf, at, s[p..]);
        match r
        case Reject => return Emit([AMP], 1);
        case Take(bytes, read) => return Emit(bytes, read);
      } else {
        var i := FindEntity(buf, at, base, s, p);
        if i < 5 {
          return Emit([ENTITIES[i].value], |ENTITIES[i].pattern| + 2);
        }
        return Keep;
      }
    } else {
      return Emit([buf[at]], 1);
    }
  }

  // ---------------------------------------------------------------- decoding in place

  /** What has been written from `first` on. */
  ghost predicate Written(buf: array<byte>, first: nat, out: Bytes)
    reads buf
  {
    first + |out| <= buf.Length && forall i :: 0 <= i < |out| ==> out[i] == buf[first + i]
  }

  /** Writes behind what has been written, before what is still to be read. */
  method Put(buf: array<byte>, q: nat, bytes: Bytes,
             ghost first: nat, ghost out: Bytes, ghost base: nat, ghost s: Bytes, ghost k: nat)
    requires Written(buf, first, out) && q == first + |out| && Tail(buf, base, s, k) && q + |bytes| <= base + k
    modifies buf
    ensures Written(buf, first, out + bytes) && Tail(buf, base, s, k)
    ensures forall i :: 0 <= i < buf.Length && !(q <= i < q + |bytes|) ==> buf[i] == old(buf[i])
  {
    forall i | 0 <= i < |bytes| {
      buf[q + i] := bytes[i];
    }
  }

  method Terminate(buf: array<byte>, q: nat, ghost first: nat, ghost out: Bytes)
    requires Written(buf, first, out) && q == first + |out| < buf.Length
    modifies buf
    ensures Holds(buf, first, out, 0) && forall i :: 0 <= i < buf.Length && i != q ==> buf[i] == old(buf[i])
  {
    buf[q] := 0;
  }

  lemma InRange(buf: array<byte>, base: nat, s: Bytes, k: nat)
    requires Tail(buf, base, s, k)
    ensures k <= |s| && base + |s| < buf.Length
  {
  }

  lemma NothingWritten(buf: array<byte>, first: nat, base: nat, s: Bytes, k: nat)
    requires Tail(buf, base, s, k) && first <= base + |s|
    ensures Written(buf, first, [])
  {
  }

  /** The write index steps over a byte that has not been written. */
  lemma KeepByte(buf: array<byte>, base: nat, s: Bytes, out: Bytes)
    requires Tail(buf, base, s, |out|) && Written(buf, base, out) && |out| < |s|
    ensures Written(buf, base, out + [s[|out|]]) && Tail(buf, base, s, |out| + 1)
  {
    TailAt(buf, base, s, |out|, |out|);
  }

  lemma TailMore(buf: array<byte>, base: nat, s: Bytes, k: nat, l: nat)
    requires Tail(buf, base, s, k) && k <= l <= |s|
    ensures Tail(buf, base, s, l)
  {
  }

  /** The loop of GetStr: the write index never passes the read index, nor that the end. */
  method DecodeInPlace(buf: array<byte>, start: nat, end: nat, m: Mode, ghost s: Bytes) returns (n: nat)
    requires Tail(buf, start, s, 0) && NoNul(s) && end == start + |s|
    modifies buf
    ensures n == |DecodeFrom(s, 0, [], m)| <= |s| && Holds(buf, start, DecodeFrom(s, 0, [], m), 0)
    ensures forall i :: 0 <= i < buf.Length && !(start <= i <= start + |s|) ==> buf[i] == old(buf[i])
  {
    hide NextPiece, Written, Tail, DecodeFrom;
    var p, q := start, start;
    ghost var out: Bytes := [];
    NothingWritten(buf, start, start, s, 0);
    while p < end
      invariant start <= q <= p <= end && |out| == q - start
      invariant Tail(buf, start, s, |out|) && Written(buf, start, out)
      invariant DecodeFrom(s, p - start, out, m) == DecodeFrom(s, 0, [], m)
      invariant forall i :: 0 <= i < buf.Length && !(start <= i <= end) ==> buf[i] == old(buf[i])
    {
      TailMore(buf, start, s, |out|, p - start);
      var piece := ReadPiece(buf, p, m, start, s, p - start);
      DecodeStep(s, p - start, out, m);
      match piece
      case Emit(bytes, read) =>
        TailMore(buf, start, s, |out|, |out| + |bytes|);
        Put(buf, q, bytes, start, out, start, s, |out| + |bytes|);
        out := out + bytes;
        p, q := p + read, q + |bytes|;
      case Keep =>
        KeepByte(buf, start, s, out);
        out := out + [s[|out|]];
        p, q := p + 1, q + 1;
    }
    InRange(buf, start, s, |out|);
    DecodeStep(s, |s|, out, m);
    Terminate(buf, q, start, out);
    n := q - start;
  }

  // ---------------------------------------------------------------- collapsing

  method SkipBlanks(buf: array<byte>, at: nat, ghost base: nat, ghost s: Bytes, ghost p: nat)
    returns (r: nat)
    requires Tail(buf, base, s, p) && at == base + p
    ensures r == base + SkipSpace(s, p)
  {
    r := at;
    ghost var i := p;
    TailAt(buf, base, s, p, i);
    while IsSpace(buf[r])
      invariant p <= i <= |s| && r == base + i
      invariant SkipSpace(s, i) == SkipSpace(s, p)
      invariant i < |s| ==> buf[r] == s[i]
      decreases |s| - i
    {
      r, i := r + 1, i + 1;
      TailAt(buf, base, s, p, i);
    }
  }

  /** A run of blanks becomes a single space, unless nothing follows it. */
  method SqueezeBlanks(buf: array<byte>, at: nat, q: nat,
                       ghost first: nat, ghost out: Bytes, ghost base: nat, ghost s: Bytes, ghost i: nat)
    returns (p: nat)
    requires Tail(buf, base, s, i) && NoNul(s) && at == base + i && i < |s| && IsSpace(s[i])
    requires Written(buf, first, out) && q == first + |out| <= at
    modifies buf
    ensures p == base + SkipSpace(s, i) && i < SkipSpace(s, i) && Tail(buf, base, s, SkipSpace(s, i))
    ensures Written(buf, first, if SkipSpace(s, i) == |s| then out else out + [SPACE])
    ensures forall j :: 0 <= j < buf.Length && !(q <= j < base + |s|) ==> buf[j] == old(buf[j])
  {
    hide Written, Tail;
    p := SkipBlanks(buf, at, base, s, i);
    InRange(buf, base, s, i);
    TailMore(buf, base, s, i, SkipSpace(s, i));
    TailAt(buf, base, s, i, SkipSpace(s, i));
    if buf[p] != 0 {
      Put(buf, q, [SPACE], first, out, base, s, SkipSpace(s, i));
    }
  }

  /** One round of the loop of CollapseWhitespace. */
  method SqueezeRound(buf: array<byte>, at: nat, to: nat,
                      ghost first: nat, ghost out: Bytes, ghost base: nat, ghost s: Bytes, ghost i: nat)
    returns (p: nat, q: nat, ghost more: Bytes)
    requires Tail(buf, base, s, i) && NoNul(s) && at == base + i && i < |s|
    requires Written(buf, first, out) && to == first + |out| <= at
    modifies buf
    ensures at < p <= base + |s| && to <= q <= p && q == first + |more|
    ensures Tail(buf, base, s, p - base) && Written(buf, first, more)
    ensures more + Squeeze(s, p - base) == out + Squeeze(s, i)
    ensures forall j :: 0 <= j < buf.Length && !(to <= j < base + |s|) ==> buf[j] == old(buf[j])
  {
    hide Squeeze, Written, Tail, SkipSpace;
    p, q, more := at, to, out;
    TailAt(buf, base, s, i, i);
    if IsSpace(buf[p]) {
      p := SqueezeBlanks(buf, p, q, first, out, base, s, i);
      BlanksSqueezed(s, i, out);
      TailAt(buf, base, s, p - base, p - base);
      if buf[p] == 0 {
        return;
      }
      q, more := q + 1, more + [SPACE];
    }
    ghost var k := p - base;
    ByteSqueezed(s, k, more);
    TailMore(buf, base, s, k, k + 1);
    Put(buf, q, [buf[p]], first, more, base, s, k + 1);
    p, q, more := p + 1, q + 1, more + [s[k]];
  }

  lemma BlanksSqueezed(s: Bytes, i: nat, out: Bytes)
    requires i < |s| && IsSpace(s[i])
    ensures var q := SkipSpace(s, i);
      out + Squeeze(s, i) == (if q == |s| then out else out + [SPACE]) + Squeeze(s, q)
  {
    hide Squeeze, SkipSpace;
    var q := SkipSpace(s, i);
    SqueezeSpace(s, i);
    if q == |s| {
      SqueezeByte(s, q);
    } else {
      Regroup(out, [SPACE], Squeeze(s, q), []);
    }
  }

  lemma ByteSqueezed(s: Bytes, k: nat, out: Bytes)
    requires k < |s| && !IsSpace(s[k])
    ensures out + Squeeze(s, k) == out + [s[k]] + Squeeze(s, k + 1)
  {
    hide Squeeze;
    SqueezeByte(s, k);
    Regroup(out, [s[k]], Squeeze(s, k + 1), []);
  }

  /** The loop of CollapseWhitespace over s[k..], held at `first`. */
  method SqueezeInPlace(buf: array<byte>, first: nat, ghost base: nat, ghost s: Bytes, ghost k: nat)
    requires Tail(buf, base, s, k) && NoNul(s) && first == base + k
    modifies buf
    ensures Holds(buf, first, Squeeze(s, k), 0)
    ensures forall j :: 0 <= j < buf.Length && !(first <= j <= base + |s|) ==> buf[j] == old(buf[j])
  {
    hide Squeeze, Written, Tail;
    var p, q := first, first;
    ghost var out: Bytes := [];
    InRange(buf, base, s, k);
    NothingWritten(buf, first, base, s, k);
    TailAt(buf, base, s, k, k);
    while buf[p] != 0
      invariant first <= q <= p <= base + |s| && q == first + |out|
      invariant Tail(buf, base, s, p - base) && Written(buf, first, out)
      invariant buf[p] == if p < base + |s| then s[p - base] else 0
      invariant out + Squeeze(s, p - base) == Squeeze(s, k)
      invariant forall j :: 0 <= j < buf.Length && !(first <= j <= base + |s|) ==> buf[j] == old(buf[j])
      decreases base + |s| - p
    {
      p, q, out := SqueezeRound(buf, p, q, first, out, base, s, p - base);
      TailAt(buf, base, s, p - base, p - base);
    }
    SqueezeByte(s, |s|);
    assert out + [] == out;
    Terminate(buf, q, first, out);
  }

  /** CollapseWhitespace; the string moves up to its first non-space byte. */
  method CollapseWhitespace(buf: array<byte>, start: nat, ghost s: Bytes) returns (first: nat)
    requires Tail(buf, start, s, 0) && NoNul(s)
    modifies buf
    ensures first == start + SkipSpace(s, 0)
    ensures Holds(buf, first, Squeeze(s, SkipSpace(s, 0)), 0)
    ensures forall j :: 0 <= j < buf.Length && !(start <= j <= start + |s|) ==> buf[j] == old(buf[j])
  {
    first := SkipBlanks(buf, start, start, s, 0);
    TailAt(buf, start, s, 0, first - start);
    if buf[first] != 0 {
      SqueezeInPlace(buf, first, start, s, first - start);
    }
  }

  // ---------------------------------------------------------------- the class

  lemma HoldsCStr(buf: array<byte>, start: nat, d: Bytes)
    requires Holds(buf, start, d, 0)
    ensures Holds(buf, start, CStr(d), 0) && Tail(buf, start, CStr(d), 0)
  {
    var c := CStr(d);
    if |c| < |d| {
      assert d[|c|] == buf[start + |c|];
    }
  }

  class StrPair {
    const buf: array<byte>
    const first: nat
    const end: nat
    var start: nat
    var mode: Mode
    var needsFlush: bool
    ghost const text: Bytes // what every reading returns

    ghost predicate Valid()
      reads this, buf
    {
      && first <= start && start + |text| <= end < buf.Length && NoNul(text)
      && if needsFlush then
           start == first && NoNul(buf[first..end]) && Value(buf[first..end], mode) == text
         else Holds(buf, start, text, 0)
    }

    constructor Set(buf: array<byte>, start: nat, end: nat, mode: Mode)
      requires start <= end < buf.Length && NoNul(buf[start..end])
      ensures Valid() && needsFlush && this.buf == buf && first == start && this.end == end
      ensures text == Value(buf[start..end], mode)
    {
      this.buf, this.first, this.start, this.end := buf, start, start, end;
      this.mode, needsFlush := mode, true;
      text := Value(buf[start..end], mode);
    }

    /** Returns where the string starts; only the bytes of [first, end] are ever written. */
    method GetStr() returns (at: nat)
      requires Valid()
      modifies this, buf
      ensures Valid() && !needsFlush && at == start && Holds(buf, at, text, 0)
      ensures !old(needsFlush) ==> start == old(start)
      ensures forall i :: 0 <= i < buf.Length && !(first <= i <= end) ==> buf[i] == old(buf[i])
    {
      hide DecodeFrom, Value;
      if needsFlush {
        ghost var s := buf[first..end];
        ValueUnfolds(s, mode);
        buf[end] := 0;
        needsFlush := false;
        if mode != NAME_MODE {
          var n := DecodeInPlace(buf, start, end, mode, s);
          ghost var d := DecodeFrom(s, 0, [], mode);
          HoldsCStr(buf, start, d);
          if mode.collapse {
            start := CollapseWhitespace(buf, start, CStr(d));
          }
        }
        mode := NAME_MODE;
      }
      at := start;
    }
  }

  lemma ValueUnfolds(s: Bytes, m: Mode)
    requires NoNul(s)
    ensures var text := CStr(DecodeFrom(s, 0, [], m));
      && Value(s, m) == (if m.collapse then Squeeze(text, SkipSpace(text, 0)) else text)
      && |text| <= |s|
      && (m.collapse ==> SkipSpace(text, 0) + |Value(s, m)| <= |s|)
    ensures m == NAME_MODE ==> Value(s, m) == s
  {
    if m == NAME_MODE {
      assert s[..0] == [];
      NameIsVerbatim(s, 0, []);
      CStrIs(s, s);
    }
  }

  // ---------------------------------------------------------------- independence

  /** All pairs are readable, in one buffer, and own disjoint closed ranges of it. */
  ghost predicate Apart(pairs: seq<StrPair>, buf: array<byte>)
    reads pairs, buf
  {
    && (forall i :: 0 <= i < |pairs| ==> pairs[i].buf == buf && pairs[i].Valid())
    && forall i, j :: 0 <= i < j < |pairs| ==> pairs[i].end < pairs[j].first
  }

  /** Reading one string leaves every other one readable with the same result. */
  method ReadOne(pairs: seq<StrPair>, buf: array<byte>, i: nat) returns (at: nat)
    requires Apart(pairs, buf) && i < |pairs|
    modifies pairs, buf
    ensures Apart(pairs, buf) && at == pairs[i].start && Holds(buf, at, pairs[i].text, 0)
    ensures forall j :: 0 <= j < |pairs| && !old(pairs[j].needsFlush) ==> pairs[j].start == old(pairs[j].start)
    ensures forall j :: 0 <= j < |pairs| ==> pairs[j].needsFlush == (old(pairs[j].needsFlush) && j != i)
  {
    hide Value;
    at := pairs[i].GetStr();
    forall j | 0 <= j < |pairs| && j != i
      ensures pairs[j] != pairs[i] && pairs[j].Valid()
    {
      assert pairs[j].end < pairs[i].first || pairs[i].end < pairs[j].first;
      assert old(pairs[j].Valid());
      assert buf[pairs[j].first..pairs[j].end] == old(buf[pairs[j].first..pairs[j].end]);
    }
  }

  /** Whatever the order of the readings, with or without repeats, each one returns its own text. */
  method ReadInOrder(pairs: seq<StrPair>, buf: array<byte>, order: seq<nat>) returns (at: seq<nat>)
    requires Apart(pairs, buf) && forall k :: 0 <= k < |order| ==> order[k] < |pairs|
    modifies pairs, buf
    ensures Apart(pairs, buf) && |at| == |order|
    ensures forall k :: 0 <= k < |order| ==>
      at[k] == pairs[order[k]].start && Holds(buf, at[k], pairs[order[k]].text, 0)
  {
    hide Apart;
    at := [];
    for k := 0 to |order|
      invariant Apart(pairs, buf) && |at| == k
      invariant forall j :: 0 <= j < k ==>
        !pairs[order[j]].needsFlush && at[j] == pairs[order[j]].start
    {
      var a := ReadOne(pairs, buf, order[k]);
      at := at + [a];
    }
    forall k | 0 <= k < |order|
      ensures Holds(buf, at[k], pairs[order[k]].text, 0)
    {
      ReadHolds(pairs, buf, order[k]);
    }
  }

  lemma ReadHolds(pairs: seq<StrPair>, buf: array<byte>, i: nat)
    requires Apart(pairs, buf) && i < |pairs| && !pairs[i].needsFlush
    ensures Holds(buf, pairs[i].start, pairs[i].text, 0)
  {
    assert pairs[i].Valid();
  }
}
