/**
 XMLDocument::Parse stepping through one mutable buffer. Names are compared while parsing, which
 writes NULs into the part already read; each method is proved against the parser of XmlParser.dfy.
 */
module XmlDocument {
  import opened XmlBytes
  import opened Decode
  import opened DynArray
  import opened StrPairs
  import opened XmlParser
  import opened ParserFacts

  // ---------------------------------------------------------------- tokens

  /** StrPair::ParseName. */
  method ScanName(buf: array<byte>, p: nat, ghost s: Bytes) returns (found: bool, end: nat)
    requires Tail(buf, 0, s, p)
    ensures found <==> p < |s| && IsNameStart(s[p])
    ensures found ==> p < end == NameEnd(s, p)
  {
    TailAt(buf, 0, s, p, p);
    if !IsNameStart(buf[p]) {
      return false, p;
    }
    end := p + 1;
    TailAt(buf, 0, s, p, end);
    while IsNameChar(buf[end])
      invariant p < end <= |s| && NameEnd(s, end) == NameEnd(s, p)
      invariant end < |s| ==> buf[end] == s[end]
      invariant end == |s| ==> buf[end] == 0
      decreases |s| - end
    {
      end := end + 1;
      TailAt(buf, 0, s, p, end);
    }
    found := true;
  }

  /** StrPair::ParseText, up to the terminator. */
  method ScanText(buf: array<byte>, p: nat, t: Bytes, ghost s: Bytes) returns (found: bool, at: nat)
    requires Tail(buf, 0, s, p) && NoNul(s) && NoNul(t) && t != []
    ensures at == Find(s, p, t) && (found <==> at < |s|)
  {
    at := p;
    TailAt(buf, 0, s, p, at);
    while buf[at] != 0
      invariant p <= at <= |s| && Find(s, at, t) == Find(s, p, t)
      invariant at < |s| ==> buf[at] == s[at]
      decreases |s| - at
    {
      FirstByte(s, at, t);
      if buf[at] == t[0] {
        var hit := StartsWith(buf, at, t, 0, s, at);
        if hit {
          return true, at;
        }
      }
      at := at + 1;
      TailAt(buf, 0, s, p, at);
    }
    found := false;
  }

  lemma FirstByte(s: Bytes, p: nat, t: Bytes)
    requires p < |s| && t != []
    ensures StartsAt(s, p, t) ==> s[p] == t[0]
  {
    if StartsAt(s, p, t) {
      assert s[p..p + |t|][0] == s[p];
    }
  }

  /** XMLAttribute::ParseDeep. */
  method ScanAttr(buf: array<byte>, p: nat, cfg: Config, ghost s: Bytes) returns (r: AttrResult)
    requires Tail(buf, 0, s, p) && NoNul(s) && p < |s| && IsNameStart(s[p])
    ensures r == ParseAttr(s, p, cfg)
  {
    hide Find, NameEnd, SkipSpace;
    var _, e := ScanName(buf, p, s);
    TailAt(buf, 0, s, p, e);
    if buf[e] == 0 {
      return NoAttr;
    }
    var q := SkipBlanks(buf, e, 0, s, e);
    TailAt(buf, 0, s, p, q);
    if buf[q] != EQ {
      return NoAttr;
    }
    var v := SkipBlanks(buf, q + 1, 0, s, q + 1);
    TailAt(buf, 0, s, p, v);
    if buf[v] != QUOTE && buf[v] != APOS {
      return NoAttr;
    }
    var found, end := ScanText(buf, v + 1, [buf[v]], s);
    if !found {
      return NoAttr;
    }
    r := GotAttr(Attr(Slice(p, e, NAME_MODE), Slice(v + 1, end, AttrMode(cfg))), end + 1);
  }

  /** XMLUtil::StringEqual on two strings that end at a NUL. */
  method SameString(buf: array<byte>, a: nat, b: nat, ghost x: Bytes, ghost y: Bytes) returns (same: bool)
    requires Holds(buf, a, x, 0) && Holds(buf, b, y, 0) && NoNul(x) && NoNul(y)
    ensures same <==> x == y
  {
    var i := 0;
    while buf[a + i] == buf[b + i] && buf[a + i] != 0
      invariant i <= |x| && i <= |y| && x[..i] == y[..i]
      decreases |x| - i
    {
      assert i < |x| && i < |y| && x[i] == buf[a + i] && y[i] == buf[b + i];
      i := i + 1;
    }
    same := buf[a + i] == buf[b + i];
    if i < |x| && i < |y| {
      assert x[i] == buf[a + i] && y[i] == buf[b + i];
    } else if i == |x| && i == |y| {
      assert x[..i] == x && y[..i] == y;
    }
  }

  // ---------------------------------------------------------------- strings left intact

  /** The strings lie between lo and hi and b still has their bytes. */
  ghost predicate Safe(b: Bytes, s: Bytes, xs: seq<Slice>, lo: nat, hi: nat) {
    && |s| <= |b| && hi <= |s|
    && (forall k :: 0 <= k < |xs| ==> lo <= xs[k].start <= xs[k].end <= hi)
    && forall k, i :: 0 <= k < |xs| && xs[k].start <= i < xs[k].end ==> b[i] == s[i]
  }

  lemma SafeNone(b: Bytes, s: Bytes, lo: nat, hi: nat)
    requires |s| <= |b| && hi <= |s|
    ensures Safe(b, s, [], lo, hi) && AttrSlices([]) == [] && AllSlices([]) == []
  {
  }

  lemma SafeOne(b: Bytes, s: Bytes, x: Slice, lo: nat, hi: nat)
    requires |s| <= |b| && lo <= x.start <= x.end <= hi <= |s|
    requires forall i :: x.start <= i < x.end ==> b[i] == s[i]
    ensures Safe(b, s, [x], lo, hi)
  {
  }

  lemma SafeJoin(b: Bytes, s: Bytes, xs: seq<Slice>, ys: seq<Slice>, lo: nat, mid: nat, mid': nat, hi: nat)
    requires Safe(b, s, xs, lo, mid) && Safe(b, s, ys, mid', hi) && mid <= hi && lo <= mid'
    ensures Safe(b, s, xs + ys, lo, hi)
  {
  }

  /** Writes outside [lo, hi) do no harm. */
  lemma SafeFrame(b: Bytes, b': Bytes, s: Bytes, xs: seq<Slice>, lo: nat, hi: nat)
    requires Safe(b, s, xs, lo, hi) && |b'| == |b| && forall i :: lo <= i < hi ==> b'[i] == b[i]
    ensures Safe(b', s, xs, lo, hi)
  {
  }

  /** The names are terminated in the buffer. */
  ghost predicate Flushed(b: Bytes, s: Bytes, attrs: seq<Attr>) {
    && |s| < |b| && AttrsIn(s, attrs)
    && (forall k, i :: 0 <= k < |attrs| && attrs[k].name.start <= i < attrs[k].name.end ==> b[i] == s[i])
    && forall k :: 0 <= k < |attrs| ==> b[attrs[k].name.end] == 0
  }

  lemma FlushedHolds(buf: array<byte>, s: Bytes, attrs: seq<Attr>, k: nat)
    requires Flushed(buf[..], s, attrs) && k < |attrs| && NoNul(s)
    ensures InText(s, attrs[k].name)
    ensures Holds(buf, attrs[k].name.start, Raw(s, attrs[k].name), 0) && NoNul(Raw(s, attrs[k].name))
  {
    assert forall i :: 0 <= i < buf.Length ==> buf[i] == buf[..][i];
  }

  /** XMLElement::FindAttribute. */
  method FindAttribute(buf: array<byte>, attrs: seq<Attr>, name: Slice, ghost s: Bytes) returns (found: bool)
    requires NoNul(s) && InText(s, name) && Holds(buf, name.start, Raw(s, name), 0)
    requires Flushed(buf[..], s, attrs)
    ensures found <==> HasAttr(s, attrs, Raw(s, name))
  {
    var k := 0;
    while k < |attrs|
      invariant k <= |attrs| && forall i :: 0 <= i < k ==> Raw(s, attrs[i].name) != Raw(s, name)
    {
      FlushedHolds(buf, s, attrs, k);
      var same := SameString(buf, attrs[k].name.start, name.start, Raw(s, attrs[k].name), Raw(s, name));
      if same {
        return true;
      }
      k := k + 1;
    }
    found := false;
  }

  /** A name is terminated where it ends; nothing that lies before it is touched. */
  method FlushName(buf: array<byte>, p: nat, x: Slice, next: nat, ghost s: Bytes)
    requires Tail(buf, 0, s, p) && NoNul(s) && p <= x.start < x.end < next <= |s|
    modifies buf
    ensures Tail(buf, 0, s, next) && Holds(buf, x.start, Raw(s, x), 0) && NoNul(Raw(s, x))
    ensures buf[x.end] == 0 && forall i :: 0 <= i < buf.Length && i != x.end ==> buf[i] == old(buf[i])
  {
    buf[x.end] := 0;
  }

  /** What is known of the attributes linked so far, read from `lo` up to q. */
  ghost predicate Linked(b: Bytes, s: Bytes, attrs: seq<Attr>, lo: nat, q: nat) {
    && Flushed(b, s, attrs) && Safe(b, s, AttrSlices(attrs), lo, q)
    && forall k :: 0 <= k < |attrs| ==> attrs[k].name.end < q
  }

  /** Terminating the name of the next attribute is harmless. */
  lemma LinkFrame(b: Bytes, b': Bytes, s: Bytes, attrs: seq<Attr>, lo: nat, q: nat)
    requires Linked(b, s, attrs, lo, q) && |b'| == |b| && forall i :: 0 <= i < q ==> b'[i] == b[i]
    ensures Linked(b', s, attrs, lo, q)
  {
    hide AttrSlices;
  }

  lemma LinkOne(b: Bytes, s: Bytes, a: Attr, q: nat, next: nat)
    requires |s| < |b| && q <= a.name.start < a.name.end < a.value.start <= a.value.end < next <= |s|
    requires forall i :: q <= i < next && i != a.name.end ==> b[i] == s[i]
    ensures Safe(b, s, [a.name, a.value], q, next)
  {
  }

  lemma LinkMore(b: Bytes, s: Bytes, attrs: seq<Attr>, a: Attr, lo: nat, q: nat, next: nat)
    requires Linked(b, s, attrs, lo, q) && lo <= q
    requires q <= a.name.start < a.name.end < a.value.start <= a.value.end < next <= |s|
    requires forall i :: q <= i < next && i != a.name.end ==> b[i] == s[i]
    requires b[a.name.end] == 0
    ensures Linked(b, s, attrs + [a], lo, next)
  {
    hide AttrSlices, Safe;
    AttrSlicesMore(attrs, a);
    LinkOne(b, s, a, q, next);
    SafeJoin(b, s, AttrSlices(attrs), [a.name, a.value], lo, q, q, next);
  }

  /** One attribute of a tag, at q after `attrs`. */
  method LinkAttr(buf: array<byte>, at: nat, cfg: Config, attrs: seq<Attr>, ghost lo: nat, ghost q: nat, ghost s: Bytes)
    returns (r: AttrResult)
    requires Tail(buf, 0, s, q) && NoNul(s) && lo <= q <= at < |s| && IsNameStart(s[at])
    requires Linked(buf[..], s, attrs, lo, q)
    modifies buf
    ensures var a := ParseAttr(s, at, cfg);
      r == if a.NoAttr? || HasAttr(s, attrs, Raw(s, a.attr.name)) then NoAttr else a
    ensures r.GotAttr? ==> Tail(buf, 0, s, r.p) && Linked(buf[..], s, attrs + [r.attr], lo, r.p)
    ensures forall i :: 0 <= i < buf.Length && (i < q || (r.GotAttr? && r.p <= i)) ==> buf[i] == old(buf[i])
  {
    hide NameEnd, Linked, Find;
    ghost var b := buf[..];
    r := ScanAttr(buf, at, cfg, s);
    if r.GotAttr? {
      FlushName(buf, at, r.attr.name, r.p, s);
      LinkFrame(b, buf[..], s, attrs, lo, q);
      var found := FindLinked(buf, attrs, r.attr.name, lo, q, s);
      if found {
        r := NoAttr;
      } else {
        LinkMore(buf[..], s, attrs, r.attr, lo, q, r.p);
      }
    }
  }

  method FindLinked(buf: array<byte>, attrs: seq<Attr>, name: Slice, ghost lo: nat, ghost q: nat, ghost s: Bytes)
    returns (found: bool)
    requires NoNul(s) && InText(s, name) && Holds(buf, name.start, Raw(s, name), 0)
    requires Linked(buf[..], s, attrs, lo, q)
    ensures AttrsIn(s, attrs) && (found <==> HasAttr(s, attrs, Raw(s, name)))
  {
    found := FindAttribute(buf, attrs, name, s);
  }

  /** XMLElement::ParseAttributes. */
  method ScanTag(buf: array<byte>, p: nat, cfg: Config, ghost s: Bytes) returns (r: TagResult)
    requires Tail(buf, 0, s, p) && NoNul(s)
    modifies buf
    ensures r == ParseAttrs(s, p, cfg, [])
    ensures r.Tag? ==> Tail(buf, 0, s, r.p) && Safe(buf[..], s, AttrSlices(r.attrs), p, r.p)
    ensures forall i :: 0 <= i < buf.Length && (i < p || (r.Tag? && r.p <= i)) ==> buf[i] == old(buf[i])
  {
    hide SkipSpace, Linked, Safe, AttrSlices, ParseAttrs, ParseAttr, HasAttr, IsNameStart;
    var attrs, q := [], p;
    NoneLinked(buf[..], s, p);
    var at := SkipBlanks(buf, q, 0, s, q);
    TailAt(buf, 0, s, q, at);
    NextAttr(s, q, cfg, attrs);
    while IsNameStart(buf[at])
      invariant p <= q <= at <= |s| && at == SkipSpace(s, q) && Tail(buf, 0, s, q) && AttrsIn(s, attrs)
      invariant buf[at] == if at < |s| then s[at] else 0
      invariant ParseAttrs(s, q, cfg, attrs) == ParseAttrs(s, p, cfg, [])
      invariant Linked(buf[..], s, attrs, p, q)
      invariant forall i :: 0 <= i < buf.Length && !(p <= i < q) ==> buf[i] == old(buf[i])
      decreases |s| - q
    {
      NextAttr(s, q, cfg, attrs);
      var next := LinkAttr(buf, at, cfg, attrs, p, q, s);
      if next.NoAttr? {
        return BadTag(ParsingAttribute);
      }
      attrs, q := attrs + [next.attr], next.p;
      at := SkipBlanks(buf, q, 0, s, q);
      TailAt(buf, 0, s, q, at);
    }
    r := EndTag(buf, at, cfg, attrs, p, q, s);
  }

  /** What is no attribute must end the tag. */
  method EndTag(buf: array<byte>, at: nat, cfg: Config, attrs: seq<Attr>, ghost lo: nat, ghost q: nat, ghost s: Bytes)
    returns (r: TagResult)
    requires Tail(buf, 0, s, q) && AttrsIn(s, attrs) && at == SkipSpace(s, q)
    requires at < |s| ==> !IsNameStart(s[at])
    requires Linked(buf[..], s, attrs, lo, q)
    ensures r == ParseAttrs(s, q, cfg, attrs)
    ensures r.Tag? ==> q < r.p && Tail(buf, 0, s, r.p) && Safe(buf[..], s, AttrSlices(r.attrs), lo, r.p)
  {
    hide SkipSpace, Linked, Safe, AttrSlices;
    TailAt(buf, 0, s, q, at);
    TailAt(buf, 0, s, q, at + 1);
    if buf[at] == GT {
      LinkedSafe(buf[..], s, attrs, lo, q, at + 1);
      r := Tag(attrs, at + 1, false);
    } else if buf[at] == SLASH && buf[at + 1] == GT {
      LinkedSafe(buf[..], s, attrs, lo, q, at + 2);
      r := Tag(attrs, at + 2, true);
    } else {
      r := BadTag(ParsingElement);
    }
  }

  lemma NoneLinked(b: Bytes, s: Bytes, p: nat)
    requires |s| < |b| && p <= |s|
    ensures Linked(b, s, [], p, p)
  {
  }

  lemma LinkedSafe(b: Bytes, s: Bytes, attrs: seq<Attr>, lo: nat, q: nat, hi: nat)
    requires Linked(b, s, attrs, lo, q) && q <= hi <= |s|
    ensures Safe(b, s, AttrSlices(attrs), lo, hi)
  {
    hide AttrSlices;
  }

  lemma SafeWiden(b: Bytes, s: Bytes, xs: seq<Slice>, lo: nat, hi: nat, hi': nat)
    requires Safe(b, s, xs, lo, hi) && hi <= hi' <= |s|
    ensures Safe(b, s, xs, lo, hi')
  {
  }

  // ---------------------------------------------------------------- nodes

  /** XMLDocument::Identify, without the node it creates. */
  method ScanKind(buf: array<byte>, start: nat, cfg: Config, first: bool, ghost s: Bytes) returns (r: Found)
    requires Tail(buf, 0, s, start) && NoNul(s)
    ensures r == Identify(s, start, cfg, first)
  {
    hide SkipSpace, StartsAt;
    var p := SkipBlanks(buf, start, 0, s, start);
    TailAt(buf, 0, s, start, p);
    TailAt(buf, 0, s, start, p + 1);
    if buf[p] == 0 {
      return Nothing;
    }
    var yes := StartsWith(buf, p, DECLARATION_OPEN, 0, s, p);
    if yes { return Found(ADeclaration, p + 2); }
    yes := StartsWith(buf, p, COMMENT_OPEN, 0, s, p);
    if yes { return Found(AComment, p + 4); }
    yes := StartsWith(buf, p, CDATA_OPEN, 0, s, p);
    if yes { return Found(CData, p + 9); }
    yes := StartsWith(buf, p, UNKNOWN_OPEN, 0, s, p);
    if yes { return Found(AnUnknown, p + 2); }
    if buf[p] == LT {
      if cfg.whitespace == Pedantic && first && p != start && buf[p + 1] == SLASH {
        return Found(SomeText, start);
      }
      return Found(AnElement, p + 1);
    }
    r := Found(SomeText, start);
  }

  /** A string the buffer still holds as it was. */
  lemma SafeAhead(buf: array<byte>, s: Bytes, p: nat, x: Slice, hi: nat)
    requires Tail(buf, 0, s, p) && p <= x.start <= x.end <= hi <= |s|
    ensures Safe(buf[..], s, [x], p, hi)
  {
  }

  /** ParseDeep of the nodes that are one string. */
  method ScanLeaf(buf: array<byte>, q: nat, kind: Kind, cfg: Config, ghost s: Bytes) returns (r: NodeResult)
    requires Tail(buf, 0, s, q) && NoNul(s) && kind != AnElement
    requires kind == SomeText ==> q < |s| && s[q] != LT
    ensures r == ParseLeaf(s, q, kind, cfg)
    ensures r.Parsed? ==> Safe(buf[..], s, Slices(r.node), q, r.p)
  {
    hide Find, Safe;
    match kind
    case SomeText =>
      var found, e := ScanText(buf, q, [LT], s);
      if !found { return NodeError(ParsingText); }
      TailAt(buf, 0, s, q, e + 1);
      if buf[e + 1] == 0 { return NodeError(Parsing); }
      SafeAhead(buf, s, q, Slice(q, e, TextMode(cfg)), e);
      r := Parsed(Text(Slice(q, e, TextMode(cfg)), false), e);
    case CData =>
      var found, e := ScanText(buf, q, CDATA_CLOSE, s);
      if !found { return NodeError(ParsingCData); }
      SafeAhead(buf, s, q, Slice(q, e, LINES), e + 3);
      r := Parsed(Text(Slice(q, e, LINES), true), e + 3);
    case AComment =>
      var found, e := ScanText(buf, q, COMMENT_CLOSE, s);
      if !found { return NodeError(ParsingComment); }
      SafeAhead(buf, s, q, Slice(q, e, LINES), e + 3);
      r := Parsed(Comment(Slice(q, e, LINES)), e + 3);
    case ADeclaration =>
      var found, e := ScanText(buf, q, DECLARATION_CLOSE, s);
      if !found { return NodeError(ParsingDeclaration); }
      SafeAhead(buf, s, q, Slice(q, e, LINES), e + 2);
      r := Parsed(Declaration(Slice(q, e, LINES)), e + 2);
    case AnUnknown =>
      var found, e := ScanText(buf, q, [GT], s);
      if !found { return NodeError(ParsingUnknown); }
      SafeAhead(buf, s, q, Slice(q, e, LINES), e + 1);
      r := Parsed(Unknown(Slice(q, e, LINES)), e + 1);
  }

  lemma SafeTighten(b: Bytes, s: Bytes, xs: seq<Slice>, lo: nat, hi: nat, lo': nat, hi': nat)
    requires Safe(b, s, xs, lo, hi) && Chain(xs, lo', hi')
    ensures Safe(b, s, xs, lo', hi)
  {
  }

  /** The strings of an element, once its name and the name in its closing tag are terminated. */
  lemma SafeElement(
      b: Bytes, b': Bytes, s: Bytes, q: nat, name: Slice, attrs: seq<Attr>, p: nat, kids: seq<Node>, at: nat, hi: nat,
      n: Node)
    requires n.Element? && n.name == name && n.attrs == attrs && n.kids == kids
    requires q <= name.start <= name.end < p <= at <= hi <= |s| < |b| && |b'| == |b|
    requires forall i :: name.start <= i < name.end ==> b[i] == s[i]
    requires Safe(b, s, AttrSlices(attrs), name.end + 1, p) && Safe(b, s, AllSlices(kids), p, at)
    requires forall i :: 0 <= i < at && i != name.end ==> b'[i] == b[i]
    ensures Safe(b', s, Slices(n), q, hi)
  {
    hide AttrSlices, AllSlices, Safe;
    SafeOne(b', s, name, q, name.end);
    SafeFrame(b, b', s, AttrSlices(attrs), name.end + 1, p);
    SafeFrame(b, b', s, AllSlices(kids), p, at);
    SafeJoin(b', s, [name], AttrSlices(attrs), q, name.end, name.end + 1, p);
    SafeJoin(b', s, [name] + AttrSlices(attrs), AllSlices(kids), q, p, p, at);
    SafeWiden(b', s, Slices(n), q, at, hi);
  }

  lemma SafeSealed(b: Bytes, s: Bytes, q: nat, name: Slice, attrs: seq<Attr>, p: nat, n: Node)
    requires n.Element? && n.name == name && n.attrs == attrs && n.kids == []
    requires q <= name.start <= name.end < p <= |s| < |b|
    requires forall i :: name.start <= i < name.end ==> b[i] == s[i]
    requires Safe(b, s, AttrSlices(attrs), name.end + 1, p)
    ensures Safe(b, s, Slices(n), q, p)
  {
    hide AttrSlices, Safe;
    SafeNone(b, s, p, p);
    SafeElement(b, b, s, q, name, attrs, p, [], p, p, n);
  }

  /** The attributes after a name: they start after the byte that ends it. */
  method ScanNamedTag(buf: array<byte>, name: Slice, cfg: Config, ghost s: Bytes) returns (r: TagResult)
    requires Tail(buf, 0, s, name.start) && NoNul(s) && name.start < |s| && IsNameStart(s[name.start])
    requires name.end == NameEnd(s, name.start)
    modifies buf
    ensures r == ParseAttrs(s, name.end, cfg, [])
    ensures name.start < name.end && forall i :: name.start <= i < name.end ==> buf[i] == s[i]
    ensures r.Tag? ==> Tail(buf, 0, s, r.p) && Safe(buf[..], s, AttrSlices(r.attrs), name.end + 1, r.p)
    ensures forall i :: 0 <= i < buf.Length && (i < name.end || (r.Tag? && r.p <= i)) ==> buf[i] == old(buf[i])
  {
    hide NameEnd, ParseAttrs, Safe, AttrSlices;
    NameIsNonempty(s, name.start);
    TailLater(buf, s, name.start, name.end);
    r := ScanTag(buf, name.end, cfg, s);
    if r.Tag? {
      TagSafe(buf[..], s, name, r.attrs, r.p, cfg);
    }
  }

  // ---------------------------------------------------------------- a child before its parent has checked it

  datatype ClosingType = IsOpen | IsSealed | IsClosing

  datatype EndMark = NoEndTag | Ending(at: nat, name: Slice)

  /**
   What the ParseDeep of a child leaves: null, with so many nodes linked below it, or a leaf, or an
   element and the end tag it met.
   */
  datatype Child =
    | Null(error: Error, below: nat)
    | Leaf(leaf: Node, p: nat)
    | Started(at: nat, name: Slice, attrs: seq<Attr>, content: nat, kids: seq<Node>,
              how: ClosingType, endTag: EndMark, p: nat)

  predicate NamesIn(s: Bytes, c: Child) {
    c.Started? && c.endTag.Ending? ==> InText(s, c.name) && InText(s, c.endTag.name)
  }

  /** What the specification says of a child once its parent has checked it. */
  function Checked(s: Bytes, c: Child): NodeResult
    requires NamesIn(s, c)
  {
    match c
    case Null(error, _) => NodeError(error)
    case Leaf(leaf, p) => Parsed(leaf, p)
    case Started(at, name, attrs, _, kids, how, endTag, p) =>
      if how.IsClosing? then CloseTag(at, name, p)
      else if endTag.NoEndTag? then
        if how.IsOpen? then NodeError(MismatchedElement)
        else Parsed(Element(at, name, attrs, kids, SelfClosed(p)), p)
      else if !how.IsOpen? || Raw(s, endTag.name) != Raw(s, name) then NodeError(MismatchedElement)
      else Parsed(Element(at, name, attrs, kids, ClosedBy(endTag.at, endTag.name)), p)
  }

  /** How many nodes a tree has. */
  function Count(n: Node): nat {
    if n.Element? then 1 + CountAll(n.kids) else 1
  }

  function CountAll(ns: seq<Node>): nat {
    if ns == [] then 0 else CountAll(ns[..|ns| - 1]) + Count(ns[|ns| - 1])
  }

  lemma CountMore(ns: seq<Node>, n: Node)
    ensures CountAll(ns + [n]) == CountAll(ns) + Count(n) && CountAll([]) == 0
  {
    assert (ns + [n])[..|ns|] == ns;
  }

  /** The nodes that are linked below a child. */
  function Below(c: Child): nat {
    match c
    case Null(_, below) => below
    case Leaf(_, _) => 0
    case Started(_, _, _, _, kids, _, _, _) => CountAll(kids)
  }

  /** The strings of the child are where they were read, from lo on; its names are not terminated yet. */
  ghost predicate Intact(b: Bytes, s: Bytes, c: Child, lo: nat) {
    match c
    case Null(_, _) => true
    case Leaf(leaf, p) => !leaf.Element? && Safe(b, s, Slices(leaf), lo, p)
    case Started(at, name, attrs, content, kids, how, endTag, p) =>
      && lo <= at < name.start <= name.end < content <= p <= |s| < |b|
      && (forall i :: name.start <= i < name.end ==> b[i] == s[i])
      && Safe(b, s, AttrSlices(attrs), name.end + 1, content)
      && (how.IsSealed? ==> content == p && kids == [])
      && (how.IsOpen? && endTag.Ending? ==>
        && content <= endTag.at <= endTag.name.start <= endTag.name.end < p
        && Safe(b, s, AllSlices(kids), content, endTag.at)
        && Safe(b, s, [endTag.name], endTag.at, endTag.name.end))
  }

  /** How the loop over children goes on after one of them. */
  datatype Step = Stop(result: ListResult) | Next(node: Node, p: nat)

  function Settled(r: NodeResult, document: bool, list: seq<Node>): (step: Step)
    ensures step.Stop? ==> step.result.Failed? || (step.result.Closed? && step.result.kids == list)
  {
    match r
    case NodeError(error) => Stop(Failed(error))
    case CloseTag(at, name, p) => Stop(Closed(list, at, name, p))
    case Parsed(node, p) =>
      if node.Declaration? && !(document && OnlyDeclarations(list)) then Stop(Failed(ParsingDeclaration))
      else Next(node, p)
  }

  /** One round of the loop, in the specification. */
  lemma LoopStep(s: Bytes, p: nat, cfg: Config, depth: nat, document: bool, first: bool, list: seq<Node>)
    requires p <= |s| && depth < MAX_DEPTH
    ensures var found := Identify(s, p, cfg, first);
      ParseLoop(s, p, cfg, depth, document, first, list) ==
        if found.Nothing? then Ended(list)
        else
          var r := if found.kind == AnElement then ParseElement(s, found.at, cfg, depth)
                   else ParseLeaf(s, found.at, found.kind, cfg);
          var step := Settled(r, document, list);
          if step.Stop? then step.result
          else ParseLoop(s, step.p, cfg, depth, document, false, list + [step.node])
  {
    hide Identify, ParseElement, ParseLeaf;
  }

  // ---------------------------------------------------------------- the document

  datatype Status = Success | Err(error: Error)

  class XMLDocument {
    const cfg: Config
    var charBuffer: array<byte>
    var errorID: Status
    var parsingDepth: nat
    var unlinked: seq<nat>  // nodes that were created and are not in the tree, by number
    var nextNode: nat
    var live: nat           // the nodes taken from the pools and not given back
    var kids: seq<Node>

    ghost predicate Valid()
      reads this
    {
      && (forall n :: n in unlinked ==> n < nextNode)
      && forall i, j :: 0 <= i < j < |unlinked| ==> unlinked[i] != unlinked[j]
    }

    /** Every node is in the tree or in the list: none is lost and none was given back twice. */
    ghost predicate Accounted()
      reads this
    {
      live == CountAll(kids) + |unlinked|
    }

    constructor (cfg: Config)
      ensures Valid() && this.cfg == cfg && errorID == Success && parsingDepth == 0 && unlinked == [] && kids == []
      ensures fresh(charBuffer) && Accounted()
    {
      this.cfg := cfg;
      charBuffer := new byte[0];
      errorID, parsingDepth, unlinked, nextNode, live, kids := Success, 0, [], 0, 0, [];
    }

    method CreateUnlinkedNode() returns (node: nat)
      requires Valid()
      modifies this`unlinked, this`nextNode, this`live
      ensures Valid() && unlinked == old(unlinked) + [node] && node !in old(unlinked) && live == old(live) + 1
    {
      node := nextNode;
      assert node !in unlinked;
      live := live + 1;
      unlinked, nextNode := unlinked + [node], nextNode + 1;
    }

    /** The linear search; at most one place holds the node. */
    method MarkInUse(node: nat)
      requires Valid()
      modifies this`unlinked
      ensures Valid() && unlinked == SwapRemoved(old(unlinked), node) && node !in unlinked
    {
      hide PlaceOf, SwapRemoved;
      var i := 0;
      while i < |unlinked| && unlinked[i] != node
        invariant i <= |unlinked| && unlinked == old(unlinked) && forall j :: 0 <= j < i ==> unlinked[j] != node
      {
        i := i + 1;
      }
      SwapFacts(unlinked, node, i);
      if i < |unlinked| {
        unlinked := unlinked[i := unlinked[|unlinked| - 1]][..|unlinked| - 1];
      }
    }

    /** XMLNode::DeleteNode of the node that was created last, with the nodes linked below it. */
    method DeleteNode(node: nat, below: nat, ghost before: seq<nat>)
      requires Valid() && unlinked == before + [node] && node !in before && live > below
      modifies this`unlinked, this`live
      ensures Valid() && unlinked == before && live == old(live) - 1 - below
    {
      LastIsRemoved(before, node);
      MarkInUse(node);
      live := live - 1 - below;
    }

    /** XMLNode::InsertEndChild of it: InsertChildPreamble takes it out of the list. */
    method InsertEndChild(node: nat, ghost before: seq<nat>)
      requires Valid() && unlinked == before + [node] && node !in before
      modifies this`unlinked
      ensures Valid() && unlinked == before
    {
      LastIsRemoved(before, node);
      MarkInUse(node);
    }

    /** PushDepth, and whether parsing may go on. */
    method PushDepth() returns (ok: bool)
      requires errorID == Success
      modifies this`parsingDepth, this`errorID
      ensures parsingDepth == old(parsingDepth) + 1 && ok == (parsingDepth != MAX_DEPTH)
      ensures errorID == if ok then Success else Err(DepthExceeded)
    {
      parsingDepth := parsingDepth + 1;
      if parsingDepth == MAX_DEPTH {
        errorID := Err(DepthExceeded);
      }
      ok := errorID == Success;
    }

    method PopDepth()
      requires parsingDepth > 0
      modifies this`parsingDepth
      ensures parsingDepth == old(parsingDepth) - 1
    {
      parsingDepth := parsingDepth - 1;
    }

    /** What parsing must leave as it was: the depth counter and the list of unlinked nodes. */
    twostate predicate Restored()
      reads this
    {
      Valid() && parsingDepth == old(parsingDepth) && unlinked == old(unlinked)
    }

    /** A name in the buffer is compared with another: both are terminated first. */
    method CompareNames(name: Slice, endName: Slice, at: nat, next: nat, ghost s: Bytes) returns (same: bool)
      requires Tail(charBuffer, 0, s, next) && NoNul(s)
      requires name.start <= name.end < at <= endName.start <= endName.end < next <= |s|
      requires forall i :: name.start <= i < name.end || endName.start <= i < endName.end ==> charBuffer[i] == s[i]
      modifies charBuffer
      ensures same <==> Raw(s, name) == Raw(s, endName)
      ensures Tail(charBuffer, 0, s, next)
      ensures forall i :: 0 <= i < charBuffer.Length && i != name.end && i != endName.end ==>
        charBuffer[i] == old(charBuffer[i])
    {
      charBuffer[endName.end] := 0;
      charBuffer[name.end] := 0;
      same := SameString(charBuffer, name.start, endName.start, Raw(s, name), Raw(s, endName));
    }

    /** XMLElement::ParseDeep. */
    method ElementParseDeep(q: nat, ghost s: Bytes) returns (c: Child)
      requires Valid() && errorID == Success && parsingDepth < MAX_DEPTH
      requires Tail(charBuffer, 0, s, q) && NoNul(s) && 0 < q && s[q - 1] == LT
      modifies charBuffer, this`errorID, this`parsingDepth, this`unlinked, this`nextNode, this`live
      ensures Restored() && NamesIn(s, c) && Checked(s, c) == ParseElement(s, q, cfg, parsingDepth)
      ensures !c.Null? ==> c.Started? && errorID == Success && Tail(charBuffer, 0, s, c.p) && q < c.p
      ensures !c.Null? ==> Intact(charBuffer[..], s, c, q - 1)
      ensures !c.Null? ==> forall i :: 0 <= i < charBuffer.Length && !(q <= i < c.p) ==>
        charBuffer[i] == old(charBuffer[i])
      ensures live == old(live) + Below(c)
      decreases |s| - q, 1
    {
      hide SkipSpace, NameEnd, ParseNamed, Intact, Checked;
      var t := SkipBlanks(charBuffer, q, 0, s, q);
      TailAt(charBuffer, 0, s, q, t);
      var closing := charBuffer[t] == SLASH;
      var n := if closing then t + 1 else t;
      var named, e := ScanName(charBuffer, n, s);
      if named {
        c := NamedParseDeep(q, closing, Slice(n, e, NAME_MODE), s);
      } else {
        c := Null(Parsing, 0);
        NullIs(s, Parsing, 0);
      }
    }

    method NamedParseDeep(q: nat, closing: bool, name: Slice, ghost s: Bytes) returns (c: Child)
      requires Valid() && errorID == Success && parsingDepth < MAX_DEPTH
      requires Tail(charBuffer, 0, s, q) && NoNul(s) && 0 < q <= name.start < |s| && IsNameStart(s[name.start])
      requires name.end == NameEnd(s, name.start)
      modifies charBuffer, this`errorID, this`parsingDepth, this`unlinked, this`nextNode, this`live
      ensures Restored() && NamesIn(s, c) && Checked(s, c) == ParseNamed(s, q, closing, name, cfg, parsingDepth)
      ensures !c.Null? ==> c.Started? && errorID == Success && Tail(charBuffer, 0, s, c.p) && q < c.p
      ensures !c.Null? ==> Intact(charBuffer[..], s, c, q - 1)
      ensures !c.Null? ==> forall i :: 0 <= i < charBuffer.Length && !(q <= i < c.p) ==>
        charBuffer[i] == old(charBuffer[i])
      ensures live == old(live) + Below(c)
      decreases |s| - q, 0
    {
      hide NameEnd, ParseAttrs, ParseList, Safe, AttrSlices, AllSlices, Slices, Raw;
      TailLater(charBuffer, s, q, name.start);
      var tag := ScanNamedTag(charBuffer, name, cfg, s);
      match tag
      case BadTag(error) => c := Null(error, 0);
      case Tag(attrs, p, sealed) =>
        TailAt(charBuffer, 0, s, p, p);
        if sealed || closing || charBuffer[p] == 0 {
          var how := if sealed then IsSealed else if closing then IsClosing else IsOpen;
          c := Started(q - 1, name, attrs, p, [], how, NoEndTag, p);
        } else {
          c := Content(q, name, attrs, p, s);
        }
    }

    /** The children of an element; the end tag is what ended them. */
    method Content(q: nat, name: Slice, attrs: seq<Attr>, p: nat, ghost s: Bytes) returns (c: Child)
      requires Valid() && errorID == Success && parsingDepth < MAX_DEPTH
      requires Tail(charBuffer, 0, s, p) && NoNul(s) && 0 < q <= name.start <= name.end < p <= |s|
      requires forall i :: name.start <= i < name.end ==> charBuffer[i] == s[i]
      requires Safe(charBuffer[..], s, AttrSlices(attrs), name.end + 1, p)
      modifies charBuffer, this`errorID, this`parsingDepth, this`unlinked, this`nextNode, this`live
      ensures Restored() && NamesIn(s, c)
      ensures Checked(s, c) == match ParseList(s, p, cfg, parsingDepth, false)
        case Failed(error) => NodeError(error)
        case Ended(_) => NodeError(Parsing)
        case Closed(kids, at, endName, next) =>
          if Raw(s, endName) != Raw(s, name) then NodeError(MismatchedElement)
          else Parsed(Element(q - 1, name, attrs, kids, ClosedBy(at, endName)), next)
      ensures !c.Null? ==> c.Started? && errorID == Success && Tail(charBuffer, 0, s, c.p) && q < p <= c.p
      ensures !c.Null? ==> Intact(charBuffer[..], s, c, q - 1)
      ensures !c.Null? ==> forall i :: 0 <= i < charBuffer.Length && !(p <= i < c.p) ==>
        charBuffer[i] == old(charBuffer[i])
      ensures live == old(live) + Below(c)
      decreases |s| - p, 5
    {
      hide ParseList, Safe, AttrSlices, AllSlices, Slices, Chain, Raw;
      ghost var b := charBuffer[..];
      var inner, below := NodeParseDeep(p, false, s);
      match inner
      case Failed(error) => c := Null(error, below);
      case Ended(_) => c := Null(Parsing, below);
      case Closed(kids, at, endName, next) =>
        c := Started(q - 1, name, attrs, p, kids, IsOpen, Ending(at, endName), next);
        SafeFrame(b, charBuffer[..], s, AttrSlices(attrs), name.end + 1, p);
    }

    /** The ParseDeep of a child of any kind. */
    method ChildParseDeep(found: Found, p: nat, ghost first: bool, ghost s: Bytes) returns (c: Child)
      requires Valid() && errorID == Success && parsingDepth < MAX_DEPTH
      requires Tail(charBuffer, 0, s, p) && NoNul(s) && found == Identify(s, p, cfg, first) && found.Found?
      modifies charBuffer, this`errorID, this`parsingDepth, this`unlinked, this`nextNode, this`live
      ensures Restored() && NamesIn(s, c)
      ensures Checked(s, c) == if found.kind == AnElement then ParseElement(s, found.at, cfg, parsingDepth)
                               else ParseLeaf(s, found.at, found.kind, cfg)
      ensures !c.Null? ==> p < c.p && errorID == Success && Tail(charBuffer, 0, s, c.p)
      ensures !c.Null? ==> Intact(charBuffer[..], s, c, p)
      ensures !c.Null? ==> forall i :: 0 <= i < charBuffer.Length && !(p <= i < c.p) ==>
        charBuffer[i] == old(charBuffer[i])
      ensures live == old(live) + Below(c)
      decreases |s| - p, 2
    {
      hide ParseElement, ParseLeaf, Safe, Slices, Identify, Intact;
      FoundElement(s, p, cfg, first);
      TailLater(charBuffer, s, p, found.at);
      if found.kind == AnElement {
        c := ElementParseDeep(found.at, s);
        IntactLower(charBuffer[..], s, c, found.at - 1, p);
      } else {
        var r := ScanLeaf(charBuffer, found.at, found.kind, cfg, s);
        LeafEnd(s, found.at, found.kind, cfg);
        if r.Parsed? {
          c := Leaf(r.node, r.p);
          TailLater(charBuffer, s, p, r.p);
          SafeLower(charBuffer[..], s, Slices(r.node), found.at, p, r.p);
          LeafIntact(charBuffer[..], s, r.node, p, r.p);
        } else {
          c := Null(r.error, 0);
        }
      }
    }

    /** The names of an element that was ended by an end tag: they must be equal. */
    method EndTagMatches(c: Child, ghost lo: nat, ghost s: Bytes) returns (same: bool)
      requires c.Started? && c.how.IsOpen? && c.endTag.Ending? && Tail(charBuffer, 0, s, c.p) && NoNul(s)
      requires Intact(charBuffer[..], s, c, lo) && NamesIn(s, c)
      modifies charBuffer
      ensures same <==> Raw(s, c.endTag.name) == Raw(s, c.name)
      ensures Tail(charBuffer, 0, s, c.p) && (same ==> Safe(charBuffer[..], s, Slices(Checked(s, c).node), lo, c.p))
      ensures forall i :: 0 <= i < charBuffer.Length && !(lo <= i < c.p) ==> charBuffer[i] == old(charBuffer[i])
    {
      hide Safe, AttrSlices, AllSlices, Slices, Raw;
      ghost var b := charBuffer[..];
      SafeContent(b, s, c.endTag.name, c.endTag.at, c.endTag.name.end);
      same := CompareNames(c.name, c.endTag.name, c.endTag.at, c.p, s);
      if same {
        ghost var n := Checked(s, c).node;
        SafeElement(b, charBuffer[..], s, c.at + 1, c.name, c.attrs, c.content, c.kids, c.endTag.at, c.p, n);
        SafeLower(charBuffer[..], s, Slices(n), c.at + 1, lo, c.p);
      }
    }

    /**
     What the loop does with a child that was created last: on each of the ways out the node
     leaves the list of unlinked nodes, by being deleted or by being inserted.
     */
    method Settle(node: nat, c: Child, document: bool, list: seq<Node>, ghost before: seq<nat>, ghost lo: nat,
                  ghost s: Bytes)
      returns (step: Step)
      requires Valid() && unlinked == before + [node] && node !in before
      requires NamesIn(s, c) && NoNul(s) && (!c.Null? ==> errorID == Success)
      requires !c.Null? ==> Tail(charBuffer, 0, s, c.p) && Intact(charBuffer[..], s, c, lo)
      requires live > Below(c)
      modifies charBuffer, this`errorID, this`unlinked, this`live
      ensures Valid() && unlinked == before && step == Settled(Checked(s, c), document, list)
      ensures live == old(live) - (if step.Next? then 0 else 1 + Below(c))
      ensures step.Next? ==> Count(step.node) == 1 + Below(c)
      ensures errorID == if step.Stop? && step.result.Failed? then Err(step.result.error) else Success
      ensures if c.Null? then step.Stop? && step.result.Failed? else Tail(charBuffer, 0, s, c.p)
      ensures !c.Null? ==> forall i :: 0 <= i < charBuffer.Length && !(lo <= i < c.p) ==>
        charBuffer[i] == old(charBuffer[i])
      ensures step.Next? ==> step.p == c.p && Safe(charBuffer[..], s, Slices(step.node), lo, c.p)
      ensures step.Stop? && step.result.Closed? ==>
        && lo <= step.result.at <= step.result.name.start <= step.result.name.end < step.result.p == c.p
        && Safe(charBuffer[..], s, [step.result.name], step.result.at, step.result.name.end)
    {
      hide Safe, AttrSlices, AllSlices, Slices, Raw, Tail;
      if c.Null? {
        DeleteNode(node, Below(c), before);
        errorID := Err(c.error);
        return Stop(Failed(c.error));
      }
      if c.Leaf? {
        if c.leaf.Declaration? && !(document && OnlyDeclarations(list)) {
          errorID := Err(ParsingDeclaration);
          DeleteNode(node, Below(c), before);
          return Stop(Failed(ParsingDeclaration));
        }
        InsertEndChild(node, before);
        return Next(c.leaf, c.p);
      }
      if c.how.IsClosing? {
        DeleteNode(node, Below(c), before);
        SafeOne(charBuffer[..], s, c.name, c.at, c.name.end);
        return Stop(Closed(list, c.at, c.name, c.p));
      }
      var mismatch := false;
      if c.endTag.NoEndTag? {
        mismatch := c.how.IsOpen?;
      } else if !c.how.IsOpen? {
        mismatch := true;
      } else {
        var same := EndTagMatches(c, lo, s);
        mismatch := !same;
      }
      if mismatch {
        errorID := Err(MismatchedElement);
        DeleteNode(node, Below(c), before);
        return Stop(Failed(MismatchedElement));
      }
      if c.how.IsSealed? {
        SafeSealed(charBuffer[..], s, c.at + 1, c.name, c.attrs, c.p, Checked(s, c).node);
        SafeLower(charBuffer[..], s, Slices(Checked(s, c).node), c.at + 1, lo, c.p);
      }
      InsertEndChild(node, before);
      var closing := if c.how.IsSealed? then SelfClosed(c.p) else ClosedBy(c.endTag.at, c.endTag.name);
      step := Next(Element(c.at, c.name, c.attrs, c.kids, closing), c.p);
    }

    /** XMLNode::ParseDeep: the children of an element or of the document, one level deeper. */
    method NodeParseDeep(p: nat, document: bool, ghost s: Bytes) returns (r: ListResult, below: nat)
      requires Valid() && errorID == Success && parsingDepth < MAX_DEPTH
      requires Tail(charBuffer, 0, s, p) && NoNul(s)
      modifies charBuffer, this`errorID, this`parsingDepth, this`unlinked, this`nextNode, this`live
      ensures Restored() && r == ParseList(s, p, cfg, parsingDepth, document)
      ensures errorID == if r.Failed? then Err(r.error) else Success
      ensures r.Ended? ==> Tail(charBuffer, 0, s, |s|) && Safe(charBuffer[..], s, AllSlices(r.kids), p, |s|)
      ensures r.Closed? ==> p <= r.at <= r.name.start <= r.name.end < r.p && Tail(charBuffer, 0, s, r.p)
      ensures r.Closed? ==> Safe(charBuffer[..], s, AllSlices(r.kids), p, r.at)
      ensures r.Closed? ==> Safe(charBuffer[..], s, [r.name], r.at, r.name.end)
      ensures r.Closed? ==> forall i :: 0 <= i < charBuffer.Length && !(p <= i < r.p) ==>
        charBuffer[i] == old(charBuffer[i])
      ensures live == old(live) + below && (!r.Failed? ==> below == CountAll(r.kids))
      decreases |s| - p, 4
    {
      hide ParseLoop, Safe, AllSlices;
      var ok := PushDepth();
      if ok {
        r, below := Children(p, document, s);
      } else {
        r, below := Failed(DepthExceeded), 0;
      }
      PopDepth();
    }

    /** Its loop. */
    method Children(p0: nat, document: bool, ghost s: Bytes) returns (r: ListResult, below: nat)
      requires Valid() && errorID == Success && parsingDepth < MAX_DEPTH
      requires Tail(charBuffer, 0, s, p0) && NoNul(s)
      modifies charBuffer, this`errorID, this`parsingDepth, this`unlinked, this`nextNode, this`live
      ensures Restored() && r == ParseLoop(s, p0, cfg, parsingDepth, document, true, [])
      ensures errorID == if r.Failed? then Err(r.error) else Success
      ensures r.Ended? ==> Tail(charBuffer, 0, s, |s|) && Safe(charBuffer[..], s, AllSlices(r.kids), p0, |s|)
      ensures r.Closed? ==> p0 <= r.at <= r.name.start <= r.name.end < r.p && Tail(charBuffer, 0, s, r.p)
      ensures r.Closed? ==> Safe(charBuffer[..], s, AllSlices(r.kids), p0, r.at)
      ensures r.Closed? ==> Safe(charBuffer[..], s, [r.name], r.at, r.name.end)
      ensures r.Closed? ==> forall i :: 0 <= i < charBuffer.Length && !(p0 <= i < r.p) ==>
        charBuffer[i] == old(charBuffer[i])
      ensures live == old(live) + below && (!r.Failed? ==> below == CountAll(r.kids))
      decreases |s| - p0, 3
    {
      hide Identify, ParseElement, ParseLeaf, Safe, AllSlices, Slices, Intact, Checked, Below, Count;
      hide CountAll, ParseLoop, Settled;
      CountMore([], Node.Comment(Slice(0, 0, LINES)));
      var p, first, list := p0, true, [];
      below := 0;
      SafeNone(charBuffer[..], s, p0, p0);
      while true
        invariant Restored() && errorID == Success
        invariant p0 <= p <= |s| && Tail(charBuffer, 0, s, p)
        invariant ParseLoop(s, p, cfg, parsingDepth, document, first, list)
               == ParseLoop(s, p0, cfg, parsingDepth, document, true, [])
        invariant Safe(charBuffer[..], s, AllSlices(list), p0, p)
        invariant live == old(live) + below && below == CountAll(list)
        invariant forall i :: 0 <= i < charBuffer.Length && !(p0 <= i < p) ==> charBuffer[i] == old(charBuffer[i])
        decreases |s| - p
      {
        ghost var b := charBuffer[..];
        var found := ScanKind(charBuffer, p, cfg, first, s);
        LoopStep(s, p, cfg, parsingDepth, document, first, list);
        if found.Nothing? {
          TailLater(charBuffer, s, p, |s|);
          SafeWiden(charBuffer[..], s, AllSlices(list), p0, p, |s|);
          r := Ended(list);
          break;
        }
        var node := CreateUnlinkedNode();
        var c := ChildParseDeep(found, p, first, s);
        var step := Settle(node, c, document, list, old(unlinked), p, s);
        if step.Stop? && step.result.Failed? {
          r := step.result;
          break;
        }
        SafeFrame(b, charBuffer[..], s, AllSlices(list), p0, p);
        if step.Stop? {
          r := step.result;
          SafeWiden(charBuffer[..], s, AllSlices(list), p0, p, r.at);
          break;
        }
        AllSlicesMore(list, step.node);
        CountMore(list, step.node);
        below := below + Count(step.node);
        SafeJoin(charBuffer[..], s, AllSlices(list), Slices(step.node), p0, p, p, step.p);
        p, first, list := step.p, false, list + [step.node];
      }
    }

    /** Every string of the tree can be read from the buffer, whose text was s. */
    ghost predicate Readable(s: Bytes)
      reads this, charBuffer
    {
      && NoNul(s) && |s| < charBuffer.Length
      && Safe(charBuffer[..], s, AllSlices(kids), 0, |s|) && Chain(AllSlices(kids), 0, |s| + 1)
    }

    /** Deletes every node, linked or not, and the buffer. */
    method Clear()
      requires Valid() && Accounted()
      modifies this
      ensures Valid() && errorID == Success && parsingDepth == 0 && unlinked == [] && kids == [] && live == 0
      ensures fresh(charBuffer) && charBuffer.Length == 0
    {
      DeleteChildren(CountAll(kids));
      while |unlinked| > 0
        invariant Valid() && kids == [] && live == |unlinked|
        decreases |unlinked|
      {
        PlaceIs(unlinked, unlinked[0], 0);
        MarkInUse(unlinked[0]);
        live := live - 1;
      }
      charBuffer := new byte[0];
      errorID, parsingDepth := Success, 0;
    }

    /** What hangs below the document, so many nodes. */
    method DeleteChildren(below: nat)
      requires live >= below
      modifies this`kids, this`live
      ensures kids == [] && live == old(live) - below
    {
      kids, live := [], live - below;
    }

    /** XMLDocument::Parse() on the buffer; also after an error, `below` nodes hang below the document. */
    method ParseBuffer(ghost s: Bytes) returns (below: nat)
      requires Valid() && errorID == Success && parsingDepth == 0 && s != []
      requires Tail(charBuffer, 0, s, 0) && NoNul(s)
      modifies charBuffer, this`errorID, this`parsingDepth, this`unlinked, this`nextNode, this`live, this`kids
      ensures Restored()
      ensures ParseDocument(s, cfg) == match errorID case Err(e) => Rejected(e) case Success => Accepted(kids)
      ensures errorID == Success ==> Safe(charBuffer[..], s, AllSlices(kids), 0, |s|)
      ensures kids == old(kids) || errorID == Success
      ensures live == old(live) + below && (errorID == Success ==> below == CountAll(kids))
    {
      hide ParseList, Safe, AllSlices, SkipSpace;
      var p := SkipBlanks(charBuffer, 0, 0, s, 0);
      TailLater(charBuffer, s, 0, p);
      var bom := StartsWith(charBuffer, p, BOM, 0, s, p);
      if bom {
        p := p + 3;
      }
      TailAt(charBuffer, 0, s, 0, p);
      TailLater(charBuffer, s, 0, p);
      if charBuffer[p] == 0 {
        errorID, below := Err(EmptyDocument), 0;
      } else {
        var r;
        r, below := NodeParseDeep(p, true, s);
        match r
        case Failed(_) =>
        case Ended(list) =>
          kids := list;
          SafeLower(charBuffer[..], s, AllSlices(list), p, 0, |s|);
        case Closed(list, at, _, _) =>
          kids := list;
          SafeLower(charBuffer[..], s, AllSlices(list), p, 0, at);
          SafeWiden(charBuffer[..], s, AllSlices(list), 0, at, |s|);
      }
    }

    /** XMLDocument::Parse( xml, nBytes ): what lies before the first NUL counts. */
    method Parse(xml: Bytes) returns (status: Status)
      requires Valid() && Accounted()
      modifies this
      ensures Valid() && Accounted() && status == errorID && parsingDepth == 0 && unlinked == []
      ensures ParseDocument(CStr(xml), cfg) == match status case Err(e) => Rejected(e) case Success => Accepted(kids)
      ensures status != Success ==> kids == []
      ensures status == Success ==> fresh(charBuffer) && Readable(CStr(xml))
    {
      hide Safe, AllSlices, Chain, ParseDocument, WellFormed;
      Clear();
      ghost var s := CStr(xml);
      if xml == [] || xml[0] == 0 {
        errorID := Err(EmptyDocument);
        NoText(cfg);
        return errorID;
      }
      charBuffer := new byte[|xml| + 1];
      forall i | 0 <= i < |xml| {
        charBuffer[i] := xml[i];
      }
      charBuffer[|xml|] := 0;
      var below := ParseBuffer(s);
      if errorID != Success {
        DeleteChildren(below);
      }
      status := errorID;
      AcceptedIsWellFormed(s, cfg);
    }
  }

  // ---------------------------------------------------------------- reading the strings

  /** The strings of an accepted document, as pairs that have not been read yet. */
  method Strings(buf: array<byte>, xs: seq<Slice>, ghost s: Bytes) returns (pairs: seq<StrPair>)
    requires NoNul(s) && |s| < buf.Length && Safe(buf[..], s, xs, 0, |s|) && Chain(xs, 0, |s| + 1)
    ensures Apart(pairs, buf) && fresh(pairs) && |pairs| == |xs|
    ensures forall k :: 0 <= k < |xs| ==> InText(s, xs[k])
    ensures forall k :: 0 <= k < |xs| ==> pairs[k].text == Value(Raw(s, xs[k]), xs[k].mode)
  {
    hide Value, Apart, Safe, Chain;
    pairs := [];
    NonePairs(buf);
    SafeIn(buf[..], s, xs);
    for k := 0 to |xs|
      invariant Apart(pairs, buf) && fresh(pairs) && |pairs| == k
      invariant forall j :: 0 <= j < k ==> pairs[j].end == xs[j].end
      invariant forall j :: 0 <= j < k ==> pairs[j].text == Value(Raw(s, xs[j]), xs[j].mode)
    {
      SliceFacts(buf, xs, s, k);
      var pair := new StrPair.Set(buf, xs[k].start, xs[k].end, xs[k].mode);
      ApartMore(pairs, pair, buf);
      pairs := pairs + [pair];
    }
  }

  lemma SafeIn(b: Bytes, s: Bytes, xs: seq<Slice>)
    requires Safe(b, s, xs, 0, |s|)
    ensures forall k :: 0 <= k < |xs| ==> InText(s, xs[k])
  {
  }

  lemma NonePairs(buf: array<byte>)
    ensures Apart([], buf)
  {
  }

  lemma ApartMore(pairs: seq<StrPair>, pair: StrPair, buf: array<byte>)
    requires Apart(pairs, buf) && pair.buf == buf && pair.Valid()
    requires forall j :: 0 <= j < |pairs| ==> pairs[j].end < pair.first
    ensures Apart(pairs + [pair], buf)
  {
    hide StrPair.Valid;
  }

  lemma SliceFacts(buf: array<byte>, xs: seq<Slice>, s: Bytes, k: nat)
    requires NoNul(s) && |s| < buf.Length && Safe(buf[..], s, xs, 0, |s|) && Chain(xs, 0, |s| + 1) && k < |xs|
    ensures InText(s, xs[k]) && xs[k].end < buf.Length && NoNul(buf[xs[k].start..xs[k].end])
    ensures buf[xs[k].start..xs[k].end] == Raw(s, xs[k])
    ensures forall j :: 0 <= j < k ==> xs[j].end < xs[k].start
  {
    assert forall i :: xs[k].start <= i < xs[k].end ==> buf[i] == buf[..][i] == s[i];
  }

  /**
   After a successful parse the strings may be read in any order, with repeats: each reading yields
   the value of its own slice of the original text, whatever was read before.
   */
  method ReadStrings(doc: XMLDocument, order: seq<nat>, ghost s: Bytes) returns (at: seq<nat>)
    requires doc.Readable(s) && forall k :: 0 <= k < |order| ==> order[k] < |AllSlices(doc.kids)|
    modifies doc.charBuffer
    ensures |at| == |order|
    ensures var xs := AllSlices(doc.kids); forall k :: 0 <= k < |order| ==>
      && InText(s, xs[order[k]])
      && Holds(doc.charBuffer, at[k], Value(Raw(s, xs[order[k]]), xs[order[k]].mode), 0)
  {
    hide Value, AllSlices;
    var pairs := Strings(doc.charBuffer, AllSlices(doc.kids), s);
    at := ReadInOrder(pairs, doc.charBuffer, order);
  }

  /** The attributes of a tag start after the byte that ends its name. */
  lemma TagSafe(b: Bytes, s: Bytes, name: Slice, attrs: seq<Attr>, p: nat, cfg: Config)
    requires name.end <= |s| && (name.end < |s| ==> !IsNameStart(s[name.end]))
    requires ParseAttrs(s, name.end, cfg, []).Tag? && ParseAttrs(s, name.end, cfg, []).attrs == attrs
    requires ParseAttrs(s, name.end, cfg, []).p == p
    requires Safe(b, s, AttrSlices(attrs), name.end, p)
    ensures Safe(b, s, AttrSlices(attrs), name.end + 1, p)
  {
    hide ParseAttrs, Safe, AttrSlices, Chain;
    EmptyAttrs(s, name.end + 1, name.end);
    AttrsChain(s, name.end, cfg, [], name.end + 1);
    SafeTighten(b, s, AttrSlices(attrs), name.end, p, name.end + 1, p);
  }

  lemma NoText(cfg: Config)
    ensures ParseDocument([], cfg) == Rejected(EmptyDocument)
  {
  }

  lemma SafeContent(b: Bytes, s: Bytes, x: Slice, lo: nat, hi: nat)
    requires Safe(b, s, [x], lo, hi)
    ensures |s| <= |b| && hi <= |s| && lo <= x.start <= x.end <= hi
    ensures forall i :: x.start <= i < x.end ==> b[i] == s[i]
  {
    assert [x][0] == x;
  }

  lemma NullIs(s: Bytes, error: Error, below: nat)
    ensures Checked(s, Null(error, below)) == NodeError(error) && Below(Null(error, below)) == below
  {
  }

  lemma LeafIntact(b: Bytes, s: Bytes, leaf: Node, lo: nat, p: nat)
    requires !leaf.Element? && Safe(b, s, Slices(leaf), lo, p)
    ensures Intact(b, s, Leaf(leaf, p), lo)
  {
  }

  lemma IntactLower(b: Bytes, s: Bytes, c: Child, lo: nat, lo': nat)
    requires !c.Null? ==> c.Started? && Intact(b, s, c, lo) && lo' <= lo
    ensures !c.Null? ==> Intact(b, s, c, lo')
  {
  }

  lemma LeafEnd(s: Bytes, q: nat, kind: Kind, cfg: Config)
    requires q <= |s| && kind != AnElement && (kind == SomeText ==> q < |s| && s[q] != LT)
    ensures var r := ParseLeaf(s, q, kind, cfg); r.Parsed? ==> q <= r.p && (kind == SomeText ==> q < r.p)
  {
  }

  lemma SafeLower(b: Bytes, s: Bytes, xs: seq<Slice>, lo: nat, lo': nat, hi: nat)
    requires Safe(b, s, xs, lo, hi) && lo' <= lo
    ensures Safe(b, s, xs, lo', hi)
  {
  }

  lemma TailLater(buf: array<byte>, s: Bytes, p: nat, q: nat)
    requires Tail(buf, 0, s, p) && p <= q <= |s|
    ensures Tail(buf, 0, s, q)
  {
  }
}
