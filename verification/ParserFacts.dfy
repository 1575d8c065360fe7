/** What an accepted document guarantees: well-formed elements and strings that own disjoint bytes. */
module ParserFacts {
  import opened XmlBytes
  import opened Decode
  import opened XmlParser

  // ---------------------------------------------------------------- well-formedness

  /** A maximal name. */
  ghost predicate NameAt(s: Bytes, x: Slice) {
    && InText(s, x) && x.start < x.end && x.mode == NAME_MODE
    && IsNameStart(s[x.start]) && NameEnd(s, x.start) == x.end
  }

  /** Unique Att Spec, section 3.1 of XML 1.0. */
  ghost predicate DistinctNames(s: Bytes, attrs: seq<Attr>) {
    && (forall i :: 0 <= i < |attrs| ==> NameAt(s, attrs[i].name) && InText(s, attrs[i].value))
    && forall i, j :: 0 <= i < j < |attrs| ==> Raw(s, attrs[i].name) != Raw(s, attrs[j].name)
  }

  /** A "<", spaces, a "/" and the name: a closing tag at `at`. */
  ghost predicate ClosingTag(s: Bytes, at: nat, name: Slice) {
    && at < |s| && s[at] == LT && SkipSpace(s, at + 1) < |s| && s[SkipSpace(s, at + 1)] == SLASH
    && name.start == SkipSpace(s, at + 1) + 1 && NameAt(s, name)
  }

  /** The text between two markers, where the closing one occurs first. */
  ghost predicate Quoted(s: Bytes, x: Slice, open: Bytes, close: Bytes) {
    && |open| <= x.start && InText(s, x) && StartsAt(s, x.start - |open|, open) && StartsAt(s, x.end, close)
    && forall i :: x.start <= i < x.end ==> !StartsAt(s, i, close)
  }

  predicate OtherMark(s: Bytes, p: nat) { !StartsAt(s, p, COMMENT_OPEN) && !StartsAt(s, p, CDATA_OPEN) }

  predicate PlainText(n: Node) { n.Text? && !n.cdata }

  /** Text nodes are never adjacent. */
  ghost predicate Separated(ns: seq<Node>) {
    forall i :: 0 <= i < |ns| - 1 ==> PlainText(ns[i]) ==> !PlainText(ns[i + 1])
  }

  ghost predicate WellFormed(s: Bytes, n: Node) {
    match n
    case Element(at, name, attrs, kids, closing) =>
      && at < name.start && at < |s| && s[at] == LT && NameAt(s, name)
      && DistinctNames(s, attrs)
      && (forall k :: k in kids ==> WellFormed(s, k)) && Separated(kids)
      && (match closing
          case SelfClosed(end) => kids == [] && name.end + 2 <= end <= |s| && StartsAt(s, end - 2, [SLASH, GT])
          case ClosedBy(close, endName) => // Element Type Match, section 3 of XML 1.0
            name.end < close && ClosingTag(s, close, endName) && Raw(s, endName) == Raw(s, name))
    case Text(x, cdata) =>
      if cdata then x.mode == LINES && Quoted(s, x, CDATA_OPEN, CDATA_CLOSE)
      else x.start < x.end && Quoted(s, x, [], [LT])
    case Comment(x) => x.mode == LINES && Quoted(s, x, COMMENT_OPEN, COMMENT_CLOSE)
    case Declaration(x) => x.mode == LINES && Quoted(s, x, DECLARATION_OPEN, DECLARATION_CLOSE)
    case Unknown(x) => x.mode == LINES && Quoted(s, x, UNKNOWN_OPEN, [GT]) && OtherMark(s, x.start - 2)
  }

  // ---------------------------------------------------------------- disjoint strings

  function AttrSlices(attrs: seq<Attr>): seq<Slice> {
    if attrs == [] then []
    else AttrSlices(attrs[..|attrs| - 1]) + [attrs[|attrs| - 1].name, attrs[|attrs| - 1].value]
  }

  /** The strings that stay alive after parsing, in document order. */
  function Slices(n: Node): seq<Slice> {
    match n
    case Element(_, name, attrs, kids, _) => [name] + AttrSlices(attrs) + AllSlices(kids)
    case Text(x, _) => [x]
    case Comment(x) => [x]
    case Declaration(x) => [x]
    case Unknown(x) => [x]
  }

  function AllSlices(ns: seq<Node>): seq<Slice> {
    if ns == [] then [] else AllSlices(ns[..|ns| - 1]) + Slices(ns[|ns| - 1])
  }

  /** The closed ranges [start, end] lie in [lo, hi) and follow one another without touching. */
  ghost predicate Chain(xs: seq<Slice>, lo: nat, hi: nat) {
    && (forall i :: 0 <= i < |xs| ==> lo <= xs[i].start <= xs[i].end < hi)
    && forall i, j :: 0 <= i < j < |xs| ==> xs[i].end < xs[j].start
  }

  lemma ChainJoin(a: seq<Slice>, lo: nat, mid: nat, b: seq<Slice>, hi: nat)
    requires Chain(a, lo, mid) && Chain(b, mid, hi) && lo <= mid <= hi
    ensures Chain(a + b, lo, hi)
  {
  }

  /** The first byte after p that no string before p owns. */
  ghost function Border(s: Bytes, p: nat): nat {
    if p < |s| && s[p] == LT then p + 1 else p
  }

  // ---------------------------------------------------------------- proofs along the parser

  lemma DistinctMore(s: Bytes, attrs: seq<Attr>, a: Attr)
    requires DistinctNames(s, attrs) && NameAt(s, a.name) && InText(s, a.value)
    requires !HasAttr(s, attrs, Raw(s, a.name))
    ensures DistinctNames(s, attrs + [a])
  {
  }

  lemma {:induction false} AttrsAreDistinct(s: Bytes, p: nat, cfg: Config, attrs: seq<Attr>)
    requires p <= |s| && DistinctNames(s, attrs)
    ensures var r := ParseAttrs(s, p, cfg, attrs);
      r.Tag? ==> DistinctNames(s, r.attrs) && (r.sealed ==> p + 2 <= r.p && StartsAt(s, r.p - 2, [SLASH, GT]))
    decreases |s| - p
  {
    hide SkipSpace, ParseAttr, HasAttr, DistinctNames, StartsAt;
    assert AttrsIn(s, attrs) by { DistinctAreIn(s, attrs); }
    var q := SkipSpace(s, p);
    if q < |s| && IsNameStart(s[q]) {
      var next := ParseAttr(s, q, cfg);
      if next.GotAttr? && !HasAttr(s, attrs, Raw(s, next.attr.name)) {
        AttrIsName(s, q, cfg);
        DistinctMore(s, attrs, next.attr);
        AttrsAreDistinct(s, next.p, cfg, attrs + [next.attr]);
      }
    } else if q + 1 < |s| && s[q] == SLASH && s[q + 1] == GT {
      SealAt(s, q);
    }
  }

  lemma DistinctAreIn(s: Bytes, attrs: seq<Attr>)
    requires DistinctNames(s, attrs)
    ensures AttrsIn(s, attrs)
  {
  }

  lemma AttrIsName(s: Bytes, q: nat, cfg: Config)
    requires q < |s| && IsNameStart(s[q])
    ensures var a := ParseAttr(s, q, cfg); a.GotAttr? ==> NameAt(s, a.attr.name) && InText(s, a.attr.value)
  {
  }

  lemma SealAt(s: Bytes, q: nat)
    requires q + 1 < |s| && s[q] == SLASH && s[q + 1] == GT
    ensures StartsAt(s, q, [SLASH, GT])
  {
    assert s[q..q + 2] == [SLASH, GT];
  }

  lemma AttrSlicesMore(attrs: seq<Attr>, a: Attr)
    ensures AttrSlices(attrs + [a]) == AttrSlices(attrs) + [a.name, a.value]
  {
    assert (attrs + [a])[..|attrs|] == attrs;
  }

  lemma {:induction false} AttrsChain(s: Bytes, p: nat, cfg: Config, attrs: seq<Attr>, lo: nat)
    requires p <= |s| && AttrsIn(s, attrs) && Chain(AttrSlices(attrs), lo, p)
    requires lo <= p || (lo == p + 1 && p < |s| && !IsNameStart(s[p])) || p == |s|
    ensures var r := ParseAttrs(s, p, cfg, attrs); r.Tag? ==> Chain(AttrSlices(r.attrs), lo, r.p)
    decreases |s| - p
  {
    hide AttrSlices, HasAttr;
    var q := SkipSpace(s, p);
    if q < |s| && IsNameStart(s[q]) {
      assert lo <= q;
      var next := ParseAttr(s, q, cfg);
      if next.GotAttr? && !HasAttr(s, attrs, Raw(s, next.attr.name)) {
        AttrSlicesMore(attrs, next.attr);
        ChainJoin(AttrSlices(attrs), lo, q, [next.attr.name, next.attr.value], next.p);
        AttrsChain(s, next.p, cfg, attrs + [next.attr], lo);
      }
    }
  }

  ghost predicate AllWellFormed(s: Bytes, ns: seq<Node>) {
    forall n :: n in ns ==> WellFormed(s, n)
  }

  lemma FoundQuoted(s: Bytes, open: Bytes, q: nat, close: Bytes, mode: Mode)
    requires |open| <= q <= |s| && StartsAt(s, q - |open|, open) && close != []
    ensures Find(s, q, close) < |s| ==> Quoted(s, Slice(q, Find(s, q, close), mode), open, close)
  {
  }

  lemma FoundText(s: Bytes, q: nat, cfg: Config)
    requires q < |s| && s[q] != LT
    ensures var r := ParseLeaf(s, q, SomeText, cfg); r.Parsed? ==>
      && q < r.p < |s| && r.node == Text(Slice(q, r.p, TextMode(cfg)), false)
      && s[r.p] == LT && WellFormed(s, r.node)
  {
    hide Find, Quoted, StartsAt;
    var e := Find(s, q, [LT]);
    MarkBytes(s, q, e);
    if e < |s| {
      FoundQuoted(s, [], q, [LT], TextMode(cfg));
      if e == q {
        assert false;
      }
    }
  }

  lemma MarkBytes(s: Bytes, p: nat, q: nat)
    ensures p <= |s| ==> StartsAt(s, p, [])
    ensures StartsAt(s, q, [LT]) ==> q < |s| && s[q] == LT
  {
    if StartsAt(s, q, [LT]) {
      assert s[q] == s[q..q + 1][0];
    }
  }

  function OpenMark(kind: Kind): Bytes {
    match kind
    case CData => CDATA_OPEN
    case AComment => COMMENT_OPEN
    case ADeclaration => DECLARATION_OPEN
    case AnUnknown => UNKNOWN_OPEN
    case _ => []
  }

  lemma FoundMark(s: Bytes, p: nat, cfg: Config, first: bool)
    requires p <= |s|
    ensures var found := Identify(s, p, cfg, first);
      found.Found? && found.kind != AnElement && found.kind != SomeText ==>
        && |OpenMark(found.kind)| <= found.at && Border(s, p) < found.at
        && StartsAt(s, found.at - |OpenMark(found.kind)|, OpenMark(found.kind))
        && (found.kind == AnUnknown ==> OtherMark(s, found.at - 2))
  {
    hide SkipSpace, StartsAt;
  }

  /** Leaf nodes other than text: where they start and end. */
  lemma MarkedLeaf(s: Bytes, q: nat, kind: Kind, cfg: Config)
    requires kind != AnElement && kind != SomeText
    requires |OpenMark(kind)| <= q <= |s| && StartsAt(s, q - |OpenMark(kind)|, OpenMark(kind))
    requires kind == AnUnknown ==> OtherMark(s, q - 2)
    ensures var r := ParseLeaf(s, q, kind, cfg);
      r.Parsed? ==> WellFormed(s, r.node) && Chain(Slices(r.node), q, r.p) && !PlainText(r.node)
  {
    hide Find, Quoted, StartsAt;
    match kind
    case CData => FoundQuoted(s, CDATA_OPEN, q, CDATA_CLOSE, LINES);
    case AComment => FoundQuoted(s, COMMENT_OPEN, q, COMMENT_CLOSE, LINES);
    case ADeclaration => FoundQuoted(s, DECLARATION_OPEN, q, DECLARATION_CLOSE, LINES);
    case AnUnknown => FoundQuoted(s, UNKNOWN_OPEN, q, [GT], LINES);
  }

  lemma LeafFacts(s: Bytes, p: nat, cfg: Config, first: bool)
    requires p <= |s|
    ensures var found := Identify(s, p, cfg, first);
      found.Found? && found.kind != AnElement ==>
        var r := ParseLeaf(s, found.at, found.kind, cfg);
        r.Parsed? ==> WellFormed(s, r.node) && Chain(Slices(r.node), Border(s, p), Border(s, r.p))
    ensures var found := Identify(s, p, cfg, first);
      found.Found? && found.kind != AnElement ==>
        var r := ParseLeaf(s, found.at, found.kind, cfg);
        r.Parsed? && PlainText(r.node) ==> found.kind == SomeText && r.p < |s| && s[r.p] == LT
  {
    hide Find, Quoted, WellFormed, ParseLeaf, OpenMark, StartsAt, OtherMark;
    var found := Identify(s, p, cfg, first);
    FoundMark(s, p, cfg, first);
    if found.Found? && found.kind == SomeText {
      FoundText(s, found.at, cfg);
    } else if found.Found? && found.kind != AnElement {
      MarkedLeaf(s, found.at, found.kind, cfg);
    }
  }

  lemma NameIsNonempty(s: Bytes, n: nat)
    requires n < |s| && IsNameStart(s[n])
    ensures n < NameEnd(s, n)
    ensures NameEnd(s, n) < |s| ==> !IsNameStart(s[NameEnd(s, n)])
    ensures AttrSlices([]) == [] && AllSlices([]) == []
  {
  }

  /** An element owns its name, its attributes and what its children own, in this order. */
  lemma ElementChain(q: nat, name: Slice, attrs: seq<Attr>, p: nat, kids: seq<Node>, hi: nat, n: Node)
    requires n.Element? && n.name == name && n.attrs == attrs && n.kids == kids
    requires q <= name.start <= name.end < p <= hi
    requires Chain(AttrSlices(attrs), name.end + 1, p) && Chain(AllSlices(kids), p, hi)
    ensures Chain(Slices(n), q, hi)
  {
    hide AttrSlices, AllSlices;
    ChainJoin([name], q, name.end + 1, AttrSlices(attrs), p);
    ChainJoin([name] + AttrSlices(attrs), q, p, AllSlices(kids), hi);
  }

  lemma {:induction false} ElementFacts(s: Bytes, q: nat, cfg: Config, depth: nat)
    requires 0 < q <= |s| && s[q - 1] == LT && depth < MAX_DEPTH
    ensures var r := ParseElement(s, q, cfg, depth);
      && (r.Parsed? ==> WellFormed(s, r.node) && Chain(Slices(r.node), q, r.p))
      && (r.CloseTag? ==> r.at == q - 1 && ClosingTag(s, r.at, r.name))
    decreases |s| - q, 0
  {
    hide SkipSpace, NameEnd, ParseAttrs, ParseList, AllSlices, AttrSlices;
    hide DistinctNames, Chain, Raw, StartsAt, ClosingTag;
    var t := SkipSpace(s, q);
    var closing := t < |s| && s[t] == SLASH;
    var n := if closing then t + 1 else t;
    if n < |s| && IsNameStart(s[n]) {
      var name := Slice(n, NameEnd(s, n), NAME_MODE);
      NameIsNonempty(s, n);
      EmptyAttrs(s, name.end + 1, name.end);
      AttrsAreDistinct(s, name.end, cfg, []);
      AttrsChain(s, name.end, cfg, [], name.end + 1);
      var tag := ParseAttrs(s, name.end, cfg, []);
      if tag.Tag? {
        var r := ParseElement(s, q, cfg, depth);
        if r.CloseTag? {
          IsClosingTag(s, q - 1, name);
        } else if tag.sealed {
          EmptyAttrs(s, tag.p, tag.p);
          ElementChain(q, name, tag.attrs, tag.p, [], tag.p, r.node);
        } else if tag.p < |s| {
          ListFacts(s, tag.p, cfg, depth, false);
          var inner := ParseList(s, tag.p, cfg, depth, false);
          if r.Parsed? {
            ChainWiden(AllSlices(inner.kids), Border(s, tag.p), inner.at + 1, tag.p, r.p);
            ElementChain(q, name, tag.attrs, tag.p, inner.kids, r.p, r.node);
          }
        }
      }
    }
  }

  lemma EmptyAttrs(s: Bytes, lo: nat, hi: nat)
    ensures DistinctNames(s, []) && Chain(AttrSlices([]), lo, hi) && Chain(AllSlices([]), lo, hi)
  {
  }

  lemma IsClosingTag(s: Bytes, at: nat, name: Slice)
    requires at < |s| && s[at] == LT && SkipSpace(s, at + 1) < |s| && s[SkipSpace(s, at + 1)] == SLASH
    requires name.start == SkipSpace(s, at + 1) + 1 < |s|
    requires IsNameStart(s[name.start]) && name == Slice(name.start, NameEnd(s, name.start), NAME_MODE)
    ensures ClosingTag(s, at, name)
  {
  }

  lemma ChainWiden(xs: seq<Slice>, lo: nat, hi: nat, lo': nat, hi': nat)
    requires Chain(xs, lo, hi) && lo' <= lo && hi <= hi'
    ensures Chain(xs, lo', hi')
  {
  }

  lemma {:induction false} ListFacts(s: Bytes, p: nat, cfg: Config, depth: nat, document: bool)
    requires p <= |s| && depth < MAX_DEPTH
    ensures ListOk(s, ParseList(s, p, cfg, depth, document), Border(s, p), p)
    decreases |s| - p, 3
  {
    hide ParseLoop, Chain, WellFormed, AllSlices, ClosingTag, Border;
    EmptyAttrs(s, Border(s, p), Border(s, p));
    if depth + 1 != MAX_DEPTH {
      LoopFacts(s, p, cfg, depth + 1, document, true, [], Border(s, p));
    }
  }

  /** What a list result promises: well-formed children that own bytes from lo on. */
  ghost predicate ListOk(s: Bytes, r: ListResult, lo: nat, p: nat) {
    match r
    case Failed(_) => true
    case Ended(kids) => AllWellFormed(s, kids) && Separated(kids) && Chain(AllSlices(kids), lo, |s| + 1)
    case Closed(kids, at, name, next) =>
      && p <= at < next && ClosingTag(s, at, name)
      && AllWellFormed(s, kids) && Separated(kids) && Chain(AllSlices(kids), lo, at + 1)
  }

  /** Behind a text node the cursor stands on the next tag. */
  ghost predicate TextThenTag(s: Bytes, p: nat, kids: seq<Node>) {
    kids != [] && PlainText(kids[|kids| - 1]) ==> p < |s| && s[p] == LT
  }

  lemma SeparatedMore(kids: seq<Node>, n: Node)
    requires Separated(kids) && (kids != [] && PlainText(kids[|kids| - 1]) ==> !PlainText(n))
    ensures Separated(kids + [n])
  {
  }

  /** Before each round of the loop: the children so far are well formed and own bytes up to the cursor. */
  ghost predicate ListSoFar(s: Bytes, p: nat, kids: seq<Node>, lo: nat) {
    && lo <= Border(s, p) && AllWellFormed(s, kids) && Chain(AllSlices(kids), lo, Border(s, p))
    && Separated(kids) && TextThenTag(s, p, kids)
  }

  lemma ListMore(s: Bytes, p: nat, kids: seq<Node>, lo: nat, n: Node, next: nat)
    requires ListSoFar(s, p, kids, lo) && WellFormed(s, n) && Border(s, p) <= Border(s, next)
    requires Chain(Slices(n), Border(s, p), Border(s, next))
    requires PlainText(n) ==> !(p < |s| && s[p] == LT) && next < |s| && s[next] == LT
    ensures ListSoFar(s, next, kids + [n], lo)
  {
    hide AllSlices, Slices, WellFormed, Chain, Separated, Border;
    var more := kids + [n];
    assert more[..|kids|] == kids;
    AllSlicesMore(kids, n);
    ChainJoin(AllSlices(kids), lo, Border(s, p), Slices(n), Border(s, next));
    SeparatedMore(kids, n);
  }

  lemma ListCloses(s: Bytes, p: nat, kids: seq<Node>, lo: nat, at: nat, name: Slice, next: nat)
    requires ListSoFar(s, p, kids, lo) && Border(s, p) <= at + 1 && p <= at < next && ClosingTag(s, at, name)
    ensures ListOk(s, Closed(kids, at, name, next), lo, p)
  {
    hide AllSlices, WellFormed, Chain, ClosingTag, Separated, Border;
    ChainWiden(AllSlices(kids), lo, Border(s, p), lo, at + 1);
  }

  lemma ListEnds(s: Bytes, p: nat, kids: seq<Node>, lo: nat)
    requires ListSoFar(s, p, kids, lo) && p <= |s|
    ensures ListOk(s, Ended(kids), lo, p)
  {
    hide AllSlices, WellFormed, Chain, Separated;
    ChainWiden(AllSlices(kids), lo, Border(s, p), lo, |s| + 1);
  }

  lemma ListOkEarlier(s: Bytes, r: ListResult, lo: nat, p: nat, next: nat)
    requires ListOk(s, r, lo, next) && p <= next
    ensures ListOk(s, r, lo, p)
  {
  }

  lemma {:induction false} RoundFacts(
      s: Bytes, p: nat, cfg: Config, depth: nat, first: bool, kids: seq<Node>, lo: nat, found: Found, r: NodeResult)
    requires p <= |s| && depth < MAX_DEPTH && ListSoFar(s, p, kids, lo)
    requires found == Identify(s, p, cfg, first) && found.Found?
    requires r == if found.kind == AnElement then ParseElement(s, found.at, cfg, depth)
                  else ParseLeaf(s, found.at, found.kind, cfg)
    ensures r.Parsed? ==> ListSoFar(s, r.p, kids + [r.node], lo)
    ensures r.CloseTag? ==> ListOk(s, Closed(kids, r.at, r.name, r.p), lo, p)
    decreases |s| - p, 1
  {
    hide Identify, ParseLeaf, ParseElement, Slices, WellFormed, Chain, ClosingTag, ListSoFar, ListOk;
    FoundElement(s, p, cfg, first);
    if found.kind == AnElement {
      ElementFacts(s, found.at, cfg, depth);
      if r.Parsed? {
        ChainWiden(Slices(r.node), found.at, r.p, Border(s, p), Border(s, r.p));
        ListMore(s, p, kids, lo, r.node, r.p);
      } else if r.CloseTag? {
        ListCloses(s, p, kids, lo, r.at, r.name, r.p);
      }
    } else {
      LeafFacts(s, p, cfg, first);
      if r.Parsed? {
        ListMore(s, p, kids, lo, r.node, r.p);
      }
    }
  }

  lemma {:induction false} LoopFacts(
      s: Bytes, p: nat, cfg: Config, depth: nat, document: bool, first: bool, kids: seq<Node>, lo: nat)
    requires p <= |s| && depth < MAX_DEPTH && ListSoFar(s, p, kids, lo)
    ensures ListOk(s, ParseLoop(s, p, cfg, depth, document, first, kids), lo, p)
    decreases |s| - p, 2
  {
    hide Identify, ParseLeaf, ParseElement, ListSoFar, ListOk;
    var found := Identify(s, p, cfg, first);
    if found.Nothing? {
      ListEnds(s, p, kids, lo);
    } else {
      var r := if found.kind == AnElement then ParseElement(s, found.at, cfg, depth)
               else ParseLeaf(s, found.at, found.kind, cfg);
      RoundFacts(s, p, cfg, depth, first, kids, lo, found, r);
      if r.Parsed? {
        LoopFacts(s, r.p, cfg, depth, document, false, kids + [r.node], lo);
        var rest := ParseLoop(s, r.p, cfg, depth, document, false, kids + [r.node]);
        ListOkEarlier(s, rest, lo, p, r.p);
      }
      FailedIsOk(s, lo, p);
    }
  }

  lemma FailedIsOk(s: Bytes, lo: nat, p: nat)
    ensures forall error :: ListOk(s, Failed(error), lo, p)
  {
  }

  lemma AllSlicesMore(ns: seq<Node>, n: Node)
    ensures AllSlices(ns + [n]) == AllSlices(ns) + Slices(n)
  {
    assert (ns + [n])[..|ns|] == ns;
  }

  lemma FoundElement(s: Bytes, p: nat, cfg: Config, first: bool)
    requires p <= |s|
    ensures var found := Identify(s, p, cfg, first);
      found.Found? && found.kind == AnElement ==> Border(s, p) <= found.at && s[found.at - 1] == LT
    ensures Border(s, p) <= |s| + 1
  {
  }

  // ---------------------------------------------------------------- where declarations stand

  /** The children of an element are those of the list behind its tag. */
  lemma NamedKids(s: Bytes, q: nat, closing: bool, name: Slice, cfg: Config, depth: nat)
    requires 0 < q <= name.start && InText(s, name) && depth < MAX_DEPTH
    ensures var r, tag := ParseNamed(s, q, closing, name, cfg, depth), ParseAttrs(s, name.end, cfg, []);
      r.Parsed? ==> tag.Tag? && r.node.Element?
    ensures var r, tag := ParseNamed(s, q, closing, name, cfg, depth), ParseAttrs(s, name.end, cfg, []);
      r.Parsed? && r.node.kids != [] ==>
        tag.p < |s| && ParseList(s, tag.p, cfg, depth, false).Closed? &&
        r.node.kids == ParseList(s, tag.p, cfg, depth, false).kids
  {
    hide ParseAttrs, ParseList;
  }

  /** No element has a declaration among its children. */
  ghost predicate NoneInside(n: Node) {
    n.Element? ==> forall k :: k in n.kids ==> !k.Declaration? && NoneInside(k)
  }

  ghost predicate AllNoneInside(ns: seq<Node>) {
    forall n :: n in ns ==> NoneInside(n)
  }

  /** Declarations come first, and in the document only. */
  ghost predicate DeclsLead(ns: seq<Node>, document: bool) {
    && (forall i, j :: 0 <= j < i < |ns| && ns[i].Declaration? ==> ns[j].Declaration?)
    && (!document ==> forall n :: n in ns ==> !n.Declaration?)
  }

  lemma DeclsMore(ns: seq<Node>, n: Node, document: bool)
    requires DeclsLead(ns, document) && AllNoneInside(ns) && NoneInside(n)
    requires n.Declaration? ==> document && OnlyDeclarations(ns)
    ensures DeclsLead(ns + [n], document) && AllNoneInside(ns + [n])
  {
    hide NoneInside;
  }

  lemma {:induction false} ElementDecls(s: Bytes, q: nat, cfg: Config, depth: nat)
    requires 0 < q <= |s| && depth < MAX_DEPTH
    ensures var r := ParseElement(s, q, cfg, depth); r.Parsed? ==> NoneInside(r.node)
    decreases |s| - q, 0
  {
    hide SkipSpace, NameEnd, ParseAttrs, ParseNamed, ParseList;
    var t := SkipSpace(s, q);
    var closing := t < |s| && s[t] == SLASH;
    var n := if closing then t + 1 else t;
    if n < |s| && IsNameStart(s[n]) {
      var name := Slice(n, NameEnd(s, n), NAME_MODE);
      NamedKids(s, q, closing, name, cfg, depth);
      var r := ParseNamed(s, q, closing, name, cfg, depth);
      if r.Parsed? && r.node.kids != [] {
        ListDecls(s, ParseAttrs(s, name.end, cfg, []).p, cfg, depth, false);
      }
    }
  }

  lemma {:induction false} ListDecls(s: Bytes, p: nat, cfg: Config, depth: nat, document: bool)
    requires p <= |s| && depth < MAX_DEPTH
    ensures var r := ParseList(s, p, cfg, depth, document);
      !r.Failed? ==> DeclsLead(r.kids, document) && AllNoneInside(r.kids)
    decreases |s| - p, 2
  {
    hide ParseLoop;
    if depth + 1 != MAX_DEPTH {
      LoopDecls(s, p, cfg, depth + 1, document, true, []);
    }
  }

  lemma {:induction false} LoopDecls(
      s: Bytes, p: nat, cfg: Config, depth: nat, document: bool, first: bool, kids: seq<Node>)
    requires p <= |s| && depth < MAX_DEPTH && DeclsLead(kids, document) && AllNoneInside(kids)
    ensures var r := ParseLoop(s, p, cfg, depth, document, first, kids);
      !r.Failed? ==> DeclsLead(r.kids, document) && AllNoneInside(r.kids)
    decreases |s| - p, 1
  {
    hide Identify, ParseLeaf, ParseElement, DeclsLead, AllNoneInside, OnlyDeclarations;
    var found := Identify(s, p, cfg, first);
    if found.Found? {
      var r := if found.kind == AnElement then ParseElement(s, found.at, cfg, depth)
               else ParseLeaf(s, found.at, found.kind, cfg);
      if found.kind == AnElement {
        ElementDecls(s, found.at, cfg, depth);
      }
      if r.Parsed? && (r.node.Declaration? ==> document && OnlyDeclarations(kids)) {
        DeclsMore(kids, r.node, document);
        LoopDecls(s, r.p, cfg, depth, document, false, kids + [r.node]);
      }
    }
  }

  /** In an accepted document declarations come before all else, and no element has one inside. */
  lemma DeclarationsFirst(s: Bytes, cfg: Config)
    ensures var d := ParseDocument(s, cfg);
      d.Accepted? ==> DeclsLead(d.kids, true) && AllNoneInside(d.kids)
  {
    hide ParseList, DeclsLead, AllNoneInside;
    var q := SkipSpace(s, 0);
    var p := if StartsAt(s, q, BOM) then q + 3 else q;
    if p < |s| {
      ListDecls(s, p, cfg, 0, true);
    }
  }

  // ---------------------------------------------------------------- the result for documents

  /**
   Every accepted document: each element was sealed by "/>" or closed by a tag of the same name,
   its attribute names are distinct, text nodes are never adjacent, and all strings own pairwise
   disjoint closed ranges.
   */
  lemma AcceptedIsWellFormed(s: Bytes, cfg: Config)
    ensures var d := ParseDocument(s, cfg);
      d.Accepted? ==> AllWellFormed(s, d.kids) && Separated(d.kids) && Chain(AllSlices(d.kids), 0, |s| + 1)
  {
    hide WellFormed, AllSlices, Chain, ParseList, Separated, ClosingTag;
    var q := SkipSpace(s, 0);
    var p := if StartsAt(s, q, BOM) then q + 3 else q;
    if p < |s| {
      ListFacts(s, p, cfg, 0, true);
      var r := ParseList(s, p, cfg, 0, true);
      match r
      case Failed(_) =>
      case Ended(kids) => ChainWiden(AllSlices(kids), Border(s, p), |s| + 1, 0, |s| + 1);
      case Closed(kids, at, _, _) => ChainWiden(AllSlices(kids), Border(s, p), at + 1, 0, |s| + 1);
    }
  }
}
