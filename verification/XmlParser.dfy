/**
 The recursive-descent parser as functions of the text and a position. The text is what the
 buffer holds before its first NUL; strings are slices of it that are decoded later.
 XmlDocument.dfy has the methods that step through the buffer.
 */
module XmlParser {
  import opened XmlBytes
  import opened Decode

  const MAX_DEPTH: nat := 500

  datatype Error =
    | EmptyDocument | ParsingElement | ParsingAttribute | ParsingText | ParsingCData | ParsingComment
    | ParsingDeclaration | ParsingUnknown | MismatchedElement | Parsing | DepthExceeded

  datatype Whitespace = Preserve | CollapseSpace | Pedantic

  datatype Config = Config(entities: bool, whitespace: Whitespace)

  datatype Slice = Slice(start: nat, end: nat, mode: Mode)

  datatype Attr = Attr(name: Slice, value: Slice)

  /** How an element ended: by "/>", or by the closing tag whose "<" is at `at`. */
  datatype Closing = SelfClosed(end: nat) | ClosedBy(at: nat, name: Slice)

  datatype Node =
    | Element(at: nat, name: Slice, attrs: seq<Attr>, kids: seq<Node>, closing: Closing)
    | Text(value: Slice, cdata: bool)
    | Comment(value: Slice)
    | Declaration(value: Slice)
    | Unknown(value: Slice)

  predicate InText(s: Bytes, x: Slice) { x.start <= x.end <= |s| }

  function Raw(s: Bytes, x: Slice): Bytes
    requires InText(s, x)
  {
    s[x.start..x.end]
  }

  const COMMENT_OPEN: Bytes := [LT, BANG, DASH, DASH]
  const CDATA_OPEN: Bytes := [LT, BANG, 91, 67, 68, 65, 84, 65, 91]
  const CDATA_CLOSE: Bytes := [93, 93, GT]
  const COMMENT_CLOSE: Bytes := [DASH, DASH, GT]
  const DECLARATION_OPEN: Bytes := [LT, QUERY]
  const DECLARATION_CLOSE: Bytes := [QUERY, GT]
  const UNKNOWN_OPEN: Bytes := [LT, BANG]

  const LINES := Mode(false, true, false)

  function TextMode(cfg: Config): Mode { Mode(cfg.entities, true, cfg.whitespace == CollapseSpace) }
  function AttrMode(cfg: Config): Mode { Mode(cfg.entities, true, false) }

  // ---------------------------------------------------------------- tokens

  function NameEnd(s: Bytes, p: nat): (r: nat)
    requires p <= |s|
    ensures p <= r <= |s|
    ensures forall i :: p <= i < r ==> IsNameChar(s[i])
    ensures r < |s| ==> !IsNameChar(s[r])
    decreases |s| - p
  {
    if p < |s| && IsNameChar(s[p]) then NameEnd(s, p + 1) else p
  }

  /** ParseText: the first occurrence of t at or after p, or |s|. */
  function Find(s: Bytes, p: nat, t: Bytes): (r: nat)
    requires p <= |s| && t != []
    ensures p <= r <= |s|
    ensures r < |s| ==> StartsAt(s, r, t)
    ensures forall i :: p <= i < r ==> !StartsAt(s, i, t)
    decreases |s| - p
  {
    if p == |s| || StartsAt(s, p, t) then p else Find(s, p + 1, t)
  }

  // ---------------------------------------------------------------- attributes

  datatype AttrResult = NoAttr | GotAttr(attr: Attr, p: nat)

  /** XMLAttribute::ParseDeep at a name start character. */
  function ParseAttr(s: Bytes, p: nat, cfg: Config): (r: AttrResult)
    requires p < |s| && IsNameStart(s[p])
    ensures r.GotAttr? ==> p < r.attr.name.end < r.attr.value.start <= r.attr.value.end < r.p <= |s|
    ensures r.GotAttr? ==> r.attr.name == Slice(p, NameEnd(s, p), NAME_MODE)
  {
    var e := NameEnd(s, p);
    if e == |s| then NoAttr else
    var q := SkipSpace(s, e);
    if q == |s| || s[q] != EQ then NoAttr else
    var v := SkipSpace(s, q + 1);
    if v == |s| || (s[v] != QUOTE && s[v] != APOS) then NoAttr else
    var end := Find(s, v + 1, [s[v]]);
    if end == |s| then NoAttr
    else GotAttr(Attr(Slice(p, e, NAME_MODE), Slice(v + 1, end, AttrMode(cfg))), end + 1)
  }

  predicate HasAttr(s: Bytes, attrs: seq<Attr>, name: Bytes)
    requires AttrsIn(s, attrs)
  {
    exists i :: 0 <= i < |attrs| && Raw(s, attrs[i].name) == name
  }

  predicate AttrsIn(s: Bytes, attrs: seq<Attr>) {
    forall i :: 0 <= i < |attrs| ==> InText(s, attrs[i].name) && InText(s, attrs[i].value)
  }

  datatype TagResult = BadTag(error: Error) | Tag(attrs: seq<Attr>, p: nat, sealed: bool)

  /** ParseAttributes, `attrs` already linked: up to ">" or "/>". */
  function ParseAttrs(s: Bytes, p: nat, cfg: Config, attrs: seq<Attr>): (r: TagResult)
    requires p <= |s| && AttrsIn(s, attrs)
    ensures r.Tag? ==> p < r.p <= |s| && AttrsIn(s, r.attrs)
    decreases |s| - p
  {
    var q := SkipSpace(s, p);
    if q == |s| then BadTag(ParsingElement)
    else if IsNameStart(s[q]) then
      match ParseAttr(s, q, cfg)
      case NoAttr => BadTag(ParsingAttribute)
      case GotAttr(a, next) =>
        if HasAttr(s, attrs, Raw(s, a.name)) then BadTag(ParsingAttribute)
        else ParseAttrs(s, next, cfg, attrs + [a])
    else if s[q] == GT then Tag(attrs, q + 1, false)
    else if s[q] == SLASH && q + 1 < |s| && s[q + 1] == GT then Tag(attrs, q + 2, true)
    else BadTag(ParsingElement)
  }

  lemma NextAttr(s: Bytes, q: nat, cfg: Config, attrs: seq<Attr>)
    requires q <= |s| && AttrsIn(s, attrs)
    ensures var at := SkipSpace(s, q);
      at < |s| && IsNameStart(s[at]) ==>
        var a := ParseAttr(s, at, cfg);
        ParseAttrs(s, q, cfg, attrs) ==
          if a.NoAttr? || HasAttr(s, attrs, Raw(s, a.attr.name)) then BadTag(ParsingAttribute)
          else ParseAttrs(s, a.p, cfg, attrs + [a.attr])
    ensures !IsNameStart(0)
  {
  }

  lemma TagEnds(s: Bytes, p: nat, cfg: Config, attrs: seq<Attr>)
    requires p < |s| && SkipSpace(s, p) == p && AttrsIn(s, attrs)
    ensures s[p] == GT ==> ParseAttrs(s, p, cfg, attrs) == Tag(attrs, p + 1, false)
    ensures s[p] == SLASH && p + 1 < |s| && s[p + 1] == GT ==> ParseAttrs(s, p, cfg, attrs) == Tag(attrs, p + 2, true)
  {
  }

  // ---------------------------------------------------------------- nodes

  datatype Kind = AnElement | SomeText | CData | AComment | ADeclaration | AnUnknown

  datatype Found = Nothing | Found(kind: Kind, at: nat)

  /** XMLDocument::Identify: what comes next, and where its parsing starts. */
  function Identify(s: Bytes, p: nat, cfg: Config, first: bool): (r: Found)
    requires p <= |s|
    ensures r.Found? ==> p <= r.at <= |s|
    ensures r.Found? && r.kind != SomeText ==> p < r.at
    ensures r.Found? && r.kind == SomeText ==> r.at == p < |s| && s[p] != LT
  {
    var q := SkipSpace(s, p);
    if q == |s| then Nothing
    else if StartsAt(s, q, DECLARATION_OPEN) then Found(ADeclaration, q + 2)
    else if StartsAt(s, q, COMMENT_OPEN) then Found(AComment, q + 4)
    else if StartsAt(s, q, CDATA_OPEN) then Found(CData, q + 9)
    else if StartsAt(s, q, UNKNOWN_OPEN) then Found(AnUnknown, q + 2)
    else if s[q] == LT then
      if cfg.whitespace == Pedantic && first && p != q && q + 1 < |s| && s[q + 1] == SLASH then Found(SomeText, p)
      else Found(AnElement, q + 1)
    else Found(SomeText, p)
  }

  datatype NodeResult =
    | NodeError(error: Error)
    | CloseTag(at: nat, name: Slice, p: nat) // "</name ...>", to be matched by the enclosing element
    | Parsed(node: Node, p: nat)

  datatype ListResult =
    | Failed(error: Error)
    | Ended(kids: seq<Node>)                           // a null return without an error
    | Closed(kids: seq<Node>, at: nat, name: Slice, p: nat) // ended by a closing tag

  /** A node that is text up to a terminator. */
  function ParseLeaf(s: Bytes, q: nat, kind: Kind, cfg: Config): (r: NodeResult)
    requires q <= |s| && kind != AnElement
    requires kind == SomeText ==> q < |s| && s[q] != LT
    ensures r.Parsed? ==> q <= r.p <= |s| && !r.node.Element?
    ensures r.Parsed? && kind == SomeText ==> q < r.p < |s|
    ensures !r.CloseTag?
  {
    match kind
    case SomeText =>
      var e := Find(s, q, [LT]);
      if e == |s| then NodeError(ParsingText)
      else if e + 1 == |s| then NodeError(Parsing)     // "<" is the last byte: null, but no error set
      else Parsed(Text(Slice(q, e, TextMode(cfg)), false), e)
    case CData =>
      var e := Find(s, q, CDATA_CLOSE);
      if e == |s| then NodeError(ParsingCData) else Parsed(Text(Slice(q, e, LINES), true), e + 3)
    case AComment =>
      var e := Find(s, q, COMMENT_CLOSE);
      if e == |s| then NodeError(ParsingComment) else Parsed(Comment(Slice(q, e, LINES)), e + 3)
    case ADeclaration =>
      var e := Find(s, q, DECLARATION_CLOSE);
      if e == |s| then NodeError(ParsingDeclaration) else Parsed(Declaration(Slice(q, e, LINES)), e + 2)
    case AnUnknown =>
      var e := Find(s, q, [GT]);
      if e == |s| then NodeError(ParsingUnknown) else Parsed(Unknown(Slice(q, e, LINES)), e + 1)
  }

  /** XMLElement::ParseDeep for the element whose "<" is at q - 1, with the checks its parent makes. */
  function ParseElement(s: Bytes, q: nat, cfg: Config, depth: nat): (r: NodeResult)
    requires 0 < q <= |s| && depth < MAX_DEPTH
    ensures r.Parsed? ==> q < r.p <= |s| && r.node.Element?
    ensures r.CloseTag? ==> q < r.p <= |s| && InText(s, r.name)
    decreases |s| - q, 1
  {
    var t := SkipSpace(s, q);
    var closing := t < |s| && s[t] == SLASH;
    var n := if closing then t + 1 else t;
    if n == |s| || !IsNameStart(s[n]) then NodeError(Parsing)
    else ParseNamed(s, q, closing, Slice(n, NameEnd(s, n), NAME_MODE), cfg, depth)
  }

  /** The element from the end of its name on. */
  function ParseNamed(s: Bytes, q: nat, closing: bool, name: Slice, cfg: Config, depth: nat): (r: NodeResult)
    requires 0 < q <= name.start && InText(s, name) && depth < MAX_DEPTH
    ensures r.Parsed? ==> q < r.p <= |s| && r.node.Element?
    ensures r.CloseTag? ==> q < r.p <= |s| && r.name == name
    decreases |s| - q, 0
  {
    match ParseAttrs(s, name.end, cfg, [])
    case BadTag(error) => NodeError(error)
    case Tag(attrs, p, sealed) =>
      if sealed then Parsed(Element(q - 1, name, attrs, [], SelfClosed(p)), p) // even after "</"
      else if closing then CloseTag(q - 1, name, p)
      else if p == |s| then NodeError(MismatchedElement)
      else
        match ParseList(s, p, cfg, depth, false)
        case Failed(error) => NodeError(error)
        case Ended(_) => NodeError(Parsing)
        case Closed(kids, at, endName, next) =>
          if Raw(s, endName) != Raw(s, name) then NodeError(MismatchedElement)
          else Parsed(Element(q - 1, name, attrs, kids, ClosedBy(at, endName)), next)
  }

  /** XMLNode::ParseDeep, `depth` levels already entered. */
  function ParseList(s: Bytes, p: nat, cfg: Config, depth: nat, document: bool): (r: ListResult)
    requires p <= |s| && depth < MAX_DEPTH
    ensures r.Closed? ==> p < r.p <= |s| && InText(s, r.name)
    decreases |s| - p, 3
  {
    if depth + 1 == MAX_DEPTH then Failed(DepthExceeded)
    else ParseLoop(s, p, cfg, depth + 1, document, true, [])
  }

  /** Its loop, `kids` already linked. */
  function ParseLoop(s: Bytes, p: nat, cfg: Config, depth: nat, document: bool, first: bool, kids: seq<Node>)
    : (r: ListResult)
    requires p <= |s| && depth < MAX_DEPTH
    ensures r.Closed? ==> p < r.p <= |s| && InText(s, r.name)
    decreases |s| - p, 2
  {
    match Identify(s, p, cfg, first)
    case Nothing => Ended(kids)
    case Found(kind, q) =>
      match if kind == AnElement then ParseElement(s, q, cfg, depth) else ParseLeaf(s, q, kind, cfg)
      case NodeError(error) => Failed(error)
      case CloseTag(at, name, next) => Closed(kids, at, name, next)
      case Parsed(node, next) =>
        if node.Declaration? && !(document && OnlyDeclarations(kids)) then Failed(ParsingDeclaration)
        else ParseLoop(s, next, cfg, depth, document, false, kids + [node])
  }

  /** The check looks at the first and the last child only. */
  predicate OnlyDeclarations(kids: seq<Node>) {
    kids == [] || (kids[0].Declaration? && kids[|kids| - 1].Declaration?)
  }

  // ---------------------------------------------------------------- documents

  datatype Document = Rejected(error: Error) | Accepted(kids: seq<Node>)

  const BOM: Bytes := [0xEF, 0xBB, 0xBF]

  /** XMLDocument::Parse on the text before the first NUL. */
  function ParseDocument(s: Bytes, cfg: Config): Document {
    if s == [] then Rejected(EmptyDocument) else
    var q := SkipSpace(s, 0);
    var p := if StartsAt(s, q, BOM) then q + 3 else q;
    if p == |s| then Rejected(EmptyDocument)
    else
      match ParseList(s, p, cfg, 0, true)
      case Failed(error) => Rejected(error)
      case Ended(kids) => Accepted(kids)
      case Closed(kids, _, _, _) => Accepted(kids)   // a stray closing tag ends the document
  }
}
