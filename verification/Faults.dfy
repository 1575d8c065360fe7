/** What the parser rejects: a fault at any nesting is reported by its error, whatever stands before and behind it. */
module Faults {
  import opened XmlBytes
  import opened Decode
  import opened Escape
  import opened XmlParser
  import opened XmlTree
  import opened Layout

  // ---------------------------------------------------------------- faulty documents

  /** "<", the name, the attributes, and `tail` before the end of the tag. */
  datatype OpenTag = OpenTag(lead: Bytes, name: Bytes, attrs: seq<LAttr>, tail: Bytes)

  /** What an attribute may lack: "=", a quote before the value, or one behind it. */
  datatype Defect = NoEquals(b: byte, after: Bytes) | NoQuote(b: byte, after: Bytes) | NoEnd

  /** `after` is whatever follows; the other faults reach to the end of the text. */
  datatype Fault =
    | EndlessRemark(raw: Bytes)
    | EndlessCData(raw: Bytes)
    | EndlessDecl(raw: Bytes)
    | EndlessDtd(raw: Bytes)
    | EndlessText(raw: Bytes)
    | LateDecl(raw: Bytes, after: Bytes)
    | Nameless(b: byte, after: Bytes)
    | SameName(tag: OpenTag, again: LAttr, after: Bytes)
    | Junk(tag: OpenTag, b: byte, after: Bytes)
    | BadAttr(tag: OpenTag, attr: LAttr, defect: Defect)
    | TooDeep(tag: OpenTag, after: Bytes)
    | Unclosed(tag: OpenTag, items: seq<Item>, gap: Bytes)
    | WrongClose(tag: OpenTag, items: seq<Item>, gap: Bytes, slash: Bytes, other: Bytes, close: Bytes, after: Bytes)

  /** Where the fault is: behind some nodes of the document, or inside an element behind them. */
  datatype Path =
    | Here(items: seq<Item>, gap: Bytes, fault: Fault)
    | Below(items: seq<Item>, gap: Bytes, tag: OpenTag, inner: Path)

  // ---------------------------------------------------------------- their text and error

  function TagText(o: OpenTag, rest: Bytes): Bytes {
    Ascii("<") + (o.lead + (o.name + AttrsText(o.attrs, 0, o.tail + (Ascii(">") + rest))))
  }

  /** What stands behind the name of the attribute. */
  function DefectText(a: LAttr, d: Defect): Bytes {
    match d
    case NoEquals(b, after) => a.left + ([b] + after)
    case NoQuote(b, after) => a.left + (Ascii("=") + (a.right + ([b] + after)))
    case NoEnd => a.left + (Ascii("=") + (a.right + ([a.quote] + a.raw)))
  }

  function FaultText(f: Fault): Bytes {
    match f
    case EndlessRemark(raw) => Ascii("<!--") + raw
    case EndlessCData(raw) => Ascii("<![CDATA[") + raw
    case EndlessDecl(raw) => Ascii("<?") + raw
    case EndlessDtd(raw) => Ascii("<!") + raw
    case EndlessText(raw) => raw
    case LateDecl(raw, after) => LaidText(LDecl(raw), after)
    case Nameless(b, after) => Ascii("<") + ([b] + after)
    case SameName(tag, again, after) =>
      Ascii("<") + (tag.lead + (tag.name + AttrsText(tag.attrs, 0, AttrText(again, after))))
    case Junk(tag, b, after) =>
      Ascii("<") + (tag.lead + (tag.name + AttrsText(tag.attrs, 0, tag.tail + ([b] + after))))
    case BadAttr(tag, attr, defect) =>
      Ascii("<") + (tag.lead + (tag.name + AttrsText(tag.attrs, 0, attr.gap + (attr.name + DefectText(attr, defect)))))
    case TooDeep(tag, after) => TagText(tag, after)
    case Unclosed(tag, items, gap) => TagText(tag, ItemsText(items, 0, gap))
    case WrongClose(tag, items, gap, slash, other, close, after) =>
      TagText(tag, ItemsText(items, 0, gap + CloseText(other, slash, close, after)))
  }

  function ErrorOf(f: Fault): Error {
    match f
    case EndlessRemark(_) => ParsingComment
    case EndlessCData(_) => ParsingCData
    case EndlessDecl(_) => ParsingDeclaration
    case EndlessDtd(_) => ParsingUnknown
    case EndlessText(_) => ParsingText
    case LateDecl(_, _) => ParsingDeclaration
    case Nameless(_, _) => Parsing
    case SameName(_, _, _) => ParsingAttribute
    case Junk(_, _, _) => ParsingElement
    case BadAttr(_, _, _) => ParsingAttribute
    case TooDeep(_, _) => DepthExceeded
    case Unclosed(_, items, gap) => if items == [] && gap == [] then MismatchedElement else Parsing
    case WrongClose(_, _, _, _, _, _, _) => MismatchedElement
  }

  function PathText(path: Path): Bytes {
    match path
    case Here(items, gap, fault) => ItemsText(items, 0, gap + FaultText(fault))
    case Below(items, gap, tag, inner) => ItemsText(items, 0, gap + TagText(tag, PathText(inner)))
  }

  function FaultOf(path: Path): Fault { if path.Here? then path.fault else FaultOf(path.inner) }

  // ---------------------------------------------------------------- which faults there are

  ghost predicate GoodTag(o: OpenTag) { Gap(o.lead) && GoodName(o.name) && GoodAttrs(o.attrs) && Gap(o.tail) }

  ghost predicate GoodLevel(items: seq<Item>, gap: Bytes, document: bool, pedantic: bool, depth: nat) {
    && GoodItems(items, gap, pedantic) && Gap(gap) && DeclsFirst(items, document)
    && depth + DepthOf(items) < MAX_DEPTH
  }

  predicate EndsInText(items: seq<Item>) { items != [] && items[|items| - 1].node.LText? }

  /** Of a fault in a list at some depth behind these items. */
  ghost predicate GoodFault(f: Fault, items: seq<Item>, gap: Bytes, document: bool, pedantic: bool, depth: nat) {
    match f
    case EndlessRemark(raw) => Lacks(raw, Ascii("-->"))
    case EndlessCData(raw) => Lacks(raw, Ascii("]]>"))
    case EndlessDecl(raw) => Lacks(raw, Ascii("?>"))
    case EndlessDtd(raw) => '>' as int !in raw && !(Ascii("--") <= raw) && !(Ascii("[CDATA[") <= raw)
    case EndlessText(raw) =>
      gap == [] && !EndsInText(items) && '<' as int !in raw && exists i :: 0 <= i < |raw| && !Blank(raw[i])
    case LateDecl(raw, _) => Lacks(raw, Ascii("?>")) && (document ==> items != [] && !items[|items| - 1].node.LDecl?)
    case Nameless(b, _) =>
      !Blank(b) && !NameStart(b) && b != '!' as int && b != '/' as int && b != '?' as int
    case SameName(tag, again, _) =>
      && GoodTag(tag.(tail := [])) && GoodAttr(again)
      && exists i :: 0 <= i < |tag.attrs| && tag.attrs[i].name == again.name
    case Junk(tag, b, after) =>
      && GoodTag(tag) && !Blank(b) && !NameByte(b) && b != '>' as int
      && (b == '/' as int ==> after == [] || after[0] != '>' as int)
    case BadAttr(tag, attr, defect) =>
      && GoodTag(tag.(tail := [])) && GoodAttr(attr) && (tag.attrs == [] ==> attr.gap != [])
      && (match defect
          case NoEquals(b, _) => !Blank(b) && !NameByte(b) && b != '=' as int
          case NoQuote(b, _) => !Blank(b) && b != '\"' as int && b != '\'' as int
          case NoEnd => true)
    case TooDeep(tag, after) => GoodTag(tag) && after != [] && depth + 1 == MAX_DEPTH
    case Unclosed(tag, kids, end) =>
      GoodTag(tag) && GoodLevel(kids, end, false, pedantic, depth + 1) && !EndsInText(kids)
    case WrongClose(tag, kids, end, slash, other, close, _) =>
      && GoodTag(tag) && GoodLevel(kids, end, false, pedantic, depth + 1) && Gap(slash) && Gap(close)
      && GoodName(other) && other != tag.name && (pedantic && kids == [] ==> end == [])
  }

  ghost predicate GoodPath(path: Path, document: bool, pedantic: bool, depth: nat) {
    && GoodLevel(path.items, path.gap, document, pedantic, depth)
    && (match path
        case Here(items, gap, fault) => GoodFault(fault, items, gap, document, pedantic, depth)
        case Below(_, _, tag, inner) => GoodTag(tag) && GoodPath(inner, false, pedantic, depth + 1))
  }

  // ---------------------------------------------------------------- leaves without an end

  lemma FindNone(s: Bytes, q: nat, raw: Bytes, mark: Bytes)
    requires q <= |s| && s[q..] == raw && mark != [] && Lacks(raw, mark)
    ensures Find(s, q, mark) == |s|
  {
    hide Lacks, Find;
    var e := Find(s, q, mark);
    if e < |s| {
      assert s[q..q + |raw|] == raw;
      SubSlice(s, q, raw, e, |mark|);
      LacksAt(raw, mark, e - q);
    }
  }

  lemma LacksAt(v: Bytes, mark: Bytes, i: nat)
    requires Lacks(v, mark) && i <= |v|
    ensures !StartsAt(v, i, mark)
  {
  }

  lemma LacksByteOf(raw: Bytes, b: byte)
    requires b !in raw
    ensures Lacks(raw, [b])
  {
    forall i | 0 <= i <= |raw|
      ensures !StartsAt(raw, i, [b])
    {
      ByteStart(raw, i, b);
    }
  }

  /** A mark and something behind it. */
  lemma FindsOpenMark(s: Bytes, p: nat, g: Bytes, mark: Bytes, raw: Bytes)
    requires p <= |s| && s[p..] == g + (mark + raw) && Gap(g) && mark != [] && mark[0] == LT
    ensures var q := p + |g|;
      && SkipSpace(s, p) == q && q + |mark| <= |s| && StartsAt(s, q, mark) && s[q + |mark|..] == raw && s[q] == LT
      && forall i :: 0 <= i < |mark| ==> s[q + i] == mark[i]
  {
    hide SkipSpace;
    assert (mark + raw)[0] == LT;
    SkipGap(s, p, g, mark + raw);
    var q := p + |g|;
    Advance(s, q, mark, raw);
    StartBytes(s, q, mark);
  }

  /** What the parser makes of a leaf that is found behind white space at p. */
  ghost predicate LeafFails(s: Bytes, p: nat, cfg: Config, first: bool, error: Error)
    requires p <= |s|
  {
    var found := Identify(s, p, cfg, first);
    found.Found? && found.kind != AnElement && ParseLeaf(s, found.at, found.kind, cfg) == NodeError(error)
  }

  lemma RemarkFails(s: Bytes, p: nat, cfg: Config, first: bool, g: Bytes, raw: Bytes)
    requires p <= |s| && s[p..] == g + (COMMENT_OPEN + raw) && Gap(g) && Lacks(raw, COMMENT_CLOSE)
    ensures LeafFails(s, p, cfg, first, ParsingComment)
  {
    hide SkipSpace, StartsAt, Find, Lacks;
    var q := p + |g|;
    FindsOpenMark(s, p, g, COMMENT_OPEN, raw);
    assert s[q + 1] == COMMENT_OPEN[1];
    NotStart(s, q, DECLARATION_OPEN, 1);
    FindNone(s, q + 4, raw, COMMENT_CLOSE);
  }

  lemma CDataFails(s: Bytes, p: nat, cfg: Config, first: bool, g: Bytes, raw: Bytes)
    requires p <= |s| && s[p..] == g + (CDATA_OPEN + raw) && Gap(g) && Lacks(raw, CDATA_CLOSE)
    ensures LeafFails(s, p, cfg, first, ParsingCData)
  {
    hide SkipSpace, StartsAt, Find, Lacks;
    var q := p + |g|;
    FindsOpenMark(s, p, g, CDATA_OPEN, raw);
    assert s[q + 1] == CDATA_OPEN[1] && s[q + 2] == CDATA_OPEN[2];
    NotStart(s, q, DECLARATION_OPEN, 1);
    NotStart(s, q, COMMENT_OPEN, 2);
    FindNone(s, q + 9, raw, CDATA_CLOSE);
  }

  lemma DeclFails(s: Bytes, p: nat, cfg: Config, first: bool, g: Bytes, raw: Bytes)
    requires p <= |s| && s[p..] == g + (DECLARATION_OPEN + raw) && Gap(g) && Lacks(raw, DECLARATION_CLOSE)
    ensures LeafFails(s, p, cfg, first, ParsingDeclaration)
  {
    hide SkipSpace, StartsAt, Find, Lacks;
    FindsOpenMark(s, p, g, DECLARATION_OPEN, raw);
    FindNone(s, p + |g| + 2, raw, DECLARATION_CLOSE);
  }

  lemma DtdFails(s: Bytes, p: nat, cfg: Config, first: bool, g: Bytes, raw: Bytes)
    requires p <= |s| && s[p..] == g + (UNKNOWN_OPEN + raw) && Gap(g) && GT !in raw
    requires !(COMMENT_OPEN[2..] <= raw) && !(CDATA_OPEN[2..] <= raw)
    ensures LeafFails(s, p, cfg, first, ParsingUnknown)
  {
    hide SkipSpace, StartsAt, Find, Lacks;
    var q := p + |g|;
    FindsOpenMark(s, p, g, UNKNOWN_OPEN, raw);
    assert s[q + 1] == UNKNOWN_OPEN[1];
    NotStart(s, q, DECLARATION_OPEN, 1);
    NotLonger(s, q, COMMENT_OPEN, raw);
    NotLonger(s, q, CDATA_OPEN, raw);
    LacksByteOf(raw, GT);
    FindNone(s, q + 2, raw, [GT]);
  }

  lemma NotLonger(s: Bytes, q: nat, mark: Bytes, raw: Bytes)
    requires q + 2 <= |s| && s[q + 2..] == raw && |mark| >= 2 && !(mark[2..] <= raw)
    ensures !StartsAt(s, q, mark)
  {
    var n := |mark| - 2;
    if n <= |raw| {
      assert mark[2..] != raw[..n];
      var i :| 0 <= i < n && mark[2..][i] != raw[..n][i];
      assert raw[i] == s[q + 2 + i];
      NotStart(s, q, mark, i + 2);
    }
  }

  lemma EndlessMark(s: Bytes, p: nat, cfg: Config, first: bool, g: Bytes, f: Fault)
    requires p <= |s| && s[p..] == g + FaultText(f) && Gap(g)
    requires f.EndlessRemark? || f.EndlessCData? || f.EndlessDecl? || f.EndlessDtd?
    requires GoodFault(f, [], g, true, true, 0)
    ensures LeafFails(s, p, cfg, first, ErrorOf(f))
  {
    hide LeafFails, Lacks, Ascii;
    FaultMarks();
    match f
    case EndlessRemark(raw) => RemarkFails(s, p, cfg, first, g, raw);
    case EndlessCData(raw) => CDataFails(s, p, cfg, first, g, raw);
    case EndlessDecl(raw) => DeclFails(s, p, cfg, first, g, raw);
    case EndlessDtd(raw) => DtdFails(s, p, cfg, first, g, raw);
  }

  lemma FaultMarks()
    ensures Ascii("<![CDATA[") == CDATA_OPEN && Ascii("]]>") == CDATA_CLOSE && Ascii("<!--") == COMMENT_OPEN
    ensures Ascii("-->") == COMMENT_CLOSE && Ascii("<?") == DECLARATION_OPEN && Ascii("?>") == DECLARATION_CLOSE
    ensures Ascii("<!") == UNKNOWN_OPEN && Ascii("<") == [LT]
    ensures Ascii("--") == COMMENT_OPEN[2..] && Ascii("[CDATA[") == CDATA_OPEN[2..]
  {
  }

  lemma EndlessTextFails(s: Bytes, p: nat, cfg: Config, first: bool, raw: Bytes)
    requires p <= |s| && s[p..] == raw && LT !in raw && exists i :: 0 <= i < |raw| && !Blank(raw[i])
    ensures Identify(s, p, cfg, first) == Found(SomeText, p) && ParseLeaf(s, p, SomeText, cfg) == NodeError(ParsingText)
  {
    hide SkipSpace, StartsAt, Find, Lacks;
    var i :| 0 <= i < |raw| && !Blank(raw[i]);
    ClassesAre(raw[i]);
    assert raw[i] == s[p + i];
    var q := SkipSpace(s, p);
    assert q <= p + i;
    assert raw[q - p] == s[q] && raw[q - p] in raw;
    assert raw[0] == s[p] && raw[0] in raw;
    NotStart(s, q, DECLARATION_OPEN, 0);
    NotStart(s, q, COMMENT_OPEN, 0);
    NotStart(s, q, CDATA_OPEN, 0);
    NotStart(s, q, UNKNOWN_OPEN, 0);
    LacksByteOf(raw, LT);
    FindNone(s, p, raw, [LT]);
  }

  // ---------------------------------------------------------------- declarations in the wrong place

  lemma LateDeclFails(
      s: Bytes, p: nat, cfg: Config, depth: nat, document: bool, first: bool, read: seq<Node>, g: Bytes, raw: Bytes,
      after: Bytes)
    requires p <= |s| && s[p..] == g + LaidText(LDecl(raw), after) && Gap(g) && depth < MAX_DEPTH
    requires Lacks(raw, Ascii("?>")) && !(document && OnlyDeclarations(read))
    ensures ParseLoop(s, p, cfg, depth, document, first, read) == Failed(ParsingDeclaration)
  {
    hide Identify, ParseLeaf, ParseElement, LaidText, OnlyDeclarations, AfterMark, TreeOf, Means;
    var n := LDecl(raw);
    FindsMark(s, p, cfg, first, g, n, after);
    ReadsLeaf(s, p + |g| + |OpenMarkOf(n)|, cfg, n, after);
  }

  lemma NotOnlyBefore(s: Bytes, read: seq<Node>, items: seq<Item>, cfg: Config)
    requires items != [] && !items[|items| - 1].node.LDecl? && TreesOf(s, read) == ItemsMean(items, cfg)
    ensures !OnlyDeclarations(read)
  {
    hide TreesOf, ItemsMean, Str, Value, AttrValues, AttrsMean;
    TreesAt(s, read, |read| - 1);
    MeansAt(items, cfg, |items| - 1);
  }

  // ---------------------------------------------------------------- elements

  /** A "<" behind white space, and what starts an element. */
  lemma FindsTag(s: Bytes, p: nat, cfg: Config, first: bool, g: Bytes, after: Bytes)
    requires p <= |s| && s[p..] == g + ([LT] + after) && Gap(g)
    requires after != [] && after[0] != QUERY && after[0] != BANG && after[0] != SLASH
    ensures var q := p + |g| + 1; q <= |s| && s[q..] == after && Identify(s, p, cfg, first) == Found(AnElement, q)
  {
    hide SkipSpace, StartsAt;
    SkipGap(s, p, g, [LT] + after);
    var at := p + |g|;
    ByteAt(s, at, LT, after);
    HeadAt(s, at + 1, after);
    NotStart(s, at, DECLARATION_OPEN, 1);
    NotStart(s, at, COMMENT_OPEN, 1);
    NotStart(s, at, CDATA_OPEN, 1);
    NotStart(s, at, UNKNOWN_OPEN, 1);
  }

  lemma TagBegins(lead: Bytes, name: Bytes, rest: Bytes)
    requires Gap(lead) && GoodName(name)
    ensures var after := lead + (name + rest);
      after != [] && after[0] != QUERY && after[0] != BANG && after[0] != SLASH
  {
    ClassesAre(name[0]);
    if lead != [] {
      ClassesAre(lead[0]);
      assert (lead + (name + rest))[0] == lead[0];
    } else {
      assert (lead + (name + rest))[0] == name[0];
    }
  }

  lemma NamelessFails(s: Bytes, q: nat, cfg: Config, depth: nat, b: byte, after: Bytes)
    requires 0 < q <= |s| && s[q..] == [b] + after && depth < MAX_DEPTH
    requires !Blank(b) && !NameStart(b) && b != SLASH
    ensures ParseElement(s, q, cfg, depth) == NodeError(Parsing)
  {
    ByteAt(s, q, b, after);
    ClassesAre(b);
  }

  /** The parent's view of an element whose attributes are faulty. */
  lemma AttrsFail(s: Bytes, q: nat, cfg: Config, depth: nat, t: nat, e: nat, error: Error)
    requires 0 < q <= t < e <= |s| && depth < MAX_DEPTH && SkipSpace(s, q) == t && s[t] != SLASH && IsNameStart(s[t])
    requires NameEnd(s, t) == e && ParseAttrs(s, e, cfg, []) == BadTag(error)
    ensures ParseElement(s, q, cfg, depth) == NodeError(error)
  {
    hide SkipSpace, NameEnd, ParseAttrs, ParseList;
  }

  /** And of one whose list of children is, or ends otherwise than by its closing tag. */
  lemma ListFails(s: Bytes, q: nat, cfg: Config, depth: nat, t: nat, e: nat, attrs: seq<Attr>, next: nat)
    requires 0 < q <= t < e <= |s| && depth < MAX_DEPTH && SkipSpace(s, q) == t && s[t] != SLASH && IsNameStart(s[t])
    requires NameEnd(s, t) == e && ParseAttrs(s, e, cfg, []) == Tag(attrs, next, false)
    ensures next == |s| ==> ParseElement(s, q, cfg, depth) == NodeError(MismatchedElement)
    ensures next < |s| ==>
      var r := ParseList(s, next, cfg, depth, false);
      && (r.Failed? ==> ParseElement(s, q, cfg, depth) == NodeError(r.error))
      && (r.Ended? ==> ParseElement(s, q, cfg, depth) == NodeError(Parsing))
      && (r.Closed? && Raw(s, r.name) != s[t..e] ==> ParseElement(s, q, cfg, depth) == NodeError(MismatchedElement))
  {
    hide SkipSpace, NameEnd, ParseAttrs, ParseList;
  }

  lemma LoopFails(
      s: Bytes, p: nat, cfg: Config, depth: nat, document: bool, first: bool, read: seq<Node>, found: Found,
      error: Error)
    requires p <= |s| && depth < MAX_DEPTH && found.Found? && Identify(s, p, cfg, first) == found
    requires (if found.kind == AnElement then ParseElement(s, found.at, cfg, depth)
              else ParseLeaf(s, found.at, found.kind, cfg)) == NodeError(error)
    ensures ParseLoop(s, p, cfg, depth, document, first, read) == Failed(error)
  {
    hide Identify, ParseElement, ParseLeaf;
  }

  lemma ListIsLoop(s: Bytes, p: nat, cfg: Config, depth: nat)
    requires p <= |s| && depth < MAX_DEPTH
    ensures ParseList(s, p, cfg, depth, false) ==
      if depth + 1 == MAX_DEPTH then Failed(DepthExceeded) else ParseLoop(s, p, cfg, depth + 1, false, true, [])
  {
    hide ParseLoop;
  }

  lemma SameNameFails(s: Bytes, q: nat, cfg: Config, depth: nat, tag: OpenTag, again: LAttr, after: Bytes)
    requires Gap(tag.lead) && GoodName(tag.name) && GoodAttrs(tag.attrs) && GoodAttr(again) && depth < MAX_DEPTH
    requires exists i :: 0 <= i < |tag.attrs| && tag.attrs[i].name == again.name
    requires 0 < q <= |s| && s[q..] == tag.lead + (tag.name + AttrsText(tag.attrs, 0, AttrText(again, after)))
    ensures ParseElement(s, q, cfg, depth) == NodeError(ParsingAttribute)
  {
    hide SkipSpace, NameEnd, ParseAttrs, AttrsText, AttrText, GoodName, GoodAttrs, GoodAttr, Gap, ParseElement;
    var more := AttrText(again, after);
    AttrsHead(tag.attrs, more);
    var t, e := ReadsTagName(s, q, tag.lead, tag.name, AttrsText(tag.attrs, 0, more));
    AttrTwice(s, e, cfg, tag.attrs, again, after);
    AttrsFail(s, q, cfg, depth, t, e, ParsingAttribute);
  }

  lemma AttrTwice(s: Bytes, e: nat, cfg: Config, attrs: seq<LAttr>, again: LAttr, after: Bytes)
    requires GoodAttrs(attrs) && GoodAttr(again) && e <= |s| && s[e..] == AttrsText(attrs, 0, AttrText(again, after))
    requires exists i :: 0 <= i < |attrs| && attrs[i].name == again.name
    ensures ParseAttrs(s, e, cfg, []) == BadTag(ParsingAttribute)
  {
    hide SkipSpace, ParseAttrs, ParseAttr, AttrsText, AttrText, GoodAttrs, GoodAttr, Matches, HasAttr, Raw;
    NoneMatched(s, attrs, cfg);
    var read, at := ReadAttrs(s, e, cfg, [], attrs, 0, AttrText(again, after));
    ReadAttr(s, at, cfg, again, after);
    NextAttr(s, at, cfg, read);
    AlreadyThere(s, read, attrs, cfg, again.name);
  }

  /** A tag that goes on with no attribute and no end. */
  lemma JunkFails(s: Bytes, q: nat, cfg: Config, depth: nat, tag: OpenTag, b: byte, after: Bytes)
    requires GoodTag(tag) && !Blank(b) && !NameByte(b) && b != GT && depth < MAX_DEPTH
    requires b == SLASH ==> after == [] || after[0] != GT
    requires 0 < q <= |s| && s[q..] == tag.lead + (tag.name + AttrsText(tag.attrs, 0, tag.tail + ([b] + after)))
    ensures ParseElement(s, q, cfg, depth) == NodeError(ParsingElement)
  {
    hide SkipSpace, NameEnd, ParseAttrs, AttrsText, GoodName, GoodAttrs, Gap, ParseElement, Matches;
    var more := tag.tail + ([b] + after);
    JunkHead(tag.attrs, tag.tail, b, after);
    var t, e := ReadsTagName(s, q, tag.lead, tag.name, AttrsText(tag.attrs, 0, more));
    NoneMatched(s, tag.attrs, cfg);
    var read, at := ReadAttrs(s, e, cfg, [], tag.attrs, 0, more);
    JunkEnds(s, at, cfg, read, tag.tail, b, after);
    AttrsFail(s, q, cfg, depth, t, e, ParsingElement);
  }

  lemma JunkHead(attrs: seq<LAttr>, tail: Bytes, b: byte, after: Bytes)
    requires GoodAttrs(attrs) && Gap(tail) && !NameByte(b)
    ensures var text := AttrsText(attrs, 0, tail + ([b] + after)); text != [] && !IsNameChar(text[0])
  {
    var more := tail + ([b] + after);
    ClassesAre(b);
    if attrs != [] {
      AttrsHead(attrs, more);
    } else if tail != [] {
      ClassesAre(tail[0]);
      assert more[0] == tail[0];
    } else {
      assert more[0] == b;
    }
  }

  lemma JunkEnds(s: Bytes, at: nat, cfg: Config, read: seq<Attr>, tail: Bytes, b: byte, after: Bytes)
    requires at <= |s| && s[at..] == tail + ([b] + after) && Gap(tail) && AttrsIn(s, read)
    requires !Blank(b) && !NameByte(b) && b != GT && (b == SLASH ==> after == [] || after[0] != GT)
    ensures ParseAttrs(s, at, cfg, read) == BadTag(ParsingElement)
  {
    hide SkipSpace;
    ClassesAre(b);
    SkipGap(s, at, tail, [b] + after);
    var p := at + |tail|;
    ByteAt(s, p, b, after);
    if p + 1 < |s| {
      assert s[p + 1] == s[p + 1..][0] == after[0];
    }
  }

  lemma BadAttrFails(s: Bytes, q: nat, cfg: Config, depth: nat, f: Fault)
    requires f.BadAttr? && GoodFault(f, [], [], false, false, depth) && depth < MAX_DEPTH && 0 < q <= |s|
    requires var a := f.attr;
      s[q..] == f.tag.lead + (f.tag.name + AttrsText(f.tag.attrs, 0, a.gap + (a.name + DefectText(a, f.defect))))
    ensures ParseElement(s, q, cfg, depth) == NodeError(ParsingAttribute)
  {
    hide SkipSpace, NameEnd, ParseAttrs, ParseAttr, AttrsText, GoodName, GoodAttrs, Gap, ParseElement, Matches;
    hide DefectText;
    var a, tag := f.attr, f.tag;
    var more := a.gap + (a.name + DefectText(a, f.defect));
    BadAttrHead(tag.attrs, a, DefectText(a, f.defect));
    var t, e := ReadsTagName(s, q, tag.lead, tag.name, AttrsText(tag.attrs, 0, more));
    NoneMatched(s, tag.attrs, cfg);
    var read, at := ReadAttrs(s, e, cfg, [], tag.attrs, 0, more);
    DefectiveAttr(s, at, cfg, a, f.defect);
    NextAttr(s, at, cfg, read);
    AttrsFail(s, q, cfg, depth, t, e, ParsingAttribute);
  }

  lemma BadAttrHead(attrs: seq<LAttr>, a: LAttr, rest: Bytes)
    requires GoodAttrs(attrs) && GoodAttr(a) && (attrs == [] ==> a.gap != [])
    ensures var text := AttrsText(attrs, 0, a.gap + (a.name + rest)); text != [] && !IsNameChar(text[0])
  {
    var more := a.gap + (a.name + rest);
    if attrs != [] {
      AttrsHead(attrs, more);
    } else {
      ClassesAre(a.gap[0]);
      assert more[0] == a.gap[0];
    }
  }

  lemma DefectiveAttr(s: Bytes, p: nat, cfg: Config, a: LAttr, d: Defect)
    requires p <= |s| && s[p..] == a.gap + (a.name + DefectText(a, d)) && GoodAttr(a)
    requires d.NoEquals? ==> !Blank(d.b) && !NameByte(d.b) && d.b != EQ
    requires d.NoQuote? ==> !Blank(d.b) && d.b != QUOTE && d.b != APOS
    ensures var at := SkipSpace(s, p); at < |s| && IsNameStart(s[at]) && ParseAttr(s, at, cfg) == NoAttr
  {
    hide SkipSpace, NameEnd, GoodName, Gap, ParseAttr, DefectText;
    NameHead(a.name);
    DefectHead(a, d);
    SkipGap(s, p, a.gap, a.name + DefectText(a, d));
    var at := p + |a.gap|;
    ReadName(s, at, a.name, DefectText(a, d));
    NoAttrIs(s, at, cfg, a, d);
  }

  lemma DefectHead(a: LAttr, d: Defect)
    requires Gap(a.left) && (d.NoEquals? ==> !NameByte(d.b))
    ensures DefectText(a, d) != [] && !IsNameChar(DefectText(a, d)[0])
  {
    var text := DefectText(a, d);
    assert Ascii("=") == [EQ];
    if a.left != [] {
      ClassesAre(a.left[0]);
      assert text[0] == a.left[0];
    } else if d.NoEquals? {
      ClassesAre(d.b);
    }
  }

  lemma WithoutEquals(s: Bytes, p: nat, cfg: Config, q: nat)
    requires p < |s| && IsNameStart(s[p]) && SkipSpace(s, NameEnd(s, p)) == q < |s| && s[q] != EQ
    ensures ParseAttr(s, p, cfg) == NoAttr
  {
    hide SkipSpace, NameEnd, Find;
  }

  lemma WithoutValue(s: Bytes, p: nat, cfg: Config, q: nat, v: nat)
    requires p < |s| && IsNameStart(s[p]) && SkipSpace(s, NameEnd(s, p)) == q < |s| && s[q] == EQ
    requires SkipSpace(s, q + 1) == v < |s|
    requires (s[v] != QUOTE && s[v] != APOS) || Find(s, v + 1, [s[v]]) == |s|
    ensures ParseAttr(s, p, cfg) == NoAttr
  {
    hide SkipSpace, NameEnd, Find;
  }

  lemma SkipsTo(s: Bytes, e: nat, g: Bytes, rest: Bytes)
    requires e <= |s| && s[e..] == g + rest && Gap(g) && rest != [] && !IsSpace(rest[0])
    ensures var q := e + |g|; SkipSpace(s, e) == q < |s| && s[q] == rest[0] && s[q..] == rest && s[q + 1..] == rest[1..]
  {
    hide SkipSpace, Gap, IsSpace;
    SkipGap(s, e, g, rest);
    var q := e + |g|;
    HeadAt(s, q, rest);
    assert s[q + 1..] == s[q..][1..];
  }

  lemma BehindEquals(s: Bytes, e: nat, a: LAttr, value: Bytes)
    requires e <= |s| && s[e..] == a.left + ([EQ] + (a.right + value)) && Gap(a.left) && Gap(a.right)
    requires value != [] && !IsSpace(value[0])
    ensures var q, v := e + |a.left|, e + |a.left| + 1 + |a.right|;
      && SkipSpace(s, e) == q < |s| && s[q] == EQ
      && SkipSpace(s, q + 1) == v < |s| && s[v] == value[0] && s[v + 1..] == value[1..]
  {
    hide SkipSpace, Gap;
    var rest := [EQ] + (a.right + value);
    assert rest[1..] == a.right + value;
    SkipsTo(s, e, a.left, rest);
    SkipsTo(s, e + |a.left| + 1, a.right, value);
  }

  lemma NoEqualsIs(s: Bytes, at: nat, cfg: Config, left: Bytes, b: byte, after: Bytes)
    requires at < |s| && IsNameStart(s[at]) && s[NameEnd(s, at)..] == left + ([b] + after)
    requires Gap(left) && !Blank(b) && b != EQ
    ensures ParseAttr(s, at, cfg) == NoAttr
  {
    hide SkipSpace, NameEnd, Gap, ParseAttr;
    var e := NameEnd(s, at);
    ClassesAre(b);
    SkipGap(s, e, left, [b] + after);
    HeadAt(s, e + |left|, [b] + after);
    WithoutEquals(s, at, cfg, e + |left|);
  }

  lemma NoQuoteIs(s: Bytes, at: nat, cfg: Config, a: LAttr, b: byte, after: Bytes)
    requires at < |s| && IsNameStart(s[at]) && s[NameEnd(s, at)..] == a.left + ([EQ] + (a.right + ([b] + after)))
    requires Gap(a.left) && Gap(a.right) && !Blank(b) && b != QUOTE && b != APOS
    ensures ParseAttr(s, at, cfg) == NoAttr
  {
    hide SkipSpace, NameEnd, Gap, ParseAttr;
    var e := NameEnd(s, at);
    ClassesAre(b);
    BehindEquals(s, e, a, [b] + after);
    WithoutValue(s, at, cfg, e + |a.left|, e + |a.left| + 1 + |a.right|);
  }

  lemma NoEndIs(s: Bytes, at: nat, cfg: Config, a: LAttr)
    requires at < |s| && IsNameStart(s[at]) && s[NameEnd(s, at)..] == a.left + ([EQ] + (a.right + ([a.quote] + a.raw)))
    requires Gap(a.left) && Gap(a.right) && (a.quote == QUOTE || a.quote == APOS) && a.quote !in a.raw
    ensures ParseAttr(s, at, cfg) == NoAttr
  {
    hide SkipSpace, NameEnd, Gap, ParseAttr, Find, Lacks;
    var e := NameEnd(s, at);
    var v := e + |a.left| + 1 + |a.right|;
    BehindEquals(s, e, a, [a.quote] + a.raw);
    assert ([a.quote] + a.raw)[1..] == a.raw;
    LacksByteOf(a.raw, a.quote);
    FindNone(s, v + 1, a.raw, [a.quote]);
    WithoutValue(s, at, cfg, e + |a.left|, v);
  }

  lemma DefectIs(a: LAttr, d: Defect)
    ensures DefectText(a, d) ==
      match d
      case NoEquals(b, after) => a.left + ([b] + after)
      case NoQuote(b, after) => a.left + ([EQ] + (a.right + ([b] + after)))
      case NoEnd => a.left + ([EQ] + (a.right + ([a.quote] + a.raw)))
  {
    assert Ascii("=") == [EQ];
  }

  lemma NoAttrIs(s: Bytes, at: nat, cfg: Config, a: LAttr, d: Defect)
    requires at < |s| && IsNameStart(s[at]) && s[NameEnd(s, at)..] == DefectText(a, d) && GoodAttr(a)
    requires d.NoEquals? ==> !Blank(d.b) && d.b != EQ
    requires d.NoQuote? ==> !Blank(d.b) && d.b != QUOTE && d.b != APOS
    ensures ParseAttr(s, at, cfg) == NoAttr
  {
    hide NameEnd, GoodName, Gap, ParseAttr, DefectText;
    DefectIs(a, d);
    match d
    case NoEquals(b, after) => NoEqualsIs(s, at, cfg, a.left, b, after);
    case NoQuote(b, after) => NoQuoteIs(s, at, cfg, a, b, after);
    case NoEnd => NoEndIs(s, at, cfg, a);
  }

  lemma AttrsHead(attrs: seq<LAttr>, more: Bytes)
    requires attrs != [] && GoodAttrs(attrs)
    ensures AttrsText(attrs, 0, more) != [] && !IsNameChar(AttrsText(attrs, 0, more)[0])
  {
    hide EqualsText;
    assert GoodAttr(attrs[0]);
    ClassesAre(attrs[0].gap[0]);
    assert AttrsText(attrs, 0, more)[0] == attrs[0].gap[0];
  }

  lemma AlreadyThere(s: Bytes, read: seq<Attr>, attrs: seq<LAttr>, cfg: Config, name: Bytes)
    requires Matches(s, read, attrs, |attrs|, cfg) && exists i :: 0 <= i < |attrs| && attrs[i].name == name
    ensures AttrsIn(s, read) && HasAttr(s, read, name)
  {
    var i :| 0 <= i < |attrs| && attrs[i].name == name;
    assert Raw(s, read[i].name) == name;
  }

  // ---------------------------------------------------------------- a fault in a list

  lemma TagSplits(o: OpenTag, rest: Bytes)
    ensures TagText(o, rest) == [LT] + (o.lead + (o.name + AttrsText(o.attrs, 0, o.tail + ([GT] + rest))))
  {
    assert Ascii("<") == [LT] && Ascii(">") == [GT];
  }

  /** An open tag: what the list behind it makes of its element. */
  lemma OpenTagFails(
      s: Bytes, p: nat, cfg: Config, depth: nat, document: bool, first: bool, read: seq<Node>, g: Bytes, o: OpenTag,
      rest: Bytes) returns (next: nat)
    requires p <= |s| && s[p..] == g + TagText(o, rest) && Gap(g) && GoodTag(o) && depth < MAX_DEPTH
    ensures next <= |s| && s[next..] == rest
    ensures var r, loop := ParseList(s, next, cfg, depth, false), ParseLoop(s, p, cfg, depth, document, first, read);
      && (next == |s| ==> loop == Failed(MismatchedElement))
      && (next < |s| && r.Failed? ==> loop == Failed(r.error))
      && (next < |s| && r.Ended? ==> loop == Failed(Parsing))
      && (next < |s| && r.Closed? && Raw(s, r.name) != o.name ==> loop == Failed(MismatchedElement))
  {
    hide SkipSpace, NameEnd, ParseAttrs, ParseElement, ParseList, ParseLoop, Identify, Gap, GoodName, GoodAttrs;
    hide AttrsText;
    TagSplits(o, rest);
    var end := [GT] + rest;
    assert end[1..] == rest;
    TagBegins(o.lead, o.name, AttrsText(o.attrs, 0, o.tail + end));
    FindsTag(s, p, cfg, first, g, o.lead + (o.name + AttrsText(o.attrs, 0, o.tail + end)));
    var q := p + |g| + 1;
    var t, e, attrs, at := ReadsOpenTag(s, q, cfg, o.lead, o.name, o.attrs, o.tail, end);
    next := at;
    ListFails(s, q, cfg, depth, t, e, attrs, next);
    var r := ParseElement(s, q, cfg, depth);
    if r.NodeError? {
      LoopFails(s, p, cfg, depth, document, first, read, Found(AnElement, q), r.error);
    }
  }

  lemma FaultBegins(f: Fault, items: seq<Item>, gap: Bytes, document: bool, pedantic: bool, depth: nat)
    requires GoodFault(f, items, gap, document, pedantic, depth) && !f.EndlessText?
    ensures TagFollows(FaultText(f))
  {
    hide AttrsText, ItemsText, CloseText, Lacks, GoodLevel, GoodAttrs;
    FaultMarks();
    match f
    case EndlessRemark(_) =>
    case EndlessCData(_) =>
    case EndlessDecl(_) =>
    case EndlessDtd(_) =>
    case LateDecl(_, _) =>
    case Nameless(_, _) =>
    case SameName(_, _, _) =>
    case Junk(_, _, _) =>
    case BadAttr(_, _, _) =>
    case TooDeep(_, _) =>
    case Unclosed(_, _, _) =>
    case WrongClose(_, _, _, _, _, _, _) =>
  }

  /** A list of children up to what follows them. */
  lemma ReadsKids(s: Bytes, p: nat, cfg: Config, depth: nat, items: seq<Item>, gap: Bytes, rest: Bytes)
    returns (kids: seq<Node>, q: nat, first: bool)
    requires GoodLevel(items, gap, false, cfg.whitespace == Pedantic, depth + 1)
    requires EndsInText(items) ==> TagFollows(rest)
    requires p <= |s| && s[p..] == ItemsText(items, 0, rest)
    ensures q <= |s| && s[q..] == rest && TreesOf(s, kids) == ItemsMean(items, cfg) && (first <==> items == [])
    ensures ParseList(s, p, cfg, depth, false) == ParseLoop(s, q, cfg, depth + 1, false, first, kids)
  {
    hide ParseLoop, ItemsText, TreesOf, ItemsMean, GoodItems, Gap, DeclsFirst;
    NoTrees(s);
    assert ItemsMean(items, cfg)[..0] == [];
    ListIsLoop(s, p, cfg, depth);
    kids, q, first := ReadsItems(s, p, cfg, depth + 1, false, true, [], items, 0, gap, rest);
  }

  lemma NothingMore(s: Bytes, q: nat, cfg: Config, depth: nat, first: bool, kids: seq<Node>)
    requires q <= |s| && SkipSpace(s, q) == |s| && depth < MAX_DEPTH
    ensures ParseLoop(s, q, cfg, depth, false, first, kids) == Ended(kids)
  {
  }

  lemma NonEmpty(items: seq<Item>, gap: Bytes, rest: Bytes, pedantic: bool)
    requires GoodItems(items, gap, pedantic) && (items == [] ==> rest != [])
    ensures ItemsText(items, 0, rest) != []
  {
    hide LaidText;
    if items != [] {
      var n, more := items[0].node, ItemsText(items, 1, rest);
      assert Good(n, pedantic);
      if n.LText? {
        TextIs(n, more, items[0].gap);
        var i :| 0 <= i < |n.raw| && !Blank(n.raw[i]);
      } else {
        TagStarts(n, more);
      }
    }
  }

  lemma UnclosedFails(
      s: Bytes, p: nat, cfg: Config, depth: nat, document: bool, first: bool, read: seq<Node>, g: Bytes, f: Fault)
    requires f.Unclosed? && GoodFault(f, [], g, document, cfg.whitespace == Pedantic, depth) && Gap(g)
    requires p <= |s| && s[p..] == g + FaultText(f) && depth < MAX_DEPTH
    ensures ParseLoop(s, p, cfg, depth, document, first, read) == Failed(ErrorOf(f))
  {
    hide ParseLoop, ParseList, ItemsText, TagText, GoodItems, Gap, SkipSpace, GoodTag, DeclsFirst, TreesOf, ItemsMean;
    var next := OpenTagFails(s, p, cfg, depth, document, first, read, g, f.tag, ItemsText(f.items, 0, f.gap));
    if f.items == [] && f.gap == [] {
      NoItems(f.gap);
    } else {
      NonEmpty(f.items, f.gap, f.gap, cfg.whitespace == Pedantic);
      var kids, q, first' := ReadsKids(s, next, cfg, depth, f.items, f.gap, f.gap);
      assert f.gap + [] == f.gap;
      SkipGap(s, q, f.gap, []);
      NothingMore(s, q, cfg, depth + 1, first', kids);
    }
  }

  lemma NoItems(rest: Bytes)
    ensures ItemsText([], 0, rest) == rest
  {
  }

  lemma WrongCloseFails(
      s: Bytes, p: nat, cfg: Config, depth: nat, document: bool, first: bool, read: seq<Node>, g: Bytes, f: Fault)
    requires f.WrongClose? && GoodFault(f, [], g, document, cfg.whitespace == Pedantic, depth) && Gap(g)
    requires p <= |s| && s[p..] == g + FaultText(f) && depth < MAX_DEPTH
    ensures ParseLoop(s, p, cfg, depth, document, first, read) == Failed(MismatchedElement)
  {
    hide ParseLoop, ParseList, ItemsText, TagText, GoodItems, Gap, GoodTag, GoodName, CloseText, DeclsFirst, Identify;
    hide ParseElement, TreesOf, ItemsMean;
    var close := CloseText(f.other, f.slash, f.close, f.after);
    var next := OpenTagFails(s, p, cfg, depth, document, first, read, g, f.tag, ItemsText(f.items, 0, f.gap + close));
    CloseFollows(f.other, f.slash, f.close, f.after);
    NonEmpty(f.items, f.gap, f.gap + close, cfg.whitespace == Pedantic);
    NoGapBehindText(f.items, f.gap, cfg.whitespace == Pedantic);
    var kids, q, first' := ReadsKids(s, next, cfg, depth, f.items, f.gap, f.gap + close);
    var from, after := ReadsClose(s, q, cfg, first', depth + 1, f.gap, f.other, f.slash, f.close, f.after);
    LoopCloses(s, q, cfg, depth + 1, first', kids, q + |f.gap| + 1);
  }

  lemma NoGapBehindText(items: seq<Item>, gap: Bytes, pedantic: bool)
    requires GoodItems(items, gap, pedantic)
    ensures EndsInText(items) ==> gap == []
    ensures gap == [] ==> forall rest: Bytes :: gap + rest == rest
  {
    hide Good;
  }

  lemma TooDeepFails(
      s: Bytes, p: nat, cfg: Config, depth: nat, document: bool, first: bool, read: seq<Node>, g: Bytes, f: Fault)
    requires f.TooDeep? && GoodFault(f, [], g, document, cfg.whitespace == Pedantic, depth) && Gap(g)
    requires p <= |s| && s[p..] == g + FaultText(f) && depth < MAX_DEPTH
    ensures ParseLoop(s, p, cfg, depth, document, first, read) == Failed(DepthExceeded)
  {
    hide ParseLoop, ParseList, TagText, Gap, GoodTag;
    var next := OpenTagFails(s, p, cfg, depth, document, first, read, g, f.tag, f.after);
    ListIsLoop(s, next, cfg, depth);
  }

  /** What stands behind the name of a faulty tag. */
  function BehindName(f: Fault): Bytes
    requires f.SameName? || f.Junk? || f.BadAttr?
  {
    AttrsText(f.tag.attrs, 0,
      match f
      case SameName(_, again, after) => AttrText(again, after)
      case Junk(tag, b, after) => tag.tail + ([b] + after)
      case BadAttr(_, attr, defect) => attr.gap + (attr.name + DefectText(attr, defect)))
  }

  lemma BehindNameFails(s: Bytes, q: nat, cfg: Config, depth: nat, f: Fault)
    requires f.SameName? || f.Junk? || f.BadAttr?
    requires GoodFault(f, [], [], false, false, depth) && depth < MAX_DEPTH
    requires 0 < q <= |s| && s[q..] == f.tag.lead + (f.tag.name + BehindName(f))
    ensures ParseElement(s, q, cfg, depth) == NodeError(ErrorOf(f))
  {
    hide ParseElement, Gap, AttrsText, AttrText, DefectText, GoodName, GoodAttr, GoodAttrs;
    FaultBytes();
    match f
    case SameName(_, _, _) => SameNameFails(s, q, cfg, depth, f.tag, f.again, f.after);
    case Junk(_, _, _) => JunkFails(s, q, cfg, depth, f.tag, f.b, f.after);
    case BadAttr(_, _, _) => BadAttrFails(s, q, cfg, depth, f);
  }

  lemma BadTagText(f: Fault)
    requires f.SameName? || f.Junk? || f.BadAttr?
    ensures FaultText(f) == [LT] + (f.tag.lead + (f.tag.name + BehindName(f)))
  {
    hide AttrsText, AttrText, DefectText, Ascii;
    FaultBytes();
  }

  lemma BadTagFails(
      s: Bytes, p: nat, cfg: Config, depth: nat, document: bool, first: bool, read: seq<Node>, g: Bytes, f: Fault)
    requires f.SameName? || f.Junk? || f.BadAttr?
    requires p <= |s| && s[p..] == g + FaultText(f) && Gap(g) && depth < MAX_DEPTH
    requires GoodFault(f, [], [], false, false, depth)
    ensures ParseLoop(s, p, cfg, depth, document, first, read) == Failed(ErrorOf(f))
  {
    hide ParseLoop, ParseElement, ParseLeaf, Identify, Gap, FaultText, BehindName, GoodFault, ErrorOf;
    BadTagText(f);
    TagIsGood(f, depth);
    var q, text := p + |g| + 1, f.tag.lead + (f.tag.name + BehindName(f));
    TagBegins(f.tag.lead, f.tag.name, BehindName(f));
    FindsTag(s, p, cfg, first, g, text);
    BehindNameFails(s, q, cfg, depth, f);
    LoopFails(s, p, cfg, depth, document, first, read, Found(AnElement, q), ErrorOf(f));
  }

  lemma NamelessLoop(
      s: Bytes, p: nat, cfg: Config, depth: nat, document: bool, first: bool, read: seq<Node>, g: Bytes, b: byte,
      after: Bytes)
    requires p <= |s| && s[p..] == g + ([LT] + ([b] + after)) && Gap(g) && depth < MAX_DEPTH
    requires !Blank(b) && !NameStart(b) && b != SLASH && b != BANG && b != QUERY
    ensures ParseLoop(s, p, cfg, depth, document, first, read) == Failed(Parsing)
  {
    hide ParseLoop, ParseElement, ParseLeaf, Identify, Gap;
    FindsTag(s, p, cfg, first, g, [b] + after);
    NamelessFails(s, p + |g| + 1, cfg, depth, b, after);
    LoopFails(s, p, cfg, depth, document, first, read, Found(AnElement, p + |g| + 1), Parsing);
  }

  /** The fault itself, behind nodes that have been read. */
  lemma FaultFails(
      s: Bytes, p: nat, cfg: Config, depth: nat, document: bool, first: bool, read: seq<Node>,
      items: seq<Item>, g: Bytes, f: Fault)
    requires p <= |s| && s[p..] == g + FaultText(f) && Gap(g) && depth < MAX_DEPTH
    requires GoodFault(f, items, g, document, cfg.whitespace == Pedantic, depth)
    requires TreesOf(s, read) == ItemsMean(items, cfg)
    ensures ParseLoop(s, p, cfg, depth, document, first, read) == Failed(ErrorOf(f))
  {
    hide ParseLoop, ParseElement, ParseLeaf, Identify, ItemsText, TagText, Gap, GoodTag, LaidText, Lacks, Ascii;
    hide AttrsText, AttrText, GoodLevel, TreesOf, ItemsMean, OnlyDeclarations;
    match f
    case EndlessRemark(_) => MarkFails(s, p, cfg, depth, document, first, read, g, f);
    case EndlessCData(_) => MarkFails(s, p, cfg, depth, document, first, read, g, f);
    case EndlessDecl(_) => MarkFails(s, p, cfg, depth, document, first, read, g, f);
    case EndlessDtd(_) => MarkFails(s, p, cfg, depth, document, first, read, g, f);
    case EndlessText(raw) =>
      assert [] + raw == raw;
      FaultBytes();
      EndlessTextFails(s, p, cfg, first, raw);
      LoopFails(s, p, cfg, depth, document, first, read, Found(SomeText, p), ParsingText);
    case LateDecl(raw, after) =>
      if document {
        NotOnlyBefore(s, read, items, cfg);
      }
      LateDeclFails(s, p, cfg, depth, document, first, read, g, raw, after);
    case Nameless(b, after) =>
      FaultBytes();
      NamelessLoop(s, p, cfg, depth, document, first, read, g, b, after);
    case SameName(_, _, _) => BadTagFails(s, p, cfg, depth, document, first, read, g, f);
    case Junk(_, _, _) => BadTagFails(s, p, cfg, depth, document, first, read, g, f);
    case BadAttr(_, _, _) => BadTagFails(s, p, cfg, depth, document, first, read, g, f);
    case TooDeep(_, _) => TooDeepFails(s, p, cfg, depth, document, first, read, g, f);
    case Unclosed(_, _, _) => UnclosedFails(s, p, cfg, depth, document, first, read, g, f);
    case WrongClose(_, _, _, _, _, _, _) => WrongCloseFails(s, p, cfg, depth, document, first, read, g, f);
  }

  lemma TagIsGood(f: Fault, depth: nat)
    requires (f.SameName? || f.Junk? || f.BadAttr?) && GoodFault(f, [], [], false, false, depth)
    ensures Gap(f.tag.lead) && GoodName(f.tag.name)
  {
  }

  lemma FaultBytes()
    ensures GT == '>' as int && EQ == '=' as int && QUOTE == '\"' as int && APOS == '\'' as int
    ensures Ascii("<") == [LT] && LT == '<' as int && SLASH == '/' as int && BANG == '!' as int && QUERY == '?' as int
  {
  }

  lemma MarkFails(
      s: Bytes, p: nat, cfg: Config, depth: nat, document: bool, first: bool, read: seq<Node>, g: Bytes, f: Fault)
    requires p <= |s| && s[p..] == g + FaultText(f) && Gap(g) && depth < MAX_DEPTH
    requires f.EndlessRemark? || f.EndlessCData? || f.EndlessDecl? || f.EndlessDtd?
    requires GoodFault(f, [], g, document, cfg.whitespace == Pedantic, depth)
    ensures ParseLoop(s, p, cfg, depth, document, first, read) == Failed(ErrorOf(f))
  {
    hide ParseLoop, ParseElement, ParseLeaf, Identify, FaultText, Lacks, Ascii;
    EndlessMark(s, p, cfg, first, g, f);
    LoopFails(s, p, cfg, depth, document, first, read, Identify(s, p, cfg, first), ErrorOf(f));
  }

  // ---------------------------------------------------------------- at any nesting

  lemma TagFollowing(o: OpenTag, rest: Bytes)
    requires GoodTag(o)
    ensures TagFollows(TagText(o, rest))
  {
    hide AttrsText, Gap, GoodAttrs;
    TagSplits(o, rest);
  }

  lemma FaultFollows(f: Fault, items: seq<Item>, gap: Bytes, document: bool, pedantic: bool, depth: nat)
    requires GoodFault(f, items, gap, document, pedantic, depth)
    ensures FaultText(f) != [] && (EndsInText(items) ==> TagFollows(FaultText(f)))
  {
    hide GoodTag, GoodLevel, Lacks, ItemsText, TagText, LaidText, AttrsText;
    if f.EndlessText? {
      var i :| 0 <= i < |f.raw| && !Blank(f.raw[i]);
    } else {
      FaultBegins(f, items, gap, document, pedantic, depth);
    }
  }

  lemma PathNonEmpty(path: Path, document: bool, pedantic: bool, depth: nat)
    requires GoodPath(path, document, pedantic, depth)
    ensures PathText(path) != []
  {
    hide GoodFault, GoodItems, GoodTag, FaultText, TagText, ItemsText;
    if path.Here? {
      FaultFollows(path.fault, path.items, path.gap, document, pedantic, depth);
      NonEmpty(path.items, path.gap, path.gap + FaultText(path.fault), pedantic);
    } else {
      TagFollowing(path.tag, PathText(path.inner));
      NonEmpty(path.items, path.gap, path.gap + TagText(path.tag, PathText(path.inner)), pedantic);
    }
  }

  /** In a list that leads to the fault the loop fails with its error. */
  lemma {:induction false} PathFails(s: Bytes, p: nat, cfg: Config, depth: nat, document: bool, path: Path)
    requires GoodPath(path, document, cfg.whitespace == Pedantic, depth) && depth < MAX_DEPTH
    requires p <= |s| && s[p..] == PathText(path)
    ensures ParseLoop(s, p, cfg, depth, document, true, []) == Failed(ErrorOf(FaultOf(path)))
    decreases path
  {
    hide ParseLoop, ParseList, ItemsText, TagText, FaultText, GoodFault, GoodTag, GoodItems, Gap, DeclsFirst, ErrorOf;
    hide TreesOf, ItemsMean, LaidText, TagFollows;
    var pedantic := cfg.whitespace == Pedantic;
    var rest := if path.Here? then FaultText(path.fault) else TagText(path.tag, PathText(path.inner));
    NoTrees(s);
    assert ItemsMean(path.items, cfg)[..0] == [];
    NoGapBehindText(path.items, path.gap, pedantic);
    if path.Here? {
      FaultFollows(path.fault, path.items, path.gap, document, pedantic, depth);
    } else {
      TagFollowing(path.tag, PathText(path.inner));
    }
    var nodes, q, first := ReadsItems(s, p, cfg, depth, document, true, [], path.items, 0, path.gap, path.gap + rest);
    if path.Here? {
      FaultFails(s, q, cfg, depth, document, first, nodes, path.items, path.gap, path.fault);
    } else {
      var next := OpenTagFails(s, q, cfg, depth, document, first, nodes, path.gap, path.tag, PathText(path.inner));
      PathNonEmpty(path.inner, false, pedantic, depth + 1);
      ListIsLoop(s, next, cfg, depth);
      PathFails(s, next, cfg, depth + 1, false, path.inner);
    }
  }

  /**
   A document with a fault is rejected with the error of that fault: behind any nodes, inside any open
   elements, and whatever comes after it. `lead` is the white space the text starts with.
   */
  lemma FaultIsReported(lead: Bytes, bom: bool, path: Path, cfg: Config)
    requires Gap(lead) && GoodPath(path, true, cfg.whitespace == Pedantic, 1)
    requires bom || Starts(PathText(path))
    ensures var s := lead + ((if bom then [0xEF, 0xBB, 0xBF] else []) + PathText(path));
      ParseDocument(s, cfg) == Rejected(ErrorOf(FaultOf(path)))
  {
    hide ParseLoop, ParseDocument, PathText, GoodPath, Gap, ErrorOf, FaultOf, SkipSpace, StartsAt;
    var text := PathText(path);
    PathIsNonEmpty(path, cfg.whitespace == Pedantic);
    if bom {
      BehindBom(lead, text, cfg);
      PathFails(lead + (BOM + text), |lead| + 3, cfg, 1, true, path);
    } else {
      AtOnce(lead, text, cfg);
      PathFails(lead + ([] + text), |lead|, cfg, 1, true, path);
    }
  }

  /** Neither white space nor a byte order mark. */
  predicate Starts(text: Bytes) { text != [] && !Blank(text[0]) && text[0] != 0xEF }

  lemma AtOnce(lead: Bytes, text: Bytes, cfg: Config)
    requires Gap(lead) && Starts(text)
    ensures var s := lead + ([] + text);
      s[|lead|..] == text && ParseDocument(s, cfg) == DocumentOf(ParseLoop(s, |lead|, cfg, 1, true, true, []))
  {
    hide ParseLoop, ParseDocument, Gap, SkipSpace, StartsAt;
    var s := lead + ([] + text);
    assert s[0..] == lead + text && s[|lead|..] == text;
    ClassesAre(text[0]);
    SkipGap(s, 0, lead, text);
    HeadAt(s, |lead|, text);
    NotStart(s, |lead|, BOM, 0);
    DocumentIs(s, cfg, |lead|, |lead|);
  }

  lemma BehindBom(lead: Bytes, text: Bytes, cfg: Config)
    requires Gap(lead) && text != []
    ensures var s := lead + (BOM + text);
      && |lead| + 3 < |s| && s[|lead| + 3..] == text
      && ParseDocument(s, cfg) == DocumentOf(ParseLoop(s, |lead| + 3, cfg, 1, true, true, []))
  {
    hide ParseLoop, ParseDocument, Gap, SkipSpace, StartsAt;
    var s := lead + (BOM + text);
    assert s[0..] == s && (BOM + text)[0] == 0xEF;
    SkipGap(s, 0, lead, BOM + text);
    Advance(s, |lead|, BOM, text);
    DocumentIs(s, cfg, |lead|, |lead| + 3);
  }

  lemma PathIsNonEmpty(path: Path, pedantic: bool)
    requires GoodPath(path, true, pedantic, 1)
    ensures PathText(path) != []
  {
    PathNonEmpty(path, true, pedantic, 1);
  }

  /** A text of white space, with or without a byte order mark, is no document. */
  lemma BlankIsEmpty(lead: Bytes, bom: bool, cfg: Config)
    requires Gap(lead)
    ensures ParseDocument(lead + if bom then [0xEF, 0xBB, 0xBF] else [], cfg) == Rejected(EmptyDocument)
  {
    hide SkipSpace, ParseList;
    var mark: Bytes := if bom then [0xEF, 0xBB, 0xBF] else [];
    var s := lead + mark;
    assert s[0..] == s;
    SkipGap(s, 0, lead, mark);
    if bom {
      assert s[|lead|..|lead| + 3] == BOM;
    }
  }
}
