/** Parsing undoes the compact printer, which uses one layout of the many. */
module RoundTrip {
  import opened XmlBytes
  import opened Decode
  import opened Escape
  import opened XmlParser
  import opened XmlTree
  import opened Layout

  /** The settings under which printed text is read back unchanged. */
  predicate Lossless(cfg: Config) { cfg.entities && cfg.whitespace != CollapseSpace }

  // ---------------------------------------------------------------- the printer's layout

  function CompactAttr(name: Bytes, value: Bytes, apos: bool): LAttr {
    LAttr([SPACE], name, [], [], QUOTE, Escaped(value, 0, Attribute(apos)))
  }

  function CompactAttrs(attrs: seq<(Bytes, Bytes)>, apos: bool): (r: seq<LAttr>)
    ensures |r| == |attrs|
  {
    seq(|attrs|, i requires 0 <= i < |attrs| => CompactAttr(attrs[i].0, attrs[i].1, apos))
  }

  function Compact(t: Tree, apos: bool): Laid {
    match t
    case Elem(name, attrs, kids) =>
      LElem([], name, CompactAttrs(attrs, apos), [],
        if kids == [] then Sealed else Content(CompactItems(kids, apos), [], [], []))
    case Txt(text) => LText(Escaped(text, 0, Escape.Text))
    case Cdata(text) => LCdata(text)
    case Remark(text) => LRemark(text)
    case Decl(text) => LDecl(text)
    case Dtd(text) => LDtd(text)
  }

  function CompactItems(ts: seq<Tree>, apos: bool): (r: seq<Item>)
    ensures |r| == |ts| && forall i :: 0 <= i < |ts| ==> r[i].gap == [] && r[i].node == Compact(ts[i], apos)
  {
    seq(|ts|, i requires 0 <= i < |ts| => Item([], Compact(ts[i], apos)))
  }

  // ---------------------------------------------------------------- its text

  lemma AttrIsText(name: Bytes, value: Bytes, apos: bool, rest: Bytes)
    ensures AttrText(CompactAttr(name, value, apos), rest) == PrintAttr(name, value, apos) + rest
  {
    hide Escaped;
    assert Ascii("=") == [EQ];
    var v := Escaped(value, 0, Attribute(apos));
    assert [] + ([EQ] + ([] + ([QUOTE] + (v + ([QUOTE] + rest))))) == [EQ, QUOTE] + v + [QUOTE] + rest;
  }

  lemma {:induction false} AttrsAreText(attrs: seq<(Bytes, Bytes)>, k: nat, apos: bool, rest: Bytes)
    requires k <= |attrs|
    ensures AttrsText(CompactAttrs(attrs, apos), k, rest) == PrintAttrs(attrs, k, apos) + rest
    decreases |attrs| - k
  {
    hide AttrText, PrintAttr;
    if k == |attrs| {
      assert [] + rest == rest;
    } else {
      AttrsAreText(attrs, k + 1, apos, rest);
      AttrIsText(attrs[k].0, attrs[k].1, apos, PrintAttrs(attrs, k + 1, apos) + rest);
      Regroup(PrintAttr(attrs[k].0, attrs[k].1, apos), PrintAttrs(attrs, k + 1, apos), rest, []);
    }
  }

  lemma CloseIsText(name: Bytes, rest: Bytes)
    ensures [] + CloseText(name, [], [], rest) == CloseTagText(name) + rest
  {
    assert Ascii("<") == [LT] && Ascii("/") == [SLASH] && Ascii(">") == [GT];
    assert [LT] + ([] + ([SLASH] + (name + ([] + ([GT] + rest))))) == [LT, SLASH] + name + [GT] + rest;
  }

  lemma {:induction false} BodyIsText(t: Tree, apos: bool, rest: Bytes)
    requires t.Elem?
    ensures BodyText(t.name, Compact(t, apos).body, rest) == PrintBody(t, apos) + rest
    decreases t, 1
  {
    hide CloseText, CloseTagText, ItemsText, PrintTrees;
    if t.kids == [] {
      assert Ascii("/>") == [SLASH, GT];
    } else {
      assert Ascii(">") == [GT];
      CloseIsText(t.name, rest);
      var kids, close := PrintTrees(t.kids, 0, apos), CloseTagText(t.name);
      ItemsAreText(t.kids, 0, apos, close + rest);
      Regroup([GT], kids, close, rest);
      Regroup(kids, close, rest, []);
    }
  }

  lemma {:induction false} TreeIsText(t: Tree, apos: bool, rest: Bytes)
    ensures LaidText(Compact(t, apos), rest) == PrintTree(t, apos) + rest
    decreases t, 2
  {
    hide AttrsText, BodyText, PrintAttrs, PrintBody, Escaped, Ascii, CompactAttrs, CompactItems;
    PrintMarks();
    match t
    case Elem(name, attrs, kids) =>
      var body := PrintBody(t, apos);
      BodyIsText(t, apos, rest);
      assert [] + BodyText(name, Compact(t, apos).body, rest) == body + rest;
      AttrsAreText(attrs, 0, apos, body + rest);
      var all := PrintAttrs(attrs, 0, apos);
      assert [LT] + ([] + (name + (all + (body + rest)))) == [LT] + name + (all + body) + rest;
    case Txt(text) =>
    case Cdata(text) => Regroup(CDATA_OPEN, text, CDATA_CLOSE, rest);
    case Remark(text) => Regroup(COMMENT_OPEN, text, COMMENT_CLOSE, rest);
    case Decl(text) => Regroup(DECLARATION_OPEN, text, DECLARATION_CLOSE, rest);
    case Dtd(text) => Regroup(UNKNOWN_OPEN, text, [GT], rest);
  }

  lemma PrintMarks()
    ensures Ascii("<") == [LT] && Ascii(">") == [GT] && Ascii("<!") == UNKNOWN_OPEN
    ensures Ascii("<![CDATA[") == CDATA_OPEN && Ascii("]]>") == CDATA_CLOSE
    ensures Ascii("<!--") == COMMENT_OPEN && Ascii("-->") == COMMENT_CLOSE
    ensures Ascii("<?") == DECLARATION_OPEN && Ascii("?>") == DECLARATION_CLOSE
  {
  }

  lemma {:induction false} ItemsAreText(ts: seq<Tree>, k: nat, apos: bool, rest: Bytes)
    requires k <= |ts|
    ensures ItemsText(CompactItems(ts, apos), k, rest) == PrintTrees(ts, k, apos) + rest
    decreases ts, 0, |ts| - k
  {
    hide LaidText, PrintTree, Compact;
    if k == |ts| {
      assert [] + rest == rest;
    } else {
      ItemsAreText(ts, k + 1, apos, rest);
      var more := PrintTrees(ts, k + 1, apos) + rest;
      TreeIsText(ts[k], apos, more);
      Regroup(PrintTree(ts[k], apos), PrintTrees(ts, k + 1, apos), rest, []);
      assert [] + LaidText(Compact(ts[k], apos), more) == LaidText(Compact(ts[k], apos), more);
    }
  }

  // ---------------------------------------------------------------- its meaning

  lemma NameIsGood(name: Bytes)
    ensures ValidName(name) <==> GoodName(name)
  {
    forall i | 0 <= i < |name|
      ensures IsNameChar(name[i]) <==> NameByte(name[i])
    {
      ClassesAre(name[i]);
    }
    if name != [] {
      ClassesAre(name[0]);
    }
  }

  lemma AttrsAreGood(attrs: seq<(Bytes, Bytes)>, apos: bool)
    requires ValidAttrs(attrs)
    ensures GoodAttrs(CompactAttrs(attrs, apos))
  {
    hide Escaped, ValidName, GoodName, Plain;
    var laid := CompactAttrs(attrs, apos);
    forall i | 0 <= i < |attrs|
      ensures GoodAttr(laid[i])
    {
      NameIsGood(attrs[i].0);
      EscapedIsClean(attrs[i].1, 0, Attribute(apos));
    }
  }

  lemma AttrsMeaning(attrs: seq<(Bytes, Bytes)>, cfg: Config, apos: bool)
    requires ValidAttrs(attrs) && Lossless(cfg)
    ensures AttrsMean(CompactAttrs(attrs, apos), cfg) == attrs
  {
    hide Escaped, Value, ValidName;
    forall i | 0 <= i < |attrs|
      ensures Value(Escaped(attrs[i].1, 0, Attribute(apos)), AttrMode(cfg)) == attrs[i].1
    {
      ValueOfEscaped(attrs[i].1, Attribute(apos));
    }
  }

  lemma {:induction false} LinesAreKept(v: Bytes, p: nat)
    requires p <= |v| && Plain(v)
    ensures DecodeFrom(v, p, v[..p], LINES) == v
    decreases |v| - p
  {
    if p < |v| {
      assert v[..p] + [v[p]] == v[..p + 1];
      LinesAreKept(v, p + 1);
    } else {
      assert v[..p] == v;
    }
  }

  lemma LinesValue(v: Bytes)
    requires Plain(v)
    ensures Value(v, LINES) == v
  {
    assert v[..0] == [];
    LinesAreKept(v, 0);
    CStrIs(v, v);
  }

  lemma {:induction false} EscapedNonBlank(v: Bytes, k: nat) returns (i: nat)
    requires k <= |v| && SkipSpace(v, k) < |v|
    ensures i < |Escaped(v, k, Escape.Text)| && !IsSpace(Escaped(v, k, Escape.Text)[i])
    decreases |v| - k
  {
    if IsSpace(v[k]) {
      i := EscapedNonBlank(v, k + 1);
      i := i + 1;
    } else {
      i := 0;
    }
  }

  lemma TextIsGood(text: Bytes)
    requires SkipSpace(text, 0) < |text|
    ensures Good(LText(Escaped(text, 0, Escape.Text)), true)
  {
    hide Escaped;
    EscapedIsClean(text, 0, Escape.Text);
    var i := EscapedNonBlank(text, 0);
    ClassesAre(Escaped(text, 0, Escape.Text)[i]);
  }

  lemma DtdMarks()
    ensures Ascii("--") == COMMENT_OPEN[2..] && Ascii("[CDATA[") == CDATA_OPEN[2..]
  {
  }

  lemma {:induction false} CompactIsGood(t: Tree, apos: bool, pedantic: bool)
    requires Valid(t)
    ensures Good(Compact(t, apos), pedantic)
    decreases t, 1
  {
    hide Escaped, ValidAttrs, CompactAttrs, GoodAttrs, ValidName, GoodName, Ascii, GoodItems, CompactItems, ValidList;
    PrintMarks();
    match t
    case Elem(name, attrs, kids) =>
      NameIsGood(name);
      AttrsAreGood(attrs, apos);
      NoGap();
      ItemsAreGood(kids, apos, pedantic);
    case Txt(text) => TextIsGood(text);
    case Cdata(_) =>
    case Remark(_) =>
    case Decl(_) =>
    case Dtd(_) => DtdMarks();
  }

  lemma {:induction false} ItemsAreGood(ts: seq<Tree>, apos: bool, pedantic: bool)
    requires ValidList(ts)
    ensures GoodItems(CompactItems(ts, apos), [], pedantic)
    ensures forall i :: 0 <= i < |ts| ==> (CompactItems(ts, apos)[i].node.LDecl? <==> ts[i].Decl?)
    ensures forall i :: 0 <= i < |ts| ==> (CompactItems(ts, apos)[i].node.LText? <==> ts[i].Txt?)
    decreases ts, 0
  {
    hide Good, Valid;
    NoGap();
    forall i | 0 <= i < |ts|
      ensures Good(CompactItems(ts, apos)[i].node, pedantic)
    {
      CompactIsGood(ts[i], apos, pedantic);
    }
  }

  lemma {:induction false} CompactMeaning(t: Tree, cfg: Config, apos: bool)
    requires Valid(t) && Lossless(cfg)
    ensures Means(Compact(t, apos), cfg) == t
    decreases t, 1
  {
    hide Escaped, Value, ValidAttrs, CompactAttrs, AttrsMean, CompactItems, ItemsMean, ValidList, ValidName;
    match t
    case Elem(name, attrs, kids) =>
      AttrsMeaning(attrs, cfg, apos);
      ItemsMeaning(kids, cfg, apos);
    case Txt(text) => ValueOfEscaped(text, Escape.Text);
    case Cdata(text) => LinesValue(text);
    case Remark(text) => LinesValue(text);
    case Decl(text) => LinesValue(text);
    case Dtd(text) => LinesValue(text);
  }

  lemma {:induction false} ItemsMeaning(ts: seq<Tree>, cfg: Config, apos: bool)
    requires ValidList(ts) && Lossless(cfg)
    ensures ItemsMean(CompactItems(ts, apos), cfg) == ts
    decreases ts, 0
  {
    hide Means, Valid, Compact;
    forall i | 0 <= i < |ts|
      ensures ItemsMean(CompactItems(ts, apos), cfg)[i] == ts[i]
    {
      MeansAt(CompactItems(ts, apos), cfg, i);
      CompactMeaning(ts[i], cfg, apos);
    }
  }

  lemma {:induction false} CompactDepth(t: Tree, apos: bool)
    ensures Depth(Compact(t, apos)) == Height(t)
    decreases t, 1
  {
    hide CompactItems, MaxHeight, DepthOf;
    if t.Elem? && t.kids != [] {
      ItemsDepth(t.kids, apos);
    }
  }

  lemma {:induction false} ItemsDepth(ts: seq<Tree>, apos: bool)
    ensures DepthOf(CompactItems(ts, apos)) == MaxHeight(ts)
    decreases ts, 0
  {
    hide Compact, Height, Depth;
    var items := CompactItems(ts, apos);
    forall i | 0 <= i < |ts|
      ensures Depth(items[i].node) == Height(ts[i])
    {
      CompactDepth(ts[i], apos);
    }
    if ts != [] {
      var i := DepthReached(items);
      var j := HeightReached(ts);
      assert ts[i] in ts && Height(ts[i]) <= MaxHeight(ts);
      assert Depth(items[j].node) <= DepthOf(items);
    }
  }

  lemma {:induction false} DepthReached(items: seq<Item>) returns (i: nat)
    requires items != []
    ensures i < |items| && Depth(items[i].node) == DepthOf(items)
  {
    hide Depth;
    i := |items| - 1;
    var rest := items[..i];
    if rest != [] && Depth(items[i].node) < DepthOf(rest) {
      i := DepthReached(rest);
      assert rest[i] == items[i];
    }
  }

  lemma {:induction false} HeightReached(ts: seq<Tree>) returns (i: nat)
    requires ts != []
    ensures i < |ts| && Height(ts[i]) == MaxHeight(ts)
  {
    hide Height;
    i := 0;
    if ts[1..] != [] && Height(ts[0]) < MaxHeight(ts[1..]) {
      i := HeightReached(ts[1..]);
      assert ts[1..][i] == ts[i + 1];
      i := i + 1;
    }
  }

  // ---------------------------------------------------------------- documents

  lemma CompactDocument(ts: seq<Tree>, cfg: Config, apos: bool, rest: Bytes)
    requires ValidDocument(ts) && MaxHeight(ts) <= 498 && Lossless(cfg)
    ensures GoodDocument(CompactItems(ts, apos), cfg.whitespace == Pedantic)
    ensures ItemsMean(CompactItems(ts, apos), cfg) == ts
    ensures DocText([], false, CompactItems(ts, apos), rest) == PrintTrees(ts, 0, apos) + rest
  {
    hide CompactItems, GoodItems, ItemsText, ItemsMean, PrintTrees, DepthOf, MaxHeight, ValidList;
    ItemsAreGood(ts, apos, cfg.whitespace == Pedantic);
    ItemsDepth(ts, apos);
    ItemsMeaning(ts, cfg, apos);
    ItemsAreText(ts, 0, apos, rest);
  }

  /**
   Parsing the compact print of a non-empty list of trees gives the same trees with the same
   decoded values. Elements with children are nested at most 498 deep.
   */
  lemma DocumentRoundTrip(ts: seq<Tree>, cfg: Config, apos: bool)
    requires ValidDocument(ts) && MaxHeight(ts) <= 498 && Lossless(cfg)
    ensures var s := PrintTrees(ts, 0, apos);
      var d := ParseDocument(s, cfg);
      d.Accepted? && TreesOf(s, d.kids) == ts
  {
    hide ParseDocument, CompactItems, GoodDocument, ItemsMean, PrintTrees, DocText, TreesOf;
    CompactDocument(ts, cfg, apos, []);
    NoGap();
    LaidIsRead([], false, CompactItems(ts, apos), [], cfg);
    assert PrintTrees(ts, 0, apos) + [] == PrintTrees(ts, 0, apos);
  }

  /** Different documents have different prints. */
  lemma PrintIsInjective(ts: seq<Tree>, us: seq<Tree>, apos: bool)
    requires ValidDocument(ts) && MaxHeight(ts) <= 498
    requires ValidDocument(us) && MaxHeight(us) <= 498
    requires PrintTrees(ts, 0, apos) == PrintTrees(us, 0, apos)
    ensures ts == us
  {
    hide PrintTrees, ParseDocument, TreesOf, ValidList, MaxHeight;
    var cfg := Config(true, Preserve);
    DocumentRoundTrip(ts, cfg, apos);
    DocumentRoundTrip(us, cfg, apos);
  }

  // ---------------------------------------------------------------- closing tags that close nothing

  /** A "/" and a name, and then attributes up to a ">": what makes a tag with its "<" before p a closing one. */
  predicate ClosesAt(s: Bytes, p: nat, cfg: Config)
    requires p <= |s|
  {
    var t := SkipSpace(s, p);
    && t + 1 < |s| && s[t] == SLASH && IsNameStart(s[t + 1])
    && var tag := ParseAttrs(s, NameEnd(s, t + 1), cfg, []);
       tag.Tag? && !tag.sealed
  }

  lemma ClosesIff(s: Bytes, q: nat, cfg: Config, depth: nat)
    requires 0 < q <= |s| && depth < MAX_DEPTH
    ensures ParseElement(s, q, cfg, depth).CloseTag? <==> ClosesAt(s, q, cfg)
  {
    hide SkipSpace, NameEnd, ParseAttrs, ParseList;
  }

  /** From p on there is white space only, or a closing tag comes first. */
  predicate EndsDocument(s: Bytes, p: nat, cfg: Config)
    requires p <= |s|
  {
    var q := SkipSpace(s, p);
    q == |s| || (s[q] == LT && ClosesAt(s, q + 1, cfg))
  }

  lemma {:induction false} LoopKeeps(
      s: Bytes, p: nat, cfg: Config, depth: nat, document: bool, first: bool, kids: seq<Node>)
    requires p <= |s| && depth < MAX_DEPTH
    ensures var r := ParseLoop(s, p, cfg, depth, document, first, kids);
      !r.Failed? ==> kids <= r.kids
    decreases |s| - p
  {
    hide Identify, ParseElement, ParseLeaf;
    var found := Identify(s, p, cfg, first);
    if found.Found? {
      var r := if found.kind == AnElement then ParseElement(s, found.at, cfg, depth)
               else ParseLeaf(s, found.at, found.kind, cfg);
      if r.Parsed? {
        LoopKeeps(s, r.p, cfg, depth, document, false, kids + [r.node]);
      }
    }
  }

  lemma ClosingByte(s: Bytes, p: nat, cfg: Config)
    requires p <= |s| && ClosesAt(s, p, cfg)
    ensures p < |s| && s[p] != QUERY && s[p] != BANG
  {
    hide ParseAttrs, NameEnd;
    assert !IsSpace(QUERY) && !IsSpace(BANG);
  }

  /** "<" and a "/" with nothing but spaces between them start an element, not a mark. */
  lemma FoundClosing(s: Bytes, p: nat, cfg: Config)
    requires p <= |s|
    ensures var found, q := Identify(s, p, cfg, false), SkipSpace(s, p);
      && (found.Nothing? <==> q == |s|)
      && (found.Found? && found.kind == AnElement ==> s[q] == LT && found.at == q + 1)
      && (q < |s| && s[q] == LT && ClosesAt(s, q + 1, cfg) ==> found == Found(AnElement, q + 1))
  {
    hide ClosesAt, SkipSpace, StartsAt;
    var q := SkipSpace(s, p);
    if q < |s| && s[q] == LT && ClosesAt(s, q + 1, cfg) {
      ClosingByte(s, q + 1, cfg);
      NotStart(s, q, DECLARATION_OPEN, 1);
      NotStart(s, q, COMMENT_OPEN, 1);
      NotStart(s, q, CDATA_OPEN, 1);
      NotStart(s, q, UNKNOWN_OPEN, 1);
    }
  }

  lemma EndIff(s: Bytes, p: nat, cfg: Config, nodes: seq<Node>)
    requires p <= |s|
    ensures var r := ParseLoop(s, p, cfg, 1, true, false, nodes);
      (!r.Failed? && |r.kids| == |nodes| <==> EndsDocument(s, p, cfg)) && (!r.Failed? ==> nodes <= r.kids)
  {
    hide Identify, ParseElement, ParseLeaf, ClosesAt, SkipSpace;
    FoundClosing(s, p, cfg);
    LoopKeeps(s, p, cfg, 1, true, false, nodes);
    var found := Identify(s, p, cfg, false);
    if found.Found? {
      var r := if found.kind == AnElement then ParseElement(s, found.at, cfg, 1)
               else ParseLeaf(s, found.at, found.kind, cfg);
      if found.kind == AnElement {
        ClosesIff(s, found.at, cfg, 1);
      }
      if r.Parsed? {
        LoopKeeps(s, r.p, cfg, 1, true, false, nodes + [r.node]);
      }
    }
  }

  /**
   What follows a printed document is ignored exactly when it is white space or starts, after
   white space, with a closing tag: that ends the document without an error, whatever comes next.
   */
  lemma TailIgnoredIff(ts: seq<Tree>, cfg: Config, apos: bool, rest: Bytes)
    requires ValidDocument(ts) && MaxHeight(ts) <= 498 && Lossless(cfg)
    ensures var s := PrintTrees(ts, 0, apos) + rest;
      var d := ParseDocument(s, cfg);
      d.Accepted? && TreesOf(s, d.kids) == ts <==> EndsDocument(s, |PrintTrees(ts, 0, apos)|, cfg)
  {
    hide ParseLoop, ParseDocument, CompactItems, GoodDocument, ItemsMean, PrintTrees, DocText, EndsDocument;
    var s := PrintTrees(ts, 0, apos) + rest;
    CompactDocument(ts, cfg, apos, rest);
    NoGap();
    var nodes, q := ReadsDocument([], false, CompactItems(ts, apos), rest, cfg);
    assert q == |PrintTrees(ts, 0, apos)|;
    EndIff(s, q, cfg, nodes);
    var r := ParseLoop(s, q, cfg, 1, true, false, nodes);
    assert !r.Failed? && |r.kids| == |nodes| ==> r.kids == nodes;
  }

  /** In particular a stray closing tag is, with all that follows it. */
  lemma StrayClosingTag(ts: seq<Tree>, cfg: Config, apos: bool, name: Bytes, rest: Bytes)
    requires ValidDocument(ts) && MaxHeight(ts) <= 498 && Lossless(cfg) && ValidName(name)
    ensures var s := PrintTrees(ts, 0, apos) + (CloseTagText(name) + rest);
      var d := ParseDocument(s, cfg);
      d.Accepted? && TreesOf(s, d.kids) == ts
  {
    hide PrintTrees, ParseDocument, ValidList, MaxHeight, TreesOf, ParseElement, ClosesAt, CloseTagText, CloseText;
    var close := CloseTagText(name) + rest;
    var s := PrintTrees(ts, 0, apos) + close;
    var q := |PrintTrees(ts, 0, apos)|;
    assert s[q..] == close;
    CloseIsText(name, rest);
    NoGap();
    NameIsGood(name);
    var at, next := ReadsClose(s, q, cfg, false, 1, [], name, [], [], rest);
    FoundClosing(s, q, cfg);
    ClosesIff(s, q + 1, cfg, 1);
    TailIgnoredIff(ts, cfg, apos, close);
  }

  /** Even after a "/" a sealed tag is an element. */
  lemma SealedIs(s: Bytes, q: nat, cfg: Config, depth: nat, e: nat, next: nat)
    requires 0 < q < |s| && depth < MAX_DEPTH && SkipSpace(s, q) == q && s[q] == SLASH
    requires q + 1 < e <= |s| && IsNameStart(s[q + 1]) && NameEnd(s, q + 1) == e
    requires ParseAttrs(s, e, cfg, []) == Tag([], next, true)
    ensures var name := Slice(q + 1, e, NAME_MODE);
      ParseElement(s, q, cfg, depth) == Parsed(Element(q - 1, name, [], [], SelfClosed(next)), next)
  {
    hide SkipSpace, NameEnd, ParseAttrs, ParseList;
  }

  lemma NoBlank(s: Bytes, p: nat)
    requires p < |s| && !IsSpace(s[p])
    ensures SkipSpace(s, p) == p
  {
  }

  lemma SealedText(s: Bytes, p: nat, name: Bytes, end: Bytes)
    requires p <= |s| && s[p..] == [SLASH] + (name + end) && GoodName(name) && EndsTag(end)
    ensures p < |s| && SkipSpace(s, p) == p && s[p] == SLASH && name != []
    ensures var e := p + 1 + |name|;
      e <= |s| && IsNameStart(s[p + 1]) && NameEnd(s, p + 1) == e && s[p + 1..e] == name && s[e..] == end
  {
    hide NameEnd, SkipSpace, GoodName;
    ByteAt(s, p, SLASH, name + end);
    NoBlank(s, p);
    NameHead(name);
    ReadName(s, p + 1, name, end);
  }

  lemma SealedEnd(s: Bytes, e: nat, cfg: Config, rest: Bytes)
    requires e <= |s| && s[e..] == [SLASH, GT] + rest
    ensures e + 2 <= |s| && ParseAttrs(s, e, cfg, []) == Tag([], e + 2, true) && s[e + 2..] == rest
  {
    hide SkipSpace;
    Advance(s, e, [SLASH, GT], rest);
    assert s[e] == s[e..][0] && s[e + 1] == s[e..][1];
    NoBlank(s, e);
    TagEnds(s, e, cfg, []);
  }

  /** A closing tag that is sealed is read as an element without content. */
  lemma SealedCloseTag(s: Bytes, p: nat, cfg: Config, depth: nat, name: Bytes, rest: Bytes) returns (e: nat, next: nat)
    requires GoodName(name) && depth < MAX_DEPTH
    requires p <= |s| && s[p..] == [SLASH] + (name + ([SLASH, GT] + rest)) && 0 < p
    ensures p + 1 <= e <= |s| && s[p + 1..e] == name && next <= |s| && s[next..] == rest
    ensures ParseElement(s, p, cfg, depth) ==
      Parsed(Element(p - 1, Slice(p + 1, e, NAME_MODE), [], [], SelfClosed(next)), next)
  {
    hide NameEnd, SkipSpace, ParseAttrs, ParseElement, GoodName, EndsTag;
    var end := [SLASH, GT] + rest;
    assert EndsTag(end) by { SealEnds(rest); }
    SealedText(s, p, name, end);
    e := p + 1 + |name|;
    SealedEnd(s, e, cfg, rest);
    next := e + 2;
    SealedIs(s, p, cfg, depth, e, next);
  }

  lemma SealEnds(rest: Bytes)
    ensures EndsTag([SLASH, GT] + rest)
  {
  }

  lemma SealedMeans(s: Bytes, n: Node, name: Bytes)
    requires n.Element? && n.attrs == [] && n.kids == [] && n.name.mode == NAME_MODE
    requires InText(s, n.name) && Raw(s, n.name) == name && GoodName(name)
    ensures TreeOf(s, n) == Elem(name, [], [])
  {
    hide Value, GoodName;
    NameValue(name);
    assert AttrValues(s, []) == [];
  }

  function SealedTag(name: Bytes): Bytes { Ascii("</") + name + Ascii("/>") }

  lemma SealedTagIs(name: Bytes)
    ensures var s := SealedTag(name);
      |s| > 1 && s[0] == LT && s[1] == SLASH && s[1..] == [SLASH] + (name + ([SLASH, GT] + []))
  {
    assert Ascii("</") == [LT, SLASH] && Ascii("/>") == [SLASH, GT];
  }

  /** "</name/>" is a document of one element. */
  lemma SealedClosingTag(name: Bytes, cfg: Config)
    requires ValidName(name)
    ensures var d := ParseDocument(SealedTag(name), cfg);
      d.Accepted? && TreesOf(SealedTag(name), d.kids) == [Elem(name, [], [])]
  {
    hide ParseElement, TreeOf, TreesOf, Identify, ParseDocument, ParseLoop, SkipSpace, StartsAt, SealedTag, ValidName;
    var s := SealedTag(name);
    SealedTagIs(name);
    NameIsGood(name);
    NoBlank(s, 0);
    NotStart(s, 0, BOM, 0);
    DocumentIs(s, cfg, 0, 0);
    NoOtherMark(s, 0, 0, cfg, true);
    var e, next := SealedCloseTag(s, 1, cfg, 1, name, []);
    var r := ParseElement(s, 1, cfg, 1);
    SealedMeans(s, r.node, name);
    LoopReads(s, 0, cfg, 1, true, true, [], Found(AnElement, 1), r);
    assert [] + [r.node] == [r.node];
    NothingLeft(s, |s|, cfg, [r.node]);
    TreesOfMore(s, [], r.node);
    NoTrees(s);
  }
}
