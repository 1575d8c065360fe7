/**
 Documents in any layout: white space between and inside tags, either quote, sealed or empty
 elements, strings as they stand in the text. The parser reads every one of them as what it means.
 */
module Layout {
  import opened XmlBytes
  import opened Decode
  import opened Escape
  import opened XmlParser
  import opened XmlTree

  // ---------------------------------------------------------------- laid-out documents

  /** gap, name, white space around "=", the quote and the text between the quotes. */
  datatype LAttr = LAttr(gap: Bytes, name: Bytes, left: Bytes, right: Bytes, quote: byte, raw: Bytes)

  /**
   `lead` stands between "<" and the name, `tail` before the end of the tag. The text of a leaf is
   what stands between its marks.
   */
  datatype Laid =
    | LElem(lead: Bytes, name: Bytes, attrs: seq<LAttr>, tail: Bytes, body: Body)
    | LText(raw: Bytes)
    | LCdata(raw: Bytes)
    | LRemark(raw: Bytes)
    | LDecl(raw: Bytes)
    | LDtd(raw: Bytes)

  /** Sealed, or children and a closing tag: `gap` before it, `slash` and `close` inside it. */
  datatype Body = Sealed | Content(items: seq<Item>, gap: Bytes, slash: Bytes, close: Bytes)

  /** A node and the white space before it. */
  datatype Item = Item(gap: Bytes, node: Laid)

  // ---------------------------------------------------------------- their text, followed by `rest`

  function ValueText(a: LAttr, rest: Bytes): Bytes { [a.quote] + (a.raw + ([a.quote] + rest)) }

  function EqualsText(a: LAttr, rest: Bytes): Bytes { a.left + (Ascii("=") + (a.right + ValueText(a, rest))) }

  function AttrText(a: LAttr, rest: Bytes): Bytes { a.gap + (a.name + EqualsText(a, rest)) }

  /** attrs[k..]. */
  function AttrsText(attrs: seq<LAttr>, k: nat, rest: Bytes): Bytes
    requires k <= |attrs|
    decreases |attrs| - k
  {
    if k == |attrs| then rest else AttrText(attrs[k], AttrsText(attrs, k + 1, rest))
  }

  function CloseEnd(close: Bytes, rest: Bytes): Bytes { close + (Ascii(">") + rest) }

  function CloseName(name: Bytes, close: Bytes, rest: Bytes): Bytes { Ascii("/") + (name + CloseEnd(close, rest)) }

  function CloseText(name: Bytes, slash: Bytes, close: Bytes, rest: Bytes): Bytes {
    Ascii("<") + (slash + CloseName(name, close, rest))
  }

  function BodyText(name: Bytes, body: Body, rest: Bytes): Bytes
    decreases body, 1
  {
    match body
    case Sealed => Ascii("/>") + rest
    case Content(items, gap, slash, close) =>
      Ascii(">") + ItemsText(items, 0, gap + CloseText(name, slash, close, rest))
  }

  function LaidText(n: Laid, rest: Bytes): Bytes
    decreases n, 1
  {
    match n
    case LElem(lead, name, attrs, tail, body) =>
      Ascii("<") + (lead + (name + AttrsText(attrs, 0, tail + BodyText(name, body, rest))))
    case LText(raw) => raw + rest
    case LCdata(raw) => Ascii("<![CDATA[") + (raw + (Ascii("]]>") + rest))
    case LRemark(raw) => Ascii("<!--") + (raw + (Ascii("-->") + rest))
    case LDecl(raw) => Ascii("<?") + (raw + (Ascii("?>") + rest))
    case LDtd(raw) => Ascii("<!") + (raw + (Ascii(">") + rest))
  }

  /** items[k..]. */
  function ItemsText(items: seq<Item>, k: nat, rest: Bytes): Bytes
    requires k <= |items|
    decreases items, 0, |items| - k
  {
    if k == |items| then rest else items[k].gap + LaidText(items[k].node, ItemsText(items, k + 1, rest))
  }

  // ---------------------------------------------------------------- what they mean

  ghost function AttrsMean(attrs: seq<LAttr>, cfg: Config): (r: seq<(Bytes, Bytes)>)
    ensures |r| == |attrs|
  {
    seq(|attrs|, i requires 0 <= i < |attrs| => (attrs[i].name, Value(attrs[i].raw, AttrMode(cfg))))
  }

  /** The strings are read in the mode of their place. */
  ghost function Means(n: Laid, cfg: Config): Tree {
    match n
    case LElem(_, name, attrs, _, body) =>
      Elem(name, AttrsMean(attrs, cfg), if body.Sealed? then [] else ItemsMean(body.items, cfg))
    case LText(raw) => Txt(Value(raw, TextMode(cfg)))
    case LCdata(raw) => Cdata(Value(raw, LINES))
    case LRemark(raw) => Remark(Value(raw, LINES))
    case LDecl(raw) => Decl(Value(raw, LINES))
    case LDtd(raw) => Dtd(Value(raw, LINES))
  }

  ghost function ItemsMean(items: seq<Item>, cfg: Config): (r: seq<Tree>)
    ensures |r| == |items|
  {
    if items == [] then []
    else ItemsMean(items[..|items| - 1], cfg) + [Means(items[|items| - 1].node, cfg)]
  }

  // ---------------------------------------------------------------- which layouts there are

  predicate Blank(b: byte) { b == ' ' as int || '\t' as int <= b <= '\r' as int }

  predicate NameStart(b: byte) {
    b >= 128 || 'A' as int <= b <= 'Z' as int || 'a' as int <= b <= 'z' as int || b == ':' as int || b == '_' as int
  }

  predicate NameByte(b: byte) {
    NameStart(b) || '0' as int <= b <= '9' as int || b == '.' as int || b == '-' as int
  }

  ghost predicate Gap(g: Bytes) { forall i :: 0 <= i < |g| ==> Blank(g[i]) }

  ghost predicate GoodName(name: Bytes) {
    name != [] && NameStart(name[0]) && forall i :: 0 <= i < |name| ==> NameByte(name[i])
  }

  ghost predicate GoodAttr(a: LAttr) {
    && Gap(a.gap) && GoodName(a.name) && Gap(a.left) && Gap(a.right)
    && (a.quote == '\"' as int || a.quote == '\'' as int) && a.quote !in a.raw
  }

  /** Different names, and white space before the first one. */
  ghost predicate GoodAttrs(attrs: seq<LAttr>) {
    && (forall i :: 0 <= i < |attrs| ==> GoodAttr(attrs[i]))
    && (forall i, j :: 0 <= i < j < |attrs| ==> attrs[i].name != attrs[j].name)
    && (attrs != [] ==> attrs[0].gap != [])
  }

  /** In pedantic mode white space alone between two tags is text. */
  ghost predicate Good(n: Laid, pedantic: bool) {
    match n
    case LElem(lead, name, attrs, tail, body) =>
      Gap(lead) && GoodName(name) && GoodAttrs(attrs) && Gap(tail) && GoodBody(body, pedantic)
    case LText(raw) => '<' as int !in raw && exists i :: 0 <= i < |raw| && !Blank(raw[i])
    case LCdata(raw) => Lacks(raw, Ascii("]]>"))
    case LRemark(raw) => Lacks(raw, Ascii("-->"))
    case LDecl(raw) => Lacks(raw, Ascii("?>"))
    case LDtd(raw) => '>' as int !in raw && !(Ascii("--") <= raw) && !(Ascii("[CDATA[") <= raw)
  }

  ghost predicate GoodBody(body: Body, pedantic: bool) {
    match body
    case Sealed => true
    case Content(items, gap, slash, close) =>
      && GoodItems(items, gap, pedantic) && Gap(gap) && Gap(slash) && Gap(close)
      && (forall i :: 0 <= i < |items| ==> !items[i].node.LDecl?)
      && (pedantic && items == [] ==> gap == [])
  }

  /** White space next to text would belong to it, and so would text next to text. */
  ghost predicate GoodItems(items: seq<Item>, end: Bytes, pedantic: bool) {
    && (forall i :: 0 <= i < |items| ==>
         Good(items[i].node, pedantic) && Gap(items[i].gap) && (items[i].node.LText? ==> items[i].gap == []))
    && (forall i :: 0 <= i < |items| - 1 ==> items[i].node.LText? ==>
         items[i + 1].gap == [] && !items[i + 1].node.LText?)
    && (items != [] && items[|items| - 1].node.LText? ==> end == [])
  }

  /** How deep elements that are not sealed nest. */
  function Depth(n: Laid): nat {
    if n.LElem? && n.body.Content? then 1 + DepthOf(n.body.items) else 0
  }

  function DepthOf(items: seq<Item>): (r: nat)
    ensures forall i :: 0 <= i < |items| ==> Depth(items[i].node) <= r
  {
    if items == [] then 0
    else
      var d, r := Depth(items[|items| - 1].node), DepthOf(items[..|items| - 1]);
      assert forall i :: 0 <= i < |items| - 1 ==> items[i] == items[..|items| - 1][i];
      if d < r then r else d
  }

  // ---------------------------------------------------------------- characters

  lemma ClassesAre(b: byte)
    ensures (Blank(b) <==> IsSpace(b)) && (NameStart(b) <==> IsNameStart(b)) && (NameByte(b) <==> IsNameChar(b))
  {
  }

  lemma ByteAt(s: Bytes, p: nat, b: byte, rest: Bytes)
    requires p <= |s| && s[p..] == [b] + rest
    ensures p < |s| && s[p] == b && s[p + 1..] == rest
  {
    Advance(s, p, [b], rest);
    assert s[p] == s[p..][0];
  }

  lemma HeadAt(s: Bytes, p: nat, rest: Bytes)
    requires p <= |s| && s[p..] == rest && rest != []
    ensures p < |s| && s[p] == rest[0]
  {
    assert s[p] == s[p..][0];
  }

  /** White space up to a byte that is none. */
  lemma {:induction false} SkipGap(s: Bytes, p: nat, g: Bytes, rest: Bytes)
    requires p <= |s| && s[p..] == g + rest && Gap(g) && (rest != [] ==> !IsSpace(rest[0]))
    ensures p + |g| <= |s| && s[p + |g|..] == rest && SkipSpace(s, p) == p + |g|
    decreases |g|
  {
    Advance(s, p, g, rest);
    if g == [] {
      if rest != [] {
        HeadAt(s, p, rest);
      }
    } else {
      HeadAt(s, p, g + rest);
      ClassesAre(g[0]);
      assert s[p + 1..] == s[p..][1..] == g[1..] + rest;
      SkipGap(s, p + 1, g[1..], rest);
    }
  }

  lemma ReadName(s: Bytes, p: nat, name: Bytes, rest: Bytes)
    requires p <= |s| && s[p..] == name + rest && GoodName(name)
    requires rest != [] ==> !IsNameChar(rest[0])
    ensures p + |name| <= |s| && NameEnd(s, p) == p + |name| && s[p..p + |name|] == name
    ensures p < |s| && s[p] == name[0] && IsNameStart(s[p]) && s[p + |name|..] == rest
  {
    Advance(s, p, name, rest);
    StartBytes(s, p, name);
    ClassesAre(name[0]);
    forall i | p <= i < p + |name|
      ensures IsNameChar(s[i])
    {
      assert s[i] == name[i - p];
      ClassesAre(name[i - p]);
    }
    if rest != [] {
      HeadAt(s, p + |name|, rest);
    }
    NameEndIs(s, p, p + |name|);
  }

  lemma {:induction false} NameEndIs(s: Bytes, p: nat, e: nat)
    requires p <= e <= |s| && forall i :: p <= i < e ==> IsNameChar(s[i])
    requires e < |s| ==> !IsNameChar(s[e])
    ensures NameEnd(s, p) == e
    decreases e - p
  {
    if p < e {
      NameEndIs(s, p + 1, e);
    }
  }

  lemma NameValue(name: Bytes)
    requires GoodName(name)
    ensures Value(name, NAME_MODE) == name
  {
    assert name[..0] == [];
    NameIsVerbatim(name, 0, []);
    forall i | 0 <= i < |name|
      ensures name[i] != 0
    {
      assert NameByte(name[i]);
    }
    CStrIs(name, name);
  }

  /** A one-byte delimiter that x does not hold. */
  lemma FindByte(s: Bytes, p: nat, x: Bytes, d: byte, rest: Bytes)
    requires p <= |s| && s[p..] == x + ([d] + rest) && d !in x
    ensures Find(s, p, [d]) == p + |x| < |s| && s[p..p + |x|] == x && s[p + |x|..] == [d] + rest
    ensures s[p + |x|] == d && s[p + |x| + 1..] == rest
  {
    Advance(s, p, x, [d] + rest);
    Advance(s, p + |x|, [d], rest);
    ByteAt(s, p + |x|, d, rest);
    StartBytes(s, p, x);
    forall i | p <= i <= p + |x|
      ensures StartsAt(s, i, [d]) <==> i == p + |x|
    {
      ByteStart(s, i, d);
      assert i < p + |x| ==> s[i] == x[i - p] && x[i - p] in x;
    }
  }

  lemma ByteStart(s: Bytes, i: nat, d: byte)
    ensures StartsAt(s, i, [d]) <==> i < |s| && s[i] == d
  {
    if i < |s| {
      assert s[i..i + 1] == [s[i]];
    }
  }

  lemma NotStart(s: Bytes, p: nat, t: Bytes, i: nat)
    requires i < |t| && (p + i < |s| ==> s[p + i] != t[i])
    ensures !StartsAt(s, p, t)
  {
    if p + |t| <= |s| {
      assert s[p..p + |t|][i] == s[p + i];
    }
  }

  /** A closing mark cannot straddle the end of the text before it: its last byte occurs once. */
  predicate IsMark(mark: Bytes) { mark == CDATA_CLOSE || mark == COMMENT_CLOSE || mark == DECLARATION_CLOSE }

  ghost predicate EndsAlone(mark: Bytes) {
    mark != [] && forall j :: 0 <= j < |mark| - 1 ==> mark[j] != mark[|mark| - 1]
  }

  lemma NoEarlyMark(s: Bytes, p: nat, v: Bytes, mark: Bytes, i: nat)
    requires p + |v| <= |s| && s[p..p + |v|] == v && StartsAt(s, p + |v|, mark) && Lacks(v, mark) && EndsAlone(mark)
    requires p <= i < p + |v|
    ensures !StartsAt(s, i, mark)
  {
    var n := |mark|;
    if i + n <= p + |v| {
      SubSlice(s, p, v, i, n);
      assert !StartsAt(v, i - p, mark);
    } else {
      StartBytes(s, p + |v|, mark);
      var j := i + n - 1 - (p + |v|);
      assert mark[j] == s[p + |v| + j];
      NotStart(s, i, mark, n - 1);
    }
  }

  lemma SubSlice(s: Bytes, p: nat, v: Bytes, i: nat, n: nat)
    requires p + |v| <= |s| && s[p..p + |v|] == v && p <= i && i + n <= p + |v|
    ensures s[i..i + n] == v[i - p..i - p + n]
  {
    var a, b := s[i..i + n], v[i - p..i - p + n];
    forall k | 0 <= k < n
      ensures a[k] == b[k]
    {
      assert a[k] == s[i + k] && b[k] == v[i - p + k];
      assert s[p..p + |v|][i - p + k] == s[p + (i - p + k)];
    }
  }

  lemma MarkEndsAlone(mark: Bytes)
    requires IsMark(mark)
    ensures EndsAlone(mark)
  {
  }

  lemma FindMark(s: Bytes, p: nat, v: Bytes, mark: Bytes, rest: Bytes)
    requires p <= |s| && s[p..] == v + (mark + rest) && Lacks(v, mark) && IsMark(mark)
    ensures Find(s, p, mark) == p + |v| < |s| && s[p..p + |v|] == v && s[p + |v| + |mark|..] == rest
  {
    MarkEndsAlone(mark);
    hide IsMark, EndsAlone, Lacks;
    Advance(s, p, v, mark + rest);
    Advance(s, p + |v|, mark, rest);
    forall i | p <= i < p + |v|
      ensures !StartsAt(s, i, mark)
    {
      NoEarlyMark(s, p, v, mark, i);
    }
  }

  // ---------------------------------------------------------------- attributes

  lemma ReadAttrName(s: Bytes, p: nat, a: LAttr, rest: Bytes)
    requires p <= |s| && s[p..] == AttrText(a, rest) && GoodAttr(a)
    ensures var at, e := p + |a.gap|, p + |a.gap| + |a.name|;
      && SkipSpace(s, p) == at < e <= |s| && IsNameStart(s[at]) && NameEnd(s, at) == e && s[at..e] == a.name
      && s[e..] == EqualsText(a, rest)
  {
    hide NameEnd, SkipSpace, GoodName, Gap, EqualsText;
    NameHead(a.name);
    EqualsHead(a, rest);
    SkipGap(s, p, a.gap, a.name + EqualsText(a, rest));
    ReadName(s, p + |a.gap|, a.name, EqualsText(a, rest));
  }

  lemma EqualsHead(a: LAttr, rest: Bytes)
    requires Gap(a.left)
    ensures EqualsText(a, rest) != [] && !IsNameChar(EqualsText(a, rest)[0])
  {
    assert Ascii("=") == [EQ];
    GapHead(a.left, Ascii("=") + (a.right + ValueText(a, rest)), EQ);
  }

  lemma ReadEquals(s: Bytes, e: nat, a: LAttr, rest: Bytes)
    requires e <= |s| && s[e..] == EqualsText(a, rest) && GoodAttr(a)
    ensures var q := e + |a.left|; SkipSpace(s, e) == q < |s| && s[q] == EQ
    ensures var v := e + |a.left| + 1 + |a.right|;
      SkipSpace(s, e + |a.left| + 1) == v <= |s| && s[v..] == ValueText(a, rest)
  {
    hide SkipSpace, Gap, ValueText;
    var value := ValueText(a, rest);
    assert Ascii("=") == [EQ];
    assert value != [] && !IsSpace(value[0]) by { ValueHead(a, rest); }
    SkipGap(s, e, a.left, [EQ] + (a.right + value));
    ByteAt(s, e + |a.left|, EQ, a.right + value);
    SkipGap(s, e + |a.left| + 1, a.right, value);
  }

  lemma ValueHead(a: LAttr, rest: Bytes)
    requires GoodAttr(a)
    ensures ValueText(a, rest) != [] && ValueText(a, rest)[0] == a.quote && !IsSpace(a.quote)
  {
  }

  lemma ReadQuoted(s: Bytes, v: nat, a: LAttr, rest: Bytes)
    requires v <= |s| && s[v..] == ValueText(a, rest) && a.quote !in a.raw
    ensures v < |s| && s[v] == a.quote
    ensures var end := Find(s, v + 1, [a.quote]);
      v + 1 <= end < |s| && s[v + 1..end] == a.raw && s[end + 1..] == rest
  {
    hide Find;
    ByteAt(s, v, a.quote, a.raw + ([a.quote] + rest));
    FindByte(s, v + 1, a.raw, a.quote, rest);
  }

  lemma ReadAttr(s: Bytes, p: nat, cfg: Config, a: LAttr, rest: Bytes)
    requires p <= |s| && s[p..] == AttrText(a, rest) && GoodAttr(a)
    ensures var at := p + |a.gap|; SkipSpace(s, p) == at < |s| && IsNameStart(s[at])
    ensures var r := ParseAttr(s, p + |a.gap|, cfg);
      && r.GotAttr? && s[r.p..] == rest && r.attr.value.mode == AttrMode(cfg)
      && Raw(s, r.attr.name) == a.name && Raw(s, r.attr.value) == a.raw
  {
    hide NameEnd, SkipSpace, Find, GoodName, Gap, ParseAttr, AttrText, EqualsText, ValueText;
    ReadAttrName(s, p, a, rest);
    var e := p + |a.gap| + |a.name|;
    ReadEquals(s, e, a, rest);
    var v := e + |a.left| + 1 + |a.right|;
    ReadQuoted(s, v, a, rest);
    AttrIs(s, p + |a.gap|, cfg, e, e + |a.left|, v);
  }

  lemma NameHead(name: Bytes)
    requires GoodName(name)
    ensures name != [] && !IsSpace(name[0])
  {
    ClassesAre(name[0]);
  }

  /** What starts with white space or a mark does not continue a name. */
  lemma GapHead(g: Bytes, rest: Bytes, b: byte)
    requires Gap(g) && rest != [] && rest[0] == b && (b == EQ || b == SLASH || b == GT)
    ensures g + rest != [] && !IsNameChar((g + rest)[0])
  {
    if g != [] {
      ClassesAre(g[0]);
      assert (g + rest)[0] == g[0];
    } else {
      assert (g + rest)[0] == b;
    }
  }

  lemma AttrIs(s: Bytes, p: nat, cfg: Config, e: nat, q: nat, v: nat)
    requires p < |s| && IsNameStart(s[p]) && NameEnd(s, p) == e && SkipSpace(s, e) == q < |s| && s[q] == EQ
    requires SkipSpace(s, q + 1) == v < |s| && (s[v] == QUOTE || s[v] == APOS) && Find(s, v + 1, [s[v]]) < |s|
    ensures var end := Find(s, v + 1, [s[v]]);
      ParseAttr(s, p, cfg) == GotAttr(Attr(Slice(p, e, NAME_MODE), Slice(v + 1, end, AttrMode(cfg))), end + 1)
  {
    hide NameEnd, SkipSpace, Find;
  }

  /** The attributes read so far are attrs[..k]. */
  ghost predicate Matches(s: Bytes, read: seq<Attr>, attrs: seq<LAttr>, k: nat, cfg: Config) {
    && |read| == k <= |attrs| && AttrsIn(s, read)
    && forall i :: 0 <= i < k ==>
      && Raw(s, read[i].name) == attrs[i].name && read[i].name.mode == NAME_MODE
      && Raw(s, read[i].value) == attrs[i].raw && read[i].value.mode == AttrMode(cfg)
  }

  lemma MatchesMore(s: Bytes, read: seq<Attr>, a: Attr, attrs: seq<LAttr>, k: nat, cfg: Config)
    requires Matches(s, read, attrs, k, cfg) && k < |attrs| && GoodAttrs(attrs)
    requires InText(s, a.name) && InText(s, a.value) && Raw(s, a.name) == attrs[k].name && a.name.mode == NAME_MODE
    requires Raw(s, a.value) == attrs[k].raw && a.value.mode == AttrMode(cfg)
    ensures AttrsIn(s, read) && Matches(s, read + [a], attrs, k + 1, cfg) && !HasAttr(s, read, attrs[k].name)
  {
    hide GoodAttr, Raw;
  }

  lemma MatchesIn(s: Bytes, read: seq<Attr>, attrs: seq<LAttr>, k: nat, cfg: Config)
    requires Matches(s, read, attrs, k, cfg)
    ensures AttrsIn(s, read)
  {
  }

  /** The end of a tag. */
  predicate EndsTag(end: Bytes) { end != [] && (end[0] == GT || (end[0] == SLASH && |end| > 1 && end[1] == GT)) }

  lemma TagEnd(s: Bytes, p: nat, cfg: Config, read: seq<Attr>, tail: Bytes, end: Bytes)
    requires p <= |s| && s[p..] == tail + end && Gap(tail) && EndsTag(end) && AttrsIn(s, read)
    ensures var sealed, q := end[0] == SLASH, p + |tail|;
      && ParseAttrs(s, p, cfg, read) == Tag(read, if sealed then q + 2 else q + 1, sealed)
      && |s| >= q + (if sealed then 2 else 1) && s[if sealed then q + 2 else q + 1..] == end[if sealed then 2 else 1..]
  {
    hide SkipSpace;
    SkipGap(s, p, tail, end);
    var q := p + |tail|;
    HeadAt(s, q, end);
    if end[0] == SLASH {
      assert s[q + 1] == s[q..][1];
    }
  }

  /** Attributes are read one by one, whatever follows them. */
  lemma {:induction false} ReadAttrs(
      s: Bytes, p: nat, cfg: Config, read: seq<Attr>, attrs: seq<LAttr>, k: nat, rest: Bytes)
    returns (all: seq<Attr>, q: nat)
    requires k <= |attrs| && p <= |s| && s[p..] == AttrsText(attrs, k, rest)
    requires GoodAttrs(attrs) && Matches(s, read, attrs, k, cfg)
    ensures Matches(s, all, attrs, |attrs|, cfg) && AttrsIn(s, read) && AttrsIn(s, all)
    ensures q <= |s| && s[q..] == rest && ParseAttrs(s, p, cfg, read) == ParseAttrs(s, q, cfg, all)
    decreases |attrs| - k
  {
    hide AttrText, SkipSpace, ParseAttr, HasAttr, Matches, GoodAttrs, ParseAttrs;
    MatchesIn(s, read, attrs, k, cfg);
    if k == |attrs| {
      all, q := read, p;
    } else {
      var more := AttrsText(attrs, k + 1, rest);
      assert GoodAttr(attrs[k]) by { AttrGood(attrs, k); }
      ReadAttr(s, p, cfg, attrs[k], more);
      var r := ParseAttr(s, p + |attrs[k].gap|, cfg);
      NextAttr(s, p, cfg, read);
      MatchesMore(s, read, r.attr, attrs, k, cfg);
      all, q := ReadAttrs(s, r.p, cfg, read + [r.attr], attrs, k + 1, rest);
    }
  }

  lemma AttrGood(attrs: seq<LAttr>, k: nat)
    requires GoodAttrs(attrs) && k < |attrs|
    ensures GoodAttr(attrs[k])
  {
  }

  lemma MatchesAll(s: Bytes, read: seq<Attr>, attrs: seq<LAttr>, cfg: Config)
    requires Matches(s, read, attrs, |attrs|, cfg) && GoodAttrs(attrs)
    ensures AttrValues(s, read) == AttrsMean(attrs, cfg)
  {
    hide Value, Raw, GoodName;
    forall i | 0 <= i < |attrs|
      ensures Value(attrs[i].name, NAME_MODE) == attrs[i].name
    {
      assert GoodAttr(attrs[i]);
      NameValue(attrs[i].name);
    }
  }

  // ---------------------------------------------------------------- leaves

  /** A mark that does not stand at p, where x and a byte outside the mark do. */
  lemma NotPrefix(s: Bytes, p: nat, x: Bytes, d: byte, rest: Bytes, t: Bytes)
    requires p <= |s| && s[p..] == x + ([d] + rest) && d !in t && !(t <= x)
    ensures !StartsAt(s, p, t)
  {
    Advance(s, p, x, [d] + rest);
    ByteAt(s, p + |x|, d, rest);
    if |t| <= |x| {
      StartBytes(s, p, x);
      assert t != x[..|t|];
      var i :| 0 <= i < |t| && t[i] != x[i];
      NotStart(s, p, t, i);
    } else {
      NotStart(s, p, t, |x|);
    }
  }

  function KindOf(n: Laid): Kind {
    match n
    case LElem(_, _, _, _, _) => AnElement
    case LText(_) => SomeText
    case LCdata(_) => CData
    case LRemark(_) => AComment
    case LDecl(_) => ADeclaration
    case LDtd(_) => AnUnknown
  }

  /** The mark a node starts with, and what is left of its text after it. */
  function OpenMarkOf(n: Laid): Bytes {
    match n
    case LElem(_, _, _, _, _) => [LT]
    case LText(_) => []
    case LCdata(_) => CDATA_OPEN
    case LRemark(_) => COMMENT_OPEN
    case LDecl(_) => DECLARATION_OPEN
    case LDtd(_) => UNKNOWN_OPEN
  }

  function AfterMark(n: Laid, rest: Bytes): Bytes {
    match n
    case LElem(lead, name, attrs, tail, body) =>
      lead + (name + AttrsText(attrs, 0, tail + BodyText(name, body, rest)))
    case LText(raw) => raw + rest
    case LCdata(raw) => raw + (CDATA_CLOSE + rest)
    case LRemark(raw) => raw + (COMMENT_CLOSE + rest)
    case LDecl(raw) => raw + (DECLARATION_CLOSE + rest)
    case LDtd(raw) => raw + ([GT] + rest)
  }

  lemma Marked(n: Laid, rest: Bytes)
    ensures LaidText(n, rest) == OpenMarkOf(n) + AfterMark(n, rest)
  {
    hide AttrsText, BodyText;
    match n
    case LElem(_, _, _, _, _) => assert Ascii("<") == [LT];
    case LText(raw) => assert [] + (raw + rest) == raw + rest;
    case LCdata(_) => assert Ascii("<![CDATA[") == CDATA_OPEN && Ascii("]]>") == CDATA_CLOSE;
    case LRemark(_) => assert Ascii("<!--") == COMMENT_OPEN && Ascii("-->") == COMMENT_CLOSE;
    case LDecl(_) => assert Ascii("<?") == DECLARATION_OPEN && Ascii("?>") == DECLARATION_CLOSE;
    case LDtd(_) => assert Ascii("<!") == UNKNOWN_OPEN && Ascii(">") == [GT];
  }

  /** Tags and marks are found behind any white space. */
  lemma FindsMark(s: Bytes, p: nat, cfg: Config, first: bool, g: Bytes, n: Laid, rest: Bytes)
    requires p <= |s| && s[p..] == g + LaidText(n, rest) && Gap(g) && Good(n, cfg.whitespace == Pedantic) && !n.LText?
    ensures var q := p + |g|;
      && Identify(s, p, cfg, first) == Found(KindOf(n), q + |OpenMarkOf(n)|)
      && q + |OpenMarkOf(n)| <= |s| && s[q + |OpenMarkOf(n)|..] == AfterMark(n, rest) && s[q] == LT
  {
    hide SkipSpace, StartsAt, LaidText, AfterMark;
    Marked(n, rest);
    var mark, after := OpenMarkOf(n), AfterMark(n, rest);
    assert mark + after != [] && (mark + after)[0] == LT;
    SkipGap(s, p, g, mark + after);
    var q := p + |g|;
    Advance(s, q, mark, after);
    HeadAt(s, q, mark + after);
    WhichMark(s, q, n, rest);
  }

  /** Of the marks the parser looks for, in its order, exactly the right one is met first. */
  lemma WhichMark(s: Bytes, q: nat, n: Laid, rest: Bytes)
    requires q + |OpenMarkOf(n)| <= |s| && StartsAt(s, q, OpenMarkOf(n))
    requires s[q + |OpenMarkOf(n)|..] == AfterMark(n, rest)
    requires Good(n, false) || Good(n, true)
    ensures !n.LText? && !n.LDecl? ==> !StartsAt(s, q, DECLARATION_OPEN)
    ensures n.LElem? || n.LCdata? || n.LDtd? ==> !StartsAt(s, q, COMMENT_OPEN)
    ensures n.LElem? || n.LDtd? ==> !StartsAt(s, q, CDATA_OPEN)
    ensures n.LElem? ==> !StartsAt(s, q, UNKNOWN_OPEN) && q + 1 < |s| && s[q + 1] != SLASH
  {
    hide StartsAt, AttrsText, BodyText, Lacks, GoodAttrs, GoodBody, GoodName, Gap;
    StartBytes(s, q, OpenMarkOf(n));
    match n
    case LElem(lead, name, attrs, tail, body) =>
      Regroup(lead, name, AttrsText(attrs, 0, tail + BodyText(name, body, rest)), []);
      NotAMark(s, q, lead, name, AfterMark(n, rest));
    case LText(_) =>
    case LCdata(_) =>
      assert OpenMarkOf(n)[1] == s[q + 1] && OpenMarkOf(n)[2] == s[q + 2];
      NotStart(s, q, DECLARATION_OPEN, 1);
      NotStart(s, q, COMMENT_OPEN, 2);
    case LRemark(_) =>
      assert OpenMarkOf(n)[1] == s[q + 1];
      NotStart(s, q, DECLARATION_OPEN, 1);
    case LDecl(_) =>
    case LDtd(raw) =>
      assert OpenMarkOf(n)[1] == s[q + 1];
      NotStart(s, q, DECLARATION_OPEN, 1);
      NotADtd(s, q, raw, rest);
  }

  lemma NotADtd(s: Bytes, q: nat, raw: Bytes, rest: Bytes)
    requires q + 2 <= |s| && s[q + 2..] == raw + ([GT] + rest) && !(Ascii("--") <= raw) && !(Ascii("[CDATA[") <= raw)
    ensures !StartsAt(s, q, COMMENT_OPEN) && !StartsAt(s, q, CDATA_OPEN)
  {
    hide StartsAt;
    assert Ascii("--") == [DASH, DASH] && Ascii("[CDATA[") == [91, 67, 68, 65, 84, 65, 91];
    NotPrefix(s, q + 2, raw, GT, rest, [DASH, DASH]);
    NotPrefix(s, q + 2, raw, GT, rest, [91, 67, 68, 65, 84, 65, 91]);
    assert COMMENT_OPEN[2..] == [DASH, DASH] && CDATA_OPEN[2..] == [91, 67, 68, 65, 84, 65, 91];
    Longer(s, q, COMMENT_OPEN, [DASH, DASH]);
    Longer(s, q, CDATA_OPEN, [91, 67, 68, 65, 84, 65, 91]);
  }

  lemma Longer(s: Bytes, q: nat, t: Bytes, u: Bytes)
    requires |t| >= 2 && t[2..] == u && !StartsAt(s, q + 2, u)
    ensures !StartsAt(s, q, t)
  {
    if q + |t| <= |s| {
      assert u != s[q + 2..q + 2 + |u|];
      var i :| 0 <= i < |u| && u[i] != s[q + 2..q + 2 + |u|][i];
      assert t[i + 2] == u[i];
      NotStart(s, q, t, i + 2);
    }
  }

  lemma NotAMark(s: Bytes, q: nat, lead: Bytes, name: Bytes, after: Bytes)
    requires q < |s| && s[q + 1..] == after && Gap(lead) && GoodName(name) && lead + name <= after
    ensures q + 1 < |s| && s[q + 1] != SLASH
    ensures !StartsAt(s, q, DECLARATION_OPEN) && !StartsAt(s, q, COMMENT_OPEN)
    ensures !StartsAt(s, q, CDATA_OPEN) && !StartsAt(s, q, UNKNOWN_OPEN)
  {
    hide StartsAt;
    var b := (lead + name)[0];
    assert after[0] == b;
    HeadAt(s, q + 1, after);
    if lead != [] {
      assert b == lead[0];
      ClassesAre(b);
    } else {
      assert b == name[0];
      ClassesAre(b);
    }
    assert b != QUERY && b != BANG && b != SLASH;
    NotStart(s, q, DECLARATION_OPEN, 1);
    NotStart(s, q, COMMENT_OPEN, 1);
    NotStart(s, q, CDATA_OPEN, 1);
    NotStart(s, q, UNKNOWN_OPEN, 1);
  }

  /** After text there must be a tag. */
  predicate TagFollows(rest: Bytes) { |rest| >= 2 && rest[0] == LT }

  /** Text is found where its white space starts, and ends at the next tag. */
  lemma FindsText(s: Bytes, p: nat, cfg: Config, first: bool, raw: Bytes, rest: Bytes)
    requires p <= |s| && s[p..] == raw + rest && Good(LText(raw), true) && TagFollows(rest)
    ensures p < |s| && s[p] != LT && Identify(s, p, cfg, first) == Found(SomeText, p)
    ensures ParseLeaf(s, p, SomeText, cfg) ==
      Parsed(Node.Text(Slice(p, p + |raw|, TextMode(cfg)), false), p + |raw|)
    ensures p + |raw| <= |s| && s[p..p + |raw|] == raw && s[p + |raw|..] == rest
  {
    hide SkipSpace, StartsAt, Find, Ascii;
    var tail := rest[1..];
    assert rest == [LT] + tail;
    FindByte(s, p, raw, LT, tail);
    StartBytes(s, p, raw) by {
      Advance(s, p, raw, rest);
    }
    var i :| 0 <= i < |raw| && !Blank(raw[i]);
    ClassesAre(raw[i]);
    assert raw[i] == s[p + i];
    var q := SkipSpace(s, p);
    assert q <= p + i;
    assert raw[q - p] == s[q] && raw[q - p] in raw;
    assert raw[0] == s[p] && raw[0] in raw;
    NotStart(s, q, DECLARATION_OPEN, 0);
    NotStart(s, q, COMMENT_OPEN, 0);
    NotStart(s, q, CDATA_OPEN, 0);
    NotStart(s, q, UNKNOWN_OPEN, 0);
  }

  /** A leaf with marks, from the end of its opening mark on. */
  lemma ReadsLeaf(s: Bytes, q: nat, cfg: Config, n: Laid, rest: Bytes)
    requires q <= |s| && s[q..] == AfterMark(n, rest) && Good(n, true) && !n.LElem? && !n.LText?
    ensures var r := ParseLeaf(s, q, KindOf(n), cfg);
      r.Parsed? && s[r.p..] == rest && TreeOf(s, r.node) == Means(n, cfg) && (r.node.Declaration? <==> n.LDecl?)
  {
    hide Find, Value, Lacks, StartsAt, ParseLeaf, TreeOf, Ascii;
    LeafMarks();
    match n
    case LCdata(raw) =>
      FindMark(s, q, raw, CDATA_CLOSE, rest);
      MarkedLeafIs(s, q, cfg, n, q + |raw|);
    case LRemark(raw) =>
      FindMark(s, q, raw, COMMENT_CLOSE, rest);
      MarkedLeafIs(s, q, cfg, n, q + |raw|);
    case LDecl(raw) =>
      FindMark(s, q, raw, DECLARATION_CLOSE, rest);
      MarkedLeafIs(s, q, cfg, n, q + |raw|);
    case LDtd(raw) =>
      FindByte(s, q, raw, GT, rest);
      MarkedLeafIs(s, q, cfg, n, q + |raw|);
  }

  lemma LeafMarks()
    ensures Ascii("]]>") == CDATA_CLOSE && Ascii("-->") == COMMENT_CLOSE
    ensures Ascii("?>") == DECLARATION_CLOSE && Ascii(">") == [GT]
  {
  }

  function CloseMarkOf(n: Laid): Bytes {
    match n
    case LCdata(_) => CDATA_CLOSE
    case LRemark(_) => COMMENT_CLOSE
    case LDecl(_) => DECLARATION_CLOSE
    case _ => [GT]
  }

  lemma MarkedLeafIs(s: Bytes, q: nat, cfg: Config, n: Laid, e: nat)
    requires !n.LElem? && !n.LText? && q <= e < |s| && Find(s, q, CloseMarkOf(n)) == e && s[q..e] == n.raw
    ensures var r := ParseLeaf(s, q, KindOf(n), cfg);
      && r.Parsed? && r.p == e + |CloseMarkOf(n)| && TreeOf(s, r.node) == Means(n, cfg)
      && (r.node.Declaration? <==> n.LDecl?)
  {
    hide Find, Value;
  }

  // ---------------------------------------------------------------- elements and lists

  lemma TagHead(attrs: seq<LAttr>, tail: Bytes, end: Bytes)
    requires GoodAttrs(attrs) && Gap(tail) && EndsTag(end)
    ensures var text := AttrsText(attrs, 0, tail + end); text != [] && !IsNameChar(text[0])
  {
    hide EqualsText;
    if attrs == [] {
      GapHead(tail, end, end[0]);
    } else {
      assert GoodAttr(attrs[0]);
      ClassesAre(attrs[0].gap[0]);
      assert AttrsText(attrs, 0, tail + end)[0] == attrs[0].gap[0];
    }
  }

  /** What follows the tag of an element. */
  function AfterTag(n: Laid, rest: Bytes): Bytes
    requires n.LElem?
  {
    if n.body.Sealed? then rest
    else ItemsText(n.body.items, 0, n.body.gap + CloseText(n.name, n.body.slash, n.body.close, rest))
  }

  lemma BodyEndsTag(n: Laid, rest: Bytes)
    requires n.LElem?
    ensures var end := BodyText(n.name, n.body, rest);
      EndsTag(end) && (end[0] == SLASH <==> n.body.Sealed?) &&
      end[if n.body.Sealed? then 2 else 1..] == AfterTag(n, rest)
  {
    hide ItemsText, CloseText;
    assert Ascii("/>") == [SLASH] + [GT] && Ascii(">") == [GT];
  }

  /** A tag from behind its "<" on, up to "/>" or ">". */
  lemma ReadsOpenTag(
      s: Bytes, q: nat, cfg: Config, lead: Bytes, name: Bytes, attrs: seq<LAttr>, tail: Bytes, end: Bytes)
    returns (t: nat, e: nat, read: seq<Attr>, next: nat)
    requires q <= |s| && s[q..] == lead + (name + AttrsText(attrs, 0, tail + end))
    requires Gap(lead) && GoodName(name) && GoodAttrs(attrs) && Gap(tail) && EndsTag(end)
    ensures SkipSpace(s, q) == t < e <= |s| && s[t] != SLASH && IsNameStart(s[t]) && NameEnd(s, t) == e
    ensures s[t..e] == name && AttrValues(s, read) == AttrsMean(attrs, cfg)
    ensures next <= |s| && ParseAttrs(s, e, cfg, []) == Tag(read, next, end[0] == SLASH)
    ensures s[next..] == end[if end[0] == SLASH then 2 else 1..]
  {
    hide SkipSpace, NameEnd, ParseAttrs, AttrsText, Matches, AttrValues, AttrsMean;
    hide GoodAttrs, GoodName, Gap, EndsTag;
    TagHead(attrs, tail, end);
    var after := AttrsText(attrs, 0, tail + end);
    t, e := ReadsTagName(s, q, lead, name, after);
    NoneMatched(s, attrs, cfg);
    var at;
    read, at := ReadAttrs(s, e, cfg, [], attrs, 0, tail + end);
    TagEnd(s, at, cfg, read, tail, end);
    next := at + |tail| + if end[0] == SLASH then 2 else 1;
    MatchesAll(s, read, attrs, cfg);
  }

  lemma ReadsTagName(s: Bytes, q: nat, lead: Bytes, name: Bytes, after: Bytes) returns (t: nat, e: nat)
    requires q <= |s| && s[q..] == lead + (name + after) && Gap(lead) && GoodName(name)
    requires after != [] && !IsNameChar(after[0])
    ensures SkipSpace(s, q) == t < e <= |s| && s[t] != SLASH && IsNameStart(s[t]) && NameEnd(s, t) == e
    ensures s[t..e] == name && s[e..] == after
  {
    hide SkipSpace, NameEnd, GoodName, Gap;
    NameHead(name);
    SkipGap(s, q, lead, name + after);
    t, e := q + |lead|, q + |lead| + |name|;
    ReadName(s, t, name, after);
    StartIsNoSlash(s[t]);
  }

  /** The tag of an element. */
  lemma ReadsTag(s: Bytes, q: nat, cfg: Config, n: Laid, rest: Bytes)
    returns (t: nat, e: nat, read: seq<Attr>, next: nat)
    requires n.LElem? && (Good(n, false) || Good(n, true)) && q <= |s| && s[q..] == AfterMark(n, rest)
    ensures SkipSpace(s, q) == t < e <= |s| && s[t] != SLASH && IsNameStart(s[t]) && NameEnd(s, t) == e
    ensures s[t..e] == n.name && AttrValues(s, read) == AttrsMean(n.attrs, cfg)
    ensures next <= |s| && ParseAttrs(s, e, cfg, []) == Tag(read, next, n.body.Sealed?)
    ensures s[next..] == AfterTag(n, rest)
  {
    hide SkipSpace, NameEnd, ParseAttrs, AttrsText, BodyText, ItemsText, CloseText, AttrValues, AttrsMean;
    hide GoodAttrs, GoodBody, GoodName, Gap, EndsTag, AfterTag;
    var end := BodyText(n.name, n.body, rest);
    BodyEndsTag(n, rest);
    t, e, read, next := ReadsOpenTag(s, q, cfg, n.lead, n.name, n.attrs, n.tail, end);
  }

  lemma StartIsNoSlash(b: byte)
    ensures IsNameStart(b) ==> b != SLASH
  {
  }

  lemma NoneMatched(s: Bytes, attrs: seq<LAttr>, cfg: Config)
    ensures Matches(s, [], attrs, 0, cfg)
  {
  }

  /** A closing tag behind white space. */
  lemma ReadsClose(s: Bytes, p: nat, cfg: Config, first: bool, depth: nat, g: Bytes, name: Bytes, slash: Bytes,
                   close: Bytes, rest: Bytes) returns (at: nat, next: nat)
    requires p <= |s| && s[p..] == g + CloseText(name, slash, close, rest) && depth < MAX_DEPTH
    requires Gap(g) && GoodName(name) && Gap(slash) && Gap(close)
    requires cfg.whitespace == Pedantic && first ==> g == []
    ensures p + |g| + 1 <= |s| && Identify(s, p, cfg, first) == Found(AnElement, p + |g| + 1)
    ensures ParseElement(s, p + |g| + 1, cfg, depth) == CloseTag(p + |g|, Slice(at, at + |name|, NAME_MODE), next)
    ensures at + |name| <= |s| && s[at..at + |name|] == name && next <= |s| && s[next..] == rest
  {
    hide GoodName, Gap, Identify, ParseElement, CloseText, CloseName;
    FindsClose(s, p, cfg, first, g, name, slash, close, rest);
    at, next := ReadsSlashName(s, p + |g| + 1, cfg, depth, name, slash, close, rest);
  }

  lemma ReadsSlashName(
      s: Bytes, q: nat, cfg: Config, depth: nat, name: Bytes, slash: Bytes, close: Bytes, rest: Bytes)
    returns (at: nat, next: nat)
    requires 0 < q <= |s| && s[q..] == slash + CloseName(name, close, rest) && depth < MAX_DEPTH
    requires GoodName(name) && Gap(slash) && Gap(close)
    ensures ParseElement(s, q, cfg, depth) == CloseTag(q - 1, Slice(at, at + |name|, NAME_MODE), next)
    ensures at + |name| <= |s| && s[at..at + |name|] == name && next <= |s| && s[next..] == rest
  {
    hide SkipSpace, NameEnd, ParseAttrs, GoodName, Gap, ParseElement, CloseName, CloseEnd;
    ReadsSlash(s, q, slash, name, close, rest);
    at := q + |slash| + 1;
    next := ReadsCloseName(s, at, cfg, name, close, rest);
    CloseTagIs(s, q, cfg, depth, at - 1, at + |name|);
  }

  lemma ReadsSlash(s: Bytes, q: nat, slash: Bytes, name: Bytes, close: Bytes, rest: Bytes)
    requires q <= |s| && s[q..] == slash + CloseName(name, close, rest) && Gap(slash)
    ensures var t := q + |slash|;
      SkipSpace(s, q) == t < |s| && s[t] == SLASH && s[t + 1..] == name + CloseEnd(close, rest)
  {
    hide SkipSpace, Gap, CloseEnd;
    assert Ascii("/") == [SLASH];
    var after := name + CloseEnd(close, rest);
    SkipGap(s, q, slash, [SLASH] + after);
    ByteAt(s, q + |slash|, SLASH, after);
  }

  lemma ReadsCloseName(s: Bytes, p: nat, cfg: Config, name: Bytes, close: Bytes, rest: Bytes) returns (next: nat)
    requires p <= |s| && s[p..] == name + CloseEnd(close, rest) && GoodName(name) && Gap(close)
    ensures name != [] && p + |name| <= |s| && IsNameStart(s[p]) && NameEnd(s, p) == p + |name|
    ensures s[p..p + |name|] == name && ParseAttrs(s, p + |name|, cfg, []) == Tag([], next, false)
    ensures next <= |s| && s[next..] == rest
  {
    hide NameEnd, ParseAttrs, GoodName, Gap, CloseEnd;
    EndIs(close, rest);
    NameHead(name);
    GapHead(close, [GT] + rest, GT);
    ReadName(s, p, name, CloseEnd(close, rest));
    TagEnd(s, p + |name|, cfg, [], close, [GT] + rest);
    next := p + |name| + |close| + 1;
  }

  lemma EndIs(close: Bytes, rest: Bytes)
    ensures CloseEnd(close, rest) == close + ([GT] + rest) && ([GT] + rest)[1..] == rest
  {
    assert Ascii(">") == [GT];
  }

  lemma FindsClose(s: Bytes, p: nat, cfg: Config, first: bool, g: Bytes, name: Bytes, slash: Bytes, close: Bytes,
                   rest: Bytes)
    requires p <= |s| && s[p..] == g + CloseText(name, slash, close, rest)
    requires Gap(g) && Gap(slash) && (cfg.whitespace == Pedantic && first ==> g == [])
    ensures var q := p + |g| + 1;
      && 0 < q <= |s| && Identify(s, p, cfg, first) == Found(AnElement, q)
      && s[q..] == slash + CloseName(name, close, rest)
  {
    hide SkipSpace, StartsAt, Gap, CloseName, Identify;
    assert Ascii("<") == [LT];
    var after := slash + CloseName(name, close, rest);
    SkipGap(s, p, g, [LT] + after);
    var at := p + |g|;
    ByteAt(s, at, LT, after);
    SlashHead(slash, name, close, rest);
    HeadAt(s, at + 1, after);
    NoOtherMark(s, p, at, cfg, first);
  }

  /** A "<" that starts neither a mark nor pedantic text. */
  lemma NoOtherMark(s: Bytes, p: nat, at: nat, cfg: Config, first: bool)
    requires p <= |s| && SkipSpace(s, p) == at && at + 1 < |s| && s[at] == LT && s[at + 1] != QUERY && s[at + 1] != BANG
    requires cfg.whitespace == Pedantic && first ==> at == p
    ensures Identify(s, p, cfg, first) == Found(AnElement, at + 1)
  {
    hide SkipSpace, StartsAt;
    NotStart(s, at, DECLARATION_OPEN, 1);
    NotStart(s, at, COMMENT_OPEN, 1);
    NotStart(s, at, CDATA_OPEN, 1);
    NotStart(s, at, UNKNOWN_OPEN, 1);
  }

  lemma SlashHead(slash: Bytes, name: Bytes, close: Bytes, rest: Bytes)
    requires Gap(slash)
    ensures var after := slash + CloseName(name, close, rest);
      after != [] && after[0] != QUERY && after[0] != BANG
  {
    hide CloseEnd;
    var after := slash + CloseName(name, close, rest);
    if slash != [] {
      ClassesAre(slash[0]);
      assert after[0] == slash[0];
    } else {
      assert Ascii("/") == [SLASH];
      assert after[0] == SLASH;
    }
  }

  lemma CloseTagIs(s: Bytes, q: nat, cfg: Config, depth: nat, t: nat, e: nat)
    requires 0 < q <= t < e <= |s| && depth < MAX_DEPTH && SkipSpace(s, q) == t && s[t] == SLASH
    requires t + 1 < |s| && IsNameStart(s[t + 1]) && NameEnd(s, t + 1) == e
    requires var tag := ParseAttrs(s, e, cfg, []); tag.Tag? && !tag.sealed
    ensures ParseElement(s, q, cfg, depth) ==
      CloseTag(q - 1, Slice(t + 1, e, NAME_MODE), ParseAttrs(s, e, cfg, []).p)
  {
    hide SkipSpace, NameEnd, ParseAttrs, ParseList, IsNameStart;
  }

  lemma TagStarts(n: Laid, rest: Bytes)
    requires !n.LText? && (Good(n, false) || Good(n, true))
    ensures TagFollows(LaidText(n, rest))
  {
    hide AttrsText, BodyText, GoodAttrs, GoodBody, LaidText;
    Marked(n, rest);
  }

  /** What follows the k-th item, if that is text. */
  lemma AfterText(items: seq<Item>, k: nat, end: Bytes, rest: Bytes, pedantic: bool)
    requires GoodItems(items, end, pedantic) && k < |items| && items[k].node.LText?
    requires items[|items| - 1].node.LText? ==> TagFollows(rest)
    ensures TagFollows(ItemsText(items, k + 1, rest))
  {
    hide LaidText, Good;
    if k + 1 < |items| {
      var next := items[k + 1];
      var text := LaidText(next.node, ItemsText(items, k + 2, rest));
      assert [] + text == text;
      TagStarts(next.node, ItemsText(items, k + 2, rest));
    }
  }

  /** Declarations come first, and only in the document. */
  ghost predicate DeclsFirst(items: seq<Item>, document: bool) {
    forall i :: 0 <= i < |items| && items[i].node.LDecl? ==>
      document && forall j :: 0 <= j < i ==> items[j].node.LDecl?
  }

  /** The children of an element and its closing tag. */
  lemma {:induction false} ReadsContent(
      s: Bytes, p: nat, cfg: Config, depth: nat, name: Bytes, body: Body, rest: Bytes)
    returns (kids: seq<Node>, at: nat, from: nat, next: nat)
    requires body.Content? && GoodBody(body, cfg.whitespace == Pedantic) && GoodName(name)
    requires depth + 1 + DepthOf(body.items) < MAX_DEPTH
    requires p <= |s| && s[p..] == ItemsText(body.items, 0, body.gap + CloseText(name, body.slash, body.close, rest))
    ensures ParseList(s, p, cfg, depth, false) == Closed(kids, at, Slice(from, from + |name|, NAME_MODE), next)
    ensures TreesOf(s, kids) == ItemsMean(body.items, cfg)
    ensures from + |name| <= |s| && s[from..from + |name|] == name && next <= |s| && s[next..] == rest
    decreases body, 0
  {
    hide ParseElement, ItemsText, CloseText, TreesOf, ItemsMean, Identify, Good, DepthOf, ParseLoop, Gap, GoodName;
    var items, close := body.items, CloseText(name, body.slash, body.close, rest);
    NoTrees(s);
    CloseFollows(name, body.slash, body.close, rest);
    assert ItemsMean(items, cfg)[..0] == [];
    assert body.gap == [] ==> body.gap + close == close;
    var q, first;
    kids, q, first := ReadsItems(s, p, cfg, depth + 1, false, true, [], items, 0, body.gap, body.gap + close);
    from, next := ReadsClose(s, q, cfg, first, depth + 1, body.gap, name, body.slash, body.close, rest);
    at := q + |body.gap|;
    LoopCloses(s, q, cfg, depth + 1, first, kids, at + 1);
  }

  lemma LoopCloses(s: Bytes, p: nat, cfg: Config, depth: nat, first: bool, kids: seq<Node>, q: nat)
    requires p < q <= |s| && depth < MAX_DEPTH && Identify(s, p, cfg, first) == Found(AnElement, q)
    requires ParseElement(s, q, cfg, depth).CloseTag?
    ensures var r := ParseElement(s, q, cfg, depth);
      ParseLoop(s, p, cfg, depth, false, first, kids) == Closed(kids, r.at, r.name, r.p)
  {
    hide Identify, ParseElement;
  }

  lemma CloseFollows(name: Bytes, slash: Bytes, close: Bytes, rest: Bytes)
    ensures TagFollows(CloseText(name, slash, close, rest))
    ensures [] + CloseText(name, slash, close, rest) == CloseText(name, slash, close, rest)
  {
  }

  lemma NoTrees(s: Bytes)
    ensures TreesOf(s, []) == []
  {
  }

  lemma {:induction false} ReadsElement(s: Bytes, q: nat, cfg: Config, depth: nat, n: Laid, rest: Bytes)
    requires n.LElem? && Good(n, cfg.whitespace == Pedantic) && depth + Depth(n) < MAX_DEPTH
    requires 0 < q <= |s| && s[q..] == AfterMark(n, rest)
    ensures var r := ParseElement(s, q, cfg, depth);
      r.Parsed? && s[r.p..] == rest && TreeOf(s, r.node) == Means(n, cfg)
    decreases n, 1
  {
    hide SkipSpace, NameEnd, ParseAttrs, ParseList, ItemsText, CloseText, AttrValues, AttrsMean, ItemsMean, TreesOf;
    hide GoodAttrs, GoodName, Gap, Value, DepthOf, GoodItems, AfterMark;
    var t, e, read, next := ReadsTag(s, q, cfg, n, rest);
    NameValue(n.name);
    if n.body.Sealed? {
      NoTrees(s);
    } else {
      ContentStarts(n.body, n.name, rest);
      var kids, at, from, after := ReadsContent(s, next, cfg, depth, n.name, n.body, rest);
    }
  }

  lemma ContentStarts(body: Body, name: Bytes, rest: Bytes)
    requires body.Content?
    ensures ItemsText(body.items, 0, body.gap + CloseText(name, body.slash, body.close, rest)) != []
  {
    hide LaidText;
    var end := body.gap + CloseText(name, body.slash, body.close, rest);
    assert |end| > 0;
    ItemsEnd(body.items, 0, end);
  }

  lemma {:induction false} ItemsEnd(items: seq<Item>, k: nat, rest: Bytes)
    requires k <= |items|
    ensures |ItemsText(items, k, rest)| >= |rest|
    decreases items, 0, |items| - k
  {
    if k < |items| {
      ItemsEnd(items, k + 1, rest);
      LaidEnd(items[k].node, ItemsText(items, k + 1, rest));
    }
  }

  lemma {:induction false} LaidEnd(n: Laid, rest: Bytes)
    ensures |LaidText(n, rest)| >= |rest|
    decreases n, 1
  {
    hide ItemsText;
    if n.LElem? {
      BodyEnd(n.name, n.body, rest);
      AttrsEnd(n.attrs, 0, n.tail + BodyText(n.name, n.body, rest));
    }
  }

  lemma {:induction false} BodyEnd(name: Bytes, body: Body, rest: Bytes)
    ensures |BodyText(name, body, rest)| >= |rest|
    decreases body, 1
  {
    if body.Content? {
      ItemsEnd(body.items, 0, body.gap + CloseText(name, body.slash, body.close, rest));
    }
  }

  lemma {:induction false} AttrsEnd(attrs: seq<LAttr>, k: nat, rest: Bytes)
    requires k <= |attrs|
    ensures |AttrsText(attrs, k, rest)| >= |rest|
    decreases |attrs| - k
  {
    if k < |attrs| {
      AttrsEnd(attrs, k + 1, rest);
    }
  }

  /** One item: what the loop of ParseDeep makes of it. */
  lemma {:induction false} ReadsItem(
      s: Bytes, p: nat, cfg: Config, depth: nat, document: bool, first: bool, read: seq<Node>,
      g: Bytes, n: Laid, rest: Bytes) returns (node: Node, next: nat)
    requires p <= |s| && s[p..] == g + LaidText(n, rest) && Gap(g)
    requires Good(n, cfg.whitespace == Pedantic) && depth + Depth(n) < MAX_DEPTH
    requires n.LText? ==> g == [] && TagFollows(rest)
    requires n.LDecl? ==> document && OnlyDeclarations(read)
    ensures next <= |s| && s[next..] == rest && TreeOf(s, node) == Means(n, cfg)
    ensures ParseLoop(s, p, cfg, depth, document, first, read)
         == ParseLoop(s, next, cfg, depth, document, false, read + [node])
    decreases n, 2
  {
    hide Identify, ParseElement, ParseLeaf, AfterMark, TreeOf, Means, LaidText, Good, ParseLoop, OnlyDeclarations;
    hide TagFollows, Gap;
    if n.LText? {
      TextIs(n, rest, g);
      TextIsGood(n, cfg.whitespace == Pedantic);
      FindsText(s, p, cfg, first, n.raw, rest);
      node, next := Node.Text(Slice(p, p + |n.raw|, TextMode(cfg)), false), p + |n.raw|;
      TextMeans(s, Slice(p, p + |n.raw|, TextMode(cfg)), n.raw, cfg);
      LoopReads(s, p, cfg, depth, document, first, read, Found(SomeText, p), Parsed(node, next));
    } else {
      FindsMark(s, p, cfg, first, g, n, rest);
      var q := p + |g| + |OpenMarkOf(n)|;
      var r;
      if n.LElem? {
        ReadsElement(s, q, cfg, depth, n, rest);
        r := ParseElement(s, q, cfg, depth);
      } else {
        TextIsGood(n, cfg.whitespace == Pedantic);
        ReadsLeaf(s, q, cfg, n, rest);
        r := ParseLeaf(s, q, KindOf(n), cfg);
      }
      node, next := r.node, r.p;
      LoopReads(s, p, cfg, depth, document, first, read, Found(KindOf(n), q), r);
    }
  }

  /** The loop links a node and goes on. */
  lemma LoopReads(
      s: Bytes, p: nat, cfg: Config, depth: nat, document: bool, first: bool, read: seq<Node>, found: Found,
      r: NodeResult)
    requires p <= |s| && depth < MAX_DEPTH && found.Found? && Identify(s, p, cfg, first) == found && r.Parsed?
    requires r == if found.kind == AnElement then ParseElement(s, found.at, cfg, depth)
                  else ParseLeaf(s, found.at, found.kind, cfg)
    requires r.node.Declaration? ==> document && OnlyDeclarations(read)
    ensures ParseLoop(s, p, cfg, depth, document, first, read)
         == ParseLoop(s, r.p, cfg, depth, document, false, read + [r.node])
  {
    hide Identify, ParseElement, ParseLeaf, OnlyDeclarations;
  }

  lemma TextIs(n: Laid, rest: Bytes, g: Bytes)
    requires n.LText? && g == []
    ensures LaidText(n, rest) == n.raw + rest && g + LaidText(n, rest) == LaidText(n, rest)
  {
  }

  lemma TextIsGood(n: Laid, pedantic: bool)
    requires Good(n, pedantic) && !n.LElem?
    ensures Good(n, true)
  {
  }

  lemma TextMeans(s: Bytes, x: Slice, raw: Bytes, cfg: Config)
    requires InText(s, x) && Raw(s, x) == raw && x.mode == TextMode(cfg)
    ensures TreeOf(s, Node.Text(x, false)) == Means(LText(raw), cfg)
  {
    hide Value, Raw, TextMode;
  }

  lemma {:induction false} ReadsItems(
      s: Bytes, p: nat, cfg: Config, depth: nat, document: bool, first: bool, read: seq<Node>,
      items: seq<Item>, k: nat, end: Bytes, rest: Bytes) returns (nodes: seq<Node>, q: nat, first': bool)
    requires k <= |items| && p <= |s| && s[p..] == ItemsText(items, k, rest)
    requires GoodItems(items, end, cfg.whitespace == Pedantic) && depth + DepthOf(items) < MAX_DEPTH
    requires items != [] && items[|items| - 1].node.LText? ==> TagFollows(rest)
    requires DeclsFirst(items, document) && TreesOf(s, read) == ItemsMean(items, cfg)[..k]
    ensures q <= |s| && s[q..] == rest && TreesOf(s, nodes) == ItemsMean(items, cfg)
    ensures first' == (first && k == |items|)
    ensures ParseLoop(s, p, cfg, depth, document, first, read)
         == ParseLoop(s, q, cfg, depth, document, first', nodes)
    decreases items, 0, |items| - k
  {
    hide ParseLoop, LaidText, TreeOf, Good, Means, TreesOf, ItemsMean, TagFollows, DepthOf, OnlyDeclarations;
    if k == |items| {
      assert ItemsMean(items, cfg)[..k] == ItemsMean(items, cfg);
      nodes, q, first' := read, p, first;
    } else {
      var more := ItemsText(items, k + 1, rest);
      if items[k].node.LText? {
        AfterText(items, k, end, rest, cfg.whitespace == Pedantic);
      }
      if items[k].node.LDecl? {
        OnlyBefore(s, read, items, k, cfg, document);
      }
      var node, next := ReadsItem(s, p, cfg, depth, document, first, read, items[k].gap, items[k].node, more);
      TreesOfMore(s, read, node);
      MeansAt(items, cfg, k);
      assert ItemsMean(items, cfg)[..k + 1] == ItemsMean(items, cfg)[..k] + [ItemsMean(items, cfg)[k]];
      nodes, q, first' := ReadsItems(s, next, cfg, depth, document, false, read + [node], items, k + 1, end, rest);
    }
  }

  lemma {:induction false} MeansAt(items: seq<Item>, cfg: Config, k: nat)
    requires k < |items|
    ensures ItemsMean(items, cfg)[k] == Means(items[k].node, cfg)
  {
    hide Means;
    if k < |items| - 1 {
      MeansAt(items[..|items| - 1], cfg, k);
    }
  }

  lemma {:induction false} TreesAt(s: Bytes, ns: seq<Node>, i: nat)
    requires i < |ns|
    ensures TreesOf(s, ns)[i] == TreeOf(s, ns[i])
  {
    hide TreeOf;
    if i < |ns| - 1 {
      TreesAt(s, ns[..|ns| - 1], i);
    }
  }

  lemma OnlyBefore(s: Bytes, read: seq<Node>, items: seq<Item>, k: nat, cfg: Config, document: bool)
    requires k < |items| && items[k].node.LDecl? && DeclsFirst(items, document)
    requires TreesOf(s, read) == ItemsMean(items, cfg)[..k]
    ensures document && OnlyDeclarations(read)
  {
    hide TreesOf, ItemsMean, Str, Value, AttrValues, AttrsMean;
    if k > 0 {
      TreesAt(s, read, 0);
      TreesAt(s, read, k - 1);
      MeansAt(items, cfg, 0);
      MeansAt(items, cfg, k - 1);
    }
  }

  // ---------------------------------------------------------------- documents

  /** A byte order mark may stand behind leading white space. */
  function DocText(lead: Bytes, bom: bool, items: seq<Item>, rest: Bytes): Bytes {
    lead + ((if bom then [0xEF, 0xBB, 0xBF] else []) + ItemsText(items, 0, rest))
  }

  /** A list of nodes that is no empty document and neither starts nor ends with text. */
  ghost predicate GoodDocument(items: seq<Item>, pedantic: bool) {
    && items != [] && GoodItems(items, [], pedantic) && DeclsFirst(items, true) && DepthOf(items) <= 498
    && !items[0].node.LText? && !items[|items| - 1].node.LText?
  }

  function DocumentOf(r: ListResult): Document {
    match r
    case Failed(error) => Rejected(error)
    case Ended(kids) => Accepted(kids)
    case Closed(kids, _, _, _) => Accepted(kids)
  }

  lemma DocumentIs(s: Bytes, cfg: Config, q: nat, p: nat)
    requires s != [] && SkipSpace(s, 0) == q && p < |s| && p == if StartsAt(s, q, BOM) then q + 3 else q
    ensures ParseDocument(s, cfg) == DocumentOf(ParseLoop(s, p, cfg, 1, true, true, []))
  {
    hide SkipSpace, StartsAt, ParseLoop;
  }

  /** The nodes of a laid-out document are read one by one, whatever follows them. */
  lemma ReadsDocument(lead: Bytes, bom: bool, items: seq<Item>, rest: Bytes, cfg: Config)
    returns (nodes: seq<Node>, q: nat)
    requires Gap(lead) && GoodDocument(items, cfg.whitespace == Pedantic)
    ensures var s := DocText(lead, bom, items, rest);
      && q <= |s| && s[q..] == rest && TreesOf(s, nodes) == ItemsMean(items, cfg)
      && ParseDocument(s, cfg) == DocumentOf(ParseLoop(s, q, cfg, 1, true, false, nodes))
  {
    hide ParseDocument, ParseLoop, TreesOf, ItemsMean, Gap, GoodItems, DeclsFirst, DepthOf, LaidText;
    var s, more := DocText(lead, bom, items, rest), ItemsText(items, 1, rest);
    FirstItem(items, rest, cfg.whitespace == Pedantic);
    if bom {
      StartsWithBom(s, lead, items, rest, cfg);
      var p := |lead| + 3;
      NoTrees(s);
      assert ItemsMean(items, cfg)[..0] == [];
      var first;
      nodes, q, first := ReadsItems(s, p, cfg, 1, true, true, [], items, 0, [], rest);
    } else {
      StartsWithTag(s, lead, items, rest, cfg);
      var p := |lead| + |items[0].gap|;
      assert [] + LaidText(items[0].node, more) == LaidText(items[0].node, more);
      NoGap();
      var node, next := ReadsItem(s, p, cfg, 1, true, true, [], [], items[0].node, more);
      NoTrees(s);
      TreesOfMore(s, [], node);
      MeansAt(items, cfg, 0);
      assert ItemsMean(items, cfg)[..1] == [] + [Means(items[0].node, cfg)];
      var first;
      nodes, q, first := ReadsItems(s, next, cfg, 1, true, false, [] + [node], items, 1, [], rest);
    }
  }

  lemma NoGap()
    ensures Gap([])
  {
  }

  lemma FirstItem(items: seq<Item>, rest: Bytes, pedantic: bool)
    requires GoodDocument(items, pedantic)
    ensures items != [] && Good(items[0].node, pedantic) && Gap(items[0].gap) && !items[0].node.LText?
    ensures Depth(items[0].node) <= 498
    ensures ItemsText(items, 0, rest) == items[0].gap + LaidText(items[0].node, ItemsText(items, 1, rest))
  {
    hide Good, LaidText, Depth;
  }

  lemma StartsWithBom(s: Bytes, lead: Bytes, items: seq<Item>, rest: Bytes, cfg: Config)
    requires s == DocText(lead, true, items, rest) && Gap(lead) && GoodDocument(items, cfg.whitespace == Pedantic)
    ensures |lead| + 3 < |s| && s[|lead| + 3..] == ItemsText(items, 0, rest)
    ensures ParseDocument(s, cfg) == DocumentOf(ParseLoop(s, |lead| + 3, cfg, 1, true, true, []))
  {
    hide ParseDocument, ParseLoop, Gap, ItemsText, LaidText, SkipSpace, StartsAt, GoodDocument, DocText;
    var text := ItemsText(items, 0, rest);
    BomText(lead, items, rest);
    assert s[0..] == s && (BOM + text)[0] == 0xEF;
    SkipGap(s, 0, lead, BOM + text);
    Advance(s, |lead|, BOM, text);
    FirstItem(items, rest, cfg.whitespace == Pedantic);
    TagStarts(items[0].node, ItemsText(items, 1, rest));
    assert |text| > 0 && |s| == |lead| + (3 + |text|);
    DocumentIs(s, cfg, |lead|, |lead| + 3);
  }

  lemma BomText(lead: Bytes, items: seq<Item>, rest: Bytes)
    ensures DocText(lead, true, items, rest) == lead + (BOM + ItemsText(items, 0, rest))
  {
    hide ItemsText;
  }

  lemma StartsWithTag(s: Bytes, lead: Bytes, items: seq<Item>, rest: Bytes, cfg: Config)
    requires s == DocText(lead, false, items, rest) && Gap(lead) && GoodDocument(items, cfg.whitespace == Pedantic)
    ensures var p := |lead| + |items[0].gap|;
      && p < |s| && s[p..] == LaidText(items[0].node, ItemsText(items, 1, rest))
      && ParseDocument(s, cfg) == DocumentOf(ParseLoop(s, p, cfg, 1, true, true, []))
  {
    hide ParseDocument, ParseLoop, Gap, ItemsText, LaidText, SkipSpace, StartsAt, GoodDocument;
    FirstItem(items, rest, cfg.whitespace == Pedantic);
    var text := LaidText(items[0].node, ItemsText(items, 1, rest));
    TagStarts(items[0].node, ItemsText(items, 1, rest));
    var g := lead + items[0].gap;
    assert [] + ItemsText(items, 0, rest) == ItemsText(items, 0, rest);
    assert s[0..] == g + text;
    GapsJoin(lead, items[0].gap);
    SkipGap(s, 0, g, text);
    HeadAt(s, |g|, text);
    NotStart(s, |g|, BOM, 0);
    DocumentIs(s, cfg, |g|, |g|);
  }

  lemma GapsJoin(a: Bytes, b: Bytes)
    requires Gap(a) && Gap(b)
    ensures Gap(a + b)
  {
  }

  /**
   Every layout of every document is accepted and read as what it means: white space before, between
   and inside tags, single or double quotes, sealed or empty elements, a byte order mark; in every
   mode of the parser, with the strings read in that mode.
   */
  lemma LaidIsRead(lead: Bytes, bom: bool, items: seq<Item>, end: Bytes, cfg: Config)
    requires Gap(lead) && Gap(end) && GoodDocument(items, cfg.whitespace == Pedantic)
    ensures var s := DocText(lead, bom, items, end);
      var d := ParseDocument(s, cfg);
      d.Accepted? && TreesOf(s, d.kids) == ItemsMean(items, cfg)
  {
    hide ParseDocument, ParseLoop, TreesOf, ItemsMean, Gap, GoodDocument, DocText;
    var s := DocText(lead, bom, items, end);
    var nodes, q := ReadsDocument(lead, bom, items, end, cfg);
    assert end + [] == end;
    SkipGap(s, q, end, []);
    NothingLeft(s, q, cfg, nodes);
  }

  lemma NothingLeft(s: Bytes, q: nat, cfg: Config, nodes: seq<Node>)
    requires q <= |s| && SkipSpace(s, q) == |s|
    ensures ParseLoop(s, q, cfg, 1, true, false, nodes) == Ended(nodes)
  {
  }
}
