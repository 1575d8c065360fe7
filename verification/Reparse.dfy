/** Parsing is stable: what was parsed from any text is parsed again from its own print. */
module Reparse {
  import opened XmlBytes
  import opened Decode
  import opened XmlParser
  import opened ParserFacts
  import opened XmlTree
  import opened Layout
  import opened RoundTrip

  // ---------------------------------------------------------------- how deep accepted elements nest

  lemma {:induction false} MaxHeightMore(ts: seq<Tree>, t: Tree, n: nat)
    requires MaxHeight(ts) <= n && Height(t) <= n
    ensures MaxHeight(ts + [t]) <= n
  {
    hide Height;
    if ts != [] {
      MaxHeightMore(ts[1..], t, n);
      assert (ts + [t])[1..] == ts[1..] + [t];
    }
  }

  lemma ElementHeight(s: Bytes, n: Node, d: nat)
    requires n.Element? && (n.kids == [] || MaxHeight(TreesOf(s, n.kids)) < d)
    ensures Height(TreeOf(s, n)) <= d
  {
    hide MaxHeight, AttrValues, Str;
  }

  lemma {:induction false} ElementNests(s: Bytes, q: nat, cfg: Config, depth: nat)
    requires 0 < q <= |s| && depth < MAX_DEPTH
    ensures var r := ParseElement(s, q, cfg, depth);
      r.Parsed? ==> Height(TreeOf(s, r.node)) + depth < MAX_DEPTH
    decreases |s| - q, 0
  {
    hide SkipSpace, NameEnd, ParseAttrs, ParseNamed, ParseList, TreeOf, TreesOf, Height, MaxHeight;
    var t := SkipSpace(s, q);
    var closing := t < |s| && s[t] == SLASH;
    var n := if closing then t + 1 else t;
    if n < |s| && IsNameStart(s[n]) {
      var name := Slice(n, NameEnd(s, n), NAME_MODE);
      NamedKids(s, q, closing, name, cfg, depth);
      var r := ParseNamed(s, q, closing, name, cfg, depth);
      if r.Parsed? {
        if r.node.kids != [] {
          ListNests(s, ParseAttrs(s, name.end, cfg, []).p, cfg, depth, false);
        }
        ElementHeight(s, r.node, MAX_DEPTH - 1 - depth);
      }
    }
  }

  lemma {:induction false} ListNests(s: Bytes, p: nat, cfg: Config, depth: nat, document: bool)
    requires p <= |s| && depth < MAX_DEPTH
    ensures var r := ParseList(s, p, cfg, depth, document);
      !r.Failed? ==> MaxHeight(TreesOf(s, r.kids)) + depth + 1 < MAX_DEPTH
    decreases |s| - p, 2
  {
    hide ParseLoop, TreesOf, MaxHeight;
    NoHeight(s);
    if depth + 1 != MAX_DEPTH {
      LoopNests(s, p, cfg, depth + 1, document, true, []);
    }
  }

  lemma NoHeight(s: Bytes)
    ensures MaxHeight(TreesOf(s, [])) == 0
  {
  }

  lemma LeafHeight(s: Bytes, n: Node)
    requires !n.Element?
    ensures Height(TreeOf(s, n)) == 0
  {
  }

  /** The nodes in a list at some depth leave room for the depths above. */
  lemma {:induction false} LoopNests(
      s: Bytes, p: nat, cfg: Config, depth: nat, document: bool, first: bool, kids: seq<Node>)
    requires p <= |s| && depth < MAX_DEPTH && MaxHeight(TreesOf(s, kids)) + depth < MAX_DEPTH
    ensures var r := ParseLoop(s, p, cfg, depth, document, first, kids);
      !r.Failed? ==> MaxHeight(TreesOf(s, r.kids)) + depth < MAX_DEPTH
    decreases |s| - p, 1
  {
    hide Identify, ParseLeaf, ParseElement, TreeOf, TreesOf, Height, MaxHeight;
    var found := Identify(s, p, cfg, first);
    if found.Found? {
      var r := if found.kind == AnElement then ParseElement(s, found.at, cfg, depth)
               else ParseLeaf(s, found.at, found.kind, cfg);
      if r.Parsed? {
        if found.kind == AnElement {
          ElementNests(s, found.at, cfg, depth);
        } else {
          LeafHeight(s, r.node);
        }
        TreesOfMore(s, kids, r.node);
        MaxHeightMore(TreesOf(s, kids), TreeOf(s, r.node), MAX_DEPTH - 1 - depth);
        LoopNests(s, r.p, cfg, depth, document, false, kids + [r.node]);
      }
    }
  }

  // ---------------------------------------------------------------- marks do not arise by folding newlines

  /** With newline folding alone every piece is a line feed or the byte itself. */
  lemma LineStep(v: Bytes, p: nat)
    requires p < |v|
    ensures var x := NextPiece(v, p, LINES);
      && x.Emit? && (x.bytes == [LF] || (x.bytes == [v[p]] && x.read == 1))
      && Clean(v, p, LINES) == x.bytes + Clean(v, p + x.read, LINES)
  {
  }

  lemma {:induction false} LinesAreFaithful(v: Bytes, p: nat, out: Bytes)
    requires |out| <= p <= |v|
    ensures Faithful(v, p, out, LINES)
    decreases |v| - p
  {
    hide NextPiece, Faithful;
    FaithfulStep(v, p, out, LINES);
    if p < |v| {
      LineStep(v, p);
      var x := NextPiece(v, p, LINES);
      LinesAreFaithful(v, p + x.read, out + x.bytes);
    }
  }

  /** A byte that is no line feed was there before. */
  lemma KeptByte(v: Bytes, p: nat, b: byte)
    requires p <= |v| && b != LF && Clean(v, p, LINES) != [] && Clean(v, p, LINES)[0] == b
    ensures p < |v| && v[p] == b && Clean(v, p, LINES) == [b] + Clean(v, p + 1, LINES)
  {
    hide NextPiece, Clean;
    CleanStep(v, p, LINES);
    if p < |v| {
      LineStep(v, p);
    }
  }

  lemma {:induction false} MarkThere(v: Bytes, p: nat, mark: Bytes)
    requires p <= |v| && LF !in mark && mark <= Clean(v, p, LINES)
    ensures StartsAt(v, p, mark)
    decreases |mark|
  {
    hide Clean;
    if mark == [] {
      assert v[p..p] == [];
    } else {
      KeptByte(v, p, mark[0]);
      var c := Clean(v, p, LINES);
      assert c[1..] == Clean(v, p + 1, LINES) && mark[1..] <= c[1..];
      MarkThere(v, p + 1, mark[1..]);
      assert v[p..p + |mark|] == [v[p]] + v[p + 1..p + |mark|];
    }
  }

  lemma {:induction false} CleanLacks(v: Bytes, p: nat, mark: Bytes, i: nat)
    requires p <= |v| && mark != [] && LF !in mark && Lacks(v, mark)
    ensures !StartsAt(Clean(v, p, LINES), i, mark)
    decreases |v| - p
  {
    hide NextPiece, Clean;
    CleanStep(v, p, LINES);
    if StartsAt(Clean(v, p, LINES), i, mark) && p < |v| {
      LineStep(v, p);
      if i == 0 {
        MarkThere(v, p, mark);
      } else {
        var x := NextPiece(v, p, LINES);
        var rest := Clean(v, p + x.read, LINES);
        assert Clean(v, p, LINES)[i..i + |mark|] == rest[i - 1..i - 1 + |mark|];
        CleanLacks(v, p + x.read, mark, i - 1);
      }
    }
  }

  /** A value with folded newlines is, up to a NUL, the text with folded newlines. */
  lemma LinesValueIs(v: Bytes)
    ensures Value(v, LINES) <= Clean(v, 0, LINES)
  {
    hide Clean, DecodeFrom;
    LinesAreFaithful(v, 0, []);
    CleanIff(v, 0, [], LINES);
    assert [] + Clean(v, 0, LINES) == Clean(v, 0, LINES);
  }

  lemma LinesLack(v: Bytes, mark: Bytes)
    requires mark != [] && LF !in mark && Lacks(v, mark)
    ensures Lacks(Value(v, LINES), mark)
  {
    hide Clean, Value;
    LinesValueIs(v);
    var clean := Clean(v, 0, LINES);
    forall i | 0 <= i <= |Value(v, LINES)|
      ensures !StartsAt(Value(v, LINES), i, mark)
    {
      CleanLacks(v, 0, mark, i);
      Shorter(Value(v, LINES), clean, i, mark);
    }
  }

  lemma {:induction false} CleanHasNoReturn(v: Bytes, p: nat)
    requires p <= |v|
    ensures CR !in Clean(v, p, LINES)
    decreases |v| - p
  {
    CleanStep(v, p, LINES);
    if p < |v| {
      CleanHasNoReturn(v, p + NextPiece(v, p, LINES).read);
    }
  }

  lemma LinesArePlain(v: Bytes)
    ensures Plain(Value(v, LINES))
  {
    hide Clean;
    LinesValueIs(v);
    CleanHasNoReturn(v, 0);
    var r, c := Value(v, LINES), Clean(v, 0, LINES);
    forall i | 0 <= i < |r|
      ensures r[i] != CR
    {
      assert r[i] == c[i] && c[i] in c;
    }
  }

  /** Nor does folding make a new beginning. */
  lemma LinesStart(v: Bytes, mark: Bytes)
    requires LF !in mark && mark <= Value(v, LINES)
    ensures StartsAt(v, 0, mark)
  {
    hide Clean, Value;
    LinesValueIs(v);
    MarkThere(v, 0, mark);
  }

  lemma Shorter(v: Bytes, w: Bytes, i: nat, mark: Bytes)
    requires v <= w && !StartsAt(w, i, mark)
    ensures !StartsAt(v, i, mark)
  {
    if i + |mark| <= |v| {
      assert v[i..i + |mark|] == w[i..i + |mark|];
    }
  }

  // ---------------------------------------------------------------- parsed trees are printable

  /** No carriage return that a reference has spelled out, and text with something to see. */
  ghost predicate Reprintable(t: Tree) {
    match t
    case Elem(_, attrs, kids) =>
      (forall i :: 0 <= i < |attrs| ==> Plain(attrs[i].1)) && forall k :: k in kids ==> Reprintable(k)
    case Txt(text) => Plain(text) && SkipSpace(text, 0) < |text|
    case Cdata(_) => true
    case Remark(_) => true
    case Decl(_) => true
    case Dtd(_) => true
  }

  lemma NameIsValid(s: Bytes, x: Slice)
    requires NameAt(s, x)
    ensures ValidName(Raw(s, x)) && Str(s, x) == Raw(s, x)
  {
    hide NameEnd, Value;
    var name := Raw(s, x);
    forall i | 0 <= i < |name|
      ensures IsNameChar(name[i])
    {
      assert name[i] == s[x.start + i];
    }
    NameIsGood(name);
    NameValue(name);
  }

  lemma AttrsAreValid(s: Bytes, attrs: seq<Attr>)
    requires DistinctNames(s, attrs)
    requires forall i :: 0 <= i < |attrs| ==> Plain(AttrValues(s, attrs)[i].1)
    ensures ValidAttrs(AttrValues(s, attrs))
  {
    hide NameAt, ValidName, Plain, Str, Raw;
    DistinctAreIn(s, attrs);
    forall i | 0 <= i < |attrs|
      ensures ValidName(Str(s, attrs[i].name)) && Str(s, attrs[i].name) == Raw(s, attrs[i].name)
    {
      NameIsValid(s, attrs[i].name);
    }
  }

  lemma QuotedLacks(s: Bytes, x: Slice, open: Bytes, mark: Bytes)
    requires Quoted(s, x, open, mark) && mark != [] && LF !in mark && x.mode == LINES
    ensures Lacks(Str(s, x), mark) && Plain(Str(s, x))
  {
    hide Value;
    var v := Raw(s, x);
    forall i | 0 <= i <= |v|
      ensures !StartsAt(v, i, mark)
    {
      if i + |mark| <= |v| {
        SubSlice(s, x.start, v, x.start + i, |mark|);
        assert !StartsAt(s, x.start + i, mark);
      }
    }
    LinesLack(v, mark);
    LinesArePlain(v);
  }

  lemma LacksByte(v: Bytes, b: byte)
    requires Lacks(v, [b])
    ensures b !in v
  {
    forall i | 0 <= i < |v|
      ensures v[i] != b
    {
      ByteStart(v, i, b);
    }
  }

  /** Behind "<!" and no other mark. */
  lemma UnknownIsValid(s: Bytes, x: Slice)
    requires x.mode == LINES && Quoted(s, x, UNKNOWN_OPEN, [GT]) && OtherMark(s, x.start - 2)
    ensures Valid(Dtd(Str(s, x)))
  {
    hide Value, Plain, Lacks, StartsAt;
    QuotedLacks(s, x, UNKNOWN_OPEN, [GT]);
    LacksByte(Str(s, x), GT);
    var marks := [COMMENT_OPEN, CDATA_OPEN];
    forall k | 0 <= k < 2
      ensures !(marks[k][2..] <= Str(s, x))
    {
      if marks[k][2..] <= Str(s, x) {
        LinesStart(Raw(s, x), marks[k][2..]);
        MarkBehind(s, x, marks[k]);
      }
    }
    assert !(marks[0][2..] <= Str(s, x)) && !(marks[1][2..] <= Str(s, x));
  }

  lemma MarkBehind(s: Bytes, x: Slice, mark: Bytes)
    requires 2 <= x.start && InText(s, x) && StartsAt(s, x.start - 2, UNKNOWN_OPEN)
    requires |mark| > 2 && mark[..2] == UNKNOWN_OPEN && StartsAt(Raw(s, x), 0, mark[2..])
    ensures StartsAt(s, x.start - 2, mark)
  {
    var p := x.start - 2;
    assert s[p..p + |mark|] == s[p..p + 2] + s[p + 2..p + |mark|];
    assert Raw(s, x)[0..|mark| - 2] == s[p + 2..p + |mark|];
    assert mark == mark[..2] + mark[2..];
  }

  lemma {:induction false} ParsedIsValid(s: Bytes, n: Node)
    requires WellFormed(s, n) && NoneInside(n) && Reprintable(TreeOf(s, n))
    ensures Valid(TreeOf(s, n)) && (TreeOf(s, n).Decl? <==> n.Declaration?)
    decreases n, 0
  {
    hide NameAt, DistinctNames, Quoted, ValidAttrs, ValidName, ValidList, Str, AttrValues, Lacks, Separated, TreesOf;
    hide OtherMark;
    match n
    case Element(_, name, attrs, kids, _) =>
      NameIsValid(s, name);
      AttrsAreValid(s, attrs);
      ParsedAreValid(s, kids);
    case Text(x, cdata) =>
      if cdata {
        QuotedLacks(s, x, CDATA_OPEN, CDATA_CLOSE);
      }
    case Comment(x) => QuotedLacks(s, x, COMMENT_OPEN, COMMENT_CLOSE);
    case Declaration(x) => QuotedLacks(s, x, DECLARATION_OPEN, DECLARATION_CLOSE);
    case Unknown(x) => UnknownIsValid(s, x);
  }

  lemma {:induction false} ParsedAreValid(s: Bytes, ns: seq<Node>)
    requires AllWellFormed(s, ns) && Separated(ns) && AllNoneInside(ns)
    requires forall t :: t in TreesOf(s, ns) ==> Reprintable(t)
    ensures ValidList(TreesOf(s, ns))
    ensures forall i :: 0 <= i < |ns| ==> (TreesOf(s, ns)[i].Decl? <==> ns[i].Declaration?)
    decreases ns, 1
  {
    hide WellFormed, Reprintable, Valid, TreesOf, NoneInside;
    forall i | 0 <= i < |ns|
      ensures TreesOf(s, ns)[i] == TreeOf(s, ns[i]) && Valid(TreesOf(s, ns)[i])
      ensures TreesOf(s, ns)[i].Decl? <==> ns[i].Declaration?
    {
      TreesAt(s, ns, i);
      ParsedIsValid(s, ns[i]);
    }
  }

  /**
   Whatever text was parsed, and with whatever settings: if its trees have no text at either end, no
   carriage return that a reference has spelled out and no text that is blank once decoded, then
   their escaping print is parsed to the same trees.
   */
  lemma ParsePrintParse(s: Bytes, from: Config, cfg: Config, apos: bool)
    requires var d := ParseDocument(s, from);
      && d.Accepted? && d.kids != []
      && var ts := TreesOf(s, d.kids);
      && !ts[0].Txt? && !ts[|ts| - 1].Txt? && forall t :: t in ts ==> Reprintable(t)
    requires Lossless(cfg)
    ensures var ts := TreesOf(s, ParseDocument(s, from).kids);
      var again := PrintTrees(ts, 0, apos);
      var e := ParseDocument(again, cfg);
      e.Accepted? && TreesOf(again, e.kids) == ts
  {
    hide TreesOf, WellFormed, Reprintable, PrintTrees, MaxHeight, Chain, Separated, ValidList, AllNoneInside;
    var d := ParseDocument(s, from);
    AcceptedIsWellFormed(s, from);
    DeclarationsFirst(s, from);
    ParsedAreValid(s, d.kids);
    DocumentNests(s, from);
    DocumentRoundTrip(TreesOf(s, d.kids), cfg, apos);
  }

  lemma DocumentNests(s: Bytes, cfg: Config)
    ensures var d := ParseDocument(s, cfg);
      d.Accepted? ==> MaxHeight(TreesOf(s, d.kids)) <= 498
  {
    hide ParseList, TreesOf, MaxHeight;
    var q := SkipSpace(s, 0);
    var p := if StartsAt(s, q, BOM) then q + 3 else q;
    if p < |s| {
      ListNests(s, p, cfg, 0, true);
    }
  }

  /** The bound on the nesting is exact: what is printed from a deeper tree is not read back. */
  lemma DepthIsExact(ts: seq<Tree>, cfg: Config, apos: bool)
    requires ValidDocument(ts) && Lossless(cfg)
    ensures var s := PrintTrees(ts, 0, apos);
      var d := ParseDocument(s, cfg);
      d.Accepted? && TreesOf(s, d.kids) == ts <==> MaxHeight(ts) <= 498
  {
    hide ValidDocument, PrintTrees, ParseDocument, TreesOf, MaxHeight;
    DocumentNests(PrintTrees(ts, 0, apos), cfg);
    if MaxHeight(ts) <= 498 {
      DocumentRoundTrip(ts, cfg, apos);
    }
  }
}
