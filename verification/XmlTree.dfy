/** A document by its decoded values: its compact print, and the trees of parsed nodes. */
module XmlTree {
  import opened XmlBytes
  import opened Decode
  import opened Escape
  import opened XmlParser

  /** A document fragment by its decoded values. */
  datatype Tree =
    | Elem(name: Bytes, attrs: seq<(Bytes, Bytes)>, kids: seq<Tree>)
    | Txt(text: Bytes)
    | Cdata(text: Bytes)
    | Remark(text: Bytes)
    | Decl(text: Bytes)
    | Dtd(text: Bytes)  // what the parser calls unknown: "<!" and no comment or CDATA

  // ---------------------------------------------------------------- printing

  function PrintAttr(name: Bytes, value: Bytes, apos: bool): Bytes {
    [SPACE] + name + [EQ, QUOTE] + Escaped(value, 0, Attribute(apos)) + [QUOTE]
  }

  /** attrs[k..]. */
  function PrintAttrs(attrs: seq<(Bytes, Bytes)>, k: nat, apos: bool): Bytes
    requires k <= |attrs|
    decreases |attrs| - k
  {
    if k == |attrs| then [] else PrintAttr(attrs[k].0, attrs[k].1, apos) + PrintAttrs(attrs, k + 1, apos)
  }

  function CloseTagText(name: Bytes): Bytes { [LT, SLASH] + name + [GT] }

  /** What follows the attributes: the seal of an element, or its children and closing tag. */
  function PrintBody(t: Tree, apos: bool): Bytes
    requires t.Elem?
    decreases t, 1
  {
    if t.kids == [] then [SLASH, GT] else [GT] + (PrintTrees(t.kids, 0, apos) + CloseTagText(t.name))
  }

  function PrintTree(t: Tree, apos: bool): Bytes
    decreases t, 2
  {
    match t
    case Elem(name, attrs, kids) => [LT] + name + (PrintAttrs(attrs, 0, apos) + PrintBody(t, apos))
    case Txt(text) => Escaped(text, 0, Escape.Text)
    case Cdata(text) => CDATA_OPEN + text + CDATA_CLOSE
    case Remark(text) => COMMENT_OPEN + text + COMMENT_CLOSE
    case Decl(text) => DECLARATION_OPEN + text + DECLARATION_CLOSE
    case Dtd(text) => UNKNOWN_OPEN + text + [GT]
  }

  /** ts[k..]. */
  function PrintTrees(ts: seq<Tree>, k: nat, apos: bool): Bytes
    requires k <= |ts|
    decreases ts, |ts| - k
  {
    if k == |ts| then [] else PrintTree(ts[k], apos) + PrintTrees(ts, k + 1, apos)
  }

  // ---------------------------------------------------------------- printable trees

  ghost predicate ValidName(name: Bytes) {
    name != [] && IsNameStart(name[0]) && forall i :: 0 <= i < |name| ==> IsNameChar(name[i])
  }

  ghost predicate Plain(v: Bytes) {
    forall i :: 0 <= i < |v| ==> v[i] != 0 && v[i] != CR
  }

  ghost predicate ValidAttrs(attrs: seq<(Bytes, Bytes)>) {
    && (forall i :: 0 <= i < |attrs| ==> ValidName(attrs[i].0) && Plain(attrs[i].1))
    && forall i, j :: 0 <= i < j < |attrs| ==> attrs[i].0 != attrs[j].0
  }

  ghost predicate Lacks(v: Bytes, mark: Bytes) {
    forall i :: 0 <= i <= |v| ==> !StartsAt(v, i, mark)
  }

  ghost predicate Valid(t: Tree) {
    match t
    case Elem(name, attrs, kids) =>
      ValidName(name) && ValidAttrs(attrs) && ValidList(kids) && forall k :: k in kids ==> !k.Decl?
    case Txt(text) => Plain(text) && SkipSpace(text, 0) < |text|
    case Cdata(text) => Plain(text) && Lacks(text, CDATA_CLOSE)
    case Remark(text) => Plain(text) && Lacks(text, COMMENT_CLOSE)
    case Decl(text) => Plain(text) && Lacks(text, DECLARATION_CLOSE)
    case Dtd(text) => Plain(text) && GT !in text && !(COMMENT_OPEN[2..] <= text) && !(CDATA_OPEN[2..] <= text)
  }

  /** Text nodes are never adjacent. */
  ghost predicate ValidList(ts: seq<Tree>) {
    && (forall t :: t in ts ==> Valid(t))
    && forall i :: 0 <= i < |ts| - 1 ==> ts[i].Txt? ==> !ts[i + 1].Txt?
  }

  /** Declarations come first, and no text at either end. */
  ghost predicate ValidDocument(ts: seq<Tree>) {
    && ts != [] && ValidList(ts) && !ts[0].Txt? && !ts[|ts| - 1].Txt?
    && forall i, j :: 0 <= j < i < |ts| && ts[i].Decl? ==> ts[j].Decl?
  }

  /** The number of nested elements that have children. */
  function Height(t: Tree): nat {
    if t.Elem? && t.kids != [] then 1 + MaxHeight(t.kids) else 0
  }

  function MaxHeight(ts: seq<Tree>): (r: nat)
    ensures forall t :: t in ts ==> Height(t) <= r
  {
    if ts == [] then 0
    else
      var h, r := Height(ts[0]), MaxHeight(ts[1..]);
      assert forall t :: t in ts ==> t == ts[0] || t in ts[1..];
      if h < r then r else h
  }

  // ---------------------------------------------------------------- the trees of parsed nodes

  /** The string a slice stands for, once read. */
  ghost function Str(s: Bytes, x: Slice): Bytes {
    if InText(s, x) then Value(Raw(s, x), x.mode) else []
  }

  ghost function AttrValues(s: Bytes, attrs: seq<Attr>): (r: seq<(Bytes, Bytes)>)
    ensures |r| == |attrs|
  {
    seq(|attrs|, i requires 0 <= i < |attrs| => (Str(s, attrs[i].name), Str(s, attrs[i].value)))
  }

  ghost function TreeOf(s: Bytes, n: Node): Tree {
    match n
    case Element(_, name, attrs, kids, _) => Elem(Str(s, name), AttrValues(s, attrs), TreesOf(s, kids))
    case Text(x, cdata) => if cdata then Cdata(Str(s, x)) else Txt(Str(s, x))
    case Comment(x) => Remark(Str(s, x))
    case Declaration(x) => Decl(Str(s, x))
    case Unknown(x) => Dtd(Str(s, x))
  }

  ghost function TreesOf(s: Bytes, ns: seq<Node>): (r: seq<Tree>)
    ensures |r| == |ns|
  {
    if ns == [] then [] else TreesOf(s, ns[..|ns| - 1]) + [TreeOf(s, ns[|ns| - 1])]
  }

  lemma TreesOfMore(s: Bytes, ns: seq<Node>, n: Node)
    ensures TreesOf(s, ns + [n]) == TreesOf(s, ns) + [TreeOf(s, n)]
  {
    assert (ns + [n])[..|ns|] == ns;
  }
}
