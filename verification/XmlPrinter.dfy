/** XMLPrinter writing to its buffer in compact mode, and what it writes for a tree. */
module XmlPrinter {
  import opened XmlBytes
  import opened Decode
  import opened Escape
  import opened RoundTrip
  import opened XmlTree
  import opened XmlParser

  const INT_MAX: nat := 0x7FFF_FFFF

  // ---------------------------------------------------------------- strings that are too long

  /** Just after the last flagged byte of v, or 0. */
  function TailStart(v: Bytes, style: Style, to: nat): (r: nat)
    requires to <= |v|
    ensures r <= to
    ensures forall i :: r <= i < to ==> !Flagged(v[i], style)
    ensures r > 0 ==> Flagged(v[r - 1], style)
  {
    if to == 0 || Flagged(v[to - 1], style) then to else TailStart(v, style, to - 1)
  }

  /** The final flush of PrintString is not repeated, so it covers at most INT_MAX bytes. */
  function Lost(v: Bytes, style: Style): (r: nat)
    ensures r <= |v|
  {
    var run := |v| - TailStart(v, style, |v|);
    if run > INT_MAX then run - INT_MAX else 0
  }

  /** What of v reaches the buffer. */
  function Kept(v: Bytes, style: Style): Bytes {
    v[..|v| - Lost(v, style)]
  }

  /** Printing loses nothing exactly when the run after the last flagged byte is short enough. */
  lemma KeptIff(v: Bytes, style: Style)
    requires forall i :: 0 <= i < |v| ==> v[i] != CR && v[i] != 0
    ensures Value(Escaped(Kept(v, style), 0, style), READ_MODE) == v
       <==> |v| - TailStart(v, style, |v|) <= INT_MAX
  {
    hide Escaped, Value;
    ValueOfEscaped(Kept(v, style), style);
  }

  lemma TailIs(v: Bytes, style: Style, p: nat, to: nat)
    requires p <= to <= |v| && (forall i :: p <= i < to ==> !Flagged(v[i], style))
    requires p > 0 ==> Flagged(v[p - 1], style)
    ensures TailStart(v, style, to) == p
  {
    var r := TailStart(v, style, to);
    if r != p {
      assert false;
    }
  }

  /** One letter more than INT_MAX: the last one is not printed and does not come back. */
  lemma OverlongIsCut(v: Bytes, style: Style)
    requires v == seq(INT_MAX + 1, _ => 97)
    ensures Lost(v, style) == 1
    ensures Value(Escaped(Kept(v, style), 0, style), READ_MODE) == v[..INT_MAX] != v
  {
    hide Escaped, Value;
    TailIs(v, style, 0, |v|);
    ValueOfEscaped(Kept(v, style), style);
  }

  /** The tree whose strings are what the printer keeps. */
  function Cut(t: Tree, apos: bool): Tree {
    match t
    case Elem(name, attrs, kids) => Elem(name, CutAttrs(attrs, apos), CutAll(kids, apos))
    case Txt(text) => Txt(Kept(text, Escape.Text))
    case _ => t
  }

  function CutAttrs(attrs: seq<(Bytes, Bytes)>, apos: bool): (r: seq<(Bytes, Bytes)>)
    ensures |r| == |attrs|
  {
    if attrs == [] then []
    else CutAttrs(attrs[..|attrs| - 1], apos) +
         [(attrs[|attrs| - 1].0, Kept(attrs[|attrs| - 1].1, Attribute(apos)))]
  }

  function CutAll(ts: seq<Tree>, apos: bool): (r: seq<Tree>)
    ensures |r| == |ts|
  {
    if ts == [] then [] else CutAll(ts[..|ts| - 1], apos) + [Cut(ts[|ts| - 1], apos)]
  }

  lemma {:induction false} CutAttrsAt(attrs: seq<(Bytes, Bytes)>, apos: bool, k: nat)
    requires k < |attrs|
    ensures CutAttrs(attrs, apos)[k] == (attrs[k].0, Kept(attrs[k].1, Attribute(apos)))
  {
    hide Kept;
    if k < |attrs| - 1 {
      CutAttrsAt(attrs[..|attrs| - 1], apos, k);
    }
  }

  lemma {:induction false} CutAllAt(ts: seq<Tree>, apos: bool, k: nat)
    requires k < |ts|
    ensures CutAll(ts, apos)[k] == Cut(ts[k], apos)
  {
    hide Cut;
    if k < |ts| - 1 {
      CutAllAt(ts[..|ts| - 1], apos, k);
    }
  }

  /** No string of the tree has an over-long run after its last flagged byte. */
  ghost predicate Fits(t: Tree, apos: bool) {
    match t
    case Elem(_, attrs, kids) =>
      && (forall i :: 0 <= i < |attrs| ==> Lost(attrs[i].1, Attribute(apos)) == 0)
      && forall k :: k in kids ==> Fits(k, apos)
    case Txt(text) => Lost(text, Escape.Text) == 0
    case _ => true
  }

  lemma {:induction false} CutKeeps(t: Tree, apos: bool)
    ensures Cut(t, apos) == t <==> Fits(t, apos)
    decreases t, 1
  {
    hide Lost;
    match t
    case Elem(name, attrs, kids) =>
      forall i | 0 <= i < |attrs|
        ensures CutAttrs(attrs, apos)[i] == attrs[i] <==> Lost(attrs[i].1, Attribute(apos)) == 0
      {
        CutAttrsAt(attrs, apos, i);
        KeptAll(attrs[i].1, Attribute(apos));
        assert attrs[i] == (attrs[i].0, attrs[i].1);
      }
      CutAllKeeps(kids, apos);
      assert CutAttrs(attrs, apos) == attrs <==>
        forall i :: 0 <= i < |attrs| ==> CutAttrs(attrs, apos)[i] == attrs[i];
    case Txt(text) => KeptAll(text, Escape.Text);
    case _ =>
  }

  lemma KeptAll(v: Bytes, style: Style)
    ensures Kept(v, style) == v <==> Lost(v, style) == 0
  {
    assert |Kept(v, style)| == |v| - Lost(v, style);
    assert v[..|v|] == v;
  }

  lemma {:induction false} CutAllKeeps(ts: seq<Tree>, apos: bool)
    ensures CutAll(ts, apos) == ts <==> forall t :: t in ts ==> Fits(t, apos)
    decreases ts, 0
  {
    hide Cut, Fits;
    forall k | 0 <= k < |ts|
      ensures CutAll(ts, apos)[k] == ts[k] <==> Fits(ts[k], apos)
    {
      CutAllAt(ts, apos, k);
      CutKeeps(ts[k], apos);
    }
    assert CutAll(ts, apos) == ts <==> forall k :: 0 <= k < |ts| ==> CutAll(ts, apos)[k] == ts[k];
    assert forall k :: 0 <= k < |ts| ==> ts[k] in ts;
    assert (forall t :: t in ts ==> Fits(t, apos)) <==> forall k :: 0 <= k < |ts| ==> Fits(ts[k], apos);
  }

  // ---------------------------------------------------------------- facts the loops need

  lemma {:induction false} EscapedRun(v: Bytes, p: nat, q: nat, style: Style)
    requires p <= q <= |v| && forall i :: p <= i < q ==> !Flagged(v[i], style)
    ensures Escaped(v, p, style) == v[p..q] + Escaped(v, q, style)
    decreases q - p
  {
    hide Flagged, Named, Escaped;
    if p < q {
      EscapedRun(v, p + 1, q, style);
      EscapedUnfolds(v, p, style);
      assert v[p..q] == [v[p]] + v[p + 1..q];
      Regroup([v[p]], v[p + 1..q], Escaped(v, q, style), []);
    } else {
      assert v[p..q] == [] && [] + Escaped(v, q, style) == Escaped(v, q, style);
    }
  }

  lemma {:induction false} EscapedPrefix(v: Bytes, n: nat, k: nat, style: Style)
    requires k <= n <= |v|
    ensures Escaped(v[..n], k, style) + Escaped(v, n, style) == Escaped(v, k, style)
    decreases n - k
  {
    if k < n {
      EscapedPrefix(v, n, k + 1, style);
    }
  }

  /** A flagged byte after a run of others: what the flush and the entity add. */
  lemma EscapedStep(v: Bytes, p: nat, q: nat, style: Style, out: Bytes)
    requires p <= q < |v| && Flagged(v[q], style) && forall i :: p <= i < q ==> !Flagged(v[i], style)
    requires out + Escaped(v, p, style) == Escaped(v, 0, style)
    ensures out + (v[p..q] + Named(v[q], style)) + Escaped(v, q + 1, style) == Escaped(v, 0, style)
  {
    hide Flagged, Named;
    EscapedRun(v, p, q, style);
    var x, y, z := v[p..q], Named(v[q], style), Escaped(v, q + 1, style);
    assert out + (x + (y + z)) == out + (x + y) + z;
  }

  lemma SamePrefix(a: Bytes, b: Bytes, x: Bytes, y: Bytes)
    requires a + b == x + y && |b| == |y|
    ensures a == x
  {
    assert a == (a + b)[..|a|] && x == (x + y)[..|x|];
  }

  /** What the final flush of v[p..] leaves written. */
  lemma FinalFlush(v: Bytes, p: nat, style: Style, out: Bytes)
    requires p <= |v| && out + Escaped(v, p, style) == Escaped(v, 0, style)
    requires p == TailStart(v, style, |v|)
    ensures var n := if INT_MAX < |v| - p then p + INT_MAX else |v|;
      p <= n && out + v[p..n] == Escaped(Kept(v, style), 0, style)
  {
    hide Escaped, Flagged;
    var n := |v| - Lost(v, style);
    EscapedPrefix(v, n, 0, style);
    EscapedRun(v, p, n, style);
    var y, z := v[p..n], Escaped(v, n, style);
    assert out + (y + z) == out + y + z;
    SamePrefix(out + y, z, Escaped(v[..n], 0, style), z);
  }

  lemma {:induction false} PrintAttrsMore(attrs: seq<(Bytes, Bytes)>, k: nat, apos: bool)
    requires k < |attrs|
    ensures PrintAttrs(attrs[..k + 1], 0, apos) ==
      PrintAttrs(attrs[..k], 0, apos) + PrintAttr(attrs[k].0, attrs[k].1, apos)
  {
    hide PrintAttr;
    PrintAttrsSplit(attrs[..k + 1], 0, k, apos);
    assert attrs[..k + 1][..k] == attrs[..k];
    assert PrintAttrs(attrs[..k + 1], k + 1, apos) == [];
  }

  lemma {:induction false} PrintAttrsSplit(attrs: seq<(Bytes, Bytes)>, j: nat, k: nat, apos: bool)
    requires j <= k <= |attrs|
    ensures PrintAttrs(attrs, j, apos) == PrintAttrs(attrs[..k], j, apos) + PrintAttrs(attrs, k, apos)
    decreases k - j
  {
    hide PrintAttr;
    if j < k {
      PrintAttrsSplit(attrs, j + 1, k, apos);
    }
  }

  lemma {:induction false} PrintTreesMore(ts: seq<Tree>, k: nat, apos: bool)
    requires k < |ts|
    ensures PrintTrees(ts[..k + 1], 0, apos) == PrintTrees(ts[..k], 0, apos) + PrintTree(ts[k], apos)
  {
    hide PrintTree;
    PrintTreesSplit(ts[..k + 1], 0, k, apos);
    assert ts[..k + 1][..k] == ts[..k];
    assert PrintTrees(ts[..k + 1], k + 1, apos) == [];
  }

  lemma {:induction false} PrintTreesSplit(ts: seq<Tree>, j: nat, k: nat, apos: bool)
    requires j <= k <= |ts|
    ensures PrintTrees(ts, j, apos) == PrintTrees(ts[..k], j, apos) + PrintTrees(ts, k, apos)
    decreases k - j
  {
    hide PrintTree;
    if j < k {
      PrintTreesSplit(ts, j + 1, k, apos);
    }
  }

  lemma CutAttrsMore(attrs: seq<(Bytes, Bytes)>, apos: bool, k: nat)
    requires k < |attrs|
    ensures CutAttrs(attrs[..k + 1], apos) ==
      CutAttrs(attrs[..k], apos) + [(attrs[k].0, Kept(attrs[k].1, Attribute(apos)))]
  {
    assert attrs[..k + 1][..k] == attrs[..k];
  }

  lemma CutAllMore(ts: seq<Tree>, apos: bool, k: nat)
    requires k < |ts|
    ensures CutAll(ts[..k + 1], apos) == CutAll(ts[..k], apos) + [Cut(ts[k], apos)]
  {
    assert ts[..k + 1][..k] == ts[..k];
  }

  // ---------------------------------------------------------------- the printer

  class XMLPrinter {
    var elementJustOpened: bool
    var stack: seq<Bytes>
    const apos: bool
    const processEntities: bool
    const entityFlag: seq<bool>
    const restrictedEntityFlag: seq<bool>
    var buffer: Bytes

    ghost predicate Valid()
      reads this
    {
      && buffer != [] && buffer[|buffer| - 1] == 0
      && |entityFlag| == |restrictedEntityFlag| == 64
      && (forall b: byte :: b < 64 ==> entityFlag[b] == Flagged(b, Attribute(apos)))
      && (forall b: byte :: b < 64 ==> restrictedEntityFlag[b] == Flagged(b, Escape.Text))
    }

    /** The buffer without its terminating NUL. */
    ghost function Printed(): Bytes
      reads this
      requires Valid()
    {
      buffer[..|buffer| - 1]
    }

    /** What closing an open tag still adds. */
    ghost function Seal(): Bytes
      reads this
    {
      if elementJustOpened then [GT] else []
    }

    constructor (apos: bool, processEntities: bool)
      ensures Valid() && Printed() == [] && stack == [] && !elementJustOpened
      ensures this.apos == apos && this.processEntities == processEntities
    {
      var flags := seq(64, i => false);
      var i := 0;
      while i < 5
        invariant i <= 5 && |flags| == 64
        invariant forall b: byte :: b < 64 ==>
          (flags[b] <==> exists j :: 0 <= j < i && ENTITIES[j].value == b && (apos || b != APOS))
      {
        if apos || ENTITIES[i].value != APOS {
          flags := flags[ENTITIES[i].value := true];
        }
        i := i + 1;
      }
      forall b: byte | b < 64
        ensures flags[b] == Flagged(b, Attribute(apos))
      {
        if Flagged(b, Attribute(apos)) {
          FlaggedHasEntity(b, Attribute(apos));
          assert ENTITIES[EntityOf(b, 0)].value == b;
        }
      }
      elementJustOpened, stack, buffer := false, [], [0];
      this.apos, this.processEntities := apos, processEntities;
      entityFlag := flags;
      restrictedEntityFlag := seq(64, i => false)[AMP := true][LT := true][GT := true];
    }

    method Write(data: Bytes)
      requires Valid()
      modifies this`buffer
      ensures Valid() && Printed() == old(Printed()) + data
    {
      buffer := buffer[..|buffer| - 1] + data + [0];
    }

    method Putc(ch: byte)
      requires Valid()
      modifies this`buffer
      ensures Valid() && Printed() == old(Printed()) + [ch]
    {
      buffer := buffer[..|buffer| - 1] + [ch] + [0];
    }

    /** The first table entry with the byte's value. */
    method PrintEntity(b: byte, ghost style: Style)
      requires Valid() && Flagged(b, style)
      modifies this`buffer
      ensures Valid() && Printed() == old(Printed()) + Named(b, style)
    {
      FlaggedHasEntity(b, style);
      var i := 0;
      while i < 5
        invariant i <= 5 && EntityOf(b, i) == EntityOf(b, 0) && buffer == old(buffer)
      {
        if ENTITIES[i].value == b {
          Putc(AMP);
          Write(ENTITIES[i].pattern);
          Putc(SEMI);
          return;
        }
        i := i + 1;
      }
    }

    /** The flush before an entity: in chunks of at most INT_MAX bytes. */
    method FlushRun(s: Bytes, p0: nat, q: nat)
      requires Valid() && p0 <= q <= |s|
      modifies this`buffer
      ensures Valid() && Printed() == old(Printed()) + s[p0..q]
    {
      var p := p0;
      while p < q
        invariant p0 <= p <= q && Valid() && Printed() == old(Printed()) + s[p0..p]
        decreases q - p
      {
        var toPrint := if INT_MAX < q - p then INT_MAX else q - p;
        Write(s[p..p + toPrint]);
        assert s[p0..p] + s[p..p + toPrint] == s[p0..p + toPrint];
        p := p + toPrint;
      }
    }

    /** A run and the entity after it. */
    method FlushEntity(s: Bytes, p: nat, q: nat, ghost style: Style)
      requires Valid() && p <= q < |s| && Flagged(s[q], style)
      modifies this`buffer
      ensures Valid() && Printed() == old(Printed()) + (s[p..q] + Named(s[q], style))
    {
      FlushRun(s, p, q);
      PrintEntity(s[q], style);
    }

    /** The flush at the end: one chunk. */
    method FlushTail(s: Bytes, p: nat)
      requires Valid() && p <= |s|
      modifies this`buffer
      ensures Valid() && Printed() == old(Printed()) + s[p..if INT_MAX < |s| - p then p + INT_MAX else |s|]
    {
      if p < |s| {
        var toPrint := if INT_MAX < |s| - p then INT_MAX else |s| - p;
        Write(s[p..p + toPrint]);
      }
    }

    /** The look-up in the flag table; bytes beyond it are never flagged. */
    predicate HasFlag(b: byte, restricted: bool): (r: bool)
      reads this
      requires Valid()
      ensures r == Flagged(b, if restricted then Escape.Text else Attribute(apos))
    {
      b < 64 && if restricted then restrictedEntityFlag[b] else entityFlag[b]
    }

    /** Runs of bytes between entities are printed at once. */
    method PrintString(s: Bytes, restricted: bool)
      requires Valid() && NoNul(s)
      modifies this`buffer
      ensures Valid()
      ensures var style := if restricted then Escape.Text else Attribute(apos);
        Printed() == old(Printed()) + if processEntities then Escaped(Kept(s, style), 0, style) else s
    {
      hide Escaped, Flagged, Kept, TailStart, Named;
      ghost var style := if restricted then Escape.Text else Attribute(apos);
      if processEntities {
        var p, q := 0, 0;
        ghost var out: Bytes := [];
        while q < |s|
          invariant p <= q <= |s| && Valid()
          invariant Printed() == old(Printed()) + out
          invariant out + Escaped(s, p, style) == Escaped(s, 0, style)
          invariant forall i :: p <= i < q ==> !Flagged(s[i], style)
          invariant p > 0 ==> Flagged(s[p - 1], style)
        {
          if HasFlag(s[q], restricted) {
            EscapedStep(s, p, q, style, out);
            FlushEntity(s, p, q, style);
            out := out + (s[p..q] + Named(s[q], style));
            p := q + 1;
          }
          q := q + 1;
        }
        TailIs(s, style, p, |s|);
        FinalFlush(s, p, style, out);
        FlushTail(s, p);
      } else {
        Write(s);
      }
    }

    method SealElementIfJustOpened()
      requires Valid()
      modifies this`buffer, this`elementJustOpened
      ensures Valid() && !elementJustOpened && Printed() == old(Printed() + Seal())
    {
      if !elementJustOpened {
        return;
      }
      elementJustOpened := false;
      Putc(GT);
    }

    method OpenElement(name: Bytes)
      requires Valid()
      modifies this
      ensures Valid() && elementJustOpened && stack == old(stack) + [name]
      ensures Printed() == old(Printed() + Seal()) + ([LT] + name)
    {
      SealElementIfJustOpened();
      stack := stack + [name];
      Write([LT]);
      Write(name);
      elementJustOpened := true;
    }

    method PushAttribute(name: Bytes, value: Bytes)
      requires Valid() && elementJustOpened && NoNul(value)
      modifies this`buffer
      ensures Valid()
      ensures processEntities ==>
        Printed() == old(Printed()) + PrintAttr(name, Kept(value, Attribute(apos)), apos)
      ensures !processEntities ==> Printed() == old(Printed()) + ([SPACE] + name + [EQ, QUOTE] + value + [QUOTE])
    {
      hide Escaped, Kept;
      Putc(SPACE);
      Write(name);
      Write([EQ, QUOTE]);
      PrintString(value, false);
      Putc(QUOTE);
    }

    method CloseElement()
      requires Valid() && stack != []
      modifies this
      ensures Valid() && !elementJustOpened && stack == old(stack)[..|old(stack)| - 1]
      ensures Printed() == old(Printed()) +
        if old(elementJustOpened) then [SLASH, GT] else CloseTagText(old(stack)[|old(stack)| - 1])
    {
      var name := stack[|stack| - 1];
      stack := stack[..|stack| - 1];
      Regroup(Printed(), [LT, SLASH], name, [GT]);
      if elementJustOpened {
        Write([SLASH, GT]);
      } else {
        Write([LT, SLASH]);
        Write(name);
        Write([GT]);
      }
      elementJustOpened := false;
    }

    method PushText(text: Bytes, cdata: bool)
      requires Valid() && NoNul(text)
      modifies this`buffer, this`elementJustOpened
      ensures Valid() && !elementJustOpened
      ensures cdata ==> Printed() == old(Printed() + Seal()) + (CDATA_OPEN + text + CDATA_CLOSE)
      ensures !cdata && processEntities ==>
        Printed() == old(Printed() + Seal()) + Escaped(Kept(text, Escape.Text), 0, Escape.Text)
      ensures !cdata && !processEntities ==> Printed() == old(Printed() + Seal()) + text
    {
      hide Escaped, Kept;
      SealElementIfJustOpened();
      if cdata {
        Write(CDATA_OPEN);
        Write(text);
        Write(CDATA_CLOSE);
      } else {
        PrintString(text, true);
      }
    }

    /** PushComment, PushDeclaration and PushUnknown. */
    method PushMarked(open: Bytes, text: Bytes, close: Bytes)
      requires Valid()
      modifies this`buffer, this`elementJustOpened
      ensures Valid() && !elementJustOpened && Printed() == old(Printed() + Seal()) + (open + text + close)
    {
      SealElementIfJustOpened();
      Write(open);
      Write(text);
      Write(close);
    }

    /** VisitEnter of an element. */
    method EnterElement(t: Tree)
      requires Valid() && processEntities && t.Elem? && Readable(t)
      modifies this
      ensures Valid() && elementJustOpened && stack == old(stack) + [t.name]
      ensures Printed() == old(Printed() + Seal()) + ([LT] + t.name + PrintAttrs(CutAttrs(t.attrs, apos), 0, apos))
    {
      hide Kept, PrintAttr, CutAttrs, PrintAttrs;
      OpenElement(t.name);
      ghost var start := Printed();
      NothingPrinted(t.attrs, apos);
      for i := 0 to |t.attrs|
        invariant Valid() && elementJustOpened && stack == old(stack) + [t.name]
        invariant Printed() == start + PrintAttrs(CutAttrs(t.attrs[..i], apos), 0, apos)
      {
        PushAttribute(t.attrs[i].0, t.attrs[i].1);
        AttributePrinted(t.attrs, apos, i);
      }
      assert t.attrs[..|t.attrs|] == t.attrs;
    }

    /** XMLNode::Accept with this visitor: after the seal of an open tag, the compact print of the tree. */
    method Visit(t: Tree)
      requires Valid() && processEntities && Readable(t)
      modifies this
      ensures Valid() && !elementJustOpened && stack == old(stack)
      ensures Printed() == old(Printed() + Seal()) + PrintTree(Cut(t, apos), apos)
      decreases t, 1
    {
      hide Kept, PrintTree, Cut;
      if t.Elem? {
        VisitElement(t);
      } else {
        LeafPrinted(t, apos);
        match t
        case Txt(text) => PushText(text, false);
        case Cdata(text) => PushText(text, true);
        case Remark(text) => PushMarked(COMMENT_OPEN, text, COMMENT_CLOSE);
        case Decl(text) => PushMarked(DECLARATION_OPEN, text, DECLARATION_CLOSE);
        case Dtd(text) => PushMarked(UNKNOWN_OPEN, text, [GT]);
      }
    }

    method VisitElement(t: Tree)
      requires Valid() && processEntities && t.Elem? && Readable(t)
      modifies this
      ensures Valid() && !elementJustOpened && stack == old(stack)
      ensures Printed() == old(Printed() + Seal()) + PrintTree(Cut(t, apos), apos)
      decreases t, 0
    {
      hide Kept, PrintAttrs, CutAttrs, PrintTrees, CutAll, PrintTree, Cut;
      EnterElement(t);
      VisitAll(t.kids);
      CloseElement();
      assert stack == old(stack);
      ElementPrinted(t, apos);
    }

    /** The loop over the children of an element or a document. */
    method VisitAll(ts: seq<Tree>)
      requires Valid() && processEntities && forall t :: t in ts ==> Readable(t)
      modifies this
      ensures Valid() && stack == old(stack) && elementJustOpened == (ts == [] && old(elementJustOpened))
      ensures Printed() == old(Printed()) +
        (if ts == [] then [] else old(Seal()) + PrintTrees(CutAll(ts, apos), 0, apos))
      decreases ts, 0
    {
      hide PrintTree, Cut, PrintTrees, CutAll;
      NoTreePrinted(ts, apos);
      for i := 0 to |ts|
        invariant Valid() && stack == old(stack) && elementJustOpened == (i == 0 && old(elementJustOpened))
        invariant Printed() == old(Printed()) +
          (if i == 0 then [] else old(Seal()) + PrintTrees(CutAll(ts[..i], apos), 0, apos))
      {
        Visit(ts[i]);
        TreePrinted(ts, apos, i);
      }
      assert ts[..|ts|] == ts;
    }
  }

  /** The strings of a tree are C strings. */
  ghost predicate Readable(t: Tree) {
    match t
    case Elem(_, attrs, kids) =>
      (forall i :: 0 <= i < |attrs| ==> NoNul(attrs[i].1)) && forall k :: k in kids ==> Readable(k)
    case _ => NoNul(t.text)
  }

  lemma NothingPrinted(attrs: seq<(Bytes, Bytes)>, apos: bool)
    ensures attrs[..0] == [] && PrintAttrs(CutAttrs([], apos), 0, apos) == []
  {
  }

  lemma AttributePrinted(attrs: seq<(Bytes, Bytes)>, apos: bool, k: nat)
    requires k < |attrs|
    ensures PrintAttrs(CutAttrs(attrs[..k + 1], apos), 0, apos) ==
      PrintAttrs(CutAttrs(attrs[..k], apos), 0, apos) +
      PrintAttr(attrs[k].0, Kept(attrs[k].1, Attribute(apos)), apos)
  {
    hide PrintAttr, Kept;
    var more := CutAttrs(attrs[..k + 1], apos);
    CutAttrsMore(attrs, apos, k);
    PrintAttrsMore(more, k, apos);
    assert more[..k + 1] == more && more[..k] == CutAttrs(attrs[..k], apos);
  }

  lemma NoTreePrinted(ts: seq<Tree>, apos: bool)
    ensures ts[..0] == [] && PrintTrees(CutAll([], apos), 0, apos) == []
  {
  }

  lemma TreePrinted(ts: seq<Tree>, apos: bool, k: nat)
    requires k < |ts|
    ensures PrintTrees(CutAll(ts[..k + 1], apos), 0, apos) ==
      PrintTrees(CutAll(ts[..k], apos), 0, apos) + PrintTree(Cut(ts[k], apos), apos)
    ensures k == 0 ==> PrintTrees(CutAll(ts[..k], apos), 0, apos) == []
  {
    hide PrintTree, Cut;
    var more := CutAll(ts[..k + 1], apos);
    CutAllMore(ts, apos, k);
    PrintTreesMore(more, k, apos);
    assert more[..k + 1] == more && more[..k] == CutAll(ts[..k], apos);
  }

  lemma ElementPrinted(t: Tree, apos: bool)
    requires t.Elem?
    ensures PrintTree(Cut(t, apos), apos) ==
      [LT] + t.name + PrintAttrs(CutAttrs(t.attrs, apos), 0, apos) +
      if t.kids == [] then [SLASH, GT]
      else [GT] + PrintTrees(CutAll(t.kids, apos), 0, apos) + CloseTagText(t.name)
  {
    hide PrintAttrs, CutAttrs, PrintTrees, CutAll, CloseTagText;
    var c := Cut(t, apos);
    assert c.kids == [] <==> t.kids == [];
  }

  lemma LeafPrinted(t: Tree, apos: bool)
    ensures t.Txt? ==> PrintTree(Cut(t, apos), apos) == Escaped(Kept(t.text, Escape.Text), 0, Escape.Text)
    ensures t.Cdata? ==> PrintTree(Cut(t, apos), apos) == CDATA_OPEN + t.text + CDATA_CLOSE
    ensures t.Remark? ==> PrintTree(Cut(t, apos), apos) == COMMENT_OPEN + t.text + COMMENT_CLOSE
    ensures t.Decl? ==> PrintTree(Cut(t, apos), apos) == DECLARATION_OPEN + t.text + DECLARATION_CLOSE
    ensures t.Dtd? ==> PrintTree(Cut(t, apos), apos) == UNKNOWN_OPEN + t.text + [GT]
  {
    hide Kept, Escaped;
  }

  // ---------------------------------------------------------------- printing, then parsing

  /** A document that is printed and parsed again is unchanged. */
  method PrintAndParse(ts: seq<Tree>, apos: bool, cfg: Config) returns (text: Bytes)
    requires ValidDocument(ts) && (forall t :: t in ts ==> Readable(t) && Fits(t, apos))
    requires MaxHeight(ts) <= 498 && RoundTrip.Lossless(cfg)
    ensures var d := ParseDocument(text, cfg); d.Accepted? && TreesOf(text, d.kids) == ts
  {
    hide PrintTrees, CutAll, ParseDocument, TreesOf, ValidList, MaxHeight, Fits;
    var printer := new XMLPrinter(apos, true);
    printer.VisitAll(ts);
    CutAllKeeps(ts, apos);
    text := printer.buffer[..|printer.buffer| - 1];
    DocumentRoundTrip(ts, cfg, apos);
    assert text == PrintTrees(ts, 0, apos);
  }
}
