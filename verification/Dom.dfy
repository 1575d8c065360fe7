/** The intrusive doubly-linked tree of XMLNode, the list of unlinked nodes, and deletion. */
module Dom {
  import opened DynArray

  /** `kids` is the child list the links stand for. */
  class XMLNode {
    var parent: XMLNode?
    var firstChild: XMLNode?
    var lastChild: XMLNode?
    var prev: XMLNode?
    var next: XMLNode?
    ghost var kids: seq<XMLNode>

    constructor ()
      ensures parent == null && prev == null && next == null && kids == [] && ChildrenLinked(this)
    {
      parent, firstChild, lastChild, prev, next := null, null, null, null, null;
      kids := [];
    }
  }

  // ---------------------------------------------------------------- sequences

  function Nth(s: seq<XMLNode>, i: int): XMLNode? { if 0 <= i < |s| then s[i] else null }

  /** The elements of s[i..]. */
  ghost function Elements(s: seq<XMLNode>, i: nat): (r: set<XMLNode>)
    requires i <= |s|
    ensures forall j :: i <= j < |s| ==> s[j] in r
    ensures forall x :: x in r ==> x in s
  {
    set j | i <= j < |s| :: s[j]
  }

  lemma ElementsFrom(s: seq<XMLNode>, i: nat, loose: set<XMLNode>)
    requires Distinct(s) && i <= |s| && Elements(s, 0) !! loose
    ensures i == |s| ==> loose + Elements(s, i) == loose
    ensures i < |s| ==> s[i] in Elements(s, i) && loose + Elements(s, i) - {s[i]} == loose + Elements(s, i + 1)
    ensures i < |s| ==> Elements(s, i) == Elements(s, i + 1) + {s[i]} && s[i] !in Elements(s, i + 1)
  {
  }

  ghost predicate Distinct(s: seq<XMLNode>) { forall i, j :: 0 <= i < j < |s| ==> s[i] != s[j] }

  /** The sequence without x. */
  ghost function Without(s: seq<XMLNode>, x: XMLNode): (r: seq<XMLNode>)
    ensures forall y :: y in r ==> y in s && y != x
    ensures forall y :: y in s && y != x ==> y in r
  {
    if s == [] then []
    else if s[|s| - 1] == x then Without(s[..|s| - 1], x)
    else Without(s[..|s| - 1], x) + [s[|s| - 1]]
  }

  lemma {:induction false} WithoutAbsent(s: seq<XMLNode>, x: XMLNode)
    requires x !in s
    ensures Without(s, x) == s
  {
    if s != [] {
      WithoutAbsent(s[..|s| - 1], x);
    }
  }

  lemma {:induction false} WithoutDistinct(s: seq<XMLNode>, x: XMLNode)
    requires Distinct(s)
    ensures Distinct(Without(s, x))
  {
    if s != [] {
      var n := |s| - 1;
      WithoutDistinct(s[..n], x);
      assert s[n] !in s[..n];
    }
  }

  lemma {:induction false} WithoutIs(s: seq<XMLNode>, i: nat)
    requires Distinct(s) && i < |s|
    ensures Without(s, s[i]) == s[..i] + s[i + 1..]
  {
    var n := |s| - 1;
    if i == n {
      WithoutAbsent(s[..n], s[n]);
    } else {
      WithoutIs(s[..n], i);
      assert s[..n][..i] + s[..n][i + 1..] + [s[n]] == s[..i] + s[i + 1..];
    }
  }

  // ---------------------------------------------------------------- well-formed trees

  /** x is between the given places of s. */
  ghost predicate Between(x: XMLNode, s: seq<XMLNode>, before: int, after: int)
    reads x
  {
    x.prev == Nth(s, before) && x.next == Nth(s, after)
  }

  ghost predicate Tied(x: XMLNode, s: seq<XMLNode>, i: int)
    reads x
  {
    Between(x, s, i - 1, i + 1)
  }

  ghost predicate AllTied(s: seq<XMLNode>)
    reads s
  {
    Distinct(s) && forall j {:trigger Tied(s[j], s, j)} :: 0 <= j < |s| ==> Tied(s[j], s, j)
  }

  ghost predicate ChildrenLinked(n: XMLNode)
    reads n, n.kids
  {
    && n.firstChild == Nth(n.kids, 0) && n.lastChild == Nth(n.kids, |n.kids| - 1)
    && (forall k :: k in n.kids ==> k.parent == n)
    && AllTied(n.kids)
  }

  class XMLDocument {
    const root: XMLNode            // the document is a node itself
    var unlinked: seq<XMLNode>
    ghost var nodes: set<XMLNode>  // all nodes but those under destruction
    ghost var live: set<XMLNode>   // all nodes whose memory has not been freed
    ghost var rank: map<XMLNode, nat>

    /** Every child has a smaller rank than its parent, so that no node is below itself. */
    ghost predicate Ranked(loose: set<XMLNode>)
      reads `nodes, `rank, nodes
    {
      && root in nodes && root !in loose && (forall n :: n in nodes ==> n in rank)
      && (forall n, k :: n in nodes && k in n.kids ==> k in nodes && k !in loose && rank[k] < rank[n])
    }

    ghost predicate Lists()
      reads `nodes, nodes
    {
      && (forall n, k :: n in nodes && k in n.kids ==> k in nodes)
      && (forall n :: n in nodes ==> ChildrenLinked(n))
    }

    ghost predicate Parents(loose: set<XMLNode>)
      reads `nodes, nodes
    {
      && root in nodes && root.parent == null
      && (forall n :: n in nodes && n !in loose && n.parent != null ==> n.parent in nodes && n in n.parent.kids)
      && (forall n :: n in nodes && n !in loose && n.parent == null ==> n.prev == null && n.next == null)
    }

    /**
     The trees are well linked. `loose` are nodes in transit: they are in no child list, nor among
     the unlinked.
     */
    ghost predicate Linked(loose: set<XMLNode>)
      reads `nodes, `rank, nodes
    {
      Ranked(loose) && Lists() && Parents(loose)
    }

    /** A node is among the unlinked ones, once, exactly when it has no parent and is not the document. */
    ghost predicate Listed(loose: set<XMLNode>)
      reads `nodes, `unlinked, nodes
    {
      && Distinct(unlinked)
      && (forall n :: n in unlinked ==> n in nodes && n != root && n !in loose && n.parent == null)
      && (forall n :: n in nodes && n != root && n !in loose && n.parent == null ==> n in unlinked)
    }

    ghost predicate Valid()
      reads this, nodes
    {
      Linked({}) && Listed({}) && live == nodes
    }

    constructor ()
      ensures Valid() && nodes == {root} && fresh(root)
    {
      root := new XMLNode();
      unlinked := [];
      new;
      nodes, live, rank := {root}, {root}, map[root := 0];
    }

    /** The linear search and SwapRemove. */
    method MarkInUse(node: XMLNode)
      requires Distinct(unlinked)
      modifies this`unlinked
      ensures Distinct(unlinked) && unlinked == SwapRemoved(old(unlinked), node)
      ensures forall n :: n in unlinked <==> n in old(unlinked) && n != node
    {
      hide PlaceOf, SwapRemoved;
      var i := 0;
      while i < |unlinked| && node != unlinked[i]
        invariant i <= |unlinked| && unlinked == old(unlinked) && forall j :: 0 <= j < i ==> unlinked[j] != node
      {
        i := i + 1;
      }
      SwapFacts(unlinked, node, i);
      if i < |unlinked| {
        unlinked := unlinked[i := unlinked[|unlinked| - 1]][..|unlinked| - 1];
      }
    }

    /** XMLNode::Unlink. */
    method Unlink(p: XMLNode, child: XMLNode, ghost loose: set<XMLNode>)
      requires Linked(loose) && p in nodes && child in nodes && child !in loose && child.parent == p
      modifies p, p.kids
      ensures Linked(loose + {child})
      ensures child.parent == null && child.prev == null && child.next == null
      ensures p.kids == Without(old(p.kids), child)
      ensures SameAbove(p)
      ensures forall k :: k in old(p.kids) ==> SameBelow(k) && (k != child ==> k.parent == p)
    {
      hide ChildrenLinked, Ranked, Lists, Parents;
      ghost var s := p.kids;
      FamilyFacts(p, loose);
      ghost var i :| 0 <= i < |s| && s[i] == child;
      WithoutIs(s, i);
      UnlinkAt(p, child, i);
      forall n | n in nodes && n != p
        ensures SameBelow(n) && forall k :: k in n.kids ==> SameAbove(k)
      {
        assert n in s ==> SameBelow(n);
        forall k | k in n.kids
          ensures SameAbove(k)
        {
          assert k !in s;
        }
      }
      ghost var m := Move(this, p, child, loose);
      RankedLater(m);
      ListsLater(m);
      ParentsLater(m);
    }

    /** `sub` is closed downwards and entered through a only: the subtree of a. */
    ghost predicate Subtree(a: XMLNode, sub: set<XMLNode>)
      reads `nodes, nodes
    {
      && a in sub && sub <= nodes
      && (forall n, k :: n in sub && n in nodes && k in n.kids ==> k in sub)
      && (forall n, k :: n in nodes && k in n.kids && k in sub && k != a ==> n in sub)
    }

    /** Every node has a subtree: whether it may join a node can always be told. */
    lemma {:induction false} SubtreeOf(n: XMLNode) returns (sub: set<XMLNode>)
      requires Linked({}) && n in nodes
      ensures Subtree(n, sub) && forall m :: m in sub ==> m in rank && rank[m] <= rank[n]
      ensures forall m :: m in sub && m != n ==> m.parent != null && m.parent in sub
      decreases rank[n], |n.kids| + 1
    {
      sub := SubtreesOf(n, |n.kids|);
      sub := sub + {n};
    }

    lemma OnlyParent(n: XMLNode, k: XMLNode)
      requires Linked({}) && n in nodes && k in n.kids
      ensures k in nodes && k.parent == n && k in rank && n in rank && rank[k] < rank[n]
      ensures forall m :: m in nodes && k in m.kids ==> m == n
    {
      forall m | m in nodes && k in m.kids
        ensures m == n
      {
        assert ChildrenLinked(m) && ChildrenLinked(n);
      }
    }

    /** The subtrees of the first i children together. */
    lemma {:induction false} SubtreesOf(n: XMLNode, i: nat) returns (sub: set<XMLNode>)
      requires Linked({}) && n in nodes && i <= |n.kids|
      ensures sub <= nodes && forall m :: m in sub ==> m in rank && rank[m] < rank[n]
      ensures forall j :: 0 <= j < i ==> n.kids[j] in sub
      ensures forall m, k :: m in sub && k in m.kids ==> k in sub
      ensures forall m, k :: m in nodes && k in m.kids && k in sub ==> m in sub || m == n
      ensures forall m :: m in sub ==> m.parent != null && (m.parent in sub || m.parent == n)
      decreases rank[n], i
    {
      hide Linked;
      sub := {};
      if i > 0 {
        var rest := SubtreesOf(n, i - 1);
        var k := n.kids[i - 1];
        OnlyParent(n, k);
        var below := SubtreeOf(k);
        sub := rest + below;
      }
    }

    /** InsertChildPreamble: the node leaves its parent, or the list of unlinked nodes. */
    method InsertChildPreamble(a: XMLNode, ghost sub: set<XMLNode>)
      requires Valid() && a in nodes && a != root && Subtree(a, sub)
      modifies this`unlinked, nodes
      ensures Linked({a}) && Listed({a}) && Subtree(a, sub) && Single(a)
      ensures forall n :: n in nodes ==> n.kids == Without(old(n.kids), a)
    {
      hide Ranked, Lists, Parents;
      NoSelf(a);
      if a.parent != null {
        FamilyFacts(a.parent, {});
        Unlink(a.parent, a, {});
        assert {} + {a} == {a};
      } else {
        NoKid(a);
        LinkedLoose(a);
        MarkInUse(a);
      }
    }

    /** In whose lists a node occurs. */
    lemma NoSelf(a: XMLNode)
      requires Linked({}) && a in nodes
      ensures a.parent != null ==> a.parent in nodes
      ensures forall n :: n in nodes && n != a.parent ==> Without(n.kids, a) == n.kids
    {
      forall n | n in nodes && n != a.parent
        ensures Without(n.kids, a) == n.kids
      {
        assert ChildrenLinked(n);
        WithoutAbsent(n.kids, a);
      }
    }

    lemma NoKid(a: XMLNode)
      requires Linked({}) && a in nodes && a.parent == null
      ensures Single(a) && forall n :: n in nodes ==> Without(n.kids, a) == n.kids
    {
      forall n | n in nodes
        ensures Without(n.kids, a) == n.kids
      {
        assert ChildrenLinked(n);
        WithoutAbsent(n.kids, a);
      }
    }

    lemma LinkedLoose(a: XMLNode)
      requires Linked({}) && a in nodes && a.parent == null && a != root
      ensures Linked({a})
    {
      forall n | n in nodes
        ensures a !in n.kids
      {
        assert ChildrenLinked(n);
      }
    }

    /** a is p, or a parent, or a parent's parent, and so on up to k steps. */
    ghost predicate Climbs(p: XMLNode, a: XMLNode, k: nat)
      reads `nodes, nodes
    {
      p == a || (k > 0 && p in nodes && p.parent != null && Climbs(p.parent, a, k - 1))
    }

    ghost predicate IsBelow(p: XMLNode, a: XMLNode)
      reads `nodes, nodes
    {
      exists k :: Climbs(p, a, k)
    }

    /** Whether a may become a child of p: both are nodes, and p is not a or below it. */
    ghost predicate MayJoin(p: XMLNode, a: XMLNode)
      reads `nodes, nodes
    {
      p in nodes && a in nodes && a != root && !IsBelow(p, a)
    }

    /** The subtree of a node is what is below it. */
    lemma SubtreeIs(a: XMLNode) returns (sub: set<XMLNode>)
      requires Linked({}) && a in nodes
      ensures Subtree(a, sub) && forall m :: m in sub <==> m in nodes && IsBelow(m, a)
    {
      sub := SubtreeOf(a);
      forall m | m in sub
        ensures IsBelow(m, a)
      {
        UpToRoot(a, sub, m);
      }
      forall m, k | m in nodes && Climbs(m, a, k)
        ensures m in sub
      {
        DownFrom(a, sub, m, k);
      }
    }

    lemma {:induction false} UpToRoot(a: XMLNode, sub: set<XMLNode>, m: XMLNode)
      requires Linked({}) && a in nodes && m in sub && sub <= nodes && forall n :: n in sub ==> rank[n] <= rank[a]
      requires forall n :: n in sub && n != a ==> n.parent != null && n.parent in sub
      ensures IsBelow(m, a)
      decreases rank[a] - rank[m]
    {
      if m == a {
        assert Climbs(m, a, 0);
      } else {
        assert m in m.parent.kids;
        UpToRoot(a, sub, m.parent);
        var k: nat :| Climbs(m.parent, a, k);
        assert Climbs(m, a, k + 1);
      }
    }

    lemma {:induction false} DownFrom(a: XMLNode, sub: set<XMLNode>, m: XMLNode, k: nat)
      requires Linked({}) && Subtree(a, sub) && m in nodes && Climbs(m, a, k)
      ensures m in sub
      decreases k
    {
      if m != a {
        assert m in m.parent.kids;
        DownFrom(a, sub, m.parent, k - 1);
      }
    }

    /** The nodes that p must not be among. */
    lemma Region(p: XMLNode, a: XMLNode) returns (sub: set<XMLNode>)
      requires Valid() && MayJoin(p, a)
      ensures Subtree(a, sub) && p !in sub && p in nodes && a in nodes && a != root
    {
      hide Subtree, Ranked, Lists, Parents, IsBelow;
      sub := SubtreeIs(a);
    }

    method InsertEndChild(p: XMLNode, a: XMLNode)
      requires Valid() && MayJoin(p, a)
      modifies this`unlinked, this`rank, nodes
      ensures Valid() && p.kids == Without(old(p.kids), a) + [a]
      ensures nodes == old(nodes) && forall n :: n in nodes && n != p ==> n.kids == Without(old(n.kids), a)
    {
      hide Ranked, Lists, Parents, Listed, Subtree, ChildrenLinked, MayJoin;
      ghost var sub := Region(p, a);
      InsertChildPreamble(a, sub);
      InNodes(p, a, sub);
      JoinLast(p, a, sub);
    }

    method InsertFirstChild(p: XMLNode, a: XMLNode)
      requires Valid() && MayJoin(p, a)
      modifies this`unlinked, this`rank, nodes
      ensures Valid() && p.kids == [a] + Without(old(p.kids), a)
      ensures nodes == old(nodes) && forall n :: n in nodes && n != p ==> n.kids == Without(old(n.kids), a)
    {
      hide Ranked, Lists, Parents, Listed, Subtree, ChildrenLinked, MayJoin;
      ghost var sub := Region(p, a);
      InsertChildPreamble(a, sub);
      InNodes(p, a, sub);
      JoinFirst(p, a, sub);
    }

    lemma InNodes(p: XMLNode, a: XMLNode, sub: set<XMLNode>)
      requires InTransit(p, a, sub)
      ensures forall k :: k in p.kids ==> k in nodes && k != p && k != a
      ensures forall n :: n in nodes ==> forall k :: k in n.kids ==> k in nodes
      ensures p != a
    {
      FamilyFacts(p, {a});
    }

    /**
     Null if b is no child of p; nothing happens if b is a. Excluded is the case that a is the last
     child and directly after b: then b has no next node once a has left.
     */
    method InsertAfterChild(p: XMLNode, b: XMLNode, a: XMLNode) returns (r: XMLNode?)
      requires Valid() && MayJoin(p, a) && b in nodes
      requires b.parent == p && b != a ==> !(b.next == a && a.next == null)
      modifies this`unlinked, this`rank, nodes
      ensures Valid() && r == if old(b.parent) == p then a else null
      ensures nodes == old(nodes)
      ensures old(b.parent) != p || b == a ==> forall n :: n in nodes ==> n.kids == old(n.kids)
      ensures old(b.parent) == p && b != a ==>
        var w := Without(old(p.kids), a); b in w && p.kids == InsertAt(w, PlaceOf(w, b) + 1, a)
      ensures old(b.parent) == p && b != a ==> forall n :: n in nodes && n != p ==> n.kids == Without(old(n.kids), a)
    {
      hide Ranked, Lists, Parents, Listed, Subtree, ChildrenLinked, InsertAt, MayJoin, PlaceOf, Without, Distinct;
      ghost var sub := Region(p, a);
      if b.parent != p {
        return null;
      }
      if b == a {
        return a;
      }
      ghost var i := NextOf(p, b);
      ghost var w := Without(p.kids, a);
      if b.next == null {
        AtEnd(p.kids, a, i);
        InsertEndChild(p, a);
      } else {
        ghost var j := StillNext(p.kids, a, i);
        InsertChildPreamble(a, sub);
        InNodes(p, a, sub);
        JoinAfter(p, b, a, j, sub);
      }
      r := a;
    }

    /** The place of a child, and what its next link says about it. */
    lemma NextOf(p: XMLNode, b: XMLNode) returns (i: nat)
      requires Valid() && p in nodes && b in nodes && b.parent == p
      ensures i < |p.kids| && p.kids[i] == b && Distinct(p.kids) && (b.next == null <==> i == |p.kids| - 1)
      ensures i + 1 < |p.kids| ==> p.kids[i + 1] == b.next
      ensures i + 2 == |p.kids| ==> p.kids[i + 1].next == null
    {
      i :| 0 <= i < |p.kids| && p.kids[i] == b;
      assert ChildrenLinked(p);
      assert Tied(p.kids[i], p.kids, i);
      if i + 2 == |p.kids| {
        assert Tied(p.kids[i + 1], p.kids, i + 1);
      }
    }

    /** The excluded case: with a out of the way b has no next node whose link could be set. */
    method AfterChildCorner(p: XMLNode, b: XMLNode, a: XMLNode)
      requires Valid() && MayJoin(p, a) && b in nodes && b.parent == p && b.next == a && a.next == null
      requires b != a
      modifies this`unlinked, nodes
      ensures b.next == null
    {
      hide Ranked, Lists, Parents, Listed, Subtree, ChildrenLinked;
      ghost var sub := Region(p, a);
      ghost var i := NextOf(p, b);
      ghost var s := p.kids;
      FamilyFacts(p, {});
      LastTwo(p, i, a);
      InsertChildPreamble(a, sub);
      InNodes(p, a, sub);
      WithoutIs(s, i + 1);
      TransitFacts(p, a, sub);
      LastHasNoNext(p, i);
    }

    lemma LastTwo(p: XMLNode, i: nat, a: XMLNode)
      requires ChildrenLinked(p) && i + 1 < |p.kids| && p.kids[i + 1] == a && a.next == null
      ensures i + 2 == |p.kids|
    {
      assert Tied(p.kids[i + 1], p.kids, i + 1);
    }

    lemma LastHasNoNext(p: XMLNode, i: nat)
      requires ChildrenLinked(p) && i + 1 == |p.kids|
      ensures p.kids[i].next == null
    {
      assert Tied(p.kids[i], p.kids, i);
    }

    /** What holds between InsertChildPreamble and the insertion: a is in no list. */
    ghost predicate InTransit(p: XMLNode, a: XMLNode, sub: set<XMLNode>)
      reads this, nodes
    {
      && Linked({a}) && Listed({a}) && Subtree(a, sub) && live == nodes
      && p in nodes && a in nodes && a != root && p !in sub && Single(a)
    }

    lemma TransitFacts(p: XMLNode, a: XMLNode, sub: set<XMLNode>)
      requires InTransit(p, a, sub)
      ensures a in rank && a != p && a !in p.kids && p !in p.kids && ChildrenLinked(p)
      ensures forall k :: k in p.kids ==> k.parent == p && k in nodes
      ensures forall n, k :: n in nodes && k in n.kids && n != p ==> k !in p.kids && k != a
    {
      FamilyFacts(p, {a});
    }

    method JoinLast(p: XMLNode, a: XMLNode, ghost sub: set<XMLNode>)
      requires InTransit(p, a, sub)
      modifies p, p.kids, a, this`rank
      ensures Valid() && p.kids == old(p.kids) + [a]
      ensures forall n :: n in nodes && n != p ==> n.kids == old(n.kids)
    {
      hide ChildrenLinked, Ranked, Lists, Parents, Listed, Subtree;
      TransitFacts(p, a, sub);
      LinkLast(p, a);
      rank := Lifted(rank, sub, a);
      Grafted(Graft(this, p, a, sub));
    }

    method JoinFirst(p: XMLNode, a: XMLNode, ghost sub: set<XMLNode>)
      requires InTransit(p, a, sub)
      modifies p, p.kids, a, this`rank
      ensures Valid() && p.kids == [a] + old(p.kids)
      ensures forall n :: n in nodes && n != p ==> n.kids == old(n.kids)
    {
      hide ChildrenLinked, Ranked, Lists, Parents, Listed, Subtree;
      TransitFacts(p, a, sub);
      LinkFirst(p, a);
      rank := Lifted(rank, sub, a);
      Grafted(Graft(this, p, a, sub));
    }

    method JoinAfter(p: XMLNode, b: XMLNode, a: XMLNode, ghost i: nat, ghost sub: set<XMLNode>)
      requires InTransit(p, a, sub) && i + 1 < |p.kids| && p.kids[i] == b
      modifies p, p.kids, a, this`rank
      ensures Valid() && p.kids == InsertAt(old(p.kids), i + 1, a)
      ensures forall n :: n in nodes && n != p ==> n.kids == old(n.kids)
    {
      hide ChildrenLinked, Ranked, Lists, Parents, Listed, Subtree, InsertAt;
      TransitFacts(p, a, sub);
      InsertAtHolds(p.kids, i + 1, a);
      LinkAfter(p, b, a, i);
      rank := Lifted(rank, sub, a);
      Grafted(Graft(this, p, a, sub));
    }

    // ---------------------------------------------------------------- creation and deletion

    /** A node without links joins the others, with the lowest rank. */
    ghost method Adopt(n: XMLNode)
      requires Linked({}) && n !in nodes && Single(n) && n.kids == [] && ChildrenLinked(n)
      modifies this`nodes, this`live, this`rank
      ensures Linked({}) && nodes == old(nodes) + {n} && live == old(live) + {n}
    {
      hide ChildrenLinked;
      nodes, live, rank := nodes + {n}, live + {n}, rank[n := 0];
    }

    /** CreateUnlinkedNode. */
    method CreateUnlinkedNode() returns (n: XMLNode)
      requires Valid()
      modifies this`unlinked, this`nodes, this`live, this`rank
      ensures Valid() && fresh(n) && nodes == old(nodes) + {n} && n.kids == [] && unlinked == old(unlinked) + [n]
      ensures forall m :: m in old(nodes) ==> m.kids == old(m.kids)
    {
      hide Linked;
      n := new XMLNode();
      assert n !in unlinked;
      Adopt(n);
      unlinked := unlinked + [n];
    }

    /** The memory of a node is given back once: it must be live. */
    method Free(n: XMLNode)
      requires n in live
      modifies this`live
      ensures live == old(live) - {n}
    {
      live := live - {n};
    }

    /** What a node under destruction leaves behind: its children are in transit. */
    lemma Orphaned(n: XMLNode, loose: set<XMLNode>)
      requires Linked(loose) && Listed(loose) && n in nodes && n in loose && n != root
      ensures forall m, k :: m in nodes && k in m.kids ==> k != n && (k in n.kids ==> m == n)
      ensures forall k :: k in n.kids ==> k in nodes && k !in loose && k != root && k.parent == n && k !in unlinked
      ensures rank.Keys >= nodes && forall k :: k in n.kids ==> k in rank && rank[k] < rank[n]
      ensures AllTied(n.kids) && n.firstChild == Nth(n.kids, 0)
    {
      assert ChildrenLinked(n);
      forall m, k | m in nodes && k in m.kids && k in n.kids
        ensures m == n
      {
        assert ChildrenLinked(m);
      }
    }

    /** From here on the destructor of n is at work. */
    ghost method Condemn(n: XMLNode, loose: set<XMLNode>)
      requires Linked(loose) && Listed(loose) && nodes <= live && n in nodes && n in loose && n != root
      modifies this`nodes
      ensures nodes == old(nodes) - {n}
      ensures Linked(loose - {n} + Elements(n.kids, 0)) && Listed(loose - {n} + Elements(n.kids, 0))
    {
      Orphaned(n, loose);
      nodes := nodes - {n};
    }

    /** A node in transit forgets its parent. */
    method Detach(k: XMLNode, ghost loose: set<XMLNode>)
      requires Linked(loose) && Listed(loose) && k in nodes && k in loose
      modifies k`parent
      ensures Linked(loose) && Listed(loose) && k.parent == null
    {
      hide ChildrenLinked;
      assert forall n, c :: n in nodes && c in n.kids ==> c != k;
      k.parent := null;
      forall n | n in nodes
        ensures ChildrenLinked(n)
      {
        StillLinked(n);
      }
    }

    /** ~XMLNode and the return of the memory: the node goes with all nodes below it. */
    method Destroy(n: XMLNode, ghost loose: set<XMLNode>) returns (ghost gone: set<XMLNode>)
      requires Linked(loose) && Listed(loose) && nodes <= live && n in nodes && n in loose && n != root
      requires n.parent == null
      modifies this`nodes, this`live, this`unlinked, nodes
      ensures n in gone && gone <= old(nodes) && forall m :: m in gone ==> m in rank && rank[m] <= rank[n]
      ensures forall m, k :: m in gone && m in old(nodes) && k in old(m.kids) ==> k in gone
      ensures forall m :: m in gone && m in old(nodes) && m != n ==> old(m.parent) != null && old(m.parent) in gone
      ensures nodes == old(nodes) - gone && live == old(live) - gone && unlinked == old(unlinked)
      ensures Linked(loose - {n}) && Listed(loose - {n})
      ensures forall m :: m in nodes ==> SameAbove(m) && SameBelow(m)
      decreases rank[n], 2
    {
      hide ChildrenLinked, Elements, AllTied, Linked, Listed;
      ghost var s := n.kids;
      Orphaned(n, loose);
      Condemn(n, loose);
      var current := n.firstChild;
      gone := DestroyKids(n, current, s, loose - {n});
      Free(n);
      gone := gone + {n};
    }

    /** One round of the loop of ~XMLNode. */
    method DestroyChild(n: XMLNode, k: XMLNode, ghost loose: set<XMLNode>) returns (ghost gone: set<XMLNode>)
      requires Linked(loose) && Listed(loose) && nodes <= live && k in nodes && k in loose && k != root
      requires n !in nodes && k.parent == n && n in rank && k in rank && rank[k] < rank[n]
      modifies this`nodes, this`live, this`unlinked, nodes
      ensures k in gone && gone <= old(nodes) && forall m :: m in gone ==> m in rank && rank[m] < rank[n]
      ensures forall m, c :: m in gone && m in old(nodes) && c in old(m.kids) ==> c in gone
      ensures forall m :: m in gone && m in old(nodes) && m != k ==>
        old(m.parent) != null && old(m.parent) != n && old(m.parent) in gone
      ensures nodes == old(nodes) - gone && live == old(live) - gone && unlinked == old(unlinked)
      ensures Linked(loose - {k}) && Listed(loose - {k})
      ensures forall m :: m in nodes ==> SameAbove(m) && SameBelow(m)
      decreases rank[n], 0
    {
      hide Linked;
      assert k !in unlinked && Distinct(unlinked);
      Detach(k, loose);
      MarkInUse(k);
      gone := Destroy(k, loose);
    }

    /** The loop of ~XMLNode over the children s of n. */
    method DestroyKids(n: XMLNode, first: XMLNode?, ghost s: seq<XMLNode>, ghost loose: set<XMLNode>)
      returns (ghost gone: set<XMLNode>)
      requires Linked(loose + Elements(s, 0)) && Listed(loose + Elements(s, 0)) && nodes <= live
      requires n !in nodes && n in rank && Elements(s, 0) <= nodes && Elements(s, 0) !! loose
      requires AllTied(s) && first == Nth(s, 0)
      requires forall k :: k in s ==> k.parent == n && k != root && k in rank && rank[k] < rank[n]
      modifies this`nodes, this`live, this`unlinked, nodes
      ensures Elements(s, 0) <= gone <= old(nodes) && forall m :: m in gone ==> m in rank && rank[m] < rank[n]
      ensures forall m, k :: m in gone && m in old(nodes) && k in old(m.kids) ==> k in gone
      ensures forall m :: m in gone && m in old(nodes) && m !in s ==> old(m.parent) != null && old(m.parent) in gone
      ensures nodes == old(nodes) - gone && live == old(live) - gone && unlinked == old(unlinked)
      ensures Linked(loose) && Listed(loose)
      ensures forall m :: m in nodes ==> SameAbove(m) && SameBelow(m)
      decreases rank[n], 1
    {
      hide Linked, Listed, Elements;
      gone := {};
      var current := first;
      ghost var i := 0;
      while current != null
        invariant i <= |s| && current == Nth(s, i)
        invariant Linked(loose + Elements(s, i)) && Listed(loose + Elements(s, i))
        invariant gone <= old(nodes) && nodes == old(nodes) - gone && live == old(live) - gone
        invariant unlinked == old(unlinked)
        invariant rank == old(rank) && Elements(s, i) <= nodes && forall j :: 0 <= j < i ==> s[j] in gone
        invariant forall m :: m in gone ==> m in rank && rank[m] < rank[n]
        invariant forall m, k :: m in gone && m in old(nodes) && k in old(m.kids) ==> k in gone
        invariant forall m :: m in gone && m in old(nodes) && m !in s ==> old(m.parent) != null && old(m.parent) in gone
        invariant forall m :: m in nodes ==> SameAbove(m) && SameBelow(m)
        decreases |s| - i
      {
        ElementsFrom(s, i, loose);
        assert old(Tied(s[i], s, i));
        var next := current.next;
        ghost var g := DestroyChild(n, current, loose + Elements(s, i));
        gone := gone + g;
        current, i := next, i + 1;
      }
      ElementsFrom(s, i, loose);
    }

    /** XMLNode::DeleteNode of a node that has no parent. */
    method DeleteUnlinked(n: XMLNode) returns (ghost gone: set<XMLNode>)
      requires Valid() && n in nodes && n != root && n.parent == null
      modifies this`nodes, this`live, this`unlinked, nodes
      ensures Valid() && n in gone && gone <= old(nodes) && nodes == old(nodes) - gone && n !in unlinked
      ensures forall m, k :: m in gone && m in old(nodes) && k in old(m.kids) ==> k in gone
      ensures forall m :: m in gone && m in old(nodes) && m != n ==> old(m.parent) != null && old(m.parent) in gone
      ensures forall m :: m in nodes ==> SameAbove(m) && SameBelow(m)
    {
      hide Linked;
      LinkedLoose(n);
      MarkInUse(n);
      gone := Destroy(n, {n});
      assert {n} - {n} == {};
    }

    /** The child leaves the list of p. */
    method TakeOut(p: XMLNode, n: XMLNode)
      requires Valid() && p in nodes && n in nodes && n.parent == p
      modifies this`unlinked, p, p.kids
      ensures Linked({n}) && Listed({n}) && n.parent == null && n != root && unlinked == old(unlinked)
      ensures p.kids == Without(old(p.kids), n) && rank[n] < rank[p]
      ensures forall m :: m in nodes && m != p ==> SameBelow(m)
      ensures forall m :: m in nodes && m != n ==> m.parent == old(m.parent)
    {
      hide Linked, ChildrenLinked;
      ghost var family := p.kids;
      FamilyFacts(p, {});
      Unlink(p, n, {});
      assert {} + {n} == {n};
      assert Listed({n});
      MarkInUse(n);
    }

    /** The child leaves the list of p, and is destroyed with all nodes below it. */
    method DeleteChild(p: XMLNode, n: XMLNode) returns (ghost gone: set<XMLNode>)
      requires Valid() && p in nodes && n in nodes && n.parent == p
      modifies this`nodes, this`live, this`unlinked, nodes
      ensures Valid() && n in gone && gone <= old(nodes) && nodes == old(nodes) - gone
      ensures forall m, k :: m in gone && m in old(nodes) && k in old(m.kids) ==> k in gone
      ensures forall m :: m in gone && m in old(nodes) && m != n ==> old(m.parent) != null && old(m.parent) in gone
      ensures p in nodes && p.kids == Without(old(p.kids), n)
      ensures forall m :: m in nodes && m != p ==> SameBelow(m)
    {
      hide Linked, Listed;
      assert forall k :: k in p.kids ==> k in nodes by { FamilyFacts(p, {}); }
      TakeOut(p, n);
      gone := Destroy(n, {n});
      assert {n} - {n} == {};
    }

    method DeleteChildren(p: XMLNode)
      requires Valid() && p in nodes
      modifies this`nodes, this`live, this`unlinked, nodes
      ensures Valid() && p in nodes && nodes <= old(nodes) && p.kids == [] && p.firstChild == null
      ensures forall m :: m in nodes && m != p ==> m.kids == old(m.kids)
    {
      hide Linked, Listed;
      FirstChild(p);
      while p.firstChild != null
        invariant Valid() && p in nodes && nodes <= old(nodes)
        invariant p.firstChild == Nth(p.kids, 0)
        invariant p.firstChild != null ==> p.firstChild in nodes && p.firstChild.parent == p
        invariant forall m :: m in nodes && m != p ==> m.kids == old(m.kids)
        decreases |nodes|
      {
        ghost var before := nodes;
        ghost var gone := DeleteChild(p, p.firstChild);
        FewerLeft(before, gone, nodes);
        FirstChild(p);
      }
    }

    lemma FirstChild(p: XMLNode)
      requires Valid() && p in nodes
      ensures p.firstChild == Nth(p.kids, 0)
      ensures p.firstChild != null ==> p.firstChild in nodes && p.firstChild.parent == p
    {
      assert ChildrenLinked(p);
    }

    /** Deletes every node, those in the tree and those that never got there, once each. */
    method Clear()
      requires Valid()
      modifies this`nodes, this`live, this`unlinked, nodes
      ensures Valid() && nodes == live == {root} && unlinked == []
    {
      hide Linked, Listed;
      assert root in nodes by { RootFacts(); }
      DeleteChildren(root);
      while |unlinked| > 0
        invariant Valid() && root in nodes && nodes <= old(nodes) && root.kids == []
        decreases |nodes|
      {
        RootFacts();
        ghost var before := nodes;
        ghost var gone := DeleteUnlinked(unlinked[0]);
        FewerLeft(before, gone, nodes);
        RootFacts();
      }
      NobodyLeft();
    }

    lemma RootFacts()
      requires Valid()
      ensures root in nodes && root.parent == null
      ensures forall n :: n in unlinked ==> n in nodes && n != root && n.parent == null
    {
    }

    /** Without unlinked nodes and children of the document there are no other nodes. */
    lemma NobodyLeft()
      requires Valid() && unlinked == [] && root.kids == []
      ensures nodes == {root}
    {
      if nodes != {root} {
        var rest := nodes - {root};
        assert rest != {};
        var top := Highest(rest, rank);
        assert false;
      }
    }

    /** Nobody else has a child of p, and p is not its own child. */
    lemma FamilyFacts(p: XMLNode, loose: set<XMLNode>)
      requires Linked(loose) && p in nodes
      ensures ChildrenLinked(p) && p !in p.kids && Distinct(p.kids)
      ensures forall n :: n in nodes && n !in loose && n.parent == p ==> n in p.kids
      ensures forall k :: k in p.kids ==> k.parent == p && k in nodes && k !in loose && k != root
      ensures forall n, k :: n in nodes && k in n.kids && n != p ==> k !in p.kids
      ensures p in rank && forall k :: k in p.kids ==> k in rank && rank[k] < rank[p]
    {
    }
  }

  /** A child list none of whose links was touched. */
  twostate lemma StillLinked(n: XMLNode)
    requires old(ChildrenLinked(n)) && SameBelow(n) && forall k :: k in n.kids ==> SameAbove(k)
    ensures ChildrenLinked(n)
  {
    forall j | 0 <= j < |n.kids|
      ensures Tied(n.kids[j], n.kids, j)
    {
      assert n.kids[j] in n.kids && SameAbove(n.kids[j]);
      assert old(Tied(n.kids[j], n.kids, j));
    }
  }

  /** A child leaves the list of p, or joins it. */
  datatype Move = Move(doc: XMLDocument, p: XMLNode, child: XMLNode, loose: set<XMLNode>)

  twostate lemma RankedLater(m: Move)
    requires old(m.doc.Ranked(m.loose)) && m.doc.nodes == old(m.doc.nodes) && m.doc.rank == old(m.doc.rank)
    requires m.p in m.doc.nodes && m.child in old(m.p.kids) && m.child != m.doc.root
    requires forall n :: n in m.doc.nodes && n != m.p ==> n.kids == old(n.kids) && m.child !in n.kids
    requires m.p.kids == Without(old(m.p.kids), m.child)
    ensures m.doc.Ranked(m.loose + {m.child})
  {
  }

  twostate lemma ListsLater(m: Move)
    requires old(m.doc.Lists()) && m.doc.nodes == old(m.doc.nodes) && m.p in m.doc.nodes && ChildrenLinked(m.p)
    requires forall k :: k in m.p.kids ==> k in m.doc.nodes
    requires forall n :: n in m.doc.nodes && n != m.p ==> SameBelow(n) && forall k :: k in n.kids ==> SameAbove(k)
    ensures m.doc.Lists()
  {
    forall n | n in m.doc.nodes && n != m.p
      ensures ChildrenLinked(n)
    {
      StillLinked(n);
    }
  }

  twostate lemma ParentsLater(m: Move)
    requires old(m.doc.Parents(m.loose)) && m.doc.nodes == old(m.doc.nodes) && m.p in m.doc.nodes
    requires m.child != m.doc.root && m.p.kids == Without(old(m.p.kids), m.child)
    requires forall n :: n in m.doc.nodes && n != m.p ==> n.kids == old(n.kids)
    requires forall n :: n in m.doc.nodes && n != m.child ==> n.parent == old(n.parent)
    requires forall n :: n in m.doc.nodes && n !in old(m.p.kids) ==> SameAbove(n)
    requires forall k :: k in old(m.p.kids) && k != m.child ==> k.parent == m.p
    ensures m.doc.Parents(m.loose + {m.child})
  {
  }

  /** A node that was in no list joins the list of p, which is not below it. */
  datatype Graft = Graft(doc: XMLDocument, p: XMLNode, a: XMLNode, sub: set<XMLNode>)

  /** Ranks that put everything outside the subtree above its top. */
  ghost function Lifted(rank: map<XMLNode, nat>, sub: set<XMLNode>, a: XMLNode): map<XMLNode, nat>
    requires a in rank
  {
    map n | n in rank :: if n in sub then rank[n] else rank[n] + rank[a] + 1
  }

  twostate lemma Grafted(g: Graft)
    requires old(g.doc.InTransit(g.p, g.a, g.sub)) && g.doc.nodes == old(g.doc.nodes)
    requires g.doc.unlinked == old(g.doc.unlinked) && g.doc.live == old(g.doc.live)
    requires g.a in old(g.doc.rank) && g.doc.rank == Lifted(old(g.doc.rank), g.sub, g.a)
    requires ChildrenLinked(g.p)
    requires forall k :: k in g.p.kids ==> k in old(g.p.kids) || k == g.a
    requires g.a in g.p.kids && forall k :: k in old(g.p.kids) ==> k in g.p.kids
    requires forall n :: n in g.doc.nodes && n != g.p ==> SameBelow(n)
    requires forall n :: n in g.doc.nodes && n != g.a && n !in old(g.p.kids) ==> SameAbove(n)
    ensures g.doc.Valid()
  {
    hide ChildrenLinked, Lifted;
    KidsKept(g);
    Strangers(g);
    RankGrafted(g);
    ListsGrafted(g);
    ParentsGrafted(g);
  }

  twostate lemma KidsKept(g: Graft)
    requires old(ChildrenLinked(g.p)) && ChildrenLinked(g.p) && g.a in g.p.kids
    requires forall k :: k in old(g.p.kids) ==> k in g.p.kids
    ensures g.a.parent == g.p && forall k :: k in old(g.p.kids) ==> k.parent == old(k.parent) == g.p
  {
  }

  /** The children of others are not those of p. */
  twostate lemma Strangers(g: Graft)
    requires old(g.doc.InTransit(g.p, g.a, g.sub))
    ensures forall n, k :: n in old(g.doc.nodes) && n != g.p && k in old(n.kids) ==> k !in old(g.p.kids) && k != g.a
    ensures forall n, k :: n in old(g.doc.nodes) && k in old(n.kids) ==> k in old(g.doc.nodes)
  {
    assert old(ChildrenLinked(g.p));
    forall n, k | n in old(g.doc.nodes) && n != g.p && k in old(n.kids)
      ensures k !in old(g.p.kids)
    {
      assert old(ChildrenLinked(n));
    }
  }

  twostate lemma RankGrafted(g: Graft)
    requires old(g.doc.Ranked({g.a})) && old(g.doc.Subtree(g.a, g.sub)) && g.doc.nodes == old(g.doc.nodes)
    requires g.a in old(g.doc.rank) && g.doc.rank == Lifted(old(g.doc.rank), g.sub, g.a)
    requires g.p in g.doc.nodes && g.p !in g.sub && g.a in g.doc.nodes && g.a != g.doc.root
    requires forall k :: k in g.p.kids ==> k in old(g.p.kids) || k == g.a
    requires forall n :: n in g.doc.nodes && n != g.p ==> n.kids == old(n.kids)
    ensures g.doc.Ranked({})
  {
  }

  twostate lemma ListsGrafted(g: Graft)
    requires old(g.doc.Lists()) && g.doc.nodes == old(g.doc.nodes) && g.p in g.doc.nodes && ChildrenLinked(g.p)
    requires forall k :: k in g.p.kids ==> k in g.doc.nodes
    requires forall n :: n in g.doc.nodes && n != g.p ==> SameBelow(n) && forall k :: k in n.kids ==> SameAbove(k)
    ensures g.doc.Lists()
  {
    forall n | n in g.doc.nodes && n != g.p
      ensures ChildrenLinked(n)
    {
      StillLinked(n);
    }
  }

  twostate lemma ParentsGrafted(g: Graft)
    requires old(g.doc.Parents({g.a})) && old(g.doc.Listed({g.a})) && g.doc.nodes == old(g.doc.nodes)
    requires g.doc.unlinked == old(g.doc.unlinked) && g.a != g.doc.root
    requires g.p in g.doc.nodes && g.a.parent == g.p && g.a in g.p.kids
    requires forall k :: k in old(g.p.kids) ==> k in g.p.kids && k.parent == g.p
    requires forall n :: n in g.doc.nodes && n != g.p ==> n.kids == old(n.kids)
    requires forall n :: n in g.doc.nodes && n != g.a ==> n.parent == old(n.parent)
    requires forall n :: n in g.doc.nodes && n != g.a && n !in old(g.p.kids) ==> SameAbove(n)
    ensures g.doc.Parents({}) && g.doc.Listed({})
  {
  }

  // ---------------------------------------------------------------- surgery on one child list

  /** Of the children only the links to their siblings and parent change. */
  twostate predicate SameBelow(n: XMLNode)
    reads n
  {
    n.kids == old(n.kids) && n.firstChild == old(n.firstChild) && n.lastChild == old(n.lastChild)
  }

  twostate predicate SameAbove(n: XMLNode)
    reads n
  {
    n.parent == old(n.parent) && n.prev == old(n.prev) && n.next == old(n.next)
  }

  /** The links of p and of its children s with the i-th one left out. */
  ghost predicate Spliced(p: XMLNode, s: seq<XMLNode>, i: nat)
    reads p, s
  {
    && p.firstChild == Nth(s, if i == 0 then 1 else 0)
    && p.lastChild == Nth(s, if i == |s| - 1 then i - 1 else |s| - 1)
    && (forall j :: 0 <= j < |s| && j != i ==> s[j].parent == p)
    && AllSkip(s, i)
  }

  /** x is between its neighbours in s once the i-th place is left out. */
  ghost predicate Skips(x: XMLNode, s: seq<XMLNode>, i: int, j: int)
    reads x
  {
    Between(x, s, if j == i + 1 then i - 1 else j - 1, if j == i - 1 then i + 1 else j + 1)
  }

  lemma SplicedIsLinked(p: XMLNode, s: seq<XMLNode>, i: nat)
    requires i < |s| && Distinct(s) && Spliced(p, s, i) && p.kids == s[..i] + s[i + 1..]
    ensures ChildrenLinked(p)
  {
    var r := p.kids;
    forall j | 0 <= j < |r|
      ensures Tied(r[j], r, j)
    {
      var k := if j < i then j else j + 1;
      assert r[j] == s[k];
      assert Skips(s[k], s, i, k);
    }
  }

  ghost predicate AllSkip(s: seq<XMLNode>, i: nat)
    reads s
  {
    forall j {:trigger Skips(s[j], s, i, j)} :: 0 <= j < |s| && j != i ==> Skips(s[j], s, i, j)
  }

  predicate Among(x: XMLNode?, s: seq<XMLNode>) { x != null ==> x in s }

  /** The four link writes of XMLNode::Unlink, and what they change. */
  method BypassLinks(child: XMLNode, ghost s: seq<XMLNode>)
    requires child in s && Among(child.prev, s) && Among(child.next, s)
    requires child.prev != child && child.next != child
    modifies s
    ensures forall x :: x in s ==> SameBelow(x)
    ensures forall x :: x in s && x != child ==> x.parent == old(x.parent)
    ensures forall x :: x in s && x != child ==>
      x.next == (if x == old(child.prev) then old(child.next) else old(x.next))
    ensures forall x :: x in s && x != child ==>
      x.prev == (if x == old(child.next) then old(child.prev) else old(x.prev))
    ensures child.parent == null && child.prev == null && child.next == null
  {
    if child.prev != null {
      child.prev.next := child.next;
    }
    if child.next != null {
      child.next.prev := child.prev;
    }
    child.next, child.prev, child.parent := null, null, null;
  }

  /** The neighbours of the i-th node are linked to each other, and that node to nothing. */
  method Bypass(child: XMLNode, ghost s: seq<XMLNode>, ghost i: nat)
    requires AllTied(s) && i < |s| && s[i] == child
    modifies s
    ensures AllSkip(s, i)
    ensures forall x :: x in s ==> SameBelow(x) && (x != child ==> x.parent == old(x.parent))
    ensures child.parent == null && child.prev == null && child.next == null
  {
    hide Distinct;
    assert Tied(s[i], s, i);
    if i > 0 { DistinctAt(s, i - 1, i); }
    if i + 1 < |s| { DistinctAt(s, i + 1, i); }
    BypassLinks(child, s);
    forall j | 0 <= j < |s| && j != i
      ensures Skips(s[j], s, i, j)
    {
      assert old(Tied(s[j], s, j));
      DistinctAt(s, j, i);
      if i > 0 && j != i - 1 { DistinctAt(s, j, i - 1); }
      if i + 1 < |s| && j != i + 1 { DistinctAt(s, j, i + 1); }
    }
  }

  /** The ends of the list step over the child. */
  method DropEnds(p: XMLNode, child: XMLNode, ghost s: seq<XMLNode>, ghost i: nat)
    requires s == p.kids && ChildrenLinked(p) && i < |s| && s[i] == child
    modifies p`firstChild, p`lastChild
    ensures p.firstChild == Nth(s, if i == 0 then 1 else 0)
    ensures p.lastChild == Nth(s, if i == |s| - 1 then i - 1 else |s| - 1)
  {
    assert Tied(s[i], s, i);
    if child == p.firstChild {
      p.firstChild := p.firstChild.next;
    }
    if child == p.lastChild {
      p.lastChild := p.lastChild.prev;
    }
  }

  /** The pointer writes of XMLNode::Unlink. */
  method Splice(p: XMLNode, child: XMLNode, ghost s: seq<XMLNode>, ghost i: nat)
    requires s == p.kids && ChildrenLinked(p) && i < |s| && s[i] == child && p !in s
    modifies p, s
    ensures Spliced(p, s, i) && p.kids == s && SameAbove(p)
    ensures child.parent == null && child.prev == null && child.next == null
    ensures forall k :: k in s ==> SameBelow(k)
  {
    hide AllSkip, Tied;
    DropEnds(p, child, s, i);
    Bypass(child, s, i);
  }

  /** XMLNode::Unlink: the i-th child leaves. */
  method UnlinkAt(p: XMLNode, child: XMLNode, ghost i: nat)
    requires ChildrenLinked(p) && i < |p.kids| && p.kids[i] == child && p !in p.kids
    modifies p, p.kids
    ensures p.kids == old(p.kids)[..i] + old(p.kids)[i + 1..]
    ensures ChildrenLinked(p) && SameAbove(p)
    ensures child.parent == null && child.prev == null && child.next == null
    ensures forall k :: k in old(p.kids) ==> SameBelow(k) && (k != child ==> k.parent == p)
  {
    ghost var s := p.kids;
    Splice(p, child, s, i);
    p.kids := s[..i] + s[i + 1..];
    SplicedIsLinked(p, s, i);
  }

  // ---------------------------------------------------------------- joining a child list

  ghost predicate Single(a: XMLNode)
    reads a
  {
    a.parent == null && a.prev == null && a.next == null
  }

  /** The link writes of InsertEndChild. */
  method LinkLast(p: XMLNode, a: XMLNode)
    requires ChildrenLinked(p) && p !in p.kids && a != p && a !in p.kids && Single(a)
    modifies p, p.kids, a
    ensures ChildrenLinked(p) && p.kids == old(p.kids) + [a]
    ensures SameAbove(p) && SameBelow(a)
    ensures forall k :: k in old(p.kids) ==> SameBelow(k) && k.parent == p
  {
    ghost var s := p.kids;
    if p.lastChild != null {
      assert Tied(s[|s| - 1], s, |s| - 1);
      p.lastChild.next := a;
      a.prev := p.lastChild;
      p.lastChild := a;
      a.next := null;
    } else {
      p.firstChild, p.lastChild := a, a;
      a.prev, a.next := null, null;
    }
    a.parent := p;
    p.kids := s + [a];
    forall j | 0 <= j < |p.kids|
      ensures Tied(p.kids[j], p.kids, j)
    {
      if j < |s| {
        assert old(Tied(s[j], s, j));
      }
    }
  }

  /** The link writes of InsertFirstChild. */
  method LinkFirst(p: XMLNode, a: XMLNode)
    requires ChildrenLinked(p) && p !in p.kids && a != p && a !in p.kids && Single(a)
    modifies p, p.kids, a
    ensures ChildrenLinked(p) && p.kids == [a] + old(p.kids)
    ensures SameAbove(p) && SameBelow(a)
    ensures forall k :: k in old(p.kids) ==> SameBelow(k) && k.parent == p
  {
    ghost var s := p.kids;
    if p.firstChild != null {
      assert Tied(s[0], s, 0);
      p.firstChild.prev := a;
      a.next := p.firstChild;
      p.firstChild := a;
      a.prev := null;
    } else {
      p.firstChild, p.lastChild := a, a;
      a.prev, a.next := null, null;
    }
    a.parent := p;
    p.kids := [a] + s;
    forall j | 0 <= j < |p.kids|
      ensures Tied(p.kids[j], p.kids, j)
    {
      if j > 0 {
        assert old(Tied(s[j - 1], s, j - 1));
        assert p.kids[j] == s[j - 1];
      }
    }
  }

  ghost function InsertAt(s: seq<XMLNode>, i: nat, a: XMLNode): seq<XMLNode>
    requires i <= |s|
  {
    s[..i] + [a] + s[i..]
  }

  lemma AtPlace(s: seq<XMLNode>, i: nat)
    requires Distinct(s) && i < |s|
    ensures PlaceOf(s, s[i]) == i
  {
    PlaceIs(s, s[i], i);
  }

  /** The last element, or the one before a if that is last. */
  lemma AtEnd(s: seq<XMLNode>, a: XMLNode, i: nat)
    requires Distinct(s) && i == |s| - 1 && s[i] != a
    ensures var w := Without(s, a);
      s[i] in w && PlaceOf(w, s[i]) + 1 == |w| && InsertAt(w, |w|, a) == w + [a]
  {
    hide PlaceOf;
    var w := Without(s, a);
    WithoutDistinct(s, a);
    AtPlace(w, |w| - 1);
  }

  /** An element that is not last is not last without a either, unless a is all that follows it. */
  lemma StillNext(s: seq<XMLNode>, a: XMLNode, i: nat) returns (j: nat)
    requires Distinct(s) && i + 1 < |s| && s[i] != a && !(s[i + 1] == a && i + 2 == |s|)
    ensures var w := Without(s, a); j + 1 < |w| && w[j] == s[i] && PlaceOf(w, s[i]) == j
  {
    hide PlaceOf, Without, Distinct;
    var w := Without(s, a);
    WithoutDistinct(s, a);
    if a in s {
      var m :| 0 <= m < |s| && s[m] == a;
      WithoutIs(s, m);
      assert m != i && (m == i + 1 ==> i + 2 < |s|);
      j := if m < i then i - 1 else i;
    } else {
      WithoutAbsent(s, a);
      j := i;
    }
    AtPlace(w, j);
  }

  lemma InsertAtHolds(s: seq<XMLNode>, i: nat, a: XMLNode)
    requires i <= |s|
    ensures a in InsertAt(s, i, a) && forall k :: k in s ==> k in InsertAt(s, i, a)
    ensures forall k :: k in InsertAt(s, i, a) ==> k in s || k == a
  {
    assert InsertAt(s, i, a)[i] == a;
    assert s == s[..i] + s[i..];
  }

  lemma DistinctAt(s: seq<XMLNode>, i: nat, j: nat)
    requires Distinct(s) && i < |s| && j < |s| && i != j
    ensures s[i] != s[j]
  {
  }

  lemma InsertAtFacts(s: seq<XMLNode>, i: nat, a: XMLNode)
    requires Distinct(s) && a !in s && 0 < i < |s|
    ensures var r := InsertAt(s, i, a);
      && |r| == |s| + 1 && Distinct(r) && r[i] == a
      && Nth(r, 0) == s[0] && Nth(r, |r| - 1) == s[|s| - 1]
      && (forall j :: 0 <= j < i ==> r[j] == s[j]) && (forall j :: i < j < |r| ==> r[j] == s[j - 1])
    ensures forall k :: k in InsertAt(s, i, a) ==> k in s || k == a
  {
  }

  /** The new node between b and the one after it. */
  method PutBetween(p: XMLNode, b: XMLNode, a: XMLNode, ghost s: seq<XMLNode>)
    requires a !in s && b in s && b.next != null && b.next in s && b.next != b
    modifies b, b.next, a
    ensures a.prev == b && a.next == old(b.next) && a.parent == p && SameBelow(a)
    ensures b.next == a && b.prev == old(b.prev) && SameBelow(b) && b.parent == old(b.parent)
    ensures var c := old(b.next);
      c.prev == a && c.next == old(b.next.next) && SameBelow(c) && c.parent == old(b.next.parent)
  {
    a.prev := b;
    a.next := b.next;
    b.next.prev := a;
    b.next := a;
    a.parent := p;
  }

  /** The link writes of InsertAfterChild, where b is the i-th child and not the last. */
  method LinkAfter(p: XMLNode, b: XMLNode, a: XMLNode, ghost i: nat)
    requires ChildrenLinked(p) && p !in p.kids && a != p && a !in p.kids && Single(a)
    requires i + 1 < |p.kids| && p.kids[i] == b
    modifies p, p.kids, a
    ensures ChildrenLinked(p) && p.kids == InsertAt(old(p.kids), i + 1, a)
    ensures SameAbove(p) && SameBelow(a)
    ensures forall k :: k in old(p.kids) ==> SameBelow(k) && k.parent == p
  {
    hide InsertAt, Distinct;
    ghost var s := p.kids;
    InsertAtFacts(s, i + 1, a);
    MakeRoom(p, b, a, s, i);
    p.kids := InsertAt(s, i + 1, a);
    RoomIsTied(s, i, a);
  }

  method MakeRoom(p: XMLNode, b: XMLNode, a: XMLNode, ghost s: seq<XMLNode>, ghost i: nat)
    requires AllTied(s) && i + 1 < |s| && s[i] == b && a !in s
    modifies s, a
    ensures a.prev == s[i] && a.next == s[i + 1] && a.parent == p && SameBelow(a)
    ensures forall x :: x in s ==> SameBelow(x) && x.parent == old(x.parent)
    ensures forall j {:trigger MakesRoom(s[j], s, i, j, a)} :: 0 <= j < |s| ==> MakesRoom(s[j], s, i, j, a)
  {
    hide Distinct;
    assert Tied(s[i], s, i) && Tied(s[i + 1], s, i + 1);
    DistinctAt(s, i, i + 1);
    PutBetween(p, b, a, s);
    forall j | 0 <= j < |s|
      ensures MakesRoom(s[j], s, i, j, a)
    {
      assert old(Tied(s[j], s, j));
      if j != i { DistinctAt(s, j, i); }
      if j != i + 1 { DistinctAt(s, j, i + 1); }
    }
  }

  /** x, the j-th of s, with a put between the i-th and the next. */
  ghost predicate MakesRoom(x: XMLNode, s: seq<XMLNode>, i: int, j: int, a: XMLNode)
    reads x
  {
    && x.prev == (if j == i + 1 then a else Nth(s, j - 1))
    && x.next == (if j == i then a else Nth(s, j + 1))
  }

  lemma RoomIsTied(s: seq<XMLNode>, i: nat, a: XMLNode)
    requires Distinct(s) && a !in s && i + 1 < |s| && a.prev == s[i] && a.next == s[i + 1]
    requires forall j {:trigger MakesRoom(s[j], s, i, j, a)} :: 0 <= j < |s| ==> MakesRoom(s[j], s, i, j, a)
    ensures AllTied(InsertAt(s, i + 1, a))
  {
    hide InsertAt, Distinct;
    InsertAtFacts(s, i + 1, a);
    var r := InsertAt(s, i + 1, a);
    forall j | 0 <= j < |r|
      ensures Tied(r[j], r, j)
    {
      if j != i + 1 {
        var k := if j <= i then j else j - 1;
        assert r[j] == s[k] && MakesRoom(s[k], s, i, k, a);
      }
    }
  }

  lemma FewerLeft(before: set<XMLNode>, gone: set<XMLNode>, after: set<XMLNode>)
    requires after == before - gone && gone <= before && gone != {}
    ensures |after| < |before|
  {
    assert before == after + gone && after !! gone;
  }

  lemma {:induction false} Highest(s: set<XMLNode>, rank: map<XMLNode, nat>) returns (top: XMLNode)
    requires s != {} && s <= rank.Keys
    ensures top in s && forall n :: n in s ==> rank[n] <= rank[top]
    decreases |s|
  {
    top :| top in s;
    if s != {top} {
      var other := Highest(s - {top}, rank);
      assert s == s - {top} + {top};
      if rank[top] < rank[other] {
        top := other;
      }
    }
  }
}
