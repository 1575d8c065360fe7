/**
 The scheduler's binary heap in a vector, with the sift loops of std::push_heap and std::pop_heap
 ([alg.heap.operations] of ISO/IEC 14882:2017), and the loop that drains the due items.
 */
module TimerHeap {

  datatype Item = Item(time: int, id: nat, repeating: bool, period: int, skip: bool)

  function Parent(i: nat): nat
    requires i > 0
  {
    (i - 1) / 2
  }

  // ---------------------------------------------------------------- heap order

  /** No element fires before its parent; `hole` is exempt as a child. */
  ghost predicate OrderedBut(s: seq<Item>, hole: nat) {
    forall i :: 0 < i < |s| && i != hole ==> s[Parent(i)].time <= s[i].time
  }

  ghost predicate Ordered(s: seq<Item>) { OrderedBut(s, 0) }

  /** The children of the hole are in order with its parent. */
  ghost predicate Bridged(s: seq<Item>, hole: nat) {
    forall i :: 0 < i < |s| && Parent(i) == hole && hole > 0 ==> s[Parent(hole)].time <= s[i].time
  }

  /** The earliest item is in front. */
  lemma {:induction false} FrontIsEarliest(s: seq<Item>, i: nat)
    requires Ordered(s) && i < |s|
    ensures s[0].time <= s[i].time
  {
    if i > 0 {
      FrontIsEarliest(s, Parent(i));
    }
  }

  lemma SwapKeeps(s: seq<Item>, i: nat, j: nat)
    requires i < |s| && j < |s|
    ensures multiset(s[i := s[j]][j := s[i]]) == multiset(s)
  {
    var a := s[i := s[j]];
    assert multiset(a) == multiset(s) - multiset{s[i]} + multiset{s[j]};
    assert multiset(a[j := s[i]]) == multiset(a) - multiset{a[j]} + multiset{s[i]};
  }

  /** One round of sifting up: the hole moves to its parent. */
  lemma SiftUp(s: seq<Item>, i: nat)
    requires 0 < i < |s| && OrderedBut(s, i) && Bridged(s, i) && s[i].time < s[Parent(i)].time
    ensures var t := s[i := s[Parent(i)]][Parent(i) := s[i]];
      OrderedBut(t, Parent(i)) && Bridged(t, Parent(i))
  {
    var p := Parent(i);
    var t := s[i := s[p]][p := s[i]];
    forall k | 0 < k < |t| && k != p
      ensures t[Parent(k)].time <= t[k].time
    {
      if k == i || Parent(k) == i || Parent(k) == p {
        assert k != i && Parent(k) == i ==> s[p].time <= s[k].time;
        assert k != i && Parent(k) == p ==> s[p].time <= s[k].time;
      } else {
        assert s[Parent(k)].time <= s[k].time;
      }
    }
    forall k | 0 < k < |t| && Parent(k) == p && p > 0
      ensures t[Parent(p)].time <= t[k].time
    {
      assert s[Parent(p)].time <= s[p].time;
      assert k != i ==> s[p].time <= s[k].time;
    }
  }

  /** Every pair below the hole is in order, and the hole's children are in order with its parent. */
  ghost predicate OrderedAbove(s: seq<Item>, n: nat, hole: nat)
    requires n <= |s|
  {
    && (forall i :: 0 < i < n && Parent(i) != hole ==> s[Parent(i)].time <= s[i].time)
    && (forall i :: 0 < i < n && Parent(i) == hole && hole > 0 ==> s[Parent(hole)].time <= s[i].time)
  }

  /** One round of sifting down: the hole moves to its earlier child. */
  lemma SiftDown(s: seq<Item>, n: nat, i: nat, c: nat)
    requires n <= |s| && i < n && OrderedAbove(s, n, i) && 0 < c < n && Parent(c) == i
    requires forall k :: 0 < k < n && Parent(k) == i ==> s[c].time <= s[k].time
    requires s[c].time < s[i].time
    ensures var t := s[i := s[c]][c := s[i]]; OrderedAbove(t, n, c)
  {
    var t := s[i := s[c]][c := s[i]];
    assert i < c;
    forall k | 0 < k < n && Parent(k) != c
      ensures t[Parent(k)].time <= t[k].time
    {
      if k == i {
        assert s[Parent(i)].time <= s[c].time;
      } else if Parent(k) == i {
        assert s[c].time <= s[k].time;
      } else {
        assert k != c && s[Parent(k)].time <= s[k].time;
      }
    }
    forall k | 0 < k < n && Parent(k) == c
      ensures t[Parent(c)].time <= t[k].time
    {
      assert s[c].time <= s[k].time;
    }
  }

  // ---------------------------------------------------------------- the due work

  /**
   How often the item will be popped in a drain at `now`, where the tasks in `gone` are cancelled: a
   cancelled one is discarded when it is popped.
   */
  ghost function Due(item: Item, now: int, gone: set<nat>): nat
    requires !Stuck(item, now) || item.id in gone
  {
    if item.time > now then 0
    else if !item.repeating || item.id in gone then 1
    else
      assert (now - item.time) / item.period >= 0;
      (now - item.time) / item.period + 1
  }

  /** Due, and would come back without getting later. */
  predicate Stuck(item: Item, now: int) { item.repeating && item.time <= now && item.period <= 0 }

  /** Every due repeating item of a task that is not cancelled has a positive period. */
  ghost predicate Positive(s: seq<Item>, now: int, gone: set<nat>) {
    forall i :: 0 <= i < |s| && Stuck(s[i], now) ==> s[i].id in gone
  }

  ghost function Work(s: seq<Item>, now: int, gone: set<nat>): nat
    requires Positive(s, now, gone)
  {
    if s == [] then 0 else Work(s[..|s| - 1], now, gone) + Due(s[|s| - 1], now, gone)
  }

  lemma {:induction false} WorkWithout(s: seq<Item>, now: int, gone: set<nat>, i: nat)
    requires Positive(s, now, gone) && i < |s|
    ensures Positive(s[..i] + s[i + 1..], now, gone)
    ensures Work(s, now, gone) == Work(s[..i] + s[i + 1..], now, gone) + Due(s[i], now, gone)
  {
    hide Due;
    var n := |s| - 1;
    if i < n {
      WorkWithout(s[..n], now, gone, i);
      var rest := s[..i] + s[i + 1..];
      assert rest[..n - 1] == s[..n][..i] + s[..n][i + 1..];
      assert rest[n - 1] == s[n];
    } else {
      assert s[..i] + s[i + 1..] == s[..n];
    }
  }

  /** The work does not depend on the arrangement. */
  lemma {:induction false} WorkOfSame(s: seq<Item>, t: seq<Item>, now: int, gone: set<nat>)
    requires Positive(s, now, gone) && multiset(t) == multiset(s)
    ensures Positive(t, now, gone) && Work(t, now, gone) == Work(s, now, gone)
    decreases |s|
  {
    hide Due, Work;
    forall i | 0 <= i < |t| && Stuck(t[i], now)
      ensures t[i].id in gone
    {
      assert t[i] in multiset(t);
      assert t[i] in s;
    }
    if s == [] {
      assert |t| == |multiset(t)|;
    } else {
      var item := s[|s| - 1];
      assert item in multiset(t);
      var i :| 0 <= i < |t| && t[i] == item;
      var rest, init := t[..i] + t[i + 1..], s[..|s| - 1];
      WorkWithout(t, now, gone, i);
      WorkWithout(s, now, gone, |s| - 1);
      assert s[..|s| - 1] + s[|s| - 1 + 1..] == init;
      WithoutSame(s, t, i);
      WorkOfSame(init, rest, now, gone);
    }
  }

  lemma WithoutSame(s: seq<Item>, t: seq<Item>, i: nat)
    requires s != [] && multiset(t) == multiset(s) && i < |t| && t[i] == s[|s| - 1]
    ensures multiset(t[..i] + t[i + 1..]) == multiset(s[..|s| - 1])
  {
    WithoutOne(s, |s| - 1);
    WithoutOne(t, i);
    assert s[..|s| - 1] + s[|s| - 1 + 1..] == s[..|s| - 1];
  }

  lemma WithoutOne(s: seq<Item>, i: nat)
    requires i < |s|
    ensures multiset(s[..i] + s[i + 1..]) == multiset(s) - multiset{s[i]}
  {
    assert s == s[..i] + [s[i]] + s[i + 1..];
  }

  lemma WorkMore(s: seq<Item>, item: Item, now: int, gone: set<nat>)
    requires Positive(s, now, gone) && (!Stuck(item, now) || item.id in gone)
    ensures Positive(s + [item], now, gone) && Work(s + [item], now, gone) == Work(s, now, gone) + Due(item, now, gone)
  {
    hide Due;
    assert (s + [item])[..|s|] == s;
  }

  lemma Multiples(k: int, p: int)
    requires p > 0
    ensures (k >= 1 ==> k * p >= p) && (k <= -1 ==> k * p <= -p)
  {
  }

  lemma QuotientIs(d: int, p: int, q: int, r: int)
    requires p > 0 && 0 <= r < p && d == q * p + r
    ensures d / p == q
  {
    var k := d / p;
    assert d == k * p + d % p;
    assert (k - q) * p == k * p - q * p;
    Multiples(k - q, p);
  }

  lemma QuotientStep(d: int, p: int)
    requires p > 0
    ensures d / p == (d - p) / p + 1
  {
    var q, r := (d - p) / p, (d - p) % p;
    assert d - p == q * p + r;
    assert (q + 1) * p == q * p + p;
    QuotientIs(d, p, q + 1, r);
  }

  lemma QuotientSmall(d: int, p: int)
    requires 0 <= d < p
    ensures d / p == 0
  {
    QuotientIs(d, p, 0, d);
  }

  /** A popped item that comes back one period later is due one time less. */
  lemma DueNext(item: Item, now: int, gone: set<nat>)
    requires item.repeating && item.period > 0 && item.time <= now && item.id !in gone
    ensures Due(item.(time := item.time + item.period), now, gone) + 1 == Due(item, now, gone)
  {
    var d, p := now - item.time, item.period;
    var later := item.(time := item.time + p);
    assert now - later.time == d - p;
    if d < p {
      QuotientSmall(d, p);
    } else {
      QuotientStep(d, p);
    }
  }

  // ---------------------------------------------------------------- the vector

  class Heap {
    var heap: seq<Item>

    ghost predicate Valid()
      reads this
    {
      Ordered(heap)
    }

    constructor ()
      ensures Valid() && heap == []
    {
      heap := [];
    }

    /** push_back and push_heap. */
    method Push(item: Item)
      requires Valid()
      modifies this
      ensures Valid() && multiset(heap) == multiset(old(heap)) + multiset{item}
    {
      heap := heap + [item];
      var i: nat := |heap| - 1;
      while i > 0 && heap[Parent(i)].time > heap[i].time
        invariant i < |heap| && OrderedBut(heap, i) && Bridged(heap, i)
        invariant multiset(heap) == multiset(old(heap)) + multiset{item}
      {
        SiftUp(heap, i);
        SwapKeeps(heap, i, Parent(i));
        heap := heap[i := heap[Parent(i)]][Parent(i) := heap[i]];
        i := Parent(i);
      }
    }

    /** The earlier child of i among the first n elements, or i. */
    method EarlierChild(i: nat, n: nat) returns (c: nat)
      requires i < n <= |heap|
      ensures i <= c < n && (c > i ==> Parent(c) == i)
      ensures forall k :: 0 < k < n && Parent(k) == i ==> c > i && heap[c].time <= heap[k].time
    {
      c := i;
      if 2 * i + 1 < n {
        c := 2 * i + 1;
        if 2 * i + 2 < n && heap[2 * i + 2].time < heap[c].time {
          c := 2 * i + 2;
        }
      }
      assert forall k :: 0 < k < n && Parent(k) == i ==> k == 2 * i + 1 || k == 2 * i + 2;
    }

    /** The sift of pop_heap over all but the last element. */
    method SiftFromTop(n: nat)
      requires n < |heap| && OrderedAbove(heap, n, 0)
      modifies this
      ensures multiset(heap) == multiset(old(heap)) && |heap| == |old(heap)|
      ensures heap[n] == old(heap[n]) && forall i :: 0 < i < n ==> heap[Parent(i)].time <= heap[i].time
    {
      if n == 0 {
        return;
      }
      var i := 0;
      while true
        invariant i < n && |heap| == |old(heap)| && heap[n] == old(heap[n]) && OrderedAbove(heap, n, i)
        invariant multiset(heap) == multiset(old(heap))
        decreases n - i
      {
        var c := EarlierChild(i, n);
        if c == i || heap[i].time <= heap[c].time {
          return;
        }
        SiftDown(heap, n, i, c);
        SwapKeeps(heap, i, c);
        heap := heap[i := heap[c]][c := heap[i]];
        i := c;
      }
    }

    /** pop_heap and pop_back: an earliest item leaves. */
    method Pop() returns (item: Item)
      requires Valid() && heap != []
      modifies this
      ensures Valid() && item == old(heap[0]) && multiset(heap) + multiset{item} == multiset(old(heap))
      ensures |heap| == |old(heap)| - 1
      ensures forall other :: other in old(heap) ==> item.time <= other.time
    {
      ghost var was := heap;
      var n := |heap| - 1;
      forall i | 0 <= i < |was|
        ensures was[0].time <= was[i].time
      {
        FrontIsEarliest(was, i);
      }
      SwapKeeps(heap, 0, n);
      heap := heap[0 := heap[n]][n := heap[0]];
      TopMoved(was, n, heap);
      SiftFromTop(n);
      item := heap[n];
      assert heap == heap[..n] + [heap[n]];
      heap := heap[..n];
    }

    /** What the timer does with a popped item: what it hands to the runner, and what it puts back. */
    method Handle(item: Item, load: (bool, bool)) returns (sent: seq<Item>)
      requires Valid()
      modifies this
      ensures Valid() && sent == Choice(item, load)
      ensures multiset(heap) == multiset(old(heap)) + multiset(Recurrence(item, load))
    {
      sent := [];
      if load.0 {
        return;
      }
      if item.repeating {
        Push(item.(time := item.time + item.period));
        if item.skip && load.1 {
          return;
        }
      }
      sent := [item];
    }

    /**
     Phase 3 of the timer thread. `loads(k, id)` is what the status loads see of a task at the k-th
     pop: whether it is cancelled, and whether it is running. The tasks in `gone` are seen to be
     cancelled from the `from`-th pop on; `heaps` are the contents before each pop and at the end.
     */
    method Drain(now: int, loads: (nat, nat) -> (bool, bool), ghost gone: set<nat>, ghost from: nat)
      returns (popped: seq<Item>, dispatched: seq<Item>, ghost heaps: seq<seq<Item>>)
      requires Valid() && Positive(heap, now, gone) && Sees(loads, gone, from)
      modifies this
      ensures Valid() && forall item :: item in heap ==> now < item.time
      ensures Rounds(heaps, popped, loads, now) && heaps[0] == old(heap) && heaps[|popped|] == heap
      ensures |popped| <= Work(old(heap), now, gone) + from
      ensures Agree(popped, loads, gone) ==> |popped| == Work(old(heap), now, gone)
      ensures from == 0 ==> forall i, j :: 0 <= i <= j < |popped| ==> popped[i].time <= popped[j].time <= now
      ensures dispatched == Chosen(popped, loads)
      ensures multiset(heap) + multiset(popped) == multiset(old(heap)) + multiset(Returned(popped, loads))
    {
      hide Work, Due, Choice, Recurrence, Chosen, Returned, Positive, OrderedBut, Rounds, Sees, Agree;
      NothingPopped(heap, loads, now);
      popped, dispatched, heaps := [], [], [heap];
      while heap != [] && heap[0].time <= now
        invariant Valid() && Positive(heap, now, gone)
        invariant |popped| + Work(heap, now, gone) <= Work(old(heap), now, gone) + Least(|popped|, from)
        invariant Agree(popped, loads, gone) ==> |popped| + Work(heap, now, gone) == Work(old(heap), now, gone)
        invariant from == 0 ==> InOrder(popped, heap, now)
        invariant Rounds(heaps, popped, loads, now) && |heaps| == |popped| + 1
        invariant heaps[0] == old(heap) && heaps[|popped|] == heap
        invariant dispatched == Chosen(popped, loads)
        invariant multiset(heap) + multiset(popped) == multiset(old(heap)) + multiset(Returned(popped, loads))
        decreases Work(heap, now, gone) + from - Least(|popped|, from)
      {
        ghost var before := heap;
        var item := Pop();
        ghost var rest := heap;
        var k := |popped|;
        var load := loads(k, item.id);
        var sent := Handle(item, load);
        SeesAt(loads, gone, from, k, item.id);
        if Agree(popped + [item], loads, gone) {
          AgreeMore(popped, loads, gone, item);
        }
        RoundWork(before, item, rest, load, heap, now, gone);
        if from == 0 {
          RoundOrder(popped, before, item, rest, load, heap, now, gone);
        }
        RoundMore(heaps, popped, loads, now, item, rest, heap);
        LoadsMore(popped, loads, item);
        var more := Recurrence(item, load);
        Balance(multiset(old(heap)), before, popped, Returned(popped, loads), item, rest, more, heap);
        popped, dispatched, heaps := popped + [item], dispatched + sent, heaps + [heap];
      }
      NothingDue(heap, now);
      NoWork(heap, now, gone);
    }
  }

  function Least(a: nat, b: nat): nat { if a < b then a else b }

  /** Handed to the runner unless cancelled, or skipped because the last invocation still runs. */
  function Choice(item: Item, load: (bool, bool)): seq<Item> {
    if load.0 || (item.repeating && item.skip && load.1) then [] else [item]
  }

  /** The next recurrence of a repeating task that is not cancelled. */
  function Recurrence(item: Item, load: (bool, bool)): seq<Item> {
    if load.0 || !item.repeating then [] else [item.(time := item.time + item.period)]
  }

  function Chosen(popped: seq<Item>, loads: (nat, nat) -> (bool, bool)): seq<Item> {
    if popped == [] then []
    else
      var k, item := |popped| - 1, popped[|popped| - 1];
      Chosen(popped[..k], loads) + Choice(item, loads(k, item.id))
  }

  function Returned(popped: seq<Item>, loads: (nat, nat) -> (bool, bool)): seq<Item> {
    if popped == [] then []
    else
      var k, item := |popped| - 1, popped[|popped| - 1];
      Returned(popped[..k], loads) + Recurrence(item, loads(k, item.id))
  }

  lemma NothingPopped(heap: seq<Item>, loads: (nat, nat) -> (bool, bool), now: int)
    ensures Chosen([], loads) == [] && Returned([], loads) == [] && Rounds([heap], [], loads, now)
  {
  }

  lemma LoadsMore(popped: seq<Item>, loads: (nat, nat) -> (bool, bool), item: Item)
    ensures Chosen(popped + [item], loads) == Chosen(popped, loads) + Choice(item, loads(|popped|, item.id))
    ensures Returned(popped + [item], loads) == Returned(popped, loads) + Recurrence(item, loads(|popped|, item.id))
  {
    hide Choice, Recurrence;
    assert (popped + [item])[..|popped|] == popped;
  }

  /** One round of the loop: an earliest item, which is due, leaves, and may come back. */
  ghost predicate Round(before: seq<Item>, item: Item, load: (bool, bool), after: seq<Item>, now: int) {
    && item in before && item.time <= now && (forall other :: other in before ==> item.time <= other.time)
    && multiset(after) + multiset{item} == multiset(before) + multiset(Recurrence(item, load))
  }

  /** Rounds of the loop one after the other, with the status loads of each. */
  ghost predicate Rounds(heaps: seq<seq<Item>>, popped: seq<Item>, loads: (nat, nat) -> (bool, bool), now: int) {
    && |heaps| == |popped| + 1
    && forall k :: 0 <= k < |popped| ==> Round(heaps[k], popped[k], loads(k, popped[k].id), heaps[k + 1], now)
  }

  /** From some pop on the tasks in `gone` are seen to be cancelled. */
  ghost predicate Sees(loads: (nat, nat) -> (bool, bool), gone: set<nat>, from: nat) {
    forall k: nat, id: nat :: k >= from && id in gone ==> loads(k, id).0
  }

  /** Exactly the tasks in `gone` were seen to be cancelled. */
  ghost predicate Agree(popped: seq<Item>, loads: (nat, nat) -> (bool, bool), gone: set<nat>) {
    forall k :: 0 <= k < |popped| ==> (loads(k, popped[k].id).0 <==> popped[k].id in gone)
  }

  lemma AgreeMore(popped: seq<Item>, loads: (nat, nat) -> (bool, bool), gone: set<nat>, item: Item)
    requires Agree(popped + [item], loads, gone)
    ensures Agree(popped, loads, gone) && (loads(|popped|, item.id).0 <==> item.id in gone)
  {
    var more := popped + [item];
    assert more[|popped|] == item;
    assert forall k :: 0 <= k < |popped| ==> more[k] == popped[k];
  }

  lemma SeesAt(loads: (nat, nat) -> (bool, bool), gone: set<nat>, from: nat, k: nat, id: nat)
    requires Sees(loads, gone, from)
    ensures k >= from && id in gone ==> loads(k, id).0
  {
  }

  lemma RoundMore(
      heaps: seq<seq<Item>>, popped: seq<Item>, loads: (nat, nat) -> (bool, bool), now: int,
      item: Item, rest: seq<Item>, heap: seq<Item>)
    requires Rounds(heaps, popped, loads, now) && item.time <= now
    requires var before := heaps[|popped|];
      && multiset(rest) + multiset{item} == multiset(before)
      && forall other :: other in before ==> item.time <= other.time
    requires multiset(heap) == multiset(rest) + multiset(Recurrence(item, loads(|popped|, item.id)))
    ensures Rounds(heaps + [heap], popped + [item], loads, now)
  {
    hide Recurrence;
    SameItems(heaps[|popped|], item, rest);
    var load := loads(|popped|, item.id);
    assert multiset(heap) + multiset{item} == multiset(heaps[|popped|]) + multiset(Recurrence(item, load));
    assert Round(heaps[|popped|], item, load, heap, now);
  }

  // ---------------------------------------------------------------- when the drain ends

  /** A stuck item whose task is never seen to be cancelled keeps something due in every round. */
  lemma {:induction false} NeverDrained(
      heaps: seq<seq<Item>>, popped: seq<Item>, loads: (nat, nat) -> (bool, bool), now: int, k: nat, id: nat)
    requires Rounds(heaps, popped, loads, now) && k < |heaps| && HasStuck(heaps[0], now, id)
    requires forall i :: 0 <= i < |popped| && popped[i].id == id ==> !loads(i, id).0
    ensures HasStuck(heaps[k], now, id)
  {
    hide Round, HasStuck;
    if k > 0 {
      NeverDrained(heaps, popped, loads, now, k - 1, id);
      RoundStuck(heaps[k - 1], popped[k - 1], loads(k - 1, popped[k - 1].id), heaps[k], now, id);
    }
  }

  ghost predicate HasStuck(s: seq<Item>, now: int, id: nat) {
    exists item :: item in s && item.id == id && Stuck(item, now)
  }

  lemma RoundStuck(before: seq<Item>, item: Item, load: (bool, bool), after: seq<Item>, now: int, id: nat)
    requires Round(before, item, load, after, now) && HasStuck(before, now, id) && (item.id == id ==> !load.0)
    ensures HasStuck(after, now, id)
  {
    var stuck :| stuck in before && stuck.id == id && Stuck(stuck, now);
    var next := if stuck == item then item.(time := item.time + item.period) else stuck;
    assert stuck in multiset(before);
    assert stuck == item ==> Recurrence(item, load) == [next];
    assert next in multiset(after) + multiset{item};
    assert (multiset(after) + multiset{item})[next] >= if next == item then 2 else 1 by {
      assert next == item ==> stuck == item;
      assert multiset(before)[stuck] >= 1;
    }
    assert next in multiset(after);
    assert next in after;
  }

  /** No sequence of rounds from this heap is longer than n. */
  ghost predicate EndsWithin(heap: seq<Item>, loads: (nat, nat) -> (bool, bool), now: int, n: nat) {
    forall heaps, popped :: Rounds(heaps, popped, loads, now) && heaps[0] == heap ==> |popped| <= n
  }

  ghost predicate SeenCancelled(loads: (nat, nat) -> (bool, bool), id: nat) {
    exists k: nat :: loads(k, id).0
  }

  /** Cancelled is a final status. */
  ghost predicate StaysCancelled(loads: (nat, nat) -> (bool, bool)) {
    forall k: nat, l: nat, id: nat :: k <= l && loads(k, id).0 ==> loads(l, id).0
  }

  /**
   The drain ends, in whatever order items of the same time are popped, exactly when every due
   repeating item with a period of zero or less belongs to a task that is cancelled sooner or later.
   */
  lemma DrainEndsIff(heap: seq<Item>, loads: (nat, nat) -> (bool, bool), now: int)
    requires StaysCancelled(loads)
    ensures (exists n :: EndsWithin(heap, loads, now, n)) <==>
      forall item :: item in heap && Stuck(item, now) ==> SeenCancelled(loads, item.id)
  {
    hide EndsWithin, SeenCancelled, StaysCancelled, Stuck;
    if forall item :: item in heap && Stuck(item, now) ==> SeenCancelled(loads, item.id) {
      var gone, from := Horizon(heap, loads, now);
      Bounded(heap, loads, now, gone, from);
    } else {
      var item :| item in heap && Stuck(item, now) && !SeenCancelled(loads, item.id);
      assert HasStuck(heap, now, item.id);
      forall n: nat
        ensures !EndsWithin(heap, loads, now, n)
      {
        Unbounded(heap, loads, now, item.id, n);
      }
    }
  }

  /** A time from which on all stuck items belong to tasks that are seen to be cancelled. */
  lemma {:induction false} Horizon(heap: seq<Item>, loads: (nat, nat) -> (bool, bool), now: int)
    returns (gone: set<nat>, from: nat)
    requires StaysCancelled(loads)
    requires forall item :: item in heap && Stuck(item, now) ==> SeenCancelled(loads, item.id)
    ensures Positive(heap, now, gone) && Sees(loads, gone, from)
  {
    hide Stuck, Sees, StaysCancelled;
    if heap == [] {
      assert Sees(loads, {}, 0) by { NothingSeen(loads); }
      gone, from := {}, 0;
    } else {
      var n := |heap| - 1;
      gone, from := Horizon(heap[..n], loads, now);
      if Stuck(heap[n], now) {
        var k: nat :| loads(k, heap[n].id).0;
        SeesMore(loads, gone, from, k, heap[n].id);
        gone, from := gone + {heap[n].id}, if k > from then k else from;
      }
      forall i | 0 <= i < |heap| && Stuck(heap[i], now)
        ensures heap[i].id in gone
      {
        assert i < n ==> heap[i] == heap[..n][i];
      }
    }
  }

  lemma NothingSeen(loads: (nat, nat) -> (bool, bool))
    ensures Sees(loads, {}, 0)
  {
  }

  lemma SeesMore(loads: (nat, nat) -> (bool, bool), gone: set<nat>, from: nat, k: nat, id: nat)
    requires StaysCancelled(loads) && Sees(loads, gone, from) && loads(k, id).0
    ensures Sees(loads, gone + {id}, if k > from then k else from)
  {
  }

  lemma Bounded(heap: seq<Item>, loads: (nat, nat) -> (bool, bool), now: int, gone: set<nat>, from: nat)
    requires Positive(heap, now, gone) && Sees(loads, gone, from)
    ensures EndsWithin(heap, loads, now, Work(heap, now, gone) + from)
  {
    hide Work, Positive, Round, Sees;
    forall heaps, popped | Rounds(heaps, popped, loads, now) && heaps[0] == heap
      ensures |popped| <= Work(heap, now, gone) + from
    {
      WorkLeft(heaps, popped, loads, now, gone, from, |popped|);
    }
  }

  lemma {:induction false} WorkLeft(
      heaps: seq<seq<Item>>, popped: seq<Item>, loads: (nat, nat) -> (bool, bool), now: int,
      gone: set<nat>, from: nat, k: nat)
    requires Rounds(heaps, popped, loads, now) && k < |heaps| && Positive(heaps[0], now, gone)
    requires Sees(loads, gone, from)
    ensures Positive(heaps[k], now, gone)
    ensures k + Work(heaps[k], now, gone) <= Work(heaps[0], now, gone) + Least(k, from)
  {
    hide Work, Positive, Round, Sees;
    if k > 0 {
      WorkLeft(heaps, popped, loads, now, gone, from, k - 1);
      var item := popped[k - 1];
      var load := loads(k - 1, item.id);
      SeesAt(loads, gone, from, k - 1, item.id);
      var rest := RoundRest(heaps[k - 1], item, load, heaps[k], now);
      RoundWork(heaps[k - 1], item, rest, load, heaps[k], now, gone);
    }
  }

  /** What is left between popping an item and putting it back. */
  lemma RoundRest(before: seq<Item>, item: Item, load: (bool, bool), after: seq<Item>, now: int)
    returns (rest: seq<Item>)
    requires Round(before, item, load, after, now)
    ensures item.time <= now && multiset(rest) + multiset{item} == multiset(before)
    ensures multiset(after) == multiset(rest) + multiset(Recurrence(item, load))
  {
    var i :| 0 <= i < |before| && before[i] == item;
    rest := before[..i] + before[i + 1..];
    hide Recurrence;
    WithoutOne(before, i);
    assert item in multiset(before);
    TakenOut(multiset(after), multiset(rest), item, multiset(before), multiset(Recurrence(item, load)));
  }

  lemma TakenOut(a: multiset<Item>, r: multiset<Item>, item: Item, b: multiset<Item>, more: multiset<Item>)
    requires b[item] > 0 && r == b - multiset{item} && a + multiset{item} == b + more
    ensures r + multiset{item} == b && a == r + more
  {
    forall x
      ensures a[x] == (r + more)[x]
    {
      assert (a + multiset{item})[x] == (b + more)[x];
    }
  }

  lemma Unbounded(heap: seq<Item>, loads: (nat, nat) -> (bool, bool), now: int, id: nat, n: nat)
    requires HasStuck(heap, now, id) && !SeenCancelled(loads, id)
    ensures !EndsWithin(heap, loads, now, n)
  {
    hide HasStuck, Rounds, SeenCancelled;
    var heaps, popped := Endless(heap, loads, now, id, n + 1);
  }

  /** As many rounds as one likes. */
  lemma {:induction false} Endless(heap: seq<Item>, loads: (nat, nat) -> (bool, bool), now: int, id: nat, n: nat)
    returns (heaps: seq<seq<Item>>, popped: seq<Item>)
    requires HasStuck(heap, now, id) && !SeenCancelled(loads, id)
    ensures Rounds(heaps, popped, loads, now) && heaps[0] == heap && |popped| == n
    ensures HasStuck(heaps[n], now, id)
  {
    hide HasStuck, Round;
    if n == 0 {
      heaps, popped := [heap], [];
    } else {
      heaps, popped := Endless(heap, loads, now, id, n - 1);
      var item, after := AnyRound(heaps[n - 1], loads, now, n - 1, id);
      assert item.id == id ==> !loads(n - 1, id).0;
      RoundStuck(heaps[n - 1], item, loads(n - 1, item.id), after, now, id);
      heaps, popped := heaps + [after], popped + [item];
    }
  }

  lemma AnyRound(before: seq<Item>, loads: (nat, nat) -> (bool, bool), now: int, k: nat, id: nat)
    returns (item: Item, after: seq<Item>)
    requires HasStuck(before, now, id)
    ensures Round(before, item, loads(k, item.id), after, now)
  {
    var stuck :| stuck in before && stuck.id == id && Stuck(stuck, now);
    var i := Earliest(before);
    item := before[i];
    var rest := before[..i] + before[i + 1..];
    WithoutOne(before, i);
    after := rest + Recurrence(item, loads(k, item.id));
    assert item in multiset(before);
    assert multiset(after) == multiset(rest) + multiset(Recurrence(item, loads(k, item.id)));
  }

  lemma {:induction false} Earliest(s: seq<Item>) returns (i: nat)
    requires s != []
    ensures i < |s| && forall item :: item in s ==> s[i].time <= item.time
  {
    var n := |s| - 1;
    if n == 0 {
      i := 0;
    } else {
      i := Earliest(s[..n]);
      assert forall item :: item in s ==> item in s[..n] || item == s[n];
      if s[n].time < s[i].time {
        i := n;
      }
    }
  }

  /** A task of period zero keeps the drain going although another one is cancelled. */
  lemma CancelledElsewhere(n: nat)
    ensures var loads: (nat, nat) -> (bool, bool) := (k, id) => (id == 1, false);
      !EndsWithin([Item(0, 1, false, 0, false), Item(0, 0, true, 0, false)], loads, 0, n)
  {
    hide EndsWithin;
    var loads: (nat, nat) -> (bool, bool) := (k, id) => (id == 1, false);
    var heap := [Item(0, 1, false, 0, false), Item(0, 0, true, 0, false)];
    assert heap[1] in heap && Stuck(heap[1], 0);
    assert HasStuck(heap, 0, 0);
    Unbounded(heap, loads, 0, 0, n);
  }

  /** The popped items come in order of time, and none is later than what is left. */
  ghost predicate InOrder(popped: seq<Item>, heap: seq<Item>, now: int) {
    && (forall i, j :: 0 <= i <= j < |popped| ==> popped[i].time <= popped[j].time <= now)
    && (forall i, item :: 0 <= i < |popped| && item in heap ==> popped[i].time <= item.time)
  }

  lemma RoundOrder(
      popped: seq<Item>, before: seq<Item>, item: Item, rest: seq<Item>, load: (bool, bool), heap: seq<Item>, now: int,
      gone: set<nat>)
    requires item.id in gone ==> load.0
    requires InOrder(popped, before, now) && item.time <= now && Positive(before, now, gone)
    requires multiset(rest) + multiset{item} == multiset(before)
    requires forall other :: other in before ==> item.time <= other.time
    requires multiset(heap) == multiset(rest) + multiset(Recurrence(item, load))
    ensures InOrder(popped + [item], heap, now)
  {
    SameItems(before, item, rest);
    forall other | other in heap
      ensures item.time <= other.time
    {
      assert other in multiset(heap);
      assert other in rest || other in Recurrence(item, load);
    }
  }

  /** One round does one unit of the work, or more if the item's task was cancelled meanwhile. */
  lemma RoundWork(
      before: seq<Item>, item: Item, rest: seq<Item>, load: (bool, bool), heap: seq<Item>, now: int, gone: set<nat>)
    requires Positive(before, now, gone) && item.time <= now
    requires multiset(rest) + multiset{item} == multiset(before)
    requires multiset(heap) == multiset(rest) + multiset(Recurrence(item, load))
    ensures Positive(heap, now, gone) && Work(heap, now, gone) <= Work(before, now, gone)
    ensures (item.id in gone ==> load.0) ==> Work(heap, now, gone) + 1 <= Work(before, now, gone)
    ensures (item.id in gone <==> load.0) ==> Work(heap, now, gone) + 1 == Work(before, now, gone)
  {
    hide Work, Due;
    WorkPopped(before, item, rest, now, gone);
    if load.0 || !item.repeating {
      assert multiset(heap) == multiset(rest);
      WorkOfSame(rest, heap, now, gone);
    } else {
      WorkPushed(rest, item, heap, now, gone);
    }
  }

  /** What is in the heap or popped is what was there before or came back. */
  lemma Balance(
      was: multiset<Item>, before: seq<Item>, popped: seq<Item>, back: seq<Item>,
      item: Item, rest: seq<Item>, more: seq<Item>, heap: seq<Item>)
    requires multiset(before) + multiset(popped) == was + multiset(back)
    requires multiset(rest) + multiset{item} == multiset(before) && multiset(heap) == multiset(rest) + multiset(more)
    ensures multiset(heap) + multiset(popped + [item]) == was + multiset(back + more)
  {
    assert multiset(back + more) == multiset(back) + multiset(more);
    assert multiset(popped + [item]) == multiset(popped) + multiset{item};
    assert multiset(heap) + multiset(popped + [item]) == multiset(before) + multiset(popped) + multiset(more);
  }

  lemma {:induction false} NoWork(s: seq<Item>, now: int, gone: set<nat>)
    requires forall item :: item in s ==> now < item.time
    ensures Positive(s, now, gone) && Work(s, now, gone) == 0
  {
    if s != [] {
      NoWork(s[..|s| - 1], now, gone);
      assert s[|s| - 1] in s;
    }
  }

  lemma NothingDue(heap: seq<Item>, now: int)
    requires Ordered(heap) && (heap != [] ==> now < heap[0].time)
    ensures forall item :: item in heap ==> now < item.time
  {
    forall i | 0 <= i < |heap|
      ensures now < heap[i].time
    {
      FrontIsEarliest(heap, i);
    }
  }

  /** A vector with the elements of another one and one more. */
  lemma SameItems(s: seq<Item>, item: Item, rest: seq<Item>)
    requires multiset(rest) + multiset{item} == multiset(s)
    ensures item in s && forall other :: other in s <==> other in rest || other == item
  {
    assert forall other :: other in s <==> other in multiset(s);
    assert forall other :: other in rest <==> other in multiset(rest);
  }

  lemma WorkPopped(s: seq<Item>, item: Item, rest: seq<Item>, now: int, gone: set<nat>)
    requires Positive(s, now, gone) && multiset(rest) + multiset{item} == multiset(s) && item.time <= now
    ensures Positive(rest, now, gone) && (!Stuck(item, now) || item.id in gone)
    ensures Work(s, now, gone) == Work(rest, now, gone) + Due(item, now, gone) && Due(item, now, gone) >= 1
    ensures !item.repeating || item.id in gone ==> Due(item, now, gone) == 1
  {
    hide Work;
    SameItems(s, item, rest);
    forall i | 0 <= i < |rest| && Stuck(rest[i], now)
      ensures rest[i].id in gone
    {
      assert rest[i] in s;
    }
    WorkMore(rest, item, now, gone);
    assert multiset(rest + [item]) == multiset(s);
    WorkOfSame(s, rest + [item], now, gone);
  }

  lemma WorkPushed(rest: seq<Item>, item: Item, s: seq<Item>, now: int, gone: set<nat>)
    requires Positive(rest, now, gone) && item.repeating && item.time <= now
    requires !Stuck(item, now) || item.id in gone
    requires multiset(s) == multiset(rest) + multiset{item.(time := item.time + item.period)}
    ensures Positive(s, now, gone) && Work(s, now, gone) <= Work(rest, now, gone) + Due(item, now, gone)
    ensures item.id !in gone ==> Work(s, now, gone) + 1 == Work(rest, now, gone) + Due(item, now, gone)
  {
    hide Work, Due;
    var later := item.(time := item.time + item.period);
    WorkMore(rest, later, now, gone);
    if item.id in gone {
      DueOnce(item, later, now, gone);
    } else {
      DueNext(item, now, gone);
    }
    assert multiset(rest + [later]) == multiset(s);
    WorkOfSame(rest + [later], s, now, gone);
  }

  lemma DueOnce(item: Item, later: Item, now: int, gone: set<nat>)
    requires item.id in gone && later.id == item.id && item.time <= now
    ensures Due(later, now, gone) <= 1 == Due(item, now, gone)
  {
  }

  /** After the front and the last element have been swapped only the front is out of order. */
  lemma TopMoved(s: seq<Item>, n: nat, t: seq<Item>)
    requires Ordered(s) && n == |s| - 1 && t == s[0 := s[n]][n := s[0]]
    ensures OrderedAbove(t, n, 0)
  {
    forall i | 0 < i < n && Parent(i) != 0
      ensures t[Parent(i)].time <= t[i].time
    {
      assert s[Parent(i)].time <= s[i].time;
    }
  }
}
