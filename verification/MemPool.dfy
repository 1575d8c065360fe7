/** MemPoolT: blocks of items of one size, with a free list threaded through the items themselves. */
module MemPools {

  /** An item's memory: while the item is free it holds the link, afterwards whatever its user writes. */
  class Item {
    var next: Item?

    constructor ()
    {
      next := null;
    }
  }

  function Nth(items: seq<Item>, i: nat): Item? { if i < |items| then items[i] else null }

  /** The items are linked in this order, the last one to null. */
  ghost predicate Chained(items: seq<Item>)
    reads items
  {
    && (forall i :: 0 <= i < |items| ==> items[i].next == Nth(items, i + 1))
    && forall i, j :: 0 <= i < j < |items| ==> items[i] != items[j]
  }

  lemma TailChained(items: seq<Item>)
    requires items != [] && Chained(items)
    ensures Chained(items[1..]) && items[0] !in items[1..] && items[0].next == Nth(items[1..], 0)
    ensures forall item :: item in items <==> item == items[0] || item in items[1..]
  {
  }

  /** A new block, linked by the loop over its items. */
  method NewBlock(n: nat) returns (items: seq<Item>)
    requires n >= 1
    ensures |items| == n && fresh(items) && Chained(items)
  {
    items := [];
    while |items| < n
      invariant |items| <= n && fresh(items) && forall i, j :: 0 <= i < j < |items| ==> items[i] != items[j]
    {
      var item := new Item();
      items := items + [item];
    }
    for i := 0 to n - 1
      invariant forall j :: 0 <= j < i ==> items[j].next == items[j + 1]
    {
      items[i].next := items[i + 1];
    }
    items[n - 1].next := null;
  }

  class MemPool {
    const itemsPerBlock: nat
    var blocks: seq<seq<Item>>
    var root: Item?
    var currentAllocs: nat
    var allocs: nat
    var maxAllocs: nat
    ghost var free: seq<Item>   // the free list, from the root on
    ghost var live: set<Item>   // allocated and not freed since

    /** The free list ends, and with the live items makes up all blocks, no item twice. */
    ghost predicate Valid()
      reads this, free
    {
      && itemsPerBlock >= 1 && root == Nth(free, 0) && Chained(free)
      && (forall i :: 0 <= i < |free| ==> free[i] !in live)
      && currentAllocs == |live| <= maxAllocs <= allocs
      && currentAllocs + |free| == |blocks| * itemsPerBlock
      && (forall b, i :: 0 <= b < |blocks| && 0 <= i < |blocks[b]| ==> blocks[b][i] in live || blocks[b][i] in free)
    }

    constructor (itemsPerBlock: nat)
      requires itemsPerBlock >= 1
      ensures Valid() && free == [] && live == {}
    {
      this.itemsPerBlock := itemsPerBlock;
      blocks, root, currentAllocs, allocs, maxAllocs := [], null, 0, 0, 0;
      free, live := [], {};
    }

    /** A new block when nothing is free. */
    method AddBlock()
      requires Valid() && root == null
      modifies this`blocks, this`root, this`free
      ensures Valid() && |free| == itemsPerBlock && |blocks| == |old(blocks)| + 1 && fresh(free)
    {
      assert free == [];
      var block := NewBlock(itemsPerBlock);
      assert (|blocks| + 1) * itemsPerBlock == |blocks| * itemsPerBlock + itemsPerBlock;
      blocks := blocks + [block];
      root, free := block[0], block;
    }

    /** A live item is never handed out again; a new block is taken only when no item is free. */
    method Alloc() returns (result: Item)
      requires Valid()
      modifies this
      ensures Valid() && result !in old(live) && live == old(live) + {result}
      ensures old(free) != [] ==> result == old(free)[0] && free == old(free)[1..] && blocks == old(blocks)
      ensures old(free) == [] ==> |blocks| == |old(blocks)| + 1 && fresh(result) && fresh(free)
      ensures currentAllocs == old(currentAllocs) + 1
    {
      hide Chained;
      if root == null {
        AddBlock();
      }
      result := root;
      root := root.next;
      TailChained(free);
      live := live + {result};
      free := free[1..];
      currentAllocs := currentAllocs + 1;
      if currentAllocs > maxAllocs {
        maxAllocs := currentAllocs;
      }
      allocs := allocs + 1;
    }

    /** Freeing null is allowed, freeing anything but a live item is not. */
    method Free(mem: Item?)
      requires Valid() && (mem != null ==> mem in live)
      modifies this, mem
      ensures Valid() && blocks == old(blocks)
      ensures mem == null ==> live == old(live) && free == old(free)
      ensures mem != null ==> live == old(live) - {mem} && free == [mem] + old(free)
    {
      if mem == null {
        return;
      }
      currentAllocs := currentAllocs - 1;
      mem.next := root;
      root := mem;
      live := live - {mem};
      free := [mem] + free;
    }

    method Clear()
      requires Valid()
      modifies this
      ensures Valid() && live == {} && free == [] && blocks == []
    {
      while blocks != []
      {
        blocks := blocks[..|blocks| - 1];
      }
      root, currentAllocs, allocs, maxAllocs := null, 0, 0, 0;
      free, live := [], {};
    }
  }
}
