/** The block allocator of the XML library (MemPoolT): items carved from fixed-size blocks and threaded on a free
    list through the memory of the free items themselves. */
module MemPool {
  /** One slot of a block. While the slot is free, `next` links the free list; while it is live the same memory
      belongs to the caller, who may store anything there. */
  class Item {
    var next: Item?
    constructor () ensures next == null { next := null; }
  }

  class MemPoolT {
    const itemsPerBlock: nat
    var root: Item?
    var currentAllocs: int
    var maxAllocs: int
    var nAllocs: int
    var nUntracked: int
    var blocks: nat                // the number of blocks in _blockPtrs
    ghost var items: set<Item>     // every slot of every block
    ghost var free: seq<Item>      // the free list, from _root on
    ghost var live: set<Item>      // what Alloc has handed out and Free has not taken back

    /** The chain from _root is exactly `free`, ends in null, and has no slot twice; no slot of it is live; free and
        live slots together are as many as the blocks have. */
    ghost predicate Valid()
      reads this, items
    {
      && itemsPerBlock > 0
      && root == At(free, 0)
      && (forall i :: 0 <= i < |free| ==> free[i] in items && free[i] !in live && free[i].next == At(free, i + 1))
      && (forall i, j :: 0 <= i < j < |free| ==> free[i] != free[j])
      && live <= items
      && |live| == currentAllocs && |live| + |free| == Slots(blocks)
    }

    static ghost function At(s: seq<Item>, i: nat): Item? { if i < |s| then s[i] else null }

    ghost function Slots(blocks: nat): nat { if blocks == 0 then 0 else Slots(blocks - 1) + itemsPerBlock }

    lemma {:induction false} SlotsIsProduct(blocks: nat)
      ensures Slots(blocks) == blocks * itemsPerBlock
    {
      if blocks > 0 { SlotsIsProduct(blocks - 1); }
    }

    constructor (itemsPerBlock: nat)
      requires itemsPerBlock > 0
      ensures Valid() && live == {} && free == [] && items == {} && this.itemsPerBlock == itemsPerBlock
    {
      this.itemsPerBlock := itemsPerBlock;
      root, currentAllocs, maxAllocs, nAllocs, nUntracked, blocks := null, 0, 0, 0, 0, 0;
      items, free, live := {}, [], {};
    }

    /** A new block: its slots chained in order, the last one to null. */
    method NewBlock() returns (slots: array<Item>, ghost chain: seq<Item>, ghost all: set<Item>)
      requires itemsPerBlock > 0
      ensures fresh(slots) && |chain| == itemsPerBlock && slots.Length == itemsPerBlock && slots[..] == chain
      ensures fresh(all) && forall i :: 0 <= i < |chain| ==> chain[i] in all && chain[i].next == At(chain, i + 1)
      ensures forall i, j :: 0 <= i < j < |chain| ==> chain[i] != chain[j]
    {
      var first := new Item();
      slots := new Item[itemsPerBlock](_ => first);
      var k := 1;
      while k < itemsPerBlock
        invariant 1 <= k <= itemsPerBlock == slots.Length && fresh(slots)
        invariant forall i :: 0 <= i < k ==> fresh(slots[i]) && slots[i].next == null
        invariant forall i, j :: 0 <= i < j < k ==> slots[i] != slots[j]
      {
        var x := new Item();
        slots[k] := x;
        k := k + 1;
      }
      chain := slots[..];
      var i := 0;
      while i < itemsPerBlock - 1
        invariant 0 <= i <= itemsPerBlock - 1 && chain == slots[..] && |chain| == itemsPerBlock
        invariant forall j :: 0 <= j < |chain| ==> fresh(chain[j])
        invariant forall j :: 0 <= j < i ==> chain[j].next == chain[j + 1]
        invariant forall j :: i <= j < |chain| ==> chain[j].next == null
      {
        slots[i].next := slots[i + 1];
        i := i + 1;
      }
      all := set x | x in chain;
    }

    method Alloc() returns (result: Item)
      requires Valid()
      modifies this
      ensures Valid()
      ensures result !in old(live) && live == old(live) + {result}
      ensures items >= old(items) && fresh(items - old(items)) && (result in old(items) || fresh(result))
      ensures old(free) != [] ==> items == old(items) && result == old(free)[0] && free == old(free)[1..]
      ensures nAllocs == old(nAllocs) + 1 && nUntracked == old(nUntracked) + 1
      ensures maxAllocs == if currentAllocs > old(maxAllocs) then currentAllocs else old(maxAllocs)
    {
      if root == null {
        Grow();
      }
      result := TakeFirst();
      if currentAllocs > maxAllocs {
        maxAllocs := currentAllocs;
      }
      nAllocs := nAllocs + 1;
      nUntracked := nUntracked + 1;
    }

    /** The part of Alloc that needs a new block. */
    method Grow()
      requires Valid() && root == null
      modifies this`root, this`blocks, this`items, this`free
      ensures Valid() && |free| == itemsPerBlock && items > old(items) && fresh(items - old(items))
      ensures fresh(free[0])
    {
      var slots, chain, all := NewBlock();
      root := slots[0];
      blocks := blocks + 1;
      assert free == [];
      items := items + all;
      free := chain;
      assert Slots(blocks) == Slots(blocks - 1) + itemsPerBlock;
    }

    /** The part of Alloc that unlinks the first free slot. */
    method TakeFirst() returns (result: Item)
      requires Valid() && root != null
      modifies this`root, this`currentAllocs, this`free, this`live
      ensures Valid() && result == old(free[0]) && free == old(free[1..]) && live == old(live) + {result}
      ensures currentAllocs == old(currentAllocs) + 1
    {
      result := root;
      root := root.next;
      currentAllocs := currentAllocs + 1;
      free, live := free[1..], live + {result};
    }

    /** The caller gives back a live item, or null. */
    method Free(mem: Item?)
      requires Valid() && (mem != null ==> mem in live)
      modifies this, mem
      ensures Valid() && items == old(items)
      ensures mem == null ==> live == old(live) && free == old(free)
      ensures mem != null ==> live == old(live) - {mem} && free == [mem] + old(free)
      ensures nAllocs == old(nAllocs) && maxAllocs == old(maxAllocs) && nUntracked == old(nUntracked)
    {
      if mem == null {
        return;
      }
      currentAllocs := currentAllocs - 1;
      mem.next := root;
      root := mem;
      free, live := [mem] + free, live - {mem};
    }

    /** A caller writes over the memory of an item it holds: the pool does not notice. */
    method Use(mem: Item, anything: Item?)
      requires Valid() && mem in live
      modifies mem
      ensures Valid() && mem.next == anything
    {
      mem.next := anything;
    }

    method SetTracked()
      requires Valid()
      modifies this`nUntracked
      ensures Valid() && nUntracked == old(nUntracked) - 1
    {
      nUntracked := nUntracked - 1;
    }
  }
}
