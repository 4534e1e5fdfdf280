/** The list of page-sized (4096 bytes) blocks of virtual addresses that the kernel hands out pages from. */
module PageHeap {
  import opened KernelTypes
  import opened KernelHeap

  const BLOCK_FREE: u8 := 0
  const SIZEOF_PAGE_BLOCK: i32 := 16

  /** `MemPageBlock`; fresh from the allocator its fields are arbitrary. */
  class PageBlock {
    var available: u8
    var vPageAddr: u32
    var prev: PageBlock?
    var next: PageBlock?

    constructor () {
    }
  }

  /** How many blocks the list gets: one for `base`, and one more for every page that starts below `limit`. */
  function BlockCount(base: u32, limit: u32): (n: nat)
    ensures n >= 1
  {
    if base < limit then 1 + (limit - base + 4095) / 4096 else 1
  }

  /** For page-aligned bounds there is a block for every page from `base` to `limit`, both included. */
  lemma AlignedBlocks(base: u32, limit: u32)
    requires base <= limit && (limit - base) % 4096 == 0
    ensures BlockCount(base, limit) == (limit - base) / 4096 + 1
    ensures base + 4096 * (BlockCount(base, limit) - 1) == limit
  {
  }

  ghost predicate Adjacent(a: PageBlock, b: PageBlock)
    reads a, b
  {
    a.next == b && b.prev == a
  }

  /** Free blocks in address order, linked in both directions. */
  ghost predicate IsPageList(blocks: seq<PageBlock>, base: u32)
    reads blocks
  {
    && (forall i, j :: 0 <= i < j < |blocks| ==> blocks[i] != blocks[j])
    && (forall i, j :: 0 <= i < j < |blocks| && j == i + 1 ==> Adjacent(blocks[i], blocks[j]))
    && (forall i :: 0 <= i < |blocks| ==> blocks[i].available == BLOCK_FREE && blocks[i].vPageAddr == base + 4096 * i)
    && (blocks != [] ==> blocks[0].prev == null && blocks[|blocks| - 1].next == null)
  }

  function BlockSet(blocks: seq<PageBlock>): set<object> {
    set b <- blocks
  }

  lemma BlockSetExtend(blocks: seq<PageBlock>, b: PageBlock)
    ensures BlockSet(blocks + [b]) == BlockSet(blocks) + {b}
  {
  }

  lemma PageListExtend(blocks: seq<PageBlock>, added: PageBlock, base: u32)
    requires blocks != [] && added !in blocks
    requires forall i, j :: 0 <= i < j < |blocks| ==> blocks[i] != blocks[j]
    requires forall i, j :: 0 <= i < j < |blocks| && j == i + 1 ==> Adjacent(blocks[i], blocks[j])
    requires forall i :: 0 <= i < |blocks| ==>
               blocks[i].available == BLOCK_FREE && blocks[i].vPageAddr == base + 4096 * i
    requires blocks[0].prev == null && Adjacent(blocks[|blocks| - 1], added)
    requires added.available == BLOCK_FREE && added.vPageAddr == base + 4096 * |blocks| && added.next == null
    ensures IsPageList(blocks + [added], base)
  {
    var all := blocks + [added];
    forall i, j | 0 <= i < j < |all| && j == i + 1
      ensures Adjacent(all[i], all[j])
    {
      if j == |blocks| { assert all[j] == added; }
    }
  }

  /** A block from the allocator, which here must have memory for it: the kernel stops otherwise. */
  method AllocBlock(heap: Heap) returns (block: PageBlock)
    requires heap.grants(heap.mallocCount)
    modifies heap`live, heap`mallocCount
    ensures fresh(block) && heap.live == old(heap.live) + {block} && heap.mallocCount == old(heap.mallocCount) + 1
  {
    var granted := heap.Request(SIZEOF_PAGE_BLOCK);
    assert granted;
    block := new PageBlock();
    heap.Hold(block);
  }

  method AppendBlock(heap: Heap, tmp: PageBlock, ghost blocks: seq<PageBlock>, ghost base: u32)
    returns (added: PageBlock)
    requires heap.grants(heap.mallocCount) && tmp.vPageAddr + 4096 < 0x1_0000_0000
    requires blocks != [] && IsPageList(blocks, base) && tmp == blocks[|blocks| - 1] && BlockSet(blocks) <= heap.live
    modifies heap`live, heap`mallocCount, tmp`next
    ensures fresh(added) && heap.live == old(heap.live) + {added} && heap.mallocCount == old(heap.mallocCount) + 1
    ensures IsPageList(blocks + [added], base) && added.vPageAddr == tmp.vPageAddr + 4096
  {
    tmp.next := AllocBlock(heap);
    added := tmp.next;
    added.vPageAddr := tmp.vPageAddr + 4096;
    added.available := BLOCK_FREE;
    added.prev := tmp;
    added.next := null;
    assert added !in blocks;
    PageListExtend(blocks, added, base);
  }

  method PageHeapInit(heap: Heap, base: u32, limit: u32) returns (first: PageBlock, ghost blocks: seq<PageBlock>)
    requires base + 4096 * (BlockCount(base, limit) - 1) < 0x1_0000_0000
    requires forall n: nat :: heap.mallocCount <= n < heap.mallocCount + BlockCount(base, limit) ==> heap.grants(n)
    modifies heap`live, heap`mallocCount
    ensures |blocks| == BlockCount(base, limit) && first == blocks[0] && IsPageList(blocks, base)
    ensures forall i :: 0 <= i < |blocks| ==> blocks[i].available == 0 && blocks[i].vPageAddr == base + 4096 * i
    ensures forall i :: 0 <= i < |blocks| - 1 ==> base + 4096 * i < limit
    ensures base + 4096 * (|blocks| - 1) >= limit && blocks[0].prev == null && blocks[|blocks| - 1].next == null
    ensures forall i, j :: 0 <= i < j < |blocks| && j == i + 1 ==>
              blocks[i].next == blocks[j] && blocks[j].prev == blocks[i]
    ensures fresh(BlockSet(blocks)) && heap.live == old(heap.live) + BlockSet(blocks)
    ensures heap.mallocCount == old(heap.mallocCount) + |blocks|
  {
    first := AllocBlock(heap);
    first.available := BLOCK_FREE;
    first.next := null;
    first.prev := null;
    first.vPageAddr := base;
    blocks := [first];
    var tmp := first;
    while tmp.vPageAddr < limit
      invariant 1 <= |blocks| <= BlockCount(base, limit) && first == blocks[0] && tmp == blocks[|blocks| - 1]
      invariant IsPageList(blocks, base) && tmp.vPageAddr == base + 4096 * (|blocks| - 1)
      invariant fresh(BlockSet(blocks)) && heap.live == old(heap.live) + BlockSet(blocks)
      invariant heap.mallocCount == old(heap.mallocCount) + |blocks|
      decreases BlockCount(base, limit) - |blocks|
    {
      assert tmp in BlockSet(blocks);
      var added := AppendBlock(heap, tmp, blocks, base);
      BlockSetExtend(blocks, added);
      blocks := blocks + [added];
      tmp := added;
    }
  }

  /** Frees every block once and reads none that is freed. */
  method CleanPageHeap(heap: Heap, first: PageBlock?, ghost blocks: seq<PageBlock>, ghost base: u32)
    requires IsPageList(blocks, base) && first == (if blocks == [] then null else blocks[0])
    requires BlockSet(blocks) <= heap.live
    modifies heap`live, heap`freeCount
    ensures heap.live == old(heap.live) - BlockSet(blocks) && heap.freeCount == old(heap.freeCount) + |blocks|
  {
    ghost var live := heap.live;
    var block := first;
    ghost var i := 0;
    assert BlockSet(blocks[..0]) == {};
    while block != null
      invariant 0 <= i <= |blocks| && block == if i < |blocks| then blocks[i] else null
      invariant heap.live == live - BlockSet(blocks[..i]) && heap.freeCount == old(heap.freeCount) + i
      decreases |blocks| - i
    {
      StillHeld(blocks, live, i);
      assert i + 1 < |blocks| ==> Adjacent(blocks[i], blocks[i + 1]);
      var next := ReadNext(heap, block);
      heap.Free(block);
      block := next;
      i := i + 1;
    }
    assert blocks[..i] == blocks;
  }

  /** Following `next`, from a block the heap still holds. */
  function ReadNext(heap: Heap, block: PageBlock): PageBlock?
    requires block in heap.live
    reads heap, block
  {
    block.next
  }

  lemma StillHeld(blocks: seq<PageBlock>, live: set<object>, i: nat)
    requires i < |blocks| && BlockSet(blocks) <= live
    requires forall i, j :: 0 <= i < j < |blocks| ==> blocks[i] != blocks[j]
    ensures blocks[i] in live - BlockSet(blocks[..i])
    ensures live - BlockSet(blocks[..i]) - {blocks[i]} == live - BlockSet(blocks[..i + 1])
  {
    assert blocks[..i + 1] == blocks[..i] + [blocks[i]];
    assert blocks[i] in BlockSet(blocks);
  }

  /** Setting the page heap up and tearing it down leaves the allocator as it was, whatever the bounds. */
  method InitThenClean(heap: Heap, base: u32, limit: u32)
    requires base + 4096 * (BlockCount(base, limit) - 1) < 0x1_0000_0000
    requires forall n: nat :: heap.mallocCount <= n < heap.mallocCount + BlockCount(base, limit) ==> heap.grants(n)
    modifies heap
    ensures heap.live == old(heap.live)
    ensures heap.mallocCount - heap.freeCount == old(heap.mallocCount) - old(heap.freeCount)
  {
    var first, blocks := PageHeapInit(heap, base, limit);
    CleanPageHeap(heap, first, blocks, base);
    assert forall b <- BlockSet(blocks) :: b !in old(heap.live);
  }
}
