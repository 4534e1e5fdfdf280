/**
 The allocator behind the interface that the rest of the kernel is proved against:
 every object that `KernelHeap.Heap` holds lives in a region that `Kmalloc.Kernel`
 has handed out, and requests and releases on both sides keep it that way.
 */
module HeapSimulation {
  import opened KernelTypes
  import opened KernelHeap
  import opened HeapBlocks
  import opened Kmalloc
  import HeapRuns

  /** Each object has a region of its own, and nothing else is handed out. */
  ghost predicate Houses(home: map<object, Region>, live: set<Region>) {
    && home.Values == live
    && forall o, p | o in home && p in home && o != p :: home[o] != home[p]
  }

  class Backing {
    const heap: Heap
    const kernel: Kernel
    /** Where the objects that are held live. */
    ghost var home: map<object, Region>

    ghost predicate Valid()
      reads this, heap, kernel, kernel.bytes
    {
      && kernel.Valid() && heap.live == home.Keys && Houses(home, Live(kernel.blocks, 0))
      && heap.mallocCount == kernel.kmallocCount && heap.freeCount == kernel.kfreeCount
    }

    constructor (heap: Heap, kernel: Kernel)
      requires kernel.Valid() && heap.live == {} && Live(kernel.blocks, 0) == {}
      requires heap.mallocCount == kernel.kmallocCount && heap.freeCount == kernel.kfreeCount
      ensures Valid() && this.heap == heap && this.kernel == kernel
    {
      this.heap, this.kernel, home := heap, kernel, map[];
    }

    /**
     A request on both sides.  Where `grants` answers as the allocator does, the object
     gets zeroed memory that no other object has, and what others hold is untouched; a
     refusal is the allocator's panic, behind which nothing goes on.
     */
    method Obtain(size: i32, o: object) returns (ptr: nat)
      requires Valid() && size < 0x7FFF_FFFC && o !in heap.live
      requires size > 0 ==>
                 (heap.grants(heap.mallocCount) <==> HeapRuns.Granted(kernel.blocks, kernel.bytes.Length, size))
      modifies this`home, heap`live, heap`mallocCount, kernel, kernel.bytes
      ensures ptr != 0 <==> size > 0 && heap.grants(old(heap.mallocCount))
      ensures size <= 0 || ptr != 0 ==> Valid()
      ensures ptr == 0 ==> home == old(home) && heap.live == old(heap.live)
      ensures ptr != 0 ==>
                && o in home && home == old(home)[o := home[o]] && heap.live == old(heap.live) + {o}
                && home[o].start == ptr && size <= home[o].size && IsZero(kernel.bytes[..], ptr, ptr + home[o].size)
                && forall p <- old(home) :: Apart(old(home)[p], home[o])
      ensures Keeps(old(kernel.bytes[..]), kernel.bytes[..], old(home.Values))
    {
      hide Kernel.Valid, Live, Alloc, Room, HasFit, Freed, Opened, Overwrites, Keeps, Given, IsZero, Apart, Total,
           Pages, Houses;
      TotalIsHeap(kernel);
      HousesValues(home, Live(kernel.blocks, 0));
      ghost var row, live := kernel.blocks, Live(kernel.blocks, 0);
      var granted := heap.Request(size);
      ptr := kernel.KMalloc(size);
      if ptr != 0 {
        ghost var given := Given(row, size + 4);
        MoveIn(home, live, o, given);
        heap.Hold(o);
        home := home[o := given];
      }
    }

    /** A release on both sides: the object's region is given back, and what others hold is untouched. */
    method Release(o: object, ptr: nat)
      requires Valid() && o in heap.live && home[o].start == ptr
      modifies this`home, heap`live, heap`freeCount, kernel, kernel.bytes
      ensures Valid() && home == old(home) - {o} && heap.live == old(heap.live) - {o}
      ensures Keeps(old(kernel.bytes[..]), kernel.bytes[..], home.Values)
    {
      hide Kernel.Valid, Live, Freed, Keeps, Held, Coalesce, Freeing, Frees, Houses;
      ghost var row := kernel.blocks;
      RegionIsHeld(kernel, home, o);
      kernel.KFree(ptr);
      ghost var size: nat :| Region(ptr, size) in Live(row, 0)
                             && Live(kernel.blocks, 0) == Live(row, 0) - {Region(ptr, size)};
      MoveOut(home, Live(row, 0), o, Region(ptr, size));
      heap.Free(o);
      home := home - {o};
      HousesValues(home, Live(kernel.blocks, 0));
    }
  }

  lemma TotalIsHeap(kernel: Kernel)
    requires kernel.Valid()
    ensures Total(kernel.blocks) == kernel.gHeap
  {
    TilesTotal(kernel.bytes[..], 0, kernel.gHeap, kernel.blocks);
  }

  lemma HousesValues(home: map<object, Region>, live: set<Region>)
    requires Houses(home, live)
    ensures home.Values == live
  {
  }

  lemma MoveIn(home: map<object, Region>, live: set<Region>, o: object, given: Region)
    requires Houses(home, live) && o !in home
    requires given.size > 0 && forall r <- live :: Apart(r, given)
    ensures Houses(home[o := given], live + {given})
    ensures forall p <- home :: Apart(home[p], given)
  {
    var after := home[o := given];
    assert given !in live;
    forall r | r in live + {given}
      ensures r in after.Values
    {
      if r == given {
        assert after[o] == r;
      } else {
        var p :| p in home && home[p] == r;
        assert after[p] == r;
      }
    }
    assert after.Values == live + {given};
  }

  /** What lies at the object's address is a region of its own. */
  lemma RegionIsHeld(kernel: Kernel, home: map<object, Region>, o: object)
    requires kernel.Valid() && Houses(home, Live(kernel.blocks, 0)) && o in home
    ensures Held(kernel.blocks, 0, home[o].start)
    ensures forall r <- Live(kernel.blocks, 0) :: r.start == home[o].start ==> r == home[o]
  {
    hide Tiles;
    var row := kernel.blocks;
    assert home[o] in home.Values;
    HeldIffLive(row, 0, home[o].start);
    TilesSound(kernel.bytes[..], 0, kernel.gHeap, row);
    LiveDisjoint(row, 0);
    LiveWithin(row, 0);
  }

  lemma MoveOut(home: map<object, Region>, live: set<Region>, o: object, given: Region)
    requires Houses(home, live) && o in home && home[o] == given
    ensures Houses(home - {o}, live - {given})
  {
    var after := home - {o};
    forall r | r in live - {given}
      ensures r in after.Values
    {
      var p :| p in home && home[p] == r;
      assert p in after && after[p] == r;
    }
    assert after.Values == live - {given};
  }
}
