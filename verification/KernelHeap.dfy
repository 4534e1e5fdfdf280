/**
 The kernel allocator as its callers see it: `kmalloc` either refuses or hands
 out memory nobody else holds, `kfree` takes back memory that is held.  Freeing
 or reading anything that is not held breaks a precondition, so every method
 that verifies against this class has no double free and no use after free.
 The allocator behind this interface is modelled in module Kmalloc, and module
 HeapSimulation shows that it keeps what is promised here.
 */
module KernelHeap {
  import opened KernelTypes

  class Heap {
    /** Whether the n-th request for a positive number of bytes is granted. */
    const grants: nat -> bool
    /** What has been handed out and not yet taken back. */
    ghost var live: set<object>
    var mallocCount: nat
    var freeCount: nat

    constructor (grants: nat -> bool)
      ensures live == {} && mallocCount == 0 && freeCount == 0 && this.grants == grants
    {
      this.grants := grants;
      live, mallocCount, freeCount := {}, 0, 0;
    }

    /** `kmalloc`, up to the decision whether the memory is there. */
    method Request(size: i32) returns (granted: bool)
      modifies this`mallocCount
      ensures size <= 0 ==> !granted && mallocCount == old(mallocCount)
      ensures size > 0 ==> mallocCount == old(mallocCount) + 1 && granted == grants(old(mallocCount))
    {
      if size <= 0 {
        return false;
      }
      granted := grants(mallocCount);
      mallocCount := mallocCount + 1;
    }

    /** The memory granted last is `o`. */
    ghost method Hold(o: object)
      requires o !in live
      modifies this`live
      ensures live == old(live) + {o}
    {
      live := live + {o};
    }

    /** `kmalloc` of `size` bytes; the memory is not initialised. */
    method AllocBytes(size: i32) returns (bytes: array?<u8>)
      modifies this`live, this`mallocCount
      ensures size <= 0 ==> bytes == null && mallocCount == old(mallocCount)
      ensures size > 0 ==> mallocCount == old(mallocCount) + 1 && (bytes != null <==> grants(old(mallocCount)))
      ensures bytes == null ==> live == old(live)
      ensures bytes != null ==> fresh(bytes) && bytes.Length == size && live == old(live) + {bytes}
    {
      var granted := Request(size);
      if !granted {
        return null;
      }
      bytes := new u8[size];
      Hold(bytes);
    }

    method Free(o: object)
      requires o in live
      modifies this`live, this`freeCount
      ensures live == old(live) - {o} && freeCount == old(freeCount) + 1
    {
      live := live - {o};
      freeCount := freeCount + 1;
    }
  }
}
