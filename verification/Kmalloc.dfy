/**
 The kernel allocator over raw memory.  Addresses are offsets from the base of the
 heap, so that a payload never has address 0, which stands for NULL; `gHeap` is
 the end of the part of the heap that has pages.
 */
module Kmalloc {
  import opened KernelTypes
  import opened HeapBlocks

  /** Bytes of these regions are the same in both memories. */
  ghost predicate Keeps(m: seq<u8>, m': seq<u8>, regions: set<Region>) {
    |m| == |m'| && forall r, k | r in regions && r.start <= k < r.start + r.size && k < |m| :: m'[k] == m[k]
  }

  /** Nothing outside `[from, to)` changed. */
  ghost predicate SameOutside(m: seq<u8>, m': seq<u8>, from: nat, to: nat) {
    |m| == |m'| && forall k :: 0 <= k < |m| && !(from <= k < to) ==> m'[k] == m[k]
  }

  lemma KeepsOutside(m: seq<u8>, m': seq<u8>, regions: set<Region>, from: nat, to: nat)
    requires SameOutside(m, m', from, to)
    requires forall r <- regions :: r.start + r.size <= from || to <= r.start
    ensures Keeps(m, m', regions)
  {
  }

  lemma HeaderOf(b: Block)
    requires b.size < 0x8000_0000
    ensures HeaderWord(b) < 0x1_0000_0000
    ensures HeaderWord(b) % 0x8000_0000 == b.size && (HeaderWord(b) / 0x8000_0000 == 1 <==> b.used)
  {
  }

  class Kernel {
    const bytes: array<u8>
    var gHeap: nat
    var kmallocCount: nat
    var kfreeCount: nat
    ghost var blocks: seq<Block>

    ghost predicate Valid()
      reads this, bytes
    {
      gHeap <= bytes.Length < 0x4000_0000 && Tiles(bytes[..], 0, gHeap, blocks)
    }

    /** The kernel reserves 0x30000000 bytes of virtual addresses for its heap. */
    constructor (bytes: array<u8>)
      requires bytes.Length < 0x4000_0000
      ensures Valid() && this.bytes == bytes && blocks == [] && kmallocCount == kfreeCount == 0
    {
      this.bytes, gHeap, kmallocCount, kfreeCount, blocks := bytes, 0, 0, 0, [];
    }

    // -------------------------------------------------------------- headers

    /** `block->size` */
    function SizeAt(at: nat): nat
      requires at + 4 <= bytes.Length
      reads bytes
    {
      FromLe32(bytes[at..at + 4]) % 0x8000_0000
    }

    /** `block->state == BLOCK_USED` */
    predicate UsedAt(at: nat)
      requires at + 4 <= bytes.Length
      reads bytes
    {
      FromLe32(bytes[at..at + 4]) / 0x8000_0000 == 1
    }

    lemma ReadHeader(at: nat, b: Block)
      requires IsBlock(bytes[..], at, b)
      ensures SizeAt(at) == b.size && UsedAt(at) == b.used
    {
      hide FromLe32;
      assert bytes[..][at..at + 4] == bytes[at..at + 4];
      HeaderOf(b);
    }

    /** Stores into both bit-fields of a header. */
    method SetHeader(at: nat, b: Block)
      requires at + 4 <= bytes.Length && b.size < 0x8000_0000
      modifies bytes
      ensures SameOutside(old(bytes[..]), bytes[..], at, at + 4)
      ensures FromLe32(bytes[..][at..at + 4]) == HeaderWord(b)
    {
      hide Le32, FromLe32;
      HeaderOf(b);
      var word := Le32(HeaderWord(b));
      bytes[at], bytes[at + 1], bytes[at + 2], bytes[at + 3] := word[0], word[1], word[2], word[3];
      assert bytes[..][at..at + 4] == word;
      Le32RoundTrip(HeaderWord(b));
    }

    /** `MmSet` with zero. */
    method Zero(at: nat, size: nat)
      requires at + size <= bytes.Length
      modifies bytes
      ensures SameOutside(old(bytes[..]), bytes[..], at, at + size) && IsZero(bytes[..], at, at + size)
    {
      var i := 0;
      while i < size
        invariant 0 <= i <= size
        invariant forall k :: at <= k < at + i ==> bytes[k] == 0
        invariant forall k :: 0 <= k < bytes.Length && !(at <= k < at + i) ==> bytes[k] == old(bytes[k])
      {
        bytes[at + i] := 0;
        i := i + 1;
      }
    }

    /** A header and a zeroed payload: a free block. */
    method MakeFree(at: nat, size: nat)
      requires 5 <= size < 0x8000_0000 && at + size <= bytes.Length
      modifies bytes
      ensures SameOutside(old(bytes[..]), bytes[..], at, at + size) && IsBlock(bytes[..], at, Block(size, false))
    {
      SetHeader(at, Block(size, false));
      ghost var m := bytes[..];
      Zero(at + 4, size - 4);
      assert bytes[..][at..at + 4] == m[at..at + 4];
    }

    // -------------------------------------------------------------- growing

    /** Maps `n` more pages; without room below the limit the kernel panics. */
    method Ksbrk(n: int) returns (ok: bool, block: nat)
      requires Valid()
      modifies this`gHeap, this`blocks, bytes
      ensures Valid() && (ok <==> n > 0 && old(gHeap) + 4096 * n <= bytes.Length)
      ensures !ok ==> gHeap == old(gHeap) && blocks == old(blocks) && bytes[..] == old(bytes[..])
      ensures ok ==> block == old(gHeap) && gHeap == old(gHeap) + 4096 * n && blocks == Grow(old(blocks), n)
      ensures ok ==> Tiles(bytes[..], 0, block, old(blocks)) && Tiles(bytes[..], block, gHeap, [Block(4096 * n, false)])
      ensures ok ==> SameOutside(old(bytes[..]), bytes[..], old(gHeap), gHeap)
    {
      hide Tiles, IsBlock;
      if n <= 0 {
        return false, 0;
      }
      if gHeap + n * 4096 > bytes.Length {
        return false, 0;
      }
      block := gHeap;
      gHeap := gHeap + n * 4096;
      MakeFree(block, n * 4096);
      TilesFrame(old(bytes[..]), bytes[..], 0, block, blocks);
      TilesOne(bytes[..], block, Block(4096 * n, false));
      TilesJoin(bytes[..], 0, block, gHeap, blocks, [Block(4096 * n, false)]);
      blocks := Grow(blocks, n);
      ok := true;
    }

    // -------------------------------------------------------------- taking

    /** The walk of `_kmalloc`: the first free block from `start` on that is large enough. */
    method FindBlock(start: nat, size: nat, ghost pre: seq<Block>, ghost post: seq<Block>)
      returns (found: bool, block: nat, ghost skipped: seq<Block>, ghost rest: seq<Block>)
      requires gHeap <= bytes.Length && Tiles(bytes[..], 0, start, pre) && Tiles(bytes[..], start, gHeap, post)
      ensures found <==> HasFit(post, size)
      ensures found ==> block == start + FitOffset(post, size)
      ensures post == skipped + rest && !HasFit(skipped, size)
      ensures found <==> rest != []
      ensures found ==> Fits(rest[0], size) && block == start + Total(skipped)
      ensures found ==> Tiles(bytes[..], 0, block, pre + skipped) && Tiles(bytes[..], block, gHeap, rest)
    {
      hide Tiles, IsBlock;
      block := start;
      skipped, rest := [], post;
      assert pre + skipped == pre;
      TilesBounds(bytes[..], block, gHeap, rest);
      while block < gHeap
        invariant post == skipped + rest && !HasFit(skipped, size) && block == start + Total(skipped)
        invariant Tiles(bytes[..], 0, block, pre + skipped) && Tiles(bytes[..], block, gHeap, rest)
        invariant block <= gHeap && (block < gHeap <==> rest != [])
        decreases gHeap - block
      {
        TilesHead(bytes[..], block, gHeap, rest);
        ReadHeader(block, rest[0]);
        if !UsedAt(block) && size <= SizeAt(block) {
          TakenInRow(pre, post, skipped, rest, size);
          return true, block, skipped, rest;
        }
        Skip(bytes[..], 0, block, gHeap, pre + skipped, rest);
        TotalConcat(skipped, [rest[0]]);
        assert pre + (skipped + [rest[0]]) == pre + skipped + [rest[0]];
        block := block + SizeAt(block);
        skipped, rest := skipped + [rest[0]], rest[1..];
        TilesBounds(bytes[..], block, gHeap, rest);
      }
      found := false;
      assert post == skipped;
    }

    /** `_splitBlock`: makes two free blocks of one. */
    method SplitBlock(at: nat, size: nat, ghost b: Block)
      requires IsBlock(bytes[..], at, b) && !b.used && 5 <= size && size + 8 <= b.size
      modifies bytes
      ensures SameOutside(old(bytes[..]), bytes[..], at, at + b.size)
      ensures IsBlock(bytes[..], at, Block(size, false)) && IsBlock(bytes[..], at + size, Block(b.size - size, false))
    {
      hide FromLe32;
      ReadHeader(at, b);
      var used := UsedAt(at);
      SetHeader(at + size, Block(SizeAt(at) - size, false));
      ghost var m := bytes[..];
      SetHeader(at, Block(size, used));
      assert bytes[..][at + size..at + size + 4] == m[at + size..at + size + 4];
    }

    /** `block->state = BLOCK_USED` */
    method MarkUsed(at: nat, ghost b: Block)
      requires IsBlock(bytes[..], at, b)
      modifies bytes
      ensures SameOutside(old(bytes[..]), bytes[..], at, at + 4)
      ensures IsBlock(bytes[..], at, Block(b.size, true))
      ensures b.used ==> bytes[..] == old(bytes[..])
    {
      ReadHeader(at, b);
      ghost var m := bytes[..];
      SetHeader(at, Block(SizeAt(at), true));
      if b.used {
        FromLe32RoundTrip(m[at..at + 4]);
        FromLe32RoundTrip(bytes[..][at..at + 4]);
        assert forall k :: at <= k < at + 4 ==>
                 m[k] == m[at..at + 4][k - at] == bytes[..][at..at + 4][k - at] == bytes[k];
      }
    }

    /** The end of `_kmalloc`: splits off what is not needed of a free block, and marks it used. */
    method TakeBlock(at: nat, size: nat, ghost pre: seq<Block>, ghost rest: seq<Block>)
      requires gHeap <= bytes.Length && rest != [] && Fits(rest[0], size) && size >= 5
      requires Tiles(bytes[..], 0, at, pre) && Tiles(bytes[..], at, gHeap, rest)
      modifies bytes
      ensures Tiles(bytes[..], 0, gHeap, pre + (Take(rest[0], size) + rest[1..]))
      ensures SameOutside(old(bytes[..]), bytes[..], at, at + rest[0].size)
      ensures IsBlock(bytes[..], at, Take(rest[0], size)[0])
      ensures IsZero(bytes[..], at + 4, at + Take(rest[0], size)[0].size)
    {
      hide Tiles, IsBlock, FromLe32;
      ghost var b, m := rest[0], bytes[..];
      TilesHead(m, at, gHeap, rest);
      ReadHeader(at, b);
      if SizeAt(at) - size >= BLOCK_HEADER_SIZE + MINIMAL_BLOCK_SIZE {
        SplitBlock(at, size, b);
        FreeIsZero(bytes[..], at, Block(size, false));
        ghost var m1 := bytes[..];
        MarkUsed(at, Block(size, false));
        IsBlockFrame(m1, bytes[..], at + size, Block(b.size - size, false));
        TilesTwo(bytes[..], at, Block(size, true), Block(b.size - size, false));
      } else {
        FreeIsZero(m, at, b);
        MarkUsed(at, b);
        TilesOne(bytes[..], at, Block(b.size, true));
      }
      ghost var taken := Take(b, size);
      TilesFrame(m, bytes[..], 0, at, pre);
      TilesFrame(m, bytes[..], at + b.size, gHeap, rest[1..]);
      TilesJoin(bytes[..], at, at + b.size, gHeap, taken, rest[1..]);
      TilesJoin(bytes[..], 0, at, gHeap, pre, taken + rest[1..]);
    }

    /** `_mod`: not a remainder, but whether anything is left when b is taken away while it is exceeded. */
    static method Mod(a: nat, b: nat) returns (r: nat)
      requires b > 0
      ensures r == if a > 0 then 1 else 0
    {
      var left := a;
      while left > b
        invariant left > 0 <==> a > 0
      {
        left := left - b;
      }
      r := if left > 0 then 1 else 0;
    }

    /** `_kmalloc` from block `start` on; it calls itself once the heap has grown. */
    method KmallocFrom(start: nat, size: nat, ghost pre: seq<Block>, ghost post: seq<Block>)
      returns (ok: bool, ptr: nat)
      requires Valid() && size >= 5 && blocks == pre + post
      requires Tiles(bytes[..], 0, start, pre) && Tiles(bytes[..], start, gHeap, post)
      modifies this`gHeap, this`blocks, bytes
      ensures Valid()
      ensures ok <==> HasFit(post, size) || old(gHeap) + 4096 * Pages(size) <= bytes.Length
      ensures !ok ==> gHeap == old(gHeap) && blocks == old(blocks) && bytes[..] == old(bytes[..])
      ensures ok ==> blocks == pre + Alloc(Room(post, size), size)
      ensures ok ==> ptr == start + FitOffset(Room(post, size), size) + 4
      ensures ok ==> IsBlock(bytes[..], ptr - 4, Block(FitSize(Room(post, size), size), true))
      ensures ok ==> IsZero(bytes[..], ptr, ptr - 4 + FitSize(Room(post, size), size))
      ensures ok ==> Keeps(old(bytes[..]), bytes[..], Live(pre + post, 0))
      decreases if HasFit(post, size) then 0 else 1
    {
      hide Tiles, IsBlock, Alloc, FitOffset, FitSize, Live, Keeps, HasFit, Take, Room, Pages, SameOutside, IsZero,
           Grow, Total, Sound;
      ghost var m := bytes[..];
      TilesSound(m, 0, start, pre);
      TilesSound(m, start, gHeap, post);
      TilesTotal(m, 0, start, pre);
      TilesTotal(m, start, gHeap, post);
      var found, block;
      ghost var skipped, rest;
      found, block, skipped, rest := FindBlock(start, size, pre, post);
      if found {
        TakeBlock(block, size, pre + skipped, rest);
        ok, ptr := true, block + 4;
        TakenInRow(pre, post, skipped, rest, size);
        blocks := pre + skipped + (Take(rest[0], size) + rest[1..]);
        TotalConcat(pre, skipped);
        KeptByTaking(m, bytes[..], block, pre + skipped, rest);
        assert pre + skipped + rest == pre + post;
      } else {
        assert skipped == post;
        var n := 1;
        if size > 4092 {
          n := size / 4092;
          var more := Mod(size, 4092);
          if more > 0 {
            n := n + 1;
          }
        }
        PagesAre(size, n);
        var grown, newBlock := Ksbrk(n);
        if !grown {
          return false, 0;
        }
        ghost var m1, added := bytes[..], [Block(4096 * n, false)];
        TakenInNewBlock(pre, post, size);
        TotalConcat(pre, post);
        KeptByGrowing(m, m1, newBlock, gHeap, pre + post, n);
        GrownRow(pre + post, n);
        ok, ptr := KmallocFrom(newBlock, size, pre + post, added);
        MarkUsed(newBlock, Block(FitSize(added, size), true));
        KeepsTrans(m, m1, bytes[..], Live(pre + post, 0));
      }
    }

    /** `HeapInit`: the first page. */
    method HeapInit() returns (ok: bool)
      requires Valid() && blocks == []
      modifies this`gHeap, this`blocks, bytes
      ensures Valid() && (ok <==> 4096 <= bytes.Length)
      ensures ok ==> blocks == [Block(4096, false)]
    {
      TilesTotal(bytes[..], 0, gHeap, blocks);
      var block;
      ok, block := Ksbrk(1);
    }

    /** `kmalloc` of a positive size: header and payload from `_kmalloc`, and one more on the counter. */
    method Grant(size: i32) returns (ptr: nat)
      requires Valid() && 0 < size < 0x7FFF_FFFC
      modifies this`gHeap, this`blocks, this`kmallocCount, bytes
      ensures Valid() && old(gHeap) == Total(old(blocks))
      ensures ptr != 0 <==> HasFit(old(blocks), size + 4) || old(gHeap) + 4096 * Pages(size + 4) <= bytes.Length
      ensures ptr == 0 ==> blocks == old(blocks) && gHeap == old(gHeap) && bytes[..] == old(bytes[..])
      ensures kmallocCount == old(kmallocCount) + if ptr == 0 then 0 else 1
      ensures ptr != 0 ==> blocks == Alloc(Room(old(blocks), size + 4), size + 4)
      ensures ptr != 0 ==>
                var given := Given(old(blocks), size + 4);
                && ptr == given.start && Live(blocks, 0) == Live(old(blocks), 0) + {given}
                && (forall r <- Live(old(blocks), 0) :: Apart(r, given))
                && size <= given.size < size + 8
                && IsZero(bytes[..], ptr, ptr + given.size)
                && (forall p: nat ::
                      Freed(blocks, 0, p)
                      <==> (Freed(old(blocks), 0, p) || Opened(old(blocks), size + 4, p)) && !Overwrites(given, p))
      ensures Keeps(old(bytes[..]), bytes[..], Live(old(blocks), 0))
    {
      hide Tiles, IsBlock, Alloc, FitOffset, FitSize, Live, Keeps, HasFit, Room, Pages, SameOutside, IsZero, Apart,
           Freed, Overwrites, Opened, Given, Total;
      KeepsSelf(bytes[..], Live(blocks, 0));
      var need := size + BLOCK_HEADER_SIZE;
      ghost var row := blocks;
      TilesNone(bytes[..]);
      TilesSound(bytes[..], 0, gHeap, row);
      TilesTotal(bytes[..], 0, gHeap, row);
      assert [] + row == row;
      var ok;
      ok, ptr := KmallocFrom(0, need, [], row);
      if !ok {
        return 0;
      }
      assert [] + Alloc(Room(row, need), need) == Alloc(Room(row, need), need);
      kmallocCount := kmallocCount + 1;
      GivenRegion(row, need);
      GivenPlace(row, need);
      forall p: nat
        ensures Freed(blocks, 0, p) <==> (Freed(row, 0, p) || Opened(row, need, p)) && !Overwrites(Given(row, need), p)
      {
        RequestFreed(row, need, p);
      }
    }

    /**
     `kmalloc`.  A null result for a positive size stands for the kernel's panic.
     Otherwise the caller gets zeroed memory that overlaps nothing handed out
     before, at least as much as asked for: the first free block that is large enough,
     or else new pages at the end.  What others hold is untouched.
     */
    method KMalloc(size: i32) returns (ptr: nat)
      requires Valid() && size < 0x7FFF_FFFC
      modifies this`gHeap, this`blocks, this`kmallocCount, bytes
      ensures Valid()
      ensures ptr != 0 <==>
                size > 0 && (HasFit(old(blocks), size + 4) || old(gHeap) + 4096 * Pages(size + 4) <= bytes.Length)
      ensures ptr == 0 ==> blocks == old(blocks) && gHeap == old(gHeap) && bytes[..] == old(bytes[..])
      ensures kmallocCount == old(kmallocCount) + if ptr == 0 then 0 else 1
      ensures ptr != 0 ==> blocks == Alloc(Room(old(blocks), size + 4), size + 4)
      ensures ptr != 0 ==>
                var given := Given(old(blocks), size + 4);
                && ptr == given.start && Live(blocks, 0) == Live(old(blocks), 0) + {given}
                && (forall r <- Live(old(blocks), 0) :: Apart(r, given))
                && size <= given.size < size + 8
                && IsZero(bytes[..], ptr, ptr + given.size)
                && (forall p: nat ::
                      Freed(blocks, 0, p)
                      <==> (Freed(old(blocks), 0, p) || Opened(old(blocks), size + 4, p)) && !Overwrites(given, p))
      ensures ptr != 0 ==> forall k :: ptr <= k < ptr + size && k < bytes.Length ==> bytes[k] == 0
      ensures size > 0 ==>
                forall i :: 0 <= i < |old(blocks)| && FirstFree(old(blocks), i, size + 4) ==>
                  ptr == Total(old(blocks)[..i]) + 4
      ensures size > 0 && (forall b <- old(blocks) :: b.used || b.size < size + 4) ==>
                var pages := if size + 4 > 4092 then (size + 4) / 4092 + 1 else 1;
                ptr == if old(gHeap) + 4096 * pages <= bytes.Length then old(gHeap) + 4 else 0
      ensures Keeps(old(bytes[..]), bytes[..], Live(old(blocks), 0))
    {
      hide Valid, Alloc, Live, Keeps, HasFit, Room, Pages, IsZero, Apart, Freed, Overwrites, Opened, Given, Total,
           FirstFree;
      KeepsSelf(bytes[..], Live(blocks, 0));
      if size <= 0 {
        return 0;
      }
      RequestPlace(blocks, size + BLOCK_HEADER_SIZE);
      ghost var given := Given(blocks, size + BLOCK_HEADER_SIZE);
      ptr := Grant(size);
      if ptr != 0 {
        ZeroFront(bytes[..], ptr, given.size, size);
      }
    }

    /** The body of `_kdefrag`'s loop: `block` swallows its successor if both are free. */
    method MergeNext(block: nat, ghost done: seq<Block>, ghost rest: seq<Block>) returns (ghost merged: seq<Block>)
      requires gHeap <= bytes.Length < 0x4000_0000 && rest != []
      requires Tiles(bytes[..], 0, block, done) && Tiles(bytes[..], block, gHeap, rest)
      modifies bytes
      ensures merged != [] && Coalesce(rest) == [merged[0]] + Coalesce(merged[1..])
      ensures Tiles(bytes[..], 0, block, done) && Tiles(bytes[..], block, gHeap, merged)
      ensures Live(done + merged, 0) == Live(done + rest, 0)
      ensures Keeps(old(bytes[..]), bytes[..], Live(done + rest, 0))
    {
      hide Tiles, IsBlock, Live, Keeps, SameOutside, IsZero, Coalesce, Sound;
      merged := rest;
      CoalesceStep(rest);
      KeepsSelf(bytes[..], Live(done + rest, 0));
      TilesHead(bytes[..], block, gHeap, rest);
      ReadHeader(block, rest[0]);
      var next := block + SizeAt(block);
      TilesBounds(bytes[..], next, gHeap, rest[1..]);
      if next < gHeap {
        TilesHead(bytes[..], next, gHeap, rest[1..]);
        ReadHeader(next, rest[1]);
        if !UsedAt(block) && !UsedAt(next) {
          ghost var before := bytes[..];
          MakeFree(block, SizeAt(block) + SizeAt(next));
          MergedRow(before, bytes[..], block, gHeap, done, rest);
          merged := [Block(rest[0].size + rest[1].size, false)] + rest[2..];
        }
      }
    }

    /** `_kdefrag`: one pass over the heap that joins neighbouring free blocks in pairs. */
    method KDefrag()
      requires Valid()
      modifies this`blocks, bytes
      ensures Valid() && blocks == Coalesce(old(blocks))
      ensures Live(blocks, 0) == Live(old(blocks), 0) && Keeps(old(bytes[..]), bytes[..], Live(old(blocks), 0))
    {
      hide Tiles, IsBlock, Live, Keeps, SameOutside, IsZero, Coalesce, Sound;
      ghost var m, row, live := bytes[..], blocks, Live(blocks, 0);
      ghost var done, rest := [], blocks;
      var block := 0;
      TilesNone(m);
      KeepsSelf(m, live);
      assert done + rest == row && done + Coalesce(rest) == Coalesce(row);
      TilesBounds(m, block, gHeap, rest);
      while block < gHeap
        invariant Tiles(bytes[..], 0, block, done) && Tiles(bytes[..], block, gHeap, rest)
        invariant block <= gHeap && (block < gHeap <==> rest != [])
        invariant Coalesce(row) == done + Coalesce(rest) && Live(done + rest, 0) == live
        invariant Keeps(m, bytes[..], live)
        decreases gHeap - block
      {
        ghost var before := bytes[..];
        ghost var merged := MergeNext(block, done, rest);
        KeepsTrans(m, before, bytes[..], live);
        TilesHead(bytes[..], block, gHeap, merged);
        ReadHeader(block, merged[0]);
        Skip(bytes[..], 0, block, gHeap, done, merged);
        block := block + SizeAt(block);
        Regroup(done, merged[0], Coalesce(merged[1..]));
        Regroup(done, merged[0], merged[1..]);
        assert merged == [merged[0]] + merged[1..];
        done, rest := done + [merged[0]], merged[1..];
        TilesBounds(bytes[..], block, gHeap, rest);
      }
      CoalesceHead(rest);
      assert done + Coalesce(rest) == done && done + rest == done;
      blocks := done;
    }

    /** The four bytes in front of `ptr`, read as a header, say free. */
    predicate ReadsFree(ptr: nat)
      reads bytes
    {
      4 <= ptr <= bytes.Length && !UsedAt(ptr - 4)
    }

    /** For a freed pointer they do, whatever the holders of other memory have stored. */
    lemma FreedIsRead(ptr: nat)
      requires Valid() && Freed(blocks, 0, ptr)
      ensures ReadsFree(ptr)
    {
      hide FromLe32;
      FreedReadsFree(bytes[..], 0, gHeap, blocks, ptr);
      assert bytes[..][ptr - 4..ptr] == bytes[ptr - 4..ptr];
    }

    /**
     `kfree`: takes back what `ptr` points to.  A pointer that is not held is ignored
     if the bytes in front of it read as the header of a free block, as they do for
     every pointer that counts as freed; otherwise the code would take those bytes
     for the header of a block that does not exist.
     */
    method KFree(ptr: nat)
      requires Valid() && (ptr == 0 || Held(blocks, 0, ptr) || ReadsFree(ptr))
      modifies this`blocks, this`kfreeCount, bytes
      ensures Valid()
      ensures !Held(old(blocks), 0, ptr) ==>
                blocks == old(blocks) && bytes[..] == old(bytes[..]) && kfreeCount == old(kfreeCount)
      ensures Held(old(blocks), 0, ptr) ==>
                && kfreeCount == old(kfreeCount) + 1 && Freed(blocks, 0, ptr)
                && blocks == Coalesce(Freeing(old(blocks), 0, ptr))
                && (forall i :: 0 <= i < |old(blocks)| && old(blocks)[i].used && ptr == Total(old(blocks)[..i]) + 4 ==>
                      blocks == Coalesce(old(blocks)[i := Block(old(blocks)[i].size, false)]))
                && exists size :: Region(ptr, size) in Live(old(blocks), 0)
                                  && Live(blocks, 0) == Live(old(blocks), 0) - {Region(ptr, size)}
      ensures Keeps(old(bytes[..]), bytes[..], Live(blocks, 0))
      ensures forall p: nat ::
                Freed(blocks, 0, p)
                <==> Freed(old(blocks), 0, p) || (Held(old(blocks), 0, ptr) && Frees(old(blocks), 0, ptr, p))
    {
      hide Tiles, IsBlock, Live, Keeps, SameOutside, IsZero, Coalesce, Sound, Held, Freed, FromLe32, Freeing, Frees;
      KeepsSelf(bytes[..], Live(blocks, 0));
      if ptr == 0 {
        NullIsNotHeld(blocks);
        return;
      }
      var block := PayloadBlock(ptr);
      if !UsedAt(block) {
        return;
      }
      ghost var m, row := bytes[..], blocks;
      ghost var i := HeldAt(row, 0, ptr);
      ghost var b := row[i];
      TilesSplit(m, 0, gHeap, row, i);
      TilesHead(m, block, gHeap, row[i..]);
      ReadHeader(block, b);
      MakeFree(block, SizeAt(block));
      kfreeCount := kfreeCount + 1;
      FreedRow(m, bytes[..], gHeap, row, i);
      TilesSound(m, 0, gHeap, row);
      FreeingAt(row, 0, i);
      blocks := Freeing(row, 0, ptr);
      ghost var m1 := bytes[..];
      FreeLive(row, i, 0);
      KDefrag();
      KeepsTrans(m, m1, bytes[..], Live(blocks, 0));
      forall p: nat
        ensures Freed(blocks, 0, p) <==> Freed(row, 0, p) || Frees(row, 0, ptr, p)
      {
        ReleaseFreed(row, 0, ptr, p);
      }
      ReleaseFreed(row, 0, ptr, ptr);
      forall j | 0 <= j < |row| && row[j].used && ptr == Total(row[..j]) + 4
        ensures Freeing(row, 0, ptr) == row[j := Block(row[j].size, false)]
      {
        FreeingAt(row, 0, j);
      }
      assert Region(ptr, Payload(b.size)) in Live(row, 0);
    }

    /** The block in front of a payload; its header tells whether the payload is held. */
    method PayloadBlock(ptr: nat) returns (block: nat)
      requires Valid() && (Held(blocks, 0, ptr) || ReadsFree(ptr))
      ensures block + 4 == ptr <= bytes.Length && (UsedAt(block) <==> Held(blocks, 0, ptr))
    {
      hide Tiles, IsBlock, Held, FromLe32;
      if Held(blocks, 0, ptr) {
        ghost var i := HeldAt(blocks, 0, ptr);
        TilesSplit(bytes[..], 0, gHeap, blocks, i);
        TilesHead(bytes[..], ptr - 4, gHeap, blocks[i..]);
        ReadHeader(ptr - 4, blocks[i]);
      }
      block := ptr - BLOCK_HEADER_SIZE;
    }
  }

  lemma NullIsNotHeld(blocks: seq<Block>)
    ensures !Held(blocks, 0, 0)
  {
    if Held(blocks, 0, 0) {
      var i := HeldAt(blocks, 0, 0);
    }
  }

  /** A used block made free in place. */
  lemma FreedRow(m: seq<u8>, m': seq<u8>, to: nat, row: seq<Block>, i: nat)
    requires Tiles(m, 0, to, row) && i < |row| && row[i].used
    requires SameOutside(m, m', Total(row[..i]), Total(row[..i]) + row[i].size)
    requires IsBlock(m', Total(row[..i]), Block(row[i].size, false))
    ensures var freed := row[i := Block(row[i].size, false)];
            && Tiles(m', 0, to, freed) && Keeps(m, m', Live(freed, 0))
  {
    hide Tiles, IsBlock, Live, Keeps, SameOutside, Sound;
    var at, b, f := Total(row[..i]), row[i], Block(row[i].size, false);
    var pre, rest := row[..i], row[i..];
    var freed, after := row[i := f], [f] + rest[1..];
    assert freed == pre + after;
    TilesSplit(m, 0, to, row, i);
    TilesHead(m, at, to, rest);
    SameOutsideFrame(m, m', 0, at, at + b.size, to, pre, rest[1..]);
    TilesOne(m', at, f);
    TilesJoin(m', at, at + b.size, to, [f], rest[1..]);
    assert after[1..] == rest[1..];
    TilesJoin(m', 0, at, to, pre, after);
    TilesSound(m', 0, at, pre);
    TilesSound(m', at, to, after);
    FreeIsApart(pre, after);
    KeepsOutside(m, m', Live(freed, 0), at, at + b.size);
  }

  lemma Regroup<T>(a: seq<T>, x: T, b: seq<T>)
    ensures a + ([x] + b) == (a + [x]) + b
  {
  }

  lemma KeepsSelf(m: seq<u8>, regions: set<Region>)
    ensures Keeps(m, m, regions)
  {
  }

  lemma TilesNone(m: seq<u8>)
    ensures Tiles(m, 0, 0, [])
  {
  }

  /** The block that will be taken is free: what is handed out lies before or behind it. */
  lemma {:induction false} FitApart(blocks: seq<Block>, size: nat, from: nat)
    requires HasFit(blocks, size) && Sound(blocks) && size >= 5
    ensures forall r <- Live(blocks, from) ::
              r.start + r.size <= from + FitOffset(blocks, size)
              || from + FitOffset(blocks, size) + FitSize(blocks, size) <= r.start
    decreases |blocks|
  {
    assert blocks[0] in blocks && forall b <- blocks[1..] :: b in blocks;
    LiveWithin(blocks[1..], from + blocks[0].size);
    if !Fits(blocks[0], size) {
      FitApart(blocks[1..], size, from + blocks[0].size);
    }
  }

  /** What a request for `need` bytes, header included, is given. */
  function Given(row: seq<Block>, need: nat): Region {
    Region(FitOffset(Room(row, need), need) + 4, Payload(FitSize(Room(row, need), need)))
  }

  /** The region a request gets is large enough and shares no byte with what was handed out before. */
  lemma GivenRegion(row: seq<Block>, need: nat)
    requires need >= 5 && Sound(row)
    ensures var given := Given(row, need);
            && Live(Alloc(Room(row, need), need), 0) == Live(row, 0) + {given}
            && need <= given.size + 4 < need + 8
            && (forall r <- Live(row, 0) :: Apart(r, given))
  {
    hide Alloc, FitOffset, FitSize, HasFit, Live;
    var room := Room(row, need);
    if !HasFit(row, need) {
      GrowLive(row, Pages(need), 0);
    }
    assert forall b <- room :: b in row || b == Block(4096 * Pages(need), false);
    AllocLive(room, need, 0);
    FitApart(room, need, 0);
  }

  lemma GivenPlace(row: seq<Block>, need: nat)
    ensures Given(row, need).start == FitOffset(Room(row, need), need) + 4
    ensures Given(row, need).size == Payload(FitSize(Room(row, need), need))
  {
  }

  lemma ZeroFront(m: seq<u8>, at: nat, size: nat, fewer: nat)
    requires IsZero(m, at, at + size) && fewer <= size
    ensures forall k :: at <= k < at + fewer && k < |m| ==> m[k] == 0
  {
  }

  /**
   First fit: a request takes the first free block of at least its size, splits off what
   is left if that is eight bytes or more, and leaves all other blocks as they are.
   */
  lemma FirstFit(row: seq<Block>, i: nat, need: nat)
    requires i < |row| && !row[i].used && row[i].size >= need >= 5
    requires forall j :: 0 <= j < i ==> row[j].used || row[j].size < need
    ensures HasFit(row, need) && Given(row, need).start == Total(row[..i]) + 4
    ensures Alloc(Room(row, need), need)
         == row[..i]
            + (if row[i].size - need >= 8 then [Block(need, true), Block(row[i].size - need, false)]
               else [Block(row[i].size, true)])
            + row[i + 1..]
    ensures Given(row, need).size == (if row[i].size - need >= 8 then need else row[i].size) - 4
  {
    hide Alloc, FitOffset, FitSize, Total, Take, Room;
    var pre, rest := row[..i], row[i..];
    assert row == pre + rest && rest[0] == row[i] && rest[1..] == row[i + 1..];
    NoneFits(row, i, need);
    TakenInRow([], row, pre, rest, need);
    GivenPlace(row, need);
    TakeIs(row[i], need);
    assert [] + pre == pre && [] + Alloc(row, need) == Alloc(row, need);
    assert pre + (Take(rest[0], need) + rest[1..]) == pre + Take(rest[0], need) + rest[1..];
  }

  lemma NoneFits(row: seq<Block>, i: nat, need: nat)
    requires i <= |row| && forall j :: 0 <= j < i ==> row[j].used || row[j].size < need
    ensures !HasFit(row[..i], need)
  {
    forall b <- row[..i]
      ensures !Fits(b, need)
    {
      var j :| 0 <= j < i && row[j] == b;
    }
  }

  lemma TakeIs(b: Block, need: nat)
    requires !b.used && b.size >= need
    ensures Fits(b, need)
    ensures Take(b, need) == if b.size - need >= 8 then [Block(need, true), Block(b.size - need, false)]
                             else [Block(b.size, true)]
  {
  }

  /** Without such a block the heap grows by whole pages, and the first bytes of those are taken. */
  lemma NoFit(row: seq<Block>, need: nat)
    requires need >= 5 && forall b <- row :: b.used || b.size < need
    ensures var size := 4096 * if need > 4092 then need / 4092 + 1 else 1;
            && !HasFit(row, need) && Given(row, need).start == Total(row) + 4
            && Alloc(Room(row, need), need)
               == row + if size - need >= 8 then [Block(need, true), Block(size - need, false)] else [Block(size, true)]
  {
    hide FitOffset, FitSize, Alloc, Total, Take, Room;
    assert !HasFit(row, need);
    TakenInNewBlock([], row, need);
    var added := [Block(4096 * Pages(need), false)];
    assert [] + row == row && [] + Alloc(Room(row, need), need) == Alloc(Room(row, need), need);
    assert added[1..] == [] && Alloc(added, need) == Take(added[0], need) + [] by {
      TakenFromOne(added[0], need);
    }
    PagesSuffice(need);
    TakeIs(added[0], need);
    GivenPlace(row, need);
  }

  lemma TakenFromOne(b: Block, need: nat)
    requires Fits(b, need)
    ensures HasFit([b], need) && Alloc([b], need) == Take(b, need) + []
  {
    assert [b][0] in [b] && [b][1..] == [];
  }

  /** Block i is the first that is free and has at least `need` bytes, header included. */
  predicate FirstFree(row: seq<Block>, i: nat, need: nat)
    requires i < |row|
  {
    !row[i].used && row[i].size >= need && forall j :: 0 <= j < i ==> row[j].used || row[j].size < need
  }

  /** As soon as some free block is large enough, there is a first one. */
  lemma {:induction false} FirstFreeExists(row: seq<Block>, k: nat, need: nat) returns (i: nat)
    requires k < |row| && !row[k].used && row[k].size >= need
    ensures i <= k && FirstFree(row, i, need)
    decreases k
  {
    if j :| 0 <= j < k && !row[j].used && row[j].size >= need {
      i := FirstFreeExists(row, j, need);
    } else {
      i := k;
    }
  }

  /** Where a request is served. */
  lemma RequestPlace(row: seq<Block>, need: nat)
    requires need >= 5
    ensures forall i :: 0 <= i < |row| && FirstFree(row, i, need) ==>
              HasFit(row, need) && Given(row, need).start == Total(row[..i]) + 4
    ensures (forall b <- row :: b.used || b.size < need) ==>
              && !HasFit(row, need) && Given(row, need).start == Total(row) + 4
              && Pages(need) == if need > 4092 then need / 4092 + 1 else 1
  {
    hide Given, HasFit, Total, Room, Alloc;
    forall i | 0 <= i < |row| && FirstFree(row, i, need)
      ensures HasFit(row, need) && Given(row, need).start == Total(row[..i]) + 4
    {
      FirstFit(row, i, need);
    }
    if forall b <- row :: b.used || b.size < need {
      NoFit(row, need);
    }
  }

  /** The pointers into the pages that the heap grows by to serve the request. */
  predicate Opened(row: seq<Block>, need: nat, p: nat) {
    !HasFit(row, need) && InNewPages(Total(row), Pages(need), p)
  }

  /** A request frees the pointers into its new pages and unfrees exactly those it overwrites. */
  lemma RequestFreed(row: seq<Block>, need: nat, p: nat)
    requires need >= 5 && Sound(row)
    ensures Freed(Alloc(Room(row, need), need), 0, p)
       <==> (Freed(row, 0, p) || Opened(row, need, p)) && !Overwrites(Given(row, need), p)
    ensures Sound(Alloc(Room(row, need), need))
  {
    hide Alloc, FitOffset, FitSize, HasFit, Freed, Total, InNewPages;
    var room := Room(row, need);
    if !HasFit(row, need) {
      GrowFreed(row, Pages(need), 0, p);
    }
    assert forall b <- room :: b in row || b == Block(4096 * Pages(need), false);
    AllocFreed(room, need, 0, p);
    AllocSound(room, need);
  }

  /** Two free neighbours made one: the row stays a row and nothing handed out is touched. */
  lemma MergedRow(m: seq<u8>, m': seq<u8>, at: nat, to: nat, done: seq<Block>, rest: seq<Block>)
    requires Tiles(m, 0, at, done) && Tiles(m, at, to, rest) && |rest| >= 2 && !rest[0].used && !rest[1].used
    requires SameOutside(m, m', at, at + rest[0].size + rest[1].size)
    requires IsBlock(m', at, Block(rest[0].size + rest[1].size, false))
    ensures var merged := [Block(rest[0].size + rest[1].size, false)] + rest[2..];
            && Tiles(m', 0, at, done) && Tiles(m', at, to, merged)
            && Live(done + merged, 0) == Live(done + rest, 0) && Keeps(m, m', Live(done + rest, 0))
  {
    hide Tiles, IsBlock, Live, Keeps, Sound, SameOutside;
    var a, b, tail := rest[0], rest[1], rest[2..];
    var merged := [Block(a.size + b.size, false)] + tail;
    var end := at + a.size + b.size;
    TilesHead(m, at, to, rest);
    TilesHead(m, at + a.size, to, rest[1..]);
    assert rest[1..][1..] == tail && merged[1..] == tail;
    SameOutsideFrame(m, m', 0, at, end, to, done, tail);
    TilesOne(m', at, merged[0]);
    TilesJoin(m', at, end, to, [merged[0]], tail);
    TilesSound(m, 0, at, done);
    TilesSound(m, at, to, rest);
    TilesSound(m', at, to, merged);
    TilesTotal(m, 0, at, done);
    LiveConcat(done, merged, 0);
    LiveConcat(done, rest, 0);
    FreeHead(rest, at);
    FreeHead(rest[1..], at + a.size);
    FreeHead(merged, at);
    FreeIsApart(done, merged);
    KeepsOutside(m, m', Live(done + rest, 0), at, end);
  }

  lemma SameOutsideFrame(m: seq<u8>, m': seq<u8>, from: nat, at: nat, end: nat, to: nat, a: seq<Block>, b: seq<Block>)
    requires Tiles(m, from, at, a) && Tiles(m, end, to, b) && SameOutside(m, m', at, end) && at <= end
    ensures Tiles(m', from, at, a) && Tiles(m', end, to, b)
  {
    TilesBounds(m, from, at, a);
    TilesBounds(m, end, to, b);
    TilesFrame(m, m', from, at, a);
    TilesFrame(m, m', end, to, b);
  }

  lemma PagesAre(size: nat, n: nat)
    requires n == if size > 4092 then size / 4092 + 1 else 1
    ensures n == Pages(size)
  {
  }

  lemma GrownRow(row: seq<Block>, pages: nat)
    ensures Grow(row, pages) == row + [Block(4096 * pages, false)]
  {
  }

  lemma KeptByTaking(m: seq<u8>, m': seq<u8>, at: nat, pre: seq<Block>, rest: seq<Block>)
    requires Sound(pre + rest) && rest != [] && !rest[0].used && at == Total(pre)
    requires SameOutside(m, m', at, at + rest[0].size)
    ensures Keeps(m, m', Live(pre + rest, 0))
  {
    assert forall b <- pre :: b in pre + rest;
    assert forall b <- rest :: b in pre + rest;
    FreeIsApart(pre, rest);
    KeepsOutside(m, m', Live(pre + rest, 0), at, at + rest[0].size);
  }

  lemma KeptByGrowing(m: seq<u8>, m': seq<u8>, from: nat, to: nat, row: seq<Block>, pages: nat)
    requires Sound(row) && from == Total(row) && SameOutside(m, m', from, to)
    ensures Keeps(m, m', Live(row, 0)) && Live(Grow(row, pages), 0) == Live(row, 0)
  {
    LiveWithin(row, 0);
    KeepsOutside(m, m', Live(row, 0), from, to);
    GrowLive(row, pages, 0);
  }

  /** The row of blocks once there is room for `size` bytes, header included. */
  function Room(row: seq<Block>, size: nat): (r: seq<Block>)
    ensures HasFit(r, size)
  {
    if HasFit(row, size) then row
    else
      PagesSuffice(size);
      var r := Grow(row, Pages(size));
      assert r[|row|] in r && Fits(r[|row|], size);
      r
  }

  /** Taking the first block behind those that do not fit. */
  lemma TakenInRow(pre: seq<Block>, post: seq<Block>, skipped: seq<Block>, rest: seq<Block>, size: nat)
    requires post == skipped + rest && !HasFit(skipped, size) && rest != [] && Fits(rest[0], size)
    ensures HasFit(post, size) && Room(post, size) == post
    ensures pre + skipped + (Take(rest[0], size) + rest[1..]) == pre + Alloc(post, size)
    ensures FitOffset(post, size) == Total(skipped) && Take(rest[0], size)[0] == Block(FitSize(post, size), true)
  {
    assert rest[0] in rest && rest[0] in post;
    AllocSkips(skipped, rest, size);
  }

  /** Growing and taking the new block is taking from the grown row. */
  lemma TakenInNewBlock(pre: seq<Block>, post: seq<Block>, size: nat)
    requires !HasFit(post, size)
    ensures var added := [Block(4096 * Pages(size), false)];
            && HasFit(added, size) && Room(added, size) == added && Room(post, size) == post + added
            && pre + post + Alloc(added, size) == pre + Alloc(Room(post, size), size)
            && FitOffset(added, size) == 0 && FitOffset(Room(post, size), size) == Total(post)
            && FitSize(Room(post, size), size) == FitSize(added, size)
  {
    var added := [Block(4096 * Pages(size), false)];
    PagesSuffice(size);
    assert added[0] in added && Fits(added[0], size);
    AllocSkips(post, added, size);
  }

  /** A free block is no part of what is handed out. */
  lemma FreeIsApart(pre: seq<Block>, rest: seq<Block>)
    requires Sound(pre) && Sound(rest) && rest != [] && !rest[0].used
    ensures forall r <- Live(pre + rest, 0) :: r.start + r.size <= Total(pre) || Total(pre) + rest[0].size <= r.start
  {
    hide Live, Sound;
    var at, end := Total(pre), Total(pre) + rest[0].size;
    LiveConcat(pre, rest, 0);
    LiveWithin(pre, 0);
    FreeHead(rest, at);
    LiveWithin(rest[1..], end);
    forall r <- Live(pre + rest, 0)
      ensures r.start + r.size <= at || end <= r.start
    {
      assert r in Live(pre, 0) || r in Live(rest[1..], end);
    }
  }

  lemma FreeHead(rest: seq<Block>, from: nat)
    requires Sound(rest) && rest != [] && !rest[0].used
    ensures Sound(rest[1..]) && Live(rest, from) == Live(rest[1..], from + rest[0].size)
  {
    assert forall b <- rest[1..] :: b in rest;
  }

  lemma KeepsTrans(a: seq<u8>, b: seq<u8>, c: seq<u8>, regions: set<Region>)
    requires Keeps(a, b, regions) && Keeps(b, c, regions)
    ensures Keeps(a, c, regions)
  {
  }

  lemma FreeIsZero(m: seq<u8>, at: nat, b: Block)
    requires IsBlock(m, at, b) && !b.used
    ensures IsZero(m, at + 4, at + b.size) && at + b.size <= |m| && b.size >= 5
  {
  }

  lemma TilesBounds(m: seq<u8>, from: nat, to: nat, blocks: seq<Block>)
    requires Tiles(m, from, to, blocks)
    ensures from <= to <= |m| && (from < to <==> blocks != [])
  {
    TilesTotal(m, from, to, blocks);
    TilesSound(m, from, to, blocks);
    if blocks != [] {
      assert blocks[0] in blocks;
    }
  }

  lemma TilesHead(m: seq<u8>, from: nat, to: nat, blocks: seq<Block>)
    requires Tiles(m, from, to, blocks) && blocks != []
    ensures IsBlock(m, from, blocks[0]) && 5 <= blocks[0].size && from + blocks[0].size <= to <= |m|
    ensures Tiles(m, from + blocks[0].size, to, blocks[1..])
  {
    TilesTotal(m, from, to, blocks);
  }

  lemma TilesOne(m: seq<u8>, at: nat, b: Block)
    requires IsBlock(m, at, b)
    ensures Tiles(m, at, at + b.size, [b])
  {
  }

  lemma TilesTwo(m: seq<u8>, at: nat, b: Block, c: Block)
    requires IsBlock(m, at, b) && IsBlock(m, at + b.size, c)
    ensures Tiles(m, at, at + b.size + c.size, [b, c])
  {
    TilesOne(m, at + b.size, c);
    assert [b, c][1..] == [c];
  }

  /** A walk passes a block. */
  lemma Skip(m: seq<u8>, from: nat, at: nat, to: nat, pre: seq<Block>, post: seq<Block>)
    requires Tiles(m, from, at, pre) && Tiles(m, at, to, post) && post != []
    ensures Tiles(m, from, at + post[0].size, pre + [post[0]]) && Tiles(m, at + post[0].size, to, post[1..])
  {
    TilesTotal(m, at, to, post);
    TilesTotal(m, at + post[0].size, to, post[1..]);
    assert Tiles(m, at, at + post[0].size, [post[0]]);
    TilesJoin(m, from, at, at + post[0].size, pre, [post[0]]);
  }

  /**
   A request, its release and a second release of the same pointer: the heap ends up
   handing out what it did before, byte for byte, and the counters agree.
   */
  method MallocFreeFree(kernel: Kernel, size: i32) returns (ptr: nat)
    requires kernel.Valid() && size < 0x7FFF_FFFC
    modifies kernel, kernel.bytes
    ensures kernel.Valid() && Live(kernel.blocks, 0) == Live(old(kernel.blocks), 0)
    ensures Keeps(old(kernel.bytes[..]), kernel.bytes[..], Live(old(kernel.blocks), 0))
    ensures kernel.kmallocCount - kernel.kfreeCount == old(kernel.kmallocCount) - old(kernel.kfreeCount)
  {
    hide Live, Keeps, Held, Freed, Tiles, Alloc, Room, HasFit, FitSize;
    ghost var live, m := Live(kernel.blocks, 0), kernel.bytes[..];
    TilesSound(m, 0, kernel.gHeap, kernel.blocks);
    LiveWithin(kernel.blocks, 0);
    ptr := kernel.KMalloc(size);
    if ptr == 0 {
      return;
    }
    ghost var m1, given := kernel.bytes[..], Live(kernel.blocks, 0);
    HeldIffLive(kernel.blocks, 0, ptr);
    assert Held(kernel.blocks, 0, ptr);
    kernel.KFree(ptr);
    OneRegionAt(live, given, Live(kernel.blocks, 0), ptr, size);
    KeepsTrans(m, m1, kernel.bytes[..], live);
    ghost var m2 := kernel.bytes[..];
    HeldIffLive(kernel.blocks, 0, ptr);
    kernel.FreedIsRead(ptr);
    kernel.KFree(ptr);
    assert kernel.bytes[..] == m2;
  }

  /** Taking back the region at `ptr` undoes handing it out. */
  lemma OneRegionAt(before: set<Region>, given: set<Region>, after: set<Region>, ptr: nat, size: nat)
    requires size > 0 && forall r <- before :: r.size > 0
    requires exists n: nat ::
               n >= size && given == before + {Region(ptr, n)} && forall r <- before :: Apart(r, Region(ptr, n))
    requires exists n: nat :: Region(ptr, n) in given && after == given - {Region(ptr, n)}
    ensures after == before && forall r <- after :: r.start != ptr
  {
  }
}
