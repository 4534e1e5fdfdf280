/**
 The kernel heap as a row of blocks, and how that row lies in memory: each block
 starts with a four-byte header (31 bits of size, one bit of state), and the
 payload of a free block is zero.
 */
module HeapBlocks {
  import opened KernelTypes

  const BLOCK_HEADER_SIZE := 4
  const MINIMAL_BLOCK_SIZE := 4

  datatype Block = Block(size: nat, used: bool)

  /** The payload of a used block. */
  datatype Region = Region(start: nat, size: nat)

  function Total(blocks: seq<Block>): nat {
    if blocks == [] then 0 else blocks[0].size + Total(blocks[1..])
  }

  /** What a block of `size` bytes has room for behind its header. */
  function Payload(size: nat): nat {
    if size >= 4 then size - 4 else 0
  }

  /** What is handed out, when the row starts at `from`. */
  function Live(blocks: seq<Block>, from: nat): set<Region>
    decreases |blocks|
  {
    if blocks == [] then {}
    else
      (if blocks[0].used then {Region(from + 4, Payload(blocks[0].size))} else {})
      + Live(blocks[1..], from + blocks[0].size)
  }

  // ---------------------------------------------------------------- in memory

  function HeaderWord(b: Block): nat {
    b.size + if b.used then 0x8000_0000 else 0
  }

  ghost predicate IsZero(m: seq<u8>, from: nat, to: nat) {
    to <= |m| && forall k :: from <= k < to ==> m[k] == 0
  }

  ghost predicate IsBlock(m: seq<u8>, at: nat, b: Block) {
    && 5 <= b.size < 0x8000_0000 && at + b.size <= |m|
    && FromLe32(m[at..at + 4]) == HeaderWord(b)
    && (!b.used ==> IsZero(m, at + 4, at + b.size))
  }

  /** The blocks fill memory from `from` to `to`. */
  ghost predicate Tiles(m: seq<u8>, from: nat, to: nat, blocks: seq<Block>)
    decreases |blocks|
  {
    if blocks == [] then from == to <= |m|
    else from + blocks[0].size <= to && IsBlock(m, from, blocks[0]) && Tiles(m, from + blocks[0].size, to, blocks[1..])
  }

  lemma {:induction false} TilesTotal(m: seq<u8>, from: nat, to: nat, blocks: seq<Block>)
    requires Tiles(m, from, to, blocks)
    ensures from + Total(blocks) == to <= |m|
    decreases |blocks|
  {
    if blocks != [] {
      TilesTotal(m, from + blocks[0].size, to, blocks[1..]);
    }
  }

  lemma IsBlockFrame(m: seq<u8>, m': seq<u8>, at: nat, b: Block)
    requires IsBlock(m, at, b) && |m| == |m'| && forall k :: at <= k < at + b.size ==> m[k] == m'[k]
    ensures IsBlock(m', at, b)
  {
    assert m'[at..at + 4] == m[at..at + 4];
  }

  /** What happens outside the row does not concern it. */
  lemma {:induction false} TilesFrame(m: seq<u8>, m': seq<u8>, from: nat, to: nat, blocks: seq<Block>)
    requires Tiles(m, from, to, blocks) && to <= |m| == |m'| && forall k :: from <= k < to ==> m[k] == m'[k]
    ensures Tiles(m', from, to, blocks)
    decreases |blocks|
  {
    hide IsBlock;
    if blocks != [] {
      IsBlockFrame(m, m', from, blocks[0]);
      TilesFrame(m, m', from + blocks[0].size, to, blocks[1..]);
    }
  }

  lemma {:induction false} TilesJoin(m: seq<u8>, from: nat, mid: nat, to: nat, a: seq<Block>, b: seq<Block>)
    requires Tiles(m, from, mid, a) && Tiles(m, mid, to, b)
    ensures Tiles(m, from, to, a + b)
    decreases |a|
  {
    hide IsBlock;
    TilesTotal(m, mid, to, b);
    if a == [] {
      assert a + b == b;
    } else {
      assert (a + b)[0] == a[0] && (a + b)[1..] == a[1..] + b;
      TilesTotal(m, from, mid, a);
      TilesTotal(m, from + a[0].size, mid, a[1..]);
      TilesJoin(m, from + a[0].size, mid, to, a[1..], b);
    }
  }

  lemma {:induction false} TilesSplit(m: seq<u8>, from: nat, to: nat, blocks: seq<Block>, i: nat)
    requires Tiles(m, from, to, blocks) && i <= |blocks|
    ensures var mid := from + Total(blocks[..i]);
            Tiles(m, from, mid, blocks[..i]) && Tiles(m, mid, to, blocks[i..])
    decreases i
  {
    hide IsBlock;
    if i == 0 {
      assert blocks[0..] == blocks;
      TilesTotal(m, from, to, blocks);
    } else {
      TilesSplit(m, from + blocks[0].size, to, blocks[1..], i - 1);
      assert blocks[..i][0] == blocks[0] && blocks[..i][1..] == blocks[1..][..i - 1];
      assert blocks[1..][i - 1..] == blocks[i..];
      TilesTotal(m, from + blocks[0].size, from + Total(blocks[..i]), blocks[..i][1..]);
    }
  }

  // ---------------------------------------------------------------- what is handed out

  lemma {:induction false} TotalConcat(a: seq<Block>, b: seq<Block>)
    ensures Total(a + b) == Total(a) + Total(b)
    decreases |a|
  {
    if a == [] {
      assert a + b == b;
    } else {
      assert (a + b)[1..] == a[1..] + b;
      TotalConcat(a[1..], b);
    }
  }

  lemma {:induction false} LiveConcat(a: seq<Block>, b: seq<Block>, from: nat)
    ensures Live(a + b, from) == Live(a, from) + Live(b, from + Total(a))
    decreases |a|
  {
    if a == [] {
      assert a + b == b;
    } else {
      assert (a + b)[0] == a[0] && (a + b)[1..] == a[1..] + b;
      LiveConcat(a[1..], b, from + a[0].size);
    }
  }

  /** Region r lies behind the header of block i, which is used. */
  predicate IsPayload(blocks: seq<Block>, from: nat, i: nat, r: Region)
    requires i < |blocks|
  {
    && blocks[i].used && r.start == from + Total(blocks[..i]) + 4
    && r.size == if blocks[i].size >= 4 then blocks[i].size - 4 else 0
  }

  lemma {:induction false} LiveAt(blocks: seq<Block>, from: nat, r: Region) returns (i: nat)
    requires r in Live(blocks, from)
    ensures i < |blocks| && IsPayload(blocks, from, i, r)
    decreases |blocks|
  {
    if blocks[0].used && r == Region(from + 4, Payload(blocks[0].size)) {
      i := 0;
    } else {
      var k := LiveAt(blocks[1..], from + blocks[0].size, r);
      i := k + 1;
      assert blocks[..i][1..] == blocks[1..][..k];
    }
  }

  lemma {:induction false} PayloadIsLive(blocks: seq<Block>, from: nat, i: nat, r: Region)
    requires i < |blocks| && IsPayload(blocks, from, i, r)
    ensures r in Live(blocks, from)
    decreases i
  {
    if i > 0 {
      assert blocks[..i][1..] == blocks[1..][..i - 1];
      PayloadIsLive(blocks[1..], from + blocks[0].size, i - 1, r);
    }
  }

  /** Handed out is exactly what lies behind the headers of used blocks. */
  lemma LiveIff(blocks: seq<Block>, from: nat, r: Region)
    ensures r in Live(blocks, from)
       <==> exists i :: 0 <= i < |blocks| && blocks[i].used && r.start == from + Total(blocks[..i]) + 4
                        && r.size == if blocks[i].size >= 4 then blocks[i].size - 4 else 0
  {
    hide Live;
    if r in Live(blocks, from) {
      var i := LiveAt(blocks, from, r);
    }
    if i :| 0 <= i < |blocks| && blocks[i].used && r.start == from + Total(blocks[..i]) + 4
            && r.size == if blocks[i].size >= 4 then blocks[i].size - 4 else 0 {
      PayloadIsLive(blocks, from, i, r);
    }
  }

  ghost predicate Sound(blocks: seq<Block>) {
    forall b <- blocks :: b.size >= 5
  }

  lemma {:induction false} TilesSound(m: seq<u8>, from: nat, to: nat, blocks: seq<Block>)
    requires Tiles(m, from, to, blocks)
    ensures Sound(blocks)
    decreases |blocks|
  {
    if blocks != [] {
      TilesSound(m, from + blocks[0].size, to, blocks[1..]);
      assert forall b <- blocks :: b == blocks[0] || b in blocks[1..];
    }
  }

  /** Everything handed out lies inside the row, behind a header. */
  lemma {:induction false} LiveWithin(blocks: seq<Block>, from: nat)
    requires Sound(blocks)
    ensures forall r <- Live(blocks, from) ::
              from + 4 <= r.start && r.start + r.size <= from + Total(blocks) && r.size > 0
    decreases |blocks|
  {
    if blocks != [] {
      assert blocks[0] in blocks && forall b <- blocks[1..] :: b in blocks;
      LiveWithin(blocks[1..], from + blocks[0].size);
    }
  }

  /** Two regions do not share a byte. */
  predicate Apart(r: Region, s: Region) {
    r.start + r.size <= s.start || s.start + s.size <= r.start
  }

  /** Nothing is handed out twice. */
  lemma {:induction false} LiveDisjoint(blocks: seq<Block>, from: nat)
    requires Sound(blocks)
    ensures forall r, s | r in Live(blocks, from) && s in Live(blocks, from) && r != s :: Apart(r, s)
    decreases |blocks|
  {
    if blocks != [] {
      assert blocks[0] in blocks && forall b <- blocks[1..] :: b in blocks;
      LiveDisjoint(blocks[1..], from + blocks[0].size);
      LiveWithin(blocks[1..], from + blocks[0].size);
    }
  }

  /** Who stores into memory that was handed out disturbs no header and no free block. */
  lemma {:induction false} StoreKeepsTiles(m: seq<u8>, from: nat, to: nat, blocks: seq<Block>, r: Region, k: nat, v: u8)
    requires Tiles(m, from, to, blocks) && r in Live(blocks, from) && r.start <= k < r.start + r.size && k < |m|
    ensures Tiles(m[k := v], from, to, blocks)
    decreases |blocks|
  {
    hide IsBlock;
    var b, next := blocks[0], from + blocks[0].size;
    TilesSound(m, from, to, blocks);
    TilesTotal(m, next, to, blocks[1..]);
    assert b in blocks && forall c <- blocks[1..] :: c in blocks;
    LiveWithin(blocks[1..], next);
    if b.used && r == Region(from + 4, Payload(b.size)) {
      PayloadStore(m, from, b, k, v);
      TilesFrame(m, m[k := v], next, to, blocks[1..]);
    } else {
      IsBlockFrame(m, m[k := v], from, b);
      StoreKeepsTiles(m, next, to, blocks[1..], r, k, v);
    }
  }

  lemma PayloadStore(m: seq<u8>, at: nat, b: Block, k: nat, v: u8)
    requires IsBlock(m, at, b) && b.used && at + 4 <= k < at + b.size
    ensures IsBlock(m[k := v], at, b)
  {
    assert m[k := v][at..at + 4] == m[at..at + 4];
  }

  // ---------------------------------------------------------------- first fit

  predicate Fits(b: Block, size: nat) {
    !b.used && size <= b.size
  }

  /** A free block that is taken; what is left of it stays a block if it can hold four bytes. */
  function Take(b: Block, size: nat): seq<Block>
    requires Fits(b, size)
  {
    if b.size - size >= BLOCK_HEADER_SIZE + MINIMAL_BLOCK_SIZE
    then [Block(size, true), Block(b.size - size, false)]
    else [Block(b.size, true)]
  }

  predicate HasFit(blocks: seq<Block>, size: nat) {
    exists b <- blocks :: Fits(b, size)
  }

  /** The first block that fits is taken. */
  function Alloc(blocks: seq<Block>, size: nat): seq<Block>
    requires HasFit(blocks, size)
  {
    if Fits(blocks[0], size) then Take(blocks[0], size) + blocks[1..] else [blocks[0]] + Alloc(blocks[1..], size)
  }

  /** How far behind the start of the row the block that is taken begins. */
  function FitOffset(blocks: seq<Block>, size: nat): nat
    requires HasFit(blocks, size)
  {
    if Fits(blocks[0], size) then 0 else blocks[0].size + FitOffset(blocks[1..], size)
  }

  /** How many bytes the block that is taken has. */
  function FitSize(blocks: seq<Block>, size: nat): nat
    requires HasFit(blocks, size)
  {
    if Fits(blocks[0], size) then Take(blocks[0], size)[0].size else FitSize(blocks[1..], size)
  }

  lemma {:induction false} AllocSkips(pre: seq<Block>, post: seq<Block>, size: nat)
    requires HasFit(post, size) && !HasFit(pre, size)
    ensures HasFit(pre + post, size)
    ensures Alloc(pre + post, size) == pre + Alloc(post, size)
    ensures FitOffset(pre + post, size) == Total(pre) + FitOffset(post, size)
    ensures FitSize(pre + post, size) == FitSize(post, size)
    decreases |pre|
  {
    hide Take;
    var b :| b in post && Fits(b, size);
    assert b in pre + post;
    if pre == [] {
      assert pre + post == post;
    } else {
      assert (pre + post)[0] == pre[0] && (pre + post)[1..] == pre[1..] + post;
      assert pre[0] in pre && forall b <- pre[1..] :: b in pre;
      AllocSkips(pre[1..], post, size);
    }
  }

  /**
   Taking a block keeps the row's length and hands out exactly one more region: the
   one behind the taken header, at least as long as asked for and at most seven bytes longer.
   */
  lemma {:induction false} AllocLive(blocks: seq<Block>, size: nat, from: nat)
    requires HasFit(blocks, size) && size >= 5
    ensures Total(Alloc(blocks, size)) == Total(blocks)
    ensures Live(Alloc(blocks, size), from)
         == Live(blocks, from) + {Region(from + FitOffset(blocks, size) + 4, Payload(FitSize(blocks, size)))}
    ensures size <= FitSize(blocks, size) < size + 8
    decreases |blocks|
  {
    var next := from + blocks[0].size;
    if Fits(blocks[0], size) {
      var taken := Take(blocks[0], size);
      TotalConcat(taken, blocks[1..]);
      LiveConcat(taken, blocks[1..], from);
      assert Total(taken[1..]) == blocks[0].size - taken[0].size;
      assert Live(taken[1..], from + taken[0].size) == {};
    } else {
      AllocLive(blocks[1..], size, next);
      var rest := Alloc(blocks[1..], size);
      assert Alloc(blocks, size)[1..] == rest;
    }
  }

  // ---------------------------------------------------------------- growing

  /** Pages that `_kmalloc` asks `ksbrk` for: always one more than needed when a page is exceeded. */
  function Pages(size: nat): nat {
    if size > 4092 then size / 4092 + 1 else 1
  }

  lemma PagesSuffice(size: nat)
    ensures 4096 * Pages(size) >= size
  {
  }

  function Grow(blocks: seq<Block>, pages: nat): seq<Block> {
    blocks + [Block(4096 * pages, false)]
  }

  lemma GrowLive(blocks: seq<Block>, pages: nat, from: nat)
    ensures Live(Grow(blocks, pages), from) == Live(blocks, from)
    ensures Total(Grow(blocks, pages)) == Total(blocks) + 4096 * pages
  {
    LiveConcat(blocks, [Block(4096 * pages, false)], from);
    TotalConcat(blocks, [Block(4096 * pages, false)]);
  }

  // ---------------------------------------------------------------- freeing

  lemma {:induction false} FreeLive(blocks: seq<Block>, i: nat, from: nat)
    requires i < |blocks| && blocks[i].used && Sound(blocks)
    ensures var region := Region(from + Total(blocks[..i]) + 4, Payload(blocks[i].size));
            && region in Live(blocks, from)
            && Live(blocks[i := Block(blocks[i].size, false)], from) == Live(blocks, from) - {region}
            && Total(blocks[i := Block(blocks[i].size, false)]) == Total(blocks)
    decreases i
  {
    hide Live, Total;
    var b, rest, next := blocks[0], blocks[1..], from + blocks[0].size;
    assert b in blocks && forall c <- rest :: c in blocks;
    assert blocks == [b] + rest;
    LiveWithin(rest, next);
    LiveCons(b, rest, from);
    if i > 0 {
      var f := Block(blocks[i].size, false);
      FreeLive(rest, i - 1, next);
      assert blocks[i := f] == [b] + rest[i - 1 := f];
      LiveCons(b, rest[i - 1 := f], from);
      assert blocks[..i] == [b] + rest[..i - 1];
      LiveCons(b, rest[..i - 1], from);
    } else {
      assert blocks[i := Block(b.size, false)] == [Block(b.size, false)] + rest;
      LiveCons(Block(b.size, false), rest, from);
      TotalNone(blocks[..0]);
    }
  }

  lemma LiveCons(b: Block, rest: seq<Block>, from: nat)
    ensures Live([b] + rest, from)
         == (if b.used then {Region(from + 4, Payload(b.size))} else {}) + Live(rest, from + b.size)
    ensures Total([b] + rest) == b.size + Total(rest)
  {
    assert ([b] + rest)[1..] == rest;
  }

  lemma TotalNone(blocks: seq<Block>)
    requires blocks == []
    ensures Total(blocks) == 0
  {
  }

  /** One pass of `_kdefrag`: each free block swallows a free successor, and the walk goes on behind both. */
  function Coalesce(blocks: seq<Block>): seq<Block>
    decreases |blocks|
  {
    if |blocks| < 2 then blocks
    else if !blocks[0].used && !blocks[1].used
    then [Block(blocks[0].size + blocks[1].size, false)] + Coalesce(blocks[2..])
    else [blocks[0]] + Coalesce(blocks[1..])
  }

  lemma CoalesceStep(rest: seq<Block>)
    requires rest != []
    ensures if |rest| >= 2 && !rest[0].used && !rest[1].used
            then Coalesce(rest) == [Block(rest[0].size + rest[1].size, false)] + Coalesce(rest[2..])
            else Coalesce(rest) == [rest[0]] + Coalesce(rest[1..])
  {
  }

  /** A pass moves nothing that is handed out and loses no byte. */
  lemma {:induction false} CoalesceLive(blocks: seq<Block>, from: nat)
    ensures Live(Coalesce(blocks), from) == Live(blocks, from) && Total(Coalesce(blocks)) == Total(blocks)
    decreases |blocks|
  {
    if |blocks| >= 2 {
      if !blocks[0].used && !blocks[1].used {
        CoalesceLive(blocks[2..], from + blocks[0].size + blocks[1].size);
        assert blocks[1..][1..] == blocks[2..];
      } else {
        CoalesceLive(blocks[1..], from + blocks[0].size);
      }
    }
  }

  /** Somewhere two free blocks lie next to each other. */
  predicate TwoFree(blocks: seq<Block>) {
    |blocks| >= 2 && ((!blocks[0].used && !blocks[1].used) || TwoFree(blocks[1..]))
  }

  /** Somewhere three free blocks lie next to each other. */
  predicate ThreeFree(blocks: seq<Block>) {
    |blocks| >= 3 && ((!blocks[0].used && !blocks[1].used && !blocks[2].used) || ThreeFree(blocks[1..]))
  }

  lemma CoalesceHead(blocks: seq<Block>)
    ensures blocks != [] ==> Coalesce(blocks) != [] && Coalesce(blocks)[0].used == blocks[0].used
    ensures blocks == [] ==> Coalesce(blocks) == []
  {
  }

  /** A pass leaves neighbouring free blocks behind exactly when it met three in a row. */
  lemma {:induction false} CoalesceIncomplete(blocks: seq<Block>)
    ensures TwoFree(Coalesce(blocks)) <==> ThreeFree(blocks)
    decreases |blocks|
  {
    if |blocks| >= 2 {
      if !blocks[0].used && !blocks[1].used {
        var rest := blocks[2..];
        CoalesceHead(rest);
        CoalesceIncomplete(rest);
        assert Coalesce(blocks)[1..] == Coalesce(rest);
        assert blocks[1..][1..] == rest;
        assert ThreeFree(blocks) <==> (rest != [] && !rest[0].used) || ThreeFree(rest);
      } else {
        var rest := blocks[1..];
        CoalesceHead(rest);
        CoalesceIncomplete(rest);
        assert Coalesce(blocks)[1..] == Coalesce(rest);
      }
    }
  }

  // ---------------------------------------------------------------- pointers

  /** `ptr` is the payload of a used block. */
  predicate Held(blocks: seq<Block>, from: nat, ptr: nat)
    decreases |blocks|
  {
    && blocks != []
    && ((blocks[0].used && ptr == from + 4) || Held(blocks[1..], from + blocks[0].size, ptr))
  }

  /**
   The four bytes in front of `ptr` are the header of a free block, or lie behind the
   header of one, whatever the blocks that are handed out hold.
   */
  predicate Freed(blocks: seq<Block>, from: nat, ptr: nat)
    decreases |blocks|
  {
    blocks != [] && (InFree(blocks[0], from, ptr) || Freed(blocks[1..], from + blocks[0].size, ptr))
  }

  predicate InFree(b: Block, from: nat, ptr: nat) {
    !b.used && (ptr == from + 4 || from + 8 <= ptr <= from + b.size)
  }

  lemma FreedCons(b: Block, rest: seq<Block>, from: nat, ptr: nat)
    ensures Freed([b] + rest, from, ptr) <==> InFree(b, from, ptr) || Freed(rest, from + b.size, ptr)
  {
    assert ([b] + rest)[1..] == rest;
  }

  lemma {:induction false} HeldIffLive(blocks: seq<Block>, from: nat, ptr: nat)
    ensures Held(blocks, from, ptr) <==> exists r :: r in Live(blocks, from) && r.start == ptr
    decreases |blocks|
  {
    if blocks != [] {
      HeldIffLive(blocks[1..], from + blocks[0].size, ptr);
      if blocks[0].used {
        assert Region(from + 4, Payload(blocks[0].size)) in Live(blocks, from);
      }
      if Held(blocks[1..], from + blocks[0].size, ptr) {
        var r :| r in Live(blocks[1..], from + blocks[0].size) && r.start == ptr;
        assert r in Live(blocks, from);
      }
    }
  }

  /** Held are exactly the addresses behind the headers of used blocks. */
  lemma HeldIff(blocks: seq<Block>, from: nat, ptr: nat)
    requires Sound(blocks)
    ensures Held(blocks, from, ptr)
       <==> exists i :: 0 <= i < |blocks| && blocks[i].used && ptr == from + Total(blocks[..i]) + 4
  {
    if Held(blocks, from, ptr) {
      var i := HeldAt(blocks, from, ptr);
    }
    if i :| 0 <= i < |blocks| && blocks[i].used && ptr == from + Total(blocks[..i]) + 4 {
      FreeingAt(blocks, from, i);
    }
  }

  lemma {:induction false} HeldAt(blocks: seq<Block>, from: nat, ptr: nat) returns (i: nat)
    requires Held(blocks, from, ptr)
    ensures i < |blocks| && blocks[i].used && ptr == from + Total(blocks[..i]) + 4
    decreases |blocks|
  {
    if blocks[0].used && ptr == from + 4 {
      i := 0;
    } else {
      var j := HeldAt(blocks[1..], from + blocks[0].size, ptr);
      i := j + 1;
      assert blocks[..i][1..] == blocks[1..][..j];
    }
  }

  /** The row once the block behind `ptr` is free. */
  function Freeing(blocks: seq<Block>, from: nat, ptr: nat): seq<Block>
    requires Held(blocks, from, ptr)
    decreases |blocks|
  {
    if blocks[0].used && ptr == from + 4 then [Block(blocks[0].size, false)] + blocks[1..]
    else [blocks[0]] + Freeing(blocks[1..], from + blocks[0].size, ptr)
  }

  lemma {:induction false} FreeingAt(blocks: seq<Block>, from: nat, i: nat)
    requires i < |blocks| && blocks[i].used && Sound(blocks)
    ensures Held(blocks, from, from + Total(blocks[..i]) + 4)
    ensures Freeing(blocks, from, from + Total(blocks[..i]) + 4) == blocks[i := Block(blocks[i].size, false)]
    decreases i
  {
    assert blocks[0] in blocks;
    if i > 0 {
      assert forall b <- blocks[1..] :: b in blocks;
      FreeingAt(blocks[1..], from + blocks[0].size, i - 1);
      assert blocks[..i][1..] == blocks[1..][..i - 1];
    }
  }

  /** The pointers that releasing the block at `ptr` frees: its own, and those behind its first four payload bytes. */
  predicate Zone(blocks: seq<Block>, from: nat, ptr: nat, p: nat)
    requires Held(blocks, from, ptr)
    decreases |blocks|
  {
    if blocks[0].used && ptr == from + 4 then p == ptr || ptr + 4 <= p <= from + blocks[0].size
    else Zone(blocks[1..], from + blocks[0].size, ptr, p)
  }

  /** Releasing a block frees exactly the pointers in its zone, and the released block's region is among them. */
  lemma {:induction false} FreeingFreed(blocks: seq<Block>, from: nat, ptr: nat, p: nat)
    requires Held(blocks, from, ptr) && Sound(blocks)
    ensures Freed(Freeing(blocks, from, ptr), from, p) <==> Freed(blocks, from, p) || Zone(blocks, from, ptr, p)
    ensures Sound(Freeing(blocks, from, ptr)) && Zone(blocks, from, ptr, ptr)
    decreases |blocks|
  {
    var next := from + blocks[0].size;
    assert blocks[0] in blocks && forall b <- blocks[1..] :: b in blocks;
    if blocks[0].used && ptr == from + 4 {
      assert Freeing(blocks, from, ptr)[1..] == blocks[1..];
    } else {
      FreeingFreed(blocks[1..], next, ptr, p);
      assert Freeing(blocks, from, ptr)[1..] == Freeing(blocks[1..], next, ptr);
    }
  }

  /** The pointers that joining two free blocks frees: what is in front of them overlaps the second header no more. */
  predicate AtSeam(a: nat, b: nat, from: nat, p: nat) {
    from + 8 <= p && from + a < p < from + a + 8 && p <= from + a + b
  }

  lemma JoinFreed(a: Block, b: Block, rest: seq<Block>, from: nat, p: nat)
    requires !a.used && !b.used && a.size >= 5 && b.size >= 5
    ensures Freed([Block(a.size + b.size, false)] + rest, from, p)
       <==> Freed([a, b] + rest, from, p) || AtSeam(a.size, b.size, from, p)
  {
    hide Freed;
    assert [a, b] + rest == [a] + ([b] + rest);
    FreedCons(a, [b] + rest, from, p);
    FreedCons(b, rest, from + a.size, p);
    FreedCons(Block(a.size + b.size, false), rest, from, p);
  }

  /** A pass joins two blocks at one of whose seams `p` is. */
  predicate Seam(blocks: seq<Block>, from: nat, p: nat)
    decreases |blocks|
  {
    if |blocks| < 2 then false
    else if !blocks[0].used && !blocks[1].used then
      || AtSeam(blocks[0].size, blocks[1].size, from, p)
      || Seam(blocks[2..], from + blocks[0].size + blocks[1].size, p)
    else Seam(blocks[1..], from + blocks[0].size, p)
  }

  lemma CoalesceShort(blocks: seq<Block>)
    ensures |blocks| < 2 ==> Coalesce(blocks) == blocks
  {
  }

  /** A pass frees exactly the pointers at its seams. */
  lemma {:induction false} CoalesceFreed(blocks: seq<Block>, from: nat, p: nat)
    requires Sound(blocks)
    ensures Freed(Coalesce(blocks), from, p) <==> Freed(blocks, from, p) || Seam(blocks, from, p)
    decreases |blocks|
  {
    hide AtSeam, Freed, InFree, Coalesce;
    CoalesceShort(blocks);
    if |blocks| >= 2 {
      var a, b, tail, rest := blocks[0], blocks[1], blocks[1..], blocks[2..];
      assert a in blocks && b in blocks && (forall c <- tail :: c in blocks) && forall c <- rest :: c in blocks;
      CoalesceStep(blocks);
      if !a.used && !b.used {
        assert blocks == [a, b] + rest;
        JoinFreed(a, b, rest, from, p);
        CoalesceFreed(rest, from + a.size + b.size, p);
        FreedCons(Block(a.size + b.size, false), rest, from, p);
        FreedCons(Block(a.size + b.size, false), Coalesce(rest), from, p);
      } else {
        assert blocks == [a] + tail;
        CoalesceFreed(tail, from + a.size, p);
        FreedCons(a, tail, from, p);
        FreedCons(a, Coalesce(tail), from, p);
      }
    }
  }

  /** The pointers that releasing `ptr`, with the pass over the heap that follows, frees. */
  predicate Frees(blocks: seq<Block>, from: nat, ptr: nat, p: nat)
    requires Held(blocks, from, ptr)
  {
    Zone(blocks, from, ptr, p) || Seam(Freeing(blocks, from, ptr), from, p)
  }

  /** A release frees exactly those, its own pointer among them, and keeps the row's length. */
  lemma ReleaseFreed(blocks: seq<Block>, from: nat, ptr: nat, p: nat)
    requires Held(blocks, from, ptr) && Sound(blocks)
    ensures var after := Coalesce(Freeing(blocks, from, ptr));
            && (Freed(after, from, p) <==> Freed(blocks, from, p) || Frees(blocks, from, ptr, p))
            && Frees(blocks, from, ptr, ptr) && Sound(after) && Total(after) == Total(blocks)
  {
    var freed := Freeing(blocks, from, ptr);
    FreeingFreed(blocks, from, ptr, p);
    CoalesceFreed(freed, from, p);
    CoalesceSound(freed);
    CoalesceLive(freed, from);
    var i := HeldAt(blocks, from, ptr);
    FreeingAt(blocks, from, i);
    FreeLive(blocks, i, from);
  }

  lemma {:induction false} FreedWithin(blocks: seq<Block>, from: nat, ptr: nat)
    requires Freed(blocks, from, ptr) && Sound(blocks)
    ensures from + 4 <= ptr <= from + Total(blocks)
    decreases |blocks|
  {
    assert blocks[0] in blocks && forall c <- blocks[1..] :: c in blocks;
    if Freed(blocks[1..], from + blocks[0].size, ptr) {
      FreedWithin(blocks[1..], from + blocks[0].size, ptr);
    }
  }

  /**
   Handing out `given` stores something in the four bytes in front of `ptr`, or lets the
   caller do so: they overlap the block's own header, its payload or the header behind it.
   The one exception points behind that header, which says free if it did before.
   */
  predicate Overwrites(given: Region, ptr: nat) {
    given.start <= ptr < given.start + given.size + 8 && ptr != given.start + given.size + 4
  }

  /** Where a row begins, the only freed pointer before its ninth byte is the one behind its first header. */
  lemma NotFreedAtSeam(blocks: seq<Block>, from: nat, ptr: nat)
    requires Sound(blocks)
    ensures Freed(blocks, from, ptr) ==> ptr == from + 4 || ptr >= from + 8
  {
    if Freed(blocks, from, ptr) && Freed(blocks[1..], from + blocks[0].size, ptr) {
      assert blocks[0] in blocks && forall c <- blocks[1..] :: c in blocks;
      FreedWithin(blocks[1..], from + blocks[0].size, ptr);
    }
  }

  /** The pointers that taking the first block unfrees. */
  lemma TakeFreed(b: Block, rest: seq<Block>, size: nat, from: nat, ptr: nat)
    requires Fits(b, size) && Sound(rest) && size >= 5
    ensures Freed(Take(b, size) + rest, from, ptr)
       <==> Freed([b] + rest, from, ptr) && !Overwrites(Region(from + 4, Take(b, size)[0].size - 4), ptr)
  {
    NotFreedAtSeam(rest, from + b.size, ptr);
    assert ([b] + rest)[1..] == rest;
    var taken := Take(b, size);
    if |taken| == 2 {
      assert (taken + rest)[1..] == [taken[1]] + rest && ([taken[1]] + rest)[1..] == rest;
    } else {
      assert (taken + rest)[1..] == rest;
    }
  }

  /** A request unfrees exactly the pointers it overwrites, and frees none. */
  lemma {:induction false} AllocFreed(blocks: seq<Block>, size: nat, from: nat, ptr: nat)
    requires HasFit(blocks, size) && Sound(blocks) && size >= 5
    ensures Freed(Alloc(blocks, size), from, ptr)
       <==> Freed(blocks, from, ptr)
            && !Overwrites(Region(from + FitOffset(blocks, size) + 4, Payload(FitSize(blocks, size))), ptr)
    decreases |blocks|
  {
    hide Take;
    var rest := blocks[1..];
    assert forall c <- rest :: c in blocks;
    if Fits(blocks[0], size) {
      assert blocks == [blocks[0]] + rest;
      TakeFreed(blocks[0], rest, size, from, ptr);
      TakenSize(blocks[0], size);
    } else {
      AllocFreed(rest, size, from + blocks[0].size, ptr);
      assert Alloc(blocks, size)[1..] == Alloc(rest, size);
    }
  }

  lemma TakenSize(b: Block, size: nat)
    requires Fits(b, size)
    ensures Take(b, size) != [] && Take(b, size)[0].size >= size
  {
  }

  /** The pointers that `pages` new pages behind the row free. */
  predicate InNewPages(end: nat, pages: nat, p: nat) {
    pages > 0 && (p == end + 4 || end + 8 <= p <= end + 4096 * pages)
  }

  /** Growing frees exactly those. */
  lemma {:induction false} GrowFreed(blocks: seq<Block>, pages: nat, from: nat, p: nat)
    requires pages > 0
    ensures Freed(Grow(blocks, pages), from, p)
       <==> Freed(blocks, from, p) || InNewPages(from + Total(blocks), pages, p)
    decreases |blocks|
  {
    var grown := Grow(blocks, pages);
    if blocks == [] {
      assert grown[1..] == [];
    } else {
      assert grown[0] == blocks[0] && grown[1..] == Grow(blocks[1..], pages);
      GrowFreed(blocks[1..], pages, from + blocks[0].size, p);
    }
  }

  lemma {:induction false} AllocSound(blocks: seq<Block>, size: nat)
    requires HasFit(blocks, size) && Sound(blocks) && size >= 5
    ensures Sound(Alloc(blocks, size))
    decreases |blocks|
  {
    assert blocks[0] in blocks && forall c <- blocks[1..] :: c in blocks;
    if !Fits(blocks[0], size) {
      AllocSound(blocks[1..], size);
    }
  }

  lemma {:induction false} CoalesceSound(blocks: seq<Block>)
    requires Sound(blocks)
    ensures Sound(Coalesce(blocks))
    decreases |blocks|
  {
    if |blocks| >= 2 {
      assert blocks[0] in blocks && forall c <- blocks[1..] :: c in blocks;
      if !blocks[0].used && !blocks[1].used {
        assert forall c <- blocks[2..] :: c in blocks;
        CoalesceSound(blocks[2..]);
      } else {
        CoalesceSound(blocks[1..]);
      }
    }
  }

  /** In memory, the header that `kfree` reads in front of a freed pointer says free. */
  lemma {:induction false} FreedReadsFree(m: seq<u8>, from: nat, to: nat, blocks: seq<Block>, ptr: nat)
    requires Tiles(m, from, to, blocks) && Freed(blocks, from, ptr)
    ensures 4 <= ptr <= |m| && FromLe32(m[ptr - 4..ptr]) < 0x8000_0000
    decreases |blocks|
  {
    TilesTotal(m, from, to, blocks);
    if !blocks[0].used && ptr == from + 4 {
      assert m[ptr - 4..ptr] == m[from..from + 4];
    } else if !blocks[0].used && from + 8 <= ptr <= from + blocks[0].size {
      FromLe32Zero(m[ptr - 4..ptr]);
    } else {
      FreedReadsFree(m, from + blocks[0].size, to, blocks[1..], ptr);
    }
  }
}
