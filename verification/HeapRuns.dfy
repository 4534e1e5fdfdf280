/**
 Whole runs of requests, releases and stores by those who hold memory: what stays
 handed out and what it holds, and which stale pointers are recognised.
 */
module HeapRuns {
  import opened KernelTypes
  import opened HeapBlocks
  import opened Kmalloc

  datatype Call = Malloc(size: i32) | Free(ptr: nat) | Store(at: nat, value: u8)

  /** `kmalloc` grants the request: something fits, or the heap can grow below its limit. */
  predicate Granted(row: seq<Block>, limit: nat, size: i32) {
    size > 0 && (HasFit(row, size + 4) || Total(row) + 4096 * Pages(size + 4) <= limit)
  }

  function After(row: seq<Block>, limit: nat, call: Call): seq<Block> {
    match call
    case Malloc(size) => if Granted(row, limit, size) then Alloc(Room(row, size + 4), size + 4) else row
    case Free(ptr) => if Held(row, 0, ptr) then Coalesce(Freeing(row, 0, ptr)) else row
    case Store(_, _) => row
  }

  /** The row of blocks behind a run. */
  function Run(row: seq<Block>, limit: nat, calls: seq<Call>): seq<Block>
    decreases |calls|
  {
    if calls == [] then row else Run(After(row, limit, calls[0]), limit, calls[1..])
  }

  /** The byte at `at` belongs to what is handed out. */
  predicate Lent(row: seq<Block>, at: nat) {
    exists r <- Live(row, 0) :: r.start <= at < r.start + r.size
  }

  /**
   Sizes do not overflow, nothing is released but NULL, what is held and what counts as
   freed, and nothing is stored outside what is handed out.
   */
  predicate Allowed(row: seq<Block>, call: Call) {
    match call
    case Malloc(size) => size < 0x7FFF_FFFC
    case Free(ptr) => ptr == 0 || Held(row, 0, ptr) || Freed(row, 0, ptr)
    case Store(at, _) => Lent(row, at)
  }

  /** Every byte handed out may be stored to, and every size may be asked for that leaves room for a header. */
  lemma AllowedCalls(row: seq<Block>, r: Region, at: nat, value: u8, size: i32)
    ensures r in Live(row, 0) && r.start <= at < r.start + r.size ==> Allowed(row, Store(at, value))
    ensures size + 4 < 0x8000_0000 ==> Allowed(row, Malloc(size))
  {
  }

  predicate Legal(row: seq<Block>, limit: nat, calls: seq<Call>)
    decreases |calls|
  {
    calls == [] || (Allowed(row, calls[0]) && Legal(After(row, limit, calls[0]), limit, calls[1..]))
  }

  lemma RunCons(row: seq<Block>, limit: nat, call: Call, rest: seq<Call>)
    ensures Legal(row, limit, [call] + rest) <==> Allowed(row, call) && Legal(After(row, limit, call), limit, rest)
    ensures Run(row, limit, [call] + rest) == Run(After(row, limit, call), limit, rest)
  {
    assert ([call] + rest)[1..] == rest;
  }

  lemma RunEnd(row: seq<Block>, limit: nat)
    ensures Run(row, limit, []) == row && Legal(row, limit, [])
  {
  }

  // ---------------------------------------------------------------- stale pointers

  /** What one call makes of a pointer that counts as freed (`now`) or does not. */
  predicate RecognisedAfter(row: seq<Block>, limit: nat, call: Call, p: nat, now: bool) {
    match call
    case Malloc(size) =>
      if Granted(row, limit, size)
      then (now || Opened(row, size + 4, p)) && !Overwrites(Given(row, size + 4), p)
      else now
    case Free(ptr) => now || (Held(row, 0, ptr) && Frees(row, 0, ptr, p))
    case Store(_, _) => now
  }

  /** What a run makes of it: requests overwrite, releases and new pages free. */
  predicate Recognised(row: seq<Block>, limit: nat, calls: seq<Call>, p: nat, now: bool)
    decreases |calls|
  {
    if calls == [] then now
    else Recognised(After(row, limit, calls[0]), limit, calls[1..], p, RecognisedAfter(row, limit, calls[0], p, now))
  }

  lemma FreedAfter(row: seq<Block>, limit: nat, call: Call, p: nat)
    requires Sound(row)
    ensures Sound(After(row, limit, call))
    ensures Freed(After(row, limit, call), 0, p) <==> RecognisedAfter(row, limit, call, p, Freed(row, 0, p))
  {
    hide Alloc, Room, HasFit, Freed, Total, Coalesce, Freeing, Sound, Held, Overwrites, Given, Pages, Opened, Frees;
    match call
    case Malloc(size) =>
      if Granted(row, limit, size) {
        RequestFreed(row, size + 4, p);
      }
    case Free(ptr) =>
      if Held(row, 0, ptr) {
        ReleaseFreed(row, 0, ptr, p);
      }
    case Store(_, _) =>
  }

  /** Behind any run, exactly the pointers that it recognises count as freed. */
  lemma {:induction false} FreedIffRecognised(row: seq<Block>, limit: nat, calls: seq<Call>, p: nat)
    requires Sound(row)
    ensures Freed(Run(row, limit, calls), 0, p) <==> Recognised(row, limit, calls, p, Freed(row, 0, p))
    decreases |calls|
  {
    hide After, Freed, RecognisedAfter, Sound;
    if calls != [] {
      FreedAfter(row, limit, calls[0], p);
      FreedIffRecognised(After(row, limit, calls[0]), limit, calls[1..], p);
    }
  }

  predicate OverwritesNow(row: seq<Block>, limit: nat, call: Call, p: nat) {
    call.Malloc? && Granted(row, limit, call.size) && Overwrites(Given(row, call.size + 4), p)
  }

  /** Some request of the run overwrites what lies in front of `p`. */
  predicate Overwritten(row: seq<Block>, limit: nat, calls: seq<Call>, p: nat)
    decreases |calls|
  {
    && calls != []
    && (OverwritesNow(row, limit, calls[0], p) || Overwritten(After(row, limit, calls[0]), limit, calls[1..], p))
  }

  /** Without any overwriting, what is recognised once is recognised for good. */
  lemma {:induction false} RecognisedUntilOverwritten(row: seq<Block>, limit: nat, calls: seq<Call>, p: nat)
    requires !Overwritten(row, limit, calls, p)
    ensures Recognised(row, limit, calls, p, true)
    decreases |calls|
  {
    hide After, Overwrites, Opened, Given, Granted, Frees, Held;
    if calls != [] {
      RecognisedUntilOverwritten(After(row, limit, calls[0]), limit, calls[1..], p);
    }
  }

  /** Which byte decides: a pointer that is not held is ignored exactly if the byte in front of it is below 0x80. */
  lemma ReadsFreeIff(kernel: Kernel, p: nat)
    ensures kernel.ReadsFree(p) <==> 4 <= p <= kernel.bytes.Length && kernel.bytes[p - 1] < 0x80
  {
    hide FromLe32;
    if 4 <= p <= kernel.bytes.Length {
      TopBit(kernel.bytes[p - 4..p]);
      assert kernel.bytes[p - 4..p][3] == kernel.bytes[p - 1];
    }
  }

  // ---------------------------------------------------------------- two runs of a young heap

  /** The heap as `HeapInit` leaves it. */
  const YOUNG_HEAP := [Block(4096, false)]

  /**
   A heap that is left uncoalesced: the block released lies between two free ones, and
   the pass joins it with the first of them only.
   */
  lemma FreeNeighboursRemain(limit: nat)
    requires limit >= 8192
    ensures var calls := [Malloc(4000), Malloc(200), Free(4100)];
            && Legal(YOUNG_HEAP, limit, calls)
            && Run(YOUNG_HEAP, limit, calls) == [Block(4004, true), Block(296, false), Block(3892, false)]
            && TwoFree(Run(YOUNG_HEAP, limit, calls))
  {
    hide After, Run, Legal;
    var one := [Block(4004, true), Block(92, false)];
    var two := [Block(4004, true), Block(92, false), Block(204, true), Block(3892, false)];
    var end := [Block(4004, true), Block(296, false), Block(3892, false)];
    FirstRequest(limit);
    SecondRequest(limit);
    ReleaseBetween(limit);
    RunCons(YOUNG_HEAP, limit, Malloc(4000), [Malloc(200), Free(4100)]);
    RunCons(one, limit, Malloc(200), [Free(4100)]);
    RunCons(two, limit, Free(4100), []);
    RunEnd(end, limit);
    assert [Malloc(4000), Malloc(200), Free(4100)] == [Malloc(4000)] + [Malloc(200), Free(4100)];
    assert [Malloc(200), Free(4100)] == [Malloc(200)] + [Free(4100)];
    assert [Free(4100)] == [Free(4100)] + [];
    assert end[1..] == [Block(296, false), Block(3892, false)];
  }

  lemma FirstRequest(limit: nat)
    ensures After(YOUNG_HEAP, limit, Malloc(4000)) == [Block(4004, true), Block(92, false)]
  {
    assert YOUNG_HEAP[0] in YOUNG_HEAP && Fits(YOUNG_HEAP[0], 4004);
  }

  lemma SecondRequest(limit: nat)
    requires limit >= 8192
    ensures After([Block(4004, true), Block(92, false)], limit, Malloc(200))
         == [Block(4004, true), Block(92, false), Block(204, true), Block(3892, false)]
  {
    var row := [Block(4004, true), Block(92, false)];
    var room := row + [Block(4096, false)];
    assert !HasFit(row, 204) && Room(row, 204) == room;
    assert row[1..] == [Block(92, false)] && Total(row) == 4096;
    assert room[1..] == [Block(92, false), Block(4096, false)] && room[1..][1..] == [Block(4096, false)];
    assert Fits(Block(4096, false), 204);
    assert Alloc([Block(4096, false)], 204) == [Block(204, true), Block(3892, false)];
    assert Alloc(room[1..], 204) == [Block(92, false), Block(204, true), Block(3892, false)];
  }

  lemma ReleaseBetween(limit: nat)
    ensures var row := [Block(4004, true), Block(92, false), Block(204, true), Block(3892, false)];
            && Held(row, 0, 4100)
            && After(row, limit, Free(4100)) == [Block(4004, true), Block(296, false), Block(3892, false)]
  {
    var row := [Block(4004, true), Block(92, false), Block(204, true), Block(3892, false)];
    var tail := [Block(92, false), Block(204, true), Block(3892, false)];
    assert row[1..] == tail && tail[1..] == [Block(204, true), Block(3892, false)];
    assert Freeing(tail[1..], 4096, 4100) == [Block(204, false), Block(3892, false)];
    var freed := [Block(4004, true), Block(92, false), Block(204, false), Block(3892, false)];
    assert Freeing(row, 0, 4100) == freed;
    assert freed[1..] == [Block(92, false), Block(204, false), Block(3892, false)];
    assert freed[1..][2..] == [Block(3892, false)];
    assert Coalesce(freed[1..]) == [Block(296, false), Block(3892, false)];
  }

  /**
   Overwriting need not mean that the memory was handed out again.  Blocks of 104 and
   204 bytes are released and joined; then a request for 103 bytes leaves a remainder of
   201 bytes, and the low byte of its size lies right in front of the second pointer,
   where `kfree` now reads the header of a used block.
   */
  lemma StaleHeaderReadsUsed(limit: nat, m: seq<u8>)
    ensures var setup := [Malloc(100), Malloc(200), Free(4), Free(108)];
            var end := Run(YOUNG_HEAP, limit, setup + [Malloc(103)]);
            && Legal(YOUNG_HEAP, limit, setup + [Malloc(103)])
            && Run(YOUNG_HEAP, limit, setup) == [Block(308, false), Block(3788, false)]
            && Freed(Run(YOUNG_HEAP, limit, setup), 0, 108)
            && end == [Block(107, true), Block(201, false), Block(3788, false)] && Live(end, 0) == {Region(4, 103)}
            && !Held(end, 0, 108) && !Freed(end, 0, 108)
            && (Tiles(m, 0, 4096, end) ==> |m| >= 4096 && FromLe32(m[104..108]) >= 0x8000_0000)
  {
    hide After, Run, Legal, Tiles, FromLe32, Freed, Held, Live;
    var both := [Block(104, true), Block(204, true), Block(3788, false)];
    var one := [Block(104, false), Block(204, true), Block(3788, false)];
    var joined := [Block(308, false), Block(3788, false)];
    var end := [Block(107, true), Block(201, false), Block(3788, false)];
    TwoRequests(limit);
    TwoReleases(limit);
    RequestAfterwards(limit);
    var last: seq<Call> := [Malloc(103)];
    forall tail: seq<Call> | tail == [] || tail == last
      ensures var calls := [Malloc(100), Malloc(200), Free(4), Free(108)] + tail;
              && Run(YOUNG_HEAP, limit, calls) == Run(joined, limit, tail)
              && (Legal(YOUNG_HEAP, limit, calls) <==> Legal(joined, limit, tail))
    {
      RunCons(YOUNG_HEAP, limit, Malloc(100), [Malloc(200), Free(4), Free(108)] + tail);
      RunCons([Block(104, true), Block(3992, false)], limit, Malloc(200), [Free(4), Free(108)] + tail);
      RunCons(both, limit, Free(4), [Free(108)] + tail);
      RunCons(one, limit, Free(108), tail);
      assert [Malloc(100), Malloc(200), Free(4), Free(108)] + tail
          == [Malloc(100)] + ([Malloc(200), Free(4), Free(108)] + tail);
      assert [Malloc(200), Free(4), Free(108)] + tail == [Malloc(200)] + ([Free(4), Free(108)] + tail);
      assert [Free(4), Free(108)] + tail == [Free(4)] + ([Free(108)] + tail);
    }
    var setup: seq<Call> := [Malloc(100), Malloc(200), Free(4), Free(108)];
    assert setup + [] == setup && last == last + [];
    RunCons(joined, limit, Malloc(103), []);
    RunEnd(joined, limit);
    RunEnd(end, limit);
    if Tiles(m, 0, 4096, end) {
      StaleByte(m, end);
    }
  }

  /** A block that is released and fits exactly is taken again. */
  lemma ExactFitIsReused(limit: nat)
    ensures var calls := [Malloc(100), Malloc(200), Free(4), Malloc(100)];
            && Legal(YOUNG_HEAP, limit, calls)
            && Run(YOUNG_HEAP, limit, calls) == [Block(104, true), Block(204, true), Block(3788, false)]
            && Region(4, 100) in Live(Run(YOUNG_HEAP, limit, calls), 0)
  {
    hide After, Run, Legal, Live;
    var both := [Block(104, true), Block(204, true), Block(3788, false)];
    var one := [Block(104, false), Block(204, true), Block(3788, false)];
    TwoRequests(limit);
    TwoReleases(limit);
    FirstFit(one, 0, 104);
    assert one[..0] + [Block(104, true)] + one[1..] == both;
    AfterRequest(one, limit, 100);
    RunCons(YOUNG_HEAP, limit, Malloc(100), [Malloc(200), Free(4), Malloc(100)]);
    RunCons([Block(104, true), Block(3992, false)], limit, Malloc(200), [Free(4), Malloc(100)]);
    RunCons(both, limit, Free(4), [Malloc(100)]);
    RunCons(one, limit, Malloc(100), []);
    RunEnd(both, limit);
    assert [Malloc(100), Malloc(200), Free(4), Malloc(100)] == [Malloc(100)] + [Malloc(200), Free(4), Malloc(100)];
    assert [Malloc(200), Free(4), Malloc(100)] == [Malloc(200)] + [Free(4), Malloc(100)];
    assert [Free(4), Malloc(100)] == [Free(4)] + [Malloc(100)];
    assert [Malloc(100)] == [Malloc(100)] + [];
    LiveIff(both, 0, Region(4, 100));
    TotalNone(both[..0]);
    assert both[0].used;
  }

  lemma AfterRequest(row: seq<Block>, limit: nat, size: i32)
    requires size > 0 && HasFit(row, size + 4)
    ensures After(row, limit, Malloc(size)) == Alloc(Room(row, size + 4), size + 4)
  {
  }

  lemma TwoRequests(limit: nat)
    ensures var one := [Block(104, true), Block(3992, false)];
            && After(YOUNG_HEAP, limit, Malloc(100)) == one
            && After(one, limit, Malloc(200)) == [Block(104, true), Block(204, true), Block(3788, false)]
  {
    var one := [Block(104, true), Block(3992, false)];
    assert YOUNG_HEAP[0] in YOUNG_HEAP && Fits(YOUNG_HEAP[0], 104);
    assert one[1] in one && Fits(one[1], 204) && one[1..] == [Block(3992, false)];
    assert Alloc([Block(3992, false)], 204) == [Block(204, true), Block(3788, false)];
  }

  lemma TwoReleases(limit: nat)
    ensures var both := [Block(104, true), Block(204, true), Block(3788, false)];
            var one := [Block(104, false), Block(204, true), Block(3788, false)];
            && Held(both, 0, 4) && After(both, limit, Free(4)) == one
            && Held(one, 0, 108) && After(one, limit, Free(108)) == [Block(308, false), Block(3788, false)]
  {
    var both := [Block(104, true), Block(204, true), Block(3788, false)];
    var one := [Block(104, false), Block(204, true), Block(3788, false)];
    var tail := [Block(204, true), Block(3788, false)];
    assert both[1..] == tail == one[1..] && tail[1..] == [Block(3788, false)];
    assert Freeing(both, 0, 4) == one && Coalesce(tail) == tail && Coalesce(one) == one;
    var none := [Block(104, false), Block(204, false), Block(3788, false)];
    assert Freeing(tail, 104, 108) == [Block(204, false), Block(3788, false)];
    assert Freeing(one, 0, 108) == none && none[2..] == [Block(3788, false)];
  }

  lemma RequestAfterwards(limit: nat)
    ensures var joined := [Block(308, false), Block(3788, false)];
            var end := [Block(107, true), Block(201, false), Block(3788, false)];
            && After(joined, limit, Malloc(103)) == end && Live(end, 0) == {Region(4, 103)}
            && Freed(joined, 0, 108) && !Held(end, 0, 108) && !Freed(end, 0, 108)
  {
    var joined := [Block(308, false), Block(3788, false)];
    var end := [Block(107, true), Block(201, false), Block(3788, false)];
    assert Fits(joined[0], 107) && joined[0] in joined && Alloc(joined, 107) == end;
    assert end[1..] == [Block(201, false), Block(3788, false)] && end[1..][1..] == [Block(3788, false)];
  }

  lemma StaleByte(m: seq<u8>, end: seq<Block>)
    requires end == [Block(107, true), Block(201, false), Block(3788, false)] && Tiles(m, 0, 4096, end)
    ensures |m| >= 4096 && FromLe32(m[104..108]) >= 0x8000_0000
  {
    hide FromLe32, Le32, Tiles;
    TilesHead(m, 0, 4096, end);
    TilesHead(m, 107, 4096, end[1..]);
    FromLe32RoundTrip(m[107..111]);
    LowByte(201);
    assert m[107] == m[107..111][0] == 201;
    assert m[104..108][3] == m[107];
    TopBit(m[104..108]);
  }

  lemma LowByte(x: u32)
    ensures Le32(x)[0] == x % 0x100
  {
  }

  // ---------------------------------------------------------------- the allocator itself

  /** The regions that a run does not release. */
  function Surviving(live: set<Region>, calls: seq<Call>): set<Region> {
    set r <- live | Free(r.start) !in calls
  }

  /** What the run's stores make of the byte at `at`. */
  function Stored(calls: seq<Call>, at: nat, was: u8): u8
    decreases |calls|
  {
    if calls == [] then was
    else Stored(calls[1..], at, if calls[0].Store? && calls[0].at == at then calls[0].value else was)
  }

  /** In these regions, memory holds what was there and what has been stored there since. */
  ghost predicate Holds(m: seq<u8>, m': seq<u8>, regions: set<Region>, calls: seq<Call>) {
    && |m'| == |m|
    && forall r, k | r in regions && r.start <= k < r.start + r.size && k < |m| :: m'[k] == Stored(calls, k, m[k])
  }

  /** How far the two counters are from counting the regions that are handed out. */
  ghost function Imbalance(kernel: Kernel): int
    reads kernel
  {
    kernel.kmallocCount - kernel.kfreeCount - |Live(kernel.blocks, 0)|
  }

  /**
   The allocator over a whole run: the blocks are those of the pure run, what was handed
   out before and is not released stays handed out and holds exactly what was stored
   there, and the counters keep up with what is handed out.
   */
  method RunCalls(kernel: Kernel, calls: seq<Call>)
    requires kernel.Valid() && Legal(kernel.blocks, kernel.bytes.Length, calls)
    modifies kernel, kernel.bytes
    ensures kernel.Valid() && kernel.blocks == Run(old(kernel.blocks), kernel.bytes.Length, calls)
    ensures Surviving(Live(old(kernel.blocks), 0), calls) <= Live(kernel.blocks, 0)
    ensures Holds(old(kernel.bytes[..]), kernel.bytes[..], Surviving(Live(old(kernel.blocks), 0), calls), calls)
    ensures Imbalance(kernel) == old(Imbalance(kernel))
  {
    hide Kernel.Valid, Imbalance, Live, Holds, After, Run, Allowed, Legal, Held, Freed;
    ghost var limit, row, m, kept := kernel.bytes.Length, kernel.blocks, kernel.bytes[..],
                                     Surviving(Live(kernel.blocks, 0), calls);
    NothingStored(m, kept);
    var i := 0;
    assert calls[0..] == calls && calls[..0] == [];
    while i < |calls|
      invariant 0 <= i <= |calls| && kernel.Valid()
      invariant Legal(kernel.blocks, limit, calls[i..])
      invariant Run(row, limit, calls) == Run(kernel.blocks, limit, calls[i..])
      invariant kept <= Live(kernel.blocks, 0) && Holds(m, kernel.bytes[..], kept, calls[..i])
      invariant Imbalance(kernel) == old(Imbalance(kernel))
    {
      assert calls[i..] == [calls[i]] + calls[i + 1..];
      RunCons(kernel.blocks, limit, calls[i], calls[i + 1..]);
      assert calls[i] in calls;
      ghost var before := kernel.bytes[..];
      RunCall(kernel, calls[i], kept);
      HoldsNext(m, before, kernel.bytes[..], kept, calls[..i], calls[i]);
      assert calls[..i] + [calls[i]] == calls[..i + 1];
      i := i + 1;
    }
    assert calls[i..] == [] && calls[..i] == calls;
    RunEnd(kernel.blocks, limit);
  }

  method RunCall(kernel: Kernel, call: Call, ghost kept: set<Region>)
    requires kernel.Valid() && Allowed(kernel.blocks, call)
    requires kept <= Live(kernel.blocks, 0) && forall r <- kept :: call != Free(r.start)
    modifies kernel, kernel.bytes
    ensures kernel.Valid() && kernel.blocks == After(old(kernel.blocks), kernel.bytes.Length, call)
    ensures kept <= Live(kernel.blocks, 0) && Holds(old(kernel.bytes[..]), kernel.bytes[..], kept, [call])
    ensures Imbalance(kernel) == old(Imbalance(kernel))
  {
    hide Tiles, Live, Alloc, Room, HasFit, Coalesce, Freeing, Held, Freed, Keeps, Given, Overwrites, IsZero, Pages,
         Opened, Frees, Lent, Holds;
    TilesTotal(kernel.bytes[..], 0, kernel.gHeap, kernel.blocks);
    ghost var m, live := kernel.bytes[..], Live(kernel.blocks, 0);
    match call
    case Malloc(size) =>
      var _ := kernel.KMalloc(size);
      KeptIsHeld(m, kernel.bytes[..], live, kept, call);
    case Free(ptr) =>
      if Freed(kernel.blocks, 0, ptr) {
        kernel.FreedIsRead(ptr);
      }
      NullIsNotHeld(kernel.blocks);
      kernel.KFree(ptr);
      assert forall r <- kept :: r.start != ptr;
      KeptIsHeld(m, kernel.bytes[..], Live(kernel.blocks, 0), kept, call);
    case Store(at, value) =>
      LentIsInside(kernel, at, value);
      kernel.bytes[at] := value;
      assert kernel.bytes[..] == m[at := value];
      StoreIsHeld(m, kept, at, value);
  }

  /** A store into what is handed out stays inside the heap and keeps it a row of blocks. */
  lemma LentIsInside(kernel: Kernel, at: nat, value: u8)
    requires kernel.Valid() && Lent(kernel.blocks, at)
    ensures at < kernel.bytes.Length && Tiles(kernel.bytes[..][at := value], 0, kernel.gHeap, kernel.blocks)
  {
    hide Tiles, Live;
    var m := kernel.bytes[..];
    var r :| r in Live(kernel.blocks, 0) && r.start <= at < r.start + r.size;
    TilesSound(m, 0, kernel.gHeap, kernel.blocks);
    TilesTotal(m, 0, kernel.gHeap, kernel.blocks);
    LiveWithin(kernel.blocks, 0);
    StoreKeepsTiles(m, 0, kernel.gHeap, kernel.blocks, r, at, value);
  }

  lemma NothingStored(m: seq<u8>, regions: set<Region>)
    ensures Holds(m, m, regions, [])
  {
  }

  lemma KeptIsHeld(m: seq<u8>, m': seq<u8>, regions: set<Region>, fewer: set<Region>, call: Call)
    requires Keeps(m, m', regions) && fewer <= regions && !call.Store?
    ensures Holds(m, m', fewer, [call])
  {
  }

  lemma StoreIsHeld(m: seq<u8>, regions: set<Region>, at: nat, value: u8)
    requires at < |m|
    ensures Holds(m, m[at := value], regions, [Store(at, value)])
  {
    assert [Store(at, value)][1..] == [];
    forall k | 0 <= k < |m|
      ensures m[at := value][k] == Stored([Store(at, value)], k, m[k])
    {
    }
  }

  lemma HoldsNext(m: seq<u8>, m1: seq<u8>, m2: seq<u8>, regions: set<Region>, calls: seq<Call>, call: Call)
    requires Holds(m, m1, regions, calls) && Holds(m1, m2, regions, [call])
    ensures Holds(m, m2, regions, calls + [call])
  {
    forall r, k | r in regions && r.start <= k < r.start + r.size && k < |m|
      ensures m2[k] == Stored(calls + [call], k, m[k])
    {
      StoredConcat(calls, [call], k, m[k]);
    }
  }

  lemma {:induction false} StoredConcat(a: seq<Call>, b: seq<Call>, at: nat, was: u8)
    ensures Stored(a + b, at, was) == Stored(b, at, Stored(a, at, was))
    decreases |a|
  {
    if a == [] {
      assert a + b == b;
    } else {
      assert (a + b)[0] == a[0] && (a + b)[1..] == a[1..] + b;
      StoredConcat(a[1..], b, at, if a[0].Store? && a[0].at == at then a[0].value else was);
    }
  }

  /** A second release, behind any run that ends with the pointer recognised, does nothing. */
  method DoubleFree(kernel: Kernel, ptr: nat, calls: seq<Call>)
    requires kernel.Valid() && Held(kernel.blocks, 0, ptr)
    requires Legal(kernel.blocks, kernel.bytes.Length, [Free(ptr)] + calls)
    requires Recognised(kernel.blocks, kernel.bytes.Length, [Free(ptr)] + calls, ptr, false)
    modifies kernel, kernel.bytes
    ensures kernel.Valid() && kernel.blocks == Run(old(kernel.blocks), kernel.bytes.Length, [Free(ptr)] + calls)
    ensures Freed(kernel.blocks, 0, ptr) && !Held(kernel.blocks, 0, ptr)
    ensures Imbalance(kernel) == old(Imbalance(kernel))
  {
    hide Tiles, Live, Keeps, Run, Legal, Held, Freed, Recognised, Coalesce, Freeing, Total, Holds;
    TilesSound(kernel.bytes[..], 0, kernel.gHeap, kernel.blocks);
    HeldIsNotFreed(kernel.blocks, 0, ptr);
    FreedIffRecognised(kernel.blocks, kernel.bytes.Length, [Free(ptr)] + calls, ptr);
    RunCalls(kernel, [Free(ptr)] + calls);
    TilesSound(kernel.bytes[..], 0, kernel.gHeap, kernel.blocks);
    HeldIsNotFreed(kernel.blocks, 0, ptr);
    kernel.FreedIsRead(ptr);
    kernel.KFree(ptr);
  }

  lemma {:induction false} HeldIsNotFreed(row: seq<Block>, from: nat, ptr: nat)
    requires Sound(row)
    ensures !(Held(row, from, ptr) && Freed(row, from, ptr))
    decreases |row|
  {
    if row != [] {
      assert row[0] in row && forall b <- row[1..] :: b in row;
      var next := from + row[0].size;
      HeldIsNotFreed(row[1..], next, ptr);
      if Held(row[1..], next, ptr) {
        var i := HeldAt(row[1..], next, ptr);
      }
      if Freed(row[1..], next, ptr) {
        FreedWithin(row[1..], next, ptr);
      }
    }
  }
}
