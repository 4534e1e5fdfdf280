/** File and directory handles: their numbers, and how a process finds a directory by its handle. */
module Handles {
  import opened KernelTypes
  import opened KernelHeap
  import opened LinkedList

  const SIZEOF_HANDLE: i32 := 12

  class File {
    const isDirectory: bool

    constructor (isDirectory: bool) {
      this.isDirectory := isDirectory;
    }
  }

  class FileHandle {
    const handle: u32
    const file: File
    var cursor: int

    constructor (handle: u32, file: File)
      ensures this.handle == handle && this.file == file && cursor == 0
    {
      this.handle, this.file, cursor := handle, file, 0;
    }
  }

  class DirHandle {
    const handle: u32
    const dir: File
    var cursor: File?

    constructor (handle: u32, dir: File)
      ensures this.handle == handle && this.dir == dir && cursor == null
    {
      this.handle, this.dir, cursor := handle, dir, null;
    }
  }

  /** Where a caller wants a `FileHandle *` stored. */
  class FileSlot {
    var value: FileHandle?
  }

  /** Where a caller wants a `DirHandle *` stored. */
  class DirSlot {
    var value: DirHandle?
  }

  class Process {
    const dirHandleList: List<DirHandle>

    constructor (dirHandleList: List<DirHandle>)
      ensures this.dirHandleList == dirHandleList
    {
      this.dirHandleList := dirHandleList;
    }
  }

  // ---------------------------------------------------------------- the numbers

  /** The n-th handle: the counter is a pointer to `int`, so each step adds four, modulo 2^32. */
  function HandleAt(n: nat): u32 {
    (1 + 4 * n) % 0x1_0000_0000
  }

  /** No handle is null, ever, and two handles are the same exactly when 2^30 creations (or none) lie between them. */
  lemma HandlesDistinct(i: nat, j: nat)
    ensures HandleAt(i) % 4 == 1 && HandleAt(i) != 0
    ensures HandleAt(i) == HandleAt(j) <==> i % 0x4000_0000 == j % 0x4000_0000
  {
    HandleValue(i);
    HandleValue(j);
  }

  lemma HandleValue(n: nat)
    ensures HandleAt(n) == 1 + 4 * (n % 0x4000_0000)
  {
    var q, r := n / 0x4000_0000, n % 0x4000_0000;
    assert 1 + 4 * n == 0x1_0000_0000 * q + (1 + 4 * r);
  }

  lemma HandleNext(n: nat)
    ensures HandleAt(n + 1) == (HandleAt(n) + 4) % 0x1_0000_0000
  {
    HandleValue(n);
    HandleValue(n + 1);
  }

  class HandleCounter {
    var next: u32
    /** How many handles have been created. */
    ghost var created: nat

    ghost predicate Valid()
      reads this
    {
      next == HandleAt(created)
    }

    constructor ()
      ensures Valid() && created == 0 && next == 1
    {
      next, created := 1, 0;
    }

    /** The value of `s_HandleCount++`. */
    method Next() returns (handle: u32)
      requires Valid()
      modifies this
      ensures Valid() && handle == HandleAt(old(created)) && created == old(created) + 1
      ensures handle == old(next) && next == (old(next) + 4) % 0x1_0000_0000
    {
      handle := next;
      next := (next + 4) % 0x1_0000_0000;
      HandleNext(created);
      created := created + 1;
    }
  }

  // ---------------------------------------------------------------- creation

  method CreateFileHandle(counter: HandleCounter, heap: Heap, file: File?, fileHandle: FileSlot?)
    returns (status: KeStatus)
    requires counter.Valid()
    modifies counter, heap`live, heap`mallocCount, if fileHandle == null then {} else {fileHandle}
    ensures counter.Valid()
    ensures status == (if file == null || fileHandle == null then STATUS_NULL_PARAMETER
                       else if file.isDirectory then STATUS_NOT_A_FILE
                       else if !heap.grants(old(heap.mallocCount)) then STATUS_ALLOC_FAILED
                       else STATUS_SUCCESS)
    ensures heap.mallocCount == old(heap.mallocCount) + if status in {STATUS_SUCCESS, STATUS_ALLOC_FAILED} then 1 else 0
    ensures status == STATUS_SUCCESS ==>
              && fileHandle.value != null && fresh(fileHandle.value) && heap.live == old(heap.live) + {fileHandle.value}
              && fileHandle.value.handle == HandleAt(old(counter.created)) == old(counter.next)
              && counter.next == (old(counter.next) + 4) % 0x1_0000_0000 && fileHandle.value.file == file
              && fileHandle.value.cursor == 0 && counter.created == old(counter.created) + 1
    ensures status != STATUS_SUCCESS ==>
              && counter.created == old(counter.created) && heap.live == old(heap.live)
              && (fileHandle != null ==> fileHandle.value == old(fileHandle.value))
  {
    if file == null {
      return STATUS_NULL_PARAMETER;
    }
    if fileHandle == null {
      return STATUS_NULL_PARAMETER;
    }
    if file.isDirectory {
      return STATUS_NOT_A_FILE;
    }
    var granted := heap.Request(SIZEOF_HANDLE);
    if !granted {
      return STATUS_ALLOC_FAILED;
    }
    var handle := counter.Next();
    var local := new FileHandle(handle, file);
    heap.Hold(local);
    fileHandle.value := local;
    return STATUS_SUCCESS;
  }

  method CreateDirHandle(counter: HandleCounter, heap: Heap, dir: File?, dirHandle: DirSlot?)
    returns (status: KeStatus)
    requires counter.Valid()
    modifies counter, heap`live, heap`mallocCount, if dirHandle == null then {} else {dirHandle}
    ensures counter.Valid()
    ensures status == (if dir == null || dirHandle == null then STATUS_NULL_PARAMETER
                       else if !dir.isDirectory then STATUS_NOT_A_DIRECTORY
                       else if !heap.grants(old(heap.mallocCount)) then STATUS_ALLOC_FAILED
                       else STATUS_SUCCESS)
    ensures heap.mallocCount == old(heap.mallocCount) + if status in {STATUS_SUCCESS, STATUS_ALLOC_FAILED} then 1 else 0
    ensures status == STATUS_SUCCESS ==>
              && dirHandle.value != null && fresh(dirHandle.value) && heap.live == old(heap.live) + {dirHandle.value}
              && dirHandle.value.handle == HandleAt(old(counter.created)) == old(counter.next)
              && counter.next == (old(counter.next) + 4) % 0x1_0000_0000 && dirHandle.value.dir == dir
              && dirHandle.value.cursor == null && counter.created == old(counter.created) + 1
    ensures status != STATUS_SUCCESS ==>
              && counter.created == old(counter.created) && heap.live == old(heap.live)
              && (dirHandle != null ==> dirHandle.value == old(dirHandle.value))
  {
    if dir == null {
      return STATUS_NULL_PARAMETER;
    }
    if dirHandle == null {
      return STATUS_NULL_PARAMETER;
    }
    if !dir.isDirectory {
      return STATUS_NOT_A_DIRECTORY;
    }
    var granted := heap.Request(SIZEOF_HANDLE);
    if !granted {
      return STATUS_ALLOC_FAILED;
    }
    var handle := counter.Next();
    var local := new DirHandle(handle, dir);
    heap.Hold(local);
    dirHandle.value := local;
    return STATUS_SUCCESS;
  }

  // ---------------------------------------------------------------- lookup

  /** The first directory with this handle. */
  function FindDir(items: seq<DirHandle>, handle: u32): (found: DirHandle?)
    ensures found != null ==> found in items && found.handle == handle
    ensures found == null <==> forall d <- items :: d.handle != handle
  {
    if items == [] then null
    else if items[0].handle == handle then items[0]
    else FindDir(items[1..], handle)
  }

  /** The walk over the process's list: stops at the first entry with this handle, or at an entry without data. */
  method FindInList(heap: Heap, dirs: List<DirHandle>, handle: u32) returns (found: DirHandle?, entryMissing: bool)
    requires dirs.Valid(heap)
    ensures entryMissing <==> dirs.model == Queue([])
    ensures found == if dirs.model.Queue? then FindDir(dirs.model.items, handle) else null
  {
    hide FindDir;
    var list := dirs.head;
    found := null;
    ghost var items := if dirs.model.Queue? then dirs.model.items else [];
    ghost var i := 0;
    assert items[0..] == items;
    while list != null
      invariant 0 <= i <= |dirs.nodes| && list == (if i < |dirs.nodes| then dirs.nodes[i] else null)
      invariant i > 0 ==> i <= |items| == |dirs.nodes|
      invariant found == null && i <= |items| && FindDir(items, handle) == FindDir(items[i..], handle)
      decreases |dirs.nodes| - i
    {
      if list.Data(heap) == Null {
        FindNone(handle);
        return null, true;
      }
      found := list.Data(heap).target;
      FindHead(items[i..], handle);
      if found.handle == handle {
        break;
      }
      found := null;
      assert i + 1 < |items| ==> Linked(dirs.nodes[i], dirs.nodes[i + 1]);
      assert items[i..][1..] == items[i + 1..];
      list := list.Next(heap);
      i := i + 1;
    }
    FindNone(handle);
    entryMissing := false;
  }

  lemma FindNone(handle: u32)
    ensures FindDir([], handle) == null
  {
  }

  lemma FindHead(items: seq<DirHandle>, handle: u32)
    requires items != []
    ensures FindDir(items, handle) == if items[0].handle == handle then items[0] else FindDir(items[1..], handle)
  {
  }

  method GetDirFromHandle(heap: Heap, handle: u32, process: Process?, dirHandle: DirSlot?)
    returns (status: KeStatus)
    requires process != null ==> process.dirHandleList.Valid(heap)
    modifies if dirHandle == null then {} else {dirHandle}
    ensures handle == 0 || process == null || dirHandle == null ==>
              status == STATUS_NULL_PARAMETER && (dirHandle != null ==> dirHandle.value == old(dirHandle.value))
    ensures handle != 0 && process != null && dirHandle != null ==>
              match process.dirHandleList.model
              case Gone => status == STATUS_HANDLE_NOT_FOUND && dirHandle.value == null
              case Queue(items) =>
                if items == [] then status == STATUS_UNEXPECTED && dirHandle.value == old(dirHandle.value)
                else dirHandle.value == FindDir(items, handle)
                     && status == if dirHandle.value == null then STATUS_HANDLE_NOT_FOUND else STATUS_SUCCESS
  {
    if handle == 0 {
      return STATUS_NULL_PARAMETER;
    }
    if process == null {
      return STATUS_NULL_PARAMETER;
    }
    if dirHandle == null {
      return STATUS_NULL_PARAMETER;
    }
    hide IsLinked, Carries, FindDir;
    var found, entryMissing := FindInList(heap, process.dirHandleList, handle);
    if entryMissing {
      return STATUS_UNEXPECTED;
    }
    dirHandle.value := found;
    if dirHandle.value == null {
      status := STATUS_HANDLE_NOT_FOUND;
    } else {
      status := STATUS_SUCCESS;
    }
  }

  /** A directory pushed later never changes the answer for a handle that is found. */
  lemma {:induction false} FindDirPush(items: seq<DirHandle>, pushed: DirHandle, handle: u32)
    ensures FindDir(items + [pushed], handle)
         == if FindDir(items, handle) != null then FindDir(items, handle)
            else if pushed.handle == handle then pushed else null
    decreases |items|
  {
    if items == [] {
      assert items + [pushed] == [pushed];
    } else {
      assert (items + [pushed])[1..] == items[1..] + [pushed];
      FindDirPush(items[1..], pushed, handle);
    }
  }

  /** `numbers` says which creation each of the directories comes from. */
  predicate Numbered(items: seq<DirHandle>, numbers: seq<nat>) {
    |items| == |numbers| && forall i :: 0 <= i < |items| ==> items[i].handle == HandleAt(numbers[i])
  }

  /** None of these creations lies a multiple of 2^30 away from creation n. */
  predicate Unused(numbers: seq<nat>, n: nat) {
    forall k <- numbers :: k % 0x4000_0000 != n % 0x4000_0000
  }

  /**
   The newest directory is found under its own handle exactly if no listed one was
   created a multiple of 2^30 creations before; otherwise such an older one is found.
   */
  lemma NewestIsFoundIff(items: seq<DirHandle>, numbers: seq<nat>, created: nat, newest: DirHandle)
    requires Numbered(items, numbers) && newest !in items && newest.handle == HandleAt(created)
    ensures FindDir(items + [newest], newest.handle) == newest <==> Unused(numbers, created)
    ensures !Unused(numbers, created) ==> FindDir(items + [newest], newest.handle) in items
    ensures FindDir(items, newest.handle) != newest
  {
    hide HandleAt;
    FindDirPush(items, newest, newest.handle);
    forall i | 0 <= i < |items|
      ensures items[i].handle == newest.handle <==> numbers[i] % 0x4000_0000 == created % 0x4000_0000
    {
      HandlesDistinct(numbers[i], created);
    }
    if !Unused(numbers, created) {
      var i :| 0 <= i < |numbers| && numbers[i] % 0x4000_0000 == created % 0x4000_0000;
      assert items[i] in items;
    } else {
      assert forall i :: 0 <= i < |items| ==> numbers[i] in numbers;
    }
  }

  /** Fewer than 2^30 creations after the oldest listed directory, the newest is found. */
  lemma RecentIsUnused(numbers: seq<nat>, from: nat, created: nat)
    requires created < from + 0x4000_0000 && forall k <- numbers :: from <= k < created
    ensures Unused(numbers, created)
  {
    forall k <- numbers
      ensures k % 0x4000_0000 != created % 0x4000_0000
    {
      HandlesDistinct(k, created);
      HandleValue(k);
      HandleValue(created);
    }
  }

  /** 2^30 creations later, a directory that is still open hides the newest one. */
  lemma OldestHidesNewest(oldest: DirHandle, newest: DirHandle, n: nat)
    requires oldest != newest && oldest.handle == HandleAt(n) && newest.handle == HandleAt(n + 0x4000_0000)
    ensures FindDir([oldest, newest], newest.handle) == oldest
  {
    hide HandleAt;
    HandlesDistinct(n, n + 0x4000_0000);
    assert [oldest, newest][0] == oldest;
  }

  /** What a push makes of the list, and whether it makes the newest directory findable. */
  lemma PushedIsFoundIff(was: Queue<DirHandle>, numbers: seq<nat>, created: nat, newest: DirHandle, granted: bool)
    requires Numbered(Waiting(was), numbers) && newest !in Waiting(was) && newest.handle == HandleAt(created)
    ensures var now := Pushed(was, newest, granted);
            var listed := was.Queue? && (was.items == [] || granted);
            && (FindDir(Waiting(now), newest.handle) == newest <==> listed && Unused(numbers, created))
            && Numbered(Waiting(now), if listed then numbers + [created] else numbers)
  {
    hide FindDir, HandleAt, Unused;
    NewestIsFoundIff(Waiting(was), numbers, created, newest);
  }

  /**
   Opening a directory: a new handle, pushed on the process's list.  The call succeeds
   even if the list is gone or has no memory for another entry; the handle leads to the
   new directory exactly if it was listed and its number is not in use.
   */
  method OpenDir(counter: HandleCounter, heap: Heap, process: Process, dir: File, slot: DirSlot,
                 ghost numbers: seq<nat>)
    returns (status: KeStatus)
    requires counter.Valid() && process.dirHandleList.Valid(heap) && dir.isDirectory
    requires Numbered(Waiting(process.dirHandleList.model), numbers)
    modifies counter, heap`live, heap`mallocCount, slot
    modifies process.dirHandleList`nodes, process.dirHandleList`model, process.dirHandleList.nodes
    ensures counter.Valid() && process.dirHandleList.Valid(heap)
    ensures old(process.dirHandleList.nodes) <= process.dirHandleList.nodes
    ensures fresh(process.dirHandleList.nodes[|old(process.dirHandleList.nodes)|..])
    ensures status == STATUS_SUCCESS <==> heap.grants(old(heap.mallocCount))
    ensures counter.created == old(counter.created) + if status == STATUS_SUCCESS then 1 else 0
    ensures status == STATUS_SUCCESS ==>
              var was, now := old(process.dirHandleList.model), process.dirHandleList.model;
              var listed := was.Queue? && (was.items == [] || heap.grants(old(heap.mallocCount) + 1));
              && slot.value != null && slot.value.dir == dir
              && slot.value.handle == HandleAt(old(counter.created)) == old(counter.next)
              && now == Pushed(was, slot.value, heap.grants(old(heap.mallocCount) + 1))
              && (FindDir(Waiting(now), slot.value.handle) == slot.value
                  <==> listed && Unused(numbers, old(counter.created)))
              && Numbered(Waiting(now), if listed then numbers + [old(counter.created)] else numbers)
  {
    hide FindDir, HandleAt, Unused, Numbered, Pushed;
    ghost var was, number := process.dirHandleList.model, counter.created;
    ghost var items := Waiting(was);
    status := CreateDirHandle(counter, heap, dir, slot);
    assert process.dirHandleList.Valid(heap);
    if status != STATUS_SUCCESS {
      return;
    }
    PushedIsFoundIff(was, numbers, number, slot.value, heap.grants(heap.mallocCount));
    ListPush(heap, process.dirHandleList, slot.value);
  }

  /** Each handle given out leads to the directory it was given out for. */
  ghost predicate LeadTo(items: seq<DirHandle>, handles: seq<u32>, dirs: seq<File>) {
    |handles| <= |dirs| && forall i :: 0 <= i < |handles| ==> LeadsTo(items, handles[i], dirs[i])
  }

  ghost predicate LeadsTo(items: seq<DirHandle>, handle: u32, dir: File) {
    var found := FindDir(items, handle);
    found != null && found.dir == dir
  }

  /** A directory opened later leaves every handle where it leads. */
  lemma LeadToPush(items: seq<DirHandle>, handles: seq<u32>, dirs: seq<File>, pushed: DirHandle)
    requires LeadTo(items, handles, dirs)
    ensures LeadTo(items + [pushed], handles, dirs)
  {
    hide FindDir;
    forall i | 0 <= i < |handles|
      ensures LeadsTo(items + [pushed], handles[i], dirs[i])
    {
      assert LeadsTo(items, handles[i], dirs[i]);
      FindDirPush(items, pushed, handles[i]);
    }
  }

  /**
   A run of openings with memory for all of them, fewer than 2^30 creations behind the
   oldest listed directory: at the end every handle given out leads to its directory.
   */
  method OpenAll(counter: HandleCounter, heap: Heap, process: Process, dirs: seq<File>,
                 ghost numbers: seq<nat>, ghost from: nat)
    returns (handles: seq<u32>)
    requires counter.Valid() && process.dirHandleList.Valid(heap) && process.dirHandleList.model.Queue?
    requires (forall d <- dirs :: d.isDirectory) && forall n :: heap.grants(n)
    requires Numbered(process.dirHandleList.model.items, numbers) && forall k <- numbers :: from <= k < counter.created
    requires from <= counter.created && counter.created + |dirs| <= from + 0x4000_0000
    modifies counter, heap`live, heap`mallocCount
    modifies process.dirHandleList`nodes, process.dirHandleList`model, process.dirHandleList.nodes
    ensures counter.Valid() && process.dirHandleList.Valid(heap) && process.dirHandleList.model.Queue?
    ensures |handles| == |dirs| && LeadTo(process.dirHandleList.model.items, handles, dirs)
  {
    hide FindDir, HandleAt, Numbered, Unused, LeadsTo, List.Valid;
    ghost var known, created := numbers, counter.created;
    var list := process.dirHandleList;
    var slot := new DirSlot;
    handles := [];
    while |handles| < |dirs|
      invariant |handles| <= |dirs| && counter.Valid() && counter.created == created + |handles|
      invariant list.Valid(heap) && list.model.Queue? && LeadTo(list.model.items, handles, dirs)
      invariant Numbered(list.model.items, known) && forall k <- known :: from <= k < counter.created
      invariant forall k :: 0 <= k < |list.nodes| ==> list.nodes[k] in old(list.nodes) || fresh(list.nodes[k])
      decreases |dirs| - |handles|
    {
      ghost var items, number, nodes := list.model.items, counter.created, list.nodes;
      RecentIsUnused(known, from, number);
      var status := OpenDir(counter, heap, process, dirs[|handles|], slot, known);
      assert list.nodes == nodes + list.nodes[|nodes|..];
      LeadToPush(items, handles, dirs, slot.value);
      OneMoreLeads(list.model.items, handles, dirs, slot.value);
      known := known + [number];
      handles := handles + [slot.value.handle];
    }
  }

  lemma OneMoreLeads(items: seq<DirHandle>, handles: seq<u32>, dirs: seq<File>, newest: DirHandle)
    requires LeadTo(items, handles, dirs) && |handles| < |dirs|
    requires FindDir(items, newest.handle) == newest && newest.dir == dirs[|handles|]
    ensures LeadTo(items, handles + [newest.handle], dirs)
  {
  }
}
