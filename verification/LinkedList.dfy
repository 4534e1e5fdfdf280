/**
 The kernel's doubly linked list.  A list is a pointer to its first node; the
 empty list is one node without data, and popping the last node leaves no list
 at all.
 */
module LinkedList {
  import opened KernelTypes
  import opened KernelHeap

  const SIZEOF_LIST_ELEM: i32 := 12

  /** A `void *`. */
  datatype Pointer<T> = Null | To(target: T)

  /** `ListElem`.  Fresh from the allocator its fields are arbitrary; they are read through the heap that holds it. */
  class Node<T> {
    var prev: Node?<T>
    var next: Node?<T>
    var data: Pointer<T>

    constructor () {
    }

    function Next(heap: Heap): Node?<T>
      requires this in heap.live
      reads this, heap
    {
      next
    }

    function Data(heap: Heap): Pointer<T>
      requires this in heap.live
      reads this, heap
    {
      data
    }
  }

  method AllocNode<T>(heap: Heap) returns (node: Node?<T>)
    modifies heap`live, heap`mallocCount
    ensures heap.mallocCount == old(heap.mallocCount) + 1
    ensures node != null <==> heap.grants(old(heap.mallocCount))
    ensures node == null ==> heap.live == old(heap.live)
    ensures node != null ==> fresh(node) && heap.live == old(heap.live) + {node}
  {
    var granted := heap.Request(SIZEOF_LIST_ELEM);
    if !granted {
      return null;
    }
    node := new Node<T>();
    heap.Hold(node);
  }

  /** What a list means to its users: no list any more, or the items in order. */
  datatype Queue<T> = Gone | Queue(items: seq<T>)

  /** A variable of type `List *`, the nodes it leads to and what they mean. */
  class List<T> {
    var head: Node?<T>
    ghost var nodes: seq<Node<T>>
    ghost var model: Queue<T>

    constructor ()
      ensures head == null && nodes == [] && model == Gone
    {
      head, nodes, model := null, [], Gone;
    }

    ghost predicate Valid(heap: Heap)
      reads this, heap, nodes
    {
      match model
      case Gone => head == null && nodes == []
      case Queue(items) =>
        && nodes != [] && head == nodes[0] && IsLinked(heap, nodes) && nodes[|nodes| - 1].next == null
        && if items == [] then |nodes| == 1 && nodes[0].data == Null else Carries(nodes, items)
    }

    /** What the heap holds besides this list. */
    ghost function Others(heap: Heap): set<object>
      reads this, heap
    {
      heap.live - NodeSet(nodes)
    }
  }

  ghost function NodeSet<T>(nodes: seq<Node<T>>): set<object> {
    set n <- nodes
  }

  ghost predicate Linked<T>(a: Node<T>, b: Node<T>)
    reads a, b
  {
    a.next == b && b.prev == a
  }

  ghost predicate Distinct<T>(nodes: seq<Node<T>>) {
    forall i, j :: 0 <= i < j < |nodes| ==> nodes[i] != nodes[j]
  }

  /** The nodes are held, distinct, and linked to each other in both directions. */
  ghost predicate IsLinked<T>(heap: Heap, nodes: seq<Node<T>>)
    reads heap, nodes
  {
    && (forall n <- nodes :: n in heap.live)
    && Distinct(nodes)
    && (forall i, j :: 0 <= i < j < |nodes| && j == i + 1 ==> Linked(nodes[i], nodes[j]))
  }

  ghost predicate Carries<T>(nodes: seq<Node<T>>, items: seq<T>)
    reads nodes
  {
    |nodes| == |items| && forall i :: 0 <= i < |nodes| ==> nodes[i].data == To(items[i])
  }

  lemma OthersExtend<T>(live: set<object>, nodes: seq<Node<T>>, added: Node<T>)
    requires added !in live
    ensures live + {added} - NodeSet(nodes + [added]) == live - NodeSet(nodes)
  {
  }

  lemma CarriesExtend<T>(nodes: seq<Node<T>>, items: seq<T>, added: Node<T>, data: T)
    requires Carries(nodes, items) && added.data == To(data)
    ensures Carries(nodes + [added], items + [data])
  {
  }

  lemma LinkedExtends<T>(heap: Heap, nodes: seq<Node<T>>, added: Node<T>)
    requires nodes != [] && IsLinked(heap, nodes)
    requires added in heap.live && added !in nodes && Linked(nodes[|nodes| - 1], added)
    ensures IsLinked(heap, nodes + [added])
  {
    var all := nodes + [added];
    forall i, j | 0 <= i < j < |all| && j == i + 1
      ensures Linked(all[i], all[j])
    {
      if j == |nodes| { assert all[j] == added; }
    }
  }

  ghost function Pointers<T>(items: seq<T>): (pointers: seq<Pointer<T>>)
    ensures |pointers| == |items| && forall i :: 0 <= i < |items| ==> pointers[i] == To(items[i])
  {
    if items == [] then [] else [To(items[0])] + Pointers(items[1..])
  }

  // ---------------------------------------------------------------- the queue

  function Pushed<T>(q: Queue<T>, data: T, granted: bool): Queue<T> {
    if q.Gone? || (q.items != [] && !granted) then q else Queue(q.items + [data])
  }

  function Popped<T>(q: Queue<T>): Queue<T> {
    if q.Gone? || |q.items| <= 1 then Gone else Queue(q.items[1..])
  }

  function Front<T>(q: Queue<T>): Pointer<T> {
    if q.Gone? || q.items == [] then Null else To(q.items[0])
  }

  /** What the operations do to a list that is gone, to an empty one and to one with items. */
  lemma QueueSteps<T>(q: Queue<T>, data: T, granted: bool)
    ensures q == Gone ==> Pushed(q, data, granted) == Gone && Popped(q) == Gone && Front(q) == Null
    ensures q == Queue([]) ==> Pushed(q, data, granted) == Queue([data]) && Popped(q) == Gone && Front(q) == Null
    ensures q.Queue? && q.items != [] ==>
              && Pushed(q, data, granted) == Queue(if granted then q.items + [data] else q.items)
              && Front(q) == To(q.items[0])
              && Popped(q) == if |q.items| == 1 then Gone else Queue(q.items[1..])
  {
    if q == Queue([]) {
      assert q.items + [data] == [data];
    }
  }

  // ---------------------------------------------------------------- the operations

  method ListCreate<T>(heap: Heap) returns (list: List<T>)
    modifies heap`live, heap`mallocCount
    ensures fresh(list) && fresh(list.nodes) && list.Valid(heap)
    ensures list.model == if heap.grants(old(heap.mallocCount)) then Queue([]) else Gone
    ensures list.head != null ==> list.head.prev == null
    ensures list.Others(heap) == old(heap.live)
  {
    list := new List<T>();
    var node := AllocNode(heap);
    if node == null {
      return;
    }
    node.prev := null;
    node.next := null;
    node.data := Null;
    list.head := node;
    list.nodes := [node];
    list.model := Queue([]);
  }

  /** The walk to the last node. */
  method LastNode<T>(heap: Heap, list: List<T>) returns (elem: Node<T>)
    requires list.Valid(heap) && list.head != null
    ensures elem == list.nodes[|list.nodes| - 1]
  {
    elem := list.head;
    ghost var i := 0;
    while elem.Next(heap) != null
      invariant 0 <= i < |list.nodes| && elem == list.nodes[i]
      decreases |list.nodes| - i
    {
      assert i + 1 < |list.nodes| ==> Linked(list.nodes[i], list.nodes[i + 1]);
      elem := elem.Next(heap);
      i := i + 1;
    }
    assert i + 1 < |list.nodes| ==> Linked(list.nodes[i], list.nodes[i + 1]);
  }

  /** A new node behind `elem`, or nothing if there is no memory for it. */
  method AllocTail<T>(heap: Heap, elem: Node<T>, data: T) returns (added: Node?<T>)
    requires elem in heap.live && elem.next == null
    modifies heap`live, heap`mallocCount, elem`next
    ensures heap.mallocCount == old(heap.mallocCount) + 1
    ensures added != null <==> heap.grants(old(heap.mallocCount))
    ensures elem.next == added
    ensures added == null ==> heap.live == old(heap.live)
    ensures added != null ==> fresh(added) && heap.live == old(heap.live) + {added}
                              && added.prev == elem && added.data == To(data) && added.next == null
  {
    elem.next := AllocNode(heap);
    added := elem.Next(heap);
    if added == null {
      return;
    }
    added.prev := elem;
    added.data := To(data);
    added.next := null;
  }

  /** The branch of `ListPush` for a list that has data: a new node behind the last one. */
  method AppendNode<T>(heap: Heap, list: List<T>, data: T)
    requires list.Valid(heap) && list.model.Queue? && list.model.items != []
    modifies heap`live, heap`mallocCount, list`nodes, list`model, list.nodes
    ensures list.Valid(heap) && list.model == Pushed(old(list.model), data, heap.grants(old(heap.mallocCount)))
    ensures heap.mallocCount == old(heap.mallocCount) + 1
    ensures old(list.nodes) <= list.nodes && fresh(list.nodes[|old(list.nodes)|..])
    ensures list.Others(heap) == old(list.Others(heap))
  {
    var elem := LastNode(heap, list);
    ghost var live, nodes, items := heap.live, list.nodes, list.model.items;
    var added := AllocTail(heap, elem, data);
    if added == null {
      return;
    }
    assert IsLinked(heap, nodes) && Carries(nodes, items);
    hide IsLinked, Distinct;
    LinkedExtends(heap, nodes, added);
    CarriesExtend(nodes, items, added, data);
    OthersExtend(live, nodes, added);
    hide Carries, NodeSet;
    list.nodes := nodes + [added];
    list.model := Queue(items + [data]);
  }

  method ListPush<T>(heap: Heap, list: List<T>, data: T)
    requires list.Valid(heap)
    modifies heap`live, heap`mallocCount, list`nodes, list`model, list.nodes
    ensures list.Valid(heap) && list.model == Pushed(old(list.model), data, heap.grants(old(heap.mallocCount)))
    ensures heap.mallocCount
         == old(heap.mallocCount) + if old(list.model).Queue? && old(list.model).items != [] then 1 else 0
    ensures old(list.nodes) <= list.nodes && fresh(list.nodes[|old(list.nodes)|..])
    ensures list.Others(heap) == old(list.Others(heap))
  {
    if list.head == null {
      return;
    }
    if list.head.Data(heap) == Null {
      list.head.data := To(data);
      list.model := Queue([data]);
    } else {
      AppendNode(heap, list, data);
    }
  }

  method ListPop<T>(heap: Heap, list: List<T>) returns (data: Pointer<T>)
    requires list.Valid(heap)
    modifies heap`live, heap`freeCount, list
    ensures list.Valid(heap) && list.model == Popped(old(list.model)) && data == Front(old(list.model))
    ensures old(list.head) != null ==> list.nodes == old(list.nodes)[1..]
    ensures list.Others(heap) == old(list.Others(heap))
    ensures heap.freeCount == old(heap.freeCount) + if old(list.head) == null then 0 else 1
  {
    if list.head == null {
      return Null;
    }
    data := list.head.Data(heap);
    var next := list.head.Next(heap);
    heap.Free(list.head);
    if |list.nodes| > 1 {
      assert Linked(list.nodes[0], list.nodes[1]);
    }
    list.head := next;
    list.nodes := list.nodes[1..];
    list.model := Popped(list.model);
  }

  /** For more than one item, or index 0: the item at `index`, or nothing behind the end. */
  method ListGet<T>(heap: Heap, list: List<T>, index: nat) returns (data: Pointer<T>)
    requires list.Valid(heap)
    requires list.model.Queue? && index > 0 ==> |list.model.items| > 1
    ensures data == if list.model.Queue? && index < |list.model.items| then To(list.model.items[index]) else Null
  {
    if list.head == null {
      return Null;
    }
    var elem, left := list.head, index;
    ghost var i := 0;
    while left > 0
      invariant i + left == index && 0 <= i < |list.nodes| && elem == list.nodes[i]
      invariant left >= 0 && (left > 0 ==> i + 1 < |list.nodes|)
    {
      assert Linked(list.nodes[i], list.nodes[i + 1]);
      elem := elem.Next(heap);
      left := left - 1;
      i := i + 1;
      assert i + 1 < |list.nodes| ==> Linked(list.nodes[i], list.nodes[i + 1]);
      if elem.Next(heap) == null {
        assert i + 1 == |list.nodes|;
        break;
      }
    }
    if left == 0 {
      return elem.Data(heap);
    }
    return Null;
  }

  /** A `CleanFunPtr` or `EnumerateFunPtr`: what it has been called with. */
  class Callback<T> {
    var calls: seq<Pointer<T>>

    method Call(data: Pointer<T>)
      modifies this
      ensures calls == old(calls) + [data]
    {
      calls := calls + [data];
    }
  }

  function NextOf<T>(nodes: seq<Node<T>>, i: nat): Node?<T> {
    if i + 1 < |nodes| then nodes[i + 1] else null
  }

  /** What node i of a list carries. */
  function DataOf<T>(q: Queue<T>, i: nat): Pointer<T> {
    if q.Queue? && i < |q.items| then To(q.items[i]) else Null
  }

  /** What a walk needs to know. */
  lemma Walk<T>(heap: Heap, list: List<T>)
    requires list.Valid(heap)
    ensures list.head == if list.nodes == [] then null else list.nodes[0]
    ensures Distinct(list.nodes) && forall n <- list.nodes :: n in heap.live
    ensures forall i {:trigger NextOf(list.nodes, i)} :: 0 <= i < |list.nodes| ==>
              list.nodes[i].next == NextOf(list.nodes, i) && list.nodes[i].data == DataOf(list.model, i)
    ensures list.model.Gone? <==> list.nodes == []
    ensures list.model.Queue? ==> |list.nodes| == if list.model.items == [] then 1 else |list.model.items|
  {
    forall i | 0 <= i < |list.nodes|
      ensures list.nodes[i].next == NextOf(list.nodes, i) && list.nodes[i].data == DataOf(list.model, i)
    {
      assert i + 1 < |list.nodes| ==> Linked(list.nodes[i], list.nodes[i + 1]);
    }
  }

  /** How the nodes of a list hang together, whatever happened to it before. */
  lemma NodeLinks<T>(heap: Heap, list: List<T>)
    requires list.Valid(heap)
    ensures forall i, j :: 0 <= i < j < |list.nodes| && j == i + 1 ==>
              list.nodes[i].next == list.nodes[j] && list.nodes[j].prev == list.nodes[i]
    ensures list.nodes != [] ==> list.head == list.nodes[0] && list.nodes[|list.nodes| - 1].next == null
    ensures list.head == null <==> list.model == Gone
    ensures list.model == Queue([]) ==> |list.nodes| == 1 && list.nodes[0].data == Null
    ensures list.model.Queue? && list.model.items != [] ==>
              && |list.nodes| == |list.model.items|
              && forall i :: 0 <= i < |list.nodes| ==> list.nodes[i].data == To(list.model.items[i])
  {
    forall i, j | 0 <= i < j < |list.nodes| && j == i + 1
      ensures list.nodes[i].next == list.nodes[j] && list.nodes[j].prev == list.nodes[i]
    {
      assert Linked(list.nodes[i], list.nodes[j]);
    }
  }

  /** One round of `ListDestroyEx`: the cleaner gets the data, if there is any, and the node is freed. */
  method CleanAndFree<T>(heap: Heap, elem: Node<T>, cleaner: Callback?<T>)
    requires elem in heap.live
    modifies heap`live, heap`freeCount, if cleaner == null then {} else {cleaner}
    ensures heap.live == old(heap.live) - {elem} && heap.freeCount == old(heap.freeCount) + 1
    ensures cleaner != null ==> cleaner.calls == old(cleaner.calls) + if elem.data == Null then [] else [elem.data]
  {
    if cleaner != null && elem.Data(heap) != Null {
      cleaner.Call(elem.Data(heap));
    }
    heap.Free(elem);
  }

  /** Frees every node once, after giving its data to the cleaner; no freed node is read. */
  method ListDestroyEx<T>(heap: Heap, list: List<T>, cleaner: Callback?<T>)
    requires list.Valid(heap)
    modifies heap`live, heap`freeCount, if cleaner == null then {} else {cleaner}
    ensures heap.live == old(list.Others(heap)) && heap.freeCount == old(heap.freeCount) + |list.nodes|
    ensures cleaner != null ==>
              cleaner.calls == old(cleaner.calls) + if list.model.Queue? then Pointers(list.model.items) else []
  {
    hide List.Valid, Distinct, NodeSet;
    Walk(heap, list);
    NoneFreed(list.nodes, heap.live);
    if list.head == null {
      assert list.nodes[..0] == list.nodes;
      return;
    }
    ghost var nodes, live, frees := list.nodes, heap.live, heap.freeCount;
    ghost var was, items := if cleaner == null then [] else cleaner.calls, Pointers(list.model.items);
    var elem := list.head;
    var next := list.head.Next(heap);
    ghost var i := 0;
    assert next == NextOf(nodes, 0);
    while elem != null
      invariant 0 <= i <= |nodes| && elem == (if i < |nodes| then nodes[i] else null) && next == NextOf(nodes, i)
      invariant heap.live == live - NodeSet(nodes[..i]) && heap.freeCount == frees + i
      invariant cleaner != null ==> cleaner.calls == was + if i <= |items| then items[..i] else items
      decreases |nodes| - i
    {
      StillHeld(nodes, live, i);
      CleanAndFree(heap, elem, cleaner);
      elem := next;
      if next != null {
        assert next.next == NextOf(nodes, i + 1);
        next := next.Next(heap);
      }
      i := i + 1;
    }
    assert nodes[..i] == nodes;
  }

  lemma NoneFreed<T>(nodes: seq<Node<T>>, live: set<object>)
    ensures live == live - NodeSet(nodes[..0])
  {
  }

  /** What is not freed yet is held, and freeing node i leaves the nodes behind it. */
  lemma StillHeld<T>(nodes: seq<Node<T>>, live: set<object>, i: nat)
    requires i < |nodes| && Distinct(nodes) && forall n <- nodes :: n in live
    ensures forall j :: i <= j < |nodes| ==> nodes[j] in live - NodeSet(nodes[..i])
    ensures live - NodeSet(nodes[..i]) - {nodes[i]} == live - NodeSet(nodes[..i + 1])
    ensures forall j :: i < j < |nodes| ==> nodes[j] in live - NodeSet(nodes[..i + 1])
  {
    assert nodes[..i + 1] == nodes[..i] + [nodes[i]];
  }

  /** Calls back once for every node in list order: with its data, or once with nothing for an empty list. */
  method ListEnumerate<T>(heap: Heap, list: List<T>, callback: Callback?<T>)
    requires list.Valid(heap)
    modifies if callback == null then {} else {callback}
    ensures callback != null && list.model.Queue? ==>
              callback.calls
              == old(callback.calls) + if list.model.items == [] then [Null] else Pointers(list.model.items)
    ensures callback != null && list.model.Gone? ==> callback.calls == old(callback.calls)
  {
    hide List.Valid, Distinct, Pointers;
    Walk(heap, list);
    if list.head == null {
      return;
    }
    if callback == null {
      return;
    }
    ghost var nodes := list.nodes;
    ghost var all := if list.model.items == [] then [Null] else Pointers(list.model.items);
    var elem := list.head;
    var next := list.head.Next(heap);
    ghost var i := 0;
    assert next == NextOf(nodes, 0);
    while elem != null
      invariant 0 <= i <= |nodes| && elem == (if i < |nodes| then nodes[i] else null) && next == NextOf(nodes, i)
      invariant callback.calls == old(callback.calls) + all[..i]
      decreases |nodes| - i
    {
      callback.Call(elem.Data(heap));
      elem := next;
      if next != null {
        assert next.next == NextOf(nodes, i + 1);
        next := next.Next(heap);
      }
      i := i + 1;
    }
    assert all[..i] == all;
  }

  // ---------------------------------------------------------------- runs

  datatype Op<T> = Push(data: T, granted: bool) | Pop

  function Step<T>(q: Queue<T>, op: Op<T>): Queue<T> {
    match op
    case Push(data, granted) => Pushed(q, data, granted)
    case Pop => Popped(q)
  }

  function Run<T>(q: Queue<T>, ops: seq<Op<T>>): Queue<T>
    decreases |ops|
  {
    if ops == [] then q else Run(Step(q, ops[0]), ops[1..])
  }

  /** What the pops of a run return, in order; popping an empty or a gone list returns nothing. */
  function Outputs<T>(q: Queue<T>, ops: seq<Op<T>>): seq<T>
    decreases |ops|
  {
    if ops == [] then [] else Output(q, ops[0]) + Outputs(Step(q, ops[0]), ops[1..])
  }

  /** The pushes of a run that had an effect. */
  function Accepted<T>(q: Queue<T>, ops: seq<Op<T>>): seq<T>
    decreases |ops|
  {
    if ops == [] then [] else Input(q, ops[0]) + Accepted(Step(q, ops[0]), ops[1..])
  }

  function Waiting<T>(q: Queue<T>): seq<T> {
    if q.Gone? then [] else q.items
  }

  /** First in, first out: over any run, what came out and what still waits is what was there and what went in. */
  lemma {:induction false} Fifo<T>(q: Queue<T>, ops: seq<Op<T>>)
    ensures Outputs(q, ops) + Waiting(Run(q, ops)) == Waiting(q) + Accepted(q, ops)
    decreases |ops|
  {
    if ops != [] {
      var next := Step(q, ops[0]);
      Fifo(next, ops[1..]);
      FifoStep(q, ops[0], Outputs(next, ops[1..]), Accepted(next, ops[1..]), Waiting(Run(q, ops)));
    }
  }

  /** What the first operation of a run puts out. */
  function Output<T>(q: Queue<T>, op: Op<T>): seq<T> {
    if op.Pop? && q.Queue? && q.items != [] then [q.items[0]] else []
  }

  /** What the first operation of a run takes in. */
  function Input<T>(q: Queue<T>, op: Op<T>): seq<T> {
    if op.Push? && q.Queue? && (q.items == [] || op.granted) then [op.data] else []
  }

  lemma FifoStep<T>(q: Queue<T>, op: Op<T>, out: seq<T>, accepted: seq<T>, end: seq<T>)
    requires out + end == Waiting(Step(q, op)) + accepted
    ensures (Output(q, op) + out) + end == Waiting(q) + (Input(q, op) + accepted)
  {
    var next := Waiting(Step(q, op));
    assert Output(q, op) + next == Waiting(q) + Input(q, op);
    Regroup(Output(q, op), out, end);
    Regroup(Output(q, op), next, accepted);
    Regroup(Waiting(q), Input(q, op), accepted);
  }

  lemma Regroup<T>(a: seq<T>, b: seq<T>, c: seq<T>)
    ensures (a + b) + c == a + (b + c)
  {
  }

  /** A list that is gone stays gone, and nothing pushed on it ever comes out. */
  lemma {:induction false} GoneForGood<T>(ops: seq<Op<T>>)
    ensures Run(Gone, ops) == Gone && Outputs(Gone, ops) == [] && Accepted(Gone, ops) == []
    decreases |ops|
  {
    if ops != [] {
      GoneForGood(ops[1..]);
    }
  }

  function AllPushes<T>(ops: seq<Op<T>>): seq<T> {
    if ops == [] then [] else (if ops[0].Push? then [ops[0].data] else []) + AllPushes(ops[1..])
  }

  /** A run on a list of n items takes the last item (or pops an empty list) and pushes again later. */
  predicate PushesAfterDraining<T>(n: nat, ops: seq<Op<T>>)
    decreases |ops|
  {
    && ops != []
    && if ops[0].Push? then PushesAfterDraining(n + 1, ops[1..])
       else if n <= 1 then AllPushes(ops[1..]) != []
       else PushesAfterDraining(n - 1, ops[1..])
  }

  /** With memory for every push, a push is lost exactly if it comes after the list was drained. */
  lemma {:induction false} NothingLostIff<T>(q: Queue<T>, ops: seq<Op<T>>)
    requires q.Queue? && forall i :: 0 <= i < |ops| && ops[i].Push? ==> ops[i].granted
    ensures |Accepted(q, ops)| <= |AllPushes(ops)|
    ensures Accepted(q, ops) == AllPushes(ops) <==> !PushesAfterDraining(|q.items|, ops)
    decreases |ops|
  {
    if ops != [] {
      var next := Step(q, ops[0]);
      if next.Gone? {
        GoneForGood(ops[1..]);
      } else {
        NothingLostIff(next, ops[1..]);
        if ops[0].Push? {
          assert Accepted(q, ops)[1..] == Accepted(next, ops[1..]) && AllPushes(ops)[1..] == AllPushes(ops[1..]);
        } else {
          assert Accepted(q, ops) == Accepted(next, ops[1..]) && AllPushes(ops) == AllPushes(ops[1..]);
        }
      }
    }
  }

  /** A push asks for memory only if the list has data already. */
  predicate Asks<T>(q: Queue<T>, op: Op<T>) {
    op.Push? && q.Queue? && q.items != []
  }

  /** The flags in a run are what the heap answers when its next request is number n. */
  predicate Answered<T>(q: Queue<T>, ops: seq<Op<T>>, grants: nat -> bool, n: nat)
    decreases |ops|
  {
    ops == [] || (
      && (Asks(q, ops[0]) ==> ops[0].granted == grants(n))
      && Answered(Step(q, ops[0]), ops[1..], grants, if Asks(q, ops[0]) then n + 1 else n))
  }

  /** A run on the nodes themselves: the list is what the pure run makes of it, and nothing is lost or reordered. */
  method RunOps<T>(heap: Heap, list: List<T>, ops: seq<Op<T>>) returns (out: seq<T>)
    requires list.Valid(heap) && Answered(list.model, ops, heap.grants, heap.mallocCount)
    modifies heap, list, list.nodes
    ensures list.Valid(heap) && list.model == Run(old(list.model), ops) && out == Outputs(old(list.model), ops)
    ensures out + Waiting(list.model) == Waiting(old(list.model)) + Accepted(old(list.model), ops)
    ensures list.Others(heap) == old(list.Others(heap))
  {
    hide List.Valid, NodeSet, Run, Outputs, Answered, Pushed, Popped, Front;
    ghost var was, nodes := list.model, list.nodes;
    out := [];
    var i := 0;
    assert ops[0..] == ops;
    while i < |ops|
      invariant 0 <= i <= |ops| && list.Valid(heap) && Answered(list.model, ops[i..], heap.grants, heap.mallocCount)
      invariant Run(was, ops) == Run(list.model, ops[i..])
      invariant Outputs(was, ops) == out + Outputs(list.model, ops[i..])
      invariant forall k :: 0 <= k < |list.nodes| ==> list.nodes[k] in nodes || fresh(list.nodes[k])
      invariant list.Others(heap) == old(list.Others(heap))
    {
      RunCons(list.model, ops[i..], heap.grants, heap.mallocCount);
      assert ops[i..][1..] == ops[i + 1..];
      Regroup(out, Output(list.model, ops[i]), Outputs(Step(list.model, ops[i]), ops[i + 1..]));
      var more := RunOp(heap, list, ops[i]);
      out := out + more;
      i := i + 1;
    }
    assert ops[i..] == [];
    RunEnd(list.model);
    Fifo(was, ops);
  }

  method RunOp<T>(heap: Heap, list: List<T>, op: Op<T>) returns (out: seq<T>)
    requires list.Valid(heap) && (Asks(list.model, op) ==> op.granted == heap.grants(heap.mallocCount))
    modifies heap, list, list.nodes
    ensures list.Valid(heap) && list.model == Step(old(list.model), op) && out == Output(old(list.model), op)
    ensures heap.mallocCount == old(heap.mallocCount) + if Asks(old(list.model), op) then 1 else 0
    ensures forall k :: 0 <= k < |list.nodes| ==> list.nodes[k] in old(list.nodes) || fresh(list.nodes[k])
    ensures list.Others(heap) == old(list.Others(heap))
  {
    hide IsLinked, Carries, NodeSet;
    match op
    case Push(data, _) =>
      ListPush(heap, list, data);
      assert list.nodes == old(list.nodes) + list.nodes[|old(list.nodes)|..];
      out := [];
    case Pop =>
      var data := ListPop(heap, list);
      out := if data == Null then [] else [data.target];
  }

  lemma RunCons<T>(q: Queue<T>, ops: seq<Op<T>>, grants: nat -> bool, n: nat)
    requires ops != [] && Answered(q, ops, grants, n)
    ensures Run(q, ops) == Run(Step(q, ops[0]), ops[1..])
    ensures Outputs(q, ops) == Output(q, ops[0]) + Outputs(Step(q, ops[0]), ops[1..])
    ensures Asks(q, ops[0]) ==> ops[0].granted == grants(n)
    ensures Answered(Step(q, ops[0]), ops[1..], grants, if Asks(q, ops[0]) then n + 1 else n)
  {
  }

  lemma RunEnd<T>(q: Queue<T>)
    ensures Run(q, []) == q && Outputs(q, []) == []
  {
  }
}
