/** The kernel debugger's wire protocol: length-prefixed packets over a serial line, requests in, responses out. */
module DebugCom {
  import opened KernelTypes
  import opened KernelHeap
  import Stdlib

  /** COM2: what the peer has sent and the kernel has not read, and what the kernel has sent. */
  class SerialLine {
    var rx: seq<u8>
    var tx: seq<u8>
  }

  class KeDebugPacket {
    var size: u32
    var content: array?<u8>

    constructor ()
      ensures size == 0 && content == null
    {
      size, content := 0, null;
    }
  }

  class KeDebugRequest {
    var command: u32
    var paramSize: u32
    var param: array?<u8>
  }

  // ---------------------------------------------------------------- packets on the wire

  /** A packet's bytes: its size, then its content. */
  function Frame(content: seq<u8>): seq<u8>
    requires |content| < 0x1_0000_0000
  {
    Le32(|content|) + content
  }

  predicate Sendable(packets: seq<seq<u8>>) {
    forall p <- packets :: 0 < |p| < 0x8000_0000
  }

  /** Any packet may be sent that is not empty and shorter than 2^31 bytes. */
  lemma SendableOne(packet: seq<u8>)
    ensures Sendable([packet]) <==> 1 <= |packet| <= 0x7FFF_FFFF
  {
    assert packet in [packet];
  }

  function Stream(packets: seq<seq<u8>>): seq<u8>
    requires Sendable(packets)
  {
    if packets == [] then []
    else
      assert packets[0] in packets;
      Frame(packets[0]) + Stream(packets[1..])
  }

  datatype Received = Received(status: KeStatus, content: seq<u8>, rest: seq<u8>)

  /** The line holds a whole packet. */
  predicate PacketWaits(rx: seq<u8>) {
    |rx| >= 4 && |rx| >= 4 + FromLe32(rx)
  }

  /** What receiving a packet yields, and what it leaves on the line, if memory is `granted`. */
  function Receive(rx: seq<u8>, granted: bool): Received
    requires PacketWaits(rx)
  {
    var size := FromLe32(rx);
    if size == 0 then Received(STATUS_SUCCESS, [], rx[4..])
    else if size < 0x8000_0000 && granted then Received(STATUS_SUCCESS, rx[4..4 + size], rx[4 + size..])
    else Received(STATUS_ALLOC_FAILED, [], rx[4..])
  }

  /** On the wire, byte by byte: four bytes of size, the lowest first, then the content. */
  lemma FrameBytes(content: seq<u8>)
    requires |content| < 0x1_0000_0000
    ensures var n := |content|;
            Frame(content) == [n % 0x100, n / 0x100 % 0x100, n / 0x1_0000 % 0x100, n / 0x100_0000] + content
  {
    hide Le32;
    Le32Of(|content|);
  }

  /** What a reception makes of the bytes on the line. */
  lemma ReceiveBytes(a: u8, b: u8, c: u8, d: u8, rest: seq<u8>, granted: bool)
    ensures var n := a as int + 0x100 * b as int + 0x1_0000 * c as int + 0x100_0000 * d as int;
            var rx := [a, b, c, d] + rest;
            && (PacketWaits(rx) <==> |rest| >= n)
            && (|rest| >= n ==>
                  Receive(rx, granted)
                  == if n == 0 then Received(STATUS_SUCCESS, [], rest)
                     else if n < 0x8000_0000 && granted then Received(STATUS_SUCCESS, rest[..n], rest[n..])
                     else Received(STATUS_ALLOC_FAILED, [], rest))
  {
    Le32Bytes(a, b, c, d, rest);
    hide FromLe32;
    var rx := [a, b, c, d] + rest;
    assert rx[4..] == rest;
    var n := FromLe32(rx);
    if |rest| >= n {
      assert rx[4..4 + n] == rest[..n] && rx[4 + n..] == rest[n..];
    }
  }

  /** Whether receiving the next packet asks for memory. */
  predicate Asks(rx: seq<u8>)
    requires |rx| >= 4
  {
    0 < FromLe32(rx) < 0x8000_0000
  }

  /** A number of receptions in a row: the contents they yield, and what they leave on the line. */
  datatype Batch = Batch(contents: seq<seq<u8>>, rest: seq<u8>)

  /** Receptions go on, failed ones included, as long as a whole packet waits; request n for memory is the next. */
  function ReceiveAll(rx: seq<u8>, count: nat, grants: nat -> bool, n: nat): Batch
    decreases count
  {
    if count == 0 || !PacketWaits(rx) then Batch([], rx)
    else
      var r := Receive(rx, grants(n));
      var more := ReceiveAll(r.rest, count - 1, grants, if Asks(rx) then n + 1 else n);
      Batch([r.content] + more.contents, more.rest)
  }

  /** A framed packet arrives, if there is memory; otherwise only its size is taken off the line. */
  lemma ReceiveFrame(content: seq<u8>, rest: seq<u8>, granted: bool)
    requires 0 < |content| < 0x8000_0000
    ensures PacketWaits(Frame(content) + rest) && Asks(Frame(content) + rest)
    ensures Receive(Frame(content) + rest, granted)
         == if granted then Received(STATUS_SUCCESS, content, rest)
            else Received(STATUS_ALLOC_FAILED, [], content + rest)
  {
    var rx := Frame(content) + rest;
    assert rx == Le32(|content|) + (content + rest);
    FromLe32Prefix(|content|, content + rest);
    assert rx[4..4 + |content|] == content && rx[4 + |content|..] == rest && rx[4..] == content + rest;
  }

  predicate GrantedUpTo(grants: nat -> bool, n: nat, count: nat) {
    forall i :: n <= i < n + count ==> grants(i)
  }

  /** One packet of a stream. */
  lemma StreamHead(packets: seq<seq<u8>>, trailing: seq<u8>, grants: nat -> bool, n: nat, count: nat)
    requires Sendable(packets) && packets != [] && count > 0
    ensures var rx, rest := Stream(packets) + trailing, Stream(packets[1..]) + trailing;
            var more := ReceiveAll(if grants(n) then rest else packets[0] + rest, count - 1, grants, n + 1);
            && PacketWaits(rx) && 0 < |packets[0]|
            && ReceiveAll(rx, count, grants, n)
               == Batch([if grants(n) then packets[0] else []] + more.contents, more.rest)
  {
    hide Receive, Asks, PacketWaits, Frame;
    assert packets[0] in packets;
    var rest := Stream(packets[1..]) + trailing;
    assert Stream(packets) + trailing == Frame(packets[0]) + rest;
    ReceiveFrame(packets[0], rest, grants(n));
  }

  /**
   Packets sent one after the other arrive as they were, with what follows them left
   on the line, exactly if there is memory for each of them.
   */
  lemma {:induction false} StreamRoundTripIff(packets: seq<seq<u8>>, trailing: seq<u8>, grants: nat -> bool, n: nat)
    requires Sendable(packets)
    ensures ReceiveAll(Stream(packets) + trailing, |packets|, grants, n) == Batch(packets, trailing)
       <==> GrantedUpTo(grants, n, |packets|)
    decreases |packets|
  {
    hide ReceiveAll, Stream, PacketWaits;
    if packets == [] {
      NoPackets(trailing, grants, n);
    } else {
      StreamHead(packets, trailing, grants, n, |packets|);
      if grants(n) {
        StreamRoundTripIff(packets[1..], trailing, grants, n + 1);
        var more := ReceiveAll(Stream(packets[1..]) + trailing, |packets| - 1, grants, n + 1);
        assert ([packets[0]] + more.contents)[1..] == more.contents;
        assert packets == [packets[0]] + packets[1..];
        assert GrantedUpTo(grants, n, |packets|) <==> GrantedUpTo(grants, n + 1, |packets| - 1);
      } else {
        assert !GrantedUpTo(grants, n, |packets|);
      }
    }
  }

  lemma ReceiveNone(rx: seq<u8>, grants: nat -> bool, n: nat)
    ensures ReceiveAll(rx, 0, grants, n) == Batch([], rx)
  {
  }

  lemma NoPackets(trailing: seq<u8>, grants: nat -> bool, n: nat)
    ensures Stream([]) + trailing == trailing && ReceiveAll(trailing, 0, grants, n) == Batch([], trailing)
  {
    var none: seq<seq<u8>> := [];
    assert Stream(none) == [];
  }

  /**
   The first packet without memory: those before it have arrived, its own content stays
   on the line in front of the next frame, and there it is taken for frames.
   */
  lemma {:induction false} FirstFailure(packets: seq<seq<u8>>, trailing: seq<u8>, grants: nat -> bool, n: nat, k: nat)
    requires Sendable(packets) && k < |packets| && GrantedUpTo(grants, n, k) && !grants(n + k)
    ensures Sendable(packets[k + 1..])
    ensures ReceiveAll(Stream(packets) + trailing, k + 1, grants, n)
         == Batch(packets[..k] + [[]], packets[k] + (Stream(packets[k + 1..]) + trailing))
    decreases k
  {
    hide Stream, PacketWaits, ReceiveAll, GrantedUpTo, Sendable;
    StreamHead(packets, trailing, grants, n, k + 1);
    if k > 0 {
      GrantedStep(grants, n, k);
    }
    SendableFrom(packets, 1);
    SendableFrom(packets, k + 1);
    if k == 0 {
      ReceiveNone(packets[0] + (Stream(packets[1..]) + trailing), grants, n + 1);
      assert packets[..0] == [];
    } else {
      FirstFailure(packets[1..], trailing, grants, n + 1, k - 1);
      TakeTail(packets, k);
    }
  }

  lemma GrantedStep(grants: nat -> bool, n: nat, k: nat)
    requires GrantedUpTo(grants, n, k) && k > 0
    ensures grants(n) && GrantedUpTo(grants, n + 1, k - 1)
  {
  }

  lemma SendableFrom(packets: seq<seq<u8>>, k: nat)
    requires Sendable(packets) && k <= |packets|
    ensures Sendable(packets[k..])
  {
  }

  lemma TakeTail(packets: seq<seq<u8>>, k: nat)
    requires 0 < k < |packets|
    ensures packets[1..][k - 1] == packets[k] && packets[1..][k..] == packets[k + 1..]
    ensures [packets[0]] + (packets[1..][..k - 1] + [[]]) == packets[..k] + [[]]
  {
  }

  // ---------------------------------------------------------------- bytes

  method ReadByte(line: SerialLine) returns (b: u8)
    requires line.rx != []
    modifies line`rx
    ensures b == old(line.rx)[0] && line.rx == old(line.rx)[1..]
  {
    b := line.rx[0];
    line.rx := line.rx[1..];
  }

  method ReadBytes(line: SerialLine, buffer: array?<u8>, size: nat)
    requires buffer != null ==> size <= buffer.Length && size <= |line.rx|
    modifies line`rx, if buffer == null then {} else {buffer}
    ensures buffer == null ==> line.rx == old(line.rx)
    ensures buffer != null ==> line.rx == old(line.rx)[size..] && buffer[..size] == old(line.rx)[..size]
    ensures buffer != null ==> buffer[size..] == old(buffer[size..])
  {
    if buffer == null {
      return;
    }
    var i := 0;
    while i < size
      invariant 0 <= i <= size && line.rx == old(line.rx)[i..]
      invariant buffer[..i] == old(line.rx)[..i]
      invariant buffer[size..] == old(buffer[size..])
    {
      buffer[i] := ReadByte(line);
      i := i + 1;
    }
  }

  method WriteBytes(line: SerialLine, buffer: array<u8>, size: nat)
    requires size <= buffer.Length
    modifies line`tx
    ensures line.tx == old(line.tx) + buffer[..size]
  {
    var i := 0;
    while i < size
      invariant 0 <= i <= size && line.tx == old(line.tx) + buffer[..i]
    {
      line.tx := line.tx + [buffer[i]];
      i := i + 1;
    }
  }

  // ---------------------------------------------------------------- packets

  /** The four bytes of an `unsigned int`, read in place. */
  method ReadSize(line: SerialLine) returns (size: u32)
    requires |line.rx| >= 4
    modifies line`rx
    ensures size == FromLe32(old(line.rx)) && line.rx == old(line.rx)[4..]
  {
    hide Le32, FromLe32;
    var header := new u8[4];
    ReadBytes(line, header, 4);
    assert header[..] == header[..4] == old(line.rx)[..4];
    FromLe32Take(old(line.rx));
    size := FromLe32(header[..]);
  }

  /** A buffer for the content of a packet, filled from the line; without memory nothing is read. */
  method ReadContent(line: SerialLine, heap: Heap, size: u32) returns (content: array?<u8>)
    requires 0 < size <= |line.rx|
    modifies line`rx, heap`live, heap`mallocCount
    ensures content != null <==> size < 0x8000_0000 && heap.grants(old(heap.mallocCount))
    ensures heap.mallocCount == old(heap.mallocCount) + if size < 0x8000_0000 then 1 else 0
    ensures content == null ==> line.rx == old(line.rx) && heap.live == old(heap.live)
    ensures content != null ==> fresh(content) && heap.live == old(heap.live) + {content}
    ensures content != null ==> content[..] == old(line.rx)[..size] && line.rx == old(line.rx)[size..]
  {
    content := heap.AllocBytes(ToInt32(size));
    if content != null {
      ReadBytes(line, content, size);
      assert content[..] == content[..size];
    }
  }

  method RecvPacket(line: SerialLine, heap: Heap, packet: KeDebugPacket?) returns (status: KeStatus)
    requires PacketWaits(line.rx)
    modifies line`rx, heap`live, heap`mallocCount, if packet == null then {} else {packet}
    ensures packet == null ==> status == STATUS_NULL_PARAMETER && line.rx == old(line.rx) && heap.live == old(heap.live)
    ensures packet != null ==>
              var r := Receive(old(line.rx), heap.grants(old(heap.mallocCount)));
              && status == r.status && line.rx == r.rest && packet.size == |r.content|
              && (|r.content| == 0 && status == STATUS_SUCCESS ==> packet.content == old(packet.content))
              && (|r.content| == 0 ==> heap.live == old(heap.live))
              && (status == STATUS_ALLOC_FAILED ==> packet.content == null)
              && (|r.content| > 0 ==> packet.content != null && fresh(packet.content)
                                      && packet.content[..] == r.content
                                      && heap.live == old(heap.live) + {packet.content})
    ensures packet != null ==>
              heap.mallocCount == old(heap.mallocCount) + if Asks(old(line.rx)) then 1 else 0
  {
    if packet == null {
      return STATUS_NULL_PARAMETER;
    }
    hide Le32, FromLe32;
    packet.size := ReadSize(line);
    if packet.size == 0 {
      return STATUS_SUCCESS;
    }
    SliceOfRest(old(line.rx), packet.size);
    packet.content := ReadContent(line, heap, packet.size);
    if packet.content == null {
      packet.size := 0;
      return STATUS_ALLOC_FAILED;
    }
    return STATUS_SUCCESS;
  }

  lemma SliceOfRest(rx: seq<u8>, size: nat)
    requires 4 + size <= |rx|
    ensures rx[4..][..size] == rx[4..4 + size] && rx[4..][size..] == rx[4 + size..]
  {
  }

  /** The four bytes of an `unsigned int`, sent from where they lie in memory. */
  method WriteSize(line: SerialLine, size: u32)
    modifies line`tx
    ensures line.tx == old(line.tx) + Le32(size)
  {
    hide Le32;
    var bytes := Le32(size);
    var header := new u8[4](i requires 0 <= i < 4 => bytes[i]);
    assert header[..] == header[..4] == bytes;
    WriteBytes(line, header, 4);
  }

  method SendPacket(line: SerialLine, packet: KeDebugPacket?) returns (status: KeStatus)
    requires packet != null && packet.content != null ==> packet.size <= packet.content.Length
    modifies line`tx
    ensures status == if packet == null then STATUS_NULL_PARAMETER
                      else if packet.content == null || packet.size == 0 then STATUS_INVALID_PARAMETER
                      else STATUS_SUCCESS
    ensures line.tx == old(line.tx) + if status == STATUS_SUCCESS then Frame(packet.content[..packet.size]) else []
  {
    if packet == null {
      return STATUS_NULL_PARAMETER;
    }
    if packet.content == null {
      return STATUS_INVALID_PARAMETER;
    }
    if packet.size == 0 {
      return STATUS_INVALID_PARAMETER;
    }
    hide Le32;
    ghost var sent, size, content := line.tx, Le32(packet.size), packet.content[..packet.size];
    WriteSize(line, packet.size);
    WriteBytes(line, packet.content, packet.size);
    assert (sent + size) + content == sent + (size + content);
    return STATUS_SUCCESS;
  }

  method CleanupPacket(heap: Heap, packet: KeDebugPacket?)
    requires packet != null && packet.content != null ==> packet.content in heap.live
    modifies heap`live, heap`freeCount, if packet == null then {} else {packet}
    ensures packet != null ==> packet.content == null && packet.size == old(packet.size)
    ensures heap.live
         == old(heap.live) - if packet != null && old(packet.content) != null then {old(packet.content)} else {}
  {
    if packet == null {
      return;
    }
    if packet.content != null {
      heap.Free(packet.content);
      packet.content := null;
    }
  }

  // ---------------------------------------------------------------- runs of packets

  lemma StreamCons(packets: seq<seq<u8>>)
    requires Sendable(packets) && packets != []
    ensures 0 < |packets[0]| < 0x8000_0000 && Sendable(packets[1..])
    ensures Stream(packets) == Frame(packets[0]) + Stream(packets[1..])
  {
    assert packets[0] in packets && forall p <- packets[1..] :: p in packets;
  }

  lemma StreamNone(packets: seq<seq<u8>>)
    requires packets == []
    ensures Sendable(packets) && Stream(packets) == []
  {
  }

  lemma {:induction false} StreamSnoc(packets: seq<seq<u8>>, content: seq<u8>)
    requires Sendable(packets + [content])
    ensures 0 < |content| < 0x8000_0000 && Sendable(packets)
    ensures Stream(packets + [content]) == Stream(packets) + Frame(content)
    decreases |packets|
  {
    hide Frame, Stream, Sendable;
    var all := packets + [content];
    SendableTake(all, |packets|);
    assert all[..|packets|] == packets;
    StreamCons(all);
    if packets == [] {
      assert all[1..] == [];
      StreamNone(all[1..]);
      StreamNone(packets);
      assert [] + Frame(content) == Frame(content) == Frame(content) + [];
    } else {
      assert all[1..] == packets[1..] + [content];
      StreamSnoc(packets[1..], content);
      StreamCons(packets);
      var head, tail := Frame(packets[0]), Stream(packets[1..]);
      assert head + (tail + Frame(content)) == (head + tail) + Frame(content);
    }
  }

  /** The packet has this content. */
  ghost predicate Holds(packet: KeDebugPacket, content: seq<u8>)
    reads packet, packet.content
  {
    packet.content != null && packet.size <= packet.content.Length && packet.content[..packet.size] == content
  }

  /** Sends packets one after the other: the line carries their stream. */
  method SendPackets(line: SerialLine, packets: seq<KeDebugPacket>, ghost contents: seq<seq<u8>>)
    requires Sendable(contents) && |packets| == |contents|
    requires forall i :: 0 <= i < |packets| ==> Holds(packets[i], contents[i])
    modifies line`tx
    ensures line.tx == old(line.tx) + Stream(contents)
  {
    hide Stream, Frame, Sendable;
    ghost var sent := line.tx;
    var i := 0;
    SendableTake(contents, 0);
    StreamNone(contents[..0]);
    while i < |packets|
      invariant 0 <= i <= |packets| && Sendable(contents[..i])
      invariant line.tx == sent + Stream(contents[..i])
    {
      SendableTake(contents, i + 1);
      assert contents[..i + 1] == contents[..i] + [contents[i]];
      StreamSnoc(contents[..i], contents[i]);
      SendableAt(contents, i);
      var status := SendPacket(line, packets[i]);
      assert (sent + Stream(contents[..i])) + Frame(contents[i]) == sent + (Stream(contents[..i]) + Frame(contents[i]));
      i := i + 1;
    }
    assert contents[..i] == contents;
  }

  lemma SendableTake(packets: seq<seq<u8>>, k: nat)
    requires Sendable(packets) && k <= |packets|
    ensures Sendable(packets[..k])
  {
  }

  lemma SendableAt(packets: seq<seq<u8>>, k: nat)
    requires Sendable(packets) && k < |packets|
    ensures 0 < |packets[k]| < 0x8000_0000
  {
  }

  /** Receives one framed packet into a new object, or nothing if there is no memory for its content. */
  method RecvFrame(line: SerialLine, heap: Heap, ghost content: seq<u8>, ghost rest: seq<u8>)
    returns (packet: KeDebugPacket?)
    requires 0 < |content| < 0x8000_0000 && line.rx == Frame(content) + rest
    modifies line`rx, heap`live, heap`mallocCount
    ensures heap.mallocCount == old(heap.mallocCount) + 1
    ensures packet != null <==> heap.grants(old(heap.mallocCount))
    ensures packet != null ==> fresh(packet) && fresh(packet.content) && Holds(packet, content) && line.rx == rest
    ensures packet == null ==> line.rx == content + rest
  {
    hide Frame, Receive, PacketWaits, Asks;
    ReceiveFrame(content, rest, heap.grants(heap.mallocCount));
    packet := new KeDebugPacket();
    var status := RecvPacket(line, heap, packet);
    if status != STATUS_SUCCESS {
      return null;
    }
    assert packet.content[..packet.size] == packet.content[..];
  }

  /**
   Receives packets one after the other until one is refused.  Those before it have
   their contents; all are received exactly if every request for memory is granted.
   */
  method RecvPackets(line: SerialLine, heap: Heap, count: nat, ghost contents: seq<seq<u8>>, ghost trailing: seq<u8>)
    returns (received: seq<KeDebugPacket>)
    requires Sendable(contents) && count == |contents| && line.rx == Stream(contents) + trailing
    modifies line`rx, heap`live, heap`mallocCount
    ensures |received| <= count && forall i :: 0 <= i < |received| ==> Holds(received[i], contents[i])
    ensures |received| == count <==> GrantedUpTo(heap.grants, old(heap.mallocCount), count)
    ensures |received| == count ==> line.rx == trailing
    ensures |received| < count ==>
              var k := |received|;
              Sendable(contents[k + 1..]) && line.rx == contents[k] + (Stream(contents[k + 1..]) + trailing)
  {
    hide Stream, Frame, Sendable, Receive, PacketWaits, Asks;
    ghost var n := heap.mallocCount;
    received := [];
    assert contents[0..] == contents;
    while |received| < count
      invariant |received| <= count && heap.mallocCount == n + |received| && Sendable(contents[|received|..])
      invariant line.rx == Stream(contents[|received|..]) + trailing
      invariant forall i :: 0 <= i < |received| ==> Holds(received[i], contents[i]) && fresh(received[i])
      invariant GrantedUpTo(heap.grants, n, |received|)
      decreases count - |received|
    {
      ghost var k := |received|;
      StreamFirst(contents[k..], trailing);
      assert contents[k..][1..] == contents[k + 1..] && contents[k..][0] == contents[k];
      var packet := RecvFrame(line, heap, contents[k], Stream(contents[k + 1..]) + trailing);
      if packet == null {
        return;
      }
      received := received + [packet];
    }
    StreamNone(contents[count..]);
    assert [] + trailing == trailing;
  }

  lemma StreamFirst(packets: seq<seq<u8>>, trailing: seq<u8>)
    requires Sendable(packets) && packets != []
    ensures 0 < |packets[0]| < 0x8000_0000 && Sendable(packets[1..])
    ensures Stream(packets) + trailing == Frame(packets[0]) + (Stream(packets[1..]) + trailing)
  {
    hide Stream, Frame;
    StreamCons(packets);
    var head, tail := Frame(packets[0]), Stream(packets[1..]);
    assert (head + tail) + trailing == head + (tail + trailing);
  }

  /** What one side sends, the other receives: every packet in order, exactly if there is memory for each. */
  method Transmit(sender: SerialLine, receiver: SerialLine, heap: Heap, packets: seq<KeDebugPacket>,
                  ghost contents: seq<seq<u8>>)
    returns (received: seq<KeDebugPacket>)
    requires sender != receiver && sender.tx == [] && receiver.rx == []
    requires Sendable(contents) && |packets| == |contents|
    requires forall i :: 0 <= i < |packets| ==> Holds(packets[i], contents[i])
    modifies sender`tx, receiver`rx, heap`live, heap`mallocCount
    ensures |received| <= |packets| && forall i :: 0 <= i < |received| ==> Holds(received[i], contents[i])
    ensures |received| == |packets| <==> GrantedUpTo(heap.grants, old(heap.mallocCount), |packets|)
    ensures |received| == |packets| ==> receiver.rx == []
  {
    hide Stream, Sendable;
    SendPackets(sender, packets, contents);
    assert [] + Stream(contents) == Stream(contents) == Stream(contents) + [];
    sender.tx, receiver.rx := [], sender.tx;
    received := RecvPackets(receiver, heap, |packets|, contents, []);
  }

  // ---------------------------------------------------------------- requests

  /** A request on the wire: command, size of the parameter, then the parameter itself. */
  function RequestBytes(command: u32, param: seq<u8>): seq<u8>
    requires |param| < 0x1_0000_0000
  {
    Le32(command) + Le32(|param|) + param
  }

  /** The content holds a command, a parameter size and at least that many bytes behind them. */
  predicate IsRequest(content: seq<u8>) {
    |content| >= 8 && |content| >= 8 + FromLe32(content[4..])
  }

  lemma RequestRoundTrip(command: u32, param: seq<u8>)
    requires |param| < 0x1_0000_0000
    ensures var content := RequestBytes(command, param);
            && IsRequest(content) && FromLe32(content) == command && FromLe32(content[4..]) == |param|
            && content[8..8 + |param|] == param
  {
    hide Le32, FromLe32;
    var content := RequestBytes(command, param);
    assert content == Le32(command) + (Le32(|param|) + param);
    FromLe32Prefix(command, Le32(|param|) + param);
    assert content[4..] == Le32(|param|) + param;
    assert content[8..] == content[4..][4..] == param;
    FromLe32Prefix(|param|, param);
  }

  /** A buffer for the parameter, filled from the packet. */
  method CopyParam(heap: Heap, request: KeDebugRequest, content: array<u8>) returns (copied: bool)
    requires 0 < request.paramSize && 8 + request.paramSize <= content.Length < 0x8000_0000
    modifies heap`live, heap`mallocCount, request`param
    ensures copied <==> heap.grants(old(heap.mallocCount))
    ensures !copied ==> request.param == null && heap.live == old(heap.live)
    ensures copied ==> request.param != null && fresh(request.param) && heap.live == old(heap.live) + {request.param}
                       && request.param[..] == content[8..8 + request.paramSize]
  {
    request.param := heap.AllocBytes(ToInt32(request.paramSize));
    if request.param == null {
      return false;
    }
    Stdlib.MmCopy(content, 8, request.param, 0, request.paramSize);
    assert request.param[..] == request.param[0..0 + request.paramSize];
    return true;
  }

  method RecvRequest(line: SerialLine, heap: Heap, request: KeDebugRequest) returns (status: KeStatus)
    requires PacketWaits(line.rx)
    requires 0 < FromLe32(line.rx) ==> IsRequest(line.rx[4..4 + FromLe32(line.rx)])
    modifies line`rx, heap, request
    ensures var r := Receive(old(line.rx), heap.grants(old(heap.mallocCount)));
            line.rx == r.rest
            && if r.status != STATUS_SUCCESS || r.content == [] then
                 status == r.status && heap.live == old(heap.live) && request.command == old(request.command)
                 && request.paramSize == old(request.paramSize) && request.param == old(request.param)
               else
                 request.command == FromLe32(r.content) && request.paramSize == FromLe32(r.content[4..])
                 && if request.paramSize == 0 then
                      status == STATUS_SUCCESS && heap.live == old(heap.live) && request.param == old(request.param)
                    else if heap.grants(old(heap.mallocCount) + 1) then
                      status == STATUS_SUCCESS && request.param != null && fresh(request.param)
                      && heap.live == old(heap.live) + {request.param}
                      && request.param[..] == r.content[8..8 + request.paramSize]
                    else
                      // the packet's buffer is lost
                      status == STATUS_ALLOC_FAILED && request.param == null
                      && old(heap.live) < heap.live && fresh(heap.live - old(heap.live))
  {
    hide Le32, FromLe32;
    var packet := new KeDebugPacket();
    status := RecvPacket(line, heap, packet);
    if status != STATUS_SUCCESS {
      return;
    }
    if packet.size == 0 || packet.content == null {
      return STATUS_SUCCESS;
    }
    var content := packet.content;
    request.command := FromLe32(content[..]);
    request.paramSize := FromLe32(content[4..]);
    if request.paramSize > 0 {
      var copied := CopyParam(heap, request, content);
      if !copied {
        return STATUS_ALLOC_FAILED;
      }
    }
    CleanupPacket(heap, packet);
    return STATUS_SUCCESS;
  }

  // ---------------------------------------------------------------- responses

  /** `KeDebugResponseHeader`: 17 saved registers, cs with the two bytes of padding behind it, eflags. */
  datatype Header = Header(command: u32, status: u32, registers: seq<u32>, cs: u16, padding: u16, eflags: u32,
                           dataSize: u32)

  predicate ValidHeader(h: Header) {
    |h.registers| == 17
  }

  function RegisterBytes(registers: seq<u32>): (bytes: seq<u8>)
    ensures |bytes| == 4 * |registers|
  {
    if registers == [] then [] else Le32(registers[0]) + RegisterBytes(registers[1..])
  }

  function HeaderBytes(h: Header): (bytes: seq<u8>)
    requires ValidHeader(h)
    ensures |bytes| == 88
  {
    Le32(h.command) + (Le32(h.status) + (RegisterBytes(h.registers)
    + (Le32(h.cs as int + 0x1_0000 * h.padding as int) + (Le32(h.eflags) + Le32(h.dataSize)))))
  }

  function ReadRegisters(bytes: seq<u8>, count: nat): (registers: seq<u32>)
    requires |bytes| >= 4 * count
    ensures |registers| == count
    decreases count
  {
    if count == 0 then [] else [FromLe32(bytes)] + ReadRegisters(bytes[4..], count - 1)
  }

  /** The peer's reading of a response header. */
  function DecodeHeader(bytes: seq<u8>): Header
    requires |bytes| >= 88
  {
    Header(FromLe32(bytes), FromLe32(bytes[4..]), ReadRegisters(bytes[8..], 17),
           FromLe32(bytes[76..]) % 0x1_0000, FromLe32(bytes[76..]) / 0x1_0000,
           FromLe32(bytes[80..]), FromLe32(bytes[84..]))
  }

  lemma {:induction false} RegistersRoundTrip(registers: seq<u32>, rest: seq<u8>)
    ensures ReadRegisters(RegisterBytes(registers) + rest, |registers|) == registers
    decreases |registers|
  {
    if registers != [] {
      var tail := RegisterBytes(registers[1..]) + rest;
      assert RegisterBytes(registers) + rest == Le32(registers[0]) + tail;
      FromLe32Prefix(registers[0], tail);
      assert (Le32(registers[0]) + tail)[4..] == tail;
      RegistersRoundTrip(registers[1..], rest);
    }
  }

  lemma Tail4(x: u32, rest: seq<u8>)
    ensures FromLe32(Le32(x) + rest) == x && (Le32(x) + rest)[4..] == rest
  {
    FromLe32Prefix(x, rest);
  }

  /** The header at the front of a response is read back field by field, padding included. */
  lemma HeaderRoundTrip(h: Header, data: seq<u8>)
    requires ValidHeader(h)
    ensures DecodeHeader(HeaderBytes(h) + data) == h
  {
    hide Le32, FromLe32, ReadRegisters, RegisterBytes;
    var e := Le32(h.dataSize) + data;
    var d := Le32(h.eflags) + e;
    var csWord := h.cs as int + 0x1_0000 * h.padding as int;
    var c := Le32(csWord) + d;
    var b := RegisterBytes(h.registers) + c;
    var a := Le32(h.status) + b;
    var bytes := HeaderBytes(h) + data;
    assert bytes == Le32(h.command) + a;
    Tail4(h.command, a);
    Tail4(h.status, b);
    assert bytes[4..] == a && bytes[8..] == a[4..] == b;
    RegistersRoundTrip(h.registers, c);
    assert bytes[76..] == b[68..] == c;
    Tail4(csWord, d);
    assert bytes[80..] == c[4..] == d;
    Tail4(h.eflags, e);
    assert bytes[84..] == d[4..] == e;
    Tail4(h.dataSize, data);
  }

  /** Where the fields of a header lie among its 88 bytes. */
  lemma HeaderPlaces(h: Header)
    requires ValidHeader(h)
    ensures var bytes := HeaderBytes(h);
            && FromLe32(bytes[0..4]) == h.command && FromLe32(bytes[4..8]) == h.status
            && (forall i :: 0 <= i < 17 ==> FromLe32(bytes[8 + 4 * i..12 + 4 * i]) == h.registers[i])
            && bytes[76] as int + 0x100 * bytes[77] as int == h.cs
            && FromLe32(bytes[80..84]) == h.eflags && FromLe32(bytes[84..88]) == h.dataSize
  {
    hide Le32, FromLe32, RegisterBytes, HeaderBytes;
    var csWord := h.cs as int + 0x1_0000 * h.padding as int;
    var bytes, registers := HeaderBytes(h), RegisterBytes(h.registers);
    HeaderSlices(h);
    Le32RoundTrip(h.command);
    Le32RoundTrip(h.status);
    Le32RoundTrip(h.eflags);
    Le32RoundTrip(h.dataSize);
    LowHalf(csWord);
    assert bytes[76..80][0] == bytes[76] && bytes[76..80][1] == bytes[77];
    forall i | 0 <= i < 17
      ensures FromLe32(bytes[8 + 4 * i..12 + 4 * i]) == h.registers[i]
    {
      RegisterPlace(h.registers, i);
      assert bytes[8 + 4 * i..12 + 4 * i] == bytes[8..76][4 * i..4 * i + 4];
    }
  }

  lemma HeaderSlices(h: Header)
    requires ValidHeader(h)
    ensures var bytes := HeaderBytes(h);
            && bytes[0..4] == Le32(h.command) && bytes[4..8] == Le32(h.status)
            && bytes[8..76] == RegisterBytes(h.registers)
            && bytes[76..80] == Le32(h.cs as int + 0x1_0000 * h.padding as int)
            && bytes[80..84] == Le32(h.eflags) && bytes[84..88] == Le32(h.dataSize)
  {
    hide Le32, RegisterBytes;
  }

  lemma LowHalf(x: u32)
    ensures Le32(x)[0] as int + 0x100 * Le32(x)[1] as int == x % 0x1_0000
  {
    hide Le32;
    Le32Of(x);
    FourBytes(x);
    var low, high := x % 0x100 + 0x100 * (x / 0x100 % 0x100), x / 0x1_0000 % 0x100 + 0x100 * (x / 0x100_0000);
    assert x == 0x1_0000 * high + low && 0 <= low < 0x1_0000;
  }

  lemma {:induction false} RegisterPlace(registers: seq<u32>, i: nat)
    requires i < |registers|
    ensures FromLe32(RegisterBytes(registers)[4 * i..4 * i + 4]) == registers[i]
    decreases i
  {
    hide Le32, FromLe32;
    var bytes := RegisterBytes(registers);
    if i == 0 {
      assert bytes[0..4] == Le32(registers[0]);
      Le32RoundTrip(registers[0]);
    } else {
      RegisterPlace(registers[1..], i - 1);
      assert bytes[4 * i..4 * i + 4] == RegisterBytes(registers[1..])[4 * (i - 1)..4 * (i - 1) + 4];
    }
  }

  /** The same places in what is sent, four bytes further on, behind the size of the packet. */
  lemma ResponsePlaces(h: Header, data: seq<u8>)
    requires ValidHeader(h) && 88 + |data| < 0x1_0000_0000
    ensures var sent := Frame(HeaderBytes(h) + data);
            && |sent| == 92 + |data| && FromLe32(sent[0..4]) == 88 + |data|
            && FromLe32(sent[4..8]) == h.command && FromLe32(sent[8..12]) == h.status
            && (forall i :: 0 <= i < 17 ==> FromLe32(sent[12 + 4 * i..16 + 4 * i]) == h.registers[i])
            && sent[80] as int + 0x100 * sent[81] as int == h.cs
            && FromLe32(sent[84..88]) == h.eflags && FromLe32(sent[88..92]) == h.dataSize && sent[92..] == data
  {
    hide Le32, FromLe32, HeaderBytes;
    HeaderPlaces(h);
    var bytes := HeaderBytes(h);
    var sent := Frame(bytes + data);
    assert sent[0..4] == Le32(88 + |data|);
    Le32RoundTrip(88 + |data|);
    assert forall k :: 0 <= k < 88 ==> sent[4 + k] == bytes[k];
    assert sent[4..8] == bytes[0..4] && sent[8..12] == bytes[4..8];
    assert sent[84..88] == bytes[80..84] && sent[88..92] == bytes[84..88];
    forall i | 0 <= i < 17
      ensures FromLe32(sent[12 + 4 * i..16 + 4 * i]) == h.registers[i]
    {
      assert sent[12 + 4 * i..16 + 4 * i] == bytes[8 + 4 * i..12 + 4 * i];
    }
  }

  /** The peer receives exactly the header and the data that were sent. */
  lemma ResponseRoundTrip(h: Header, data: seq<u8>, rest: seq<u8>)
    requires ValidHeader(h) && |data| == h.dataSize && 88 + |data| < 0x8000_0000
    ensures PacketWaits(Frame(HeaderBytes(h) + data) + rest)
    ensures var r := Receive(Frame(HeaderBytes(h) + data) + rest, true);
            && r.status == STATUS_SUCCESS && r.rest == rest
            && |r.content| == 88 + h.dataSize && DecodeHeader(r.content) == h && r.content[88..] == data
  {
    ReceiveFrame(HeaderBytes(h) + data, rest, true);
    HeaderRoundTrip(h, data);
  }

  class KeDebugResponse {
    const header: Header
    const data: array?<u8>

    constructor (header: Header, data: array?<u8>)
      ensures this.header == header && this.data == data
    {
      this.header, this.data := header, data;
    }
  }

  method FillResponse(response: KeDebugResponse, buffer: array<u8>, ghost data: seq<u8>)
    requires ValidHeader(response.header) && buffer.Length == 88 + response.header.dataSize && buffer != response.data
    requires response.data != null ==> response.header.dataSize <= response.data.Length
    requires response.data == null ==> response.header.dataSize == 0
    requires data == if response.data == null then [] else response.data[..response.header.dataSize]
    modifies buffer
    ensures buffer[..] == HeaderBytes(response.header) + data
  {
    hide HeaderBytes;
    var bytes := HeaderBytes(response.header);
    var header := new u8[88](i requires 0 <= i < 88 => bytes[i]);
    assert header[..88] == bytes;
    Stdlib.MmCopy(header, 0, buffer, 0, 88);
    assert buffer[..88] == bytes;
    Stdlib.MmCopy(response.data, 0, buffer, 88, response.header.dataSize);
    assert buffer[..88] == bytes;
    assert buffer[88..] == data;
    assert buffer[..] == buffer[..88] + buffer[88..];
  }

  /** A buffer with header and data one behind the other, if there is memory for it. */
  method PackResponse(heap: Heap, response: KeDebugResponse) returns (buffer: array?<u8>)
    requires ValidHeader(response.header) && 88 + response.header.dataSize < 0x1_0000_0000
    requires response.data != null ==> response.header.dataSize <= response.data.Length
    requires response.data == null ==> response.header.dataSize == 0
    modifies heap`live, heap`mallocCount
    ensures buffer != null <==> 88 + response.header.dataSize < 0x8000_0000 && heap.grants(old(heap.mallocCount))
    ensures buffer == null ==> heap.live == old(heap.live)
    ensures buffer != null ==>
              var data := if response.data == null then [] else response.data[..response.header.dataSize];
              && fresh(buffer) && heap.live == old(heap.live) + {buffer}
              && buffer[..] == HeaderBytes(response.header) + data
  {
    hide HeaderBytes;
    buffer := heap.AllocBytes(ToInt32(88 + response.header.dataSize));
    if buffer != null {
      FillResponse(response, buffer, if response.data == null then [] else response.data[..response.header.dataSize]);
    }
  }

  /** Sends header and data as one packet, put together in a buffer that is not given back. */
  method SendPacked(line: SerialLine, heap: Heap, response: KeDebugResponse) returns (status: KeStatus)
    requires ValidHeader(response.header) && 88 + response.header.dataSize < 0x1_0000_0000
    requires response.data != null ==> response.header.dataSize <= response.data.Length
    requires response.data == null ==> response.header.dataSize == 0
    modifies line`tx, heap`live, heap`mallocCount
    ensures status == if 88 + response.header.dataSize < 0x8000_0000 && heap.grants(old(heap.mallocCount))
                      then STATUS_SUCCESS else STATUS_ALLOC_FAILED
    ensures status != STATUS_SUCCESS ==> line.tx == old(line.tx) && heap.live == old(heap.live)
    ensures status == STATUS_SUCCESS ==>
              var data := if response.data == null then [] else response.data[..response.header.dataSize];
              && line.tx == old(line.tx) + Frame(HeaderBytes(response.header) + data)
              && old(heap.live) < heap.live && fresh(heap.live - old(heap.live))
  {
    hide Le32, FromLe32, HeaderBytes, Frame;
    var packet := new KeDebugPacket();
    packet.size := 88 + response.header.dataSize;
    packet.content := PackResponse(heap, response);
    if packet.content == null {
      return STATUS_ALLOC_FAILED;
    }
    assert packet.content[..packet.size] == packet.content[..];
    status := SendPacket(line, packet);
  }

  /** `SendResponse`: one packet on the line, field by field and byte by byte. */
  method SendResponse(line: SerialLine, heap: Heap, response: KeDebugResponse?) returns (status: KeStatus)
    requires response != null ==> ValidHeader(response.header) && 88 + response.header.dataSize < 0x1_0000_0000
    requires response != null && response.data != null ==> response.header.dataSize <= response.data.Length
    modifies line`tx, heap`live, heap`mallocCount
    ensures status == if response == null then STATUS_NULL_PARAMETER
                      else if response.header.dataSize != 0 && response.data == null then STATUS_INVALID_PARAMETER
                      else if 88 + response.header.dataSize >= 0x8000_0000 || !heap.grants(old(heap.mallocCount))
                      then STATUS_ALLOC_FAILED
                      else STATUS_SUCCESS
    ensures status != STATUS_SUCCESS ==> line.tx == old(line.tx) && heap.live == old(heap.live)
    ensures status == STATUS_SUCCESS ==>
              var h := response.header;
              var data := if response.data == null then [] else response.data[..h.dataSize];
              var sent := Frame(HeaderBytes(h) + data);
              && line.tx == old(line.tx) + sent
              && |sent| == 92 + h.dataSize && FromLe32(sent[0..4]) == 88 + h.dataSize
              && FromLe32(sent[4..8]) == h.command && FromLe32(sent[8..12]) == h.status
              && (forall i :: 0 <= i < 17 ==> FromLe32(sent[12 + 4 * i..16 + 4 * i]) == h.registers[i])
              && sent[80] as int + 0x100 * sent[81] as int == h.cs
              && FromLe32(sent[84..88]) == h.eflags && FromLe32(sent[88..92]) == h.dataSize && sent[92..] == data
    ensures status == STATUS_SUCCESS ==> old(heap.live) < heap.live && fresh(heap.live - old(heap.live))
  {
    if response == null {
      return STATUS_NULL_PARAMETER;
    }
    if response.header.dataSize != 0 && response.data == null {
      return STATUS_INVALID_PARAMETER;
    }
    hide FromLe32, HeaderBytes, Frame;
    ResponsePlaces(response.header, if response.data == null then [] else response.data[..response.header.dataSize]);
    status := SendPacked(line, heap, response);
  }
}
