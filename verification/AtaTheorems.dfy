/** What the ATA driver promises over whole reads, writes and runs of writes. */
module AtaTheorems {
  import opened KernelTypes
  import opened KernelHeap
  import opened AtaDrive
  import opened AtaDriver

  // ---------------------------------------------------------------- reading

  /** The drive never fails five READ commands for the same sector in a row. */
  ghost predicate Patient(reply: Behaviour) {
    forall n: nat, lba: nat :: Recovers(reply, n, lba)
  }

  predicate Recovers(reply: Behaviour, n: nat, lba: nat) {
    exists i :: n <= i < n + 5 && DataReady(reply(i, Read(lba)).status)
  }

  /** The driver's five attempts are patient with a drive that serves every fifth command, and not with every sixth. */
  lemma PatienceIsSharp()
    ensures Patient((n, command) => Reply([], if n % 5 == 0 then 0x58 else 0x51, []))
    ensures !Patient((n, command) => Reply([], if n % 6 == 0 then 0x58 else 0x51, []))
  {
    var fifth: Behaviour := (n, command) => Reply([], if n % 5 == 0 then 0x58 else 0x51, []);
    var sixth: Behaviour := (n, command) => Reply([], if n % 6 == 0 then 0x58 else 0x51, []);
    forall n: nat, lba: nat
      ensures Recovers(fifth, n, lba)
    {
      var i := (n + 4) / 5 * 5;
      assert DataReady(fifth(i, Read(lba)).status);
    }
    assert !Recovers(sixth, 1, 0);
  }

  lemma ReachableHolds(disk: seq<u8>, reply: Behaviour, n: nat, lba: nat)
    ensures Reachable(disk, reply, n, lba, MAX_ATTEMPTS) ==> Holds(disk, lba)
    ensures Recovers(reply, n, lba) && Holds(disk, lba) ==> Reachable(disk, reply, n, lba, MAX_ATTEMPTS)
  {
    if Recovers(reply, n, lba) && Holds(disk, lba) {
      var i :| n <= i < n + 5 && DataReady(reply(i, Read(lba)).status);
      assert Serves(disk, reply(i, Read(lba)), lba);
    }
  }

  lemma {:induction false} RangeHolds(disk: seq<u8>, reply: Behaviour, n: nat, lba: nat, blocks: nat)
    ensures RangeReachable(disk, reply, n, lba, blocks) ==> blocks == 0 || Holds(disk, lba + blocks - 1)
    ensures Patient(reply) && blocks > 0 && Holds(disk, lba + blocks - 1) ==>
              RangeReachable(disk, reply, n, lba, blocks)
    decreases blocks
  {
    hide Reachable, Attempts, DataReady, Recovers;
    if blocks > 0 {
      ReachableHolds(disk, reply, n, lba);
      var k := Attempts(disk, reply, n, lba, MAX_ATTEMPTS);
      RangeHolds(disk, reply, n + k, lba + 1, blocks - 1);
      assert Patient(reply) ==> Recovers(reply, n, lba);
    }
  }

  /**
   Exactly when `AtaRead` finds all its sectors.  It always fetches the sector that
   holds the first byte behind the range, so even a faultless drive cannot deliver
   a range that ends where the medium ends.
   */
  lemma ReadSucceedsIff(disk: seq<u8>, sectors: nat, reply: Behaviour, n: nat, offset: nat, size: nat)
    requires |disk| == 512 * sectors
    ensures RangeReachable(disk, reply, n, offset / 512, NbBlocks(offset, size)) ==> offset + size < |disk|
    ensures Patient(reply) ==>
              (RangeReachable(disk, reply, n, offset / 512, NbBlocks(offset, size)) <==> offset + size < |disk|)
  {
    var block, blocks := offset / 512, NbBlocks(offset, size);
    RangeHolds(disk, reply, n, block, blocks);
    assert block + blocks - 1 == (offset + size) / 512;
    assert Holds(disk, block + blocks - 1) <==> offset + size < |disk|;
  }

  /** A one-sector medium and a drive that never errs: the sector is there and cannot be read. */
  lemma LastSectorUnreadable(disk: seq<u8>, n: nat)
    requires |disk| == 512
    ensures Faultless(Prompt) && Holds(disk, 0) && !RangeReachable(disk, Prompt, n, 0, NbBlocks(0, 512))
  {
    ReadSucceedsIff(disk, 1, Prompt, n, 0, 512);
  }

  /** A read issues READ commands only, for its own sectors, and at most five for each. */
  lemma {:induction false} ReadLogShape(disk: seq<u8>, reply: Behaviour, n: nat, lba: nat, blocks: nat)
    ensures |ReadLog(disk, reply, n, lba, blocks)| <= 5 * blocks
    ensures forall j :: 0 <= j < |ReadLog(disk, reply, n, lba, blocks)| ==>
              var c := ReadLog(disk, reply, n, lba, blocks)[j];
              c.Read? && lba <= c.lba < lba + blocks
    decreases blocks
  {
    hide Reachable, Attempts;
    if blocks > 0 {
      var k := Attempts(disk, reply, n, lba, MAX_ATTEMPTS);
      ReadLogShape(disk, reply, n + k, lba + 1, blocks - 1);
    }
  }

  // ---------------------------------------------------------------- the protocol of writing

  /** The drive gives every READ and every WRITE its data phase; what it answers to a FLUSH is its own affair. */
  ghost predicate Faultless(reply: Behaviour) {
    forall n: nat, lba: nat :: DataReady(reply(n, Read(lba)).status) && DataReady(reply(n, Write(lba)).status)
  }

  /** A faultless drive that is never busy when it is looked at; its FLUSH ends with DRQ clear. */
  function Prompt(n: nat, command: Command): Reply {
    Reply([], if command.Flush? then 0x50 else 0x58, [])
  }

  /** A faultless drive that needs one poll's time to store the last word of a sector. */
  function Storing(n: nat, command: Command): Reply {
    Reply([], if command.Flush? then 0x50 else 0x58, [0xD0])
  }

  predicate FlushedAt(disk: seq<u8>, reply: Behaviour, n: nat, block: nat, i: nat) {
    !FlushLost(disk, reply(n + 2 * i, Write(block + i)), block + i)
  }

  /** Every FLUSH of a write reaches the drive exactly if none of its sectors keeps the drive busy. */
  lemma {:induction false} FlushesTakenIff(disk: seq<u8>, reply: Behaviour, n: nat, block: nat, count: nat)
    ensures |WriteLog(disk, reply, n, block, count)| <= 2 * count
    ensures |WriteLog(disk, reply, n, block, count)| == 2 * count
       <==> forall i :: 0 <= i < count ==> FlushedAt(disk, reply, n, block, i)
    decreases count
  {
    hide FlushLost, WriteLog;
    WriteLogEmpty(disk, reply, n, block);
    if count > 0 {
      FlushesTakenIff(disk, reply, n, block, count - 1);
      WriteLogStep(disk, reply, n, block, count - 1);
      if |WriteLog(disk, reply, n, block, count - 1)| == 2 * (count - 1) {
        assert FlushedAt(disk, reply, n, block, count - 1)
          <==> !FlushLost(disk, reply(n + 2 * (count - 1), Write(block + count - 1)), block + count - 1);
      }
    }
  }

  lemma WriteLogEmpty(disk: seq<u8>, reply: Behaviour, n: nat, block: nat)
    ensures WriteLog(disk, reply, n, block, 0) == []
  {
  }

  /** A faultless drive, a one-sector medium: the FLUSH of the first write meets a busy drive and is lost. */
  lemma FlushMeetsBusyDrive(disk: seq<u8>, n: nat)
    requires |disk| == 512
    ensures Faultless(Storing) && WriteLog(disk, Storing, n, 0, 1) == [Write(0)]
    ensures !CleanRun(disk, Storing, n, 0, 1)
  {
    hide WriteLog;
    WriteLogEmpty(disk, Storing, n, 0);
    WriteLogStep(disk, Storing, n, 0, 0);
    assert !CleanAt(disk, Storing, n, 0, 0);
  }

  /** A faultless drive, a one-sector medium: 256 words for a second sector go to a drive that asked for none. */
  lemma WordsNobodyAskedFor(disk: seq<u8>, data: seq<u8>, n: nat)
    requires |disk| == 512 && |data| == 512
    ensures Faultless(Prompt) && !CleanRun(disk, Prompt, n, 1, 1)
    ensures WriteLog(disk, Prompt, n, 1, 1) == [Write(1), Flush]
    ensures FlatWrite(disk, data, 512, Taken(disk, Prompt, n, 1)) == disk
  {
    hide WriteLog, Taken, FlatWrite;
    WriteLogEmpty(disk, Prompt, n, 1);
    WriteLogStep(disk, Prompt, n, 1, 0);
    assert !CleanAt(disk, Prompt, n, 1, 0);
    NothingInReach(disk, data, 512, Taken(disk, Prompt, n, 1));
  }

  lemma NothingInReach(disk: seq<u8>, data: seq<u8>, offset: nat, taken: nat -> bool)
    requires |disk| <= offset
    ensures FlatWrite(disk, data, offset, taken) == disk
  {
  }

  /** On a faultless drive a write keeps to the protocol exactly if it stays on the medium and no FLUSH is lost. */
  lemma FaultlessKeepsProtocolIff(disk: seq<u8>, reply: Behaviour, n: nat, block: nat, count: nat)
    requires Faultless(reply)
    ensures CleanRun(disk, reply, n, block, count)
       <==> (count == 0 || Holds(disk, block + count - 1)) && |WriteLog(disk, reply, n, block, count)| == 2 * count
  {
    hide WriteLog, DataReady;
    FlushesTakenIff(disk, reply, n, block, count);
    forall i | 0 <= i < count
      ensures CleanAt(disk, reply, n, block, i) <==> Holds(disk, block + i) && FlushedAt(disk, reply, n, block, i)
    {
      assert DataReady(reply(n + 2 * i, Write(block + i)).status);
    }
    if count > 0 && CleanRun(disk, reply, n, block, count) {
      assert CleanAt(disk, reply, n, block, count - 1);
    }
  }

  // ---------------------------------------------------------------- writing, then reading

  /** A drive that takes every sector. */
  function Accepting(): nat -> bool {
    (i: nat) => true
  }

  /** The sizes for which nothing is dropped and nothing is padded into the caller's range. */
  predicate RoundTrips(size: nat) {
    size % 512 == 0 || (size < 512 && size % 2 == 0)
  }

  /** Writing and reading back returns the bytes, whatever they are, exactly for those sizes. */
  lemma WriteReadRoundTrip(disk: seq<u8>, offset: nat, size: nat)
    requires offset % 512 == 0 && offset + size <= |disk|
    ensures (forall data: seq<u8> | |data| == size ::
               FlatWrite(disk, data, offset, Accepting())[offset..offset + size] == data)
            <==> RoundTrips(size)
  {
    if RoundTrips(size) {
      forall data: seq<u8> | |data| == size
        ensures FlatWrite(disk, data, offset, Accepting())[offset..offset + size] == data
      {
        assert PayloadLength(size) == size <= WrittenLength(size);
      }
    } else {
      var data: seq<u8> := LostByte(disk, offset, size);
      var d := FlatWrite(disk, data, offset, Accepting());
      assert d[offset..offset + size][size - 1] == d[offset + size - 1] != data[size - 1];
    }
  }

  /** Bytes whose last one does not survive a write of a size that does not round-trip. */
  function LostByte(disk: seq<u8>, offset: nat, size: nat): (data: seq<u8>)
    requires offset + size <= |disk| && size > 0
    ensures |data| == size
  {
    seq(size, k requires 0 <= k < size =>
      if k < size - 1 then 0 else if size < 512 || disk[offset + k] == 0 then 1 else 0)
  }

  /** The driver itself: whatever was written aligned and in a lossless size is read back. */
  method WriteThenRead(drive: Drive, heap: Heap, cpu: Cpu, data: array<u8>, back: array<u8>, offset: u32, size: u32)
    returns (rc: int)
    requires drive.Valid() && size <= data.Length && size <= back.Length && data != back
    requires offset % 512 == 0 && offset + size < 0x1_0000_0000 && RoundTrips(size)
    requires Patient(drive.reply)
    requires TakesAll(drive.disk, drive.reply, |drive.commands|, offset / 512, WrittenLength(size) / 512)
    modifies drive, heap, cpu, back
    ensures drive.Valid() && (rc == 0 || rc == size || rc == -5)
    ensures 512 * ((offset + size) / 512 - offset / 512 + 1) < 0x8000_0000 && heap.grants(old(heap.mallocCount)) ==>
              && (rc == size <==> offset + size < |drive.disk|)
              && (rc == size ==> back[..size] == data[..size])
  {
    hide RangeReachable, NbBlocks, FlatWrite, TakesAll, Patient, WriteLog, Taken, CleanRun, BufferSize;
    ghost var was, n := drive.disk, |drive.commands|;
    var _ := AtaWrite(drive, cpu, data, offset, size);
    ghost var m, bytes := |drive.commands|, data[..size];
    rc := AtaRead(drive, heap, cpu, back, offset, size);
    TakesAllIsAccepting(was, bytes, offset, drive.reply, n);
    ReadSucceedsIff(drive.disk, drive.sectors, drive.reply, m, offset, size);
    if rc == size && offset + size <= |was| {
      WriteReadRoundTrip(was, offset, size);
    }
  }

  /** Each of the WRITE commands for `count` sectors from `block` on is given a data phase. */
  ghost predicate TakesAll(disk: seq<u8>, reply: Behaviour, n: nat, block: nat, count: nat) {
    forall i: nat :: i < count ==> Taken(disk, reply, n, block)(i)
  }

  /** Only the write's own commands matter: nothing is asked for no sectors, and one WRITE for a single one. */
  lemma TakesAllOfOne(disk: seq<u8>, reply: Behaviour, n: nat, block: nat)
    ensures TakesAll(disk, reply, n, block, 0)
    ensures TakesAll(disk, reply, n, block, 1) <==> DataReady(reply(n, Write(block)).status)
  {
    hide DataReady;
    WriteLogEmpty(disk, reply, n, block);
    TakenAt(disk, reply, n, block, 0);
  }

  /** A write of which every sector is taken leaves the medium as an accepting drive would. */
  lemma TakesAllIsAccepting(disk: seq<u8>, data: seq<u8>, offset: nat, reply: Behaviour, n: nat)
    requires TakesAll(disk, reply, n, offset / 512, WrittenLength(|data|) / 512)
    ensures FlatWrite(disk, data, offset, Taken(disk, reply, n, offset / 512))
         == FlatWrite(disk, data, offset, Accepting())
  {
    hide Taken;
    var taken := Taken(disk, reply, n, offset / 512);
    forall k | 0 <= k < |disk|
      ensures WrittenByte(disk, data, offset, taken, k) == WrittenByte(disk, data, offset, Accepting(), k)
    {
      if offset <= k < offset + WrittenLength(|data|) {
        assert (k - offset) / 512 < WrittenLength(|data|) / 512;
        assert taken((k - offset) / 512);
      }
    }
  }

  /** Both hypotheses hold on every faultless drive, whatever has been sent to it before. */
  lemma FaultlessSuffices(disk: seq<u8>, reply: Behaviour, n: nat, block: nat, count: nat)
    requires Faultless(reply)
    ensures Patient(reply) && TakesAll(disk, reply, n, block, count)
  {
    hide DataReady, WriteLog;
    forall m: nat, lba: nat
      ensures Recovers(reply, m, lba)
    {
      assert DataReady(reply(m, Read(lba)).status);
    }
  }

  // ---------------------------------------------------------------- runs of writes

  datatype Request = Request(offset: nat, data: seq<u8>)

  /** The medium after a run of writes to an accepting drive. */
  function Replay(disk: seq<u8>, run: seq<Request>): (d: seq<u8>)
    ensures |d| == |disk|
    decreases |run|
  {
    if run == [] then disk
    else Replay(FlatWrite(disk, run[0].data, run[0].offset, Accepting()), run[1..])
  }

  predicate Covers(r: Request, k: nat) {
    r.offset <= k < r.offset + WrittenLength(|r.data|)
  }

  function ByteOf(r: Request, k: nat): u8
    requires Covers(r, k)
  {
    if k - r.offset < PayloadLength(|r.data|) then r.data[k - r.offset] else 0
  }

  /** After any run, a byte is what the last write that covers it put there, or what it was at first. */
  lemma {:induction false} LastWriteWins(disk: seq<u8>, run: seq<Request>, k: nat, last: int)
    requires k < |disk| && -1 <= last < |run|
    requires last >= 0 ==> Covers(run[last], k)
    requires forall i :: last < i < |run| ==> !Covers(run[i], k)
    ensures Replay(disk, run)[k] == if last >= 0 then ByteOf(run[last], k) else disk[k]
    decreases |run|
  {
    if run != [] {
      var next := FlatWrite(disk, run[0].data, run[0].offset, Accepting());
      LastWriteWins(next, run[1..], k, if last > 0 then last - 1 else -1);
    }
  }

  lemma {:induction false} ReplaySnoc(disk: seq<u8>, run: seq<Request>, r: Request)
    ensures Replay(disk, run + [r]) == FlatWrite(Replay(disk, run), r.data, r.offset, Accepting())
    decreases |run|
  {
    if run == [] {
      assert run + [r] == [r];
    } else {
      assert (run + [r])[0] == run[0] && (run + [r])[1..] == run[1..] + [r];
      ReplaySnoc(FlatWrite(disk, run[0].data, run[0].offset, Accepting()), run[1..], r);
    }
  }

  /** A call of `AtaWrite`. */
  datatype WriteCall = WriteCall(buf: array<u8>, offset: u32, size: u32)

  /** What a run of calls asks for; `AtaWrite` refuses unaligned offsets. */
  ghost function Requests(calls: seq<WriteCall>): seq<Request>
    requires forall c <- calls :: c.size <= c.buf.Length
    reads set c <- calls :: c.buf
  {
    if calls == [] then []
    else
      var c := calls[0];
      (if c.offset % 512 == 0 then [Request(c.offset, c.buf[..c.size])] else []) + Requests(calls[1..])
  }

  /** The drive takes every sector of one request when its next command is number n. */
  ghost predicate TakesRequest(disk: seq<u8>, reply: Behaviour, n: nat, r: Request) {
    TakesAll(disk, reply, n, r.offset / 512, WrittenLength(|r.data|) / 512)
  }

  /** The drive takes every sector of every request of a run. */
  ghost predicate TakesRun(disk: seq<u8>, reply: Behaviour, n: nat, run: seq<Request>)
    decreases |run|
  {
    run == [] || (
      var r := run[0];
      && TakesRequest(disk, reply, n, r)
      && TakesRun(FlatWrite(disk, r.data, r.offset, Accepting()), reply,
                  n + |WriteLog(disk, reply, n, r.offset / 512, WrittenLength(|r.data|) / 512)|, run[1..]))
  }

  /** One more write by the driver: as long as every sector is taken, the medium is what the run so far replays to. */
  method WriteInRun(drive: Drive, cpu: Cpu, buf: array<u8>, offset: u32, size: u32,
                    ghost initial: seq<u8>, ghost run: seq<Request>)
    requires drive.Valid() && size <= buf.Length && offset % 512 == 0
    requires TakesRequest(drive.disk, drive.reply, |drive.commands|, Request(offset, buf[..size]))
    requires drive.disk == Replay(initial, run)
    modifies drive, cpu
    ensures drive.Valid() && drive.disk == Replay(initial, run + [Request(offset, buf[..size])])
    ensures drive.commands
         == old(drive.commands) + WriteLog(old(drive.disk), drive.reply, |old(drive.commands)|, offset / 512,
                                           WrittenLength(size) / 512)
    ensures drive.disk == FlatWrite(old(drive.disk), buf[..size], offset, Accepting())
  {
    hide Replay, FlatWrite, TakesAll, WriteLog, Taken, CleanRun;
    TakesAllIsAccepting(drive.disk, buf[..size], offset, drive.reply, |drive.commands|);
    ReplaySnoc(initial, run, Request(offset, buf[..size]));
    var _ := AtaWrite(drive, cpu, buf, offset, size);
  }

  /** A run of writes by the driver, refused ones included: the medium is the flat array that the run replays to. */
  method RunWrites(drive: Drive, cpu: Cpu, calls: seq<WriteCall>)
    requires drive.Valid() && forall c <- calls :: c.size <= c.buf.Length
    requires TakesRun(drive.disk, drive.reply, |drive.commands|, Requests(calls))
    modifies drive, cpu
    ensures drive.Valid() && drive.disk == Replay(old(drive.disk), Requests(calls))
  {
    hide Replay, FlatWrite, TakesRun, TakesRequest, WriteLog, CleanRun, Requests;
    ghost var initial, all := drive.disk, Requests(calls);
    ghost var done: seq<Request> := [];
    var i := 0;
    assert calls[0..] == calls;
    ReplayEnd(initial);
    while i < |calls|
      invariant 0 <= i <= |calls| && drive.Valid() && drive.disk == Replay(initial, done)
      invariant all == done + Requests(calls[i..])
      invariant TakesRun(drive.disk, drive.reply, |drive.commands|, Requests(calls[i..]))
    {
      var c := calls[i];
      assert calls[i..] == [c] + calls[i + 1..];
      RequestsCons(c, calls[i + 1..]);
      if c.offset % 512 == 0 {
        ghost var r, rest := Request(c.offset, c.buf[..c.size]), Requests(calls[i + 1..]);
        TakesRunHead(drive.disk, drive.reply, |drive.commands|, r, rest);
        WriteInRun(drive, cpu, c.buf, c.offset, c.size, initial, done);
        assert done + ([r] + rest) == (done + [r]) + rest;
        done := done + [r];
      } else {
        assert Requests(calls[i..]) == Requests(calls[i + 1..]);
        var _ := AtaWrite(drive, cpu, c.buf, c.offset, c.size);
      }
      i := i + 1;
    }
    RequestsEnd(calls[i..]);
    assert done + [] == done;
  }

  lemma ReplayEnd(disk: seq<u8>)
    ensures Replay(disk, []) == disk
  {
  }

  lemma RequestsEnd(calls: seq<WriteCall>)
    requires calls == []
    ensures Requests(calls) == []
  {
  }

  lemma RequestsCons(c: WriteCall, rest: seq<WriteCall>)
    requires c.size <= c.buf.Length && forall d <- rest :: d.size <= d.buf.Length
    ensures Requests([c] + rest)
         == (if c.offset % 512 == 0 then [Request(c.offset, c.buf[..c.size])] else []) + Requests(rest)
  {
    assert ([c] + rest)[1..] == rest;
  }

  lemma TakesRunHead(disk: seq<u8>, reply: Behaviour, n: nat, r: Request, rest: seq<Request>)
    requires TakesRun(disk, reply, n, [r] + rest)
    ensures TakesRequest(disk, reply, n, r)
    ensures TakesRun(FlatWrite(disk, r.data, r.offset, Accepting()), reply,
                     n + |WriteLog(disk, reply, n, r.offset / 512, WrittenLength(|r.data|) / 512)|, rest)
  {
    hide TakesRequest, WriteLog, FlatWrite, WrittenLength;
    assert ([r] + rest)[1..] == rest;
  }

  /** A faultless drive takes every run. */
  lemma {:induction false} FaultlessTakesRun(disk: seq<u8>, reply: Behaviour, n: nat, run: seq<Request>)
    requires Faultless(reply)
    ensures TakesRun(disk, reply, n, run)
    decreases |run|
  {
    hide Faultless, TakesAll, WriteLog, FlatWrite;
    if run != [] {
      var r := run[0];
      FaultlessSuffices(disk, reply, n, r.offset / 512, WrittenLength(|r.data|) / 512);
      FaultlessTakesRun(FlatWrite(disk, r.data, r.offset, Accepting()), reply,
                        n + |WriteLog(disk, reply, n, r.offset / 512, WrittenLength(|r.data|) / 512)|, run[1..]);
    }
  }

  /** After any run of writes a successful read agrees with the flat array that the run updates. */
  method WritesThenRead(drive: Drive, heap: Heap, cpu: Cpu, calls: seq<WriteCall>, back: array<u8>,
                        offset: u32, size: u32)
    returns (rc: int)
    requires drive.Valid() && size <= back.Length && offset + size < 0x1_0000_0000
    requires forall c <- calls :: c.size <= c.buf.Length && c.buf != back
    requires Patient(drive.reply) && TakesRun(drive.disk, drive.reply, |drive.commands|, Requests(calls))
    modifies drive, heap, cpu, back
    ensures 512 * ((offset + size) / 512 - offset / 512 + 1) < 0x8000_0000 && heap.grants(old(heap.mallocCount)) ==>
              && (rc == size <==> offset + size < |old(drive.disk)|)
              && (rc == size ==> back[..size] == Replay(old(drive.disk), old(Requests(calls)))[offset..offset + size])
  {
    hide RangeReachable, NbBlocks, Replay, TakesRun, Patient, WriteLog, Taken, BufferSize, Requests;
    RunWrites(drive, cpu, calls);
    ReadSucceedsIff(drive.disk, drive.sectors, drive.reply, |drive.commands|, offset, size);
    rc := AtaRead(drive, heap, cpu, back, offset, size);
  }
}
