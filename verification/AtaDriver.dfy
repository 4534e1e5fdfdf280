/** The ATA PIO driver: sectors through the drive's ports, and bytes on top of sectors. */
module AtaDriver {
  import opened KernelTypes
  import opened KernelHeap
  import opened AtaDrive
  import Stdlib

  const EIO := 5
  const MAX_ATTEMPTS := 5

  /** Sectors are transferred only while interrupts are off: the sector methods require it. */
  class Cpu {
    var irqEnabled: bool
  }

  // ---------------------------------------------------------------- sectors

  /** The READ command for sector `lba`, k times. */
  function Reads(lba: nat, k: nat): (log: seq<Command>)
    ensures |log| == k && forall i :: 0 <= i < k ==> log[i] == Read(lba)
  {
    if k == 0 then [] else Reads(lba, k - 1) + [Read(lba)]
  }

  /** How many READ commands sector `lba` costs when the next command is number n. */
  function Attempts(disk: seq<u8>, reply: Behaviour, n: nat, lba: nat, left: nat): (k: nat)
    ensures k <= left
    decreases left, n
  {
    if left == 0 then 0
    else if Serves(disk, reply(n, Read(lba)), lba) then 1
    else 1 + Attempts(disk, reply, n + 1, lba, left - 1)
  }

  /** Some command among the `left` from number n on is answered with the sector. */
  predicate Reachable(disk: seq<u8>, reply: Behaviour, n: nat, lba: nat, left: nat) {
    exists i :: n <= i < n + left && Serves(disk, reply(i, Read(lba)), lba)
  }

  /** `failed` commands fail, and then one succeeds or none is left. */
  lemma {:induction false} AttemptsMade(disk: seq<u8>, reply: Behaviour, n: nat, lba: nat, failed: nat, left: nat)
    requires failed <= left
    requires forall i :: n <= i < n + failed ==> !Serves(disk, reply(i, Read(lba)), lba)
    requires failed == left || Serves(disk, reply(n + failed, Read(lba)), lba)
    ensures Attempts(disk, reply, n, lba, left) == if failed == left then left else failed + 1
    ensures Reachable(disk, reply, n, lba, left) <==> failed < left
    decreases left
  {
    if failed > 0 {
      AttemptsMade(disk, reply, n + 1, lba, failed - 1, left - 1);
    }
  }

  function Lba28(lba: int): nat {
    lba % 0x1000_0000
  }

  /** What the driver puts into the device/head register. */
  function HeadByte(lba: int): u8 {
    0xE0 + lba / 0x100_0000 % 16
  }

  /** The four latch writes carry the low 28 bits of any `int`. */
  lemma LbaLatches(lba: int)
    ensures LatchedLba(lba % 0x100, lba / 0x100 % 0x100, lba / 0x1_0000 % 0x100, HeadByte(lba)) == Lba28(lba)
  {
    var b, c, d := lba / 0x100, lba / 0x1_0000, lba / 0x100_0000;
    assert c == b / 0x100 && d == c / 0x100;
    assert HeadByte(lba) % 16 == d % 16;
    assert lba == lba % 0x100 + 0x100 * (b % 0x100) + 0x1_0000 * (c % 0x100)
                  + 0x100_0000 * (d % 16) + 0x1000_0000 * (d / 16);
  }

  method AtaStatusWait(drive: Drive, timeout: int) returns (status: u8)
    requires drive.Valid()
    modifies drive`busy, drive`sawDataReady
    ensures drive.Valid()
    ensures IsBusy(status) <==> 0 < timeout < |old(drive.busy)|
    ensures !IsBusy(status) ==> drive.busy == [] && status == drive.status
    ensures !IsBusy(status) ==> drive.sawDataReady == (old(drive.sawDataReady) || DataReady(status))
    ensures IsBusy(status) ==>
              drive.busy == old(drive.busy)[timeout + 1..] && drive.sawDataReady == old(drive.sawDataReady)
  {
    if timeout > 0 {
      var i := 0;
      status := drive.InStatus();
      while IsBusy(status) && i < timeout
        invariant drive.Valid() && 0 <= i <= timeout
        invariant IsBusy(status) ==> i < |old(drive.busy)| && drive.busy == old(drive.busy)[i + 1..]
        invariant IsBusy(status) ==> drive.sawDataReady == old(drive.sawDataReady)
        invariant !IsBusy(status) ==> i == |old(drive.busy)| && drive.busy == [] && status == drive.status
        invariant !IsBusy(status) ==> drive.sawDataReady == (old(drive.sawDataReady) || DataReady(status))
      {
        i := i + 1;
        status := drive.InStatus();
      }
    } else {
      status := drive.InStatus();
      while IsBusy(status)
        invariant drive.Valid()
        invariant IsBusy(status) ==> drive.sawDataReady == old(drive.sawDataReady)
        invariant !IsBusy(status) ==> drive.busy == [] && status == drive.status
        invariant !IsBusy(status) ==> drive.sawDataReady == (old(drive.sawDataReady) || DataReady(status))
        decreases |drive.busy|, IsBusy(status)
      {
        status := drive.InStatus();
      }
    }
  }

  method AtaWait(drive: Drive, adv: bool) returns (failed: bool)
    requires drive.Valid()
    modifies drive`busy, drive`sawDataReady
    ensures drive.Valid() && drive.busy == []
    ensures failed <==> adv && !DataReady(drive.status)
    ensures drive.sawDataReady == (old(drive.sawDataReady) || DataReady(drive.status))
  {
    var status := AtaStatusWait(drive, -1);
    if adv {
      status := drive.InStatus();
      if HasError(status) { return true; }
      if HasFault(status) { return true; }
      if !HasRequest(status) { return true; }
    }
    return false;
  }

  /** The register writes that follow the device/head register in both directions. */
  method AtaAddressSector(drive: Drive, lba: int)
    requires drive.Valid() && drive.busy == [] && drive.head == HeadByte(lba)
    modifies drive`sectorCount, drive`lbaLow, drive`lbaMid, drive`lbaHigh, drive`head, drive`obeyed
    ensures drive.Valid() && drive.sectorCount == 1 && drive.Lba() == Lba28(lba) && drive.obeyed == old(drive.InStep())
    ensures drive.lbaLow == lba % 0x100 && drive.lbaMid == lba / 0x100 % 0x100
    ensures drive.lbaHigh == lba / 0x1_0000 % 0x100
    ensures drive.head == old(drive.head)
  {
    drive.OutB(ATA_REG_FEATURES, 0);
    drive.OutB(ATA_REG_SECCOUNT0, 1);
    drive.OutB(ATA_REG_LBA0, lba % 0x100);
    drive.OutB(ATA_REG_LBA1, lba / 0x100 % 0x100);
    drive.OutB(ATA_REG_LBA2, lba / 0x1_0000 % 0x100);
    LbaLatches(lba);
  }

  /** One pass from `try_label`: a READ command for sector `lba`, and its outcome. */
  method AtaTryRead(drive: Drive, lba: int) returns (failed: bool)
    requires drive.Valid()
    modifies drive
    ensures drive.Valid() && drive.disk == old(drive.disk) && drive.busy == []
    ensures drive.commands == old(drive.commands) + [Read(Lba28(lba))]
    ensures failed <==> !Serves(drive.disk, drive.reply(|old(drive.commands)|, Read(Lba28(lba))), Lba28(lba))
    ensures !failed ==> drive.sawDataReady && drive.phase == DataIn(Sector(drive.disk, Lba28(lba)))
    ensures failed ==> drive.phase == Idle
    ensures drive.obeyed == old(drive.InStep())
    ensures drive.head == 0xE0 + lba / 0x100_0000 % 0x10
  {
    var _ := AtaWait(drive, false);
    drive.OutB(ATA_REG_HDDEVSEL, HeadByte(lba));
    AtaAddressSector(drive, lba);
    drive.OutCommand(ATA_CMD_READ_PIO);
    failed := AtaWait(drive, true);
  }

  /** The driver's `try_label` loop: issues READ for sector `lba`, at most five times. */
  method AtaRequestSector(drive: Drive, lba: int) returns (rc: int)
    requires drive.Valid()
    modifies drive
    ensures drive.Valid() && drive.disk == old(drive.disk) && drive.busy == []
    ensures rc == 0 || rc == -5
    ensures 1 <= |drive.commands| - |old(drive.commands)| <= 5
    ensures rc == -5 ==> |drive.commands| - |old(drive.commands)| == 5
    ensures rc == 0 <==> exists i :: |old(drive.commands)| <= i < |old(drive.commands)| + 5
                                     && Serves(drive.disk, drive.reply(i, Read(Lba28(lba))), Lba28(lba))
    ensures rc == 0 <==> Reachable(drive.disk, drive.reply, |old(drive.commands)|, Lba28(lba), MAX_ATTEMPTS)
    ensures drive.commands == old(drive.commands)
              + Reads(Lba28(lba), Attempts(drive.disk, drive.reply, |old(drive.commands)|, Lba28(lba), MAX_ATTEMPTS))
    ensures rc == 0 ==> Holds(drive.disk, Lba28(lba)) && drive.sawDataReady
                        && drive.phase == DataIn(Sector(drive.disk, Lba28(lba)))
    ensures rc != 0 ==> drive.phase == Idle
    ensures drive.obeyed == old(drive.InStep())
  {
    ghost var n := |drive.commands|;
    ghost var target := Lba28(lba);
    var errors := 0;
    while true
      invariant drive.Valid() && drive.disk == old(drive.disk)
      invariant 0 <= errors < MAX_ATTEMPTS
      invariant drive.commands == old(drive.commands) + Reads(target, errors)
      invariant forall i :: n <= i < n + errors ==> !Serves(drive.disk, drive.reply(i, Read(target)), target)
      invariant drive.InStep() == old(drive.InStep())
      decreases MAX_ATTEMPTS - errors
    {
      var failed := AtaTryRead(drive, lba);
      if !failed {
        AttemptsMade(drive.disk, drive.reply, n, target, errors, MAX_ATTEMPTS);
        return 0;
      }
      errors := errors + 1;
      if errors > 4 {
        AttemptsMade(drive.disk, drive.reply, n, target, errors, MAX_ATTEMPTS);
        return -EIO;
      }
    }
  }

  /** Takes the 256 words of a data-in phase into `buf[at..at + 512]`. */
  method AtaDrainSector(drive: Drive, buf: array<u8>, at: nat)
    requires drive.Valid() && drive.busy == [] && drive.sawDataReady
    requires drive.phase.DataIn? && |drive.phase.rest| == 512 && at + 512 <= buf.Length
    modifies drive`phase, drive`status, buf
    ensures drive.Valid() && drive.phase == Idle
    ensures buf[at..at + 512] == old(drive.phase.rest)
    ensures forall k :: 0 <= k < buf.Length && !(at <= k < at + 512) ==> buf[k] == old(buf[k])
  {
    ghost var sector := drive.phase.rest;
    var i := 0;
    while i < 256
      invariant 0 <= i <= 256
      invariant drive.Valid() && drive.phase == if i < 256 then DataIn(sector[2 * i..]) else Idle
      invariant forall k :: at <= k < at + 2 * i ==> buf[k] == sector[k - at]
      invariant forall k :: 0 <= k < buf.Length && !(at <= k < at + 512) ==> buf[k] == old(buf[k])
    {
      var d := drive.InW();
      buf[at + i * 2], buf[at + i * 2 + 1] := d % 0x100, d / 0x100;
      i := i + 1;
    }
  }

  /** Reads one sector to `buf[at..at + 512]`, giving up after five failed commands. */
  method AtaReadSectorPio(drive: Drive, buf: array<u8>, at: nat, lba: int, ghost cpu: Cpu) returns (rc: int)
    requires drive.Valid() && at + 512 <= buf.Length && !cpu.irqEnabled
    modifies drive, buf
    ensures drive.Valid() && drive.disk == old(drive.disk)
    ensures rc == 0 || rc == -EIO
    ensures rc == 0 <==> Reachable(drive.disk, drive.reply, |old(drive.commands)|, Lba28(lba), MAX_ATTEMPTS)
    ensures drive.commands == old(drive.commands)
              + Reads(Lba28(lba), Attempts(drive.disk, drive.reply, |old(drive.commands)|, Lba28(lba), MAX_ATTEMPTS))
    ensures rc == 0 ==> Holds(drive.disk, Lba28(lba))
                        && buf[at..at + 512] == Sector(drive.disk, Lba28(lba))
    ensures forall k :: 0 <= k < buf.Length && (rc != 0 || !(at <= k < at + 512)) ==> buf[k] == old(buf[k])
    ensures drive.InStep() == old(drive.InStep())
  {
    rc := AtaRequestSector(drive, lba);
    if rc == 0 {
      AtaDrainSector(drive, buf, at);
      var _ := AtaWait(drive, false);
    }
  }

  /** Sends the 256 words of a data-out phase: the first `size` bytes in whole words, then zeros. */
  method AtaFillSector(drive: Drive, buf: array<u8>, at: nat, size: nat)
    requires drive.Valid() && drive.busy == [] && (drive.phase.DataOut? ==> drive.phase.got == [])
    requires at + size <= buf.Length
    modifies drive`phase, drive`status, drive`disk, drive`busy, drive`obeyed
    ensures drive.Valid() && drive.phase == if old(drive.phase).DataOut? then Idle else old(drive.phase)
    ensures drive.disk == if old(drive.phase).DataOut?
                          then WithSector(old(drive.disk), old(drive.phase.lba), SectorImage(buf[at..at + size]))
                          else old(drive.disk)
    ensures drive.busy == if old(drive.phase).DataOut? then old(drive.phase.settling) else []
    ensures drive.obeyed == (old(drive.obeyed) && old(drive.phase).DataOut? && drive.sawDataReady)
  {
    hide SectorImage, WithSector;
    ghost var start, was := drive.phase, drive.disk;
    ghost var image := SectorImage(buf[at..at + size]);
    var limit := if size >= 512 then 256 else size / 2;
    var i := 0;
    while i < 256
      invariant 0 <= i <= 256 && drive.Valid()
      invariant !start.DataOut? || i < 256 ==> drive.busy == [] && drive.disk == was
      invariant !start.DataOut? ==> drive.phase == start
      invariant start.DataOut? && i < 256 ==> drive.phase == DataOut(start.lba, image[..2 * i], start.settling)
      invariant start.DataOut? && i == 256 ==>
                  drive.phase == Idle && drive.busy == start.settling && drive.disk == WithSector(was, start.lba, image)
      invariant drive.obeyed == (old(drive.obeyed) && (i > 0 ==> start.DataOut? && drive.sawDataReady))
    {
      if i < limit {
        WordBytes(buf[at + 2 * i], buf[at + 2 * i + 1]);
        drive.OutW(Word(buf[at + 2 * i], buf[at + 2 * i + 1]));
      } else {
        drive.OutW(0);
      }
      ImageWord(buf[at..at + size], i);
      ImageGrows(image, i);
      i := i + 1;
    }
  }

  lemma ImageWord(data: seq<u8>, i: nat)
    requires i < 256
    ensures var image := SectorImage(data);
            if i < |data| / 2
            then image[2 * i] == data[2 * i] && image[2 * i + 1] == data[2 * i + 1]
            else image[2 * i] == 0 && image[2 * i + 1] == 0
  {
  }

  lemma ImageGrows(image: seq<u8>, i: nat)
    requires |image| == 512 && i < 256
    ensures image[..2 * i] + [image[2 * i], image[2 * i + 1]] == image[..2 * (i + 1)]
    ensures i == 255 ==> image[..2 * (i + 1)] == image
  {
  }

  /** What `size` bytes become on a 512-byte sector: whole words, zero padded. */
  function SectorImage(data: seq<u8>): (image: seq<u8>)
    ensures |image| == 512
  {
    seq(512, k requires 0 <= k < 512 => if k < |data| / 2 * 2 then data[k] else 0)
  }

  /** What the drive makes of sector `lba` when it is sent `image`. */
  function AfterSector(disk: seq<u8>, lba: nat, image: seq<u8>, taken: bool): (d: seq<u8>)
    requires |image| == 512
    ensures |d| == |disk|
    ensures forall k :: 0 <= k < |disk| ==>
              d[k] == if taken && Holds(disk, lba) && 512 * lba <= k < 512 * lba + 512
                      then image[k - 512 * lba] else disk[k]
  {
    if Holds(disk, lba) && taken then WithSector(disk, lba, image) else disk
  }

  /** Everything up to the data phase of a write: a WRITE command for sector `lba`. */
  method AtaBeginWrite(drive: Drive, lba: int)
    requires drive.Valid()
    modifies drive
    ensures drive.Valid() && drive.disk == old(drive.disk) && drive.busy == []
    ensures drive.commands == old(drive.commands) + [Write(Lba28(lba))]
    ensures var r := drive.reply(|old(drive.commands)|, Write(Lba28(lba)));
            if Serves(drive.disk, r, Lba28(lba))
            then drive.phase == DataOut(Lba28(lba), [], r.settling) && drive.sawDataReady
            else drive.phase == Idle
    ensures drive.obeyed == old(drive.InStep())
    ensures drive.head == 0xE0 + lba / 0x100_0000 % 0x10
  {
    var _ := AtaWait(drive, false);
    drive.OutB(ATA_REG_HDDEVSEL, HeadByte(lba));
    var _ := AtaWait(drive, false);
    AtaAddressSector(drive, lba);
    drive.OutCommand(ATA_CMD_WRITE_PIO);
    var _ := AtaWait(drive, false);
  }

  /** The drive gives the WRITE of sector `lba` a data phase and is idle right behind its last word. */
  predicate Clean(disk: seq<u8>, r: Reply, lba: nat) {
    Serves(disk, r, lba) && r.settling == []
  }

  /** The FLUSH behind the WRITE of sector `lba` meets a drive that is busy with the sector's last word. */
  predicate FlushLost(disk: seq<u8>, r: Reply, lba: nat) {
    Serves(disk, r, lba) && r.settling != []
  }

  /** What the drive takes up of the two commands that writing a sector sends. */
  function SectorLog(disk: seq<u8>, r: Reply, lba: nat): seq<Command> {
    [Write(lba)] + if FlushLost(disk, r, lba) then [] else [Flush]
  }

  /**
   Writes one sector.  Neither the outcome of the WRITE nor the drive's state behind
   the last word is looked at, so the protocol is kept only if both happen to be good.
   */
  method AtaWriteSectorPio(drive: Drive, buf: array<u8>, at: nat, lba: int, size: nat, ghost cpu: Cpu)
    requires drive.Valid() && at + size <= buf.Length && !cpu.irqEnabled
    modifies drive
    ensures drive.Valid() && drive.busy == [] && drive.phase == Idle
    ensures var r := drive.reply(|old(drive.commands)|, Write(Lba28(lba)));
            && drive.commands == old(drive.commands) + SectorLog(old(drive.disk), r, Lba28(lba))
            && drive.disk == AfterSector(old(drive.disk), Lba28(lba), SectorImage(buf[at..at + size]),
                                         DataReady(r.status))
            && (drive.InStep() <==> old(drive.InStep()) && Clean(old(drive.disk), r, Lba28(lba)))
  {
    AtaBeginWrite(drive, lba);
    AtaFillSector(drive, buf, at, size);
    drive.OutCommand(ATA_CMD_CACHE_FLUSH);
    var _ := AtaWait(drive, false);
  }

  // ---------------------------------------------------------------- bytes

  function NbBlocks(offset: nat, size: nat): nat {
    (offset + size) / 512 - offset / 512 + 1
  }

  /** Every one of `blocks` sectors from `lba` on arrives within its five attempts. */
  predicate RangeReachable(disk: seq<u8>, reply: Behaviour, n: nat, lba: nat, blocks: nat)
    decreases blocks
  {
    blocks == 0 || (
      && Reachable(disk, reply, n, lba, MAX_ATTEMPTS)
      && RangeReachable(disk, reply, n + Attempts(disk, reply, n, lba, MAX_ATTEMPTS), lba + 1, blocks - 1))
  }

  /** The READ commands that fetching `blocks` sectors costs, up to the first sector that is lost. */
  function ReadLog(disk: seq<u8>, reply: Behaviour, n: nat, lba: nat, blocks: nat): seq<Command>
    decreases blocks
  {
    if blocks == 0 then []
    else
      var k := Attempts(disk, reply, n, lba, MAX_ATTEMPTS);
      Reads(lba, k)
      + if Reachable(disk, reply, n, lba, MAX_ATTEMPTS) then ReadLog(disk, reply, n + k, lba + 1, blocks - 1) else []
  }

  /** What one more sector does to the log so far. */
  lemma RangeStep(log: seq<Command>, disk: seq<u8>, reply: Behaviour, lba: nat, blocks: nat)
    requires blocks > 0
    ensures var next := log + Reads(lba, Attempts(disk, reply, |log|, lba, MAX_ATTEMPTS));
            if Reachable(disk, reply, |log|, lba, MAX_ATTEMPTS)
            then log + ReadLog(disk, reply, |log|, lba, blocks)
                 == next + ReadLog(disk, reply, |next|, lba + 1, blocks - 1)
                 && (RangeReachable(disk, reply, |log|, lba, blocks)
                     <==> RangeReachable(disk, reply, |next|, lba + 1, blocks - 1))
            else log + ReadLog(disk, reply, |log|, lba, blocks) == next
                 && !RangeReachable(disk, reply, |log|, lba, blocks)
  {
    hide Reachable, Attempts, Reads;
  }

  lemma RangeNeedsCommands(disk: seq<u8>, reply: Behaviour, n: nat, lba: nat, blocks: nat)
    requires blocks > 0
    ensures |ReadLog(disk, reply, n, lba, blocks)| > 0
  {
  }

  lemma RangeEnd(disk: seq<u8>, reply: Behaviour, n: nat, lba: nat)
    ensures ReadLog(disk, reply, n, lba, 0) == [] && RangeReachable(disk, reply, n, lba, 0)
  {
  }

  /** The size of the temporary buffer, as `kmalloc` gets to see it: both the end of the range and the product wrap. */
  function BufferSize(offset: u32, size: u32): i32 {
    ToInt32(((offset + size) % 0x1_0000_0000 / 512 - offset / 512 + 1) * 512)
  }

  /** The block loop of `AtaRead`: fills the temporary buffer, or stops at the first lost sector. */
  method AtaReadBlocks(drive: Drive, buffer: array<u8>, block: nat, nbBlocks: nat, ghost cpu: Cpu) returns (rc: int)
    requires drive.Valid() && !cpu.irqEnabled && buffer.Length == nbBlocks * 512 && block + nbBlocks < 0x1000_0000
    modifies drive, buffer
    ensures drive.Valid() && drive.disk == old(drive.disk)
    ensures rc == if RangeReachable(drive.disk, drive.reply, |old(drive.commands)|, block, nbBlocks) then 0 else -EIO
    ensures drive.commands
         == old(drive.commands) + ReadLog(drive.disk, drive.reply, |old(drive.commands)|, block, nbBlocks)
    ensures drive.InStep() == old(drive.InStep())
    ensures rc == 0 && nbBlocks > 0 ==> Holds(drive.disk, block + nbBlocks - 1)
    ensures rc == 0 && nbBlocks > 0 ==>
              forall k :: 0 <= k < buffer.Length ==> buffer[k] == drive.disk[512 * block + k]
  {
    hide Reachable, Attempts, Reads, ReadLog, RangeReachable, Lba28;
    ghost var disk, reply, n := drive.disk, drive.reply, |drive.commands|;
    var i := 0;
    rc := 0;
    while i < nbBlocks
      invariant 0 <= i <= nbBlocks
      invariant drive.Valid() && drive.disk == disk && drive.InStep() == old(drive.InStep())
      invariant RangeReachable(disk, reply, n, block, nbBlocks)
            <==> RangeReachable(disk, reply, |drive.commands|, block + i, nbBlocks - i)
      invariant old(drive.commands) + ReadLog(disk, reply, n, block, nbBlocks)
             == drive.commands + ReadLog(disk, reply, |drive.commands|, block + i, nbBlocks - i)
      invariant i > 0 ==> Holds(disk, block + i - 1)
      invariant rc == 0 && forall k :: 0 <= k < 512 * i ==> buffer[k] == disk[512 * block + k]
    {
      SmallLba(block + i);
      RangeStep(drive.commands, disk, reply, block + i, nbBlocks - i);
      rc := AtaReadSectorPio(drive, buffer, 512 * i, block + i, cpu);
      if rc == -EIO {
        return;
      }
      SectorBytes(disk, block + i, buffer, 512 * i);
      i := i + 1;
    }
    RangeEnd(disk, reply, |drive.commands|, block + nbBlocks);
  }

  lemma SectorBytes(disk: seq<u8>, lba: nat, buffer: array<u8>, at: nat)
    requires Holds(disk, lba) && at + 512 <= buffer.Length
    requires buffer[at..at + 512] == Sector(disk, lba)
    ensures forall k :: at <= k < at + 512 ==> buffer[k] == disk[512 * lba + (k - at)]
  {
    forall k | at <= k < at + 512
      ensures buffer[k] == disk[512 * lba + (k - at)]
    {
      assert buffer[k] == buffer[at..at + 512][k - at];
    }
  }

  lemma SmallLba(lba: nat)
    requires lba < 0x1000_0000
    ensures Lba28(lba) == lba
  {
  }

  /** Where the requested bytes lie among the blocks that hold them. */
  lemma BlockBounds(offset: nat, size: nat)
    ensures var block, nb := offset / 512, NbBlocks(offset, size);
            && offset == 512 * block + offset % 512
            && offset % 512 + size < 512 * nb
            && (offset + size < 0x1_0000_0000 ==> block + nb <= 0x80_0000)
  {
  }

  /** The numbers that `AtaRead` computes, for a range that does not wrap. */
  lemma BlocksOfRange(offset: u32, size: u32)
    ensures var nbBlocks := (offset + size) % 0x1_0000_0000 / 512 - offset / 512 + 1;
            && BufferSize(offset, size) == ToInt32(nbBlocks * 512)
            && (offset + size < 0x1_0000_0000 ==> nbBlocks == NbBlocks(offset, size))
    ensures offset + size < 0x1_0000_0000 ==>
              var needed := 512 * ((offset + size) / 512 - offset / 512 + 1);
              && needed == 512 * NbBlocks(offset, size) > 0
              && (needed < 0x8000_0000 ==> BufferSize(offset, size) == needed)
              && (needed >= 0x8000_0000 ==> BufferSize(offset, size) <= 0)
  {
  }

  /** The requested bytes inside the blocks fetched. */
  lemma ReadWindow(disk: seq<u8>, buffer: seq<u8>, offset: nat, size: nat)
    requires 512 * (offset / 512) + |buffer| <= |disk| && offset % 512 + size <= |buffer|
    requires forall k :: 0 <= k < |buffer| ==> buffer[k] == disk[512 * (offset / 512) + k]
    ensures offset + size <= |disk|
    ensures buffer[offset % 512..offset % 512 + size] == disk[offset..offset + size]
  {
  }

  /** The end of `AtaRead`: copies the requested bytes out of the blocks fetched and frees the buffer. */
  method AtaCopyOut(heap: Heap, buffer: array<u8>, buf: array<u8>, offset: nat, size: nat, ghost disk: seq<u8>)
    requires buffer != buf && buffer in heap.live && size <= buf.Length
    requires 512 * (offset / 512) + buffer.Length <= |disk| && offset % 512 + size <= buffer.Length
    requires forall k :: 0 <= k < buffer.Length ==> buffer[k] == disk[512 * (offset / 512) + k]
    modifies heap`live, heap`freeCount, buf
    ensures offset + size <= |disk| && buf[..size] == disk[offset..offset + size]
    ensures forall k :: size <= k < buf.Length ==> buf[k] == old(buf[k])
    ensures heap.live == old(heap.live) - {buffer}
  {
    Stdlib.MmCopy(buffer, offset % 512, buf, 0, size);
    ReadWindow(disk, buffer[..], offset, size);
    assert buf[..size] == buffer[offset % 512..offset % 512 + size];
    heap.Free(buffer);
  }

  method AtaRead(drive: Drive, heap: Heap, cpu: Cpu, buf: array<u8>, offset: u32, size: u32) returns (rc: int)
    requires drive.Valid() && size <= buf.Length
    requires offset + size < 0x1_0000_0000 || BufferSize(offset, size) <= 0
    modifies drive, heap, cpu, buf
    ensures drive.Valid() && drive.disk == old(drive.disk) && drive.InStep() == old(drive.InStep())
    ensures !(&& offset + size < 0x1_0000_0000 && 512 * ((offset + size) / 512 - offset / 512 + 1) < 0x8000_0000
              && heap.grants(old(heap.mallocCount))) ==>
              rc == 0 && drive.commands == old(drive.commands) && cpu.irqEnabled == old(cpu.irqEnabled)
              && heap.live == old(heap.live) && buf[..] == old(buf[..])
    ensures && offset + size < 0x1_0000_0000 && 512 * ((offset + size) / 512 - offset / 512 + 1) < 0x8000_0000
            && heap.grants(old(heap.mallocCount)) ==>
              var n, block, nbBlocks := |old(drive.commands)|, offset / 512, NbBlocks(offset, size);
              && |drive.commands| > n && (rc == size || rc == -5)
              && rc == (if RangeReachable(drive.disk, drive.reply, n, block, nbBlocks) then size else -5)
              && drive.commands == old(drive.commands) + ReadLog(drive.disk, drive.reply, n, block, nbBlocks)
              && (rc >= 0 ==> cpu.irqEnabled && heap.live == old(heap.live) && offset + size <= |drive.disk|
                              && buf[..size] == drive.disk[offset..offset + size])
              && (rc < 0 ==> !cpu.irqEnabled && |heap.live - old(heap.live)| == 1 && old(heap.live) <= heap.live
                             && fresh(heap.live - old(heap.live)) && buf[..] == old(buf[..]))
    ensures forall k :: size <= k < buf.Length ==> buf[k] == old(buf[k])
  {
    hide Reachable, Attempts, Reads, ReadLog, RangeReachable, DataReady, NbBlocks, BufferSize, ToInt32;
    BlocksOfRange(offset, size);
    BlockBounds(offset, size);
    var blockBegin := offset / 512;
    var blockEnd := (offset + size) % 0x1_0000_0000 / 512;
    var nbBlocks := blockEnd - blockBegin + 1;
    var buffer := heap.AllocBytes(ToInt32(nbBlocks * 512));
    if buffer == null {
      return 0;
    }
    cpu.irqEnabled := false;
    RangeNeedsCommands(drive.disk, drive.reply, |drive.commands|, blockBegin, nbBlocks);
    rc := AtaReadBlocks(drive, buffer, blockBegin, nbBlocks, cpu);
    if rc == -EIO {
      return;
    }
    AtaCopyOut(heap, buffer, buf, offset, size, drive.disk);
    cpu.irqEnabled := true;
    return size;
  }

  // ---------------------------------------------------------------- bytes written

  /** How many bytes of the medium `AtaWrite` touches. */
  function WrittenLength(size: nat): nat {
    if size >= 512 then size / 512 * 512 else if size > 0 then 512 else 0
  }

  /** How many of them come from the caller; the others are zero. */
  function PayloadLength(size: nat): nat {
    if size >= 512 then size / 512 * 512 else size / 2 * 2
  }

  /** Byte k of the medium after writing `data` at `offset`, when the i-th sector is taken iff `taken(i)`. */
  function WrittenByte(disk: seq<u8>, data: seq<u8>, offset: nat, taken: nat -> bool, k: nat): u8
    requires k < |disk|
  {
    if offset <= k < offset + WrittenLength(|data|) && taken((k - offset) / 512)
    then if k - offset < PayloadLength(|data|) then data[k - offset] else 0
    else disk[k]
  }

  /** The medium as a flat array of bytes, after one `AtaWrite`. */
  function FlatWrite(disk: seq<u8>, data: seq<u8>, offset: nat, taken: nat -> bool): (d: seq<u8>)
    ensures |d| == |disk|
  {
    seq(|disk|, k requires 0 <= k < |disk| => WrittenByte(disk, data, offset, taken, k))
  }

  /**
   Byte by byte: from 512 bytes on, whole sectors of the data; below that, the data up
   to an even length and zeros to the end of the sector; without data, nothing.
   */
  lemma FlatWriteBytes(disk: seq<u8>, data: seq<u8>, offset: nat, taken: nat -> bool, k: nat)
    requires k < |disk|
    ensures |data| >= 512 ==>
              FlatWrite(disk, data, offset, taken)[k]
              == if offset <= k < offset + |data| / 512 * 512 && taken((k - offset) / 512)
                 then data[k - offset] else disk[k]
    ensures 0 < |data| < 512 ==>
              FlatWrite(disk, data, offset, taken)[k]
              == if offset <= k < offset + 512 && taken(0)
                 then if k - offset < |data| / 2 * 2 then data[k - offset] else 0
                 else disk[k]
    ensures |data| == 0 ==> FlatWrite(disk, data, offset, taken)[k] == disk[k]
  {
  }

  /** The commands that the drive takes up while `count` sectors from `block` on are written. */
  function WriteLog(disk: seq<u8>, reply: Behaviour, n: nat, block: nat, count: nat): seq<Command>
    decreases count
  {
    if count == 0 then []
    else
      var log := WriteLog(disk, reply, n, block, count - 1);
      var lba := block + count - 1;
      log + SectorLog(disk, reply(n + |log|, Write(lba)), lba)
  }

  /** Whether the drive gives the WRITE of the i-th sector a data phase, if the medium has that sector. */
  function Taken(disk: seq<u8>, reply: Behaviour, n: nat, block: nat): nat -> bool {
    (i: nat) => DataReady(reply(n + |WriteLog(disk, reply, n, block, i)|, Write(block + i)).status)
  }

  predicate CleanAt(disk: seq<u8>, reply: Behaviour, n: nat, block: nat, i: nat) {
    Clean(disk, reply(n + 2 * i, Write(block + i)), block + i)
  }

  /** Each of `count` WRITE commands is served, and behind its last word the drive is idle. */
  predicate CleanRun(disk: seq<u8>, reply: Behaviour, n: nat, block: nat, count: nat) {
    forall i :: 0 <= i < count ==> CleanAt(disk, reply, n, block, i)
  }

  lemma {:induction false} CleanRunLog(disk: seq<u8>, reply: Behaviour, n: nat, block: nat, count: nat)
    requires CleanRun(disk, reply, n, block, count)
    ensures |WriteLog(disk, reply, n, block, count)| == 2 * count
    ensures forall i :: 0 <= i < count ==>
              && WriteLog(disk, reply, n, block, count)[2 * i] == Write(block + i)
              && WriteLog(disk, reply, n, block, count)[2 * i + 1] == Flush
    decreases count
  {
    hide DataReady, Holds;
    if count > 0 {
      CleanRunLog(disk, reply, n, block, count - 1);
      assert CleanAt(disk, reply, n, block, count - 1);
    }
  }

  /** Only the size of the medium decides what is served. */
  lemma SameSize(disk: seq<u8>, now: seq<u8>, r: Reply, lba: nat)
    requires |now| == |disk|
    ensures Clean(now, r, lba) == Clean(disk, r, lba) && SectorLog(now, r, lba) == SectorLog(disk, r, lba)
  {
    hide DataReady;
  }

  lemma WriteLogStep(disk: seq<u8>, reply: Behaviour, n: nat, block: nat, i: nat)
    ensures var log := WriteLog(disk, reply, n, block, i);
            WriteLog(disk, reply, n, block, i + 1)
            == log + SectorLog(disk, reply(n + |log|, Write(block + i)), block + i)
  {
    hide SectorLog;
  }

  lemma TakenAt(disk: seq<u8>, reply: Behaviour, n: nat, block: nat, i: nat)
    ensures Taken(disk, reply, n, block)(i)
         == DataReady(reply(n + |WriteLog(disk, reply, n, block, i)|, Write(block + i)).status)
  {
    hide DataReady, WriteLog;
  }

  /** What one more sector does to the log and to the protocol. */
  lemma WriteStep(disk: seq<u8>, now: seq<u8>, reply: Behaviour, n: nat, block: nat, i: nat)
    requires |now| == |disk|
    ensures var m := n + |WriteLog(disk, reply, n, block, i)|;
            var r := reply(m, Write(block + i));
            && WriteLog(disk, reply, n, block, i + 1)
               == WriteLog(disk, reply, n, block, i) + SectorLog(now, r, block + i)
            && Taken(disk, reply, n, block)(i) == DataReady(r.status)
            && (CleanRun(disk, reply, n, block, i + 1)
                <==> CleanRun(disk, reply, n, block, i) && Clean(now, r, block + i))
  {
    hide DataReady, Clean, SectorLog, WriteLog, CleanRun, Taken;
    SameSize(disk, now, reply(n + |WriteLog(disk, reply, n, block, i)|, Write(block + i)), block + i);
    WriteLogStep(disk, reply, n, block, i);
    TakenAt(disk, reply, n, block, i);
    CleanRunStep(disk, reply, n, block, i);
    if CleanRun(disk, reply, n, block, i) {
      CleanRunLog(disk, reply, n, block, i);
    }
  }

  lemma CleanRunStep(disk: seq<u8>, reply: Behaviour, n: nat, block: nat, i: nat)
    ensures CleanRun(disk, reply, n, block, i + 1)
       <==> CleanRun(disk, reply, n, block, i) && Clean(disk, reply(n + 2 * i, Write(block + i)), block + i)
  {
    hide Clean;
    assert CleanAt(disk, reply, n, block, i) <==> Clean(disk, reply(n + 2 * i, Write(block + i)), block + i);
  }

  /** The medium when the first i sectors of a write have been dealt with. */
  ghost predicate WrittenUpTo(disk: seq<u8>, was: seq<u8>, data: seq<u8>, offset: nat, taken: nat -> bool, i: nat) {
    && |disk| == |was|
    && forall k :: 0 <= k < |was| ==>
         disk[k] == if offset <= k < offset + 512 * i then WrittenByte(was, data, offset, taken, k) else was[k]
  }

  /** Byte k of sector i, as the drive leaves it, is final. */
  lemma WrittenSectorByte(disk: seq<u8>, was: seq<u8>, data: seq<u8>, offset: nat, taken: nat -> bool, i: nat, k: nat)
    requires |disk| == |was| && offset + 512 * i <= k < offset + 512 * i + 512 <= |was|
    requires offset % 512 == 0 && 512 * i < WrittenLength(|data|) && disk[k] == was[k]
    ensures AfterSector(disk, offset / 512 + i, SectorImage(data[512 * i..]), taken(i))[k]
         == WrittenByte(was, data, offset, taken, k)
  {
    hide SectorImage;
    var j := k - offset - 512 * i;
    assert (k - offset) / 512 == i;
    ImageByte(data, i, j);
  }

  /** Dealing with sector i as the drive does moves `WrittenUpTo` on by one. */
  lemma WrittenStep(disk: seq<u8>, was: seq<u8>, data: seq<u8>, offset: nat, taken: nat -> bool, i: nat, sectors: nat)
    requires WrittenUpTo(disk, was, data, offset, taken, i) && |was| == 512 * sectors
    requires offset % 512 == 0 && 512 * i < WrittenLength(|data|)
    ensures WrittenUpTo(AfterSector(disk, offset / 512 + i, SectorImage(data[512 * i..]), taken(i)),
                        was, data, offset, taken, i + 1)
  {
    assert 512 * i <= |data|;
    hide SectorImage, WrittenByte, WrittenLength;
    var lba := offset / 512 + i;
    assert 512 * lba == offset + 512 * i;
    var after := AfterSector(disk, lba, SectorImage(data[512 * i..]), taken(i));
    forall k | 0 <= k < |was|
      ensures after[k] == if offset <= k < offset + 512 * (i + 1)
                          then WrittenByte(was, data, offset, taken, k) else was[k]
    {
      if 512 * lba <= k < 512 * lba + 512 {
        assert lba < sectors;
        WrittenSectorByte(disk, was, data, offset, taken, i, k);
      }
    }
  }

  lemma WriteNothing(was: seq<u8>, data: seq<u8>, reply: Behaviour, n: nat, offset: nat, taken: nat -> bool)
    ensures WrittenUpTo(was, was, data, offset, taken, 0)
    ensures WriteLog(was, reply, n, offset / 512, 0) == [] && CleanRun(was, reply, n, offset / 512, 0)
  {
  }

  lemma WrittenAll(disk: seq<u8>, was: seq<u8>, data: seq<u8>, offset: nat, taken: nat -> bool, i: nat)
    requires WrittenUpTo(disk, was, data, offset, taken, i) && 512 * i == WrittenLength(|data|)
    ensures disk == FlatWrite(was, data, offset, taken)
  {
  }

  /** How far the loop of `AtaWrite` has come after i sectors, and when it stops. */
  lemma WriteProgress(size: nat, i: nat, left: nat)
    requires i > 0 ==> size > 0
    requires left == if size >= 512 then size - 512 * i else if i == 0 then size else 0
    requires i <= if size > 512 then size / 512 else 1
    ensures i < (if size > 512 then size / 512 else 1) && left > 0 <==> 512 * i < WrittenLength(size)
    ensures 512 * i >= WrittenLength(size) ==> 512 * i == WrittenLength(size) && i == WrittenLength(size) / 512
    ensures size >= 512 && 512 * i < WrittenLength(size) ==> left >= 512
  {
  }

  /** Byte j of the image of sector i is byte 512 * i + j of the payload, or zero behind it. */
  lemma ImageByte(data: seq<u8>, i: nat, j: nat)
    requires 512 * i < WrittenLength(|data|) && j < 512
    ensures SectorImage(data[512 * i..])[j] == if 512 * i + j < PayloadLength(|data|) then data[512 * i + j] else 0
  {
    var left := data[512 * i..];
    if |data| >= 512 {
      var sectors := |data| / 512;
      assert i < sectors && 512 * sectors <= |data|;
      assert j < |left| / 2 * 2 && 512 * i + j < 512 * sectors == PayloadLength(|data|);
    } else {
      assert i == 0 && left == data;
    }
  }

  method AtaWrite(drive: Drive, cpu: Cpu, buf: array<u8>, offset: u32, size: u32) returns (rc: int)
    requires drive.Valid() && size <= buf.Length
    modifies drive, cpu
    ensures drive.Valid()
    ensures offset % 512 != 0 ==>
              rc == -1 && drive.disk == old(drive.disk) && drive.commands == old(drive.commands)
              && cpu.irqEnabled == old(cpu.irqEnabled) && drive.InStep() == old(drive.InStep())
    ensures offset % 512 == 0 ==>
              var was, n := old(drive.disk), |old(drive.commands)|;
              var block, sectors := offset / 512, WrittenLength(size) / 512;
              && rc == (if size > 512 then size / 512 else 1)
              && drive.disk == FlatWrite(was, buf[..size], offset, Taken(was, drive.reply, n, block))
              && drive.commands == old(drive.commands) + WriteLog(was, drive.reply, n, block, sectors)
              && (drive.InStep() <==> old(drive.InStep()) && CleanRun(was, drive.reply, n, block, sectors))
              && cpu.irqEnabled
  {
    hide WrittenUpTo, SectorImage, WrittenByte, FlatWrite, Taken, DataReady, WrittenLength, AfterSector, Lba28,
         WriteLog, SectorLog, CleanRun, Clean;
    var count := if size > 512 then size / 512 else 1;
    var block := offset / 512;
    if offset % 512 != 0 {
      return -1;
    }
    cpu.irqEnabled := false;
    ghost var was, n, data, reply := drive.disk, |drive.commands|, buf[..size], drive.reply;
    ghost var taken := Taken(was, reply, n, block);
    WriteNothing(was, data, reply, n, offset, taken);
    var i, left, at := 0, size, 0;
    while i < count && left > 0
      invariant 0 <= i <= count && drive.Valid() && !cpu.irqEnabled
      invariant drive.commands == old(drive.commands) + WriteLog(was, reply, n, block, i)
      invariant drive.InStep() <==> old(drive.InStep()) && CleanRun(was, reply, n, block, i)
      invariant WrittenUpTo(drive.disk, was, data, offset, taken, i)
      invariant at + left == size && (i > 0 ==> size > 0)
      invariant left == if size >= 512 then size - 512 * i else if i == 0 then size else 0
    {
      WriteProgress(size, i, left);
      SmallLba(block + i);
      assert buf[at..at + left] == data[512 * i..];
      WrittenStep(drive.disk, was, data, offset, taken, i, drive.sectors);
      WriteStep(was, drive.disk, reply, n, block, i);
      AtaWriteSectorPio(drive, buf, at, block + i, left, cpu);
      if left >= 512 {
        left := left - 512;
        at := at + 512;
      } else {
        at := at + left;
        left := 0;
      }
      i := i + 1;
    }
    cpu.irqEnabled := true;
    WriteProgress(size, i, left);
    WrittenAll(drive.disk, was, data, offset, taken, i);
    return count;
  }
}
