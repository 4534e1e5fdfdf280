/**
 An ATA drive as the driver meets it through its ports: register latches, a
 status byte, PIO data phases and the medium.  It follows the PIO data-in and
 data-out protocols of ATA/ATAPI-6 (INCITS 361), sections 9.5 and 9.6.

 How the drive behaves is fixed by `reply`: for the n-th command it takes, how
 long it stays busy, which status byte it shows afterwards, and how long it is busy
 again with the last word of a data-out phase.  Nothing is assumed about `reply`, so
 a theorem about the driver holds for every behaviour, errors included.

 The host's side of the protocol is a precondition where a breach would have no
 meaning (reading the data port, writing a latch).  The command port and the data
 port for writing accept everything: `obeyed` records whether the host has kept to
 the protocol, and what comes while it does not listen is lost on the drive.
 A sector has 512 bytes.
 */
module AtaDrive {
  import opened KernelTypes

  const ATA_REG_FEATURES := 1
  const ATA_REG_SECCOUNT0 := 2
  const ATA_REG_LBA0 := 3
  const ATA_REG_LBA1 := 4
  const ATA_REG_LBA2 := 5
  const ATA_REG_HDDEVSEL := 6

  const ATA_CMD_READ_PIO := 0x20
  const ATA_CMD_WRITE_PIO := 0x30
  const ATA_CMD_CACHE_FLUSH := 0xE7

  datatype Command = Read(lba: nat) | Write(lba: nat) | Flush

  predicate IsBusy(status: u8) {
    status / 0x80 == 1
  }

  predicate HasFault(status: u8) {
    status / 0x20 % 2 == 1
  }

  predicate HasRequest(status: u8) {
    status / 0x08 % 2 == 1
  }

  predicate HasError(status: u8) {
    status % 2 == 1
  }

  /** No error, no fault, and data requested. */
  predicate DataReady(status: u8) {
    !HasError(status) && !HasFault(status) && HasRequest(status)
  }

  /** The bits of a status byte: BSY is the eighth, DF the sixth, DRQ the fourth and ERR the first. */
  lemma StatusBits(status: u8)
    ensures IsBusy(status) <==> status >= 0x80
    ensures HasFault(status) <==> status % 0x40 >= 0x20
    ensures HasRequest(status) <==> status % 0x10 >= 0x08
    ensures HasError(status) <==> status % 2 == 1
    ensures DataReady(status) <==> status % 2 == 0 && status % 0x40 < 0x20 && status % 0x10 >= 0x08
  {
  }

  function WithBusy(status: u8): (s: u8)
    ensures IsBusy(s) && s % 0x80 == status % 0x80
  {
    0x80 + status % 0x80
  }

  function WithError(status: u8): (s: u8)
    ensures HasError(s) && s / 2 == status / 2
  {
    status / 2 * 2 + 1
  }

  /** A status byte with BSY clear. */
  type Settled = s: u8 | s < 0x80

  /**
   The status bytes shown while busy (BSY is forced on), the one that follows, and
   those shown while the drive is busy with the last word of a data-out phase.
   */
  datatype Reply = Reply(busy: seq<u8>, status: Settled, settling: seq<u8>)

  /** What the drive answers to its n-th command. */
  type Behaviour = (nat, Command) -> Reply

  datatype Phase = Idle | DataIn(rest: seq<u8>) | DataOut(lba: nat, got: seq<u8>, settling: seq<u8>)

  /** The medium has a sector `lba`. */
  predicate Holds(disk: seq<u8>, lba: nat) {
    512 * lba + 512 <= |disk|
  }

  /** Whether the drive goes into a data phase for sector `lba` when it means to answer `r`. */
  predicate Serves(disk: seq<u8>, r: Reply, lba: nat) {
    Holds(disk, lba) && DataReady(r.status)
  }

  function Sector(disk: seq<u8>, lba: nat): (s: seq<u8>)
    requires Holds(disk, lba)
    ensures |s| == 512
  {
    disk[512 * lba..512 * lba + 512]
  }

  function WithSector(disk: seq<u8>, lba: nat, s: seq<u8>): (d: seq<u8>)
    requires Holds(disk, lba) && |s| == 512
    ensures |d| == |disk|
  {
    disk[..512 * lba] + s + disk[512 * lba + 512..]
  }

  /** The 28-bit address that four latch values make up. */
  function LatchedLba(low: u8, mid: u8, high: u8, head: u8): nat {
    low as int + 0x100 * mid as int + 0x1_0000 * high as int + 0x100_0000 * (head as int % 16)
  }

  /** The command that a byte on the command port stands for, when the latches hold `lba`. */
  function Issued(command: u8, lba: nat): (c: Command)
    ensures command == 0x20 ==> c == Read(lba)
    ensures command == 0x30 ==> c == Write(lba)
    ensures command == 0xE7 ==> c == Flush
  {
    if command == ATA_CMD_READ_PIO then Read(lba)
    else if command == ATA_CMD_WRITE_PIO then Write(lba)
    else Flush
  }

  lemma WordBytes(lo: u8, hi: u8)
    ensures Word(lo, hi) % 0x100 == lo && Word(lo, hi) / 0x100 == hi
  {
  }

  class Drive {
    const reply: Behaviour
    const sectors: nat
    var disk: seq<u8>
    /** Every command received, oldest first. */
    var commands: seq<Command>
    var sectorCount: u8
    var lbaLow: u8
    var lbaMid: u8
    var lbaHigh: u8
    var head: u8
    var busy: seq<u8>
    var status: Settled
    var phase: Phase
    /** The host has seen BSY, ERR and DF clear and DRQ set since the last command. */
    var sawDataReady: bool
    /** Every access so far kept to the host's side of the protocol. */
    ghost var obeyed: bool

    /** The host has kept to the protocol, and no transfer is under way. */
    ghost predicate InStep()
      reads this
    {
      obeyed && phase == Idle
    }

    ghost predicate Valid()
      reads this
    {
      && |disk| == 512 * sectors
      && (phase.DataIn? ==> 0 < |phase.rest| <= 512 && |phase.rest| % 2 == 0 && DataReady(status))
      && (phase.DataOut? ==> |phase.got| < 512 && |phase.got| % 2 == 0 && Holds(disk, phase.lba))
    }

    constructor (disk: seq<u8>, reply: Behaviour)
      requires |disk| % 512 == 0
      ensures Valid() && this.disk == disk && this.reply == reply && commands == [] && busy == [] && InStep()
    {
      this.disk, this.reply, sectors := disk, reply, |disk| / 512;
      commands, busy, status, phase, sawDataReady := [], [], 0, Idle, false;
      sectorCount, lbaLow, lbaMid, lbaHigh, head, obeyed := 0, 0, 0, 0, 0, true;
    }

    /** The 28-bit address in the latches. */
    function Lba(): nat
      reads this
    {
      LatchedLba(lbaLow, lbaMid, lbaHigh, head)
    }

    /** `inb` from the status port. */
    method InStatus() returns (s: u8)
      requires Valid()
      modifies this`busy, this`sawDataReady
      ensures Valid()
      ensures old(busy) != [] ==> IsBusy(s) && busy == old(busy)[1..] && sawDataReady == old(sawDataReady)
      ensures old(busy) == [] ==> s == status && !IsBusy(s) && busy == []
      ensures old(busy) == [] ==> sawDataReady == (old(sawDataReady) || DataReady(s))
    {
      if busy != [] {
        s := WithBusy(busy[0]);
        busy := busy[1..];
      } else {
        s := status;
        sawDataReady := sawDataReady || DataReady(s);
      }
    }

    /** `outb` to a register latch: never while the drive is busy, and against the protocol during a transfer. */
    method OutB(reg: nat, value: u8)
      requires Valid() && busy == [] && 1 <= reg <= 6
      modifies this`sectorCount, this`lbaLow, this`lbaMid, this`lbaHigh, this`head, this`obeyed
      ensures Valid() && obeyed == old(InStep())
      ensures sectorCount == (if reg == 2 then value else old(sectorCount))
      ensures lbaLow == (if reg == 3 then value else old(lbaLow))
      ensures lbaMid == (if reg == 4 then value else old(lbaMid))
      ensures lbaHigh == (if reg == 5 then value else old(lbaHigh))
      ensures head == (if reg == 6 then value else old(head))
    {
      obeyed := obeyed && phase == Idle;
      if reg == ATA_REG_SECCOUNT0 {
        sectorCount := value;
      } else if reg == ATA_REG_LBA0 {
        lbaLow := value;
      } else if reg == ATA_REG_LBA1 {
        lbaMid := value;
      } else if reg == ATA_REG_LBA2 {
        lbaHigh := value;
      } else if reg == ATA_REG_HDDEVSEL {
        head := value;
      }
    }

    /** `outb` to the command port: the drive takes up the command and turns busy; a busy drive loses it. */
    method OutCommand(command: u8)
      requires Valid()
      requires command == 0x20 || command == 0x30 || command == 0xE7
      requires command != 0xE7 ==> sectorCount == 1
      modifies this`commands, this`busy, this`status, this`phase, this`sawDataReady, this`obeyed
      ensures Valid()
      ensures old(busy) != [] ==>
                && !obeyed && commands == old(commands) && busy == old(busy)
                && status == old(status) && phase == old(phase) && sawDataReady == old(sawDataReady)
      ensures old(busy) == [] ==>
                var lba := Lba();
                var r := reply(|old(commands)|, Issued(command, lba));
                && obeyed == old(InStep()) && !sawDataReady && busy == r.busy
                && commands == old(commands) + [Issued(command, lba)]
                && (command == 0xE7 ==> phase == Idle)
                && (command != 0xE7 ==> (DataReady(status) <==> Serves(disk, r, lba)))
                && (command == 0x20 ==>
                      phase == if DataReady(status) then DataIn(Sector(disk, lba)) else Idle)
                && (command == 0x30 ==>
                      phase == if DataReady(status) then DataOut(lba, [], r.settling) else Idle)
    {
      hide Sector, LatchedLba, HasFault, HasRequest;
      if busy != [] {
        obeyed := false;
        return;
      }
      obeyed := obeyed && phase == Idle;
      var lba := Lba();
      var r := reply(|commands|, Issued(command, lba));
      commands := commands + [Issued(command, lba)];
      busy, sawDataReady, phase, status := r.busy, false, Idle, r.status;
      if command == ATA_CMD_CACHE_FLUSH {
        return;
      }
      if !Holds(disk, lba) {
        status := WithError(r.status);
      }
      if DataReady(status) {
        phase := if command == ATA_CMD_READ_PIO then DataIn(Sector(disk, lba)) else DataOut(lba, [], r.settling);
      }
    }

    /** `inw` from the data port: only in a data-in phase, and only after a status that said so. */
    method InW() returns (word: u16)
      requires Valid() && busy == [] && phase.DataIn? && sawDataReady
      modifies this`phase, this`status
      ensures Valid()
      ensures word % 0x100 == old(phase.rest)[0] && word / 0x100 == old(phase.rest)[1]
      ensures phase == (if |old(phase.rest)| == 2 then Idle else DataIn(old(phase.rest)[2..]))
    {
      word := Word(phase.rest[0], phase.rest[1]);
      WordBytes(phase.rest[0], phase.rest[1]);
      if |phase.rest| == 2 {
        phase, status := Idle, 0x40;
      } else {
        phase := DataIn(phase.rest[2..]);
      }
    }

    /**
     `outw` to the data port.  The host may do this only once it has seen DRQ for a
     data-out phase; outside such a phase the word is lost.  The last word of the
     sector makes the drive busy for as long as its reply says.
     */
    method OutW(word: u16)
      requires Valid()
      modifies this`phase, this`status, this`disk, this`busy, this`obeyed
      ensures Valid() && obeyed == (old(obeyed) && old(phase).DataOut? && old(busy) == [] && sawDataReady)
      ensures !old(phase).DataOut? || old(busy) != [] ==>
                disk == old(disk) && phase == old(phase) && busy == old(busy)
      ensures old(phase).DataOut? && old(busy) == [] ==>
                var got := old(phase.got) + [word % 0x100, word / 0x100];
                if |got| < 512
                then disk == old(disk) && phase == old(phase).(got := got) && busy == []
                else && disk == WithSector(old(disk), old(phase.lba), got)
                     && phase == Idle && busy == old(phase.settling)
    {
      obeyed := obeyed && phase.DataOut? && busy == [] && sawDataReady;
      if phase.DataOut? && busy == [] {
        var got := phase.got + [word % 0x100, word / 0x100];
        if |got| < 512 {
          phase := phase.(got := got);
        } else {
          disk := WithSector(disk, phase.lba, got);
          busy, phase, status := phase.settling, Idle, 0x40;
        }
      }
    }
  }
}
