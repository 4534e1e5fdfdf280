# LtKernel: a verified model of its drivers, libraries and allocator

This project models the state-changing core of LtKernel, a small 32-bit x86 kernel
written in C, and proves what that core promises over every input and every run.
`dafny verify dfyconfig.toml` checks all of it.

| component | files | main results |
|---|---|---|
| ATA PIO driver (`kernel/drivers/ata.c`) | `AtaDrive.dfy`, `AtaDriver.dfy`, `AtaTheorems.dfy` | the disk is one flat byte array; reading keeps to the PIO data-in protocol in every run; exactly when writing keeps to the data-out protocol, when reads succeed and when writes survive |
| heap allocator (`kernel/lib/kmalloc.c`) | `HeapBlocks.dfy`, `Kmalloc.dfy`, `HeapRuns.dfy`, `HeapSimulation.dfy` | headers in raw bytes tile the heap after every call; memory handed out is zero, disjoint and, over whole runs, holds what its holders stored; exactly when a run leaves a double free recognisable; the rest of the kernel's view of the allocator is sound |
| text terminal (`kernel/drivers/screen.c`) | `Screen.dfy`, `ScreenTheorems.dfy` | video memory is a window on an endless log of rows; what it shows where nothing was printed |
| formatter (`kernel/lib/stdio.c`) | `Numerals.dfy`, `Stdio.dfy`, `StdioTheorems.dfy` | the pointer walk prints a pure function of format and arguments; numerals read back |
| lists and handles (`kernel/lib/list.c`, `kernel/lib/handle.c`) | `LinkedList.dfy`, `Handles.dfy` | first in, first out, with no use after free; handles are distinct for 2^30 creations; exactly when the newest directory is found under its handle |
| debugger protocol (`kernel/debug/ltdbgcom.c`) | `DebugCom.dfy` | packets, requests and responses arrive as they were sent, a stream of packets exactly if there is memory for each |
| page heap (`kernel/init/heap.c`) | `PageHeap.dfy` | the list of blocks that is built and freed |
| library (`kernel/lib/stdlib.c`) | `Stdlib.dfy` | `MmCopy` on overlapping memory, `StrCmp` |

`KernelTypes.dfy` and `Arithmetic.dfy` hold machine integers and the arithmetic
they need; `KernelHeap.dfy` is the allocator as all its
callers see it.

## How to read the model

- **Encoding of two cited files.** `kernel/lib/kmalloc.c` and `kernel/user/syscalls.c`
  are written in ISO-8859-1 (their French comments are not UTF-8);
  their line numbers are those of the files read in that encoding.
- **Environment as arguments.** What the kernel cannot decide is a function chosen
  once and for all: how the drive answers its n-th command (`Drive.reply`) and
  whether the n-th allocation is granted (`Heap.grants`). Nothing is assumed about
  them, so a theorem covers every behaviour; where a theorem needs a well-behaved
  drive, its `requires` says so.
- **Protocol as preconditions.** Reading the data port needs a drive in a data phase
  and a status that showed BSY, ERR and DF clear and DRQ set; writing a register needs
  a drive that is not busy; freeing and reading a list node or page block needs memory
  that the heap holds; transferring a sector needs interrupts off. The driver methods
  verify, so they follow these rules.
- **Protocol as a record.** The driver does break the data-out protocol, so the ports
  that writing uses accept everything: `Drive.obeyed` says whether the host has kept to
  the rules (commands and register writes only to an idle drive, data words only after
  DRQ was seen), a command sent to a busy drive is lost, and so is a data word outside
  a data phase. `Drive.InStep` adds that no transfer is under way. Reading preserves it
  always, writing exactly under the condition that `AtaDriver.AtaWrite` states.
- **The drive** follows the PIO data-in and data-out protocols of ATA/ATAPI-6
  (INCITS 361), sections 9.5 and 9.6, including the time it is busy with the last word
  of a sector. A command for a sector that the medium does not have is answered with
  ERR. What a FLUSH is answered with is left open; it need not show DRQ.
- **Addresses.** In `Kmalloc` a pointer is an offset from the base of the kernel heap,
  so 0 can stand for NULL. In the other components an object reference is a pointer.
- **Literals.** The specification functions are pinned by statements that do without
  them: register numbers, command and status bits, register bytes and wire formats byte
  by byte, control characters by their codes, first fit by block sizes, each directive
  of a format by what it prints.
- Long C functions are cut into several methods at natural seams (a loop, a `switch`);
  each row below names the lines it covers.

## What the code does that one would not expect

Each of these is proved, with the exact condition under which it happens.

- `AtaRead` always fetches the sector behind the range, so a range that ends where the
  medium ends is never delivered (`AtaTheorems.ReadSucceedsIff`, `LastSectorUnreadable`).
- `AtaWrite` loses a partial last sector of a long write and the last byte of an odd
  short one; writing and reading back is the identity for every content exactly for
  multiples of 512 and for even sizes below 512 (`AtaTheorems.WriteReadRoundTrip`).
- `AtaWriteSectorPio` looks neither at the outcome of the WRITE nor at the drive behind
  the last word: words go to a drive that asked for none, and the FLUSH is lost on a
  drive that is still storing. A write keeps to the protocol exactly if the drive serves
  every WRITE and is idle right behind each last word (`AtaDriver.AtaWrite`,
  `AtaTheorems.FlushesTakenIff`, `FaultlessKeepsProtocolIff`); each half fails on a
  faultless drive (`WordsNobodyAskedFor`, `FlushMeetsBusyDrive`).
- On `-EIO`, `AtaRead` leaves interrupts off and its buffer allocated; `SendResponse`
  never frees its buffer, and a request without memory for its parameter loses the
  packet's.
- A packet that arrives when there is no memory leaves its content on the line, where it
  is taken for the next packets; a stream arrives as it was sent exactly if every
  request for memory is granted (`DebugCom.StreamRoundTripIff`, `FirstFailure`).
- The terminal has 26 rows although `screen.h` speaks of 25; the branch of `ScScrollUp`
  that clears the last row is never taken. So once it has scrolled, the last line shows
  the line above it a second time wherever nothing has been printed yet, and the window
  is the log on a blank page exactly if what is left over in the cells never printed is
  blank (`ScreenTheorems.LastLineEchoes`, `WindowIsLogIff`; a run: `WindowIsNotLog`).
- A doubled percent sign is not an escape, and `%p` is printed as it stands
  (`StdioTheorems.UnknownConversion`, `PercentIsNotEscaped`, `PointerIsLiteral`).
- A list from which the last item is popped is gone: pushes on it are lost
  (`LinkedList.NothingLostIff`, `GoneForGood`).
- `StrCmp` answers 0 whenever one string is empty (`Stdlib.StrOrderZeroIff`).
- One pass of `_kdefrag` leaves neighbouring free blocks exactly when it met three in a
  row (`HeapBlocks.CoalesceIncomplete`); two requests and a release in a young heap get
  there (`HeapRuns.FreeNeighboursRemain`).
- A double free is not always recognised. A request overwrites the four bytes in front
  of the pointer if they overlap the block handed out, its header, or the header behind
  it; a release makes them read as free again if its block or a seam of the pass over
  the heap covers them. Folding this over a run says exactly which pointers count as
  freed behind it (`HeapRuns.FreedIffRecognised`). A header may make such bytes read as
  a used block although the pointer's own memory is free (`StaleHeaderReadsUsed`, from
  a heap of one page). In memory the byte in front of the pointer decides
  (`HeapRuns.ReadsFreeIff`).
- Handles repeat after 2^30 creations: the newest directory is found under its handle
  exactly if no listed directory was created a multiple of 2^30 creations earlier
  (`Handles.NewestIsFoundIff`, `OldestHidesNewest`); and opening reports success even if
  the directory could not be listed (`Handles.OpenDir`).

## Model

| member | source | states |
|---|---|---|
| AtaDrive.Drive.InW | kernel/drivers/ata.c:91-95 | a data word may be taken only in a data-in phase, after a status with BSY, ERR and DF clear and DRQ set; it carries the next two bytes of the sector, low byte first |
| AtaDrive.Drive.OutW | kernel/drivers/ata.c:160-171 | a word keeps to the protocol only if DRQ was seen for a data-out phase, and is lost outside such a phase; the 256th puts the sector on the medium and makes the drive busy for as long as its reply says |
| AtaDrive.Drive.OutCommand | kernel/drivers/ata.c:80-80 | an idle drive takes the command, for the sector in the latches, and opens a data phase exactly if it means to serve it and the medium has the sector; a busy drive loses the command, and the record of obedience says so |
| AtaDrive.StatusBits | kernel/drivers/ata.h:5-12 | which bit of a status byte is BSY, DF, DRQ and ERR, and when data is ready |
| AtaDriver.LbaLatches | kernel/drivers/ata.c:74-79 | for every `int`, the four latch bytes make up its low 28 bits |
| AtaDriver.AtaStatusWait | kernel/drivers/ata.c:19-33 | polling ends with the settled status, or, with a positive timeout, with a busy status exactly when the drive stays busy for longer |
| AtaDriver.AtaWait | kernel/drivers/ata.c:43-60 | returns with the drive not busy; the advanced form fails exactly on ERR, DF or missing DRQ |
| AtaDriver.AttemptsMade | kernel/drivers/ata.c:67-89 | failed commands are counted, success stops the count, and the sector is reachable exactly if a command before the limit succeeds |
| AtaDriver.AtaTryRead | kernel/drivers/ata.c:69-82 | one READ command for the sector is issued, in LBA mode to the master, and it fails exactly when the drive does not serve it |
| AtaDriver.AtaRequestSector | kernel/drivers/ata.c:69-89 | between one and five READ commands, all for the sector asked for and all sent as the protocol demands; -5 after five, exactly if none of them is served |
| AtaDriver.AtaDrainSector | kernel/drivers/ata.c:91-95 | 256 words fill exactly 512 bytes of the buffer with the sector's bytes in order |
| AtaDriver.AtaReadSectorPio | kernel/drivers/ata.c:62-99 | 0 exactly if one of five commands is served, and then the 512 bytes are those of the sector; otherwise the buffer is untouched; called only with interrupts off |
| AtaDriver.AtaReadBlocks | kernel/drivers/ata.c:123-131 | the temporary buffer holds the consecutive sectors, or the first lost sector ends the read with -EIO |
| AtaDriver.ReadWindow | kernel/drivers/ata.c:133-133 | the bytes copied out of the fetched blocks are the disk's bytes of the requested range |
| AtaDriver.BlockBounds | kernel/drivers/ata.c:109-111 | the copy stays strictly inside the fetched blocks, and block numbers stay below 2^28 |
| AtaDriver.AtaRead | kernel/drivers/ata.c:101-138 | with memory and fewer than 2^31 bytes of sectors to fetch: at least one command, and the size with exactly the disk's bytes, interrupts on and the buffer freed, or -5 with interrupts off and the buffer lost; otherwise 0 and nothing happens; the full list of commands; the data-in protocol is kept in every case |
| AtaTheorems.ReadSucceedsIff | kernel/drivers/ata.c:109-131 | on a drive that never fails five times in a row a read succeeds exactly if the range ends before the end of the medium; on any drive only then |
| AtaTheorems.PatienceIsSharp | kernel/drivers/ata.c:82-89 | five attempts bridge four failures in a row, and not five |
| AtaTheorems.LastSectorUnreadable | kernel/drivers/ata.c:110-111 | a faultless one-sector drive cannot deliver its sector |
| AtaTheorems.ReadLogShape | kernel/drivers/ata.c:84-88 | a read issues READ commands only, for its own sectors, at most five each |
| AtaDriver.AtaFillSector | kernel/drivers/ata.c:159-171 | the sector receives the whole words of the data and zeros behind them, if the drive takes data |
| AtaDriver.AtaBeginWrite | kernel/drivers/ata.c:145-157 | one WRITE command for the sector, leading to a data-out phase exactly if the drive serves it |
| AtaDriver.AtaWriteSectorPio | kernel/drivers/ata.c:140-177 | exactly the addressed sector becomes the padded data, if the drive takes it; a WRITE and, unless it meets a busy drive, a FLUSH arrive; the protocol is kept exactly if the WRITE is served and the drive is idle right behind the last word |
| AtaDriver.CleanRunLog | kernel/drivers/ata.c:193-209 | a write that keeps to the protocol has a WRITE and a FLUSH arrive for each of its sectors in turn |
| AtaDriver.WrittenStep | kernel/drivers/ata.c:193-209 | after i rounds exactly the first i sectors of the range are as they will stay |
| AtaDriver.AtaWrite | kernel/drivers/ata.c:179-212 | refuses unaligned offsets; otherwise every byte of the medium is, one by one, payload, padding or unchanged; the exact list of commands that arrive; the protocol is kept exactly if every WRITE is served and no last word leaves the drive busy |
| AtaDriver.FlatWriteBytes | kernel/drivers/ata.c:159-209 | byte by byte what a write leaves: from 512 bytes on whole sectors of data, below that whole words and zeros, without data nothing |
| AtaTheorems.WriteReadRoundTrip | kernel/drivers/ata.c:179-212 | writing and reading back returns every content exactly for sizes that are multiples of 512 or even and below 512 |
| AtaTheorems.FlushesTakenIff | kernel/drivers/ata.c:172-174 | all FLUSH commands of a write arrive exactly if no sector leaves the drive busy |
| AtaTheorems.FlushMeetsBusyDrive | kernel/drivers/ata.c:172-172 | a faultless drive that stores for one poll loses the first FLUSH |
| AtaTheorems.WordsNobodyAskedFor | kernel/drivers/ata.c:157-171 | a faultless drive without the sector is sent 256 words and a FLUSH all the same: the protocol is broken and the medium is as it was |
| AtaTheorems.FaultlessKeepsProtocolIff | kernel/drivers/ata.c:140-209 | on a faultless drive a write keeps to the protocol exactly if it stays on the medium and every FLUSH arrives |
| AtaTheorems.WriteThenRead | kernel/drivers/ata.c:101-212 | the driver run end to end, on a drive that takes this write's sectors and never fails five reads in a row: a successful read returns the bytes, and it succeeds exactly if the range ends before the medium does |
| AtaTheorems.FaultlessSuffices | kernel/drivers/ata.c:82-89 | both hypotheses hold on every drive that serves its READ and WRITE commands, whatever it answers to a FLUSH |
| AtaTheorems.LastWriteWins | kernel/drivers/ata.c:179-212 | after any run of writes a byte is what the last write covering it put there, padding included, or what it was at first |
| AtaTheorems.WriteInRun | kernel/drivers/ata.c:179-212 | as long as every sector is taken, the medium is at all times the flat array that the run of writes produces |
| AtaTheorems.RunWrites | kernel/drivers/ata.c:179-212 | a run of calls of the driver, refused ones included, leaves the medium that the flat array replays to, as long as every sector is taken |
| AtaTheorems.WritesThenRead | kernel/drivers/ata.c:101-212 | after any such run a read agrees with the flat array, exactly if its range ends before the medium does |
| AtaTheorems.FaultlessTakesRun | kernel/drivers/ata.c:82-89 | a drive that serves its READ and WRITE commands takes every run |
| HeapBlocks.AllocLive | kernel/lib/kmalloc.c:122-138 | taking a block adds exactly one region to what is handed out, of at least the size asked for and at most seven bytes more, and keeps the length of the heap |
| HeapBlocks.FreeLive | kernel/lib/kmalloc.c:100-110 | freeing a block takes exactly its region away |
| HeapBlocks.LiveDisjoint | kernel/lib/kmalloc.c:122-170 | no two regions handed out share a byte |
| HeapBlocks.LiveIff | kernel/lib/kmalloc.c:137-138 | what is handed out is exactly what lies behind the headers of used blocks |
| HeapBlocks.HeldIff | kernel/lib/kmalloc.c:100-100 | held are exactly the addresses four bytes behind the start of a used block |
| HeapBlocks.CoalesceLive | kernel/lib/kmalloc.c:172-190 | a defragmentation pass moves nothing that is handed out and loses no byte |
| HeapBlocks.CoalesceIncomplete | kernel/lib/kmalloc.c:172-190 | a pass leaves neighbouring free blocks exactly when it met three in a row |
| HeapBlocks.CoalesceFreed | kernel/lib/kmalloc.c:172-190 | joining blocks makes exactly those pointers recognisable whose preceding bytes overlapped a header that is gone |
| HeapBlocks.ReleaseFreed | kernel/lib/kmalloc.c:109-112 | releasing a block and the pass that follows make exactly the pointers of the block and of the seams recognisable |
| HeapBlocks.StoreKeepsTiles | kernel/lib/kmalloc.c:78-90 | who stores into memory that was handed out leaves every header and every free block intact |
| HeapBlocks.FreedReadsFree | kernel/lib/kmalloc.c:100-107 | in memory, the header in front of a freed pointer says free, even when its block was swallowed by another |
| HeapBlocks.AllocFreed | kernel/lib/kmalloc.c:126-138 | a request makes exactly those freed pointers unrecognisable whose preceding bytes it overwrites, and no others recognisable |
| HeapBlocks.PagesSuffice | kernel/lib/kmalloc.c:142-154 | the pages asked for always hold the request |
| Kmalloc.Kernel.Mod | kernel/lib/kmalloc.c:115-120 | `_mod` answers 1 for every positive number, so an exact multiple costs one page more |
| Kmalloc.Kernel.Ksbrk | kernel/lib/kmalloc.c:31-76 | grows the heap by one zeroed free block unless that passes the limit, and changes no byte below |
| Kmalloc.Kernel.FindBlock | kernel/lib/kmalloc.c:126-132 | walking the headers in memory finds the first free block that is large enough, if there is one |
| Kmalloc.Kernel.SplitBlock | kernel/lib/kmalloc.c:164-170 | two well-formed free blocks in place of one, nothing outside touched |
| Kmalloc.Kernel.TakeBlock | kernel/lib/kmalloc.c:134-159 | the block is split if eight bytes remain and marked used, its payload is zero, and the headers still tile the heap |
| Kmalloc.Kernel.KmallocFrom | kernel/lib/kmalloc.c:122-162 | first fit from a block on, after growing if nothing fits; fails exactly at the heap limit; what is handed out keeps its bytes |
| Kmalloc.Kernel.KMalloc | kernel/lib/kmalloc.c:78-90 | null exactly for sizes below one or at the limit; otherwise zeroed memory that overlaps nothing handed out, large enough, in the first free block of enough bytes or else in new pages at the end, while all other contents stay; exactly which pointers count as freed afterwards |
| Kmalloc.FirstFit | kernel/lib/kmalloc.c:126-138 | by sizes alone: the first free block that is large enough serves the request, also if it fits exactly, is split if eight bytes remain, and no other block changes |
| Kmalloc.NoFit | kernel/lib/kmalloc.c:140-157 | by sizes alone: without such a block the heap grows by the pages that the code computes, and their first bytes are taken |
| Kmalloc.FirstFreeExists | kernel/lib/kmalloc.c:126-132 | if some free block is large enough, there is a first one, and by `KMalloc` it serves the request |
| Kmalloc.Kernel.KDefrag | kernel/lib/kmalloc.c:172-190 | the pass over raw headers is the pairwise joining of the row of blocks, and no byte handed out changes |
| Kmalloc.Kernel.KFree | kernel/lib/kmalloc.c:92-113 | gives back exactly the region at the pointer, changes nothing that others hold, ignores null and every pointer whose preceding bytes read as a free header; exactly which pointers count as freed afterwards |
| Kmalloc.MallocFreeFree | kernel/lib/kmalloc.c:78-113 | a request, its release and a second release leave what is handed out, its bytes and the balance of the counters as they were |
| HeapRuns.RunCalls | kernel/lib/kmalloc.c:78-190 | over any run of requests, releases and stores by holders, what is not released stays handed out and holds what was stored there last, and the difference of the two counters follows the number of regions handed out |
| HeapRuns.FreedIffRecognised | kernel/lib/kmalloc.c:92-190 | behind any run, the pointers that count as freed are exactly those that folding requests, releases and growth over the run recognises |
| HeapRuns.RecognisedUntilOverwritten | kernel/lib/kmalloc.c:92-107 | without a request that overwrites what lies in front of it, a freed pointer stays recognised |
| HeapRuns.FreeNeighboursRemain | kernel/lib/kmalloc.c:172-190 | two requests and a release that leave neighbouring free blocks in a heap of two pages |
| HeapRuns.ExactFitIsReused | kernel/lib/kmalloc.c:126-138 | a run in which a released block is handed out again to a request it fits exactly |
| HeapRuns.ReadsFreeIff | kernel/lib/kmalloc.c:100-107 | the top bit of the byte in front of a pointer decides whether it reads as free |
| HeapRuns.StaleHeaderReadsUsed | kernel/lib/kmalloc.c:102-170 | a legal run from a heap of one page after which the bytes in front of a freed pointer read as the header of a used block although its memory was not handed out again |
| HeapRuns.DoubleFree | kernel/lib/kmalloc.c:92-107 | a second release, behind any run that ends with the pointer recognised, is ignored: blocks and counters are those of the run without it |
| HeapSimulation.Backing.Obtain | kernel/lib/kmalloc.c:78-90 | a request seen by the rest of the kernel: granted objects live in regions of their own, zeroed and large enough, and a refusal is the panic |
| HeapSimulation.Backing.Release | kernel/lib/kmalloc.c:92-113 | a release seen by the rest of the kernel: exactly the object's region is given back, and other objects keep their bytes |
| Screen.ShowsWrite | kernel/drivers/screen.c:35-37 | storing one glyph shows it and changes no other cell of the window, printed or not |
| Screen.ShowsScroll | kernel/drivers/screen.c:83-98 | after the shift the window shows the log from one row further down, its new last row repeating what the row above it shows |
| Screen.Terminal.ScScrollUp | kernel/drivers/screen.c:83-98 | the ascending copy is a simultaneous shift by 160 of bytes 0 to 4000, all others stay, and the zeroing branch is unreachable |
| Screen.Terminal.ScPrintChar | kernel/drivers/screen.c:10-50 | code 10 goes to the start of the next row, code 13 to the start of the same, anything else is drawn at the cursor, which moves on and wraps at column 80; the cursor stays within 26 rows of 80 columns and the window shows the log; the wrap and scroll before writing never happen |
| Screen.Terminal.ScClear | kernel/drivers/screen.c:52-60 | blanks the characters of 25 rows, keeps colours and the 26th row, and starts an empty log |
| ScreenTheorems.LastGlyphWins | kernel/drivers/screen.c:10-50 | after any run of prints, colour changes and clears, a cell holds the last glyph drawn there, in the colour of that moment |
| ScreenTheorems.WindowHolds | kernel/drivers/screen.c:10-98 | after any run, a row that has not scrolled away shows in video memory, at its place in the window, the last glyph drawn in each cell |
| ScreenTheorems.RunOps | kernel/drivers/screen.c:10-60 | a run of prints, colour changes and clears on the terminal itself ends in the log and colour of the pure run |
| ScreenTheorems.WindowIsLogIff | kernel/drivers/screen.c:83-98 | the window shows the log on a blank page exactly if what is left over in the cells never printed is blank |
| ScreenTheorems.LastLineEchoes | kernel/drivers/screen.c:86-97 | once scrolled, the last line shows the line above it again wherever nothing has been printed |
| ScreenTheorems.WindowIsNotLog | kernel/drivers/screen.c:10-98 | 24 line feeds, two letters and a line feed from the kernel's start: the second letter stands in the window twice |
| ScreenTheorems.TextAdvances | kernel/drivers/screen.c:38-44 | a text without control characters moves the cursor on cell by cell, wrapping at column 80, and touches nothing before it |
| ScreenTheorems.TextFillsCells | kernel/drivers/screen.c:35-44 | character i of such a text is found i cells further on in reading order |
| ScreenTheorems.ReturnOverdraws | kernel/drivers/screen.c:17-20 | a text behind a carriage return is drawn over the row it stands on, character by character |
| Numerals.IntTextRoundTrip | kernel/lib/stdio.c:35-74 | for bases 2 to 16 the printed text is the one canonical numeral that denotes the number |
| Numerals.DigitsRoundTrip | kernel/lib/stdio.c:58-64 | the digits read back in the base, and have no leading zero |
| Numerals.NumeralExamples | kernel/lib/stdio.c:35-74 | a few numerals as they are printed |
| Numerals.BinTextRoundTrip | kernel/lib/stdio.c:77-98 | without dots and the final b, the text read in binary is the value modulo 2^min(nbBits, 32) |
| Numerals.BinPrefixShape | kernel/lib/stdio.c:86-95 | character by character where the bits and the dots are: a dot after each full group of eight, only for more than eight bits |
| Numerals.NoBitsText | kernel/lib/stdio.c:77-98 | for no or a negative number of bits only the b is printed |
| Stdio.Console.PrintStr | kernel/lib/stdio.c:29-33 | prints what comes before the NUL and never reads past it |
| Stdio.Console.FillDigits | kernel/lib/stdio.c:56-64 | at most 31 of the 34 characters are used, and backwards they are the digits |
| Stdio.Console.PrintInt | kernel/lib/stdio.c:35-74 | prints the numeral of every `int` above INT_MIN |
| Stdio.Console.PrintBin | kernel/lib/stdio.c:77-98 | prints the grouped bits, for every number of bits |
| Stdio.Console.PrintArg | kernel/lib/stdio.c:123-152 | a directive prints its argument's text, takes one argument (two for `%b*`) and steps over its own characters |
| Stdio.Console.KPrintEx | kernel/lib/stdio.c:108-164 | screen and serial port receive exactly the pure formatter's text, character by character; the walk never passes the NUL and takes exactly the arguments a static scan predicts |
| StdioTheorems.ParseConcat | kernel/lib/stdio.c:113-160 | a format may be cut in two exactly where no directive is cut |
| StdioTheorems.FormatConcat | kernel/lib/stdio.c:108-164 | printing a format cut there is printing its parts, the second with the remaining arguments and the sticky number of bits |
| StdioTheorems.PlainFormat | kernel/lib/stdio.c:154-157 | without a percent sign a format takes nothing and prints as it stands |
| StdioTheorems.PercentIsNotEscaped | kernel/lib/stdio.c:117-122 | the second of two percent signs still starts a directive |
| StdioTheorems.UnknownConversion | kernel/lib/stdio.c:16-19 | a percent sign is printed as it stands exactly in front of anything but the five conversion letters, which then is scanned afresh |
| StdioTheorems.CharacterDirective | kernel/lib/stdio.c:147-149 | `%c` prints the low byte of its argument, whatever the other three hold |
| StdioTheorems.DecimalDirective | kernel/lib/stdio.c:127-129 | `%d` prints the one canonical decimal numeral of its argument |
| StdioTheorems.HexDirective | kernel/lib/stdio.c:130-134 | `%x` prints 0x and the one canonical hexadecimal numeral of its argument |
| StdioTheorems.StringDirective | kernel/lib/stdio.c:144-146 | `%s` prints a string up to its NUL |
| StdioTheorems.BitsDirective | kernel/lib/stdio.c:110-143 | `%b` prints the eight low bits and a b |
| StdioTheorems.StarDirective | kernel/lib/stdio.c:134-143 | `%b*` prints as many low bits as its second argument says, 32 at most |
| StdioTheorems.StickyBits | kernel/lib/stdio.c:110-143 | the number of bits that `%b*` sets holds for a `%b` behind it |
| StdioTheorems.PrintCharacter | kernel/lib/stdio.c:147-149 | the console itself run on `%c`: exactly that character reaches port and screen, and the cursor moves as it demands |
| LinkedList.ListCreate | kernel/lib/list.c:13-28 | an empty list of one node, or none without memory |
| LinkedList.ListPush | kernel/lib/list.c:58-92 | the item goes behind all others if there is a list and, unless it was empty, memory; nodes stay linked both ways and nothing else in the heap changes |
| LinkedList.ListPop | kernel/lib/list.c:127-146 | answers the first item and frees its node; popping the last one leaves no list |
| LinkedList.QueueSteps | kernel/lib/list.c:58-146 | what pushing and popping do to a list that is gone, to an empty one and to one with items |
| LinkedList.NodeLinks | kernel/lib/list.h:3-8 | in every list, each node leads to the next and back, the last one to nothing, and the nodes carry the items in order |
| LinkedList.ListGet | kernel/lib/list.c:94-114 | the item at the index, or nothing behind the end |
| LinkedList.ListDestroyEx | kernel/lib/list.c:35-56 | frees every node once, reads none that is freed, and gives every item once and in order to the cleaner |
| LinkedList.ListEnumerate | kernel/lib/list.c:148-172 | calls back once for every item in order, or once with nothing for an empty list |
| LinkedList.Fifo | kernel/lib/list.c:58-146 | over any run, what came out followed by what waits is what waited followed by what went in |
| LinkedList.RunOps | kernel/lib/list.c:58-146 | a run of pushes and pops on the nodes themselves: the list is what the pure run makes of it, and the pops answer in order |
| LinkedList.GoneForGood | kernel/lib/list.c:60-64 | a list that is gone accepts and returns nothing, however the run goes on |
| LinkedList.NothingLostIff | kernel/lib/list.c:58-146 | with memory for every push, a push is lost exactly if it comes after the list was drained |
| Handles.HandlesDistinct | kernel/lib/handle.c:12-12 | handles are never null, are 1 modulo 4, and are equal exactly when their numbers agree modulo 2^30 |
| Handles.HandleCounter.Next | kernel/lib/handle.c:45-45 | the pointer counter yields the next handle of that sequence, through wrap-around |
| Handles.CreateFileHandle | kernel/lib/handle.c:14-56 | every status in its order of precedence; on success a new object with the next handle, otherwise nothing changes |
| Handles.CreateDirHandle | kernel/lib/handle.c:58-100 | the same for directories |
| Handles.FindInList | kernel/lib/handle.c:162-179 | the walk over the nodes finds the first directory with the handle, or meets the data-less node of an empty list |
| Handles.GetDirFromHandle | kernel/lib/handle.c:138-190 | every status in its order of precedence, and the directory found |
| Handles.FindDirPush | kernel/lib/handle.c:162-181 | a directory pushed later never changes the answer for a handle that is found |
| Handles.NewestIsFoundIff | kernel/lib/handle.c:58-181 | the newest directory is found under its own handle exactly if no listed one was created a multiple of 2^30 creations earlier; otherwise such an older one is found |
| Handles.OldestHidesNewest | kernel/lib/handle.c:89-179 | two directories created 2^30 creations apart: looking up the newer one answers the older |
| Handles.RecentIsUnused | kernel/lib/handle.c:12-89 | fewer than 2^30 creations behind the oldest listed directory, the next number is not in use |
| Handles.OpenDir | kernel/user/syscalls.c:361-377 | the handle given out leads to the new directory exactly if the directory was listed and its number is not in use; success is reported in any case once there is memory for the handle |
| Handles.OpenAll | kernel/user/syscalls.c:361-377 | over a run of openings that stays below 2^30 creations, every handle given out leads to its own directory at the end |
| DebugCom.ReadBytes | kernel/debug/ltdbgcom.c:22-31 | takes exactly so many bytes off the line into the front of the buffer |
| DebugCom.WriteBytes | kernel/debug/ltdbgcom.c:38-44 | sends exactly the front of the buffer |
| DebugCom.RecvPacket | kernel/debug/ltdbgcom.c:46-70 | size, content, bytes left on the line and memory held are those of the pure reception, for every status |
| DebugCom.SendPacket | kernel/debug/ltdbgcom.c:72-96 | sends the frame of the content, or nothing with the status that says why |
| DebugCom.FrameBytes | kernel/debug/ltdbgcom.c:92-93 | a frame byte by byte: four bytes of size, the lowest first, then the content |
| DebugCom.ReceiveBytes | kernel/debug/ltdbgcom.c:53-69 | what a reception makes of the bytes on the line, byte by byte |
| DebugCom.CleanupPacket | kernel/debug/ltdbgcom.c:98-111 | frees the content once and forgets it |
| DebugCom.StreamRoundTripIff | kernel/debug/ltdbgcom.c:46-96 | packets sent one after the other arrive as they were and leave the bytes behind them on the line, exactly if every request for memory is granted |
| DebugCom.FirstFailure | kernel/debug/ltdbgcom.c:60-66 | at the first refusal the packets before have arrived, and the content refused stays on the line in front of the next frame |
| DebugCom.SendPackets | kernel/debug/ltdbgcom.c:72-96 | packets sent one after the other put exactly their stream on the line |
| DebugCom.RecvPackets | kernel/debug/ltdbgcom.c:46-70 | receptions up to the first refusal yield the packets in order; all of them exactly if every request for memory is granted; what is left on the line |
| DebugCom.Transmit | kernel/debug/ltdbgcom.c:46-96 | from one side's packets over the line to the other side's, in order, exactly if there is memory for each |
| DebugCom.RequestRoundTrip | kernel/debug/ltdbgcom.c:132-146 | command and parameter are read from the places where the peer puts them |
| DebugCom.RecvRequest | kernel/debug/ltdbgcom.c:113-151 | the command, the parameter's size and its bytes; the packet's buffer is freed, except when there is no memory for the parameter |
| DebugCom.HeaderRoundTrip | kernel/debug/ltdbg.h:56-62 | the 88 bytes of a response header are read back field by field |
| DebugCom.HeaderPlaces | kernel/debug/ltdbg.h:28-62 | at which of the 88 bytes each field of a response header lies |
| DebugCom.ResponsePlaces | kernel/debug/ltdbgcom.c:170-184 | the same in the bytes sent, behind the size of the packet |
| DebugCom.ResponseRoundTrip | kernel/debug/ltdbgcom.c:153-185 | the frame of a response decodes to exactly its header and data and leaves the rest of the line |
| DebugCom.SendResponse | kernel/debug/ltdbgcom.c:153-185 | every status in its order of precedence; on success one frame, field by field in its place: size, command, status, registers, cs, eflags, data size and data; the buffer stays allocated |
| PageHeap.AlignedBlocks | kernel/init/heap.c:42-59 | for page-aligned bounds there is a block for every page from base to limit, both included |
| PageHeap.PageHeapInit | kernel/init/heap.c:26-65 | a doubly linked list of free blocks, one for every page from base on, up to the first that is not below the limit |
| PageHeap.CleanPageHeap | kernel/init/heap.c:67-77 | frees every block once and reads none that is freed |
| PageHeap.InitThenClean | kernel/init/heap.c:26-77 | building and tearing down restores the allocator |
| Stdlib.MmCopy | kernel/lib/stdlib.c:14-24 | an exact copy between different buffers, and byte by byte what an ascending copy makes of overlapping memory; nothing else changes |
| Stdlib.AscendingCopyIsMove | kernel/lib/stdlib.c:22-23 | the copy is a move for every content exactly if the destination does not start inside the source |
| Stdlib.StrCmp | kernel/lib/stdlib.c:56-84 | the lexicographic order of signed characters, except that an empty string equals everything; -2 for null |
| Stdlib.StrOrderZeroIff | kernel/lib/stdlib.c:66-83 | zero exactly for equal strings or if one is empty |
| Stdlib.FirstDifference | kernel/lib/stdlib.c:66-81 | the first difference decides, with codes from 128 on before the others; without one the shorter string comes first, unless it is empty |
| Stdlib.LexOrder | kernel/lib/stdlib.c:66-81 | antisymmetric and transitive |
| KernelTypes.FromLe32RoundTrip | kernel/debug/ltdbgcom.c:53-53 | the bytes of an `unsigned int` in memory determine it and are determined by it |
| KernelTypes.Le32Bytes | kernel/debug/ltdbgcom.c:53-53 | four bytes and the number they make up, the lowest byte first |

## Left out

- KernelHeap.Heap.AllocBytes: whether memory is granted is a free choice here, while the modelled `kmalloc` panics instead of refusing a positive size; callers are thereby proved for refusals too, as they check for them. `HeapSimulation` connects the two.
- Kmalloc.Kernel.KMalloc: the sizes from 2^31 - 4 on, whose sum with the header overflows an `int`, are excluded; a panic is modelled as a null result.
- Kmalloc.Kernel.Ksbrk: the physical pages behind new heap addresses (`GetFreePage`, page tables) are not modelled; new pages hold arbitrary bytes.
- Kmalloc.Kernel.KFree: a pointer that is not held and whose preceding bytes read as the header of a used block is excluded, because the code then frees and clears a block that does not exist; `HeapRuns.FreedIffRecognised` and `ReadsFreeIff` say which pointers that concerns.
- Stdio.Console.PrintArg: INT_MIN is excluded for `%d` and `%x`, because `printInt` negates it.
- Stdio.Console.KPrintEx: INT_MIN is excluded for `%d` and `%x`, because `printInt` negates it.
- Stdio.Console.PrintInt: INT_MIN is excluded, because the code negates its argument; the error message for an unusable base goes through the logger, which is not modelled.
- LinkedList.ListDestroyEx: the cleaner records what it is called with; one that itself frees memory is not modelled.
- LinkedList.ListGet: an index above 0 on a list of one node is excluded, because the code follows a null pointer there.
- LinkedList.ListPush: null data is excluded, because the list cannot tell it from having none.
- AtaDriver.AtaRead: buffers shorter than the size, and ranges around the end of 2^32 for which the wrapped size of the temporary buffer is positive, are excluded, because the code then copies outside its buffers.
- AtaDrive.Drive.OutCommand: single-sector READ, WRITE and FLUSH only; what a command does to a busy drive is indeterminate in the standard and modelled as its loss.
- AtaDriver.AtaWriteSectorPio: the medium has no write cache, so a lost FLUSH costs no data here; a fault that the drive reports behind the last word is not modelled, as the driver looks at no status there.
- DebugCom.RecvRequest: packets shorter than a request header or than their own parameter size are excluded, because the code reads behind them.
- DebugCom.SendResponse: data whose size wraps around 2^32 together with the header is excluded, because the code then copies behind its buffer.
- DebugCom.RecvPacket: waiting for bytes that have not arrived is not modelled; the line holds the whole packet.
- KernelHeap.Heap.Request: for objects other than byte buffers only the sign of the size asked for matters, since their fields are not laid out in bytes.
- PageHeap.InitThenClean: without memory the kernel stops before it gets here, so memory is required.
- PageHeap.PageHeapInit: without memory the kernel stops in an endless loop, so memory is required.
- The control and alternate-status ports, port numbers, delays, `AtaIdentify`, `AtaCreate` and `AtaInit`.
- Cursor port writes, background colour and the bit packing of colours; `Terminal.SetColor` takes the finished attribute byte.
- The logger, panic and halt loops, and the log messages of the modelled functions.
- `StrLen`, `StrCpy`, `FirstIndexOf`, `MmSet` outside the heap, `ListTop`, `ListDestroy`, `FreeFileHandle`, `FreeDirHandle`: one-line or easy members.
- Reading the inode behind `IsDirectory`; a file here knows what it is.
- `PageAlloc`, `PageFree`, the physical page bitmap and paging.
- The ext2 file system, ELF loading, processes, threads, scheduling, system calls other than opening a directory, interrupts, keyboard, clock and boot code.
