# AuraLite OS: models and proofs

Dafny models of the parts of AuraLite OS whose correctness is hardest to see by reading:
the e1000 receive path, AHCI transfers and the AHCI self-test, the UEFI loader's page
tables and ELF loading, the clipped 2D renderer behind the dirty-rectangle compositor, the
ChaCha20 generator and its lifecycle, tick arithmetic and the RTC calendar, the ACPI MADT
walk, and the two PNG tools.  `dafny verify dfyconfig.toml` checks everything.

## How the models are built

- Code that updates state in place is a class or works on arrays, with the loops of the
  source, and each method is proved against a specification function or predicate.
- The receive path and the AHCI port are concurrent.  They are step machines: a run is any
  sequence of steps of any number of threads and the device, one register access or lock
  region at a time, and the main results hold after every run.
- Pure arithmetic and formats are functions with lemmas about them.

The modules, from the device side up:

| module | subject |
|---|---|
| `RxQueue`, `RxProtocol`, `RxProgress` | software queue and descriptor ring of the e1000 driver: what no run breaks, and what a drain gets done |
| `AhciCommand`, `AhciProtocol`, `AhciProgress`, `AhciTimeout`, `AhciSelfTest` | ATA commands octet by octet, concurrent transfers, calls that succeed, time-outs, the boot self-test |
| `Paging`, `ElfLoader` | page tables, the hardware walk, and the kernel image seen through it |
| `Canvas`, `Rasterizers`, `Colors`, `Graphics` | clipping, Bresenham line and circle, colours and gradients, the 2D library |
| `ChaCha`, `ChaChaVector`, `Drbg`, `RngLifecycle`, `RngProgress` | block function and the RFC's test vectors, generator, seeding state machine, reseeding on time |
| `Nanosleep`, `Calendar` | sleep ticks and remainders, RTC to epoch |
| `Madt`, `PngFilter`, `Png`, `Ppm` | processor discovery, PNG reader, PPM to PNG writer |
| `Bytes`, `Bits`, `Memory`, `Arithmetic` | shared facts about octets, bits, fields in memory and division |

## What the proofs found

- **A time-out can break the AHCI port.**  When the poll loop gives up, the lock is released
  with the command still in the slot.  Call the request exposed if it is a write that lies on
  the disk, or a read on a disk of at least one sector.  After a time-out the port stays a
  sector map in every continuation without a further time-out if and only if the request was
  not exposed (`AhciTimeout.TimeOutExact`); in the other case a later write can report success
  for bytes that are not the caller's.  `AhciTimeout.ExposedTimeOutHappens` is such a run.
- **A line that crosses the left or top edge is not finished.**  gfx_draw_line compares its
  coordinates as unsigned numbers, so its loop meets its exit test if and only if neither
  coordinate changes sign along the line (`Rasterizers.LineTerminates`, coordinates below
  2^29).  The statement is about the loop with an unbounded error term, which is C's loop as
  long as twice the term fits an int (`Rasterizers.TurnFits`); after that the language defines
  nothing.  For the bar of the text cursor with the mouse at the left edge that is at least
  the first 178 956 969 turns (`Rasterizers.CursorBarNeverEnds`).
- **Page tables can be put on top of the kernel.**  The loader copies the segments first and
  allocates the table pages afterwards, anywhere.  A segment clear of the table pages is read
  back whole (`ElfLoader.KernelSeesItsImage`); under the pages the kernel reads table bytes
  (`ElfLoader.ReadAsPrescribed` says exactly when a byte survives, `ElfLoader.OverlapLosesBytes`
  is a kernel that loses one).
- **Large AHCI requests are truncated.**  The byte length is a 32-bit product, the ATA count
  16 bits and the address 48 bits.  An admitted request moves what was asked exactly when
  the address is below 2^48 and the count below 2^23 (`AhciCommand.TransferIsWhatWasAsked`).
- **The self-test can lose a GPT header** in one case: the header could not be read and the
  MBR carries the scratch marker and no entries (`AhciSelfTest.Overlooked`;
  `AhciSelfTest.OverlookedHappens` is such a disk).
- **A sleep can end early.**  A completed wait has lasted the time asked for, in ticks of the
  reported frequency, if and only if its deadline fits 64 bits (`Nanosleep.SleepsLongEnough`).
  At 100 Hz the longest request returns at once (`Nanosleep.LongestSleepReturnsAtOnce`); at
  99 Hz one of 5.9 thousand million years sleeps 83 ticks (`Nanosleep.WrappedSleepIsShort`).
- **The kernel's timer reports 99 Hz.**  It is asked for 100 Hz, and the reported frequency is
  the clock divided by the divisor, rounded down.  Counted in clock periods the ticks of a
  sleep cover every request if and only if the divisor divides the clock
  (`Nanosleep.TicksCoverRequests`); the kernel's does not, and one second becomes 99 ticks that
  are 11 914 periods short (`Nanosleep.KernelTimerFallsShort`).
- **The remaining time of an interrupted sleep** is exact for every wait exactly when
  (freq - 1) * (10^9 mod freq) < 10^9 (`Nanosleep.LosslessIsExact`); all frequencies up to
  the square root of 10^9 qualify, 41144 Hz, the timer's divisor 29, does not
  (`Nanosleep.FastTimerLoses`).
- **A reseed can be skipped.**  The account of bytes served is a 64-bit sum.  After a request the
  account agrees with what was served since the last reseed if and only if that sum did not wrap
  (`RngProgress.FillBalanced`); over every run of requests that stay 1 MiB below 2^64 bytes,
  reseeds come neither late nor early (`RngProgress.ReseedsOnTime`).
- **Block positions** of the generator are unique within one request exactly up to
  64 * (2^32 - 1) bytes (`Drbg.PositionsUnique`); kernel/rng_core.h:128-131 claims it without
  a bound.
- **The RTC reader** accepts days such as 31 February and reads it as 3 March
  (`Calendar.ThirtyFirstOfFebruary`); `Calendar.AcceptedButInvalid` says exactly when an
  accepted reading is the only date with its day number.
- boot/uefi/efi_paging.c:5-7 speaks of 1 GiB maps and line 53 of two kernel pages.  The code
  maps 64 GiB twice and three 2 MiB pages; the model follows the code.

## Model

| member | source | states |
|---|---|---|
| RxQueue.UnrollPush | drivers/e1000/e1000.c:160-177 | writing the slot at the tail of the 64-slot ring appends one frame at the young end of the FIFO the ring stands for, and the tail stays head + count, wrap-around included |
| RxQueue.UnrollPop | drivers/e1000/e1000.c:179-196 | clearing the head slot and advancing removes exactly the oldest frame and keeps all others in order |
| RxQueue.SwRxRing.constructor | drivers/e1000/e1000.c:140-151 | the ring starts as the empty FIFO with no drops and no waiters |
| RxQueue.SwRxRing.Push | drivers/e1000/e1000.c:160-177 | the ring changes as the bounded FIFO does: null and empty input ignored, frames cut to 2048 bytes, a full queue counts a drop, 1 is returned exactly when a frame was added |
| RxQueue.SwRxRing.TakeHead | drivers/e1000/e1000.c:187-193 | delivers the oldest frame cut to the caller's buffer and removes only it |
| RxQueue.SwRxRing.Pop | drivers/e1000/e1000.c:179-196 | -1 for a bad buffer, 0 for an empty queue, otherwise the FIFO's head and its delivered length, which is never 0 |
| RxQueue.SwRxRing.PopIdle | drivers/e1000/e1000.c:205-231 | returns -1 and touches nothing while a waiter is registered; otherwise pops like Pop and counts the frame |
| RxQueue.SwRxRing.AddWaiter | drivers/e1000/e1000.c:600-604 | registration changes the waiter count and nothing else |
| RxProtocol.WindowFill | drivers/e1000/e1000.c:268-290 | a NIC write at RDH appends to the frames that wait between last_rdh and RDH as long as one descriptor is kept free |
| RxProtocol.WindowAdvance | drivers/e1000/e1000.c:273-288 | advancing last_rdh drops exactly the first waiting frame |
| RxProtocol.FillRoom | drivers/e1000/e1000.c:286-289 | while RDH differs from RDT the descriptor at RDH is not one that still waits to be drained |
| RxProtocol.FillInv | drivers/e1000/e1000.c:268-293 | a NIC write never overwrites an undrained frame and keeps the protocol invariant |
| RxProtocol.InspectInv | drivers/e1000/e1000.c:272-277 | taking the lock, reading RDH and comparing a possibly stale value keep the invariant |
| RxProtocol.AdvanceInv | drivers/e1000/e1000.c:285-286 | between advancing last_rdh and writing RDT the ring is one descriptor tighter and still safe |
| RxProtocol.WriteRdtInv | drivers/e1000/e1000.c:287-288 | writing RDT restores the distance of 63 descriptors |
| RxProtocol.PushFront | drivers/e1000/e1000.c:274-279 | the frame about to be pushed is the oldest frame written and not yet looked at |
| RxProtocol.PushQueue | drivers/e1000/e1000.c:277-282 | each frame looked at is queued in order, empty, or counted as dropped, and it is dropped if and only if 64 frames were queued at that moment |
| RxProtocol.PushInv | drivers/e1000/e1000.c:277-282 | the push step keeps the protocol invariant |
| RxProtocol.RemoveInv | drivers/e1000/e1000.c:179-231 | both kinds of pop keep the order of delivered and queued frames |
| RxProtocol.StepInv | drivers/e1000/e1000.c:160-293 | every step of any thread or the NIC keeps the invariant |
| RxProtocol.RunInv | drivers/e1000/e1000.c:485-486 | the invariant holds after every run from the state e1000_init leaves |
| RxProtocol.CountSplit | drivers/e1000/e1000.c:277-282 | non-empty frames looked at are the queued ones plus the dropped ones |
| RxProtocol.FramesConserved | drivers/e1000/e1000.c:160-293 | after every run the frames consumed followed by the frames queued are exactly the accepted arrivals in order, the rest wait in the descriptors in order, a non-empty frame was lost if and only if the queue held 64 frames when it was looked at, and every loss is counted |
| RxProtocol.TailFollowsHead | drivers/e1000/e1000.c:286-288 | after every run at most one thread is in the drain, and whenever none is, RDT is one behind last_rdh |
| RxProtocol.IdleNeverSteals | drivers/e1000/e1000.c:145-149 | after every run the waiter count equals the callers inside recv_wait and no frame was ever drained idly while one was there |
| RxProgress.OfferKeeps | drivers/e1000/e1000.c:160-177 | pushing frames one after the other keeps the non-empty ones that fit 64 slots, in order |
| RxProgress.TurnDrains | drivers/e1000/e1000.c:273-289 | one turn of the drain loop pushes the oldest waiting frame, moves last_rdh by one descriptor and leaves everything else |
| RxProgress.DrainTakesAll | drivers/e1000/e1000.c:268-293 | after every run that leaves hw_rx_lock free, a drain by one thread looks at every frame written, ends with last_rdh at RDH and the lock free, and the queue is the old one followed by the non-empty waiting frames up to 64 |
| RxProgress.UnlocksWhenDone | drivers/e1000/e1000.c:272-291 | under every interleaving a drain releases the lock if and only if every frame that had arrived when it last read RDH has been looked at |
| RxProgress.ReadSeesAll | drivers/e1000/e1000.c:272-289 | a read of RDH notes every frame that has arrived |
| RxProgress.NicStores | drivers/e1000/e1000.c:273-288 | after every run that leaves the lock free the NIC stores a frame, cut to 2048 bytes, exactly when fewer than 63 wait |
| RxProgress.ConsumerGets | drivers/e1000/e1000.c:179-231 | after every run a consumer gets the oldest queued frame cut to its buffer; the idle drain gets it, and counts it, if and only if no one is waiting |
| RxProgress.WaitersCount | drivers/e1000/e1000.c:600-626 | a caller of recv_wait counts as waiting from its registration to its deregistration |
| AhciCommand.LbaOctets | drivers/ahci/ahci.c:365-370 | the six address bytes of the FIS carry the address modulo 2^48 |
| AhciCommand.AdmittedCount | drivers/ahci/ahci.c:487-491 | for an admitted request the wrapped byte length and the truncated sector count agree |
| AhciCommand.AdmittedExactly | drivers/ahci/ahci.c:487-491 | below 2^23 sectors the entry checks admit exactly 1 to 256 sectors on a present port below 32 |
| AhciCommand.CommandRoundTrip | drivers/ahci/ahci.c:357-385 | what the device decodes from the octets of the FIS, the PRDT entry and the command header is a command, opcode 0x35 for a write and 0x25 for a read, with the driver's address, count, length, buffer and direction |
| AhciCommand.TransferIsWhatWasAsked | drivers/ahci/ahci.c:487-523 | the decoded transfer is the caller's request if and only if the address fits 48 bits and the count is below 2^23 |
| AhciCommand.WrappedCountIsAdmitted | drivers/ahci/ahci.c:490-491 | a request for 2^23 + 1 sectors passes the check and moves one sector |
| AhciProtocol.MoveInv | drivers/ahci/ahci.c:391-408 | however the device splits a transfer, the bytes moved so far are a prefix of the request |
| AhciProtocol.AbortInv | drivers/ahci/ahci.c:394-416 | a failed write changes nothing outside its target range, a failed read nothing on the disk |
| AhciProtocol.IssueInv | drivers/ahci/ahci.c:357-391 | the command that the device decodes, direction taken from its opcode, is the one the request stands for |
| AhciProtocol.RefusedInv | drivers/ahci/ahci.c:343-355 | a command refused before issue leaves the disk as it was |
| AhciProtocol.CopyOutInv | drivers/ahci/ahci.c:498-503 | a successful read copies the sector contents out of the bounce buffer before the lock is released |
| AhciProtocol.TimeOutInv | drivers/ahci/ahci.c:401-406 | giving up on a request that is not exposed leaves a command that can do no harm, and the call is a legal failure |
| AhciProtocol.AbandonedOnlyFails | drivers/ahci/ahci.c:401-406 | a command abandoned without being exposed can only report an error, and that leaves the disk as it was |
| AhciProtocol.ReleaseInv | drivers/ahci/ahci.c:497-505 | a finished call is a legal step of the sector map |
| AhciProtocol.ReplayExtend | drivers/ahci/ahci.c:487-523 | appending a legal call to a legal log keeps the log legal and advances the replayed disk by that call |
| AhciProtocol.ThreadInv | drivers/ahci/ahci.c:341-523 | every step of the lock holder keeps the port invariant, a time-out provided its request is not exposed |
| AhciProtocol.StepInv | drivers/ahci/ahci.c:341-523 | every step of any thread or device keeps the system invariant, a time-out provided its request is not exposed |
| AhciProtocol.RunInv | drivers/ahci/ahci.c:341-523 | the invariant holds after every run whose time-outs are harmless, and without an abandoned command after every run without time-outs |
| AhciProtocol.Linearizable | drivers/ahci/ahci.c:487-523 | after every run whose time-outs are harmless each port's calls, in lock order, returned what a plain sector map allows, and the disk is that map whenever the lock is free |
| AhciProtocol.OneCommandPerPort | drivers/ahci/ahci.c:493-497 | without time-outs at most one command is outstanding per port and it is the lock holder's own request |
| AhciProgress.MovedBytes | drivers/ahci/ahci.c:493-503 | once the device has carried the command out, a read's bounce buffer holds the sectors and a write's sectors hold the caller's bytes, nothing else on the disk changed |
| AhciProgress.CallSucceeds | drivers/ahci/ahci.c:487-523 | after every run whose time-outs are harmless, a call on a free port with an empty slot for sectors on the disk, whose device carries the command out, is logged with code 0 and exactly the sectors' or the caller's bytes |
| AhciTimeout.GivesUp | drivers/ahci/ahci.c:401-406 | a time-out ends in a released lock with the command still in the slot |
| AhciTimeout.AbandonedWrite | drivers/ahci/ahci.c:401-406 | the device of an abandoned write can change the disk after the call has been logged |
| AhciTimeout.AbandonedRead | drivers/ahci/ahci.c:508-523 | after an abandoned read the next write can report success for bytes the caller did not give |
| AhciTimeout.TimeOutBreaks | drivers/ahci/ahci.c:393-406 | after every run whose time-outs were harmless, an exposed time-out has a continuation, free of further time-outs, that is not a sector map |
| AhciTimeout.TimeOutExact | drivers/ahci/ahci.c:393-406 | after a time-out the port stays a sector map in every continuation without a further time-out if and only if the request was not exposed |
| AhciTimeout.ExposedTimeOutHappens | drivers/ahci/ahci.c:508-519 | from the initial state, on any present port whose disk has a sector, a run without time-outs reaches an exposed request that can time out |
| AhciSelfTest.Disk.AnyEntry | drivers/ahci/ahci.c:600-604 | finds a partition entry if and only if one of the four type bytes is set or a table was already known |
| AhciSelfTest.Disk.AllZero | drivers/ahci/ahci.c:573-575 | true if and only if all 512 bytes are zero |
| AhciSelfTest.Disk.Exercise | drivers/ahci/ahci.c:612-663 | what sector 1 holds afterwards and which report is given in every combination of outcomes |
| AhciSelfTest.Disk.SelfTest | drivers/ahci/ahci.c:551-664 | exactly which report is given and which sectors are written for every disk and every combination of outcomes; only sector 1 is ever written, and only on a disk with a table or the scratch marker; on a disk with a table whose restore succeeds sector 1 is as found if and only if the case is not the overlooked one or the failed write happened to leave it so |
| AhciSelfTest.OverlookedDestroys | drivers/ahci/ahci.c:595-604 | in the overlooked case there is a GPT header and the scratch pattern differs from it |
| AhciSelfTest.OverlookedHappens | drivers/ahci/ahci.c:595-604 | a disk and outcomes in the overlooked case, with both writes succeeding |
| AhciSelfTest.EntryOffsets | drivers/ahci/ahci.c:600-604 | the entries are noticed by the bytes at 450, 466, 482 and 498 of sector 0 |
| AhciSelfTest.MarkersSpelt | drivers/ahci/ahci.c:596-618 | the texts compared with and written are EFI PART, AURALHCI and AURALAHCI-WRITE with the boot signature |
| Paging.FillDirectory | boot/uefi/efi_paging.c:86-89 | one page directory in memory holds the 2 MiB leaf entries of its gigabyte, all other entries and all memory outside the tables unchanged |
| Paging.Zero | boot/uefi/efi_paging.c:74-75 | all 68 pages read as zero entries, memory outside them unchanged |
| Paging.StoredEntry | boot/uefi/efi_paging.c:83-88 | storing the octets of one entry changes that entry and no other |
| Paging.FillShared | boot/uefi/efi_paging.c:74-90 | the 64 page directories and their PDPT entries are the prescribed ones, everything else in the table pages is zero |
| Paging.FillTop | boot/uefi/efi_paging.c:92-108 | the PML4 and kernel window entries become the prescribed ones, every other entry and all memory outside the tables stay |
| Paging.SetupPaging | boot/uefi/efi_paging.c:63-112 | on success every entry of the 68 pages in memory is the prescribed one, the PML4 address is recorded and memory outside the pages is unchanged; on allocation failure nothing changes |
| Paging.ReadBuilt | boot/uefi/efi_paging.c:69-108 | the walker finds the prescribed entry at each table address |
| Paging.PointerEntry | boot/uefi/efi_paging.c:83-108 | or-ing the flags into a table address gives a present, writable, non-leaf entry for that table |
| Paging.LeafEntry | boot/uefi/efi_paging.c:87-88 | or-ing the flags into a 2 MiB address gives a present, writable leaf for that address |
| Paging.WalkDirectory | boot/uefi/efi_paging.c:79-90 | a walk through the shared directories reaches the physical address itself |
| Paging.WalkShared | boot/uefi/efi_paging.c:79-90 | the shared PDPT maps the first 64 GiB and nothing else of its 512 GiB |
| Paging.WalkWindow | boot/uefi/efi_paging.c:100-102 | the kernel directory maps 6 MiB and nothing else of its gigabyte |
| Paging.WalkKernel | boot/uefi/efi_paging.c:92-102 | the upper PDPT maps only the kernel window |
| Paging.WalkTop | boot/uefi/efi_paging.c:104-108 | only PML4 entries 0, 256 and 511 lead anywhere |
| Paging.WalkIsPromised | boot/uefi/efi_paging.c:38-112 | for every canonical address the four-level hardware walk over memory gives exactly the promised translation: identity and direct map of 64 GiB, the 6 MiB kernel window, nothing else |
| ElfLoader.MemCopy | boot/uefi/efi_elf.c:49-53 | a forward byte copy, overlapping ranges included: octet i comes from the source, repeated with the distance as period when the copy runs into itself |
| ElfLoader.MemSet | boot/uefi/efi_elf.c:55-58 | the range is set, the rest of memory is unchanged |
| ElfLoader.Repeats | boot/uefi/efi_elf.c:52-52 | a copy that runs into its own output reads an octet it has already copied, from the same original place |
| ElfLoader.HeaderUnchanged | boot/uefi/efi_elf.c:69-73 | headers re-read during loading are the ones the file had, as long as the image is intact |
| ElfLoader.PhdrLayout | boot/uefi/efi_elf.c:38-47 | a program header laid out as ELF64 prescribes, field by field, is read back as it is |
| ElfLoader.FileLayout | boot/uefi/efi_elf.c:21-47 | entry point and program headers of every ELF64 file are found: magic, e_entry at 24, e_phoff at 32, e_phnum at 56, headers of 56 bytes |
| ElfLoader.LoadSegment | boot/uefi/efi_elf.c:73-86 | one header does to memory what the copy and the zero-fill at p_paddr minus the kernel base do, in 64-bit address arithmetic |
| ElfLoader.Load | boot/uefi/efi_elf.c:60-89 | a bad magic returns 0 and changes nothing; otherwise memory becomes what the header loop makes of it, headers and count being read from memory as it changes, even when segments overwrite the image |
| ElfLoader.LoadHeaders | boot/uefi/efi_elf.c:72-87 | the loop reaches the memory that loading the headers one after the other defines |
| ElfLoader.LoadsOne | boot/uefi/efi_elf.c:73-86 | a header of a well-placed image stays in memory and loads over the original as the file says |
| ElfLoader.WellPlacedLoads | boot/uefi/efi_elf.c:60-89 | an image whose segments lie in memory clear of it is loaded without leaving memory, all headers in order over the original, and the entry point is the file's |
| ElfLoader.SegmentSurvives | boot/uefi/efi_elf.c:72-87 | later segments leave an earlier one as loaded when their physical ranges are disjoint |
| ElfLoader.SegmentLoaded | boot/uefi/efi_elf.c:72-87 | after loading, each segment's bytes are at its physical address minus the kernel base |
| ElfLoader.SegmentInPlace | boot/uefi/efi_elf.c:72-87 | in a kernel each segment's bytes are where it was linked minus the kernel base |
| ElfLoader.WindowIsMapped | boot/uefi/efi_paging.c:92-102 | every byte of a kernel segment is mapped writable at its load address |
| ElfLoader.KernelSeesItsImage | boot/uefi/efi_main.c:338-347 | in the one memory that was loaded and then given its page tables, every address of a segment clear of the table pages is translated to its load address, where the file byte lies below p_filesz and zero up to p_memsz |
| ElfLoader.FileLoads | boot/uefi/efi_elf.c:60-89 | every ELF64 file given by its octets, with well-placed segments, is loaded header by header and its entry point returned |
| ElfLoader.FileIsLoaded | boot/uefi/efi_elf.c:60-89 | for every such file with disjoint segments, physical address minus 0xFFFFFFFF80000000 plus k holds the file byte below p_filesz and zero up to p_memsz |
| ElfLoader.FileIsSeen | boot/uefi/efi_main.c:338-347 | for every such kernel, a segment clear of the page tables is read through them as its file bytes followed by zeros |
| ElfLoader.KernelReads | boot/uefi/efi_main.c:338-347 | each segment address is mapped, and reads the prescribed byte or, where the tables were put on top of it, the tables' byte |
| ElfLoader.ReadAsPrescribed | boot/uefi/efi_main.c:338-347 | a segment byte is read as prescribed if and only if the tables do not lie on it or their byte there equals it |
| ElfLoader.BuiltByte | boot/uefi/efi_paging.c:63-112 | every octet of the table pages is the octet of its entry |
| ElfLoader.OverlapLosesBytes | boot/uefi/efi_paging.c:65-75 | a concrete kernel loaded at 0 with the table pages at 0 reads zero through the finished tables where its file has 0x90 |
| ElfLoader.SampleIsKernel | boot/uefi/efi_elf.c:60-74 | a concrete file with .bss is an ELF64 file of one well-placed segment |
| ElfLoader.SampleIsSeen | boot/uefi/efi_main.c:338-347 | read through tables clear of it, that kernel is 14 KiB of its file bytes and then 2 KiB of zeros, over memory that held ones |
| ElfLoader.LoadKernel | boot/uefi/efi_main.c:338-347 | loading followed by building the tables on the same memory succeeds exactly when the magic is right, the entry point is not 0 and the pages were allocated; for a well-placed kernel the entry point is the file's and every segment byte reads as above, as prescribed when clear of the tables |
| Canvas.ShowsThen | drivers/framebuffer/graphics.c:100-139 | drawing one layer after another under a clip is drawing the second laid over the first |
| Canvas.InkStore | drivers/framebuffer/graphics.c:110-112 | one store at y * pitch + x changes that pixel and no other |
| Canvas.RowStartIsProduct | drivers/framebuffer/graphics.c:111-112 | the row offset is y times the pitch in pixels |
| Canvas.IndexIsOffset | drivers/framebuffer/graphics.c:111-112 | pixel (x, y) is stored at y times the pitch plus x |
| Canvas.ClippedDrawing | drivers/framebuffer/graphics.c:28-31 | a clipped redraw equals the full redraw inside the clip and leaves every pixel outside as it was |
| Canvas.DirtyRedrawIsFullRedraw | kernel/gui/gui.c:2201-2268 | redrawing and copying only the dirty rectangle leaves the same visible screen as a full redraw and copy |
| Rasterizers.RoundSpec | drivers/framebuffer/graphics.c:164-166 | the rounded coordinate is the unique integer within half a step of the true line |
| Rasterizers.HalfPixel | drivers/framebuffer/graphics.c:154-168 | every plotted pixel of a line is within half a pixel of the true line |
| Rasterizers.LineEnds | drivers/framebuffer/graphics.c:154-168 | the line contains both endpoints, first and last |
| Rasterizers.LineStep | drivers/framebuffer/graphics.c:164-166 | the two error tests take exactly the unit steps to the next pixel of the closed form |
| Rasterizers.LineAdvance | drivers/framebuffer/graphics.c:164-166 | one turn of the loop moves from the n-th pixel and its error term to the next |
| Rasterizers.LineStartStop | drivers/framebuffer/graphics.c:154-163 | the closed form starts on the first endpoint and is on the far endpoint at step max(dx, dy) and no other |
| Rasterizers.SpanWay | drivers/framebuffer/graphics.c:155-158 | the unsigned set-up gives distance and direction when both coordinates have the same sign, and a negative distance when they do not |
| Rasterizers.ExitTest | drivers/framebuffer/graphics.c:163-163 | on a line that keeps its side the unsigned exit test holds exactly on the far endpoint |
| Rasterizers.ErrorFits | drivers/framebuffer/graphics.c:159-166 | on such a line twice the error term fits an int |
| Rasterizers.LoopFollows | drivers/framebuffer/graphics.c:154-168 | on such a line the loop's variables are those of the n-th pixel at the top of turn n |
| Rasterizers.StaysStuck | drivers/framebuffer/graphics.c:161-167 | on any other line one coordinate never moves, in the loop with an unbounded error term |
| Rasterizers.TurnFits | drivers/framebuffer/graphics.c:161-167 | for how many turns twice the error term is certain to fit an int, whatever the line |
| Rasterizers.LineTerminates | drivers/framebuffer/graphics.c:154-168 | the loop meets its exit test if and only if neither coordinate changes sign along the line, and then after max(dx, dy) turns |
| Rasterizers.CursorBarNeverEnds | kernel/gui/gui.c:1777-1780 | no turn of the text cursor's bar from -3 to 3 meets the exit test, and for the first 178 956 969 turns the error term fits an int |
| Rasterizers.OctantUnique | drivers/framebuffer/graphics.c:247-264 | each row of the octant holds at most one circle point |
| Rasterizers.OctantEnds | drivers/framebuffer/graphics.c:247-247 | once x has fallen below y no further row has a point |
| Rasterizers.OctantIsRightmost | drivers/framebuffer/graphics.c:242-264 | the point of row b is the rightmost whose upper neighbour is within squared distance r squared plus 1; it lies in the disc and its diagonal neighbour outside |
| Rasterizers.CircleStart | drivers/framebuffer/graphics.c:242-244 | the loop starts on the circle with a zero error term |
| Rasterizers.CircleStep | drivers/framebuffer/graphics.c:256-263 | each turn is on the octant's point of its row and moves on by exactly one row |
| Graphics.Gfx.PutPixel | drivers/framebuffer/graphics.c:100-114 | sets the packed colour on the pixel if it is on the screen and in the clip, nothing else, and counts the store |
| Colors.PackStandard | drivers/framebuffer/graphics.c:66-71 | with shifts 16, 8 and 0 a packed pixel is the 24-bit colour, each channel in its own byte |
| Colors.PackIsMakeColor | drivers/framebuffer/graphics.c:66-71 | the colour that every drawing contract names is the bitwise or of the shifted channels |
| Colors.MixMean | drivers/framebuffer/graphics.c:225-227 | a mixed channel is the exact mean rounded down, the first colour's at 0 and the second's at 255 |
| Colors.MixMonotone | drivers/framebuffer/graphics.c:225-227 | it lies between the two and never turns back as the fraction grows |
| Colors.BlendChannels | drivers/framebuffer/graphics.c:222-229 | each channel of a blend is the mix of the two channels in its own byte |
| Colors.BlendEnds | drivers/framebuffer/graphics.c:222-229 | a blend is the first colour at 0 and the second at 255, modulo 2^24 |
| Colors.FractionEnds | drivers/framebuffer/graphics.c:235-235 | the fraction is 0 in the first row and 255 in the last, 0 in a single row |
| Colors.FractionIs | drivers/framebuffer/graphics.c:235-235 | in between it is the row's exact position times 255, rounded down |
| Colors.FractionRises | drivers/framebuffer/graphics.c:235-235 | it never falls from one row to a later one |
| Colors.GradientEnds | drivers/framebuffer/graphics.c:231-239 | the first row of a gradient is the packed top colour, the last the packed bottom colour, a single row the top colour |
| Colors.GradientOnward | drivers/framebuffer/graphics.c:231-239 | every row's channels lie between the ends and move towards the bottom colour without turning back |
| Graphics.Gfx.FillRect | drivers/framebuffer/graphics.c:116-139 | sets exactly the pixels of the rectangle that the clip lets through, and adds the number of stores made to the counter |
| Graphics.Gfx.DrawRect | drivers/framebuffer/graphics.c:141-152 | sets exactly the four edges within the clip |
| Graphics.FrameIsBorder | drivers/framebuffer/graphics.c:141-152 | for a rectangle that is not empty these edges are exactly its border |
| Graphics.Gfx.DrawLine | drivers/framebuffer/graphics.c:154-168 | on every line for which the loop ends, it sets exactly the max(dx, dy) + 1 pixels of the rounded line within the clip |
| Graphics.Gfx.DrawCircle | drivers/framebuffer/graphics.c:241-265 | terminates and sets exactly the eight reflections of every octant point within the clip |
| Graphics.CircleGrows | drivers/framebuffer/graphics.c:248-255 | the eight plots of a turn add one row of the octant in all reflections |
| Graphics.CircleComplete | drivers/framebuffer/graphics.c:247-264 | when the loop ends every octant point has been plotted |
| Graphics.Gfx.FillCircle | drivers/framebuffer/graphics.c:267-278 | sets exactly the pixels whose squared distance is at most r squared, within the clip |
| Graphics.CircleInDisc | drivers/framebuffer/graphics.c:241-278 | every pixel of a circle is a pixel of the disc of the same radius |
| Graphics.CircleReaches | drivers/framebuffer/graphics.c:241-265 | the four pixels at distance r along the axes are on the circle |
| Graphics.Gfx.DrawGlyph | drivers/framebuffer/graphics.c:180-194 | sets exactly the pixels whose bitmap bit is one, most significant bit leftmost |
| Graphics.GlyphIsPicture | drivers/framebuffer/graphics.c:180-194 | a glyph whose octets spell a picture row by row, eight pixels each, most significant bit leftmost, is drawn as that picture; a character the font lacks as glyph 0 |
| Graphics.Gfx.DrawString | drivers/framebuffer/graphics.c:170-197 | sets exactly the glyph pixels of the text, newlines returning to the left margin; nothing without a font |
| Graphics.TextNext | drivers/framebuffer/graphics.c:174-196 | one character leaves the pen where the rest of the text starts |
| Graphics.TextIsGlyphs | drivers/framebuffer/graphics.c:170-197 | a text inks exactly the glyphs of its characters, each at its own line and column, line feeds counted and not drawn |
| Graphics.Gfx.GradientV | drivers/framebuffer/graphics.c:231-239 | row by row within the clip, sets the colours of the gradient, which run from the top colour to the bottom colour (Colors.GradientEnds, Colors.GradientOnward) |
| Graphics.RowsLayerGrows | drivers/framebuffer/graphics.c:234-238 | one more row laid over the rows so far is the picture with one more row |
| Graphics.Gfx.Clear | drivers/framebuffer/graphics.c:367-371 | sets every visible pixel in the clip |
| Graphics.Gfx.TakePxCounter | drivers/framebuffer/graphics.c:60-64 | returns the number of back-buffer stores since the last call modulo 2^64 |
| Graphics.Gfx.ClipSet | drivers/framebuffer/graphics.c:43-51 | the clip is the on-screen part of the rectangle, negative origins included |
| Graphics.Gfx.ClipClear | drivers/framebuffer/graphics.c:53-58 | the clip is the whole screen |
| Graphics.Gfx.Flip | drivers/framebuffer/graphics.c:316-325 | the front buffer equals the back buffer, padding included |
| Graphics.Gfx.FlipRect | drivers/framebuffer/graphics.c:340-359 | exactly the on-screen part of the rectangle is copied |
| Graphics.Gfx.Draw | drivers/framebuffer/graphics.c:100-278 | every primitive, lines provided their loop ends, under every clip shows its layer through that clip and nothing else |
| Graphics.Gfx.Render | kernel/gui/gui.c:2213-2262 | any sequence of such primitives shows their layers over each other in order |
| Graphics.Gfx.DirtyFrame | kernel/gui/gui.c:2201-2268 | a partial frame of such primitives leaves the visible screen a full redraw would, if it was so outside the dirty rectangle |
| ChaCha.XorTwice | kernel/rng_core.h:51-57 | exclusive or with the same word twice gives the word back |
| ChaCha.QuarterInverse | kernel/rng_core.h:51-57 | the quarter round is a bijection: its steps undone in reverse order give the words back, both ways |
| ChaCha.PlanInvertible | kernel/rng_core.h:77-88 | any plan of quarter rounds is a bijection on states |
| ChaCha.RoundsInvertible | kernel/rng_core.h:77-88 | the twenty rounds are a bijection on states |
| ChaCha.BlockUndone | kernel/rng_core.h:61-90 | the block is the invertible rounds of the initial state plus that state: taking it off and running the rounds backwards gives it back |
| ChaCha.QuarterInPlace | kernel/rng_core.h:51-57 | the in-place macro computes the quarter round on its four words and leaves the other twelve |
| ChaCha.Rounds | kernel/rng_core.h:77-88 | the round loop computes the planned column and diagonal rounds |
| ChaCha.AddState | kernel/rng_core.h:89-89 | the initial state is added word by word modulo 2^32 |
| ChaCha.ComputeBlock | kernel/rng_core.h:61-90 | computes the ChaCha20 block function, the one BlockUndone inverts and BlockVector evaluates |
| ChaCha.ComputeBlockBytes | kernel/rng_core.h:94-105 | writes the sixteen words as 64 little-endian bytes |
| ChaCha.WordBytes | kernel/rng_core.h:107-111 | loading four little-endian bytes of a word gives the word |
| ChaChaVector.OneDoubleRound | kernel/rng_core.h:78-87 | eight quarter rounds of the plan are a column round and a diagonal round of RFC 8439 written out word by word |
| ChaChaVector.SigmaSpelt | kernel/rng_core.h:66-69 | the four constants are the octets of the RFC's text |
| ChaChaVector.QuarterVector | kernel/rng_core.h:51-57 | the quarter round gives the result of section 2.1.1 of RFC 8439 |
| ChaChaVector.BlockVector | tests/unit/test_rng.c:112-117 | the whole block function gives the sixteen words of section 2.3.2 of RFC 8439 |
| Drbg.SeedFromBlock | kernel/rng_core.h:156-159 | seeding from a serialised block installs its first eleven words and counter 0 |
| Drbg.ReseedInvertible | kernel/rng_core.h:128-138 | reseeding twice with the same material restores the state, so no bit of it is lost |
| Drbg.ReseedOfBlank | kernel/rng_core.h:120-138 | folded into the blank state, material installs what seeding installs, key and nonce alike |
| Drbg.PositionsUnique | kernel/rng_core.h:128-160 | the positions a fill uses repeat none if and only if it asks for at most 64 * (2^32 - 1) bytes |
| Drbg.RekeyIsFresh | kernel/rng_core.h:140-160 | up to the same bound the new state is the first eleven words of a block from which no byte was served |
| Drbg.KeystreamIsBlocks | kernel/rng_core.h:143-153 | the keystream is the blocks from the current counter on, byte by byte |
| Drbg.Generator.Seed | kernel/rng_core.h:120-126 | the state is the material's words with counter 0 |
| Drbg.Generator.Reseed | kernel/rng_core.h:132-138 | key and nonce are the old ones exclusive-or the material, counter 0 |
| Drbg.Generator.NextBlock | kernel/rng_core.h:147-148 | yields the block at the counter and advances the counter modulo 2^32 |
| Drbg.Generator.Serve | kernel/rng_core.h:147-152 | one turn of the loop writes the next up to 64 keystream bytes and nothing else |
| Drbg.Generator.Fill | kernel/rng_core.h:143-160 | the caller gets exactly the first len keystream bytes of the old state, bytes beyond are untouched, the new state comes from the first unused block, and the block positions used are the next ceil(len / 64) + 1 |
| RngLifecycle.SeedInv | kernel/rng.c:152-190 | seeding happens only with hardware material or 128 estimated bits and keeps the invariant |
| RngLifecycle.StepInv | kernel/rng.c:302-408 | every public call keeps the lifecycle invariant |
| RngLifecycle.RunInv | kernel/rng.c:302-408 | the invariant holds after every sequence of calls from boot |
| RngLifecycle.RunSafe | kernel/rng.c:302-408 | after every sequence of calls: bytes were served only by a seeded generator, it was seeded at most once, a pool seed followed at least 32 jitter samples, the estimate never exceeds four bits per sample, and the reseed budget is respected |
| RngLifecycle.RefusedUnlessReady | kernel/rng.c:382-390 | -38 is returned if and only if a non-empty request meets an unseeded generator with less than 128 estimated bits or before initialisation, -14 if and only if the pointer is null, and a refused request serves nothing |
| RngLifecycle.StaysReady | kernel/rng.c:302-408 | one public call on a seeded generator leaves it seeded and only adds to its history |
| RngLifecycle.ReadyForever | kernel/rng.c:369-380 | over every run from boot, once the generator is seeded it stays seeded to the end, its history only grows and the bytes served never decrease |
| RngProgress.InitSeeds | kernel/rng.c:302-335 | rng_init seeds at once from RDSEED, else RDRAND, if one delivers, and otherwise exactly when 128 bits have been estimated, and then draws the self-test and 32 bytes |
| RngProgress.DueSeeds | kernel/rng.c:369-380 | afterwards a poll seeds exactly when 128 bits have been estimated, from the best source |
| RngProgress.FillReseeds | kernel/rng.c:391-405 | a served request is followed by a reseed from the best source exactly when the account reaches 1 MiB |
| RngProgress.FillBalanced | kernel/rng.c:393-403 | after a served request the account equals the bytes served since the last seed or reseed if and only if its 64-bit sum did not wrap |
| RngProgress.ReseedsOnTime | kernel/rng.c:302-408 | over every run of requests below 2^64 - 2^20 bytes less than 1 MiB is ever owed, and every reseed was paid for by 1 MiB of its own |
| Bits.XorCountsDiffering | kernel/rng.c:78-83 | the ones in the exclusive or are the bit positions in which two numbers differ |
| RngProgress.ChangedCounts | kernel/rng.c:352-354 | a sample's estimate is the number of low 16 bits that changed, at most 4 |
| RngProgress.JitterCounts | kernel/rng.c:337-355 | the first interrupt and a zero delta only set the time; every other adds one sample and, below 1024, its estimate |
| RngProgress.ThirtyTwoSuffice | kernel/rng.c:337-367 | after initialisation 32 interrupts with four changed bits each seed the generator, whatever the hardware sources do; RunSafe says that fewer samples never do from the pool |
| RngLifecycle.Module.SeedLocked | kernel/rng.c:152-190 | seeds from RDSEED, else RDRAND, else the pool, and exercises the new generator |
| RngLifecycle.Module.Initialise | kernel/rng.c:302-335 | rng_init is the model's initialisation step, a second call changes nothing |
| RngLifecycle.Module.Available | kernel/rng.c:369-380 | rng_available is the model's poll step and reports readiness |
| RngLifecycle.Module.JitterEvent | kernel/rng.c:337-367 | rng_jitter_event is the model's sample step, first and zero deltas ignored |
| RngLifecycle.Module.TryFill | kernel/rng.c:382-408 | return code and state follow the model; served bytes are the keystream of the generator's history, a refused call leaves the buffer alone |
| RngLifecycle.Module.ReseedLocked | kernel/rng.c:394-405 | the periodic reseed folds fresh material into the state and resets the budget |
| Nanosleep.TicksLeast | kernel/time.c:161-163 | the tick count is the least number of ticks that lasts at least the request |
| Nanosleep.TotalWraps | kernel/time.c:161-163 | with the timer's 32-bit frequency the 64-bit computation is the exact count modulo 2^64 |
| Nanosleep.ArmedIsLeast | kernel/time.c:161-165 | the 64-bit computation gives that count if and only if it fits 64 bits |
| Nanosleep.TicksPositive | kernel/time.c:154-165 | any non-zero request sleeps at least one tick |
| Nanosleep.RemainderValid | kernel/time.c:193-195 | the remaining time is a valid timespec |
| Nanosleep.RearmTicks | kernel/time.c:193-195 | how many ticks sleeping again for the remaining time takes, exactly |
| Nanosleep.RearmExact | kernel/time.c:193-195 | no tick is lost if and only if the lost nanoseconds stay below one tick's worth |
| Nanosleep.LosslessIsExact | kernel/time.c:193-195 | a timer frequency loses no tick for any remaining time if and only if (freq - 1) * (10^9 mod freq) < 10^9 |
| Nanosleep.SlowTimersLossless | kernel/time.c:151-152 | every frequency whose square is at most 10^9 is lossless |
| Nanosleep.PitNearest | drivers/timer/pit.c:100-116 | the divisor is the whole number nearest to the clock over the frequency asked for, within 1 and 65535, and 0 Hz asks for 100 |
| Nanosleep.FastTimerLoses | drivers/timer/pit.c:109-119 | the timer's divisor 29 gives 41144 Hz, where the remainder of 41143 ticks is one tick short |
| Nanosleep.TicksCoverRequests | drivers/timer/pit.c:118-119 | counted in clock periods the ticks armed cover every request if and only if the divisor divides the clock |
| Nanosleep.KernelTimerFallsShort | drivers/timer/pit.c:100-119 | asked for 100 Hz the timer reports 99, and one second is 11914 clock periods short |
| Nanosleep.ChainConserves | kernel/time.c:187-197 | any number of interruptions and resumptions conserves the total sleep on a lossless timer |
| Nanosleep.Wait | kernel/time.c:179-207 | the loop ends at the first wake-up at or past the deadline, or at the first earlier one with an actionable signal |
| Nanosleep.FirstTurnDecides | kernel/time.c:179-207 | the first turn at or past the deadline ends the wait, the first one before it with a signal interrupts it |
| Nanosleep.Sleep | kernel/time.c:146-214 | -EINVAL exactly for bad requests, otherwise the wait for the armed deadline |
| Nanosleep.SleepsLongEnough | kernel/time.c:154-171 | a completed wait has lasted at least the requested interval, in ticks of the reported frequency, if and only if its deadline fits 64 bits |
| Nanosleep.LongestSleepReturnsAtOnce | kernel/time.c:161-179 | at 100 Hz a request of 2^63 - 1 seconds arms a deadline 100 ticks in the past and is done in the first turn |
| Nanosleep.WrappedSleepIsShort | kernel/time.c:161-170 | at 99 Hz a request of 186330748219288401 seconds arms 83 ticks |
| Nanosleep.ResumedDeadline | kernel/time.c:187-197 | sleeping again for the reported remainder ends at the original deadline |
| Calendar.StepsByOne | kernel/time.c:69-80 | the day number grows by one from each valid date to the next, across months, years and leap days |
| Calendar.StrictlyIncreasing | kernel/time.c:69-80 | dates are ordered as their day numbers are |
| Calendar.CountOfDate | kernel/time.c:69-80 | every day number is the count of a valid date |
| Calendar.DateOfCount | kernel/time.c:69-80 | the date is recovered from its day number |
| Calendar.BcdRoundTrip | kernel/time.c:41-43 | decoding a two-digit BCD byte gives the number |
| Calendar.EpochStarts | kernel/time.c:73-82 | the epoch count is 0 at the first second of 1970 |
| Calendar.SecondsStepByOne | kernel/time.c:82-82 | the epoch count grows by one from each second to the next, across minutes, hours, days, months and years |
| Calendar.RegistersRead | kernel/time.c:55-67 | the registers of every time from 2000 to 2099 are accepted and read back as that time |
| Calendar.AcceptedTimes | kernel/time.c:64-67 | a reading with a real date is accepted exactly when its time is real and its year at most 2099 |
| Calendar.ReadEpoch | kernel/time.c:46-83 | 0 exactly for readings outside the accepted ranges, otherwise the epoch seconds of the reading |
| Calendar.AcceptedButInvalid | kernel/time.c:64-67 | an accepted reading is a real date if and only if no other valid date has its day number |
| Calendar.ThirtyFirstOfFebruary | kernel/time.c:64-67 | the registers of 31 February 2023 are accepted and give the day number of 3 March |
| Madt.SplitSerialise | boot/uefi/efi_acpi.c:95-117 | the length-prefixed walk recovers any list of well-formed structures |
| Madt.ChecksumOk | boot/uefi/efi_acpi.c:58-65 | true if and only if the bytes sum to zero modulo 256 |
| Madt.RecordStructure | boot/uefi/efi_acpi.c:96-115 | a structure adds a processor if and only if it is an enabled local APIC entry and there is room |
| Madt.WalkStructures | boot/uefi/efi_acpi.c:91-117 | the walk records the first 64 enabled processors in table order, stopping at a malformed or truncated structure |
| Madt.ParseMadt | boot/uefi/efi_acpi.c:86-122 | a short or badly summed table changes nothing; otherwise the processors of the table are published, and the default count stands if there is none |
| Madt.SerialisedTable | boot/uefi/efi_acpi.c:86-122 | a table with a correct checksum built from a list of structures publishes the first 64 enabled processors of that list and keeps the rest of the processor table |
| Madt.IcsRead | boot/uefi/efi_acpi.c:102-112 | the octets of a type 0 structure are read as its processor UID, APIC ID and enabled bit; other types name no processor |
| Madt.ProcessorsPublished | boot/uefi/efi_acpi.c:86-122 | every table of typed structures with a correct length and sum publishes its first 64 enabled processors with their own UID and APIC ID in table order, the rest of the processor table stays, and so does the count if there is none |
| Madt.BadTableIgnored | boot/uefi/efi_acpi.c:88-89 | a table shorter than 44 bytes or with a wrong sum publishes nothing |
| PngFilter.UnfilterFilter | tools/analyze_screen.py:45-64 | undoing any filter type gives back the original scanline |
| PngFilter.FilterUnfilter | tools/analyze_screen.py:45-64 | filtering the decoded scanline gives back the encoded one, so decoding is a bijection |
| PngFilter.PaethNearest | tools/analyze_screen.py:55-64 | the predictor is the neighbour nearest to left + upper - upper-left, ties going to left, then upper |
| PngFilter.Reconstructed | tools/analyze_screen.py:45-64 | every byte of the decoded row is the stored byte plus nothing, the decoded left byte, the upper one, their mean rounded down or the Paeth predictor, by filter type, modulo 256 |
| PngFilter.UnfilterInPlace | tools/analyze_screen.py:45-64 | the in-place loop, reading bytes it has already replaced, computes the inverse filter |
| Png.RowsRecovered | tools/analyze_screen.py:37-67 | rows encoded with any mix of filters are recovered |
| Png.DecodeRow | tools/analyze_screen.py:41-66 | one turn of the row loop decodes the scanline at the read position |
| Png.DecodeShort | tools/analyze_screen.py:38-66 | which rows cut off by the end of the stream are still accepted: the loop with every index that can fail |
| Png.DecodeScan | tools/analyze_screen.py:37-67 | the row loop computes the row decoding, failing as the reader does on a short stream |
| Png.ChunksRecovered | tools/analyze_screen.py:18-31 | the chunk walk gathers the header and the pixel data of any chunk list, whatever follows IEND |
| Png.HeaderAbsorbed | tools/analyze_screen.py:25-26 | width, height and colour type are taken from their places in the header chunk |
| Png.StreamAbsorbed | tools/analyze_screen.py:27-28 | chunks that are no headers add their IDAT bodies to the stream in file order and nothing else |
| Png.CollectChunks | tools/analyze_screen.py:18-31 | the loop over the file computes that walk, failing on a truncated length or header |
| Png.DecodePng | tools/analyze_screen.py:13-67 | computes the decoding of the file, every failure included |
| Png.ImageRecovered | tools/analyze_screen.py:13-67 | every file made of the signature, a header chunk, any other chunks and IEND decodes to its picture when the IDAT bodies joined in order inflate to rows filtered in any mix, 3 bytes a pixel for colour type 2 and 4 for type 6 |
| Png.UnsignedRefused | tools/analyze_screen.py:16-16 | a file without the signature is refused |
| Png.OtherColoursRefused | tools/analyze_screen.py:33-33 | any other colour type is refused |
| Ppm.ReadField | tools/boot_debug.py:45-55 | reads one field past spaces and comments as Python's int() does, signs, underscores and outer white space included, and leaves the position after it |
| Ppm.IntDigits | tools/boot_debug.py:55-55 | int() reads back the digits of every number |
| Ppm.IntSigned | tools/boot_debug.py:55-55 | a sign in front of the digits is read as int() reads it |
| Ppm.IntStripped | tools/boot_debug.py:55-55 | white space around a number is ignored |
| Ppm.UnderscoreIgnored | tools/boot_debug.py:55-55 | an underscore between two digits is ignored |
| Ppm.FieldRecovered | tools/boot_debug.py:45-55 | a decimal number behind any mix of spaces and comments is read back |
| Ppm.ReadHeader | tools/boot_debug.py:42-57 | computes the header and raster of the file, failing when a field is not a number |
| Ppm.HeaderRecovered | tools/boot_debug.py:42-57 | width, height, maximum and raster of every P6 file are recovered |
| Ppm.WriteScan | tools/boot_debug.py:67-70 | each row is prefixed with filter type 0 |
| Ppm.FileStarts | tools/boot_debug.py:60-74 | the written file octet by octet: signature, header chunk of an 8-bit RGB picture, the stream and the end chunk |
| Ppm.ScanRecovered | tools/boot_debug.py:67-70 | the PNG reader's row decoding undoes the writer's scan |
| Ppm.FileCollected | tools/boot_debug.py:60-74 | the PNG reader finds the writer's dimensions and pixel stream |
| Ppm.PpmToPng | tools/boot_debug.py:39-74 | computes the written file, every failure included |
| Ppm.OthersRefused | tools/boot_debug.py:42-42 | a file that does not start with P6 is refused |
| Ppm.PpmRoundTrip | tools/boot_debug.py:39-74 | decoding what the writer produced gives back the P6 file's dimensions and pixels |

## Left out

- Everything outside the files above: scheduler, memory management, file systems, network stack, shell, other drivers.  They would be separate models.
- The e1000e and vmxnet3 drivers, which repeat the same receive scheme.
- e1000: PCI and register set-up, the transmit path, descriptor status bytes, link checks and deadlines in recv_wait; idle_drained is counted in the same step as the pop, so lost updates of that statistic are not modelled.
- AHCI: port bring-up, controller enumeration, calls refused before the lock (they only return -1), the sector statistics; PxTFD busy is the command still being in the slot.
- AhciProtocol.AbortInv: an error empties the command slot, because the model has no halted controller; in the source PxCI bit 0 can still be set when the task-file error is reported, and no recovery of the port follows.
- AhciProtocol.Linearizable: does not cover runs with an exposed time-out, because there it is false; `AhciTimeout.TimeOutExact` is the exact condition.
- AhciSelfTest.Disk.SelfTest: log messages and the choice of the port are not modelled.
- UEFI: which pages AllocatePages returns (any page-aligned region of memory is allowed), ExitBootServices and the load of CR3.
- ElfLoader.Load: asks only that the loader does not leave memory, since the source checks nothing and a stray access has no defined result.  p_align and e_phentsize are ignored as the source ignores them.
- Graphics.Gfx.DrawLine: asks for a line whose loop ends, because any other does not meet its exit test while its error term fits an int; `Rasterizers.LineTerminates` is the exact condition.
- Graphics.Gfx.Draw: asks the same of a line it is given.
- Graphics.Gfx.Render: asks the same of the lines among its primitives.
- Graphics: coordinates of the other primitives are unbounded integers, so 32-bit wrap-around of huge coordinates is not modelled; a missing back buffer, the panic screen's seizure, the virtio mirror, saving and restoring rectangles, centred text and the mouse cursor are left out.
- Graphics.Gfx.DirtyFrame: asks the same of the lines in its scene; the scene is any list of primitives: window ordering and the narrower clips of child windows are not modelled.
- RngLifecycle.Module.JitterEvent: does not model the mixing of the time delta into the pool words, because the pool's contents are an input of every seeding; counters, estimate and seeding are modelled.
- RngProgress.ReseedsOnTime: asks that no request comes within 1 MiB of 2^64 bytes, because beyond that it is false; `RngProgress.FillBalanced` is the exact condition.
- AhciProgress.CallSucceeds: is about a device that carries the command out; that a device does so is not promised by the driver.
- Random numbers: CPUID, RDSEED, RDRAND, the time-stamp counter and the pool's contents are inputs; the retry loop of the hardware sources, the verdict of the statistical self-test, wiping of buffers and concurrent updates of the jitter counters are left out.  No claim is made about unpredictability.
- Nanosleep.SleepsLongEnough: time is counted in timer ticks, so the part of a tick that had passed when the sleep began is not modelled, and the 64-bit tick count is taken not to wrap.
- Time: thread states, clock_gettime, interval timers and the wait for the RTC update bit.
- MADT: finding the RSDP and XSDT.
- PNG and PPM: zlib is a pair of functions, the CRC any four bytes per chunk, and the length limit that newer Python versions put on int() is not modelled.
