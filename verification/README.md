# FdtBusPkg, verified model

FdtBusPkg is a set of UEFI drivers that find their hardware through a flattened
devicetree. This project models the parts of it that carry real state or
arithmetic, and proves what each part promises about every input, every call and
every run.

- **NOR flash** (`NorFlashChip`, `NorFlashSpec`, `NorFlashRegister`, `NorFlash`,
  `NorFlashFvb`, `NorFlashHeader`, `NorFlashRuns`, `NorFlashServices`,
  `NorFlashLayout`). The chip is a byte array whose bits can only be
  cleared by programming and only be set by erasing a block, behind a command-mode
  state machine. The driver's choice between programming in place and
  read-patch-erase-rewrite is proved to refine "replace these bytes", exactly when
  it does; which errors left over in the status register stop which requests, and what
  clears them, for every kind of request and either path of a write; whole runs refine a plain block store.
- **PCI host bridge** (`GcdSpace`, `PciRange`, `HostBridgeNodes`, `HostBridge`,
  `HostBridgePhases`, `HostBridgePlaces`, `HostBridgeRuns`, `HostBridgeConfig`). Resource phases over
  the GCD spaces, with 64-bit wrap-around: which request is served when, first fit
  against what is free at its turn, exact ownership over every run, runs that are
  determined by their calls, and the reported addresses.
- **Devicetree properties and translation** (`DtCells`, `DtRows`, `DtProperty`,
  `DtRegs`, `DtTranslate`). The cursor parsers over big-endian cells of variable
  width, and the walk up the `ranges` tables with 128-bit addresses.
- **GCD map update and wide arithmetic** (`GcdMap`, `WideMath`).
- **DMA** (`DmaPages`, `DtDma`, `DtDmaMap`, `DtDmaRuns`). Limits inherited down the tree,
  direct and bounce mappings, the page allocator behind them, and whole runs of calls.
- **UART** (`UartDivisor`, `SerialFifo`, `Uart`, `SerialRounds`, `SerialIo`). Divisor
  choice, ring buffers, software loopback, and the hardware loop, register access by
  register access.
- **Root bridge access** (`RootBridgeIo`, `RootBridgeIoSpace`). Which accesses are let
  through and where they land; opening the port I/O aperture.

Objects the drivers update in place are classes; each method is proved against a
function or predicate over values, and the lemmas are about those. `Uefi` holds the
fixed-width integers and the wrap-around, `Arithmetic` facts about products, quotients
and powers of two. Firmware services, the flash chip and the UART registers are small
state objects of their own whose choices (how long an operation is busy, whether it
fails, which pages are handed out, what the line status says) are arbitrary. The chip
counts its faults and keeps its answers to requests for the program buffer, the UART
keeps a trace of every register access, and the contracts of the drivers speak of those.

Where the code and what is written about it differ, the code is modelled:

- `VerifyUartParameters` announces (Drivers/PciSioSerialDxe/SerialIo.c:60-67) that it
  returns FALSE for an unsupported rate when no place for the actual rate is given; the
  code does not look at that pointer, so its verdict differs from what is announced
  exactly for the rates served by a lower one, and there are such rates
  (`UartDivisor.VerifyUartParameters`, `UartDivisor.DegradedRateExists`).
- A write to the flash that is neither inside one 128-byte window nor at least 128
  bytes long, and that clears bits only, is programmed from stale buffer contents
  (`NorFlashSpec.ExactIffCovered`; on which flash that does harm, `NorFlashSpec.ExactIffSafe`).
- A program error left in the status register makes every later program fail; left over
  alone, as a fault can leave it, it is never cleared by any service unless the chip has
  another fault (`NorFlashRegister.SettleProgram`, `NorFlashRegister.LoneErrorsArise`,
  `NorFlashRuns.StuckForever`; what the other errors do to a write on either path,
  `NorFlashRuns.LeftoversDecideWrites`; what does recover, `NorFlashRuns.EraseRecovers`).
- A buffered write whose buffer becomes available on the very last poll is reported
  as an error, leaves the chip out of read-array mode and both kinds of error in the
  register (`NorFlashRuns.EdgeLastsUntilRestored`).
- The boot-time validation of the volume headers always looks at the start of the flash
  region, while they are written at the volume's own first block; for a volume behind the
  bytes it looks at, an initialization never changes its outcome, so a volume that does not
  validate is formatted at every start (`NorFlashHeader.FvbInitialize`).
- A request of alignment zero can be overtaken by a resource nobody asked for
  (`HostBridgeNodes.ServesAllIffNobodyOvertakes`).
- A 64-bit request that fell back below 4GB is reported with the wrong translation
  unless the two windows agree (`HostBridgeConfig.FallbackReportedRightIff`,
  `HostBridgeConfig.FallbackIsMisreported`).
- The free phase returns a status that was never assigned if and only if nothing was
  allocated, and undoing an existing configuration tests one if and only if the bus range
  is all that is tracked (`HostBridgePhases.RootBridge.FreeResources`,
  `HostBridgeConfig.FreeExistingConfig`).
- A request the allocation phase dropped outlives the free phase, and lets the next
  allocation fail unless its kind is submitted again (`HostBridgeRuns.StaleRequestsFail`).
- The 64-bit test that ends the search for a free place can hold behind the window, too.
  While every place is refused, the search of a window that ends before 2^64 stays in it
  and ends if and only if the test fails at the first aligned address at which the request
  would reach behind the window (`GcdSpace.StaysIffStops`); otherwise it goes on below the
  window, above it, or round and round (`GcdSpace.LeavesDownwards`, `GcdSpace.LeavesUpwards`).
  A window that ends close to 2^64 need not be left (`GcdSpace.StopsNearTheTop`).
- A table of `ranges` whose windows overlap can send a range and one of its bytes to
  different places (`DtTranslate.BytesAgreeIffConsistent`).
- Freeing a buffer does not check that the pages are a buffer; a live mapping loses pages
  that are freed from under it (`DtDmaMap.DmaDevice.FreeBuffer`).
- In software loopback a serial write reports success for bytes that were lost
  (`SerialIo.SerialDev.Write`).

## Model

| member | source | states |
|---|---|---|
| NorFlashChip.Chip.Write32 | Drivers/VirtNorFlashDxe/VirtNorFlash.h:61-99 | the meaning of a 32-bit bus write in every command mode: programming ANDs, erasing sets one block to ones, a failing operation damages nothing outside its range, a fault shows in the status register, a request for the program buffer is answered and the answer kept, an unexpected word aborts |
| NorFlash.Instance.BlockIsLocked | Drivers/VirtNorFlashDxe/VirtNorFlash.c:33-54 | the answer is the block's lock bit, and the chip is left in read-id mode |
| NorFlash.Instance.UnlockSingleBlockIfNecessary | Drivers/VirtNorFlashDxe/VirtNorFlash.c:58-102 | the block is unlocked afterwards, no other lock and no byte changes |
| NorFlash.Instance.EraseSingleBlock | Drivers/VirtNorFlashDxe/VirtNorFlash.c:108-157 | success leaves exactly this block all ones and comes exactly if the block is unlocked, the chip has no fault and no erase error was left over; on every outcome other blocks are untouched and the chip is in read-array mode; a failure clears the register |
| NorFlash.Instance.UnlockAndEraseSingleBlock | Drivers/VirtNorFlashDxe/VirtNorFlash.c:649-690 | up to ten attempts, a locked block included, which ends unlocked; without a fault only an erase error left over without a lock error fails it, and whatever it finds but a lone program error is cleared |
| NorFlash.Instance.WriteSingleWord | Drivers/VirtNorFlashDxe/VirtNorFlash.c:160-209 | success ANDs exactly the four addressed bytes, failure changes nothing else; it succeeds if and only if the block is unlocked, the chip has no fault and no program error was left over, and only then clears the register |
| NorFlash.Instance.PollBuffer | Drivers/VirtNorFlashDxe/VirtNorFlash.c:262-287 | the buffer is asked for up to the first positive answer or the limit, and counts as granted unless the limit was reached, even if the last answer was positive |
| NorFlash.Instance.WriteBuffer | Drivers/VirtNorFlashDxe/VirtNorFlash.c:227-337 | success ANDs every addressed byte and nothing else, and comes if and only if address and size are accepted, the chip did not refuse its buffer up to the last poll, the block is unlocked, the chip has no fault and no program error was left over; the chip holds a granted buffer exactly if it granted it on the last poll |
| NorFlash.Instance.ProgramChunks | Drivers/VirtNorFlashDxe/VirtNorFlash.c:713-767 | 128-byte chunks with all-ones chunks skipped, and the rest behind them, program the whole block |
| NorFlash.Instance.ProgramWords | Drivers/VirtNorFlashDxe/VirtNorFlash.c:768-785 | word-by-word programming of an unaligned block programs the whole block |
| NorFlash.ProgrammingErased | Drivers/VirtNorFlashDxe/VirtNorFlash.c:693-801 | programming an erased range is replacing it |
| NorFlash.Instance.WriteFullBlock | Drivers/VirtNorFlashDxe/VirtNorFlash.c:693-801 | success replaces exactly one block; the chip ends in read-array mode except on the last-poll edge; success under each error left over, a lone program error included, and what is left afterwards |
| NorFlash.Instance.WriteBlocks | Drivers/VirtNorFlashDxe/VirtNorFlash.c:340-402 | success replaces exactly the addressed run of blocks; sizes that are no multiple of the block are refused |
| NorFlash.Instance.ReadBlocks | Drivers/VirtNorFlashDxe/VirtNorFlash.c:405-461 | the buffer starts with the addressed blocks, exactly when they exist and the size is whole |
| NorFlash.Instance.Read | Drivers/VirtNorFlashDxe/VirtNorFlash.c:464-503 | the buffer starts with the addressed bytes, the rest of it and the flash are unchanged |
| NorFlash.Instance.PatchShadow | Drivers/VirtNorFlashDxe/VirtNorFlash.c:577-600 | an erase is needed if and only if some bit has to go from 0 to 1 |
| NorFlash.Instance.WriteSingleBlock | Drivers/VirtNorFlashDxe/VirtNorFlash.c:510-643 | success leaves exactly the specified flash on both paths, no outcome touches another block, the short write near the end of the flash whose old data cannot be read fails untouched, and whether every other write into an existing block succeeds, and what it leaves in the register, follows, without a fault or a late buffer, from the errors found, the path taken and whether the block ends up all ones; only the last-poll edge leaves the chip out of read-array mode, and then both kinds of error in the register |
| NorFlashRegister.SettleProgram | Drivers/VirtNorFlashDxe/VirtNorFlash.c:180-207 | a program is seen to fail if and only if its block is locked, the chip had a fault, or an error its check looks at was left over |
| NorFlashRegister.SettleErase | Drivers/VirtNorFlashDxe/VirtNorFlash.c:121-151 | the same for an erase and its check |
| NorFlashRegister.LoneErrorsArise | Drivers/VirtNorFlashDxe/VirtNorFlash.c:121-207 | from a clean register a fault can leave a program error alone, and another an erase error alone |
| NorFlashRegister.EraseThenProgram | Drivers/VirtNorFlashDxe/VirtNorFlash.c:724-796 | an erase followed by programming the block is a rewrite: healthy and lock errors end well, an erase error fails it once, and behind a lone program error it succeeds if and only if every chunk is skipped |
| NorFlashSpec.ExactIffCovered | Drivers/VirtNorFlashDxe/VirtNorFlash.c:549-621 | a write replaces exactly its bytes for every flash, buffer and data if and only if it stays in one 128-byte window or has at least 128 bytes |
| NorFlashSpec.CoveredWriteIsExact | Drivers/VirtNorFlashDxe/VirtNorFlash.c:549-643 | under that guard the in-place path and the erase path give the same flash as overwriting |
| NorFlashSpec.UncoveredWriteLosesData | Drivers/VirtNorFlashDxe/VirtNorFlash.c:563-569 | outside the guard there is a flash and a stale buffer for which a byte behind the write is lost |
| NorFlashSpec.InPlaceIsExact | Drivers/VirtNorFlashDxe/VirtNorFlash.c:577-621 | AND-programming one or two patched windows changes nothing but the addressed bytes |
| NorFlashSpec.ExactIffSafe | Drivers/VirtNorFlashDxe/VirtNorFlash.c:549-643 | on a given flash, a write replaces exactly its bytes for every stale buffer if and only if it is under the guard, has to set a bit in its first window, or only clears bits in the second one with nothing behind it to lose |
| NorFlashSpec.UnsafeWriteGoesWrong | Drivers/VirtNorFlashDxe/VirtNorFlash.c:563-621 | otherwise one particular stale buffer makes it go wrong |
| NorFlashSpec.FlashDecidesPath | Drivers/VirtNorFlashDxe/VirtNorFlash.c:549-600 | under the guard a write is done without an erase if and only if it is short and clears bits of the flash only, whatever the shadow buffer holds |
| NorFlashFvb.FvbWrite | Drivers/VirtNorFlashDxe/VirtNorFlashFvb.c:576-589 | a successful write that is safe on this flash leaves it with exactly the addressed bytes replaced; whatever the status, no byte outside the block changes; without a fault or a late buffer the errors left over and the path decide whether it succeeds and what is left over afterwards |
| NorFlashFvb.FvbRead | Drivers/VirtNorFlashDxe/VirtNorFlashFvb.c:464-518 | success if and only if the range lies in one existing block, and then the buffer holds the flash bytes |
| NorFlashFvb.FvbEraseBlocks | Drivers/VirtNorFlashDxe/VirtNorFlashFvb.c:636-733 | nothing is erased unless every tuple is nonempty and in range; success leaves ones on exactly the union of the listed blocks; without a fault only an erase error left over prevents it, and is cleared |
| NorFlashFvb.ErasureStaysListed | Drivers/VirtNorFlashDxe/VirtNorFlashFvb.c:697-728 | an erase torn in the middle of a tuple has still changed listed bytes only |
| NorFlashHeader.InitializeHeaders | Drivers/VirtNorFlashDxe/VirtNorFlashFvb.c:32-162 | inconsistent storage areas are refused untouched; success puts the 100 header bytes at the start of the first block |
| NorFlashHeader.ValidateFvHeader | Drivers/VirtNorFlashDxe/VirtNorFlashFvb.c:174-254 | success if and only if all header conditions hold of the flash |
| NorFlashHeader.ChecksumZeroesTheSum | Drivers/VirtNorFlashDxe/VirtNorFlashFvb.c:131-135 | the header with its computed checksum has 16-bit sum zero |
| NorFlashHeader.WrittenHeadersAreValid | Drivers/VirtNorFlashDxe/VirtNorFlashFvb.c:88-254 | any flash that starts with freshly built headers passes validation |
| NorFlashHeader.FvbInitialize | Drivers/VirtNorFlashDxe/VirtNorFlashDxe.c:49-112 | valid headers are left alone; otherwise success leaves exactly the erased areas with the headers, which validate when the volume starts at block 0; for a volume that starts behind what the validation looks at, 20 bytes behind the header at most, the headers validate afterwards if and only if they did before, whatever the status; behind a lone program error it fails |
| NorFlashHeader.ValidityIsLocal | Drivers/VirtNorFlashDxe/VirtNorFlashFvb.c:174-254 | validation depends on the fixed fields, the header as long as it says it is, and the 20 bytes behind it only |
| NorFlashLayout.LengthIsSpan | Drivers/VirtNorFlashDxe/VirtNorFlashFvb.c:59-117 | where the layout is accepted, the length of the volume is that of the addresses from the variable area to the end of the spare area |
| NorFlashLayout.LayoutMeans | Drivers/VirtNorFlashDxe/VirtNorFlashFvb.c:59-107 | a layout is accepted if and only if the areas follow each other, hold a block each and start at block boundaries |
| NorFlashLayout.HeaderLayout | Drivers/VirtNorFlashDxe/VirtNorFlashFvb.c:109-144 | the 100 header bytes, field by field |
| NorFlashLayout.ValidMeans | Drivers/VirtNorFlashDxe/VirtNorFlashFvb.c:189-251 | what a flash that validates shows, field by field: "_FVH", revision 2, the length of the areas by their addresses, GUIDs, the size of the store, a 16-bit sum of zero |
| NorFlashLayout.DamageIsSeen | Drivers/VirtNorFlashDxe/VirtNorFlashFvb.c:219-228 | a valid header with any one byte changed, its length apart, is not valid |
| NorFlashLayout.FormattedAddress | Drivers/VirtNorFlashDxe/VirtNorFlashDxe.c:81-97 | by address: formatting puts the headers at the base of the variable area, leaves ones behind them up to the end of the last whole block of the spare area, and changes nothing else |
| NorFlashLayout.FormatSucceeds | Drivers/VirtNorFlashDxe/VirtNorFlashDxe.c:81-97 | on chips without errors or faults that grant their buffer, formatting succeeds whenever the flash holds the areas |
| NorFlashRuns.Serve | Drivers/VirtNorFlashDxe/VirtNorFlashFvb.c:464-733 | every service call is a step: effect on the flash, mode of the chip, and what becomes of errors left over; a call that touches the chip ends in read-array mode except for a write on the last-poll edge, which is always reported as an error |
| NorFlashRuns.RunRefinesStore | Drivers/VirtNorFlashDxe/VirtNorFlashFvb.c:464-733 | a run of successful requests that are safe on the flash they find leaves what a plain block store would hold |
| NorFlashRuns.FaultlessRunIsAStore | Drivers/VirtNorFlashDxe/VirtNorFlashFvb.c:464-733 | from a register without errors, while the chip has no fault and refuses its buffer in no request up to the last poll, every run of servable safe requests succeeds throughout and is a plain block store |
| NorFlashRuns.EraseRecovers | Drivers/VirtNorFlashDxe/VirtNorFlashFvb.c:576-733 | after any faultless run from any errors but a lone program error, an erase of some block clears them; it succeeds if and only if none, or a lock error, was left, and everything behind it succeeds and is a plain block store |
| NorFlashRuns.LeftoversDecideWrites | Drivers/VirtNorFlashDxe/VirtNorFlash.c:511-801 | in a faultless run every write under the guard succeeds if and only if nothing, an erase error on the path in place, a lock error on the path that erases, or a lone program error on that path for a block that ends up all ones, was left over; what is left over then is determined too |
| NorFlashRuns.WritesFailWhileJammed | Drivers/VirtNorFlashDxe/VirtNorFlash.c:180-207 | no write succeeds while both kinds of error are left over; it leaves both, or clears them on the path that erases |
| NorFlashRuns.StuckForever | Drivers/VirtNorFlashDxe/VirtNorFlash.c:121-207 | a program error left over alone is never cleared: in a faultless run every erase succeeds, and a write does if and only if it takes the path that erases and leaves its block all ones |
| NorFlashRuns.StaysInReadArray | Drivers/VirtNorFlashDxe/VirtNorFlash.c:617-643 | from read-array mode a run is in read-array mode at every point until a last-poll edge |
| NorFlashRuns.BackWhenTouched | Drivers/VirtNorFlashDxe/VirtNorFlash.c:617-643 | out of read-array mode, a run without a further edge is back in it exactly when some request has changed anything about the chip |
| NorFlashRuns.EdgeLastsUntilRestored | Drivers/VirtNorFlashDxe/VirtNorFlash.c:262-287 | after an edge the chip is out of read-array mode and holds errors; any later success, or the erase of an existing block, brings it back until the next edge |
| NorFlashRuns.RunKeepsTheRest | Drivers/VirtNorFlashDxe/VirtNorFlashFvb.c:464-733 | in any run with any failures, a byte no request aims at keeps its value |
| NorFlashRuns.WrittenDataSurvives | Drivers/VirtNorFlashDxe/VirtNorFlashFvb.c:464-589 | written data can be read back after any later run that does not aim at it |
| NorFlashServices.CommandWords | Drivers/VirtNorFlashDxe/VirtNorFlash.h:61-99 | the words sent to the two chips |
| NorFlashServices.RegisterBits | Drivers/VirtNorFlashDxe/VirtNorFlash.h:61-70 | which errors are left over, by the bits of both status registers |
| NorFlashServices.RanOutMeans | Drivers/VirtNorFlashDxe/VirtNorFlash.c:262-287 | running out of polls takes ten million requests for the buffer, all but the last refused |
| NorFlashServices.CleanWriteSucceeds | Drivers/VirtNorFlashDxe/VirtNorFlashFvb.c:576-589 | on chips that show no error, have no fault and grant their buffer, every write under the guard into an existing block succeeds, 128 bytes before the end of the flash excepted, and byte (startLba + lba) * blockSize + offset + j becomes byte j of the data, no other byte changing |
| NorFlashServices.CleanEraseSucceeds | Drivers/VirtNorFlashDxe/VirtNorFlashFvb.c:636-733 | under the same conditions every erase of existing blocks succeeds and leaves ones on exactly the bytes of the blocks named, counted from the first block of the volume |
| NorFlashServices.ReadDelivers | Drivers/VirtNorFlashDxe/VirtNorFlashFvb.c:464-518 | what a read delivers, byte by byte |
| GcdSpace.AllocateResource | Drivers/PciHostBridgeFdtDxe/HostBridge.c:41-94 | the lowest aligned free address in the window, or MAX_UINT64 if there is none; in a window that ends with 2^64, a disabled aperture's for one, only a request that fills it from its first aligned address on has a place |
| GcdSpace.StaysIffStops | Drivers/PciHostBridgeFdtDxe/HostBridge.c:56-93 | while every place is refused, the search tries no address outside its window, and ends, if and only if the loop test fails at the first aligned address behind the window; from a base other than 0 that alone decides whether it stays inside |
| GcdSpace.LeavesDownwards | Drivers/PciHostBridgeFdtDxe/HostBridge.c:62-90 | a search that goes on at address 0, below its window |
| GcdSpace.LeavesUpwards | Drivers/PciHostBridgeFdtDxe/HostBridge.c:62-90 | a search that tries a place which reaches out of its window up to 2^64 |
| GcdSpace.StopsNearTheTop | Drivers/PciHostBridgeFdtDxe/HostBridge.c:62-90 | a window that ends within one alignment step of 2^64 whose search stops in time |
| PciRange.HostDeviceRoundTrip | Drivers/PciHostBridgeFdtDxe/Driver.h:40-41 | host and device translation undo each other modulo 2^64 |
| PciRange.WindowTranslation | Drivers/PciHostBridgeFdtDxe/Driver.h:40-62 | inside a window that does not wrap, the modular translation is a plain offset in both directions |
| HostBridgeNodes.SelectNode | Drivers/PciHostBridgeFdtDxe/HostBridge.c:188-200 | the last unhandled node of maximal alignment |
| HostBridgeNodes.ServingOrderIsUnique | Drivers/PciHostBridgeFdtDxe/HostBridge.c:177-212 | there is only one order that serves every request once by decreasing alignment and index |
| HostBridgeNodes.SomeoneIsLeft | Drivers/PciHostBridgeFdtDxe/HostBridge.c:202-203 | the assertion behind the selection loop holds for all alignments |
| HostBridgeNodes.SelectionIsUnique | Drivers/PciHostBridgeFdtDxe/HostBridge.c:177-212 | there is only one order in which the selection can pick |
| HostBridgeNodes.ServesAllIffNobodyOvertakes | Drivers/PciHostBridgeFdtDxe/HostBridge.c:177-212 | every request is served exactly once and nothing else is, if and only if no unrequested node has more requests below it than requests that outrank it |
| HostBridgeNodes.AlignedRequestsAreServed | Drivers/PciHostBridgeFdtDxe/HostBridge.c:177-212 | alignments of at least 1 are enough for that |
| HostBridgeNodes.UnalignedRequestIsOvertaken | Drivers/PciHostBridgeFdtDxe/HostBridge.c:188-200 | a lone I/O request of alignment 0 is never served |
| HostBridge.AllocateInWindow | Drivers/PciHostBridgeFdtDxe/HostBridge.c:229-341 | a grant lies inside the window, is aligned and is the lowest fit; a refusal means the window is full |
| HostBridge.RoomyIsPlaceable | Drivers/PciHostBridgeFdtDxe/HostBridge.c:229-341 | the search is as it should be whenever the aperture ends two alignment steps and the length of the request below 2^64 |
| HostBridge.GrantKeepsOwnership | Drivers/PciHostBridgeFdtDxe/HostBridge.c:344-352 | granting a free interval to a node that held none keeps "owned is exactly what allocated nodes hold, disjoint" |
| HostBridge.ReleaseKeepsOwnership | Drivers/PciHostBridgeFdtDxe/HostBridge.c:375-435 | so does giving it back |
| HostBridgePhases.RootBridge.AllocateNode | Drivers/PciHostBridgeFdtDxe/HostBridge.c:228-341 | first fit in the window of the kind, below 4GB only when the 64-bit window is full; I/O is tracked by device address and kept by host address |
| HostBridgePhases.RootBridge.ServeAll | Drivers/PciHostBridgeFdtDxe/HostBridge.c:173-356 | the loop keeps ownership exact and settles every node it picks against what was free at its turn |
| HostBridgePhases.RootBridge.AllocateResources | Drivers/PciHostBridgeFdtDxe/HostBridge.c:154-367 | in selection order, a request is granted the lowest place among what the requests before it have left free, or dropped because its translation is misaligned or no window has room there; success means none was dropped; unrequested nodes are untouched |
| HostBridgePhases.PlacedOrDropped | Drivers/PciHostBridgeFdtDxe/HostBridge.c:348-367 | what the loop did to the nodes picked determines the outcome for all nodes |
| HostBridgePhases.DroppedHasNoRoom | Drivers/PciHostBridgeFdtDxe/HostBridge.c:173-356 | a request dropped for want of room has none among what is free afterwards either |
| HostBridgePhases.AllocationIsDetermined | Drivers/PciHostBridgeFdtDxe/HostBridge.c:154-367 | the requests and the free addresses found determine every grant, every refusal, the status and what is left free |
| HostBridgePlaces.AllocationServes | Drivers/PciHostBridgeFdtDxe/HostBridge.c:173-356 | aperture by aperture: the most demanding alignment is served first, of equals the later kind; a 32-bit request gets the lowest aligned free place of its own aperture, a 64-bit one that of the aperture above 4GB or, when that has none, of the one below of the same prefetchability, port I/O that of the port aperture by device address; it is dropped only when those have no place or its translation is misaligned; the last address of an aperture alone is never looked at |
| HostBridgePlaces.StatusTells | Drivers/PciHostBridgeFdtDxe/HostBridge.c:154-367 | success means that every submitted request was granted, and nodes nobody asked for are untouched |
| HostBridgePlaces.OwnedIsGranted | Drivers/PciHostBridgeFdtDxe/HostBridge.c:344-352 | the memory owned is exactly the host ranges granted, no address twice, and the ports owned are the device addresses of the range granted |
| HostBridgePhases.RootBridge.FreeResources | Drivers/PciHostBridgeFdtDxe/HostBridge.c:371-440 | everything owned is given back and no node is allocated; the status returned is unassigned if and only if nothing was allocated |
| HostBridgePhases.RootBridge.BeginEnumeration | Drivers/PciHostBridgeFdtDxe/HostBridge.c:130-147 | refused until the free phase; ownership stays exact if and only if nothing was allocated |
| HostBridgePhases.RootBridge.SubmitResources | Drivers/PciHostBridgeFdtDxe/HostBridge.c:690-802 | one bad descriptor and nothing changes; otherwise the last descriptor of a kind wins |
| HostBridgePlaces.LastDescriptorWins | Drivers/PciHostBridgeFdtDxe/HostBridge.c:774-798 | by type, granularity and prefetchability: the last descriptor of each goes into its own node, length and alignment |
| HostBridgePlaces.UnnamedNodesStay | Drivers/PciHostBridgeFdtDxe/HostBridge.c:774-798 | a node no descriptor is for stays as it was |
| HostBridgePlaces.AcceptableMeans | Drivers/PciHostBridgeFdtDxe/HostBridge.c:715-768 | a descriptor is accepted if and only if it is for ports or memory, memory of granularity 64 or of 32 and less than 4GB, not prefetchable on a combining bridge, and its alignment is one less than a power of two |
| HostBridgeRuns.AcceptedIsRequestable | Drivers/PciHostBridgeFdtDxe/HostBridge.c:757-762 | the power-of-two test on submission gives the mask the allocation phase needs |
| HostBridgeRuns.Notify | Drivers/PciHostBridgeFdtDxe/HostBridge.c:111-459 | every call does what the phase machine's step relation says |
| HostBridgeRuns.NothingIsRemembered | Drivers/PciHostBridgeFdtDxe/HostBridge.c:128-143 | a restart leaves nothing of any node, the free phase nothing of an allocated one |
| HostBridgeRuns.StepKeepsInvariant | Drivers/PciHostBridgeFdtDxe/HostBridge.c:128-459 | a call in order, a submission right after the free phase included, finds its precondition met and keeps the invariant |
| HostBridgeRuns.StepIsDetermined | Drivers/PciHostBridgeFdtDxe/HostBridge.c:111-459 | the state found determines the outcome of every call |
| HostBridgeRuns.RunIsDetermined | Drivers/PciHostBridgeFdtDxe/HostBridge.c:111-802 | two runs in order with the same calls from the same bridge are the same run: every grant and every status |
| HostBridgeRuns.RunOwnsExactly | Drivers/PciHostBridgeFdtDxe/HostBridge.c:128-459 | at every point of every run that replaces no allocated node by a request, allocates only while nothing is allocated, and asks for no restart then that would be granted, the GCD intervals owned are exactly those of allocated nodes, pairwise disjoint, and the spaces are conserved |
| HostBridgeRuns.FreeingRestoresTheSpaces | Drivers/PciHostBridgeFdtDxe/HostBridge.c:371-440 | after every free phase of such a run the GCD is back to where the run started |
| HostBridgeRuns.SubmittingForgets | Drivers/PciHostBridgeFdtDxe/HostBridge.c:770-802 | a submission keeps the ownership exact if and only if no kind it names is allocated |
| HostBridgeRuns.StaleRequestsFail | Drivers/PciHostBridgeFdtDxe/HostBridge.c:358-440 | after an allocation, the free phase and a new submission, the next allocation succeeds if and only if it grants every request submitted and every kind dropped the first time is among them |
| HostBridgeRuns.DroppedStays | Drivers/PciHostBridgeFdtDxe/HostBridge.c:358-440 | a request that could not be granted is still there after the free phase, asking for nothing |
| HostBridgeRuns.StaleKindsDecide | Drivers/PciHostBridgeFdtDxe/HostBridge.c:154-367 | with stale requests left, an allocation succeeds if and only if it grants everything newly submitted and every stale kind was submitted anew |
| HostBridgeConfig.GetProposedResources | Drivers/PciHostBridgeFdtDxe/HostBridge.c:822-917 | one descriptor for every requested node, in type order |
| HostBridgeConfig.ProposalTells | Drivers/PciHostBridgeFdtDxe/HostBridge.c:865-901 | a proposal is for the type, granularity and prefetchability its node was requested for, says whether and how much was granted, and its address leads back to the node's by the translation of that kind's own aperture |
| HostBridgeConfig.ProposalDecodes | Drivers/PciHostBridgeFdtDxe/HostBridge.c:865-881 | the reported device range decodes, byte by byte, to the granted host range |
| HostBridgeConfig.FallbackReportedRightIff | Drivers/PciHostBridgeFdtDxe/HostBridge.c:281-298 | a request granted below 4GB is reported right if and only if both windows have the same translation |
| HostBridgeConfig.FallbackIsMisreported | Drivers/PciHostBridgeFdtDxe/HostBridge.c:265-298 | without a window above 4GB and with a translation below it, every 64-bit request that is granted is reported wrong |
| HostBridgeConfig.KeepExistingConfig | Drivers/PciHostBridgeFdtDxe/HostBridge.c:996-1069 | each aperture in turn is taken over whole, or left because it is disabled or not free as a whole at its turn; the bridge owns exactly what tracked nodes hold |
| HostBridgeConfig.TakeAperture | Drivers/PciHostBridgeFdtDxe/HostBridge.c:1036-1053 | taken if and only if its base is even, it has two bytes or more and all of it is free |
| HostBridgeConfig.FreeExistingConfig | Drivers/PciHostBridgeFdtDxe/HostBridge.c:1082-1133 | every aperture tracked is given back and forgotten; an unassigned status is tested if and only if the bus range is tracked and no aperture is, and otherwise the undoing succeeds |
| HostBridgeConfig.KeepThenFree | Drivers/PciHostBridgeFdtDxe/HostBridge.c:996-1133 | taking over and undoing restores both GCD spaces; with a direct bus range and no direct aperture it tests the unassigned status |
| DtCells.OrDisjoint | Drivers/FdtBusDxe/DtIoPropParse.c:203-207 | or-ing a shifted cell into free bits is adding it |
| DtCells.NumberRoundTrip | Drivers/FdtBusDxe/DtIoPropParse.c:168-211 | a number encoded in n big-endian cells is read back |
| DtCells.NumbersCompare | Drivers/FdtBusDxe/DtIoPropParse.c:203-207 | the most significant byte comes first: numbers compare as their bytes do |
| DtCells.IndexedIsInTurn | Drivers/FdtBusDxe/DtIoPropParse.c:77-402 | parsing at index i is i+1 parses in turn: same value, same cursor, same failures |
| DtRows.RowsRoundTrip | Drivers/FdtBusDxe/DtDevice.c:743-760 | any rows under any nonzero address widths and any size width are read back |
| DtRows.NoAddressNoRow | Drivers/FdtBusDxe/DtIoPropParse.c:191-193 | without address cells no row can be read |
| DtProperty.Property.ParseNumber | Drivers/FdtBusDxe/DtIoPropParse.c:118-211 | value and cursor of the indexed field, or NOT_FOUND with the cursor unmoved |
| DtProperty.Property.ParseU32 | Drivers/FdtBusDxe/DtIoPropParse.c:77-98 | the same for one cell |
| DtProperty.Property.ParseU64 | Drivers/FdtBusDxe/DtIoPropParse.c:118-148 | the same for two cells in 64 bits |
| DtProperty.Property.ParseAddress | Drivers/FdtBusDxe/DtIoPropParse.c:168-274 | zero address cells: NOT_FOUND |
| DtProperty.Property.ParseSize | Drivers/FdtBusDxe/DtIoPropParse.c:294-402 | zero size cells: size 0 and success without moving |
| DtProperty.CellLands | Drivers/FdtBusDxe/DtIoPropParse.c:203-207 | every shifted cell fits 128 bits and lands in bits nobody has set |
| DtProperty.Property.FindEnd | Drivers/FdtBusDxe/Utils.c:275-289 | the byte behind the first NUL, or none |
| DtProperty.Property.ParseString | Drivers/FdtBusDxe/DtIoPropParse.c:703-741 | the indexed string, or NOT_FOUND with the cursor unmoved |
| DtProperty.StringsRoundTrip | Drivers/FdtBusDxe/DtIoPropParse.c:703-741 | every string of an encoded list is found whole at its index, and nothing behind the last |
| DtRegs.ParseReg | Drivers/FdtBusDxe/DtIoPropParse.c:422-537 | fields of the indexed pair, its CPU translation or the bus it has arrived at; every error restores the cursor; memory attributes can fail what the CPU can see only |
| DtRegs.ParseRange | Drivers/FdtBusDxe/DtIoPropParse.c:557-680 | the same for a ranges row |
| DtRegs.PairIndexedIsInTurn | Drivers/FdtBusDxe/DtIoPropParse.c:443-473 | reg fields at index i are those of i+1 parses in turn |
| DtRegs.RowIndexedIsInTurn | Drivers/FdtBusDxe/DtIoPropParse.c:581-616 | ranges fields too |
| DtRegs.EncodedRowIsFound | Drivers/FdtBusDxe/DtIoPropParse.c:581-616 | every row of an encoded table is found at its index, and none behind the last |
| DtRegs.EncodedPairIsFound | Drivers/FdtBusDxe/DtIoPropParse.c:443-473 | every entry of an encoded reg property is found at its index, and none behind the last |
| DtTranslate.TranslateRangeInternal | Drivers/FdtBusDxe/DtDevice.c:702-766 | the first row that covers the range decides, in plain arithmetic where nothing wraps; root and empty ranges are identities, missing ranges translate nothing; a truncated row ends the search |
| DtTranslate.TranslateRangeToCpu | Drivers/FdtBusDxe/DtDevice.c:786-837 | the walk's address and bus, with unreachable CPU ranges refused: a bus without `ranges` below the root lets nothing through, so whatever is translated has come past buses that can all translate; behind such a bus the address comes back unchanged with that bus; through identities alone it comes back unchanged as a CPU address |
| DtTranslate.WalkPassesIdentities | Drivers/FdtBusDxe/DtDevice.c:712-732 | a walk past identities changes nothing: it ends at the CPU, at the first bus without `ranges`, or fails at one whose `ranges` cannot be read |
| DtTranslate.RangesAreRead | Drivers/FdtBusDxe/DtDevice.c:743-760 | rows encoded as child address, parent address and size, in the cell counts of the bus for its children's addresses, its own and its children's sizes, are the rows translation looks at |
| DtTranslate.WalkIsComposition | Drivers/FdtBusDxe/DtDevice.c:802-837 | the walk is the composition of the per-level maps up to the first bus that does not cover the range |
| DtTranslate.MatchesIffHeld | Drivers/FdtBusDxe/DtDevice.c:743-765 | in a table without overlap or wrap, a nonempty range is translated if and only if some child window holds it, by that window's offset |
| DtTranslate.RowDecidesForBytes | Drivers/FdtBusDxe/DtDevice.c:758-762 | in a consistent table the row of a range decides for each of its bytes |
| DtTranslate.BytesAgreeIffConsistent | Drivers/FdtBusDxe/DtDevice.c:743-765 | in a table that does not wrap, every translated range agrees with each of its bytes if and only if, for every nonempty row whose window no earlier row holds whole, the first row containing each byte of that window sends it where this row would |
| DtTranslate.SoundIsConsistent | Drivers/FdtBusDxe/DtDevice.c:743-765 | windows that do not overlap make a consistent table |
| DtTranslate.BytesTranslateAlike | Drivers/FdtBusDxe/DtDevice.c:702-837 | if every bus above has a consistent table and a range reaches the CPU at Out, every byte In+d alone reaches Out+d |
| DtTranslate.OverlapSplitsARange | Drivers/FdtBusDxe/DtDevice.c:758-762 | two overlapping rows that are not consistent: the range and its first byte are sent to different places |
| GcdMap.ApplyGcdTypeAndAttrs | Drivers/FdtBusDxe/Utils.c:334-523 | byte by byte on the page-widened range: absent bytes and those of the wished type without attributes or with the wished ones become (type, attributes), in use or not, all others are kept if and only if asked; nothing outside changes whatever the status; on reliable services it succeeds if and only if the range exists and no byte in use would have to be taken away; a failure leaves a front part settled and one stretch behind it half done at most |
| GcdMap.ApplyingTwiceIsOnce | Drivers/FdtBusDxe/Utils.c:334-523 | a second application changes nothing, and nothing stands in its way |
| GcdMap.DisjointWishesCommute | Drivers/FdtBusDxe/Utils.c:334-523 | the order of updates of disjoint ranges does not matter |
| WideMath.MultThenDivIsExact | Drivers/FdtBusDxe/Utils.c:195-233 | for every nonzero multiplier and divisor, the quotient of the 128-bit product modulo 2^64 and its exact remainder |
| DmaPages.Memory.AllocatePages | Drivers/FdtBusDxe/DtIoDma.c:119-129 | some free run of pages below the limit, if and only if there is one |
| DtDma.DmaInit | Drivers/FdtBusDxe/DtDevice.c:15-121 | the limit never exceeds the parent's, a non-identity bus is inherited and leaves limit 0, otherwise exactly the addresses within the inherited limit and before the end of every identity range are within the new one; it fails exactly at a truncated row |
| DtDma.NarrowedIsLeast | Drivers/FdtBusDxe/DtDevice.c:75-111 | that limit is below every range and no lower than it has to be |
| DtDma.LimitTells | Drivers/FdtBusDxe/DtDevice.c:95-111 | an address is within the new limit if and only if it was within the inherited one and lies before the end of every identity range |
| DtDma.ReadableUnlessTorn | Drivers/FdtBusDxe/DtDevice.c:75-93 | encoded rows are read back, and something short of a row behind identities only is an error |
| DtDmaMap.DmaDevice.Map | Drivers/FdtBusDxe/DtIoDma.c:35-156 | a window within the limits of the device, of every bus above it and of the caller, and before the end of every row of their dma-ranges: the host range itself exactly when it lies within the first and last of these, or fresh pages holding zeros, or for a read the host's bytes, whenever the host range is not on free pages; it succeeds whenever pool and a free run below the limit exist; every other outcome changes nothing |
| DtDmaMap.FilledWindow | Drivers/FdtBusDxe/DtIoDma.c:125-136 | what the device finds in a bounce window: the host's bytes for a read, zeros otherwise |
| DtDmaMap.DmaDevice.Unmap | Drivers/FdtBusDxe/DtIoDma.c:170-230 | an unknown mapping is rejected unchanged; a live one gives its pages back, a bus-master write after its bytes have reached the host range |
| DtDmaMap.DmaDevice.AllocateBuffer | Drivers/FdtBusDxe/DtIoDma.c:251-318 | zeroed pages below the limits of device and caller, if and only if the request is allowed and a free run exists there, and the status of each refusal |
| DtDmaMap.DmaDevice.FreeBuffer | Drivers/FdtBusDxe/DtIoDma.c:335-346 | exactly the pages asked for go back, if the device owns them all; the device stays consistent if and only if none of them was under a live mapping |
| DtDmaRuns.RunRequests | Drivers/FdtBusDxe/DtIoDma.c:35-346 | any interleaving of mapping, unmapping, buffer allocation and freeing, with device writes in between, is a run; afterwards the list is exactly the live mappings, each unmap has succeeded if and only if its mapping was alive or none was needed, the buffer pages are exactly those of the buffers held, and with nothing mapped or held all pages are back |
| DtDmaRuns.Serve | Drivers/FdtBusDxe/DtIoDma.c:35-346 | each call does exactly what the step relation says of the list, the pages, the bytes and the status |
| DtDmaRuns.ListIsLive | Drivers/FdtBusDxe/DtIoDma.c:138-188 | at every point of every run the driver's list is the live mappings, each from its Map to its Unmap, in order |
| DtDmaRuns.UnmapIffLive | Drivers/FdtBusDxe/DtIoDma.c:170-230 | an unmap succeeds if and only if its mapping is alive at that point, or was none |
| DtDmaRuns.RunKeepsPages | Drivers/FdtBusDxe/DtIoDma.c:35-346 | over every run the pages owned are exactly those of live mappings and buffers, on distinct pages, and none is lost |
| DtDmaRuns.DeviceDataArrives | Drivers/FdtBusDxe/DtIoDma.c:195-207 | what the device last wrote into a write window is what the host finds in its range after the unmap, whatever else was mapped, unmapped or allocated in between |
| DtDmaRuns.HostDataVisible | Drivers/FdtBusDxe/DtIoDma.c:125-136 | what the host had in its range when a read was mapped is what the device finds in the window at any later point at which nothing has been written there |
| DtDmaMap.MapPagesRemove | Drivers/FdtBusDxe/DtIoDma.c:188-212 | taking one mapping off the list takes exactly its pages out of the pages in use |
| DtDmaMap.AncestorLimits | Drivers/FdtBusDxe/DtDevice.c:25-30 | every ancestor's limit bounds a device's, and one non-identity ancestor leaves it no DMA |
| UartDivisor.VerifyUartParameters | Drivers/PciSioSerialDxe/SerialIo.c:52-205 | within four percent the nearest divisor, otherwise the ceiling; accepted exactly when it fits 16 bits and gives a rate; the actual rate never exceeds the request; the verdict is the announced one unless a rate served by a lower one is asked for without a place for that rate |
| UartDivisor.DegradedRateExists | Drivers/PciSioSerialDxe/SerialIo.c:60-67 | with a clock of 1843200, a request for 100000 baud is such a rate, served with 57600 |
| UartDivisor.FormatMeans | Drivers/PciSioSerialDxe/SerialIo.c:85-93 | five data bits go with one or one and a half stop bits, six to eight with one or two, every parity with either |
| UartDivisor.RateIsQuotient | Drivers/PciSioSerialDxe/SerialIo.c:138 | the rate is what sixteen times the divisor goes into the clock |
| UartDivisor.CloseMeans | Drivers/PciSioSerialDxe/SerialIo.c:143-161 | close means a request of at least 96 and less than 105 hundredths of the rate |
| UartDivisor.NearestRoundsUp | Drivers/PciSioSerialDxe/SerialIo.c:112-140 | the divisor is at most half a step off, and half steps go up |
| UartDivisor.NearestIsNearest | Drivers/PciSioSerialDxe/SerialIo.c:112-140 | no other divisor is closer to the exact quotient |
| UartDivisor.CeilingIsLeast | Drivers/PciSioSerialDxe/SerialIo.c:184-190 | the ceiling is the least divisor whose exact rate does not exceed the request |
| SerialFifo.RingAdd | Drivers/PciSioSerialDxe/SerialIo.c:248-266 | storing behind the tail of the ring appends to the queue |
| SerialFifo.RingRemove | Drivers/PciSioSerialDxe/SerialIo.c:279-297 | moving the head takes the oldest byte |
| SerialFifo.Fifo.Add | Drivers/PciSioSerialDxe/SerialIo.c:215-266 | appends unless 16 bytes are queued |
| SerialFifo.Fifo.Remove | Drivers/PciSioSerialDxe/SerialIo.c:230-297 | takes the oldest byte unless the queue is empty |
| SerialIo.SerialDev.LoopBack | Drivers/PciSioSerialDxe/SerialIo.c:328-342 | everything moves in order when it fits in 16, otherwise Receive is filled and exactly one byte is lost |
| SerialIo.SerialDev.Exchange | Drivers/PciSioSerialDxe/SerialIo.c:343-455 | the loop runs for as many rounds as the line status lets it, and every round accesses exactly the registers, and moves exactly the bytes, that the readings call for |
| SerialRounds.RoundsMove | Drivers/PciSioSerialDxe/SerialIo.c:343-455 | for every behaviour of the line: sent followed by pending never changes, unbroken arrivals are queued in order, and full-handshake request-to-send goes on telling whether there is room |
| SerialRounds.ExchangeMoves | Drivers/PciSioSerialDxe/SerialIo.c:343-455 | a whole run looks at the line at least once and ends with nothing pending or the last status saying busy |
| SerialRounds.RoundMeans | Drivers/PciSioSerialDxe/SerialIo.c:358-452 | by the bits of line and modem status, which byte a round takes in, drops or sends |
| SerialRounds.WaitMeans | Drivers/PciSioSerialDxe/SerialIo.c:424-436 | the wait for clear-to-send ends with the first modem status that lets the byte pass, or the sixth |
| SerialRounds.SendMeans | Drivers/PciSioSerialDxe/SerialIo.c:408-452 | the register accesses of sending, without flow control and with either handshake |
| SerialIo.SerialDev.Write | Drivers/PciSioSerialDxe/SerialIo.c:1118-1214 | on the hardware the bytes pending and exactly the reported ones are sent, in order; after a timeout, in which the line was looked at all the time and last found busy, the next one is left pending, alone once a byte was written; in loopback only what fits is received |
| SerialIo.SerialDev.Read | Drivers/PciSioSerialDxe/SerialIo.c:1231-1309 | the oldest bytes in order, all that were asked for or all there were; on the hardware those read and those still queued are what was queued followed by what arrived at the register, and a timeout comes only after looking at the line all the time and with nothing queued |
| SerialIo.LoopbackRoundTrip | Drivers/PciSioSerialDxe/SerialIo.c:1118-1309 | writing and reading back is the identity if and only if at most 16 bytes are written |
| RootBridgeIo.CheckParameter | Drivers/PciHostBridgeFdtDxe/RootBridge.c:116-237 | a nonempty access is accepted if and only if it is sound and one enabled aperture of its kind, named one by one, has every byte it touches, with the register of the first that does |
| RootBridgeIo.TouchedIsExtent | Drivers/PciHostBridgeFdtDxe/RootBridge.c:118-157 | width by width, the bytes an access touches: all at one address for widths 4 to 7, one unit of 1, 2, 4 or 8 bytes behind the other for the rest |
| RootBridgeIo.ContainsIffHasAll | Drivers/PciHostBridgeFdtDxe/RootBridge.c:164-218 | an aperture contains the extent of an access if and only if it has every byte touched |
| RootBridgeIo.EarlyIffSound | Drivers/PciHostBridgeFdtDxe/RootBridge.c:96-157 | the first checks pass if and only if the width is known, a buffer is there where one is needed, the first unit is aligned, and no byte touched is the last of the address space or behind it |
| RootBridgeIo.PassesIsContainment | Drivers/PciHostBridgeFdtDxe/RootBridge.c:176-218 | the modular comparison means containment, and a disabled aperture never passes |
| RootBridgeIo.EmptyAccessPasses | Drivers/PciHostBridgeFdtDxe/RootBridge.c:252-258 | an empty access passes a disabled aperture exactly at address 0 |
| RootBridgeIo.ChosenDecides | Drivers/PciHostBridgeFdtDxe/RootBridge.c:164-237 | the window chosen passes if and only if some window does, and is the first such |
| RootBridgeIo.ContainedAccessLands | Drivers/FdtBusDxe/DtIo.c:476-552 | such an access passes the length check of the window's register and lands at its address minus the translation modulo 2^64 |
| RootBridgeIo.HostOfRegister | Include/Library/FbpUtilsLib.h:55-69 | the 128-bit register base and the 64-bit translation agree modulo 2^64 |
| RootBridgeIo.Transfer | Drivers/PciHostBridgeFdtDxe/RootBridge.c:671-891 | a successful transfer goes to the translated host address inside one aperture |
| RootBridgeIo.VgaRangeIsTranslatedAlike | Drivers/PciHostBridgeFdtDxe/RootBridge.c:2018-2041 | the legacy windows sit at their fixed addresses with the aperture's translation |
| RootBridgeIo.CheckConfig | Drivers/PciHostBridgeFdtDxe/RootBridge.c:226-258 | a configuration access is accepted if and only if bus, device, function and register range exist |
| RootBridgeIo.ConfigAllowedMeans | Drivers/PciHostBridgeFdtDxe/RootBridge.c:226-258 | an access with sound parameters is let through if and only if the function exists and every register byte it touches does |
| RootBridgeIo.AcceptedStaysInside | Drivers/PciHostBridgeFdtDxe/RootBridge.c:133-258 | an accepted access ends inside the function's 4096 bytes |
| RootBridgeIo.ConfigAccessesAreSeparate | Drivers/PciHostBridgeFdtDxe/RootBridge.c:996-1059 | accepted accesses to different functions never touch the same byte of the ECAM window |
| RootBridgeIoSpace.AddIoSpace | Drivers/PciHostBridgeFdtDxe/RootBridge.c:400-487 | success if and only if nothing else lives in the aperture, and then exactly the aperture has become port I/O space |
| RootBridgeIoSpace.IntersectIoDescriptor | Drivers/PciHostBridgeFdtDxe/RootBridge.c:331-387 | exactly the missing part of the aperture inside one descriptor is added |

## Left out

- NorFlashChip.Chip.Write32: the confirm word of a buffered program is accepted at any address (the driver sends it to the device base); how long an operation is busy, whether it has a fault and in which bits that shows are arbitrary choices of the chip.
- NorFlash.Instance.WriteSingleBlock: TPL raising, the erase watchdog and block sizes that are no multiple of 128 bytes are not modelled; flash, block and address arithmetic is required not to wrap 64 bits.
- NorFlashHeader.BuildHeaders: the byte layout of EFI_FIRMWARE_VOLUME_HEADER and VARIABLE_STORE_HEADER comes from the PI specification; GUIDs, storage bases and sizes are parameters.
- GcdSpace.AllocateResource: the GCD services are sets of addresses with the contracts of the PI specification; a search that would leave its window or never end (see GcdSpace.StaysIffStops) is excluded, so what the driver does outside the window is not modelled.
- GcdMap.ApplyGcdTypeAndAttrs: zero lengths and ranges that wrap 64 bits are excluded; the map is per byte, and services that are not reliable may fail at any time.
- HostBridgePhases.RootBridge.SubmitResources: a bus descriptor trips an assertion in the source and is not modelled; parsing of the descriptor list up to its end tag is.
- HostBridge.AllocateInWindow: searches that would leave their window, or start outside it, are excluded, and so are apertures that wrap or end with the address space itself.
- HostBridgePhases.RootBridge.AllocateNode: the same for the node's windows.
- HostBridgePhases.RootBridge.ServeAll: the same for all nodes.
- HostBridgePhases.RootBridge.AllocateResources: the same, and alignment 2^64-1 is excluded; the assertion on a misaligned translation is treated as in a release build.
- HostBridgeRuns.RunOwnsExactly: runs that allocate again, or restart, while something is allocated are excluded; what a restart and a submission do then is stated by HostBridgePhases.RootBridge.BeginEnumeration and HostBridgeRuns.SubmittingForgets.
- HostBridgeRuns.Notify: the phases that do nothing are one event; SetBusNumbers, StartBusEnumeration and PreprocessController are left out because they only copy or compare.
- DtRegs.ParseReg: the outcome of looking up and applying memory attributes is a parameter, because the attributes are indexed from the current cursor.
- DtProperty.Property.ParseNumber: five source functions with the same loop (addresses, sizes and 64-bit values) are one method; EFI_DT_VALUE_DEVICE needs libfdt and is left out.
- DtTranslate.BytesTranslateAlike: no window may reach the end of the 128-bit address space.
- DtDma.DmaInit: reading the coherency property is a parameter; after a failed lookup of dma-ranges the property contents are arbitrary.
- DtDmaMap.DmaDevice.Map: empty ranges and ranges that wrap are excluded; pages of one device are allocated from a memory of its own.
- DtDmaMap.DmaDevice.Unmap: a mapping record is never reused, so a stale mapping is never mistaken for a later one; in the source the pool may hand out the same block again.
- DtDmaRuns.RunRequests: a buffer the driver does not hold is not freed; what freeing other pages does is stated by DtDmaMap.DmaDevice.FreeBuffer.
- UartDivisor.VerifyUartParameters: baud rates of zero and from 2^57 on, where the 64-bit products wrap, are excluded.
- SerialIo.SerialDev.Exchange: line and modem status and the bytes that arrive are arbitrary, and the transmitter is assumed to report busy eventually; status code reporting and stalls are left out.
- SerialIo.SerialDev.Write: the timeout is a number of units, not computed from the line settings; the NULL-buffer error is left out.
- RootBridgeIo.CheckParameter: a NULL register pointer is left out; the access the bus of an indirect aperture makes is not part of this model.
- RootBridgeIoSpace.AddIoSpace: the debug-build check after the loop is left out.
- Driver binding, component names, protocol installation, device paths and libfdt: plumbing without a property of this kind.
- FbpInterruptUtilsLib: its row matching calls FbpPropertyCompare, which is not part of this model.
- Command-line applications, sample drivers, HighMemDxe and VirtioFdtDxe: thin or illustrative.
