# Verified model of the OPAE Intel FPGA driver's hard parts

This project models, in Dafny, the stateful and arithmetic core of the Intel FPGA driver stack and
proves what each part is for. `dafny verify dfyconfig.toml` checks it.

| file | part of the driver |
|---|---|
| `BlockProtect.dfy` | locking and unlocking a NOR flash through the BP/TB bits of its status register |
| `NorFlash.dfy`, `AddressCodec.dfy`, `AaiWrite.dfy` | erase, page-split write, word write and read through the 512-byte controller FIFO; addresses on the wire; S3AN addresses |
| `DmaRegions.dfy`, `AfuPort.dfy` | the tree of DMA regions, locked-page accounting, the UMSG base register, open and release of a port |
| `PortReset.dfy`, `PrPush.dfy` | the nested port reset under concurrent actors; pushing an image under a cached credit |
| `PortOwnership.dfy` | releasing and assigning ports, SR-IOV |
| `ProbeStages.dfy`, `FeatureProbe.dfy` | how a probe ends for every device memory and every refused call; the feature-list walk, the devices it builds and the id pools |
| `FpgaManager.dfy` | loading an image, contiguous or scattered, on an arbitrary low-level driver |
| `IrqBlock.dfy` | binding a block of interrupt vectors |
| `Arith.dfy`, `Common.dfy` | powers of two, logarithms, remainders, bits; shared vocabulary |

How the parts are modelled:

- Loops and structures that the source updates in place are methods and classes here; what they do
  is stated against functions of the old state, and the laws are lemmas about those functions.
- Concurrent actors are steps of a state machine, one step for each critical section, and the
  safety results quantify over all finite runs.
- What the driver asks of the kernel or the hardware (allocations, polls, bus transfers, page
  pinning, DMA mapping, `idr`, rotations of the red-black tree, the low-level FPGA driver) comes in
  as parameters, so each result holds for every answer. What is assumed of them: `dma_map_page`
  hands out addresses below 2^48 that no live mapping uses; a file is not released while one of its
  ioctls runs; hardware port numbers differ; the reconfiguration FIFO only frees slots on its own; a
  write-enable command reaches the chip, because the driver ignores its result; of a command that
  times out any first part may reach the chip, and the rest stays in the FIFO; a refused call of a
  probe answers -ENOMEM, or -EINVAL for interrupt vectors.
- Flash requests lie inside the chip, as the MTD layer above these functions ensures; chips that are
  programmed by words have pages of even size.
- Integer widths are explicit where they matter: 8-bit BP arithmetic, 64-bit region sums, the
  48-bit base register, 32-bit erase lengths, counters and vector sums.

Where the code does not do what its comments, its callers or its use elsewhere lead to expect, the
model follows the code. In each case a member or one clause of it shows an input, and another gives the exact condition
under which the property holds:

| what the code does | an input | exactly when it holds |
|---|---|---|
| `stm_lock` says it "will not unlock" other areas, but its guard compares BP fields only | `LockCanUnlock` | `LockKeepsOldIff` |
| `stm_unlock` says it "will not lock" other areas, but its guard compares BP fields only | `UnlockCanLock` | `UnlockFrameIff` |
| an unlock loses a remainder that encodes to "nothing locked" | `UnlockCanLoseRest` | `UnlockFrameIff` |
| a lock on a size that is no power of two protects unrequested bytes | `LockOvershootsOddSize` | `LockAddsOnlyRequestIff` |
| a query that wraps matches a region it is not inside of | `WrappingQueryMatches` | `SearchAgreesIff` |
| an address beyond 48 bits is truncated into the base register | `BaseTruncates` | `BaseHoldsIff` |
| replacing a UMSG base leaves the old region marked in use | `MarkStaysBehind` | `MarksExactIff` |
| a partial pin keeps the page references it got | `PartialPinLeaks` | `MapRegion` |
| a port reset that times out once leaves the port in reset for good | `OneTimeoutSticks` | `SticksIff`, `StuckForever` |
| a failed scattered load can leave the state at OPERATING | `OperatingOutlives` | `OperatingIff` |
| a scattered load can fail where the contiguous one succeeds | `CutWordFails` | `WordDriverSameIff`, `FragmentationIrrelevantIff` |
| a probe resets a port it could not build and dereferences null | `RefusedPortOops`, `ShortBarOops` | `ProbeOopsIff`, `CardCanOopsIff` |
| a probe reads registers past the end of a BAR | `ShortBarOops` | `ScanReadsPastIff` |
| `sst_write` does not notice timeouts of the controller | last clause of `SstWrite` | wire clause of `SstWrite` |
| `spi_nor_erase` keeps the length in 32 bits, so erasing 2^32 bytes erases nothing | success clause of `Erase` | success clause of `Erase` |

## Model

| member | source | states |
|---|---|---|
| `BlockProtect.CheckLockStatusMeans` | drivers/mtd/spi-nor/spi-nor.c:580-597 | The two answers of the status check hold exactly when every byte of the range is locked, or none is. |
| `BlockProtect.BpValueFits` | drivers/mtd/spi-nor/spi-nor.c:688-694 | In 8 bits, `val & ~mask` rejects exactly the exponents above 7; the accepted values decode back to the exponent, and only 7 encodes to "nothing". |
| `BlockProtect.RegisterBits` | drivers/mtd/spi-nor/spi-nor.c:696-702 | The new register values carry the BP field, the side and SRWD as decided and leave all other bits alone. |
| `BlockProtect.LockedAfterLock` | drivers/mtd/spi-nor/spi-nor.c:681-700 | For every chip size, a lock that is not refused protects the chip halved log2(size) - log2(lock_len) times, at the chosen end. |
| `BlockProtect.RoundedPow2` | drivers/mtd/spi-nor/spi-nor.c:681-690 | On a power-of-two chip that length is the largest power of two inside lock_len; it reaches lock_len exactly when lock_len is a power of two. |
| `BlockProtect.LockAddsOnlyRequestIff` | drivers/mtd/spi-nor/spi-nor.c:643-721 | For every size, with or without TB: a successful lock protects only bytes that were locked or asked for exactly when rounding does not overshoot, or the bytes below the request were locked already. |
| `BlockProtect.LockCoversRequestIff` | drivers/mtd/spi-nor/spi-nor.c:674-700 | For every size a successful lock covers the whole request exactly when rounding does not fall short of lock_len. |
| `BlockProtect.LockKeepsOldWithoutTb` | drivers/mtd/spi-nor/spi-nor.c:712-714 | Without TB a successful lock releases no byte, for every chip size. |
| `BlockProtect.LockKeepsOldIff` | drivers/mtd/spi-nor/spi-nor.c:652-714 | For every size, with or without TB: a successful lock keeps all locked bytes exactly when nothing was locked, the side stays, or the whole chip gets locked. |
| `BlockProtect.LockOnPow2` | drivers/mtd/spi-nor/spi-nor.c:643-721 | On a power-of-two chip a successful lock never protects unrequested bytes, and covers the request exactly when lock_len is a power of two. |
| `BlockProtect.LockCanUnlock` | drivers/mtd/spi-nor/spi-nor.c:712-714 | A concrete lock that releases a byte by changing side. |
| `BlockProtect.LockOvershootsOddSize` | drivers/mtd/spi-nor/spi-nor.c:680-690 | A concrete lock that protects unrequested bytes on a chip whose size is no power of two; `LockAddsOnlyRequestIff` says exactly when. |
| `BlockProtect.UnlockFrameIff` | drivers/mtd/spi-nor/spi-nor.c:728-809 | Exact condition, for every chip size, request and TB, under which a successful unlock changes no byte outside the request and locks no byte. |
| `BlockProtect.UnlockFrameWithoutTb` | drivers/mtd/spi-nor/spi-nor.c:728-809 | Without TB, on a power-of-two chip, that condition is: nothing was locked in the range, or the rest is empty or longer than size/128. |
| `BlockProtect.UnlockCanLoseRest` | drivers/mtd/spi-nor/spi-nor.c:777-785 | A concrete unlock that also unlocks the part that should stay locked. |
| `BlockProtect.UnlockCanLock` | drivers/mtd/spi-nor/spi-nor.c:800-802 | A concrete unlock that locks the other half of the chip. |
| `BlockProtect.LockReports` | drivers/mtd/spi-nor/spi-nor.c:643-721 | The three byte-level promises of a successful lock, each with its exact condition. |
| `BlockProtect.LockRefusedIff` | drivers/mtd/spi-nor/spi-nor.c:652-717 | When a lock is refused, in bytes: the range is not locked yet and it can be made from neither end, needs more than six halvings, or more than the register has; when nothing is to be done; and the whole register otherwise. |
| `BlockProtect.UnlockRefusedIff` | drivers/mtd/spi-nor/spi-nor.c:740-805 | When an unlock is refused, in bytes: the range has a locked byte and the rest can stay locked from neither end, needs more than seven halvings, or fewer than the register has; when nothing is to be done; and the whole register otherwise. |
| `BlockProtect.ProtectedFlash.Lock` | drivers/mtd/spi-nor/spi-nor.c:643-721 | Code and register for every request and bus outcome: -EINVAL exactly for a refused lock, 0 without a write if all bytes are locked, else the write of the one register `LockWrites` allows; on success which of the three byte promises are kept. |
| `BlockProtect.ProtectedFlash.Unlock` | drivers/mtd/spi-nor/spi-nor.c:728-809 | Code and register for every request and bus outcome: -EINVAL exactly for a refused unlock, 0 without a write if no byte is locked, else the write of the one register `UnlockWrites` allows; on success the unlock frame, exactly under the condition of `UnlockFrameIff`. |
| `DmaRegions.CheckIovaMeans` | drivers/fpga/intel/dma-region.c:139-147 | For sums that do not wrap, the 64-bit check is "starts there" or "contains the interval". |
| `DmaRegions.SearchSound` | drivers/fpga/intel/dma-region.c:236-265 | What the search returns is stored and covers the query. |
| `DmaRegions.SearchIff` | drivers/fpga/intel/dma-region.c:226-265 | Over disjoint regions the search succeeds exactly when some stored region covers the query, and returns that region. |
| `DmaRegions.SearchStart` | drivers/fpga/intel/dma-region.c:268-271 | Looking up an exact start finds the region by order alone, overlapping or not. |
| `DmaRegions.WrappingQueryMatches` | drivers/fpga/intel/dma-region.c:145-146 | A concrete query whose end wraps matches a region that does not contain it. |
| `DmaRegions.CheckIovaIff` | drivers/fpga/intel/dma-region.c:139-147 | The 64-bit check means containment exactly for queries that do not wrap into the region. |
| `DmaRegions.SearchAgreesIff` | drivers/fpga/intel/dma-region.c:226-265 | For every 64-bit query the search agrees with the plain question exactly when the query does not wrap into a stored region. |
| `DmaRegions.InsertOrdered` | drivers/fpga/intel/dma-region.c:150-183 | Insertion keeps strict order by bus address and never stores a second region with the same start. |
| `DmaRegions.InsertRefusesIff` | drivers/fpga/intel/dma-region.c:168-176 | Over disjoint regions a region is refused exactly when a stored one contains it or starts with it. |
| `DmaRegions.OverlapAccepted` | drivers/fpga/intel/dma-region.c:168-176 | Partial overlap is accepted. |
| `DmaRegions.RebalanceKeeps` | drivers/fpga/intel/dma-region.c:179-180 | No sequence of rotations changes the stored regions, their order or their page total. |
| `DmaRegions.DeleteElems` | drivers/fpga/intel/dma-region.c:186-196 | Removal takes out exactly one region and keeps the order. |
| `DmaRegions.FindRegion` | drivers/fpga/intel/dma-region.c:236-265 | The walk down the tree computes the search. |
| `DmaRegions.AddRegion` | drivers/fpga/intel/dma-region.c:150-183 | The linking loop stores exactly the new region, or refuses and changes nothing, whatever rebalancing follows. |
| `DmaRegions.RemoveRegion` | drivers/fpga/intel/dma-region.c:186-196 | Removal with any rebalancing. |
| `AfuPort.SetAddrKeeps` | drivers/fpga/intel/afu.c:555-610 | Setting or clearing the UMSG base keeps the port invariant, inside the final release as well. |
| `AfuPort.SetAddrMeans` | drivers/fpga/intel/afu.c:555-610 | A set is refused exactly while UMSG runs, off a page boundary, or without a stored region that contains all messages; it marks that region and no other, clearing takes the mark off, and a failing call changes nothing. |
| `AfuPort.ClearSucceeds` | drivers/fpga/intel/afu.c:586-607 | Under the invariant the base can always be cleared; the two warnings in that branch never fire. |
| `AfuPort.HaltClears` | drivers/fpga/intel/afu.c:627-634 | The halt leaves UMSG off and the base zero, whether or not the hardware answers. |
| `AfuPort.ReleaseKeeps` | drivers/fpga/intel/afu.c:871-891 | The last release leaves no region, no charge and no base; earlier ones keep the invariant. |
| `AfuPort.TakeKeeps` | drivers/fpga/intel/dma-region.c:347-363 | The locked part of unmap removes exactly an idle region that starts at the address, never the one under the base. |
| `AfuPort.AddKeeps` | drivers/fpga/intel/dma-region.c:323-325 | A mapping apart from all live ones is always accepted, and the invariant stays. |
| `AfuPort.StepKeeps` | drivers/fpga/intel/afu.c:545-634 | Every step of every actor keeps the invariant. |
| `AfuPort.EveryRunIsSafe` | drivers/fpga/intel/afu.c:545-634 | In every state any interleaving reaches: enabled implies a base; a base lies with all its messages in a stored region in use; locked_vm is exactly accounted; a closed port holds nothing. |
| `AfuPort.ClampNeverTaken` | drivers/fpga/intel/dma-region.c:57-62 | In every reachable state each decrement of locked_vm is covered, so the clamp is never taken. |
| `AfuPort.MarksExactIff` | drivers/fpga/intel/afu.c:576-585 | Replacing a base keeps "in use means under the base" exactly when there was no base or both lie in the same region. |
| `AfuPort.MarkStaysBehind` | drivers/fpga/intel/afu.c:576-585 | A run of a fresh port after which a region without the base is marked in use and cannot be unmapped. |
| `AfuPort.BaseTruncates` | drivers/fpga/intel/afu.c:533-543 | A concrete address beyond 48 bits is truncated into the register while its region stays marked. |
| `AfuPort.BaseHoldsIff` | drivers/fpga/intel/afu.c:533-543 | After a successful non-zero set the register holds the address exactly when it has 48 bits. |
| `AfuPort.Continuous` | drivers/fpga/intel/dma-region.c:126-137 | True exactly when the page frames are consecutive. |
| `AfuPort.AfuDevice.Enable` | drivers/fpga/intel/afu.c:463-553 | -EIO exactly when UMSG would run without a base; otherwise the bit is as asked, even after a timeout; the invariant stays. |
| `AfuPort.AfuDevice.SetAddr` | drivers/fpga/intel/afu.c:555-610 | The walk over the tree refines the transition and its codes. |
| `AfuPort.AfuDevice.SetBase` | drivers/fpga/intel/afu.c:555-610 | The ioctl keeps the whole invariant and has the effect of `SetAddrMeans`: base, code and the one changed mark. |
| `AfuPort.AfuDevice.AdjustLockedVm` | drivers/fpga/intel/dma-region.c:36-72 | A charge is refused exactly above the limit without the capability; a discharge is clamped. |
| `AfuPort.AfuDevice.PinPages` | drivers/fpga/intel/dma-region.c:74-111 | A failure at any stage leaves locked_vm as it was; page references leak exactly when pinning stops half way. |
| `AfuPort.PartialPinLeaks` | drivers/fpga/intel/dma-region.c:96-98 | A request of which one page of two gets pinned fails with -EFAULT and keeps one page reference. |
| `AfuPort.AfuDevice.MapRegion` | drivers/fpga/intel/dma-region.c:273-345 | Returns 0 exactly if the request is whole pages, every kernel answer is good, all pages are pinned and their frames follow each other; every failure has its code; success stores one new region and charges its pages, failure leaves tree and locked_vm unchanged and leaks references exactly after a partial pin; fresh bus addresses keep the invariant. |
| `AfuPort.AfuDevice.UnmapRegion` | drivers/fpga/intel/dma-region.c:347-372 | -EINVAL exactly without a region at that start, -EBUSY exactly for one in use, otherwise it is gone, its pages discharged and their references dropped; the invariant stays. |
| `AfuPort.AfuDevice.DestroyRegions` | drivers/fpga/intel/dma-region.c:199-224 | The drain empties the tree, discharges every region in order and drops the reference to every stored page. |
| `AfuPort.AfuDevice.Close` | drivers/fpga/intel/afu.c:871-891 | The invariant stays; the last close leaves no region, no base, UMSG off, locked_vm as before the first open, and no page reference but leaked ones. |
| `AfuPort.AfuDevice.OpenDevice` | drivers/fpga/intel/afu.c:847-869 | Refused exactly when the port is open and the caller or the holder wants it exclusively; the invariant stays. |
| `AddressCodec.DecodeEncode` | drivers/mtd/spi-nor/altera-asmip2.c:127-138 | Decoding the bytes sent for an address restores it, for every width. |
| `AddressCodec.OffsetBytes` | drivers/mtd/spi-nor/altera-asmip2.c:127-138 | The controller loop emits the big-endian bytes of the offset. |
| `AddressCodec.EraseAddress` | drivers/mtd/spi-nor/spi-nor.c:463-466 | The erase buffer loop emits the same bytes. |
| `AddressCodec.S3anSplit` | drivers/mtd/spi-nor/spi-nor.c:433-443 | A converted address is the page number above 9 or 10 bits of page offset. |
| `AddressCodec.S3anStep` | drivers/mtd/spi-nor/spi-nor.c:433-443 | Converted addresses are contiguous inside a page and increase from page to page. |
| `AddressCodec.S3anIncreasing` | drivers/mtd/spi-nor/spi-nor.c:433-443 | The conversion is strictly increasing for pages up to 1024 bytes. |
| `AddressCodec.S3anInjectiveIff` | drivers/mtd/spi-nor/spi-nor.c:433-443 | The conversion is injective exactly when pages have at most 1024 bytes. |
| `NorFlash.PageOffsetIsMod` | drivers/mtd/spi-nor/spi-nor.c:1353-1359 | The masked offset and the remainder agree, for every page size. |
| `NorFlash.ProgramInPage` | drivers/mtd/spi-nor/spi-nor.c:1361-1369 | A program command inside one page, sent through the FIFO and decoded by the chip, is the plain write of its slice. |
| `NorFlash.PartInPage` | drivers/mtd/spi-nor/altera-asmip2.c:176-213 | Whatever first part of a program command reaches the chip, it writes that part of the data in place. |
| `NorFlash.EraseWriteRead` | drivers/mtd/spi-nor/spi-nor.c:475-552 | Over an erased range a write reads back exactly and nothing else changes. |
| `NorFlash.FaultFreeWriteIff` | drivers/mtd/spi-nor/altera-asmip2.c:176-213 | Without faults a write succeeds exactly when no chunk exceeds the FIFO payload, hence on every page that fits it. |
| `NorFlash.RetlenCountsReadyChunks` | drivers/mtd/spi-nor/spi-nor.c:1370-1384 | On any exit retlen counts exactly the reported bytes of the chunks whose ready-wait succeeded. |
| `NorFlash.ChunkOutcome` | drivers/mtd/spi-nor/spi-nor.c:1370-1384 | When a chunk is accepted, what it adds to retlen, and the code if it is not. |
| `NorFlash.Driver.WriteReg` | drivers/mtd/spi-nor/altera-asmip2.c:56-90 | One register command: the part that leaves the FIFO is what the chip executes, and a timeout is reported. |
| `NorFlash.Driver.ControllerWrite` | drivers/mtd/spi-nor/altera-asmip2.c:176-213 | At most 512 - (width + 1) data bytes go out behind opcode and address, and behind what an earlier timeout left in the FIFO; a timeout reports 0 bytes. |
| `NorFlash.Driver.ControllerRead` | drivers/mtd/spi-nor/altera-asmip2.c:140-174 | At most 512 bytes of the addressed slice come back, none after a timeout. |
| `NorFlash.Driver.Write` | drivers/mtd/spi-nor/spi-nor.c:1328-1390 | Chunks tile the request inside pages and none could be longer; code and retlen follow the last chunk; the memory is the plain write of a prefix, of everything on success. |
| `NorFlash.Driver.Read` | drivers/mtd/spi-nor/spi-nor.c:1204-1242 | The bytes read are the slice; 0 exactly when all were read. |
| `NorFlash.Driver.Erase` | drivers/mtd/spi-nor/spi-nor.c:475-552 | Exactly the sectors from the one holding the address read 0xFF, all of them on success, except that a length of 2^32 is kept as 0 and erases nothing; the last command decides every failure code; lengths off the sector size are refused. |
| `NorFlash.Driver.EraseWholeChip` | drivers/mtd/spi-nor/spi-nor.c:494-519 | Whole-chip erase with its failure exits. |
| `NorFlash.Driver.EraseWriteVerify` | drivers/mtd/spi-nor/spi-nor.c:1328-1390 | Erase, then write, then read through the controller returns the buffer and leaves everything outside the erased range unchanged, for every length below 2^32; it succeeds without faults on pages that fit the FIFO. |
| `AaiWrite.PlanIsFlatProgram` | drivers/mtd/spi-nor/spi-nor.c:1244-1321 | The word-programming plan is one plain write of the buffer. |
| `AaiWrite.PlanShape` | drivers/mtd/spi-nor/spi-nor.c:1263-1313 | Words go to even addresses with their buffer bytes; single bytes only first at an odd start, or last. |
| `AaiWrite.SstWrite` | drivers/mtd/spi-nor/spi-nor.c:1244-1321 | A successful call issues exactly the plan, a failing one a prefix and returns the code of its last command or of the wait after the words; the chip got the plan exactly when every command went out whole, and then holds the plain write; a controller that sends nothing still makes the call succeed. |
| `PortReset.RunKeeps` | drivers/fpga/intel/feature-dev.c:236-292 | Between critical sections of every run the counter is the open reconfigurations plus one if a reset ever timed out, and a positive counter means the port is in reset. |
| `PortReset.NoReleaseDuringPr` | drivers/fpga/intel/fme-pr.c:393-400 | While a reconfiguration has the port disabled no interleaving of other actors writes the reset bit. |
| `PortReset.StuckForever` | include/intel/feature-dev.h:1754-1764 | After one timed-out reset no run takes the port out of reset again. |
| `PortReset.SticksIff` | include/intel/feature-dev.h:1754-1764 | A step leaves a disable behind exactly when it is a reset or clear that times out on a port nobody holds. |
| `PortReset.OneTimeoutSticks` | include/intel/feature-dev.h:1754-1764 | A run with one timeout after which a further reset returns 0 and the port stays in reset. |
| `PortReset.ResetPulsesIff` | include/intel/feature-dev.h:1754-1775 | A reset pulses the port exactly when nobody holds it disabled and the hardware answers. |
| `PortReset.EnableNeverWraps` | drivers/fpga/intel/feature-dev.c:242-245 | Every enable in a run meets a positive counter. |
| `PortReset.WaitField` | include/intel/feature-dev.h:1819-1838 | The poll succeeds exactly when some poll within the time budget matches. |
| `PortReset.PortControl.DisablePort` | drivers/fpga/intel/feature-dev.c:260-292 | One more holder; only the first writes the reset bit, and only that one can time out. |
| `PortReset.PortControl.EnablePort` | drivers/fpga/intel/feature-dev.c:236-254 | One holder less; only the last clears the reset bit, so a held port stays in reset. |
| `PortReset.PortControl.ResetPort` | include/intel/feature-dev.h:1754-1764 | A held port is left alone; a free one is pulsed, or stays held in reset exactly on a timeout. |
| `PortReset.PortControl.ClearErrors` | drivers/fpga/intel/afu-error.c:40-97 | Nothing moves in AP6 or on a held port; -ETIMEDOUT exactly when the first disable is not acknowledged, and then the port stays held; otherwise the counter is as before. |
| `PrPush.FlattenWords` | drivers/fpga/intel/fme-pr.c:228-247 | The words of a padded image are the image bytes in order. |
| `PrPush.AlignBounds` | drivers/fpga/intel/fme-pr.c:358-364 | Padding is shorter than one word and makes the length a multiple of the bandwidth. |
| `PrPush.PrFifo.Write` | drivers/fpga/intel/fme-pr.c:183-259 | No push meets a full FIFO, each leaves a slot free; the loop ends; success pushed the whole buffer, failure whole words; on hardware that keeps draining the result is 0 for whole words and -EINVAL otherwise. |
| `PrPush.PrFifo.LoadImage` | drivers/fpga/intel/fme-pr.c:358-395 | On success the hardware received whole words: the image followed by less than a word of zeros; on failure a prefix of that; hardware that keeps draining gets everything. |
| `PortOwnership.Lookup` | drivers/fpga/intel/pcie.c:145-156 | The first port with the number, or none if no port has it. |
| `PortOwnership.ProbedInv` | drivers/fpga/intel/pcie.c:384-412 | After a probe the ownership invariant holds. |
| `PortOwnership.AttachKeeps` | drivers/fpga/intel/pcie.c:243-289 | Assigning a port keeps the invariant, in every exit. |
| `PortOwnership.DetachKeeps` | drivers/fpga/intel/pcie.c:291-323 | Releasing a port keeps the invariant, in every exit. |
| `PortOwnership.FileMeans` | include/intel/feature-dev.h:1598-1641 | Opening is refused exactly if the port is held and one side wants it for itself; closing undoes opening. |
| `PortOwnership.ConfigureKeeps` | drivers/fpga/intel/pcie.c:1246-1306 | Configuring virtual functions keeps the invariant, with its roll-back. |
| `PortOwnership.ConfigureMakesExactly` | drivers/fpga/intel/pcie.c:1264-1301 | A successful configure(n) leaves exactly n VF ports precisely when all earlier ones are among the first n free ports. |
| `PortOwnership.ConfigureZeroClears` | drivers/fpga/intel/pcie.c:1264-1277 | configure(0) leaves no VF port. |
| `PortOwnership.OwnershipMeans` | drivers/fpga/intel/pcie.c:243-323 | A VF port is not registered; an unregistered port is held exclusively with one open and no file. |
| `PortOwnership.OwnershipOverRuns` | drivers/fpga/intel/pcie.c:243-323 | Over every run released_port_num counts the unregistered ports and both ownership facts hold. |
| `PortOwnership.CciDrvdata.AttachPort` | drivers/fpga/intel/pcie.c:243-289 | Succeeds exactly for a released port that is not a VF port and that registers; then that port alone changes and the count drops by one; the invariant stays in every exit. |
| `PortOwnership.CciDrvdata.DetachPort` | drivers/fpga/intel/pcie.c:291-323 | Succeeds exactly for a registered port without an open file; then that port alone is released, held exclusively; the invariant stays in every exit. |
| `PortOwnership.CciDrvdata.SriovConfigure` | drivers/fpga/intel/pcie.c:1246-1306 | -EBUSY exactly for more functions than released ports; 0 functions or a refusal by the PCI core leave no VF port; otherwise exactly the first n unregistered ports become VF ports; the invariant stays. |
| `ProbeStages.WalkIncreases` | drivers/fpga/intel/pcie.c:1039-1063 | A walk over arbitrary device memory visits strictly increasing offsets from its start, each with room for the header before the end, and none exactly if the first has no room. |
| `ProbeStages.WalkFollowsOffsets` | drivers/fpga/intel/pcie.c:1045-1060 | Consecutive visits follow the stored offsets; a walk stops exactly at an end mark, a zero offset or where nothing fits, and is truncated exactly if bytes are left there. |
| `ProbeStages.ListOpsAreList` | drivers/fpga/intel/pcie.c:1039-1063 | The stages of a feature list are its headers in order, each with what hangs on it, and the end it runs into. |
| `ProbeStages.AfuOpsAreList` | drivers/fpga/intel/pcie.c:895-937 | The stages of an AFU list are its headers in order, and the end it runs into. |
| `ProbeStages.HangingOpsMean` | drivers/fpga/intel/pcie.c:939-1036 | What hangs on a header: the AFU list at an AFU header, the list a port points to, nothing otherwise. |
| `ProbeStages.NamedOpsAreAllPorts` | drivers/fpga/intel/pcie.c:1065-1094 | An FME header leads to the lists of exactly the ports 0, 1, ... up to the first of the four that is not implemented, each after the mapping of its BAR. |
| `ProbeStages.CardOpsAreWhole` | drivers/fpga/intel/pcie.c:1165-1206 | A whole probe is BAR 0 from its start, all ports of the last FME found there, and the last device. |
| `ProbeStages.FmeStage` | drivers/fpga/intel/pcie.c:736-754 | When an FME stage goes on, what it costs and changes, and the code if it does not. |
| `ProbeStages.PortStage` | drivers/fpga/intel/pcie.c:817-850 | When a port stage goes on, what it costs and changes, and when it is an error or a crash. |
| `ProbeStages.PrivateFeatureMeans` | drivers/fpga/intel/pcie.c:797-876 | Which private features the driver knows, with index and size, and which have an interrupt capability. |
| `ProbeStages.PrivateStage` | drivers/fpga/intel/pcie.c:797-876 | When a private feature goes on, is skipped, or fails. |
| `ProbeStages.UserStage` | drivers/fpga/intel/pcie.c:878-893 | When the user AFU of a port is taken, skipped, or refused. |
| `ProbeStages.StageOf` | drivers/fpga/intel/pcie.c:895-1036 | What is read at an offset decides which of these a stage is. |
| `ProbeStages.ScanTrail` | drivers/fpga/intel/pcie.c:1039-1094 | The stages are taken in order, all of them or those up to the one that stops the probe, and the last FME decides the port table. |
| `ProbeStages.VisitOopsIff` | drivers/fpga/intel/pcie.c:831-850 | A stage dereferences null exactly when a port with a user AFU was not built although the device before it was registered. |
| `ProbeStages.ScanOopsIff` | drivers/fpga/intel/pcie.c:895-962 | A scan crashes exactly when it reaches such a stage. |
| `ProbeStages.ScanLocal` | drivers/fpga/intel/pcie.c:1165-1206 | A part of a probe that goes well depends only on the calls it was granted. |
| `ProbeStages.ProbeOopsIff` | drivers/fpga/intel/pcie.c:1165-1206 | For every card and every pattern of refused calls: the probe crashes exactly when it resets a port that was not built. |
| `ProbeStages.CardCanOopsIff` | drivers/fpga/intel/pcie.c:831-850 | Some refused call crashes the probe of a card exactly when a probe that is refused nothing meets a port header with a user AFU. |
| `ProbeStages.ProbeOkIff` | drivers/fpga/intel/pcie.c:1165-1206 | A probe succeeds exactly if its five set-up calls are granted and each stage in turn goes on. |
| `ProbeStages.RefusedPortOops` | drivers/fpga/intel/pcie.c:957-962 | A concrete card and one refused device allocation that crash the probe. |
| `ProbeStages.ShortBarOops` | drivers/fpga/intel/pcie.c:839-849 | A concrete card whose BAR ends behind the port header crashes the probe with every call granted, after a read past the end. |
| `ProbeStages.ProbeFollowsCard` | drivers/fpga/intel/pcie.c:1165-1206 | Every probe takes the stages of its card in order; a successful one takes all of them, nested AFUs and all ports from port 0 on included, and reads nothing outside a BAR. |
| `ProbeStages.ScanReadsPastIff` | drivers/fpga/intel/pcie.c:756-842 | A probe reads past the end of a BAR exactly when it reaches a port header or an interrupt capability that does not fit. |
| `FeatureProbe.LowestFree` | drivers/fpga/intel/pcie.c:96-105 | The allocated id is the lowest one not taken. |
| `FeatureProbe.Probe.CommitDev` | drivers/fpga/intel/pcie.c:384-412 | A registered device moves, with its id, to the driver data; a failure leaves it under construction. |
| `FeatureProbe.Probe.CreateDev` | drivers/fpga/intel/pcie.c:415-476 | Whichever allocation fails, every id taken is held in exactly one place, and there is no built device unless the one before could not be registered. |
| `FeatureProbe.Probe.CreateInstance` | drivers/fpga/intel/pcie.c:716-734 | A resource is recorded exactly when it fits the BAR; only features with interrupts can fail after that. |
| `FeatureProbe.Probe.ResetPort` | include/intel/feature-dev.h:1766-1775 | The reset crashes exactly without device, data or header. |
| `FeatureProbe.Probe.ParseFme` | drivers/fpga/intel/pcie.c:736-754 | An FME is accepted only if none was registered before. |
| `FeatureProbe.Probe.ParsePort` | drivers/fpga/intel/pcie.c:817-850 | What the reset hits in every exit: the built port on success, nothing to hit in a crash, and on an error the device before, which could not be registered. |
| `FeatureProbe.Probe.ParsePrivate` | drivers/fpga/intel/pcie.c:984-1007 | Which private features add which resource, and to which device; a private feature without a device is an error. |
| `FeatureProbe.Probe.ParseAfus` | drivers/fpga/intel/pcie.c:895-937 | The AFU loop takes exactly the stages of the AFU list, those up to the failing one on an error or crash. |
| `FeatureProbe.Probe.ParseList` | drivers/fpga/intel/pcie.c:1039-1063 | The header loop takes exactly the stages of the feature list with its nested AFU lists, those up to the failing one on an error or crash. |
| `FeatureProbe.Probe.ParseFiu` | drivers/fpga/intel/pcie.c:939-962 | FME and port headers create their device and record their header; other ids change nothing. |
| `FeatureProbe.Probe.ParseFeature` | drivers/fpga/intel/pcie.c:1009-1036 | One header takes its own stage and then those of the AFU list that hangs on it. |
| `FeatureProbe.Probe.ParsePorts` | drivers/fpga/intel/pcie.c:1065-1094 | The loop takes the stages of exactly the ports 0, 1, ... up to the first one not implemented, those up to the failing one on an error or crash. |
| `FeatureProbe.Probe.FreeBuildInfo` | drivers/fpga/intel/pcie.c:500-516 | The id of an uncommitted device goes back. |
| `FeatureProbe.Probe.DestroyDrvdata` | drivers/fpga/intel/pcie.c:1120-1136 | All registered ids and the parent id go back, each once. |
| `FeatureProbe.Probe.CreateFeatureDevs` | drivers/fpga/intel/pcie.c:1165-1206 | The result and the stages are those of the whole card; every exit but a crash leaves no device under construction and all ids accounted for. |
| `FeatureProbe.Probe.ProbeCard` | drivers/fpga/intel/pcie.c:1365-1423 | For every device memory and every failure point: a probe that returns an error restores the three id pools, one that crashes does not; which happens is `ProbeExit`, characterised by `ProbeOkIff`, `ProbeOopsIff` and `CardCanOopsIff`; a successful one has taken the whole card; recorded resources lie in their BARs. |
| `FeatureProbe.Probe.RemoveCard` | drivers/fpga/intel/pcie.c:1426-1440 | Probe then remove restores the three id pools. |
| `FpgaManager.SameBytes` | drivers/fpga/fpga-mgr.c:142-199 | For every driver, two loads of one image show the same header, hand over prefixes of each other, and the image if both succeed. |
| `FpgaManager.LoadMeans` | drivers/fpga/fpga-mgr.c:108-123 | For every driver and fragmentation: header first, the fragments one by one or all at once, only the last call may fail and gives the result, completion only after the whole image, a state for each failing stage, OPERATING exactly on success. |
| `FpgaManager.OperatingIff` | drivers/fpga/fpga-mgr.c:142-174 | After a scattered load the state is OPERATING exactly on success, or if it was before and the header buffer could not be had. |
| `FpgaManager.OperatingOutlives` | drivers/fpga/fpga-mgr.c:91-93 | A good load followed by a failing one that leaves the state at OPERATING. |
| `FpgaManager.FragmentationIrrelevantIff` | drivers/fpga/fpga-mgr.c:142-199 | For every driver and image: all fragmentations end as the contiguous load exactly when the driver refuses and accepts chunks as it does the whole image. |
| `FpgaManager.WordDriverSameIff` | drivers/fpga/intel/fme-pr.c:228-251 | On a driver that takes whole words only, a scattered load ends as the contiguous one exactly when all fragments are whole words or the image is not. |
| `FpgaManager.CutWordFails` | drivers/fpga/intel/fme-pr.c:247-251 | One word in two fragments is refused; in one piece it is loaded. |
| `FpgaManager.PiecesCover` | drivers/fpga/fpga-mgr.c:233-262 | The page list of a buffer describes exactly its bytes. |
| `FpgaManager.PageCountMeans` | drivers/fpga/fpga-mgr.c:237-238 | The page count is the least that reaches the end of the buffer. |
| `FpgaManager.Manager.WriteInitSg` | drivers/fpga/fpga-mgr.c:64-102 | write_init sees min(header size, total) bytes from the front of the fragments, whichever path is taken. |
| `FpgaManager.Manager.LoadSg` | drivers/fpga/fpga-mgr.c:142-174 | The loop makes the calls of the script up to the first that fails, for every driver and fragmentation; a failed header allocation changes nothing. |
| `FpgaManager.Manager.LoadMapped` | drivers/fpga/fpga-mgr.c:177-199 | The contiguous load is the load of one fragment. |
| `FpgaManager.Manager.ListPages` | drivers/fpga/fpga-mgr.c:237-252 | The loop lists exactly the pages the buffer touches, in order, or reports a missing one. |
| `FpgaManager.Manager.BufLoad` | drivers/fpga/fpga-mgr.c:215-270 | Both paths load exactly the bytes of [buf, buf + count); each early failure has its code and leaves the manager untouched. |
| `IrqBlock.Feature.SetVector` | drivers/fpga/intel/feature-dev.c:303-345 | One vector is rebound or left clear; names, irqs and eventfd references match the triggers in every exit. |
| `IrqBlock.Feature.SetBlock` | drivers/fpga/intel/feature-dev.c:347-367 | All or nothing: 0 exactly if no vector with an fd fails, and then the block is bound; failure at the first such vector k clears start..k and has its code; other vectors never change, even when start + count wraps. |

## Left out

- The performance counters, FME error reporting, sysfs attributes and register self-checks: single register accesses without an invariant between them.
- The region list of `drivers/fpga/intel/region.c`, the UUID parser, the flash id table, quad and 4-byte mode setup and `spi_nor_scan`: their results (sizes, widths, opcodes) are parameters here.
- S3AN addresses inside the erase, write and read loops: the loops are modelled for linear addresses, the conversion on its own.
- The TB-dependent protection of a chip during program and erase: a locked byte is not made to ignore a program command.
- NorFlash.Driver.Write: a failing write-enable command is not modelled, because the driver does not look at its result.
- AaiWrite.SstWrite: retlen after a failure and the write-enable latch inside the loop are not stated, because they rest on chip behaviour this code does not fix; what the chip makes of a command behind leftovers of an earlier one is modelled on the wire, not in memory.
- AfuPort.EveryRunIsSafe: forced removal of the device while it is open and mappings charged to a different address space are not steps of the model.
- AfuPort.AfuDevice.MapRegion: runs as one call; its interleaving with other ioctls is the subject of the steps of `AfuPort.Action`.
- AfuPort.AfuDevice.Close: the interrupt vectors and the port reset of the last release are the subjects of `IrqBlock` and `PortReset` and not repeated here; unmapping for DMA leaves no trace in this state.
- DmaRegions.AddRegion: the tree is a value, so pointer aliasing between nodes is not captured; rebalancing is any sequence of rotations.
- PrPush.PrFifo.LoadImage: the write-init and write-complete handshakes around the push, two polls each as in `WaitField`, are not part of it; the order of the calls is the subject of `FpgaManager`.
- FeatureProbe.Probe.ParseFiu: the contents of the created feature tables beyond their resources and header (names, interrupt contexts) are not recorded.
- FeatureProbe.Probe.ResetPort: which register bits a reset writes, and whether it times out, is the subject of `PortReset`; here only what it is called on.
- PortOwnership.CciDrvdata.AttachPort: reference counts of device objects are not modelled.
- IrqBlock.Feature.SetVector: the interrupt handler itself, which only signals the eventfd.
