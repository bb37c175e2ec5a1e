# NAND, Ethernet and button drivers of a Mini6410 board: a Dafny model

The repository holds Linux drivers for an S3C6410 board. This project models the parts of them that keep
state over many calls, and proves what those calls promise together.

* **Generic NAND core** (`linux/kernel/common/nand_base.c`). A device is a row of chips of pages; programming
  ANDs bits in, erasing sets a block to 0xFF, and either may fail and leave anything it physically can behind.
  `NandSpec` says what each request does to the flash with no cache at all; `NandDriver` holds the driver as a
  class with the page cache, the staging buffer behind it, the ECC counters and the selected chip; `NandRuns`
  proves that whole runs of the class are runs of the reference. The laws (`BadBlockLaws`, `WriteLaws`,
  `EraseLaws`, `WriteReadBack`) are proved of the reference, so they hold of the driver (`DriverReadBack`). What the
  reference itself means is stated byte by byte, without its own functions: `ReadLaws`, `SpareLaws`, `OobWriteLaws`,
  `BadMarks`, `SwEccLaws`.
* **Page formats**: software ECC and its subpage read (`SwEcc`, `SubpageRefinement`, `SwNand`), the interleaved
  syndrome layout (`Syndrome`), free OOB regions (`OobLayout`), the SLC format of the S3C controller (`S3cSlc`).
* **Protocols as state machines over their steps**: the controller lock (`NandLock`), the DM9000 transmit queue
  (`DmTransmit`), its PHY and EEPROM transactions (`DmPhy`), the button flag (`Buttons`).
* **Arithmetic**: shifts and masks (`Geometry`), the ONFI CRC of section 5.7.1 of ONFI 2.2 (`OnfiCrc`), address
  cycles (`CommandCycles`).

ECC calculation and correction, the failures of the hardware and the contents of interrupted programs and erases
are parameters, universally quantified; what is assumed of a code is stated where it is used (`SwNand.GoodCode`:
an erased step has an erased code and matching codes are accepted; `S3cSlc.GoodEngine`: the engine passes a
clean step and locates a single flipped bit).

## Where the code does less than it means to

Each of these keeps the code as it is, gives the input on which the intended property fails, and, where there is
one, the exact condition under which it holds.

* A partial-page read with an OOB buffer, or after an ECC failure, overwrites the page buffer and leaves the old
  `pagebuf` (`PageCache.PartialStepExact`, `StaleState`). A partial RAW read caches uncorrected bytes.
* `nand_read_oob` hands a request of no bytes on to the read loop, which reads the page all the same: RAW, it caches
  uncorrected bytes (`StaleState.RawReadCachesRawBytes`); at the end of the device it selects a chip that does not
  exist, where the model answers `Bug`; at column 0 the step count of `nand_read_subpage` underflows
  (`SwEcc.StepCountExact`), where the model answers `Overrun`.
* A RAW read without an OOB buffer of a cached page is served from the cache, that is, with corrected bytes
  (`PageCache.StepDataExact`, `StaleState.CachedPageHidesRaw`).
* A page that comes from the cache hides -EUCLEAN, never -EBADMSG (`PageCache.CachedReadExact`,
  `StaleState.CachedPageHidesCorrection`).
* `pagebuf << page_shift` is computed in a 32-bit int, so the test does not see a cached page that starts at 2 GiB or
  above (`PageCache.GuardFiresExactly`, `StaleState.StaleAboveTwoGiB`). Such a page stays in the cache unless the write
  comes to a partial page, which drops it (`PageCache.CachedWriteBuf`, `PageCache.WriteDoneCache`).
* `nand_read_subpage` leaves `index` at 0 when the code positions have gaps (`SwEcc.PicksRightExactly`).
* `nand_write_page_raw_syndrome` reads the code bytes it should write (`Syndrome.RawWriteExact`).
* A write with an OOB buffer does not reset the staging buffer, and repeats a page's OOB bytes on the following pages
  once the client's have run out (`StaleState.FreshWriteExact`, `StaleState.LaterPageRepeats`).
* Two suspends, of two chips that share a controller or of one, both succeed; the first resume frees the
  controller, and the second resume frees it again from under whoever took it (`NandLock.TwoChipsCollide`,
  `NandLock.OneChipCollides`). A run is safe if and only if no suspend is let in beside another
  (`NandLock.StepExact`, `NandLock.RunExact`).
* `nand_block_isbad`, and `check_offs_len` for an empty range, admit the offset one past the device, which selects a
  chip that does not exist; the model answers `Bug` there (`NandDriver.ChipExists`).
* `nand_block_markbad` at an offset past a block's first page marks another page, and reports success
  (`BadBlockLaws.MarkExact`).
* `s3c_nand_oob_16` offers bytes 12 to 15 as free, where the code of the OOB area goes (`S3cSlc.SmallLayoutExact`).
* The parameter page's CRC does not protect its last covered byte together with its own low byte
  (`OnfiCrc.BoundaryExact`, `OnfiCrc.DamageMissed`).
* `dm9000_timeout` resets the checksum register but not `ip_summed` (`DmTransmit.ResetExact`, `DmTransmit.StaleSend`,
  `DmTransmit.StalePacketSent`).
* A button read of fewer than four bytes lowers the flag for buttons it does not report
  (`Buttons.ReadSizeExact`, `Buttons.ShortReadLoses`).

The test of the remaining length against `writesize - 1` in the write loop looks off by one and is not: accepted
lengths are even (`NandSpec.ChecksEven`).

## Model

| member | source | states |
|---|---|---|
| `Geometry.ShiftsOfPowers` | linux/kernel/common/nand_base.c:3114-3131 | for power-of-two sizes, `ffs - 1` and the 32-bit split of the chip size give exactly the exponents, so shifting by them divides by the sizes |
| `Geometry.ChipShiftOfPower` | linux/kernel/common/nand_base.c:3124-3131 | both branches of the chip-shift computation (chip size below and above 4 GiB) find the exponent |
| `Geometry.SplitOffset` | linux/kernel/common/nand_base.c:1491-1497 | shifts and masks split each offset into chip, page and column, and no other triple of in-range parts joins to the same offset |
| `NandDriver.OffsetParts` | linux/kernel/common/nand_base.c:1491-1497 | for every offset inside the device the selected chip and local page are quotient and remainder of the real page, and the chip exists |
| `NandDriver.CrossChip` | linux/kernel/common/nand_base.c:1573-1583 | stepping to the next page and selecting the next chip when the local page wraps keeps chip and local page the quotient and remainder, while pages are left |
| `NandDriver.CrossBlock` | linux/kernel/common/nand_base.c:2649-2657 | the same for a step of one erase block |
| `NandDriver.NandChip.Locate` | linux/kernel/common/nand_base.c:1491-1500 | the start of a request: the chip that holds the real page is selected, never one past the last |
| `NandDriver.NandChip.Advance` | linux/kernel/common/nand_base.c:1573-1583 | the step of the read and write loops keeps the selected chip the one that holds the real page |
| `NandDriver.NandChip.AdvanceBlock` | linux/kernel/common/nand_base.c:2649-2658 | the step of the erase loop does so too, and selects no chip after the last block |
| `OobLayout.TransferAuto` | linux/kernel/common/nand_base.c:1433-1457 | the AUTO loop over the free regions delivers the chosen stretch of the free bytes in order, cut short at the end of the last region, which it never passes |
| `OobLayout.TransferOob` | linux/kernel/common/nand_base.c:1423-1457 | each mode delivers the bytes at the positions that mode addresses; an AUTO request is cut short where the free bytes end |
| `OobLayout.FillAuto` | linux/kernel/common/nand_base.c:2145-2169 | the AUTO loop puts the client bytes at the chosen stretch of free positions and changes no other byte |
| `OobLayout.FillOob` | linux/kernel/common/nand_base.c:2135-2169 | each mode deposits the client bytes at the positions that mode addresses |
| `OobLayout.CollectSplit` | linux/kernel/common/nand_base.c:1438-1455 | the region-by-region walk collects the same bytes as indexing the list of all free positions |
| `OobLayout.DepositSplit` | linux/kernel/common/nand_base.c:2150-2167 | the region-by-region deposit is the same as writing at the listed free positions |
| `OobLayout.SlotsDistinct` | linux/kernel/common/nand_base.c:3399-3404 | disjoint regions give pairwise different positions, so the total of their lengths counts distinct bytes |
| `OobLayout.FillThenTransfer` | linux/kernel/common/nand_base.c:2384-2400 | for any disjoint regions and any offset and length that fit: transfer after fill returns the client bytes, and only addressed bytes change |
| `PageCache.PartialStepExact` | linux/kernel/common/nand_base.c:1515-1534 | any partial page that misses the cache keeps it coherent if and only if it claims the buffer for a page whose decoded bytes it holds, or nothing was cached, or the overwritten bytes are equal |
| `PageCache.GuardExact` | linux/kernel/common/nand_base.c:2229-2232 | for a cached page that starts below 2 GiB the invalidation test fires if and only if the write covers the start of that page |
| `StaleState.OobReadLeavesStaleCache` | linux/kernel/common/nand_base.c:1529-1536 | after a partial read with an OOB buffer, a read of the page cached before delivers bytes of the other page |
| `StaleState.FailedReadLeavesStaleCache` | linux/kernel/common/nand_base.c:1529-1536 | so does a partial read of a page that fails to decode |
| `StaleState.RawReadCachesRawBytes` | linux/kernel/common/nand_base.c:1516-1532 | after a partial RAW read of a page, even of no bytes, an ordinary read of any stretch of that page delivers uncorrected bytes |
| `NandDriver.NandChip.ReadTurn` | linux/kernel/common/nand_base.c:1503-1565 | one turn of the loop is the specified step on the cache, page buffer and ECC counters |
| `NandDriver.NandChip.ReadPass` | linux/kernel/common/nand_base.c:1502-1583 | a turn with its OOB transfer and the move to the next page |
| `NandDriver.NandChip.ReadLoop` | linux/kernel/common/nand_base.c:1502-1590 | the loop is the fold of those turns over the whole request |
| `NandDriver.NandChip.DoReadOps` | linux/kernel/common/nand_base.c:1473-1604 | data, OOB bytes, cache, both ECC counters and the return code, exactly, over the cache as it is found; a request of no bytes reads its page too, selects a missing chip exactly at the end of the device, and overruns exactly where it comes to `read_subpage` at column 0 |
| `NandRuns.ServeRead` | linux/kernel/common/nand_base.c:1615-1645 | `nand_read` and `nand_read_oob`, of no bytes too: the `pagebuf` left behind; and over a coherent cache OOB bytes, failures and -EBADMSG are those of an uncached driver, -EUCLEAN is returned if and only if a page that does not come from the cache has corrected bits, and the data is the same if and only if no RAW read is served corrected bytes |
| `NandRuns.Serve` | linux/kernel/common/nand_base.c:1615-1645 | every kind of request leaves the flash as the uncached driver does, and the `pagebuf` and (a read apart) the staging buffer it should; over a coherent cache a safe request answers as the uncached driver and keeps the cache coherent |
| `NandRuns.Run` | linux/kernel/common/nand_base.c:1473-1604 | for every run of reads, writes, OOB writes, erases and mark-bad calls at any offsets under any hardware failures: the flash is what a driver without a cache makes of it; each request finds the `pagebuf` that flash and requests alone determine, and the staging buffer the one before left unless that was a read; and if no partial read is RAW, has an OOB buffer or follows a failure, and every write drops the cached page or does not reach it, the cache stays coherent and every answer is the uncached one as `ServeRead` states it |
| `NandDriver.NandChip.WriteTests` | linux/kernel/common/nand_base.c:2205-2216 | accepts exactly offsets and lengths that are multiples of the subpage size, and of the page size if there is an OOB buffer |
| `NandDriver.NandChip.Invalidate` | linux/kernel/common/nand_base.c:2229-2232 | `pagebuf` is dropped exactly when the 32-bit test fires, and nothing else changes |
| `NandDriver.NandChip.WriteTurn` | linux/kernel/common/nand_base.c:2243-2266 | padding, OOB staging and the program of one page |
| `NandDriver.NandChip.WriteLoop` | linux/kernel/common/nand_base.c:2242-2285 | the loop is the page-by-page reference: flash, cache, staging buffer, count and return code, with a remaining length that strictly decreases to zero without underflow |
| `NandDriver.NandChip.DoWriteOps` | linux/kernel/common/nand_base.c:2186-2289 | every error return, the flash, page buffer, `pagebuf`, staging buffer, `retlen` and return code, exactly, over the cache as it is found |
| `NandSpec.ChecksEven` | linux/kernel/common/nand_base.c:2248-2249 | accepted lengths are even, which is why testing the length against `writesize - 1` cannot go wrong |
| `WriteLaws.WriteExact` | linux/kernel/common/nand_base.c:2242-2285 | every data byte of the device after the write loop: old AND new on the bytes reported written, torn on the page whose program failed, unchanged elsewhere |
| `WriteLaws.WriteRequestExact` | linux/kernel/common/nand_base.c:2340-2365 | the same for an accepted request in byte offsets of the device: success reports the whole length, failure a shorter prefix |
| `StaleState.FreshWriteExact` | linux/kernel/common/nand_base.c:2235-2236 | in every mode, what a page of a write with an OOB buffer programs is independent of earlier calls if and only if the client bytes, with the code bytes outside RAW mode, fill the OOB area |
| `StaleState.StaleByte` | linux/kernel/common/nand_base.c:2235-2236 | any OOB byte that neither the client nor the code supplies goes out as the staging buffer held it |
| `NandDriver.NandChip.DoWriteOob` | linux/kernel/common/nand_base.c:2375-2446 | length tests, write protection, cache invalidation and the programmed page |
| `SwEcc.WritePageSwecc` | linux/kernel/common/nand_base.c:1980-1998 | the page programmed is data plus OOB bytes with each step's code at its positions |
| `SwEcc.CorrectAll` | linux/kernel/common/nand_base.c:1165-1177 | the loop corrects each step with its own code and counts failures and corrections |
| `SwEcc.ReadPageSwecc` | linux/kernel/common/nand_base.c:1146-1178 | buffer, OOB area and both counters are those of decoding every step |
| `SwEcc.FindGap` | linux/kernel/common/nand_base.c:1223-1229 | finds a gap exactly when some neighbouring positions are not consecutive |
| `SwEcc.ReadSubpage` | linux/kernel/common/nand_base.c:1188-1265 | exactly the covering steps are read and corrected with the picked codes, and the rest of the buffer is left alone |
| `SwEcc.PicksRightExactly` | linux/kernel/common/nand_base.c:1230-1251 | the codes picked are the covered steps' own if and only if the read starts at step 0 or the positions have no gap |
| `SwEcc.PicksWrong` | linux/kernel/common/nand_base.c:1197-1251 | with a gap and a later start, `index` stays 0 and another step's positions are used |
| `SubpageRefinement.PartIsOwn` | linux/kernel/common/nand_base.c:1188-1265 | with contiguous positions, a fragment read is its own steps decoded |
| `SubpageRefinement.FullReadIsFragments` | linux/kernel/common/nand_base.c:1146-1178 | a full-page decode is the decodes of its fragments joined, bytes and counters |
| `SubpageRefinement.SubpageRefinesPage` | linux/kernel/common/nand_base.c:1188-1265 | for every offset and length in a page that do not end at 0, the fragment read delivers the bytes of the full-page read, and its counters are the full page's less those of the steps not covered |
| `SwNand.SwDeviceValid` | linux/kernel/common/nand_base.c:3361-3367 | the software codec with subpage reads is a device the driver's theorems apply to |
| `SwNand.ProgramKeepsClean` | linux/kernel/common/nand_base.c:1980-1998 | programming steps that were erased keeps every code of the page that of its data |
| `SwNand.CleanDecodes` | linux/kernel/common/nand_base.c:1146-1178 | a page with its own codes decodes to itself with no failure and no correction |
| `PageInvariants.WriteKeeps` | linux/kernel/common/nand_base.c:2242-2285 | any page property kept by one aligned program of erased bytes is kept by a whole write |
| `PageInvariants.FaithfulByte` | linux/kernel/common/nand_base.c:1502-1590 | a read over pages that read back as stored delivers each byte from its place |
| `WriteReadBack.OneWriteByte` | linux/kernel/common/nand_base.c:2340-2365 | one write to erased, aligned bytes: written bytes are the client's, others unchanged |
| `WriteReadBack.RunOfWrites` | linux/kernel/common/nand_base.c:2186-2289 | after any run of such writes each byte is that of the write that covers it, and as it was if none does, and every code still matches its data |
| `WriteReadBack.WritesThenRead` | linux/kernel/common/nand_base.c:1473-1604 | any run of OOB-less writes to disjoint, subpage-aligned, erased ranges, then a read of any range of pages with matching codes: each byte is that of the write that covers it, or as it was, with no failure and no correction, if a subpage is a whole number of ECC steps |
| `Syndrome.InterleaveRoundTrip` | linux/kernel/common/nand_base.c:2037-2070 | data and OOB bytes are recovered from the interleaved page |
| `Syndrome.WritePageSyndrome` | linux/kernel/common/nand_base.c:2037-2070 | the stream sent is the interleaving of the data with the OOB bytes, the calculated codes in their places |
| `Syndrome.ReadPageRawSyndrome` | linux/kernel/common/nand_base.c:1105-1137 | the sequential read takes the interleaving apart |
| `Syndrome.ReadOobSyndrome` | linux/kernel/common/nand_base.c:1668-1697 | the column seeks collect exactly the OOB bytes of the sequential read |
| `Syndrome.WritePageRawSyndrome` | linux/kernel/common/nand_base.c:1943-1973 | what is really sent, the code bytes missing, and the staging buffer afterwards, with the bytes read from the chip in their place |
| `Syndrome.RawWriteExact` | linux/kernel/common/nand_base.c:1943-1973 | the raw write sends the interleaving if and only if there are no code bytes |
| `NandDriver.NandChip.BlockBad` | linux/kernel/common/nand_base.c:343-390 | reads the marker of the page and position the options name, for any offset, on the chip that holds the offset |
| `NandDriver.NandChip.DefaultBlockMarkbad` | linux/kernel/common/nand_base.c:400-449 | writes the zero marker(s), with every early stop |
| `NandDriver.NandChip.BlockMarkbad` | linux/kernel/common/nand_base.c:2740-2754 | for every offset: rejected past the end, a chip that does not exist at the end, otherwise a page that reads bad is left alone with success and any other is marked |
| `BadBlockLaws.WriteLower` | linux/kernel/common/nand_base.c:2186-2289 | a write, failed or not, never sets a bit |
| `BadBlockLaws.MarkLower` | linux/kernel/common/nand_base.c:400-449 | nor does marking |
| `BadBlockLaws.EraseKeepsBad` | linux/kernel/common/nand_base.c:2598-2618 | an erase leaves a bad block's marker bad |
| `BadBlockLaws.ApplyKeepsBad` | linux/kernel/common/nand_base.c:2598-2618 | every request keeps a bad block bad |
| `BadBlockLaws.BadForever` | linux/kernel/common/nand_base.c:343-390 | once a block reads bad, no run of requests, mark-bad calls at any offset included, makes it good under any hardware failures |
| `BadBlockLaws.ZeroedMarker` | linux/kernel/common/nand_base.c:2375-2446 | a successful OOB write of the zero marker makes the page read bad |
| `BadBlockLaws.MarkingMarks` | linux/kernel/common/nand_base.c:2740-2754 | a mark-bad call in a block's first page that reports success leaves the block bad |
| `NandDriver.NandChip.EraseStep` | linux/kernel/common/nand_base.c:2598-2657 | one turn of the erase loop: bad-block stop, cache invalidation, erase, failure stop, next block |
| `NandDriver.NandChip.EraseNand` | linux/kernel/common/nand_base.c:2545-2676 | range and protection errors, the erased blocks, return code and `fail_addr`; an accepted range selects a chip that does not exist if and only if it is empty and starts at the end of the device |
| `EraseLaws.ErasePageExact` | linux/kernel/common/nand_base.c:2598-2673 | every page of the device after an erase: blank before the stop, torn in a block whose erase failed, unchanged elsewhere |
| `EraseLaws.EraseStopExact` | linux/kernel/common/nand_base.c:2598-2673 | success means all blocks were done; failure names exactly why it stopped, and the failing page is that block's first |
| `EraseLaws.ErasedWereGood` | linux/kernel/common/nand_base.c:2600-2608 | every block erased was good at the start and its erase was not reported as failed |
| `NandLock.Controller.TryGet` | linux/kernel/common/nand_base.c:805-836 | the locked section: free controller taken, second suspender let in, otherwise to sleep |
| `NandLock.Controller.Release` | linux/kernel/common/nand_base.c:145-158 | the controller and the chip are freed |
| `NandLock.StepKeeps` | linux/kernel/common/nand_base.c:805-836 | each step of each thread, except a suspend let in beside another, keeps: the one chip not READY is the active one, it has one owner, nobody sleeps while the controller is free |
| `NandLock.LockIsSafe` | linux/kernel/common/nand_base.c:805-836 | safety and no lost wake-up in every state of every interleaving over any number of chips, as long as suspends come from one thread or none |
| `NandLock.StepExact` | linux/kernel/common/nand_base.c:805-836 | from every state of the invariant a step leads to a safe state if and only if it is not a suspend let in beside a suspended active chip |
| `NandLock.RunExact` | linux/kernel/common/nand_base.c:805-836 | in every interleaving from the start, of any threads over any chips: every state is safe if and only if no suspend was let in beside another |
| `NandLock.OneChipCollides` | linux/kernel/common/nand_base.c:2760-2780 | two suspends of one chip, both finding it the active one: an interleaving after which two chips are in use at once |
| `NandLock.TwoChipsCollide` | linux/kernel/common/nand_base.c:2760-2780 | two chips, two suspenders: an interleaving after which two chips are in use at once |
| `OnfiCrc.OnfiCrc16` | linux/kernel/common/nand_base.c:2846-2856 | the loop computes the CRC of the whole message |
| `OnfiCrc.CrcLinear` | linux/kernel/common/nand_base.c:2846-2856 | the CRC of the XOR of two messages (and starting values) is the XOR of their CRCs |
| `OnfiCrc.CrcInjective` | linux/kernel/common/nand_base.c:2846-2856 | over one message, different starting values end in different CRCs |
| `OnfiCrc.DetectsTwoBytes` | linux/kernel/common/nand_base.c:2846-2856 | two messages of one length, of any length, that differ only within two consecutive bytes, or in one, have different CRCs |
| `OnfiCrc.DamageRejected` | linux/kernel/common/nand_base.c:2876-2883 | a parameter page that was accepted is rejected after damage confined to two consecutive bytes of its body, or to its stored CRC |
| `CommandCycles.NandPort.HwControl` | linux/kernel/common/s3c_nand.c:196-221 | which byte is latched, and where, for each control word |
| `CommandCycles.NandPort.CommandLp` | linux/kernel/common/nand_base.c:670-770 | the whole sequence of latched bytes |
| `CommandCycles.DecodesExactly` | linux/kernel/common/nand_base.c:670-707 | the latched address bytes decode to the column and page if and only if both fit the cycles sent |
| `CommandCycles.EveryPageAddressed` | linux/kernel/common/nand_base.c:697-705 | with pages of at least 2 KiB, leaving out the third row cycle up to 128 MiB loses no page |
| `CommandCycles.ReadOobIsRead` | linux/kernel/common/nand_base.c:676-679 | READOOB at c latches exactly what READ0 at `writesize + c` does |
| `S3cSlc.WritePage1bit` | linux/kernel/common/s3c_nand.c:582-613 | the OOB area gets each step's code at its positions and the code of itself in its last four bytes |
| `S3cSlc.CorrectData` | linux/kernel/common/s3c_nand.c:434-475 | the SLC branch: the status word decides between no change, one flipped bit and failure |
| `S3cSlc.CorrectFlip` | linux/kernel/common/s3c_nand.c:446-470 | a single flipped bit is undone |
| `S3cSlc.RestoreStep` | linux/kernel/common/s3c_nand.c:643-654 | the column is step number times step size at each turn, and the step is restored |
| `S3cSlc.ReadMain` | linux/kernel/common/s3c_nand.c:643-654 | the loop restores the whole page |
| `S3cSlc.ReadPage1bit` | linux/kernel/common/s3c_nand.c:615-657 | for all data and OOB bytes and at most one flipped bit in each step, reading the written page gives back the data, the stored OOB area and no failure |
| `S3cSlc.LayoutsFit` | linux/kernel/common/s3c_nand.c:139-155 | both SLC layouts have the shape the read and write functions rely on |
| `S3cSlc.OtherBytesKept` | linux/kernel/common/s3c_nand.c:582-613 | an OOB byte that carries no code is stored as it is |
| `DmTransmit.Board.Send` | linux/kernel/common/dm9000.c:867-888 | the checksum register follows a change of the request, and the length goes out through two byte registers |
| `DmTransmit.Board.Xmit` | linux/kernel/common/dm9000.c:901-929 | first packet sent at once, second queued and the queue stopped |
| `DmTransmit.Board.Done` | linux/kernel/common/dm9000.c:937-955 | a completion sends the queued packet and wakes the queue |
| `DmTransmit.Board.Watchdog` | linux/kernel/common/dm9000.c:845-865 | a reset empties the queue and leaves `ip_summed` |
| `DmTransmit.StepKeeps` | linux/kernel/common/dm9000.c:867-955 | every step keeps the queue invariant: count, stop flag, the one request in the chip, the order of packets |
| `DmTransmit.TransmitInOrder` | linux/kernel/common/dm9000.c:867-955 | in every interleaving the count stays in 0..2, the queue is stopped exactly at 2, one request is in the chip at most, packets between resets go out once each in order with their own lengths, and with their own checksum setting if no reset comes while checksums are on |
| `DmTransmit.ResetExact` | linux/kernel/common/dm9000.c:845-865 | a reset keeps register and `ip_summed` in step if and only if no checksum was asked for |
| `DmTransmit.StaleSend` | linux/kernel/common/dm9000.c:871-878 | after a reset in any state a packet goes out with its own setting if and only if its request differs from the remembered one, or is none |
| `DmPhy.Port.Begin` | linux/kernel/common/dm9000.c:1229-1314 | the first locked section of the four calls, register by register |
| `DmPhy.Port.End` | linux/kernel/common/dm9000.c:1250-1269 | the second one, with the word it picks up |
| `DmPhy.FirstArms` | linux/kernel/common/dm9000.c:1229-1300 | a first section leaves the chip told to do exactly its call, and no stored word changed |
| `DmPhy.StepKeeps` | linux/kernel/common/dm9000.c:1229-1314 | every step of every thread, of the chip and of the other locked sections keeps: the mutex owner has the chip to itself |
| `DmPhy.CallsAreAtomic` | linux/kernel/common/dm9000.c:1229-1314 | in every interleaving each finished read returned the word its register held, as if calls ran one at a time, and the chip holds what they wrote |
| `DmPhy.SetThenGetAmongOthers` | linux/kernel/common/dm9000.c:536-583 | in every interleaving, once each word of a range was written, every read of a word of the range that finishes later returns the two bytes set, unless another call wrote other bytes there |
| `DmPhy.Eeprom.ReadWord` | linux/kernel/common/dm9000.c:358-394 | the word at the offset, low byte first; 0xff bytes without an EEPROM |
| `DmPhy.Eeprom.WriteWord` | linux/kernel/common/dm9000.c:398-424 | exactly that word changes |
| `DmPhy.Eeprom.Set` | linux/kernel/common/dm9000.c:560-583 | every error return, and on success exactly the range's bytes changed to the data |
| `DmPhy.Eeprom.Get` | linux/kernel/common/dm9000.c:536-558 | every error return, and on success the range's bytes |
| `DmPhy.Eeprom.SetThenGet` | linux/kernel/common/dm9000.c:536-583 | an accepted set and then a get of the range returns the same bytes |
| `Buttons.Driver.StoreState` | linux/drives/button_dev/buttons_dev.c:202-212 | the handler stores the state of its own button |
| `Buttons.Driver.Lower` | linux/drives/button_dev/buttons_dev.c:343-366 | the reader lowers the flag before it copies at most four states |
| `Buttons.StepKeeps` | linux/drives/button_dev/buttons_dev.c:202-218 | every step keeps: a button's state is known to the reader, or the flag is up, a handler is midway, or the copy has yet to reach it |
| `Buttons.NoEventLost` | linux/drives/button_dev/buttons_dev.c:343-369 | in every interleaving with a reader that takes all four states: reader idle, no handler midway and flag down imply that the reader's last copy is the current states |
| `NandDriver.ChipExists` | linux/kernel/common/nand_base.c:2566-2574 | an offset up to the end of the device selects a chip there is if and only if it is not the end |
| `NandDriver.EndSelectsNoChip` | linux/kernel/common/nand_base.c:2726-2733 | the offset just past the device, which `nand_block_isbad` and `check_offs_len` let through, selects chip number `numchips` |
| `PageCache.StepCoherent` | linux/kernel/common/nand_base.c:1503-1565 | a turn whose partial page is not RAW, has no OOB buffer and follows no ECC failure keeps the cache coherent, and so does every whole page |
| `PageCache.StepDataExact` | linux/kernel/common/nand_base.c:1507-1565 | a turn delivers the bytes of an uncached read if and only if it is not a RAW read served from the cache, or the page holds what it decodes to |
| `PageCache.StepCorrectedExact` | linux/kernel/common/nand_base.c:1507-1565 | a turn counts the corrected bits of an uncached read, and none for a page that comes from the cache |
| `PageCache.CachedReadExact` | linux/kernel/common/nand_base.c:1473-1604 | a whole read through a coherent cache against an uncached one: the cache stays coherent, OOB bytes and failures are equal, corrected bits differ by those of the one page served from the cache, and the data is equal if and only if no RAW read is served corrected bytes |
| `PageCache.OobReadExact` | linux/kernel/common/nand_base.c:1507-1547 | a read with an OOB buffer gives what an uncached read gives, whatever the cache holds |
| `PageCache.PlainReadKeeps` | linux/kernel/common/nand_base.c:1615-1645 | every read without OOB buffer of pages that decode without failure keeps the cache, in every mode but RAW |
| `PageCache.WholePagesKeep` | linux/kernel/common/nand_base.c:1503-1536 | every read of whole pages does, RAW or not, with or without OOB buffer |
| `PageCache.GuardFiresExactly` | linux/kernel/common/nand_base.c:2229-2232 | the shift is done in a 32-bit int: for a cached page whose start the write covers, the test fires if and only if the page starts below 2 GiB |
| `StaleState.StaleAboveTwoGiB` | linux/kernel/common/nand_base.c:2229-2232 | the driver writes over a cached page at 2 GiB or above, and its next read of the page returns the bytes from before the write |
| `NandRequests.SmallDeviceSafe` | linux/kernel/common/nand_base.c:2229-2232 | on a device of at most 2 GiB every write drops the cached page or does not reach it |
| `StaleState.CachedPageHidesRaw` | linux/kernel/common/nand_base.c:1507-1565 | a page on which a RAW read through the cache delivers corrected bytes |
| `StaleState.CachedPageHidesCorrection` | linux/kernel/common/nand_base.c:1599-1602 | a page whose read returns 0 through the cache and -EUCLEAN without it |
| `StaleState.LaterPageRepeats` | linux/kernel/common/nand_base.c:2257-2264 | once the client's OOB bytes have run out, the next page is programmed with the OOB bytes of the page before, its own codes apart |
| `NandRuns.ServeWrite` | linux/kernel/common/nand_base.c:2340-2365 | range test and write leave flash and answer as the uncached driver |
| `WriteReadBack.ByteAfterIs` | linux/kernel/common/nand_base.c:2186-2289 | after disjoint writes a byte is the byte of the write that covers it, and as it was if none does |
| `WriteReadBack.ErasedThenRead` | linux/kernel/common/nand_base.c:1473-1604 | on erased pages the read returns the written bytes and 0xFF elsewhere, with no failure and no correction |
| `DriverReadBack.WriteThenRead` | linux/kernel/common/nand_base.c:1615-1645 | the driver itself, cache included: the writes, each of which drops the cached page or does not reach it, then a read of any range of erased pages, return the written bytes, 0xFF elsewhere, and 0 |
| `BadBlockLaws.MarkExact` | linux/kernel/common/nand_base.c:2740-2754 | a mark-bad call that reports success on a good block leaves the block bad if and only if the offset lies in the block's first page |
| `OnfiCrc.BoundaryExact` | linux/kernel/common/nand_base.c:2876-2883 | damage to the last covered byte and the stored low byte goes undetected if and only if the CRC of the one difference is the other |
| `OnfiCrc.DamageMissed` | linux/kernel/common/nand_base.c:2876-2883 | such damage: every accepted page is still accepted with 0x03 flipped in byte 253 and 0x0A in byte 254 |
| `S3cSlc.LastBytesLost` | linux/kernel/common/s3c_nand.c:582-613 | whatever a client puts into the last four bytes is overwritten, although the small layout offers them as free |
| `S3cSlc.SmallLayoutExact` | linux/kernel/common/s3c_nand.c:139-145 | of the ten bytes `s3c_nand_oob_16` offers as free, a client byte reaches the flash if and only if it is one of the first six |
| `S3cSlc.LargeLayoutKeeps` | linux/kernel/common/s3c_nand.c:148-155 | all 38 free bytes of `s3c_nand_oob_64` reach the flash |
| `Buttons.ShortReadLoses` | linux/drives/button_dev/buttons_dev.c:338-369 | for every read of fewer than four bytes, a run from open that ends quiet with a button state the reader does not know |
| `Buttons.ReadSizeExact` | linux/drives/button_dev/buttons_dev.c:338-369 | quiet means known in every run whose reads ask for `count` bytes, if and only if `count` is at least four |
| `PageCache.CachedReadBuf` | linux/kernel/common/nand_base.c:1529-1534 | `pagebuf` after a read is a function of the flash, the request and the `pagebuf` it found, whatever the page buffer holds |
| `PageCache.CachedWriteOut` | linux/kernel/common/nand_base.c:2242-2285 | the flash, staging buffer, count and return code of the write loop do not depend on the cache |
| `PageCache.CachedWriteBuf` | linux/kernel/common/nand_base.c:2248-2255 | the write loop drops `pagebuf` exactly when it comes to a partial page before a program fails; otherwise page buffer and `pagebuf` are as they were |
| `PageCache.CachedWriteCoherent` | linux/kernel/common/nand_base.c:2242-2285 | the cache comes through the write loop coherent if the loop drops it or never programs the cached page; otherwise the page buffer still holds the page as it decoded before the write |
| `PageCache.LowPageKept` | linux/kernel/common/nand_base.c:2229-2255 | a write drops every cached page that starts below 2 GiB and that it programs: by the test if it covers the start of the page, by the partial-page branch if not |
| `PageCache.WriteDoneCache` | linux/kernel/common/nand_base.c:2186-2289 | `pagebuf` after a whole write request, exactly, error returns and failed programs included, and the condition under which the cache stays coherent |
| `SwEcc.StepCountExact` | linux/kernel/common/nand_base.c:1200-1206 | the step count computed in 32-bit unsigned arithmetic stays within the page if and only if the request does not end at offset 0; it is then the number of covering steps |
| `SwNand.ScannedWholeSteps` | linux/kernel/common/nand_base.c:3410-3434 | the subpage size that the scan computes from the number of steps is always a whole number of ECC steps |
| `WriteReadBack.ScannedDevice` | linux/kernel/common/nand_base.c:3410-3434 | so every scanned software-ECC device meets the subpage condition of the read-back theorems |
| `DriverReadBack.LowPlanKept` | linux/kernel/common/nand_base.c:2229-2255 | with nothing cached at 2 GiB or above, every run of writes keeps the cache coherent |
| `DmTransmit.StalePacketSent` | linux/kernel/common/dm9000.c:845-888 | a run from probe in which, after a reset, a packet that asks for checksums goes out without them |
| `ReadLaws.DataByte` | linux/kernel/common/nand_base.c:1502-1566 | every data byte of a read, in every mode and over any flash contents: byte x comes from column j of page i of the read, where x is i * writesize + j less the first column; corrected, or as stored if the read is RAW |
| `ReadLaws.OobReadLength` | linux/kernel/common/nand_base.c:1538-1546 | a read with an OOB buffer at offset 0 delivers the smaller of `ooblen` and the slots of the pages it touches (OOB bytes, or free bytes in AUTO mode) |
| `ReadLaws.OobReadIs` | linux/kernel/common/nand_base.c:1538-1546 | and OOB byte t comes from slot t % avail of page t / avail of the read |
| `ReadLaws.OobByte` | linux/kernel/common/nand_base.c:1423-1457 | the same for every offset: the s-th byte that page i gives follows the shares of the pages before it and comes from slot `ooboffs` + s |
| `ReadLaws.CountsExact` | linux/kernel/common/nand_base.c:1473-1604 | a read of whole pages (no subpage reads, or an OOB buffer) counts exactly the failed steps and corrected bits of the pages it touches, a RAW read none; what a subpage read counts is `SubpageRefinement.SubpageRefinesPage` |
| `ReadLaws.PagesReadIs` | linux/kernel/common/nand_base.c:1567-1583 | the pages a read touches are those up to the one that holds its last byte |
| `OobWriteLaws.AutoSlotAt` | linux/kernel/common/nand_base.c:1438-1455 | byte d of free region r is the AUTO slot whose number is d plus the lengths of the regions before it |
| `OobWriteLaws.OobWriteErrors` | linux/kernel/common/nand_base.c:2375-2446 | when an OOB write is rejected, refused, failed or carried out, and which pages it leaves alone in each case |
| `OobWriteLaws.OobWriteClient` | linux/kernel/common/nand_base.c:2384-2441 | after a successful OOB write, in every mode, client byte i is ANDed into slot `ooboffs` + i |
| `OobWriteLaws.OobWriteRest` | linux/kernel/common/nand_base.c:2384-2441 | and every other byte of the page, data and OOB, is as it was |
| `OobWriteLaws.OobRoundTrip` | linux/kernel/common/nand_base.c:2375-2446 | an OOB write to an erased OOB area, then a read of any part of the page with the same mode, offset and length, returns the client bytes |
| `SpareLaws.PagesAfter` | linux/kernel/common/nand_base.c:2242-2285 | every whole page, data and OOB area, from the first of a write on: programmed with the page's own bits, torn where the program failed, untouched behind that |
| `SpareLaws.ClientByteIs` | linux/kernel/common/nand_base.c:2257-2264 | client OOB byte t is programmed by page t / avail of the write at its slot t % avail, for every position the page function lets through |
| `SpareLaws.RepeatedByteIs` | linux/kernel/common/nand_base.c:2257-2264 | a slot for which the client has no more bytes is programmed with the last byte a page before had for it |
| `SpareLaws.StaleByteIs` | linux/kernel/common/nand_base.c:2234-2236 | an OOB byte the client never supplies is programmed as the staging buffer held it, 0xFF without an OOB buffer |
| `SpareReadBack.AcceptedWrites` | linux/kernel/common/nand_base.c:2205-2240 | a write passes the tests if and only if it starts and ends at subpages, at pages with an OOB buffer, the chip is not protected, and OOB bytes with an offset fit one page |
| `SpareReadBack.OobRequestByte` | linux/kernel/common/nand_base.c:2186-2289 | a whole request, from its tests on and whatever fails: each page within the bytes reported written has its share of the client OOB bytes ANDed in |
| `SpareReadBack.SwPasses` | linux/kernel/common/nand_base.c:1980-1998 | software ECC lets every OOB byte through that is not one of its code positions |
| `SpareReadBack.OobWriteThenRead` | linux/kernel/common/nand_base.c:1473-1604 | a write of several pages with OOB bytes to erased OOB areas, then a read of the same pages: all client OOB bytes come back, in order |
| `SpareReadBack.WriteOobThenRead` | linux/kernel/common/nand_base.c:2375-2446 | the driver itself, cache included: an OOB write succeeds if and only if it fits, is not refused and does not fail, and a read of the page then returns the client bytes |
| `SwEccLaws.DecodeCounts` | linux/kernel/common/nand_base.c:1165-1177 | `failed` is the number of steps whose correction is negative, `corrected` the sum of the other returns |
| `SwEccLaws.DecodeData` | linux/kernel/common/nand_base.c:1146-1178 | each step comes out as `ecc.correct` left it, given its own bytes, the code stored for it and the code calculated from them |
| `SwEccLaws.ReadVerdict` | linux/kernel/common/nand_base.c:1592-1602 | a read of whole pages returns -EBADMSG if and only if a step of a page it touches is uncorrectable, -EUCLEAN if and only if none is and one was corrected, and 0 otherwise |
| `SwEccLaws.EncodedCode` | linux/kernel/common/nand_base.c:1980-1998 | a page is sent with its data in place and byte i of step k's code at entry k * bytes + i of the position table |
| `SwEccLaws.EncodedOther` | linux/kernel/common/nand_base.c:1980-1998 | and every other OOB byte as it was staged |
| `BadMarks.MarkByteExact` | linux/kernel/common/nand_base.c:378-383 | a page reads bad if and only if fewer than `badblockbits` bits of its marker byte are set; with eight, if and only if the byte is not 0xFF |
| `BadMarks.ErasedHadGoodMark` | linux/kernel/common/nand_base.c:2600-2608 | every block that an erase erased had a good marker byte (0xFF with eight bits) in its first or, as configured, last page |
| `BadMarks.EraseStopsAtMark` | linux/kernel/common/nand_base.c:2598-2640 | an erase stops short exactly at a bad marker byte, or at an erase that fails |
| `BadMarks.AcceptedExactly` | linux/kernel/common/nand_base.c:110-137 | a range is accepted if and only if it is whole blocks inside the device |
| `BadMarks.EraseRequestExact` | linux/kernel/common/nand_base.c:2545-2676 | in byte offsets: how many blocks were erased, that they are blank, and `fail_addr`, which is `addr` plus the bytes erased if an erase failed and unknown if a bad block stopped the call |
| `BadMarks.MarksAreZero` | linux/kernel/common/nand_base.c:417-441 | a successful mark leaves the two marker bytes zero, bytes 4 and 5 too if those are scanned, and so on the second page if two are scanned |
| `BadMarks.MarkFrame` | linux/kernel/common/nand_base.c:417-441 | it changes no other page, and on success no other byte |
| `Syndrome.InterleaveAt` | linux/kernel/common/nand_base.c:2037-2070 | step k of an interleaved page is its data followed by its own share of the OOB area |
| `Syndrome.InterleaveTail` | linux/kernel/common/nand_base.c:2037-2070 | the rest of the OOB area comes last |
| `Syndrome.WithCodesAt` | linux/kernel/common/nand_base.c:2045-2061 | in the share of step k the code lies between the pre-pad and the post-pad, which are as they were |
| `NandLock.SecondResumeIgnored` | linux/kernel/common/nand_base.c:2771-2780 | two suspends of one chip and then their resumes one after the other end with all free: the second resume finds the chip ready and leaves the controller alone |
| `CommandCycles.TraceShape` | linux/kernel/common/nand_base.c:670-770 | every command is its byte, its address bytes, and then 0x30 after a read, 0xE0 after a change of column, nothing otherwise |
| `S3cSlc.NamedWord` | linux/kernel/common/s3c_nand.c:456-464 | the status word 128 * byte + 16 * bit + 1 names that byte and that bit |
| `S3cSlc.StoredCode` | linux/kernel/common/s3c_nand.c:582-613 | the code of step k is stored in its own four bytes |
| `S3cSlc.StoredOwnCode` | linux/kernel/common/s3c_nand.c:582-613 | the last four bytes are the code of all the others |
| `DmTransmit.TakenWhenRoom` | linux/kernel/common/dm9000.c:901-929 | a packet is taken, behind the earlier ones, whenever fewer than two are queued, and refused otherwise |
| `DmPhy.FirstRegisters` | linux/kernel/common/dm9000.c:1229-1300 | what a first section leaves in the registers: the address, with bit 6 for the PHY, the command and the two bytes of a write, and nothing else changed |
| `DmPhy.IndexKept` | linux/kernel/common/dm9000.c:1236-1261 | both sections of both PHY calls leave the index register as they found it; those of the EEPROM calls do not |
| `Buttons.ValuesAreEdges` | linux/drives/button_dev/buttons_dev.c:202-212 | in every run the stored state of a button is p or r after its last edge |
| `Buttons.QuietKnowsEdges` | linux/drives/button_dev/buttons_dev.c:202-212 | and when all is quiet the reader knows it |

## Left out

- 16-bit bus, auto-increment reads, cached programming, `nand_lock`/`nand_unlock`, the panic write path, AND-chip erase, and bad-block tables in memory or in flash: options the modelled chips do not set, or extras over the same loops.
- `nand_do_read_oob`, `nand_write_oob_syndrome`, the hardware-ECC page functions other than the SLC ones, and read-back verification after writes: variants of loops that are modelled.
- `errstat` callbacks, jiffies timeouts, delays, LED triggers and printing: a wait is taken to return once the device is ready.
- ECC statistics wrap at 32 bits in the source and are unbounded here; a call would have to see 2^32 failures to tell the difference.
- `ecccalc` and `ecccode` are local sequences, not regions of the shared buffer; the OOB bytes that a subpage read leaves in the staging buffer are left unspecified.
- In the driver the RAW image of a page is data followed by OOB bytes; the interleaved RAW formats are proved on their own in `Syndrome`.
- NandDriver.NandChip.DefaultBlockMarkbad: the count of bad blocks in the statistics is not kept.
- NandDriver.NandChip.EraseNand: the unknown fail address is -1.
- NandDriver.NandChip.SelectChip: a chip that does not exist is an answer of its own (`Bug`), where the default select function stops the kernel.
- OobLayout.TransferOob: outside AUTO mode the OOB bytes of a page lie in its OOB area, past which the source would copy other memory.
- NandRuns.ServeRead: the same.
- `oobretlen` is not part of an answer; with an offset in AUTO mode it counts bytes that the free regions do not have.
- SpareLaws.ClientByteIs: is for free regions that do not overlap, as all layouts have them, and for positions where no code goes; what a code position gets is stated by `SwEccLaws.EncodedCode`.
- NandRuns.Run: the staging buffer a write finds right after a read is left open, since the OOB bytes that reads leave there are not modelled.
- NandDriver.NandChip.ReadFragment: a subpage read fills whole ECC steps of the page buffer in the source and only the requested bytes here; nothing depends on the others, since on a device with subpage reads no read sets `pagebuf`.
- NandDriver.NandChip.ReadTurn: the same.
- NandDriver.NandChip.DoReadOps: what a request that overruns in `nand_read_subpage` leaves behind is not modelled; the answer `Overrun` says that it does.
- NandDriver.NandChip.DoWriteOob: the last length test, against the end of the device, never decides after the two before it and is not a separate branch.
- WriteReadBack.WritesThenRead: is for OOB-less writes, disjoint ranges and working hardware, as the property needs; failures are covered by `WriteLaws.WriteExact`.
- NandLock.LockIsSafe: states safety and the absence of lost wake-ups; that a sleeper is eventually scheduled is the scheduler's matter.
- S3cSlc.ReadPage1bit: excludes flipped bits in the spare area, where the codes themselves are.
- DmTransmit.TransmitInOrder: receive side, statistics, open/stop and suspend are not part of this model; a reset is taken to clear the transmit memory and TCCR, and one completion is reported per request.
- DmPhy.CallsAreAtomic: no reset, open or stop meanwhile; the chip is taken to be ready when the second section starts.
- S3cSlc.CorrectData: requires that the byte a status word names lies in the buffer; the source would flip a bit of other memory.
- DmPhy.Eeprom.Set: ranges lie within the 128 bytes that `dm9000_get_eeprom_len` reports, to which the ethtool core limits its requests.
- DmPhy.Eeprom.Get: the same.
- Buttons.NoEventLost: failed copies to user space, non-blocking returns and several readers are not part of this model; a read that a signal let through is one that lowers the flag without an event.
- Probe and remove code, platform tables, USB, the bare-metal programs and the copies of the drivers in other directories: glue, constants, or the same code again.
