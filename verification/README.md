# Verification model of clicky and its boot loader

clicky emulates an iPod; ipodloader2 is the boot loader that runs inside it. This project models the
hardest parts of both, and above all the loader's drivers against the devices they drive, and proves
what the two promise together. To check it, run `dafny verify dfyconfig.toml`.

* **Disk.** `Ide` is the ATA drive as a transition system (registers, status bits, the 512-byte I/O
  buffer, the sector countdown, the interrupt and DMA-request lines); `IdeTheorems` and `IdeRuns` prove
  that in LBA mode it refines a flat disk, `IdeController` that two drives behind one controller do not
  disturb each other, `IdeLines` and `IdeRegisters` what the interrupt and DMA-request lines, the status and
  the other registers tell a guest, and `IdeDevice` is the same device as objects updated in place, each method proved
  to take the step of `Ide`. `AtaCache` and `AtaDriver` are the loader's driver and its eight-slot cache;
  the driver's register accesses are steps of that controller, so its contracts are about driver and
  device together.
* **File systems.** `Ext2`/`Ext2Reader` (with `Ext2Image`, the block map as it lies on the disk) and `HfsPlus`/`HfsReader` read files through that driver
  (`Storage`); `Names` (the comparison of `resources/ipodloader2/unicodecmp.h`, behind `compareUnicode`) and
  `BTree` search the HFS+ catalog.
* **Screen.** `Lcd` is the HD66753 controller, `Blitter` the loader's 2-bit blitter writing to it byte by
  byte, up to the rendered frame.
* **Rasterizer.** `Raster` (coverage), `Blend` (compositing) and `Painter` (textured triangles and quads
  in a framebuffer), `Textures` (which upload a draw uses), `GlTrace` (run-length coding of GL frames).
* **Signals.** `Signal` is the machine of atomic steps behind signal lines and triggers.
* **Loader library.** `Memory` (word-wise copy) and `Numbers` (number printing and parsing).

`Prim` and `Arith` hold the fixed-width types and division facts the others share.

## How it is modelled

* Fixed-width arithmetic is written out: wrap-around, truncation and sign reinterpretation appear where
  the code has them. Coordinates of the rasterizer and texture coordinates are exact reals.
* A result that ends the emulation (a fatal memory exception, or a panic) ends a run. Runs are sequences
  of accesses of any kind and any length.
* Objects are classes with the source's fields. `AtaDriver.Driver` holds the controller as a value and
  performs the steps of `Ide.Perform`; `IdeDevice.IdeController` is proved to perform the same steps.
* Preconditions state what the hardware or the caller must supply: the sectors exist on the disk and lie
  below 2^28, buffers do not overlap the driver's own, divisors are not zero.

## Where the code and its description part

* `IdeRuns.OffsetIffLba`: every CHS address is rejected, so a sector offset exists exactly in LBA mode.
* `AtaCache.EvictsOldestButOneExactly`: "simple LRU" holds up to one place (at most one slot was used longer
  ago than the one to go) exactly when slot 0 is unused or has a tick above 0;
  `AtaCache.WarmUpEvictsTheNewest` is the state after one kept read, where the newest slot is the next to go.
* `Lcd.AcWalksBack`: counting the address counter down is right exactly when it is not 0.
* `Blend.BetweenExactlyWhenFaithful`, `Blend.FitsExactly`, `Blend.WhiteTurnsBlack`: for which pairs of
  alphas compositing stays between its inputs or within a byte; white over white can turn black.
* `BTree.CompareIsOrder`, `BTree.LeafFindsExactly`, `BTree.LeafCanMiss`: the 32-bit key difference
  decides the order exactly when the parents are less than 2^31 apart; otherwise a record can be missed.
  `BTree.IndexFindsExactly` says when an index node leads to the right child all the same, and
  `BTree.Catalog.FindKey` is exact for the whole descent.
* `Ext2.ServedExactly`: blocks are served below 12 + n^2, not below 12 + n + n^2 as the doubly indirect
  map reaches.
* `Ext2.HoleIsReadAsBlockZero`: a hole (block number 0) is read as block 0 of the volume;
  `Ext2.ReadsFileExactly` says for every byte when the reader gets it right all the same.
* `HfsPlus.ClampExactly`: the end of a file is respected exactly when the request fits or starts at 0.
* `Memory.MemCopy` and `Memory.RightExactly`: the copy runs on for 2^32 - 1 bytes exactly when both
  pointers are equally unaligned and the count ends before the next word boundary; as a move it is right
  for every memory exactly when the destination is not inside the source and above it.
* `Numbers.RoundTripExactly`: a printed number reads back exactly when no spaces precede it (or it is 0).
* `Signal.PromiseKeptExactly`: the documentation of `Master` promises a line that is high while any holder
  asserts it. Clones share one flag, so that holds exactly when the last call asked for high or no other
  holder still wants it; `Signal.OneClearForAll` is a case where it fails.
* `Signal.YesMeansChangeExactly`: a check that answers yes means a change since the check before exactly
  when no change was in flight at that one.

## Model

| member | source | states |
|---|---|---|
| `IdeTheorems.StepKeepsInv` | clicky-core/src/devices/generic/ide/mod.rs:126-146 | no single access of any kind overruns the buffer or the countdown, and unless it ends the run it leaves BSY clear, DRQ set only in a transfer state, 1 to 256 sectors left and the cursor below 512 |
| `IdeTheorems.RunKeepsInv` | clicky-core/src/devices/generic/ide/mod.rs:314-445 | the same over every run of accesses to a drive |
| `IdeTheorems.ReadRefines` | clicky-core/src/devices/generic/ide/mod.rs:314-377 | reading a data byte takes the next byte of the open read of the flat disk, through buffer reloads and up to the end of the transfer |
| `IdeTheorems.WriteRefines` | clicky-core/src/devices/generic/ide/mod.rs:384-445 | writing a data byte adds it to the open write; the disk changes only when a sector is complete, and then in that sector only |
| `IdeTheorems.QuietKeepsTransfer` | clicky-core/src/devices/generic/ide/mod.rs:975-1009 | accesses other than data and commands leave disk and open transfer untouched |
| `IdeTheorems.FeedClosedForm` | clicky-core/src/devices/generic/ide/mod.rs:384-445 | after any number of bytes the disk holds the completed sectors and nothing of the incomplete one |
| `IdeTheorems.WriteStream` | clicky-core/src/devices/generic/ide/mod.rs:384-445 | over any run of data writes, 8 or 16 bits, mixed with accesses to other registers, disk and transfer are those of feeding the bytes sent, in order |
| `IdeTheorems.ReadStream` | clicky-core/src/devices/generic/ide/mod.rs:314-377 | over any run of data reads mixed with accesses to other registers, the bytes got are the next bytes of the transfer, in order, and the rest stays pending |
| `IdeRuns.OffsetIffLba` | clicky-core/src/devices/generic/ide/mod.rs:291-312 | a sector offset exists iff LBA mode is selected, and is the 28-bit block address |
| `IdeRuns.CommandOpensRead` | clicky-core/src/devices/generic/ide/mod.rs:495-573 | READ SECTORS, READ MULTIPLE with single-sector blocks and READ DMA in a DMA mode, for n sectors at L, open the read of exactly those bytes and raise DRQ; count 0 means 256 |
| `IdeRuns.CommandOpensWrite` | clicky-core/src/devices/generic/ide/mod.rs:581-655 | the write commands likewise open a write at sector L for n sectors and change nothing on the disk |
| `IdeRuns.IdentifyOpensRead` | clicky-core/src/devices/generic/ide/mod.rs:463-494 | the identify command opens a read of exactly the identify block |
| `IdeRuns.NativeMaxIsLastSector` | clicky-core/src/devices/generic/ide/mod.rs:720-735 | the native maximum is the last sector of the disk that 28 bits can address |
| `IdeRuns.ProgramRuns` | clicky-core/src/devices/generic/ide/mod.rs:975-1009 | the address register writes and a command run without a fatal result and leave the address programmed |
| `IdeRuns.WriteReachesDisk` | clicky-core/src/devices/generic/ide/mod.rs:581-655 | for every write command the mode allows: n*512 data bytes after it change exactly sectors L to L+n to that data, at every point in between only whole sectors have changed, and more bytes end the run |
| `IdeRuns.ReadReturnsDisk` | clicky-core/src/devices/generic/ide/mod.rs:495-573 | for every read command the mode allows: the data reads after it return the bytes of sectors L to L+n, in order, and asking for more ends the run |
| `IdeRuns.WriteReadRoundTrip` | clicky-core/src/devices/generic/ide/mod.rs:291-445 | reading n sectors after writing them returns the data written, whichever commands and access widths are used |
| `IdeController.Independence` | clicky-core/src/devices/generic/ide/mod.rs:888-1009 | in any run over two drives, each drive ends in the state, with the results, of a run of just the accesses made while it was selected |
| `IdeController.DmarqStep` | clicky-core/src/devices/generic/ide/mod.rs:314-445 | the DMA request is raised only with a transfer open and dropped whenever one ends |
| `IdeController.CtlRunKeepsInv` | clicky-core/src/devices/generic/ide/mod.rs:888-1009 | over every run of the controller both drives keep their invariant and no buffer or countdown overrun is ever reported |
| `IdeLines.LinesStep` | clicky-core/src/devices/generic/ide/mod.rs:314-768 | every access leaves both lines as the drive before and after it says: INTRQ high after a command that opens a transfer or reports its end and after a finished sector (in DMA modes the last one), low after a status read, else unchanged; DMARQ high after a DMA command, low after the last sector, else unchanged |
| `IdeLines.TransferInterrupts` | clicky-core/src/devices/generic/ide/mod.rs:495-655 | a read or write command that is let through raises INTRQ, and a DMA command DMARQ |
| `IdeLines.InterruptsExactly` | clicky-core/src/devices/generic/ide/mod.rs:274-284 | over every run of the controller INTRQ is high iff something raised it and no drive was asked for its status since |
| `IdeLines.StreamLines` | clicky-core/src/devices/generic/ide/mod.rs:314-445 | over any run of data accesses and accesses to other registers: in PIO modes each finished sector raises INTRQ, in DMA modes only the last one, and DMARQ lasts until the last sector is moved |
| `IdeLines.SectorsOfBytes` | clicky-core/src/devices/generic/ide/mod.rs:314-445 | the sectors left are those of the bytes still pending or still expected |
| `IdeLines.DrqExactly` | clicky-core/src/devices/generic/ide/mod.rs:314-768 | over every run in which no other command breaks in on a transfer, DRQ is set exactly while one is open |
| `IdeRegisters.ReadsBack` | clicky-core/src/devices/generic/ide/mod.rs:932-1009 | a register reads what was last written to it, under either of its names, and no other register changes |
| `IdeRegisters.WideStore` | clicky-core/src/devices/generic/ide/mod.rs:888-930 | a 16-bit access to it is an 8-bit one with the low byte |
| `IdeRegisters.HeadSelects` | clicky-core/src/devices/generic/ide/mod.rs:975-985 | bit 4 of the device/head register selects the drive, and nothing else does |
| `IdeRegisters.StatusRead` | clicky-core/src/devices/generic/ide/mod.rs:932-972 | the eight status flags are bits 7 to 0 of the byte read |
| `IdeRegisters.ErrorsReported` | clicky-core/src/devices/generic/ide/mod.rs:447-768 | a command that does not end the run clears BSY, and is reported in ERR and the error register iff the drive does not know it |
| `IdeRegisters.DataAccessStatus` | clicky-core/src/devices/generic/ide/mod.rs:314-445 | moving data changes only DRQ and DRDY, when a sector is finished and when the last one is |
| `IdeRegisters.OpenedStatus` | clicky-core/src/devices/generic/ide/mod.rs:528-655 | status after a read and after a write command, all other registers unchanged |
| `IdeRegisters.ControlStatus` | clicky-core/src/devices/generic/ide/mod.rs:574-768 | status after each command without data |
| `IdeRegisters.ControlStored` | clicky-core/src/devices/generic/ide/mod.rs:1001-1006 | the device control register keeps the reset and the interrupt disable bit |
| `IdeRegisters.FeaturesConfigure` | clicky-core/src/devices/generic/ide/mod.rs:670-690 | SET FEATURES switches 8-bit transfers, takes the transfer mode from the sector count, and ends the run for any other sub-command |
| `IdeRegisters.MultipleConfigures` | clicky-core/src/devices/generic/ide/mod.rs:656-667 | SET MULTIPLE MODE takes blocks of no or one sector and ends the run for larger ones |
| `IdeRegisters.LetThroughExactly` | clicky-core/src/devices/generic/ide/mod.rs:495-655 | with a good address a transfer command ends the run iff it is a DMA command outside the DMA modes or a multiple one without blocks of one sector |
| `IdeDevice.IoBuf.Read8` | clicky-core/src/devices/generic/ide/mod.rs:126-130 | gives the byte at the cursor and moves it, or nothing at the end |
| `IdeDevice.IoBuf.Write8` | clicky-core/src/devices/generic/ide/mod.rs:132-137 | stores a byte at the cursor and moves it, or fails at the end |
| `IdeDevice.IdeDrive.DataRead8` | clicky-core/src/devices/generic/ide/mod.rs:314-377 | the object takes the drive's step, buffer, block device cursor and lines included |
| `IdeDevice.IdeDrive.DataWrite8` | clicky-core/src/devices/generic/ide/mod.rs:384-445 | the object takes the drive's step |
| `IdeDevice.IdeDrive.ExecCmd` | clicky-core/src/devices/generic/ide/mod.rs:447-768 | the object takes the step of every command |
| `IdeDevice.IdeController.Read8` | clicky-core/src/devices/generic/ide/mod.rs:932-972 | the controller object takes the controller's step |
| `IdeDevice.IdeController.Write8` | clicky-core/src/devices/generic/ide/mod.rs:975-1009 | the controller object takes the controller's step |
| `IdeDevice.IdeController.Read16` | clicky-core/src/devices/generic/ide/mod.rs:888-910 | the controller object takes the controller's step |
| `IdeDevice.IdeController.Write16` | clicky-core/src/devices/generic/ide/mod.rs:912-930 | the controller object takes the controller's step |
| `AtaCache.FirstWith` | resources/ipodloader2/ata2.c:357-369 | the lookup finds the first slot with the address, or there is none |
| `AtaCache.Victim` | resources/ipodloader2/ata2.c:376-382 | the slot to evict is the first with the least tick |
| `AtaCache.ReadBlockCorrect` | resources/ipodloader2/ata2.c:338-432 | with a cache that agrees with the disk, a read delivers the sector, hit or miss, stored or not, single or in pairs, and the cache still agrees |
| `AtaCache.RunDeliversDisk` | resources/ipodloader2/ata2.c:338-432 | every sequence of cached and uncached reads delivers, call by call, exactly the sectors |
| `AtaCache.AdvanceKeepsRecency` | resources/ipodloader2/ata2.c:365-366 | one read keeps ticks weakly monotone in last use, no positive tick on more than two slots, and unused slots at tick 0 |
| `AtaCache.RunKeepsRecency` | resources/ipodloader2/ata2.c:357-409 | so does every run shorter than the tick counter |
| `AtaCache.EvictsOldestButOneExactly` | resources/ipodloader2/ata2.c:376-382 | after any run from start-up, at most one slot was used longer ago than the one to be evicted iff slot 0 is unused or has a tick above 0 |
| `AtaCache.UniqueTickIsOldest` | resources/ipodloader2/ata2.c:376-382 | and if its tick is its own, none was |
| `AtaCache.WarmUpEvictsTheNewest` | resources/ipodloader2/ata2.c:176-179 | the state where it fails: after one kept read from start-up the only slot ever used is the next to go |
| `AtaDriver.Driver.WaitNotBusy` | resources/ipodloader2/ata2.c:396-396 | the spin on BSY ends at the first look |
| `AtaDriver.StatusBitsOf` | resources/ipodloader2/ata2.c:396-399 | the bits the driver tests are the drive's BSY, DRQ and ERR |
| `AtaDriver.Driver.IssueRead` | resources/ipodloader2/ata2.c:384-399 | programming a read ends any transfer left open and opens the read of exactly the addressed block, with DRQ set and BSY clear |
| `AtaDriver.Driver.TransferBlock` | resources/ipodloader2/ata2.c:225-239 | moves the whole pending block, word by word, to the destination and nothing else |
| `AtaDriver.Driver.FindSlot` | resources/ipodloader2/ata2.c:357-369 | the loop finds the slot the lookup finds |
| `AtaDriver.Driver.LeastTick` | resources/ipodloader2/ata2.c:376-380 | the loop finds the victim |
| `AtaDriver.Driver.MissStored` | resources/ipodloader2/ata2.c:376-409 | a kept miss fills the victim's slot with the block and delivers its half; the error path is not reached |
| `AtaDriver.Driver.MissDirect` | resources/ipodloader2/ata2.c:384-421 | an uncached miss delivers the same bytes past the cache |
| `AtaDriver.Driver.ReadBlock2` | resources/ipodloader2/ata2.c:338-432 | driving the emulated drive through its registers, each call delivers exactly the sector's 512 bytes and leaves the disk alone, the cache as specified and the driver ready for any further call |
| `AtaDriver.Driver.ReadBlocks` | resources/ipodloader2/ata2.c:438-458 | consecutive sectors arrive in order, cached or not |
| `AtaDriver.Driver.FindTransferMode` | resources/ipodloader2/ata2.c:249-283 | settles on type 0 and leaves an undrained sector pending, with which later reads are still right |
| `AtaDriver.Driver.Probe` | resources/ipodloader2/ata2.c:151-165 | finds the drive and changes only its registers |
| `AtaDriver.Driver.Init` | resources/ipodloader2/ata2.c:147-180 | finds the drive and leaves an empty cache with all ticks 0 |
| `AtaDriver.NarrowStaysCoherent` | resources/ipodloader2/ata2.c:273-277 | a cache filled in pairs still agrees with the disk when single sectors are read |
| `Lcd.CellBit` | clicky-core/src/devices/display/hd66753.rs:310-327 | each bit of a written cell: the bit twice RT places below it, around the corner, combined as LG says, and kept where the mask is set |
| `Lcd.PlainCell` | clicky-core/src/devices/display/hd66753.rs:310-327 | without rotation, operation and mask a data write stores the word |
| `Lcd.AcWalksOn` | clicky-core/src/devices/display/hd66753.rs:340-355 | counting up visits the shown words in reading order and returns to the first |
| `Lcd.AcWalksBack` | clicky-core/src/devices/display/hd66753.rs:340-355 | counting down visits them backwards iff the counter is not 0 |
| `Lcd.BackFromZero` | clicky-core/src/devices/display/hd66753.rs:340-355 | from 0 it lands in row 115 instead of the last row |
| `Lcd.Hd66753.W32` | clicky-core/src/devices/display/hd66753.rs:419-453 | the byte interface takes the device's step: latch, index register, data register |
| `Lcd.Hd66753.HandleDataWrite` | clicky-core/src/devices/display/hd66753.rs:194-366 | a data word takes the device's step for each of the registers; it changes one cell of the graphics RAM at most |
| `Lcd.RegisterWritten` | clicky-core/src/devices/display/hd66753.rs:194-309 | put together again, the fields of a register are the word written, as far as the register has bits, and no other register changes |
| `Lcd.EndsExactly` | clicky-core/src/devices/display/hd66753.rs:194-453 | exactly which byte writes end the emulation |
| `Lcd.FreshRegisters` | clicky-core/src/devices/display/hd66753.rs:120-135 | after reset only the number of lines is not zero |
| `Lcd.FrameAt` | clicky-core/src/devices/display/hd66753.rs:154-188 | pixel (8i+j, y) of the frame is two bits of the i-th word of row y from the left or right, through the palette |
| `Lcd.MirroredPixel` | clicky-core/src/devices/display/hd66753.rs:159-183 | with SGS and REV clear: word 20-i, pixel 7-j, inverted shade |
| `Lcd.PixelShown` | clicky-core/src/devices/display/hd66753.rs:154-188 | every frame pixel for both SGS and both REV settings, down to the two bits of the word and the four greys |
| `Lcd.FreshIsBlank` | clicky-core/src/devices/display/hd66753.rs:120-188 | a controller after reset shows 132 white rows |
| `Blitter.PackedPixel` | resources/ipodloader2/fb.c:263-269 | pixel j of a packed word is its j-th two bits from the top |
| `Blitter.LumaIsMean` | resources/ipodloader2/fb.c:92-100 | the brightness of a 5-6-5 pixel is the mean of its colours scaled to 8 bits, and its shade the upper two bits of that |
| `Blitter.Panel.FbInit` | resources/ipodloader2/fb.c:294-313 | the register writes of hardware version 5 leave SGS clear, 128 rows, decrement and plain writes |
| `Blitter.Panel.PackPixels` | resources/ipodloader2/fb.c:263-269 | the shift loop packs the shades of eight pixels |
| `Blitter.Panel.BlitRow` | resources/ipodloader2/fb.c:259-273 | one row of pixels lands in that row's words, right to left, and nowhere else |
| `Blitter.Panel.Bitblt` | resources/ipodloader2/fb.c:250-275 | every word of the rectangle holds its eight pixels; every other word is as before |
| `Blitter.DrawnIsShown` | clicky-core/src/devices/display/hd66753.rs:154-188 | what was drawn is what the frame shows: decrement, latch, packing and mirroring cancel out |
| `Blitter.Panel.DrawScreen` | resources/ipodloader2/fb.c:250-313 | from a fresh controller, initialisation and one 160x128 blit: rendered pixel (x, y) is the palette shade 3-(LUMA565(fb[y*160+x])>>6) |
| `Raster.AnyVertexOrder` | clicky-core/src/sys/eapp/rasterizer.rs:187-190 | coverage does not depend on the order of the vertices |
| `Raster.NoOverlap` | clicky-core/src/sys/eapp/rasterizer.rs:222-239 | the triangles on the two sides of a diagonal never cover the same point |
| `Raster.OnOpenEdge` | clicky-core/src/sys/eapp/rasterizer.rs:163-167 | a point of an open edge is covered iff the edge, seen from inside, is a top or left one |
| `Raster.EdgeInCoordinates` | clicky-core/src/sys/eapp/rasterizer.rs:163-239 | a point of an open edge is covered iff the triangle lies to the right of the edge, or below it if it is level |
| `Raster.InsideIsCovered` | clicky-core/src/sys/eapp/rasterizer.rs:222-239 | points inside a triangle are covered and points outside are not, whichever way it runs |
| `Raster.RectangleCovered` | clicky-core/src/sys/eapp/rasterizer.rs:222-239 | two triangles that make up a rectangle cover exactly left <= x < right and top <= y < bottom |
| `Raster.DiagonalCoveredOnce` | clicky-core/src/sys/eapp/rasterizer.rs:222-239 | every point of the open diagonal is covered by exactly one of the two triangles |
| `Raster.CoveredInHull` | clicky-core/src/sys/eapp/rasterizer.rs:192-215 | a covered point lies in the bounding box |
| `Raster.ScanMissesNothing` | clicky-core/src/sys/eapp/rasterizer.rs:192-228 | the clipped box holds every covered pixel of the framebuffer |
| `Raster.ScanStaysInside` | clicky-core/src/sys/eapp/rasterizer.rs:192-228 | and no pixel outside it |
| `Blend.AlphaGrows` | clicky-core/src/sys/eapp/rasterizer.rs:138-145 | the composited alpha is a byte, at least both alphas, 255 if either is, 0 only if both are |
| `Blend.NeverFades` | clicky-core/src/sys/eapp/rasterizer.rs:138-157 | compositing never makes a pixel less opaque |
| `Blend.OpaqueSourceWins` | clicky-core/src/sys/eapp/rasterizer.rs:138-157 | an opaque source replaces the pixel |
| `Blend.TransparentSourceLoses` | clicky-core/src/sys/eapp/rasterizer.rs:138-157 | a fully transparent source leaves a pixel with any alpha as it is |
| `Blend.OverNothing` | clicky-core/src/sys/eapp/rasterizer.rs:138-157 | over a fully transparent pixel a source with any alpha is taken as it is, and one without leaves nothing |
| `Blend.CompositeIsMean` | clicky-core/src/sys/eapp/rasterizer.rs:138-157 | for all alphas: the new alpha is the nearest to the sum of the two weights, and each of red, green and blue, before it is cut to a byte, is the mean of the source's and the destination's with those weights, to within the rounding |
| `Blend.TintIsNearest` | clicky-core/src/sys/eapp/rasterizer.rs:169-177 | tinting gives the nearest byte to the product of two fractions of 255, never more than either |
| `Blend.TintEachChannel` | clicky-core/src/sys/eapp/rasterizer.rs:169-177 | tinting takes each channel times its own |
| `Blend.FaithfulKeeps` | clicky-core/src/sys/eapp/rasterizer.rs:146-150 | for faithful alphas a colour over itself stays that colour |
| `Blend.BetweenExactlyWhenFaithful` | clicky-core/src/sys/eapp/rasterizer.rs:146-150 | for given alphas, every channel lies between its inputs iff the alphas pass a closed test on their remainder mod 255 |
| `Blend.FitsExactly` | clicky-core/src/sys/eapp/rasterizer.rs:146-150 | for given alphas, no channel exceeds 255 iff they pass the upper half of that test |
| `Blend.FaithfulCases` | clicky-core/src/sys/eapp/rasterizer.rs:138-150 | an opaque destination, and a source with some alpha over a transparent one, always pass |
| `Blend.WhiteTurnsBlack` | clicky-core/src/sys/eapp/rasterizer.rs:146-156 | alpha 1 over alpha 128, both white, computes 256 and stores black |
| `Blend.OverOpaque` | clicky-core/src/sys/eapp/rasterizer.rs:138-157 | over an opaque pixel the result is opaque and each channel between the two |
| `Painter.PaintCell` | clicky-core/src/sys/eapp/rasterizer.rs:228-251 | one pixel of the scan: painted and counted iff covered |
| `Painter.RasterizeTriangle` | clicky-core/src/sys/eapp/rasterizer.rs:179-255 | scanning the clipped box paints what testing every pixel of the framebuffer paints, and returns the number of covered pixels |
| `Painter.MixReproducesAffine` | clicky-core/src/sys/eapp/rasterizer.rs:243-248 | barycentric interpolation reproduces every affine map of the plane |
| `Painter.SourceFollowsMap` | clicky-core/src/sys/eapp/rasterizer.rs:243-249 | so the colour of a covered pixel depends on the texture map, not on the triangle |
| `Painter.BlendedOnce` | clicky-core/src/sys/eapp/rasterizer.rs:305-326 | painting both triangles of a proper quad composites a pixel at most once |
| `Painter.CountTwo` | clicky-core/src/sys/eapp/rasterizer.rs:324-325 | the covered pixels of the two triangles add up to those of a proper quad |
| `Painter.QuadFollowsMap` | clicky-core/src/sys/eapp/rasterizer.rs:305-326 | a quad with one texture map has no seam along its diagonal |
| `Painter.RasterizeQuad` | clicky-core/src/sys/eapp/rasterizer.rs:305-326 | each pixel is painted as specified, and for a proper quad the coverage returned is the number of distinct pixels touched |
| `Painter.TexelUnder` | clicky-core/src/sys/eapp/rasterizer.rs:128-136 | sampling gives the texel the coordinates fall on, row by row, the border texels going on outwards |
| `Painter.RectanglePainted` | clicky-core/src/sys/eapp/rasterizer.rs:305-326 | a textured rectangle composites exactly the pixels whose centres lie in it, each with the tinted texel at its place |
| `Painter.SpriteIsCopied` | clicky-core/src/sys/eapp/rasterizer.rs:305-326 | drawn at its own size, at whole coordinates and untinted, a texture lands texel by texel, opaque ones as they are |
| `Painter.AlphaNeverFalls` | clicky-core/src/sys/eapp/rasterizer.rs:226-251 | over any sequence of draws a pixel's alpha never falls, so opaque pixels stay opaque |
| `Names.LexFlip` | resources/ipodloader2/macpartitions.cc:185-188 | the name order is antisymmetric |
| `Names.LexTransitive` | resources/ipodloader2/macpartitions.cc:185-188 | the name order is transitive, strictly where one step is strict |
| `Names.CompareNames` | resources/ipodloader2/macpartitions.cc:185-188 | the comparison loop decides the lexicographic order of the folded names without ignorable characters, and finds them equal iff their letters are the same |
| `Names.EqualExactly` | resources/ipodloader2/macpartitions.cc:185-188 | names compare as equal iff, without the sixteen ignorable characters, they have one length and agree place by place: the same character, an upper and lower case pair of A to Z, AE, Eth, O with stroke or Thorn, or the null character and the last one |
| `Names.SkippedAnywhere` | resources/ipodloader2/macpartitions.cc:185-188 | an ignorable character can be inserted anywhere without changing a comparison |
| `Names.FirstDifference` | resources/ipodloader2/macpartitions.cc:185-188 | where names first differ the letters there decide, by number, upper case as lower case |
| `Names.ShorterFirst` | resources/ipodloader2/macpartitions.cc:185-188 | a name comes before one that goes on |
| `Names.NullIsLast` | resources/ipodloader2/macpartitions.cc:185-188 | the null character comes behind every other but the last |
| `BTree.CompareIsOrder` | resources/ipodloader2/macpartitions.cc:313-320 | the key comparison has the right sign iff the parents are less than 2^31 apart, and is 0 iff the keys are equal |
| `BTree.SameKey` | resources/ipodloader2/macpartitions.cc:313-320 | keys are equal iff they have one parent and names of the same letters |
| `BTree.SearchLeafNode` | resources/ipodloader2/macpartitions.cc:332-346 | the leaf loop stops where the specified search does |
| `BTree.LeafSound` | resources/ipodloader2/macpartitions.cc:332-346 | what a leaf search finds is equal to the key |
| `BTree.LeafFindsExactly` | resources/ipodloader2/macpartitions.cc:332-346 | a sorted leaf gives up a key it holds iff the first record's parent is less than 2^31 below it |
| `BTree.LeafCanMiss` | resources/ipodloader2/macpartitions.cc:313-346 | a concrete leaf in which a present record is missed |
| `BTree.SearchIndexNode` | resources/ipodloader2/macpartitions.cc:348-362 | the index loop, on any node, ends at the child the specified scan ends at, and at none for an empty node |
| `BTree.IndexFindsExactly` | resources/ipodloader2/macpartitions.cc:348-362 | in a sorted index node the scan ends at the child the key belongs to iff the first separator is not 2^31 or more below the key (unless that is the first child) and the separator that should stop the scan is not more than 2^31 above it |
| `BTree.DescentLosesNothing` | resources/ipodloader2/macpartitions.cc:348-379 | the subtree descended to holds the key iff the tree does |
| `BTree.DescentAnswers` | resources/ipodloader2/macpartitions.cc:348-379 | a node holds the key with every scan below going right iff that is so of the child the scan ends at, whether or not it is the right one |
| `BTree.NearReaches` | resources/ipodloader2/macpartitions.cc:348-379 | parents less than 2^31 from the key's are enough for every scan to go right |
| `BTree.OneRecordPerKey` | resources/ipodloader2/macpartitions.cc:364-384 | a well-formed tree is a map |
| `BTree.HoldsByName` | resources/ipodloader2/macpartitions.cc:313-384 | so what the catalog holds under a key is told from parent and letters |
| `BTree.Catalog.GetNode` | resources/ipodloader2/macpartitions.cc:264-293 | loads a node, or keeps the one in the buffer, and fails exactly while a node is open |
| `BTree.Catalog.SearchNode` | resources/ipodloader2/macpartitions.cc:364-379 | ends on every finite well-formed tree, finds the one record of the key iff the subtree holds it and every scan on its way goes right, never opens a second node, and leaves the record in the buffer |
| `BTree.Catalog.FindKey` | resources/ipodloader2/macpartitions.cc:381-384 | the same from the root; with every parent less than 2^31 from the key's, it finds a record iff there is one of that parent and those letters |
| `Storage.Load` | resources/ipodloader2/ata2.c:438-458 | sectors arrive byte by byte as on the disk |
| `Ext2.ThroughAt` | resources/ipodloader2/ext2.c:51-64 | entry (i, j) of the doubly indirect map is pointer j of the i-th indirect block |
| `Ext2.MapFollowsLayout` | resources/ipodloader2/ext2.c:41-71 | the block mapping is the flattened layout of the file for every block below 12 + n^2 |
| `Ext2.ServedExactly` | resources/ipodloader2/ext2.c:47-68 | a block of the layout is served iff its number is below 12 + n^2; the last n blocks of the doubly indirect map are not |
| `Ext2Image.MapDecodes` | resources/ipodloader2/ext2.c:41-71 | if the blocks of a file are written into inode and indirect blocks byte by byte, lowest byte first, the mapping gives them back, below 12 + n^2 |
| `Ext2Image.ReadDecodes` | resources/ipodloader2/ext2.c:41-71 | and every byte read is the byte of the file's own block at its place on the disk |
| `Ext2Image.FilledDecodes` | resources/ipodloader2/ext2.c:74-118 | the same for a range |
| `Ext2.ReadsFileExactly` | resources/ipodloader2/ext2.c:41-71 | every byte served equals the file's, where holes are zeros, iff its block is in no hole or the byte found by way of block 0 is 0 |
| `Ext2.HoleIsReadAsBlockZero` | resources/ipodloader2/ext2.c:41-71 | a concrete file with a hole whose first byte is 0 and is read as 1 |
| `Ext2.FileExactly` | resources/ipodloader2/ext2.c:74-118 | what was read of a range is the file iff every byte of it is read right, so always when it has no hole |
| `Ext2Reader.Reader.GetBlock` | resources/ipodloader2/ext2.c:144-148 | a block arrives as on the disk, and its sector number does not wrap |
| `Ext2Reader.Reader.FindBlock` | resources/ipodloader2/ext2.c:41-68 | reading the indirect blocks gives the mapping, and so the block numbers that were written into them |
| `Ext2Reader.Reader.ReadDatablock` | resources/ipodloader2/ext2.c:41-71 | delivers the mapped block iff there is one |
| `Ext2Reader.Reader.ReadData` | resources/ipodloader2/ext2.c:74-118 | writes exactly the bytes off to off+size as the mapping gives them, through all three maps: those of the blocks written into the maps, and those of the sparse file iff each is read right; ends the loader iff a block it looks at is not served; the count returned is cut to 16 bits |
| `Ext2Reader.PositionStaysInside` | resources/ipodloader2/ext2.c:257-307 | over any run of seeks and reads the position stays within the file |
| `Ext2Reader.PiecesMakeOneRead` | resources/ipodloader2/ext2.c:291-307 | however a read is cut into calls, the pieces laid end to end are one large read, up to the end of the file, and so is the position |
| `Ext2Reader.SeekExactly` | resources/ipodloader2/ext2.c:257-281 | a seek succeeds iff the target is in the file and a signed 32-bit number, else the position stays |
| `Storage.WholeItems` | resources/ipodloader2/ext2.c:291-307 | bytes wanted and items counted, as long as the product fits 32 bits |
| `Ext2Reader.File.SeekTo` | resources/ipodloader2/ext2.c:257-281 | the new position and the code returned |
| `Ext2Reader.File.ReadItems` | resources/ipodloader2/ext2.c:291-307 | reads up to the end of the file, moves the position by what it read and returns whole items; needs only the blocks of the range read on the disk |
| `Ext2Reader.File.Perform` | resources/ipodloader2/ext2.c:257-307 | one seek or read of a client: what it delivers and where it leaves the position, and the loader goes on iff its blocks are served |
| `Ext2Reader.File.PerformAll` | resources/ipodloader2/ext2.c:257-307 | a run of them: the file object follows the specified position, and what the reads deliver lies end to end |
| `Ext2Reader.File.ReadInPieces` | resources/ipodloader2/ext2.c:291-307 | a read cut into calls of any sizes leaves the bytes of one large read, and they are the file iff each of them is read right |
| `HfsPlus.ClusterAt` | resources/ipodloader2/macpartitions.cc:414-422 | cluster m of extent i is where the flattened extents have it |
| `HfsPlus.ExtentByte` | resources/ipodloader2/macpartitions.cc:414-422 | byte x of an extent lies x bytes behind the start of its first cluster, counted in whole clusters from the start of the volume |
| `HfsPlus.RestOfExtent` | resources/ipodloader2/macpartitions.cc:414-431 | from any position the rest of its extent is one piece of the disk that ends with a sector |
| `HfsPlus.NextPiece` | resources/ipodloader2/macpartitions.cc:574-600 | taking the rest of a sector never takes more than the extent has, and leaves a piece |
| `HfsPlus.ClampExactly` | resources/ipodloader2/macpartitions.cc:565-569 | the end of the file is respected iff the request fits or starts at 0 |
| `HfsReader.Reader.GetExtent` | resources/ipodloader2/macpartitions.cc:414-431 | the extent loop gives disk sector, offset and bytes left for every allocated position, and runs off the table for no other |
| `HfsReader.Reader.ReadSectorPart` | resources/ipodloader2/macpartitions.cc:575-593 | bounce buffer and direct path deliver the same bytes |
| `HfsReader.Reader.ReadRange` | resources/ipodloader2/macpartitions.cc:571-602 | both loops end, the bytes left in an extent never underflow, and the range equals the flattened extents |
| `HfsReader.File.SeekTo` | resources/ipodloader2/macpartitions.cc:614-640 | moves the position iff the target is in the file |
| `HfsReader.File.ReadItems` | resources/ipodloader2/macpartitions.cc:560-606 | delivers that many bytes of the flattened extents from the position on and moves it by them |
| `Signal.StepKeepsInv` | clicky-core/src/signal/mod.rs:118-158 | in no interleaving of atomic steps does an internal assertion fail; every matching level change is reported, dropped, waiting in the trigger or in flight, and in one of these only |
| `Signal.RunKeepsInv` | clicky-core/src/signal/mod.rs:51-158 | the same over every run of any number of lines that share a trigger |
| `Signal.LevelFollowsLastCall` | clicky-core/src/signal/mod.rs:107-158 | with no call in flight a line's level is its own flag, which is what the last call asked for |
| `Signal.HistoryIsLevels` | clicky-core/src/signal/mod.rs:51-74 | the changes counted are the matching level changes the slaves see |
| `Signal.NothingLost` | clicky-core/src/signal/mod.rs:82-85 | a check that answers no has nothing unreported; with no call in flight a check accounts for every matching change so far |
| `Signal.NothingInvented` | clicky-core/src/signal/mod.rs:82-85 | a check answers yes iff a matching change was announced since the last one, and then the level changed since, unless a change was in flight at the last one |
| `Signal.InFlightAnswersYes` | clicky-core/src/signal/mod.rs:82-85 | with a change in flight at a check there is a run after which the next check answers yes without any change of level in between |
| `Signal.YesMeansChangeExactly` | clicky-core/src/signal/mod.rs:82-85 | so yes always means a change since the last check iff nothing was in flight at that one |
| `Signal.ReportsAreChanges` | clicky-core/src/signal/mod.rs:51-85 | over every run, checks answer yes at most as often as the level changed |
| `Signal.CallAnswers` | clicky-core/src/signal/mod.rs:51-158 | a whole call sets a Hi trigger iff the line goes up, a Lo trigger iff it goes down, and an Edge trigger iff it changes |
| `Signal.TwoDriversOverlap` | clicky-core/src/signal/mod.rs:129-158 | two calls on one line at once can leave it high after a clear |
| `Signal.Master.Assert` | clicky-core/src/signal/mod.rs:129-142 | an uninterrupted call is the run of its steps, its assertion holds, and it fires the trigger as the kind says |
| `Signal.Master.Clear` | clicky-core/src/signal/mod.rs:145-158 | likewise |
| `Signal.OneClearForAll` | clicky-core/src/signal/mod.rs:113-125 | a case: after two clones assert, one clear makes the line low |
| `Signal.PromiseKeptExactly` | clicky-core/src/signal/mod.rs:107-158 | over every interleaved run, with no call in flight on a line: it is high iff some holder wants it high, iff the last call asked for high or no other holder still wants it |
| `Signal.CallKeepsPromiseExactly` | clicky-core/src/signal/mod.rs:113-158 | the same for one uninterrupted call of one holder |
| `GlTrace.GroupsKeepCalls` | clicky-core/src/sys/eapp/gl_trace.rs:150-166 | the groups laid end to end are the calls |
| `GlTrace.GroupsAreMaximal` | clicky-core/src/sys/eapp/gl_trace.rs:150-158 | neighbouring groups have different frame numbers |
| `GlTrace.ExpandDecodes` | clicky-core/src/sys/eapp/gl_trace.rs:186-213 | expanding a code by its repeat counts gives the signatures of all groups in order |
| `GlTrace.TightIsUnique` | clicky-core/src/sys/eapp/gl_trace.rs:186-213 | a code whose neighbours differ is the only one |
| `GlTrace.LosslessWithoutCollisions` | clicky-core/src/sys/eapp/gl_trace.rs:186-213 | without signature collisions the stored records give back every frame |
| `GlTrace.FixtureIsTheCode` | clicky-core/src/sys/eapp/gl_trace.rs:150-213 | for every stream of calls the finalized frames code its maximal same-frame groups, neighbours differ in signature, first and last frame bracket each run, and numbers go up |
| `GlTrace.NumbersGoUp` | clicky-core/src/sys/eapp/gl_trace.rs:160-163 | stored sequence numbers strictly increase within and across frames |
| `GlTrace.Recorder.FlushCurrentFrame` | clicky-core/src/sys/eapp/gl_trace.rs:186-213 | the object takes the recorder's step |
| `GlTrace.Recorder.CaptureRecord` | clicky-core/src/sys/eapp/gl_trace.rs:150-165 | the object takes the recorder's step |
| `GlTrace.Recorder.Finalize` | clicky-core/src/sys/eapp/gl_trace.rs:166-180 | the frames handed over are those after one last flush |
| `Textures.SelectsExactly` | clicky-core/src/sys/eapp/live_gl.rs:825-841 | nothing is selected iff no decoded upload has the span's size or holds the largest coordinates; what is selected does one or the other |
| `Textures.SelectsInNumbers` | clicky-core/src/sys/eapp/live_gl.rs:825-841 | the same in the coordinates: sizes to the nearest texel of the span, or at least the largest coordinates |
| `Textures.NamedFirst` | clicky-core/src/sys/eapp/live_gl.rs:718-747 | if an upload of the handle's name suits the draw, one of that name is chosen |
| `Textures.StateNeverDecides` | clicky-core/src/sys/eapp/live_gl.rs:828-838 | the state-pointer fallback never changes the outcome |
| `Textures.SmallestIsSmallest` | clicky-core/src/sys/eapp/live_gl.rs:772-780 | the containing stage returns the least width times height, ties to the lowest index |
| `Textures.NameWins` | clicky-core/src/sys/eapp/live_gl.rs:662-698 | the latest upload of the name wins if it is large enough |
| `Textures.ExactSizeBeforeLargeEnough` | clicky-core/src/sys/eapp/live_gl.rs:650-717 | without one of that name the first of exactly the span's size wins |
| `Textures.TextSelectsExactly` | clicky-core/src/sys/eapp/live_gl.rs:825-827 | for generated coordinates nothing is selected iff nothing decoded holds them |
| `Textures.TextPrefersAtlas` | clicky-core/src/sys/eapp/live_gl.rs:749-770 | generated text goes to the smallest font atlas, a grid of cells one texel larger than the span with at least 32 to the row, if there is one |
| `Memory.WordIsFourBytes` | resources/ipodloader2/minilibc.c:546-550 | between equally aligned pointers a word copy is four byte copies, whatever the overlap |
| `Memory.ForwardMoves` | resources/ipodloader2/minilibc.c:525-560 | a destination not inside the source and above it ends up with the original source bytes, all else unchanged |
| `Memory.RightExactly` | resources/ipodloader2/minilibc.c:525-560 | the upward copy is a move on every memory iff that holds |
| `Memory.MemCopy` | resources/ipodloader2/minilibc.c:525-560 | the word-wise copy equals the byte-wise one; the count wraps iff the pointers are equally unaligned and it ends before the next word boundary |
| `Numbers.FewDigits` | resources/ipodloader2/minilibc.c:222-236 | a 32-bit number has at most eleven digits in radix 8 and above |
| `Numbers.DigitsDecode` | resources/ipodloader2/minilibc.c:222-236 | in every radix and either case the digits stand for the number |
| `Numbers.DigitsInCase` | resources/ipodloader2/minilibc.c:222-236 | capitals selects A to F, otherwise a to f |
| `Numbers.WriteDigits` | resources/ipodloader2/minilibc.c:222-236 | the backwards loop leaves the digits in the buffer and its pointer never leaves it |
| `Numbers.Emit` | resources/ipodloader2/minilibc.c:250-292 | sign, padding and digits in the right order, and as many characters as the larger of width and natural length |
| `Numbers.LayoutInCharacters` | resources/ipodloader2/minilibc.c:250-292 | the layout in characters: minus sign, digits, spaces or zeros |
| `Numbers.PrintDecimal` | resources/ipodloader2/minilibc.c:193-292 | the conversion of every 32-bit number, the least one included |
| `Numbers.PlainFormat` | resources/ipodloader2/minilibc.c:193-292 | unpadded: the decimal digits, no leading zero, behind a minus sign iff the number is negative |
| `Numbers.Atoi` | resources/ipodloader2/minilibc.c:613-625 | the parser gives the number at the start of the string, cut to 32 bits |
| `Numbers.SignedRead` | resources/ipodloader2/minilibc.c:613-625 | a plus, a minus or no sign, then decimal digits as far as they go, in place value, cut to 32 bits |
| `Numbers.RoundTripExactly` | resources/ipodloader2/minilibc.c:193-625 | printing and parsing give the number back iff no spaces precede it or it is 0 |

## Left out

- AtaDriver.Driver.Init: leaves out the interrupt and timing registers that start-up writes first; they belong to the host chip, not to the drive.
- AtaDriver.Driver.OutByte: is stated for register writes whose result does not end the emulation; every caller proves that of its write.
- Ext2Reader.Reader.ReadData: needs off + size below 2^32, which every read of an open file satisfies.
- HfsReader.Reader.ReadRange: needs extents that cover the range and an allocation below 4 GiB; beyond that the code reads past its extent table.
- GlTrace.FixtureIsTheCode: needs fewer than 2^64 - 1 calls, where the sequence number would wrap and the repeat count saturate.
- AtaCache.RunKeepsRecency: needs fewer than 2^32 reads, where the tick counter would wrap; so does AtaCache.EvictsOldestButOneExactly.
- IDE: the calls that look at or clear an interrupt from outside the registers, CHS addressing beyond its rejection, multiple-sector counts above 1, attaching and detaching drives during a run, the contents of the identify block (a parameter), and disk I/O errors other than as the end of a run.
- ATA driver: the identify and standby commands, and failing disks (the error path is shown unreachable on this drive).
- LCD: reading back from the controller, vertical entry modes (they end the run), drawing the cursor, heights above 132 rows, the busy wait (the emulated controller is never busy), and the other hardware versions of the initialisation.
- Rasterizer: rounding of 32-bit floats, pixel format decoding, solid quads, presentation and hashing.
- HFS+: byte layout of B-tree nodes, finding a node beyond the first extent of the catalog, splitting a path into names, and two mounted volumes sharing one node buffer. The tree is assumed sorted by the loader's own name order, which treats characters above 0xff without case folding.
- ext2: the superblock and group tables, directories and path lookup; the block map of the inode is a parameter.
- FAT32, the firmware file system, partition tables and the virtual file system layer.
- Signals: debug output, and the GPIO and interrupt wrappers.
- Textures: draws without texture coordinates, which take the latest upload of the handle's name.
- GL: the content of signatures (an arbitrary function of the recorded calls), draw submission and vertex decoding.
- Printing: parsing of format strings, `%c` and `%s`; width, flags and value are parameters.
- Memory copy: what the run-away copy does to memory after its count has wrapped.
- ARM CPU execution, memory and interrupt controllers, DMA engines, GDB, desktop and web front ends, menus, fonts and firmware tools.
