# Turb-OS in Dafny

A model of the parts of Turb-OS that do algorithmic work, with proofs of what
they promise. `dafny verify dfyconfig.toml` checks everything.

- **DEFLATE decoder** (`BitReverse`, `HuffmanSpec`, `Huffman`, `Deflate`, `Inflate`,
  `ReservedSymbols`; `StreamReading`, `DeflateTables`, `SampleStreams`,
  `DynamicSample`). `Deflate` is a bit-level reference decoder written from section 3.2
  of RFC 1951, with two rules for the symbols reserved there: strict and lenient.
  `DeflateTables` proves the laws of its tables and of the fixed code, and the sample
  streams are decoded to their bytes, block kind by block kind. `Huffman` and `Inflate`
  follow `ssfn.h`: table construction, the nine-bit fast table and the search by length,
  the 32-bit bit buffer, and the in-place copies. The decoder is proved to agree with
  the lenient reference on every input, and the lenient reference with the strict one on
  every stream without reserved symbols.
- **Physical frames** (`Bitmap`, `FrameAllocator`, `LostFrames`). The byte-packed bitmap
  refines a set of frame numbers; the allocator keeps a ledger of counters, handed-out
  ranges and reserved frames balanced over every alloc and free.
- **Page maps** (`PageEntries`, `PageTables`, `VirtualMemory`, `HardwareWalk`). Tables
  live in the frames of the allocator. A table is named by its path of indices, so that
  a map is a tree when no two paths reach the same frame; several maps may share what
  hangs from equal top-level entries. Mapping, unmapping, remapping and cloning are
  proved to change exactly the translations they should, in every map. `HardwareWalk` is
  the walk of the processor, with its permissions, by plain arithmetic on addresses and
  words; what is proved of translations is proved of it.
- **Heap** (`Words`, `Rounding`, `HeapBlocks`, `HeapWalk`, `HeapReach`, `Heap`,
  `HeapRuns`). Byte memory with headers in it. The headers tile the heap with
  power-of-two blocks; splitting and merging never touch a block in use. `HeapWalk`
  describes the two walks over the blocks; `HeapReach` says for every tiling what they
  find and what they leave.
- **Boot loader installer** (`Crc32`, `DiskCache`, `Installer`, `GptEmbedding`,
  `GptHeaders`). The one-block write-back cache refines a flat device; on top of it the
  MBR install and the GPT embedding are described byte by byte, up to `main` as a whole;
  the table-driven CRC-32 is the bit-serial one. `GptHeaders` lays out a header field by
  field as in section 5.3.2 of the UEFI Specification and says by those fields what an
  install reads and writes.
- **Scheduler** (`Scheduler`). Any number of CPUs, one switch under the lock as one
  step, the history of saved registers as a trace. The thread a switch chooses is stated
  by positions in the thread lists and the process table.
- **Strings and formatted output** (`Strings`, `Printf`, `PrintedIntegers`,
  `Directives`, `Conversions`). `PrintedIntegers` says what the text of an integer
  stands for, `Directives` what a conversion in a format asks for, and `Conversions`
  joins them: the text of every conversion.

Conventions. `nat` stands for unsigned machine words, with wrap-around written out
where the source relies on it or suffers from it. `hide` statements at the start of
a proof only keep definitions from the solver. Ghost parameters name what a pointer
points into. Fields and methods carry the names of the source in Dafny's spelling.

What the proofs showed about the code:

- `pMemory::alloc` misses a free run that straddles its cursor
  (`LostFrames.StraddlingRunMissed`, reached from `init` in `LostFrames.LosePair`), and
  the bitmap is too small when one to seven frames are left over after full pages of
  bitmap (`FrameAllocator.BitmapCovers`, `FrameAllocator.BitmapTooSmall`).
- `PDEntry::getFlag` answers for every flag whether the entry is present
  (`PageEntries.GetFlagTestsPresent`, `PageEntries.WritableMisread`).
- `Heap::required_size` never ends for requests between 2^63 - 15 and 2^64 - 32 bytes
  and gives 16 bytes for the 31 largest ones (`Heap.NeverLargeEnough`,
  `Heap.RequiredSize`).
- `Heap::find_best` can overlook a free block at the end of the heap
  (`HeapWalk.LastBlockMissed`, reached in `HeapRuns.LoseLast`). It overlooks no other:
  both searches of `malloc` fail if and only if, in the layouts they walk, every free
  block that is large enough is the last one and the walk comes to it with nothing left
  to pair it with (`HeapReach.BestExact`, `HeapReach.SearchedFails`,
  `HeapReach.InnerBlockServes`).
- `Heap::coalescence` can leave equal free neighbours unmerged
  (`HeapWalk.NeighboursLeft`, reached in `HeapRuns.LeaveNeighbours`), exactly those that
  no pass meets as a pair (`HeapReach.PassIdle`, `HeapReach.CoalescedSettled`).
- `Heap::realloc` copies up to the size of the old block, header included. When more
  bytes are asked for than the old payload has, it reads behind the old block: as many
  bytes as are asked for beyond the payload, up to 16 (`Heap.OverRead`,
  `Heap.OverReadCase`, `HeapRuns.OverReadRun`).
- Unblocking a thread that a CPU still has breaks the scheduler
  (`Scheduler.UnblockRace`).
- The installer's first half runs past the image when stage 2 is shorter than a sector,
  and its 16-bit sizes are wrong from 255 sectors on (`Installer.FirstHalfFits`,
  `Installer.FirstHalfTooLong`, `Installer.SizesCover`, `Installer.SizeLost`).
- Both GPT headers get the checksum of the primary array. For the backup array it is
  right if and only if both shrunk arrays have the same checksum, so never where their
  used entries differ, but only within four bytes in a row (`GptEmbedding.BackupSound`,
  `GptEmbedding.BackupWrong`, `GptEmbedding.BackupWrongCase`).
- The minus sign of `%d` is lost when the precision reaches 32 or zeros pad it to more
  than 32 characters (`PrintedIntegers.SignShown`, `Directives.SignLost`); zero padding
  and precision end at 32 characters (`PrintedIntegers.WidthKept`,
  `PrintedIntegers.PrecisionKept`); binary output keeps only 32 digits
  (`Printf.DigitsExact`, `PrintedIntegers.BinaryCut`).
- The inflater accepts the symbols that RFC 1951 reserves: a reserved length appends
  nothing, a reserved distance appends what already lies in the output buffer, and the
  decoding goes on (`Inflate.Decoder.ParseZlib` for every stream,
  `ReservedSymbols.DecodeReserved` for one).

## Model

| member | source | states |
|---|---|---|
| `BitReverse.BitReverse16Correct` | src/ssfn.h:467-474 | The four mask-and-shift stages reverse exactly the low 16 digits of any word, as the independent digit-by-digit reversal does |
| `BitReverse.BitReverseNCorrect` | src/ssfn.h:476-479 | Reversal of the low `bits` digits, for every width from 0 to 16 |
| `HuffmanSpec.KraftAtEveryLength` | src/ssfn.h:491-505 | Kraft's inequality over all symbols holds exactly when no single length runs out of codes |
| `HuffmanSpec.MatchUnique` | src/ssfn.h:495-505 | Canonical codes are prefix free: no bit window starts with the codes of two symbols |
| `Huffman.CountSizes` | src/ssfn.h:486-490 | The counts per length are those of the code lengths, with length 0 not counted |
| `Huffman.AssignCodes` | src/ssfn.h:494-506 | The loop over lengths succeeds exactly when every length has room, and then holds first codes, first symbols and left-aligned limits of the canonical code |
| `Huffman.FillFast` | src/ssfn.h:515-519 | Exactly the nine-bit indices that start with the code get the entry, all others keep theirs |
| `Huffman.EnterSymbol` | src/ssfn.h:508-521 | One symbol gets its row and fast entries; the rows and entries of earlier symbols stay |
| `Huffman.EnterSymbols` | src/ssfn.h:507-523 | After the symbol loop the tables represent the whole canonical code |
| `Huffman.BuildHuffman` | src/ssfn.h:481-525 | Succeeds if and only if the code lengths satisfy Kraft's inequality, and then the tables represent the canonical code of section 3.2.2 of RFC 1951 |
| `Huffman.FastHit` | src/ssfn.h:581-586 | A non-zero fast entry is the unique symbol whose code starts the window, with its length; a zero entry means no code of at most nine bits does |
| `Huffman.MatchBetweenLimits` | src/ssfn.h:566-571 | A window between the limits of two consecutive lengths starts with a code of the longer one, at the computed index |
| `Huffman.NoShortMatch` | src/ssfn.h:567-569 | A window that no code of at most l bits starts lies at or above the limit of l |
| `Huffman.NoMatchAboveLimits` | src/ssfn.h:567-570 | Past the last limit no code starts the window |
| `Inflate.SearchLength` | src/ssfn.h:566-570 | The search finds the first length from ten on whose limit exceeds the window |
| `Inflate.Decoder.FillBits` | src/ssfn.h:545-551 | Refilling the 32-bit buffer changes neither the position nor the bits ahead; it fails only near the end of the input |
| `Inflate.Decoder.Receive` | src/ssfn.h:553-561 | Returns the next n-bit data element of the stream and moves on by n bits |
| `Inflate.Decoder.DecodeSlowPath` | src/ssfn.h:563-575 | Returns the symbol the reference reads and consumes exactly its code, or -1 where no code matches |
| `Inflate.Decoder.Decode` | src/ssfn.h:577-589 | Fast table plus slow path read exactly the reference symbol, for every position and every represented code |
| `Inflate.Decoder.CopyRun` | src/ssfn.h:656-658 | The shortcut for distance 1 appends what the general overlapping copy appends, and writes nothing behind it |
| `Inflate.Decoder.CopyBytes` | src/ssfn.h:659-661 | The in-place forward copy appends the self-overlapping back reference and writes nothing behind it; for distance 0 it changes no byte |
| `Inflate.Decoder.Copy` | src/ssfn.h:655-661 | Both branches extend the output as the reference does, for distance 0 by what lies in the buffer, and leave the buffer behind it as it was at the start |
| `Inflate.Decoder.MatchLength` | src/ssfn.h:643-645 | Base and extra bits give the reference length, for the reserved symbols 286 and 287 the lenient one (0), which never fails |
| `Inflate.Decoder.MatchDistance` | src/ssfn.h:646-649 | Symbol, base and extra bits give the reference distance, for the reserved symbols 30 and 31 the lenient one (0) |
| `Inflate.Decoder.ParseMatch` | src/ssfn.h:643-661 | For every symbol from 257 to 287 and every distance the match is accepted or rejected as in the lenient reference, with its output and position |
| `Inflate.Decoder.ParseHuffmanBlock` | src/ssfn.h:624-664 | A compressed block agrees with the lenient reference on output and position, for every input, reserved symbols included |
| `Inflate.Decoder.ReceiveCodeLengthSizes` | src/ssfn.h:679-683 | The code length sizes arrive in transmission order |
| `Inflate.Decoder.ReceiveRun` | src/ssfn.h:693-702 | Fill value and count of a repeat symbol are the reference ones |
| `Inflate.Decoder.ExpandLengths` | src/ssfn.h:686-708 | The run-length-coded lengths expand to the reference lengths, with the same rejections |
| `Inflate.Decoder.ParseHeader` | src/ssfn.h:674-684 | Counts and code length table of a dynamic block are the reference ones |
| `Inflate.Decoder.ComputeHuffmanCodes` | src/ssfn.h:666-712 | Both tables represent the codes that the reference reads from a dynamic block, or the block is rejected as there |
| `Inflate.Decoder.StoredHeader` | src/ssfn.h:718-727 | The four header bytes come from the buffered bits first, after alignment to a byte |
| `Inflate.Decoder.ParseUncompressedBlock` | src/ssfn.h:714-738 | A stored block appends the reference bytes |
| `Inflate.Decoder.CopyStored` | src/ssfn.h:731-737 | The stored bytes are copied to the end of the output |
| `Inflate.Decoder.PrepareTables` | src/ssfn.h:765-770 | The tables represent the fixed or the transmitted codes |
| `Deflate.FixedCodesComplete` | src/ssfn.h:740-750 | Both fixed codes of section 3.2.6 of RFC 1951 fill the code space exactly |
| `DeflateTables.LengthsFollow` | src/ssfn.h:610-616 | Lengths 3 to 257 follow each other without a gap from symbol to symbol, and the last symbol is 258 |
| `DeflateTables.LengthExtraBits` | src/ssfn.h:615-616 | Extra bits of the length symbols: none up to index 7 and at 28, else k / 4 - 1 |
| `DeflateTables.DistancesFollow` | src/ssfn.h:618-622 | Distances from 1 on follow each other without a gap |
| `DeflateTables.DistanceExtraBits` | src/ssfn.h:621-622 | Extra bits of the distance symbols: none for 0 and 1, else k / 2 - 1 |
| `DeflateTables.LengthOrder` | src/ssfn.h:668-668 | The order of the code length code lengths: 16, 17, 18, 0, and then outwards from 8 |
| `DeflateTables.FixedCode` | src/ssfn.h:740-747 | Length and code of all 288 symbols of the fixed code, as in the table of section 3.2.6 of RFC 1951 |
| `DeflateTables.FixedDistanceCode` | src/ssfn.h:749-749 | Fixed distance symbols are their own five-bit codes |
| `DeflateTables.CopyPeriodic` | src/ssfn.h:655-661 | Every byte that a copy appends is the one the distance before it |
| `Inflate.Decoder.ParseBlock` | src/ssfn.h:760-772 | Every kind of block agrees with the lenient reference |
| `Inflate.Decoder.ParseZlib` | src/ssfn.h:752-775 | On every input, with no exception for reserved symbols, the decoder agrees with the bit-level reference under the lenient rules: same output and position, or the same rejection; it stops early only near the end of the input or where the output does not fit |
| `Inflate.DecodePadded` | src/ssfn.h:752-775 | Every stream that the lenient reference accepts is accepted with its output, given four bytes of padding and room; no other stream is accepted, and only invalid ones are rejected; without reserved symbols that is section 3.2 of RFC 1951 |
| `SampleStreams.DecodeTwoBlocks` | src/ssfn.h:752-775 | A stored block and a fixed block with a match: the decoder's output byte by byte |
| `SampleStreams.RefuseThree` | src/ssfn.h:752-775 | Block kind 3, a stored block with a wrong complement and a copy from before the start are not accepted |
| `DynamicSample.DecodeDynamic` | src/ssfn.h:666-775 | A dynamic block with all three repeat symbols, extra bits in length and distance: the decoder's output byte by byte |
| `Deflate.MatchSame` | src/ssfn.h:643-661 | A match reads the same by RFC 1951 and by the lenient rules unless it has a reserved symbol |
| `Deflate.BlockDataSame` | src/ssfn.h:624-664 | So does a whole compressed block |
| `Deflate.StreamSame` | src/ssfn.h:752-775 | So does a whole stream: without reserved symbols the lenient rules are RFC 1951, whatever lies in the output buffer |
| `ReservedSymbols.ReservedResult` | src/ssfn.h:610-622 | A concrete stream of nine bytes with the symbols 286, 30, 257, 30: RFC 1951 gives it no meaning, by the lenient rules its output are three bytes of what the buffer holds |
| `ReservedSymbols.DecodeReserved` | src/ssfn.h:752-775 | The decoder accepts that stream, and its output are the first three bytes that lay in the buffer before |
| `Bitmaps.MaskTest` | src/system/memory/bitmap/bitmap.cpp:10-12 | The mask test reads the addressed digit of the byte |
| `Bitmaps.WriteBitDigits` | src/system/memory/bitmap/bitmap.cpp:21-26 | The masks change the addressed digit and no other |
| `Bitmaps.Bitmap.Get` | src/system/memory/bitmap/bitmap.cpp:7-16 | Membership in the set of indices that the bytes stand for |
| `Bitmaps.Bitmap.Set` | src/system/memory/bitmap/bitmap.cpp:18-28 | Adds or removes one index of that set |
| `FrameAllocator.Allocator.ScanRun` | src/system/memory/pMemory/pMemory.cpp:20-37 | Finds the first free run at or above the cursor, marks exactly it, or fails only when there is none |
| `FrameAllocator.Allocator.ScanTwice` | src/system/memory/pMemory/pMemory.cpp:39-46 | Both scans fail exactly when no free run lies wholly on one side of the cursor, and otherwise mark the first choice |
| `FrameAllocator.Allocator.Alloc` | src/system/memory/pMemory/pMemory.cpp:39-53 | Fails exactly when the count is 0 or no free run lies wholly on one side of the old cursor; otherwise takes the first free run at or above the cursor, or if there is none the first from 0, marks exactly it, sets its 512 words per frame to 0, moves the cursor behind it, moves count times 0x1000 from one counter to the other and keeps the books balanced |
| `FrameAllocator.Allocator.Free` | src/system/memory/pMemory/pMemory.cpp:55-71 | Returns exactly the given allocation, moves the cursor back to it if it lies lower, and keeps the books balanced |
| `FrameAllocator.BalancedAfterAlloc` | src/system/memory/pMemory/pMemory.cpp:48-50 | After a successful alloc the counters again are 0x1000 times the clear and the handed-out frames, and ownership is a partition |
| `FrameAllocator.BalancedAfterFree` | src/system/memory/pMemory/pMemory.cpp:60-69 | The same after a matching free |
| `FrameAllocator.OutstandingDisjoint` | src/system/memory/pMemory/pMemory.cpp:20-46 | Two outstanding allocations share no frame |
| `FrameAllocator.SingleFrame` | src/system/memory/pMemory/pMemory.cpp:39-46 | A single frame is found if and only if some frame is free |
| `LostFrames.StraddlingRunMissed` | src/system/memory/pMemory/pMemory.cpp:39-46 | Of eight frames 2 and 3 are free and the cursor is at 3: no run of two frames is found |
| `LostFrames.LosePair` | src/system/memory/pMemory/pMemory.cpp:39-71 | A run from init on with four allocations and two frees, after which the fifth allocation, of two frames, fails while two in a row are free |
| `FrameAllocator.BitmapCovers` | src/system/memory/pMemory/pMemory.cpp:126-126 | The bitmap covers every frame if and only if the frame count modulo 0x8000 is 0 or at least 8 |
| `FrameAllocator.BitmapTooSmall` | src/system/memory/pMemory/pMemory.cpp:126-126 | With 0x8001 frames the bitmap has 0x8000 bits: a concrete case |
| `FrameAllocator.UsableSize` | src/system/memory/pMemory/pMemory.cpp:113-124 | The usable bytes are 0x1000 times the number of usable frames |
| `FrameAllocator.Allocator.MeasureMap` | src/system/memory/pMemory/pMemory.cpp:113-124 | Total usable bytes and highest address of the memory map |
| `FrameAllocator.TopIsEnd` | src/system/memory/pMemory/pMemory.cpp:113-124 | The highest address is the end of some usable entry, and no usable entry ends behind it |
| `FrameAllocator.Allocator.FindEntry` | src/system/memory/pMemory/pMemory.cpp:128-133 | The first usable entry that can hold the bitmap, if any |
| `FrameAllocator.Allocator.ClearUsable` | src/system/memory/pMemory/pMemory.cpp:143-151 | Exactly the frames of usable entries are cleared |
| `FrameAllocator.Allocator.PlaceBitmap` | src/system/memory/pMemory/pMemory.cpp:134-151 | Bitmap, counters and free frames after an entry is chosen; the bitmap's own frames stay used |
| `FrameAllocator.Allocator.Init` | src/system/memory/pMemory/pMemory.cpp:106-155 | Finds the first usable entry that can hold the bitmap, or says that there is none; the bitmap is too small exactly when one to seven frames are left over modulo 0x8000, and otherwise the books are balanced with nothing handed out, on every aligned, disjoint memory map |
| `PageEntries.GetFlagTestsPresent` | src/system/memory/vMemory/vMemory.cpp:115-118 | getFlag answers for every flag whether the entry is present, and false for flag 0, whatever the flag's own bit |
| `PageEntries.WritableMisread` | src/system/memory/vMemory/vMemory.cpp:115-118 | A present read-only entry is reported as writable: a concrete case |
| `PageEntries.AddressRoundTrip` | src/system/memory/vMemory/vMemory.cpp:124-132 | getAddress gives back what setAddress stored |
| `PageEntries.FlagsKeepAddress` | src/system/memory/vMemory/vMemory.cpp:109-113 | Flags outside the address digits leave the address alone |
| `PageEntries.SetAddressDigit` | src/system/memory/vMemory/vMemory.cpp:128-132 | setAddress replaces digits 12 to 51 and no other |
| `PageEntries.SetFlagsDigit` | src/system/memory/vMemory/vMemory.cpp:109-113 | setFlags sets or clears exactly the digits of the flags |
| `PageEntries.TableEntryFields` | src/system/memory/vMemory/vMemory.cpp:24-25 | The entry for a new table is present, writable and open to user mode, and leads to its frame |
| `PageEntries.PageEntryFields` | src/system/memory/vMemory/vMemory.cpp:59-60 | The entry mapMem writes is present and leads to the physical frame |
| `PageTables.WriteKeepsPath` | src/system/memory/vMemory/vMemory.cpp:17-28 | In a tree of tables, writing one entry moves no path that does not pass through it |
| `PageTables.GrowSystem` | src/system/memory/vMemory/vMemory.cpp:22-26 | A new table keeps every page map a tree of used frames and all maps apart |
| `PageTables.GrowLeaves` | src/system/memory/vMemory/vMemory.cpp:22-26 | A new table changes no page entry of any map |
| `PageTables.GrowShares` | src/system/memory/vMemory/vMemory.cpp:22-26 | A new table does not change which maps share which top-level entries |
| `PageTables.GrowOpen` | src/system/memory/vMemory/vMemory.cpp:22-26 | If all tables were writable and open to user mode, they are so with the new one |
| `PageTables.LeafOpen` | src/system/memory/vMemory/vMemory.cpp:55-62 | A page entry does not change that |
| `PageTables.LeafEffect` | src/system/memory/vMemory/vMemory.cpp:55-62 | Writing a page entry changes that one translation, in exactly the maps that reach its table |
| `PageTables.LeafSystem` | src/system/memory/vMemory/vMemory.cpp:55-62 | Writing a page entry keeps trees and separation |
| `PageTables.SharesIffReaches` | src/system/memory/vMemory/vMemory.cpp:153-165 | Two maps reach the same table exactly when they share the top-level entry above it |
| `PageTables.CloneSystem` | src/system/memory/vMemory/vMemory.cpp:153-165 | A copied top-level table is one more map of the system |
| `PageTables.CloneLeaves` | src/system/memory/vMemory/vMemory.cpp:153-165 | The copy translates every path as the original does, and no other map changes |
| `VirtualMemory.SamePage` | src/system/memory/vMemory/vMemory.cpp:31-35 | Two addresses have the same table indices exactly when they lie in the same virtual page |
| `VirtualMemory.VMemory.NewFrame` | src/system/memory/vMemory/vMemory.cpp:23-23 | A table frame was free, is zeroed and marked used |
| `VirtualMemory.VMemory.GetNextLevel` | src/system/memory/vMemory/vMemory.cpp:17-28 | Follows or adds one level; all translations, sharing and the invariant stay |
| `VirtualMemory.VMemory.Virt2Pte` | src/system/memory/vMemory/vMemory.cpp:30-53 | Reaches the slot of the address in 4 or 5 levels, adding missing tables, with all translations unchanged; exactly the missing tables take a free frame each |
| `VirtualMemory.VMemory.MapMem` | src/system/memory/vMemory/vMemory.cpp:55-62 | The slot of the address gets frame and flags, seen by exactly the maps that share its top-level entry; every other page of every map keeps its entry; exactly the missing tables take a free frame each; the invariant stays |
| `VirtualMemory.VMemory.UnmapMem` | src/system/memory/vMemory/vMemory.cpp:84-89 | The slot becomes 0 and no other page entry of any map changes |
| `VirtualMemory.VMemory.SetPageFlags` | src/system/memory/vMemory/vMemory.cpp:91-101 | Flags of one page are set or cleared and no other page entry changes |
| `VirtualMemory.VMemory.RemapMem` | src/system/memory/vMemory/vMemory.cpp:64-74 | The old page is unmapped and its frame mapped at the new address, also when both are the same page; nothing else changes |
| `VirtualMemory.VMemory.CopyEntries` | src/system/memory/vMemory/vMemory.cpp:160-162 | The 512 entries are copied |
| `VirtualMemory.VMemory.ClonePagemap` | src/system/memory/vMemory/vMemory.cpp:153-165 | The new map translates as the old one and shares exactly its present top-level entries |
| `VirtualMemory.VMemory.NewPagemap` | src/system/memory/vMemory/vMemory.cpp:134-151 | The first map is the table in CR3, later ones are clones of the kernel's |
| `VirtualMemory.MapTranslates` | src/system/memory/vMemory/vMemory.cpp:55-62 | With present set and flags outside the address digits, a walk of the page reaches the physical frame, in every sharing map; all other addresses translate as before |
| `VirtualMemory.UnmapTranslates` | src/system/memory/vMemory/vMemory.cpp:84-89 | The page is not mapped any more; all other addresses translate as before |
| `VirtualMemory.RemapTranslates` | src/system/memory/vMemory/vMemory.cpp:64-74 | The new page reaches the frame of the old one, the old page is gone, all other addresses translate as before |
| `VirtualMemory.StoreAfterClone` | src/system/memory/vMemory/vMemory.cpp:153-165 | After cloning and any steps that keep the sharing, a store below an entry present at cloning is seen by both maps, below an absent one only by the map it was made through |
| `HardwareWalk.IndexMeaning` | src/system/memory/vMemory/vMemory.cpp:31-35 | The field at 12 + 9 (k - 1) is v / (0x1000 * 512^(k - 1)) % 512 |
| `HardwareWalk.IndicesValue` | src/system/memory/vMemory/vMemory.cpp:31-52 | The indices, top level first, are the digits in base 512 of the page number v / 0x1000 % 512^levels |
| `HardwareWalk.EntryFrame` | src/system/memory/vMemory/vMemory.cpp:124-126 | getAddress is e / 0x1000 % 2^40 |
| `HardwareWalk.WalkMeaning` | src/system/memory/vMemory/vMemory.cpp:30-53 | A walk of the processor, given by arithmetic on address and words, reaches what the page map says, with the permissions of the page entry where all tables are open |
| `HardwareWalk.WalkTranslates` | src/system/memory/vMemory/vMemory.cpp:30-53 | So everything said of translations holds of the processor's walk |
| `HardwareWalk.MapWalks` | src/system/memory/vMemory/vMemory.cpp:55-62 | After mapMem the processor finds the physical frame behind the page, in every sharing map, and all other pages where it found them before |
| `HardwareWalk.MapAllows` | src/system/memory/vMemory/vMemory.cpp:22-62 | With readNwrite and userSuper in the flags, and all tables open before, it may write there and come from user mode |
| `HardwareWalk.MapPage` | src/system/memory/vMemory/vMemory.cpp:55-62 | mapMem with both results in one contract |
| `HardwareWalk.UnmapPage` | src/system/memory/vMemory/vMemory.cpp:84-89 | After unmapMem the processor finds nothing behind the page, and all other pages where it found them before |
| `Rounding.AlignUpLeast` | src/lib/math.hpp:12-17 | The least multiple at or above the value, where the sum does not wrap |
| `Rounding.PowerOf2Meaning` | src/lib/math.hpp:30-30 | The test accepts exactly the powers of two and 0 |
| `Rounding.TopPower` | src/lib/math.hpp:34-35 | Clearing lowest digits leaves the largest power of two not above the value |
| `Rounding.ToPowerOf2` | src/lib/math.hpp:32-37 | The least power of two at or above the value, or 0 beyond 2^63 |
| `Rounding.AlignUp2` | src/lib/math.hpp:19-28 | The least power of two at or above both operands |
| `HeapBlocks.Apart` | src/system/memory/heap/heap.cpp:12-14 | Two blocks do not overlap, and every block lies in the heap with room for its header |
| `HeapBlocks.ExactlyOneBlock` | src/system/memory/heap/heap.cpp:12-14 | Every address of the heap lies in exactly one block |
| `HeapBlocks.WalkVisits` | src/system/memory/heap/heap.cpp:12-14 | A walk over the headers in memory visits exactly the blocks |
| `HeapBlocks.NoByteLost` | src/system/memory/heap/heap.cpp:12-14 | The sizes in memory add up to the distance to the tail |
| `HeapBlocks.HeaderBytes` | src/system/memory/heap/heap.cpp:12-14 | A header in memory: eight bytes of size, lowest first, then the free flag as 0 or 1, other bytes untouched |
| `HeapBlocks.KeptBlock` | src/system/memory/heap/heap.cpp:173-212 | A block in use that is kept has the same place, size and bytes |
| `HeapBlocks.MergeLayout` | src/system/memory/heap/heap.cpp:49-50 | Doubling a size merges two equal free neighbours: the tiling stays, one block less, blocks in use and their bytes untouched |
| `HeapBlocks.HalveLayout` | src/system/memory/heap/heap.cpp:19-25 | A step of split keeps the tiling, the blocks in use and their bytes |
| `HeapBlocks.FlagLayout` | src/system/memory/heap/heap.cpp:268-268 | Changing a free flag keeps the tiling |
| `HeapBlocks.PayloadWrite` | src/system/memory/heap/heap.cpp:221-221 | A write inside a payload leaves every header alone |
| `Heap.RequiredSize` | src/system/memory/heap/heap.cpp:92-103 | The least power of two at or above n + 16 for n up to 2^63 - 16; 16 for the requests that wrap around |
| `Heap.NeverLargeEnough` | src/system/memory/heap/heap.cpp:98-100 | For every other request no value the doubling loop reaches is large enough, so it never ends |
| `Heap.Heap.Split` | src/system/memory/heap/heap.cpp:16-33 | Null, or a free block of exactly the requested power of two; blocks in use keep place, size and bytes |
| `Heap.Heap.Better` | src/system/memory/heap/heap.cpp:65-71 | The remembered block stays a free block that is large enough |
| `Heap.Heap.MergeAndLook` | src/system/memory/heap/heap.cpp:49-54 | Merging does not invalidate the remembered block, even when it is the merged one |
| `Heap.Heap.Look` | src/system/memory/heap/heap.cpp:49-82 | One round of the search keeps the tiling, the candidate and the result of the remaining walk, and moves on |
| `HeapWalk.LastBlockMissed` | src/system/memory/heap/heap.cpp:35-90 | The searches of malloc miss a free block at the end of a page-sized heap: a concrete case of `HeapReach.SearchedFails` |
| `HeapWalk.NeighboursLeft` | src/system/memory/heap/heap.cpp:105-140 | coalescence can leave equal free neighbours unmerged: a concrete case of `HeapReach.CoalescedSettled` in a page-sized heap |
| `HeapReach.PassIdle` | src/system/memory/heap/heap.cpp:107-138 | For every tiling, a pass of coalescence changes nothing if and only if no pair that it meets can be merged, and then it asks for no other pass |
| `HeapReach.PassSettles` | src/system/memory/heap/heap.cpp:107-138 | A pass that asks for no other one leaves a layout in which no pair that a pass would meet can be merged, even when its last merge reached the tail |
| `HeapReach.CoalescedSettled` | src/system/memory/heap/heap.cpp:105-140 | For every tiling, a mergeable pair that coalescence leaves is one that no pass meets as a pair; it changes nothing if and only if that already holds before |
| `HeapReach.BestExact` | src/system/memory/heap/heap.cpp:48-83 | For every tiling and every point of the walk, the search ends without a candidate if and only if every free block of the walked layout that is large enough is the last one and the walk comes to it as a first block with nothing behind |
| `HeapReach.InnerBlockFound` | src/system/memory/heap/heap.cpp:48-83 | A free block ahead that is large enough and is not the last one is never overlooked |
| `HeapReach.SplitFinds` | src/system/memory/heap/heap.cpp:16-33 | split fails exactly for a block that is too small |
| `HeapReach.BestFails` | src/system/memory/heap/heap.cpp:35-90 | find_best yields null if and only if a single free block is too small or all that fits is overlooked, and then every free block left, save possibly the last, is smaller than asked for |
| `HeapReach.SearchedFails` | src/system/memory/heap/heap.cpp:186-190 | Both searches of malloc fail if and only if the first fails on the layout as it is and the second on the walked and merged one |
| `HeapReach.InnerBlockServes` | src/system/memory/heap/heap.cpp:186-190 | A free block that is large enough and is not the last one always serves |
| `Heap.Heap.FindBest` | src/system/memory/heap/heap.cpp:35-90 | Null exactly when the walk overlooks all that fits (`HeapReach.Fails`), and then every free block left, save possibly the last, is too small; otherwise a free block of exactly the requested size, still a current block after all merging; blocks in use are untouched; terminates |
| `Heap.Heap.CoalesceStep` | src/system/memory/heap/heap.cpp:114-133 | One round of merging keeps the tiling and the result of the remaining pass, and moves on |
| `Heap.Heap.CoalescePass` | src/system/memory/heap/heap.cpp:107-138 | The blocks left are those of one pass over pairs, and a pass that asks for another one has removed a block |
| `Heap.Heap.Coalescence` | src/system/memory/heap/heap.cpp:105-140 | The blocks left are those of repeated passes, and a mergeable pair among them is one that no pass meets; nothing changes exactly when that held before; it terminates; tiling, blocks in use and their bytes stay |
| `Heap.Heap.Setup` | src/system/memory/heap/heap.cpp:142-163 | The heap starts as one free power-of-two block, and no byte outside it changes |
| `Heap.Heap.Find` | src/system/memory/heap/heap.cpp:186-190 | Both searches around the merging; null exactly when both fail, and then every free block left, save possibly the last, is too small |
| `Heap.Heap.Malloc` | src/system/memory/heap/heap.cpp:173-212 | A block of the least sufficient power of two that was not in use, disjoint from everything in use, which keeps place, size and bytes; null exactly when both searches fail, and then every free block before and after, save possibly the last, is too small for the request; when it asks for growth; a heap that is one large enough free block always serves |
| `Heap.Heap.Calloc` | src/system/memory/heap/heap.cpp:214-223 | As malloc of the 64-bit product, with the same searches, that payload zeroed and nothing else touched; `wild` exactly for a product that gets a block without room for it |
| `Heap.Heap.Move` | src/system/memory/heap/heap.cpp:246-249 | Copies the first min(n, size of the old block) bytes behind the old pointer, header size included, and frees the old block; all other blocks in use stay |
| `Heap.Heap.Realloc` | src/system/memory/heap/heap.cpp:225-250 | Keeps the first min(n, allocsize) bytes, byte by byte, and every other block in use; frees for n = 0; the result is the place that the searches of malloc find, or the old pointer exactly when they find none; `wild` exactly for a request that wraps around and gets a new block |
| `Heap.Heap.Resize` | src/system/memory/heap/heap.cpp:229-250 | realloc of a live pointer to a size other than 0 |
| `Heap.Heap.MoveTo` | src/system/memory/heap/heap.cpp:239-249 | The copy seen from before malloc: the payload as far as both blocks have room, all other blocks in use as they were |
| `Heap.OverRead` | src/system/memory/heap/heap.cpp:231-246 | The copy of realloc reads a byte behind the old block if and only if n exceeds the payload, and then min(n - payload, 16) bytes |
| `Heap.OverReadCase` | src/system/memory/heap/heap.cpp:231-246 | A live block of 32 bytes at the end of a page: realloc to 20 reads 4 bytes behind it, to 40 16 bytes |
| `HeapRuns.LoseLast` | src/system/memory/heap/heap.cpp:173-212 | From expand on, four requests of 1008 bytes and two frees: half the page is free at its end, but the next request of 1008 bytes asks for growth |
| `HeapRuns.LeaveNeighbours` | src/system/memory/heap/heap.cpp:173-212 | The same with the two middle blocks freed: they are equal free neighbours that stay apart, and a request for both together asks for growth |
| `HeapRuns.OverReadRun` | src/system/memory/heap/heap.cpp:225-250 | From expand on, one request of 16 bytes: growing it to 20 bytes with realloc would read behind the end of the heap |
| `HeapRuns.TakeLater` | src/system/memory/heap/heap.cpp:65-71 | From expand on: of two equal free blocks that the walk meets as first ones of a pair, malloc returns the later one |
| `HeapRuns.EarlierSecond` | src/system/memory/heap/heap.cpp:65-71 | Of two that it meets as second ones, the earlier one |
| `HeapRuns.MergedFirst` | src/system/memory/heap/heap.cpp:49-54 | A block just merged is preferred to an equal one met before |
| `Heap.Heap.Free` | src/system/memory/heap/heap.cpp:252-275 | Exactly that block leaves use, the blocks left are the merged ones with no mergeable pair that a pass meets, and all others in use keep place, size and bytes |
| `Heap.Heap.AllocSize` | src/system/memory/heap/heap.cpp:277-287 | The payload size |
| `Crc32.TableEntry` | limine-old-version-saved/limine-install.c:75-119 | Entry i of the table is what eight bit-serial steps make of i, for all 256 entries |
| `Crc32.ByteAtATime` | limine-old-version-saved/limine-install.c:125-127 | Eight steps shift the register by a byte and meet the polynomial with its low byte only |
| `Crc32.LookUp` | limine-old-version-saved/limine-install.c:126-126 | One table look-up does eight bit-serial steps |
| `Crc32.Crc` | limine-old-version-saved/limine-install.c:121-131 | Equals the bit-serial reflected CRC-32 for every byte string |
| `Crc32.EightInjective` | limine-old-version-saved/limine-install.c:125-127 | Eight steps map different registers to different ones |
| `Crc32.BurstShown` | limine-old-version-saved/limine-install.c:121-131 | Two byte strings that differ only within four bytes in a row have different checksums, wherever those lie and whatever surrounds them |
| `Crc32.CheckValue` | limine-old-version-saved/limine-install.c:121-131 | The published check value 0xCBF43926 of 123456789 |
| `DiskCache.Device.Init` | limine-old-version-saved/limine-install.c:142-171 | The first readable block size; the view is the disk |
| `DiskCache.Device.Flush` | limine-old-version-saved/limine-install.c:173-190 | Afterwards the disk holds what the user sees |
| `DiskCache.Device.CacheBlock` | limine-old-version-saved/limine-install.c:192-215 | Another block comes into the cache and the view stays |
| `DiskCache.Device.Read` | limine-old-version-saved/limine-install.c:217-238 | Returns the bytes of the view, for any offset, length and block size; without device faults it succeeds exactly within the whole blocks |
| `DiskCache.Device.Write` | limine-old-version-saved/limine-install.c:240-262 | The view is overwritten at that place and nowhere else, under the same conditions |
| `DiskCache.Device.Session` | limine-old-version-saved/limine-install.c:173-262 | Any sequence of reads and writes answers as a flat device does, and the flushed disk is the flat result |
| `DiskCache.LastWritten` | limine-old-version-saved/limine-install.c:217-262 | Each byte of the flat device is the one written last, or the original one |
| `Installer.FirstHalfFits` | limine-old-version-saved/limine-install.c:450-455 | The first half is no longer than stage 2 if and only if stage 2 is empty or at least a sector |
| `Installer.FirstHalfTooLong` | limine-old-version-saved/limine-install.c:450-455 | A stage 2 of 100 bytes has a first half of 512: a concrete case |
| `Installer.SizesCover` | limine-old-version-saved/limine-install.c:450-455 | The 16-bit sizes cover stage 2 if and only if it has at most 254 sectors |
| `Installer.SizeLost` | limine-old-version-saved/limine-install.c:450-455 | 255 sectors record a first half of 0 bytes: a concrete case |
| `Installer.MbrBytes` | limine-old-version-saved/limine-install.c:457-607 | Every byte of the device after an MBR install: time stamp and partition table kept, sizes and places at 420, the boot image elsewhere, nothing else changed |
| `Installer.BootBehind` | limine-old-version-saved/limine-install.c:592-607 | Every byte behind sector 0, for any places of the halves |
| `Installer.LocationFields` | limine-old-version-saved/limine-install.c:597-601 | The four fields read back as the sizes and places |
| `Words.LittleByte` | limine-old-version-saved/limine-install.c:597-601 | Numbers are written lowest byte first |
| `Installer.Probe` | limine-old-version-saved/limine-install.c:303-322 | Which logical block size carries a GPT header, if any, and the header found |
| `Installer.CheckWords` | limine-old-version-saved/limine-install.c:344-373 | The checks of 16-bit fields, in both directions |
| `Installer.CheckPartitions` | limine-old-version-saved/limine-install.c:375-436 | The checks of partition flags and file system marks, in both directions |
| `Installer.SaneBytes` | limine-old-version-saved/limine-install.c:344-436 | The accepted devices byte by byte: 218 to 219, 444 to 446, 462, 478, 494, 510 to 511, 1080 to 1081, and the two names |
| `Installer.SaneCase` | limine-old-version-saved/limine-install.c:344-436 | A blank sector with a boot signature is accepted, with a partition flag of 1 it is refused |
| `Installer.WriteBoot` | limine-old-version-saved/limine-install.c:583-607 | The writes of the install compose to one view of the device |
| `Installer.WriteAll` | limine-old-version-saved/limine-install.c:583-610 | After the flush the disk is that view |
| `Installer.InstallMbr` | limine-old-version-saved/limine-install.c:338-610 | Installs exactly when the device has no GPT and passes all checks; a refusal changes nothing; after success the disk is the view above |
| `Installer.MbrPath` | limine-old-version-saved/limine-install.c:338-610 | Without GPT: installs exactly when all checks pass; a refusal changes nothing; the disk after success |
| `GptEmbedding.RoundDown` | limine-old-version-saved/limine-install.c:509-509 | And-ing with the complement of a power of two less one rounds down to its multiple |
| `GptEmbedding.PlaceFits` | limine-old-version-saved/limine-install.c:507-512 | A half starts at a block behind the kept array blocks and ends within the 32 blocks |
| `GptEmbedding.ArraysFit` | limine-old-version-saved/limine-install.c:507-519 | Both shrunk arrays end at or before their half of stage 2, the backup because its half is no larger |
| `GptEmbedding.LastUsed` | limine-old-version-saved/limine-install.c:492-505 | The highest used entry, or -1 |
| `GptEmbedding.ClearEntries` | limine-old-version-saved/limine-install.c:528-534 | Exactly the entries from the first unused one on become zero |
| `GptEmbedding.RewriteHeaders` | limine-old-version-saved/limine-install.c:542-574 | Both headers are written with the checksum of the array read back |
| `GptEmbedding.Embed` | limine-old-version-saved/limine-install.c:490-575 | Refuses exactly when a used entry lies beyond the new count; otherwise the device is the embedded view |
| `GptEmbedding.NewHeaderSound` | limine-old-version-saved/limine-install.c:559-566 | A rewritten header carries its own checksum, count and array checksum, and keeps all other bytes |
| `GptEmbedding.HalvesBehind` | limine-old-version-saved/limine-install.c:507-519 | The places computed put both halves behind the arrays and inside the 32 blocks |
| `GptEmbedding.ArraySurvives` | limine-old-version-saved/limine-install.c:528-607 | After the whole install every used entry of both arrays is unchanged and the rest of the shrunk arrays is zero |
| `GptEmbedding.ChecksumsSound` | limine-old-version-saved/limine-install.c:553-574 | After the whole install both headers are sound and record the checksum of the array on the device |
| `GptEmbedding.BackupSound` | limine-old-version-saved/limine-install.c:536-574 | On the installed device both arrays are equal if and only if their used entries agreed before, and the backup header records the checksum of the backup array if and only if the checksums of both shrunk arrays are equal |
| `GptEmbedding.BackupWrong` | limine-old-version-saved/limine-install.c:553-574 | Where the used entries differ in one byte, or within four in a row, the checksum in the backup header is always wrong for the backup array |
| `GptEmbedding.BackupWrongCase` | limine-old-version-saved/limine-install.c:553-574 | A concrete device with an entry in the primary array only: after the install the backup header's checksum is wrong |
| `GptEmbedding.InstallGpt` | limine-old-version-saved/limine-install.c:490-610 | The disk after a successful install with GPT embedding; a refusal changes nothing; without device faults it does not fail on a device that holds arrays and headers |
| `GptEmbedding.WithGpt` | limine-old-version-saved/limine-install.c:324-610 | With a GPT: the backup header is the one that the primary header names, an unsigned one stops the install with the device unchanged, otherwise the embedding of these two headers |
| `GptEmbedding.WithoutGpt` | limine-old-version-saved/limine-install.c:338-610 | Without a GPT: the MBR install or its refusal |
| `GptEmbedding.Install` | limine-old-version-saved/limine-install.c:276-610 | main from the probe to the flush: which of the GPT and MBR paths is taken, with which headers, and what the device is afterwards, for each way it ends; without device faults it does not fail on a device large enough for what it reads and writes |
| `GptEmbedding.GptDoneSound` | limine-old-version-saved/limine-install.c:276-610 | What a successful install on a separated GPT layout leaves: every partition entry in use unchanged, the rest of both arrays zero, both headers sound with the new count and the checksum of the primary array |
| `GptHeaders.HeaderFields` | limine-old-version-saved/limine-install.c:37-59 | The installer's accessors read the fields of a table header laid out as in section 5.3.2 of the UEFI Specification |
| `GptHeaders.Signature` | limine-old-version-saved/limine-install.c:308-332 | The signature is the text EFI PART, and the names refused are _ECH_FS_ and FAT |
| `GptHeaders.NewHeaderFields` | limine-old-version-saved/limine-install.c:559-571 | The rewritten header differs in count, array checksum and its own checksum, which is that of its 92 bytes with the field 0 |
| `GptHeaders.InUseMeaning` | limine-old-version-saved/limine-install.c:492-505 | An entry counts as used exactly when its partition GUID is not 0 |
| `GptHeaders.TableFound` | limine-old-version-saved/limine-install.c:303-322 | Where the table is looked for, and in which order |
| `GptHeaders.GptDoneFields` | limine-old-version-saved/limine-install.c:490-610 | After a successful install, by the fields of the two headers: the number of entries left, the arrays where the headers say kept and cut, both headers updated |
| `GptHeaders.GptDoneStages` | limine-old-version-saved/limine-install.c:507-607 | After a successful install: the boot sector with sizes and places at 420, the first half of stage 2 right behind the primary array, the rest inside the backup's 32 blocks |
| `GptHeaders.GptFullMeaning` | limine-old-version-saved/limine-install.c:521-526 | A refusal leaves the device as it is and means a used entry behind the new count |
| `Scheduler.NothingToClean` | src/system/CPU/scheduling/scheduler/scheduler.cpp:234-286 | No guard of clean_proc holds in a state without kills |
| `Scheduler.ThreadSetGood` | src/system/CPU/scheduling/scheduler/scheduler.cpp:130-188 | A new thread state keeps the invariant if and only if it is not READY or no CPU has the thread |
| `Scheduler.SpawnedGood` | src/system/CPU/scheduling/scheduler/scheduler.cpp:30-64 | Creating a thread keeps the invariant |
| `Scheduler.CreatedGood` | src/system/CPU/scheduling/scheduler/scheduler.cpp:72-105 | Creating a process keeps the invariant |
| `Scheduler.ChoiceSafe` | src/system/CPU/scheduling/scheduler/scheduler.cpp:296-362 | What switchTask chooses is no other CPU's current or idle thread |
| `Scheduler.IdleSafe` | src/system/CPU/scheduling/scheduler/scheduler.cpp:398-407 | The idle thread belongs to its own CPU alone |
| `Scheduler.StartedGood` | src/system/CPU/scheduling/scheduler/scheduler.cpp:387-390 | Starting a thread that may be started restores the invariant |
| `Scheduler.SwitchedGood` | src/system/CPU/scheduling/scheduler/scheduler.cpp:288-418 | Every switch on every CPU keeps the invariant and ends with a RUNNING thread |
| `Scheduler.ChoiceMeaning` | src/system/CPU/scheduling/scheduler/scheduler.cpp:288-381 | What the two scans of switchTask choose, in terms of the states of threads and processes by index |
| `Scheduler.SwitchedByRule` | src/system/CPU/scheduling/scheduler/scheduler.cpp:288-418 | Every switch: the first READY thread from index 1 on of the current process if that is READY, or the first one of the first READY process with one from index 1 of the table on (from 0 where nothing runs), or else and only then the idle thread; what is saved, and that all else stays |
| `Scheduler.RunSafe` | src/system/CPU/scheduling/scheduler/scheduler.cpp:288-418 | In every state of every run no two CPUs share a current thread, each current thread belongs to its CPU's current process, and that process's page map is loaded |
| `Scheduler.UnblockRace` | src/system/CPU/scheduling/scheduler/scheduler.cpp:179-188 | Unblocking a thread that a CPU still has lets two CPUs run it: a concrete case |
| `Scheduler.TraceStep` | src/system/CPU/scheduling/scheduler/scheduler.cpp:320-325 | How one event extends the history of saved registers |
| `Scheduler.FirstResumed` | src/system/CPU/scheduling/scheduler/scheduler.cpp:320-325 | A thread's first resumption loads the registers it was created with |
| `Scheduler.Machine.PickThread` | src/system/CPU/scheduling/scheduler/scheduler.cpp:305-316 | The first READY thread of a vector |
| `Scheduler.Machine.PickProcess` | src/system/CPU/scheduling/scheduler/scheduler.cpp:343-362 | The first READY process with a READY thread |
| `Scheduler.Machine.Pick` | src/system/CPU/scheduling/scheduler/scheduler.cpp:296-362 | The choice of switchTask, with the vector search that always yields 0 |
| `Scheduler.Machine.CreateThread` | src/system/CPU/scheduling/scheduler/scheduler.cpp:50-64 | The new thread with entry, argument, the end of its stack, rflags 0x202, cs 0x28 and ss 0x30, READY and last in its process; all else as before |
| `Scheduler.Machine.CreateProc` | src/system/CPU/scheduling/scheduler/scheduler.cpp:96-105 | The new process, READY, last in the table, with one such thread; all else as before, with the invariant kept |
| `Scheduler.Machine.BlockThread` | src/system/CPU/scheduling/scheduler/scheduler.cpp:130-150 | Blocks the thread under the test of the calling CPU's thread |
| `Scheduler.Machine.BlockThisProc` | src/system/CPU/scheduling/scheduler/scheduler.cpp:152-166 | Blocks the current process unless it is init |
| `Scheduler.Machine.BlockProc` | src/system/CPU/scheduling/scheduler/scheduler.cpp:168-177 | Blocks another process |
| `Scheduler.Machine.UnblockThread` | src/system/CPU/scheduling/scheduler/scheduler.cpp:179-188 | The invariant survives if and only if the thread is not blocked or no CPU has it |
| `Scheduler.Machine.UnblockProc` | src/system/CPU/scheduling/scheduler/scheduler.cpp:190-199 | Unblocks a process and keeps the invariant |
| `Scheduler.Machine.SwitchTask` | src/system/CPU/scheduling/scheduler/scheduler.cpp:288-418 | The choice rule by rule (see `SwitchedByRule`), the saved registers and states, and all that stays; the registers returned are those saved at the thread's last switch-out or set at its creation |
| `Strings.FirstMeaning` | src/lib/string.cpp:145-162 | An occurrence is found if and only if there is one, and it is the leftmost |
| `Strings.StrStr` | src/lib/string.cpp:145-162 | The pointer loop computes the first occurrence |
| `Strings.JoinWords` | src/lib/string.cpp:101-135 | The words joined with the delimiter give the string back |
| `Strings.WordsFree` | src/lib/string.cpp:101-135 | No word holds the delimiter |
| `Strings.WordsGreedy` | src/lib/string.cpp:101-135 | Every word but the last ends where the delimiter occurs first behind its start |
| `Strings.RemovedIsConcatenated` | src/lib/string.cpp:76-90 | What strrm leaves are the words concatenated |
| `Strings.MoveDown` | src/lib/string.cpp:81-83 | The copy moves characters down without reading one it has overwritten |
| `Strings.StrRm` | src/lib/string.cpp:76-90 | In place, the string becomes itself without the occurrences, and no byte behind its old end changes |
| `Strings.CountWords` | src/lib/string.cpp:106-113 | The number of words |
| `Strings.CutWords` | src/lib/string.cpp:119-127 | Cutting the copy leaves every word readable at its start |
| `Strings.StrSplit` | src/lib/string.cpp:101-135 | Starts and copy hold exactly the words of the string, each with a NUL behind it, and nb is their number |
| `Printf.Sink.Put` | src/drivers/display/terminal/printf.c:210-215 | The buffer holds the first maxlen characters put out, whatever follows |
| `Printf.Sink.OutRev` | src/drivers/display/terminal/printf.c:276-300 | Padding and reversed buffer |
| `Printf.DigitsParse` | src/drivers/display/terminal/printf.c:394-398 | The digits written stand for the value where they fit |
| `Printf.DigitsExact` | src/drivers/display/terminal/printf.c:394-398 | They stand for the value if and only if it is below base^32 |
| `PrintedIntegers.BinaryCut` | src/drivers/display/terminal/printf.c:394-398 | 2^32 in base 2 loses its only 1: a concrete case |
| `PrintedIntegers.FinalisedKeepsDigits` | src/drivers/display/terminal/printf.c:305-371 | Padding, prefix and sign leave the digits alone and stay within the buffer |
| `PrintedIntegers.IntegerReadsBack` | src/drivers/display/terminal/printf.c:305-402 | Every 64-bit value in base 8, 10 or 16, and every 32-bit one in base 2, is the number that its printed text stands for, without spaces, sign and prefix letter and with all padding zeros, whatever flags, width and precision |
| `PrintedIntegers.SignShown` | src/drivers/display/terminal/printf.c:305-371 | The minus sign of %d and %i appears if and only if the precision is below 32 and the width is at most 32 or not padded with zeros |
| `PrintedIntegers.WidthKept` | src/drivers/display/terminal/printf.c:276-371 | The text has at least `width` characters if and only if it is not padded with zeros or the width is at most 32 |
| `PrintedIntegers.PrecisionKept` | src/drivers/display/terminal/printf.c:305-371 | A decimal has at least `precision` digits if and only if the precision is at most 32 |
| `Directives.SignLost` | src/drivers/display/terminal/printf.c:305-371 | %033d of -5 prints no minus sign: a concrete case |
| `Printf.PrintInteger` | src/drivers/display/terminal/printf.c:374-402 | Puts out the specified integer text |
| `Printf.ReadSpec` | src/drivers/display/terminal/printf.c:832-909 | Flags, width, precision and length of a conversion, with what `Directives.SpecReads` says of them |
| `Printf.ReadWidth` | src/drivers/display/terminal/printf.c:845-860 | The width from digits or from an argument, whose sign means left alignment |
| `Printf.ReadPrecision` | src/drivers/display/terminal/printf.c:862-875 | The precision from digits, from an argument, or 0 after a bare dot |
| `Printf.ReadLength` | src/drivers/display/terminal/printf.c:877-909 | The length flags |
| `Directives.AtoiMeaning` | src/drivers/display/terminal/printf.c:265-272 | _atoi stops at the first character that is no digit and yields the decimal number before it modulo 2^32 |
| `Directives.FlagsRead` | src/drivers/display/terminal/printf.c:832-844 | The flag loop stops at the first other character and sets exactly the flags whose characters it read |
| `Directives.SpecReads` | src/drivers/display/terminal/printf.c:832-909 | A conversion written as flags, width, precision and length reads back as exactly those, with a * taking the next int argument and its sign, and the format continues behind them |
| `Directives.IntRead` | src/drivers/display/terminal/printf.c:850-860 | An int passed to a * is read as it is, and the arguments behind it are left |
| `Printf.Convert` | src/drivers/display/terminal/printf.c:911-1076 | Puts out the specified text of one conversion |
| `Conversions.Rendering` | src/drivers/display/terminal/printf.c:808-1084 | A directive as written puts out its conversion, and the format goes on behind it with one argument less, or none less |
| `Conversions.PlainText` | src/drivers/display/terminal/printf.c:818-826 | Other characters stand for themselves and take no argument |
| `Conversions.Percent` | src/drivers/display/terminal/printf.c:1067-1075 | %% and unknown conversions put out their character and take no argument |
| `Conversions.CharacterPrinted` | src/drivers/display/terminal/printf.c:1005-1023 | %c: the one character, padded with spaces to the width on the side that - names |
| `Conversions.StringPrinted` | src/drivers/display/terminal/printf.c:1025-1054 | %s: all characters or the first ones up to the precision, padded to the width |
| `Conversions.NullPrinted` | src/drivers/display/terminal/printf.c:1025-1029 | %s of a null pointer: (null) |
| `Conversions.SignedPrinted` | src/drivers/display/terminal/printf.c:912-967 | %d and %i: the argument as a signed number of 8, 16, 32 or 64 bits by the length field, in base 10; when its sign shows, and when width and precision are kept |
| `Conversions.UnsignedPrinted` | src/drivers/display/terminal/printf.c:912-985 | %u, %x, %X, %o and %b: the argument as an unsigned number of that width in base 10, 16, 16, 8 and 2 (there below 2^32), in one case, upper exactly for X, without a minus sign |
| `Conversions.PlainSigned` | src/drivers/display/terminal/printf.c:912-967 | Without zero padding and precision the exact text: spaces, sign, shortest decimal, spaces |
| `Conversions.PlainUnsigned` | src/drivers/display/terminal/printf.c:912-985 | Without zero padding and precision the exact text: spaces, prefix of #, shortest numeral, spaces |
| `Conversions.PointerPrinted` | src/drivers/display/terminal/printf.c:1056-1065 | %p: reads back in base 16; without flags and precision it is 0x and sixteen digits |
| `Conversions.NilPrinted` | src/drivers/display/terminal/printf.c:1056-1061 | %p of a null pointer: (nil) |
| `Conversions.DigitRow` | src/drivers/display/terminal/printf.c:394-398 | The digits are 0 to 9 and then a to f or A to F, in this order |
| `Conversions.HexSample` | src/drivers/display/terminal/printf.c:808-1084 | %x of 255 and %% give ff% |
| `Printf.Vsnprintf` | src/drivers/display/terminal/printf.c:808-1084 | For every size n, the buffer gets the first min(L, n - 1) characters of the unbounded output and a NUL behind them, nothing else changes, nothing is written for n = 0, and the result is L; `Conversions` says what that output is |

## Left out

- Inflate.Decoder.ParseZlib: the growth of the output buffer by `_ssfn__zexpand`
  ends the model (`NoRoom`), because it depends on the SFN container around the
  stream. The lenient rules read the buffer as it was at the start.
- FrameAllocator.Allocator.Alloc: after a failure only the counters and the cleared
  low frames are stated, since the code adjusts the books for frames it did not
  hand out; frame 0 must be reserved.
- FrameAllocator.Allocator.Init: the bitmap is a buffer of its own, so that writes to
  the frames it lies in cannot alias it; those frames stay used. Memory maps are
  page aligned with disjoint usable entries. Where the bitmap is too small the model
  stops (`spills`) before the code clears bits behind it.
- `pMemory::realloc`: it counts twice and copies bytes instead of pages.
- VirtualMemory.VMemory.MapMem: page maps hold no large pages, and enough frames are
  free for the missing tables; TLB invalidation, the locks, and the heap object of a
  page map are not modelled.
- `mapUserMem`, `mapHHMem`, `setFlag`: thin wrappers.
- Heap.Heap.Malloc: stops where the heap would grow (`grow`), because `expand` makes
  the whole heap one free block again and so discards what is in use; `Setup` models
  the first `expand`. Best fit is not claimed: the walk does not give it. The log
  output and the lock are not modelled.
- Heap.Heap.Realloc: for requests that wrap around the model stops after malloc
  (`wild`), since the copy then overruns the 16-byte block.
- Heap.Heap.Calloc: stops in the same way before the zeroing overruns the block.
- Installer.InstallMbr: without `--force-mbr`; `set_pos` on systems with a 32-bit
  `long` is not modelled; locations do not wrap around.
- GptEmbedding.Install: without `--force-mbr` and without a partition number. `Beyond` ends
  the model for headers outside what `Embed` covers and for images that do not fit in 32
  blocks.
- GptEmbedding.Embed: entry sizes of 128 bytes in both headers and array places below
  2^64, which the code takes for granted; installing into a given GPT partition
  only adds arithmetic of the same kind.
- Scheduler.Machine.SwitchTask: kills, `clean_proc` and exits, because
  `TurboVector::find` and `remove` do not locate or delete the given element, and
  fairness, which fails for the same reason; every process has a thread; time
  slices, names and the two counters are not modelled.
- Strings.StrSplit: pointers are indices into the copy, and the table of pointers that
  the source puts in front of it is a sequence.
- Printf.Vsnprintf: a format must not end inside a conversion (the code reads past its
  end), missing arguments read as 0, the count is not cut to `int`, and floating
  point is compiled out.
- `strcat`, `int2string`, `getline` and the rest of the string helpers, the VFS, the
  clock, drivers, ACPI, PCI, APIC, descriptor tables, glyph drawing and the terminal.
