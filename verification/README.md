# noKernel: memory management, printing and loading, verified

This project models the parts of noKernel whose behaviour is hard to see from reading one function, and
proves what they are for.

**The memory manager.** Three layers, each a class whose state is the source's own, each with an
abstract meaning that its invariant ties to the concrete state:

- `pmm.dfy`: the frame allocator. A byte-packed bitmap (`array<bv8>`) and a counter mean a set of free
  frames.
- `paging.dfy`, `growth.dfy`, `ranges.dfy`, `access.dfy`, `rights.dfy`, `rangemap.dfy`, `bootmap.dfy`,
  `vmm.dfy`: the four-level page tables of the Intel SDM, volume 3A, section 4.5. Words in physical memory
  mean a map from 36-bit page keys to entries, provided the tables form a tree of distinct frames.
  `growth.dfy` says which tables a set of pages needs, and so exactly when mapping it runs out of frames;
  `rights.dfy` what the bits of an entry are and what the processor allows. Every table is accessed through
  a pointer which the tables themselves translate, so the invariant also says that this access works, before
  and after the kernel switches to its own tables. `mapruns.dfy` follows the mapping over runs of calls.
- `bytes.dfy`, `blocks.dfy`, `layout.dfy`, `ownership.dfy`, `heap.dfy`: the heap. Bytes in memory, with the
  24-byte headers among them, mean a list of blocks that tiles the heap. `blocks.dfy` has the laws of
  the list, `copies.dfy` when `realloc` is safe, `layout.dfy` what the stores of the code do to the bytes,
  `ownership.dfy` which frame belongs to whom.
- `kernel.dfy` starts the layers in the kernel's order; `session.dfy` is the system under any run of
  requests by its callers.

**The printer.** `digits.dfy` (digits and the parser that reads them back), `fields.dfy` (the 32-byte
buffer and the field laid out from it), `directives.dfy` (what a format means), `spelling.dfy` (the grammar
of formats, and that the scanner reads exactly it), `printed.dfy` (the text of every directive, said without
the printer: numerals by places, arguments by the C values they pass), `limits.dfy` (inputs at which the
printer falls short) and `printer.dfy` (the code, proved to emit that meaning through both back ends). The
kernel's configuration, without floating point.

**The loader.** `structs.dfy` (the ELF headers, field by field) and `elf.dfy`: the two passes over the
program headers (System V gABI, chapter 5) build the image the headers describe.

Methods follow the code step by step and are proved against functions on values; the laws are lemmas about
those functions. What the C++ keeps in globals of a file is a field of the class here.
A null pointer or a failed `ASSERT` or `PANIC` is a result (`0`, `false`, `null`).

Where the code does less than its callers may expect, the model keeps the code and states exactly when
it is right: `Digits.PrintedExactly` (base 2), `Fields.SignShown` (wide zero-padded fields),
`Fields.PrefixKeepsDigits` ('#' against the width), `Directives.StringFillsWidth` (`%s` with a precision),
`Spellings.FormatsEndWell` (a format that ends inside a directive, where the code steps over the
terminator and the model ends with `PastEnd`), `SegmentLoader.PassEnds` (sums that wrap in 64 bits) and
`CopySizes.ResizeIsSafe` (`realloc` copies all that the old block holds). `PrinterLimits`,
`SegmentLoader.OffsetWraps` and `EndWraps`, and `CopySizes.TenToTwenty` have an input for each.

## Model

| member | source | states |
|---|---|---|
| `PhysicalMemory.Pmm.Init` | kernel/mm/pmm.cpp:28-68 | On a page-aligned, non-overlapping memory map: succeeds exactly when some conventional entry not at 0 has bytes enough for a bit per frame. The bitmap then has a bit for each managed frame and no byte too many, and the free set is exactly the conventional frames other than frame 0 in which no byte of the bitmap lies; bitmap bits and counter show that set |
| `PhysicalMemory.HighestFrame` | kernel/mm/pmm.cpp:30-42 | One past the highest conventional frame: an upper bound on every conventional entry that one of them attains |
| `PhysicalMemory.OffersWholeFrames` | kernel/mm/pmm.cpp:58-63 | The frames a conventional entry offers are exactly those all of whose bytes it has |
| `Machine.FrameHolds` | kernel/mm/pmm.cpp:20 | An address lies in the frame it is counted to |
| `PhysicalMemory.Pmm.Release` | kernel/mm/pmm.cpp:58-64 | Every frame the map offers becomes free, each counted once, and no other |
| `PhysicalMemory.Pmm.Reserve` | kernel/mm/pmm.cpp:19-26 | Takes exactly the range out of the free set, or nothing when the range leaves the managed frames; the counter stays exact |
| `PhysicalMemory.ByteUpdate` | kernel/mm/pmm.cpp:8-10 | Setting or clearing one bit of the packed bitmap changes the state of that frame and of no other |
| `PhysicalMemory.BitIsShift` | kernel/mm/pmm.cpp:8-10 | The mask of frame f is 1 shifted by f modulo 8 |
| `PhysicalMemory.BitmapDeterminedByFree` | kernel/mm/pmm.cpp:8-10 | Two bitmaps of one length that show the same free set are the same bytes: the set is the whole state |
| `PhysicalMemory.Pmm.Search` | kernel/mm/pmm.cpp:78-87 | The scan with a run counter finds the lowest free run of the length, or proves there is none |
| `PhysicalMemory.NoRunLargerThanFree` | kernel/mm/pmm.cpp:76 | No run is longer than the free set: the early exit is exact because the counter is |
| `PhysicalMemory.Pmm.AllocFrames` | kernel/mm/pmm.cpp:75-88 | Returns 0 exactly when count is 0 or no run of count free frames exists; otherwise the lowest such run, and exactly its frames become used |
| `PhysicalMemory.Pmm.AllocFrame` | kernel/mm/pmm.cpp:73 | The lowest free frame, or 0 exactly when none is free |
| `PhysicalMemory.Pmm.FreeFrame` | kernel/mm/pmm.cpp:90-100 | Adds exactly that frame to the free set; frame 0 and unmanaged frames are refused; the early exit on a full counter never loses a frame |
| `PhysicalMemory.Pmm.FreeFrames` | kernel/mm/pmm.cpp:102-108 | Adds exactly the range (never frame 0), or nothing when the range leaves the managed frames |
| `PhysicalMemory.Pmm.AllocThenFree` | kernel/mm/pmm.cpp:75-108 | Allocating a run and giving it back restores every byte of the bitmap, the counter and the free set |
| `Paging.IndexIsPrefix` | kernel/mm/vmm.cpp:4-12 | The nine-bit index taken at a level is a digit of the 36-bit page key; bits above 47 drop out |
| `Paging.SameSlot` | kernel/mm/vmm.cpp:4-12 | Two keys with the same leaf table and the same last index are the same key: the four indices are injective |
| `Paging.DescendInTree` | kernel/mm/vmm.cpp:40-48 | In a tree of tables the walk by indices arrives at the table the tree has for the key, at every level |
| `Paging.MissingBelow` | kernel/mm/vmm.cpp:28-29 | Where a table is missing, everything below it is unmapped |
| `Paging.AddTableKeepsTree` | kernel/mm/vmm.cpp:28-35 | Installing a zeroed, unused frame under an absent entry keeps the tree: distinct frames, each linked from one place |
| `Paging.AddTableKeepsLeaf` | kernel/mm/vmm.cpp:28-35 | Installing that table changes no translation at all |
| `Paging.SetLeafKeepsTree` | kernel/mm/vmm.cpp:50-66 | Writing a last-level entry keeps the tree of tables |
| `Paging.SetLeafChangesOneKey` | kernel/mm/vmm.cpp:50-66 | Writing a last-level entry changes the entry of exactly one key |
| `Rights.PageEntryMaps` | kernel/mm/vmm.cpp:64 | Bit by bit, the entry that map writes has bits 12 to 51 of the address, the bits of the flags and the present bit, and no other: present, writable exactly when flag bit 1 is given, not executable exactly when flag bit 63 is, and its frame is that of the address |
| `Rights.TableEntryBit` | kernel/mm/vmm.cpp:33 | The entry that links a table has its address, the present bit and the writable bit, and no other |
| `Rights.EmptyEntry` | kernel/mm/vmm.cpp:50-53 | The entry that unmap writes has no bit set |
| `Rights.RightsOfKey` | kernel/mm/vmm.cpp:33 | Read as the processor does, over all four levels, a write to a page is allowed exactly when its last entry is writable, and a fetch exactly when that entry does not forbid it: tables restrict nothing |
| `TableAccess.PointerReaches` | kernel/mm/vmm.cpp:14-16 | Under the invariant phys_to_virt of any protected frame, translated by the very tables in force, is that frame, before and after the switch |
| `TableAccess.InstallTable` | kernel/mm/vmm.cpp:27-36 | A new table taken from the free frames keeps the whole invariant, its own reachability included |
| `TableAccess.StoreLeaf` | kernel/mm/vmm.cpp:61-66 | A last-level write that spares the direct map keeps the whole invariant and changes one key |
| `TableGrowth.TakenForNeeds` | kernel/mm/vmm.cpp:27-36 | Frames go one to one to tables that were missing: when all were made, the free frames dropped by exactly their number, and when the frames ran out before, fewer had been free than were missing |
| `VirtualMemory.Vmm.CreateTable` | kernel/mm/vmm.cpp:28-34 | Fails exactly when no frame is free, and then changes nothing; otherwise exactly one frame, the lowest free one, zeroed, becomes exactly the missing table; no translation changes |
| `VirtualMemory.Vmm.NextTable` | kernel/mm/vmm.cpp:27-36 | The pointer it returns reaches the table the tree has there; at most that one table is made, and null means absent, or that no frame was left |
| `VirtualMemory.Vmm.FindEntry` | kernel/mm/vmm.cpp:40-48 | Finds the leaf table and slot of the key; tables are made only on the path of that key, only where they were missing, in the lowest free frames; the mapping is unchanged |
| `VirtualMemory.Vmm.Map` | kernel/mm/vmm.cpp:61-66 | True exactly when the key was unmapped and at least as many frames were free as tables were missing on its path; then exactly one key is added, whose entry has, bit by bit, the address in bits 12 to 51, the flags and the present bit. False changes no translation; either way tables are made only on the path of the key |
| `VirtualMemory.Vmm.Unmap` | kernel/mm/vmm.cpp:50-55 | For every page: removes exactly one key, taking and freeing no frame, and keeps the tree of tables; the invariant of reachable tables lasts when the page is not one the direct map needs |
| `VirtualMemory.Vmm.UnmapRange` | kernel/mm/vmm.cpp:57-59 | Removes exactly the keys of the range, taking and freeing no frame |
| `VirtualMemory.Vmm.MapRange` | kernel/mm/vmm.cpp:68-75 | All or nothing: true exactly when all pages were free and at least as many frames as tables were missing on their paths; then each page i has the entry of page i from phys, with the flags given and no other bit. False means the mapping is exactly the old one; either way tables are made only on the paths of the range |
| `VirtualMemory.Vmm.RightsHold` | kernel/mm/vmm.cpp:33-64 | Under the invariant the processor lets the kernel write a mapped page exactly when its entry says so, and execute it exactly when its entry does not forbid it |
| `VirtualMemory.Vmm.Translate` | kernel/mm/vmm.cpp:77-81 | The frame's address plus the page offset when the key is mapped, 0 when it is not; changes nothing |
| `PageRanges.PageMapAt` | kernel/mm/vmm.cpp:68-75 | When the pages of a range have different keys, page i goes to frame i |
| `PageRanges.AddedBlocked` | kernel/mm/vmm.cpp:70-72 | A page found taken half-way was taken before the call, or the range meets itself |
| `RangeMapping.OnePageRefused` | kernel/mm/vmm.cpp:68-75 | A page refused half-way means that the whole range could not have been mapped: a page of it was taken, or fewer frames were free before the call than its tables needed |
| `RangeMapping.TakenOutAgain` | kernel/mm/vmm.cpp:70-72 | Taking out the pages mapped so far restores the mapping and spares the direct map |
| `VirtualMemory.Vmm.MapBoth` | kernel/mm/vmm.cpp:83-86 | Whatever becomes of the two calls whose results the code drops: mappings are only added, only for the entry's pages, and tables only on their paths; both succeed when the pages were free and frames remain, and then exactly the two maps are added |
| `BootMap.NextEntryIsFree` | kernel/mm/vmm.cpp:95-98 | On a non-overlapping map below 2^47 neither the identity nor the direct pages of the next entry are taken yet |
| `BootMap.ScreenMapped` | kernel/mm/vmm.cpp:100-101 | A page-aligned framebuffer that overlaps no descriptor is mapped like one entry more, unless the frames ran out |
| `BootMap.SwitchIsSafe` | kernel/mm/vmm.cpp:103-104 | Once every entry is covered, loading the kernel's own tables and moving physOffset keeps the whole invariant: every table is still reached through the map the tables implement |
| `BootMap.BitmapStaysMapped` | kernel/mm/vmm.cpp:83-105 | Every frame in which a byte of the allocator's bitmap lies stays mapped at its own address, open to writes |
| `VirtualMemory.Vmm.NewRoot` | kernel/mm/vmm.cpp:91-93 | A free frame, zeroed, is a tree that maps nothing; fails exactly when no frame is free |
| `VirtualMemory.Vmm.MapEntries` | kernel/mm/vmm.cpp:95-98 | After all entries, if every call succeeded each entry is covered in the direct map and at its own address; every call succeeds while frames are left; nothing high is mapped, and tables are made only for the entries' pages |
| `VirtualMemory.Vmm.Init` | kernel/mm/vmm.cpp:88-105 | If every descriptor was mapped, as they are while a frame is left, the switch leaves all invariants in force with the map covered; a framebuffer that overlaps no descriptor is then covered too while a frame is left; tables are only the root and those on the paths of the pages mapped here; their frames, the lowest ones, and the free frames together are the frames that were free |
| `MappingRuns.RunCalls` | kernel/mm/vmm.cpp:50-75 | Any sequence of map, map_range, unmap and unmap_range calls takes the mapping, the tables and the free frames through a run that starts and ends with what the manager really has, in which a call is refused exactly when a page of it is taken or fewer frames are free than tables are missing for it |
| `MappingRuns.Provenance` | kernel/mm/vmm.cpp:50-81 | After any run a page has an entry if and only if it had it at the start and was never unmapped, or one successful call set it and no later call unmapped it |
| `MappingRuns.StaysMapped` | kernel/mm/vmm.cpp:50-75 | Between two points of a run in which a page is never unmapped it keeps its entry |
| `MappingRuns.TablesOfRun` | kernel/mm/vmm.cpp:27-75 | Over any run no table is lost or moved, new ones lie only on the paths of pages that were asked for, and they took the lowest of the free frames |
| `Bytes.DecodeEncode` | kernel/include/mm/heap.h:9-13 | Reading back a stored header word gives the value |
| `Bytes.EncodeDecode` | kernel/include/mm/heap.h:9-13 | A word is nothing but its bytes: storing what was loaded restores them |
| `Bytes.LowestFirst` | kernel/include/mm/heap.h:9-13 | Byte i of a stored word has its bits 8i to 8i + 7 |
| `Bytes.Memory.Bcopy` | lib/common/memory.cpp:3-15 | The destination receives the source bytes as they were before the call, for every overlap and both directions; every other byte stays |
| `Bytes.Memory.Memset` | lib/common/memory.cpp:22-27 | Exactly the range is filled |
| `Blocks.CoalesceTiled` | kernel/mm/heap.cpp:118-123 | The address-blind merging pass keeps the tiling |
| `Blocks.CoalesceCanonical` | kernel/mm/heap.cpp:118-123 | After one pass no two neighbours are free |
| `Blocks.CoalesceInUse` | kernel/mm/heap.cpp:118-123 | The pass never touches a block in use |
| `Blocks.PassStep` | kernel/mm/heap.cpp:118-123 | One step of the loop keeps what the whole pass gives |
| `Blocks.ReleaseUndoesTake` | kernel/mm/heap.cpp:67-124 | Freeing what was just allocated restores the exact list: the merge arithmetic undoes the split arithmetic |
| `Blocks.ReleaseUndoesGrowth` | kernel/mm/heap.cpp:79-124 | Allocating in a heap that had to grow, and freeing, leaves the grown heap with its free tail merged |
| `Blocks.MergedFirst` | kernel/mm/heap.cpp:118-123 | Wherever two free neighbours stand, merging them before the pass changes nothing in its result |
| `Blocks.TakeInUse` | kernel/mm/heap.cpp:79-90 | Allocation adds exactly one block to those in use |
| `Blocks.ReleaseInUse` | kernel/mm/heap.cpp:112-124 | Freeing removes exactly that block from those in use |
| `Blocks.GrowThenTake` | kernel/mm/heap.cpp:92 | After a growth for the request only the new block fits, and taking it mends the free pair growth may leave |
| `Blocks.TiledTotal` | kernel/mm/heap.cpp:36 | Headers and payloads add up to HeapEnd - HeapStart |
| `Blocks.RunSound` | kernel/mm/heap.cpp:41-124 | In every reachable state the blocks tile the heap and no two neighbours are free |
| `Blocks.RunAligned` | kernel/include/mm/heap.h:9-14 | In every reachable state headers, payloads and sizes are multiples of eight |
| `Blocks.FreeAllLeavesOne` | kernel/mm/heap.cpp:112-124 | Freeing all live blocks in any order leaves one free block spanning the heap |
| `CopySizes.ResizeIsSafe` | kernel/mm/heap.cpp:103-110 | Over every run from a fresh heap of whole pages, however the calls between: resizing from a request of s bytes to one of n can copy beyond the new block if and only if the guard fails, which a caller can check from s, n and the heap's limit alone: the rounded request grows by 32, or the limit leaves no room for both blocks |
| `CopySizes.TenToTwenty` | kernel/mm/heap.cpp:103-110 | The input: in a heap of one page, resizing ten bytes to twenty can copy beyond the new block |
| `Layout.SplitHolds` | kernel/mm/heap.cpp:67-77 | The five stores of a split turn the headers of the list into those of the split list |
| `Layout.MergeHolds` | kernel/mm/heap.cpp:119-121 | The two stores of a merge turn the headers into those of the joined list; no live payload changes |
| `Layout.AppendHolds` | kernel/mm/heap.cpp:53-63 | The stores of a growth append one free block and relink the last one; no live payload changes |
| `Layout.ReplaceHolds` | kernel/mm/heap.cpp:67-123 | Stores inside a stretch of blocks that is re-tiled keep every header outside it |
| `Layout.ReplaceLive` | kernel/mm/heap.cpp:67-123 | Such stores leave every live payload outside the stretch byte for byte as it was |
| `KernelHeap.Heap.SplitBlock` | kernel/mm/heap.cpp:67-77 | In memory: exactly the abstract split, live payloads untouched |
| `KernelHeap.Heap.MergeFree` | kernel/mm/heap.cpp:118-123 | The pointer-following loop does exactly the abstract merging pass and terminates; live payloads untouched |
| `KernelHeap.Heap.BackPages` | kernel/mm/heap.cpp:45-51 | Takes the lowest run of frames and maps it behind HeapEnd, exactly when such a run exists and leaves enough frames for the missing tables; otherwise the mapping is as it was and the frames not spent on tables are free; ownership of all frames holds either way |
| `KernelHeap.Heap.MapBehind` | kernel/mm/heap.cpp:48-51 | Maps frames just taken behind HeapEnd, exactly when enough others are free for the missing tables; otherwise gives exactly them back and leaves the mapping as it was |
| `KernelHeap.Heap.Grow` | kernel/mm/heap.cpp:41-65 | Refused exactly by the size limit, or for want of a run of frames or of frames for the tables, with list, bytes and mapping unchanged; otherwise one free block of the new pages at the end |
| `KernelHeap.Heap.FindFit` | kernel/mm/heap.cpp:85-86 | The first free block that is large enough, or none exists |
| `KernelHeap.Heap.Alloc` | kernel/mm/heap.cpp:79-94 | At most one recursive call; null exactly when the size is not legal, or nothing fits and the growth the request needs is refused, and then list and bytes are unchanged; otherwise the first fit (after one growth if need be), with every live payload untouched and no free neighbours |
| `KernelHeap.Heap.AllocThenFree` | kernel/mm/heap.cpp:79-124 | Allocating and freeing restores the block list, or, when the heap had to grow, leaves the grown list merged; every live payload is untouched |
| `KernelHeap.Heap.Calloc` | kernel/mm/heap.cpp:96-101 | As Alloc for count * size, whose product the check keeps from wrapping: null under exactly the same condition, and byte j of item i lies in the block and is zero, for every item and every byte of it |
| `Machine.TimesNext` | kernel/mm/heap.cpp:97-98 | The bytes of one item more are size bytes more, and none for no item |
| `KernelHeap.Heap.Realloc` | kernel/mm/heap.cpp:103-110 | Null exactly when an allocation of the size is refused, with list and bytes unchanged. Otherwise the list is the allocation's, with the old block freed; the new block begins with the whole old payload and every other live payload is untouched, exactly when the block taken holds as many bytes as the old one; where it does not, the result says so and nothing has been copied yet |
| `KernelHeap.Heap.Free` | kernel/mm/heap.cpp:112-124 | The list becomes the released list; every other live payload keeps its bytes; null is ignored |
| `KernelHeap.Heap.LiveApart` | kernel/mm/heap.cpp:41-124 | Two live payloads share no byte with each other nor with any header, and lie in [HeapStart, HeapEnd) |
| `KernelHeap.Heap.Init` | kernel/mm/heap.cpp:15-39 | One free block over all of the mapped pages, whose frames the heap now owns; refused exactly for size 0 or for want of a run of frames or of frames for the tables |
| `KernelHeap.GrownFits` | kernel/mm/heap.cpp:92-93 | After a successful growth the retry finds a block, and taking it restores that no neighbours are free |
| `Ownership.Conservation` | kernel/mm/pmm.cpp:75-108 | Free frames, table frames and heap frames add up to the frames handed over at boot |
| `Ownership.OwnedReturn` | kernel/mm/heap.cpp:48-51 | The frames of a growth that failed in mapping go back to the free ones, and only those |
| `Ownership.BackedFurther` | kernel/mm/heap.cpp:48-63 | After a growth page i of the heap is mapped to frame i of its backing, and nothing is mapped above |
| `KernelStart.ChooseHeapSize` | kernel/entry.cpp:17-26 | The largest power of two up to 256 that the free frames allow, and none (panic) exactly below two free frames |
| `KernelStart.FramesAccounted` | kernel/mm/pmm.cpp:16-17 | While the kernel runs, free_count() plus the tables, the heap's pages and the frames reserved at boot is total_count(); the reserved ones are exactly frame 0, those that hold a byte of the bitmap and those not conventional |
| `KernelStart.DirectMapHolds` | kernel/mm/vmm.cpp:14-16 | While the kernel runs, phys_to_virt of every table frame and every free frame is mapped to that frame, and may be written |
| `KernelStart.MemoryInReach` | kernel/mm/vmm.cpp:83-105 | While the kernel runs, every byte of the memory map is found at its address plus HHDM_OFFSET, and at its own address unless its entry starts at 0, and may be written and executed there |
| `KernelStart.BitmapByte` | kernel/mm/pmm.cpp:43-46 | While the kernel runs, every byte of the bitmap is found, and may be written, at the physical address the allocator uses, in a frame that is neither free nor a table nor the heap's |
| `KernelStart.HeapAddress` | kernel/mm/heap.cpp:15-65 | While the kernel runs, each address of the heap goes to its place in the frame behind its page, may be written and not executed, and that frame is no table, not free, and holds no byte of the bitmap |
| `KernelStart.Boot` | kernel/entry.cpp:32-36 | Starts a running system: all three invariants, ownership of every frame, the direct map and the bitmap's own map, and a heap that is one free block. It fails exactly when no entry can hold the bitmap, when the tables left fewer than two frames, or when these hold no run of the size the heap asks for with enough beside it for its tables; the tables took the lowest of the frames handed over, and only for pages mapped at boot |
| `HeapSessions.Perform` | kernel/mm/heap.cpp:79-124 | One request by a caller keeps the system running and changes what callers hold as told and nothing else they hold. An allocation is the first fit, or refused exactly when it has to be; a resize is that allocation followed by the release of the old block; giving back releases the block behind the buffer; other requests change no list |
| `HeapSessions.NewBlockSuffices` | kernel/mm/heap.cpp:103-110 | Under the guard the block a resize takes holds all of the old one, whatever blocks the two requests were given |
| `HeapSessions.AnsweredOnlyHeld` | kernel/mm/heap.cpp:79-124 | If every block in use was behind a held buffer before a request, it is after it, whatever the request and its result |
| `HeapSessions.AllGivenBack` | kernel/mm/heap.cpp:112-124 | Once nothing is held, a heap in which only held blocks are in use is one free block |
| `HeapSessions.Serve` | kernel/mm/heap.cpp:79-124 | After any run of allocations, zeroed allocations, resizes under the guard, writes at any offset and frees: every buffer still held is backed by a block of its own that has exactly the bytes its holder last wrote, every step is answered as `Perform` says, and all frames are accounted for. When nothing was in use at the start, the blocks in use are exactly those of the held buffers, and once all are given back the list is one free block as large as the heap |
| `Digits.DigitsDenote` | lib/common/vsnprintf.cpp:72-78 | The digits stored in the buffer of 32 denote the value modulo base^32 |
| `Digits.PrintedExactly` | lib/common/vsnprintf.cpp:66-98 | Every 64-bit value is printed exactly in bases 8, 10 and 16; in base 2 if and only if it is below 2^32 |
| `Digits.NoLeadingZero` | lib/common/vsnprintf.cpp:73-78 | The highest digit of a value that fits is not zero |
| `Digits.DigitCount` | lib/common/vsnprintf.cpp:73-78 | A value below base^n takes at most n digits, and at least one |
| `Digits.Atoi` | lib/common/stdlib.cpp:12-22 | Consumes exactly the run of digits and returns their decimal value modulo 2^32 |
| `Fields.FieldLayout` | lib/common/vsnprintf.cpp:22-64 | Without '#', width at most 32, precision at most 31: spaces, sign, zeros, digits in this order, or digits first and spaces last, and the length is max(width, sign + body) |
| `Fields.IntegerLayout` | lib/common/vsnprintf.cpp:22-98 | The same for every 64-bit value in base 8 or above, whose digits always leave room |
| `Fields.SignShown` | lib/common/vsnprintf.cpp:40-60 | A minus, a plus or a space is put in front of the zeros and digits if and only if the field is left-justified or neither a precision of 32 or more nor a zero-padded width above 32 fills the buffer; a minus or plus is otherwise missing from the whole field |
| `Fields.PrefixKeepsDigits` | lib/common/vsnprintf.cpp:46-54 | '#' keeps every digit if and only if a precision is given or the width is not exactly the digit count (nor, for zero-padded hexadecimal, one more) |
| `Fields.PrefixLayout` | lib/common/vsnprintf.cpp:22-64 | With '#', for every width and precision with which all digits and the prefix are kept: padding, prefix, zeros and digits in this order, and no padding in front of a zero-padded field |
| `Fields.PrefixRoom` | lib/common/vsnprintf.cpp:40-54 | Which widths and precisions these are, exactly, and how many zeros they give |
| `Fields.AtoiReadsBack` | lib/common/stdlib.cpp:12-22 | The digits atoi consumes are exactly an unsigned decimal field if and only if it holds no blank, and then denote the value |
| `Directives.UnsignedReadsBack` | lib/common/vsnprintf.cpp:258-303 | For every %u directive: atoi returns the value and stops at the field's end if and only if it is not padded with blanks and the value is below 2^32 |
| `Directives.StringFillsWidth` | lib/common/vsnprintf.cpp:330-347 | The exact condition under which %s with a precision is as long as its width asks |
| `PrinterLimits.MinusLost` | lib/common/vsnprintf.cpp:40-60 | The format %040d prints -5 without its minus |
| `PrinterLimits.DigitsDropped` | lib/common/vsnprintf.cpp:46-54 | The format %#3x prints 0x123 as 0x3 |
| `PrinterLimits.ColumnTooMany` | lib/common/vsnprintf.cpp:330-347 | The format %5.4s prints "ab" in six columns |
| `PrinterLimits.HighBitsLost` | lib/common/vsnprintf.cpp:72-78 | The format %lb prints 2^32 as zeros |
| `PrinterLimits.PercentAlone` | lib/common/vsnprintf.cpp:365-368 | The format % steps over the terminator |
| `PrinterLimits.SettingsAlone` | lib/common/vsnprintf.cpp:365-368 | So does the format %-5l, whatever the arguments |
| `Directives.DirectiveAppend` | lib/common/vsnprintf.cpp:193-254 | What follows a complete directive never changes how it is read |
| `Directives.RenderAppend` | lib/common/vsnprintf.cpp:182-375 | A format of complete directives followed by another prints the two texts one after the other, the second reading the remaining arguments |
| `Directives.EscapedRenders` | lib/common/vsnprintf.cpp:360-363 | A text with its percent signs doubled prints as itself and takes no argument |
| `Spellings.SpelledRead` | lib/common/vsnprintf.cpp:193-254 | Every well-formed spelling of a directive, whatever follows it, is read as what it means: flags in any order, width and precision as figures or stars, length modifier, conversion character |
| `Spellings.DirectiveSpelled` | lib/common/vsnprintf.cpp:193-254 | Whatever is read as a whole directive is such a spelling |
| `Spellings.FormatPrints` | lib/common/vsnprintf.cpp:182-375 | A format made of ordinary characters and spelled directives prints what its pieces print, and to its end exactly when the arguments match what the directives demand |
| `Spellings.FormatsEndWell` | lib/common/vsnprintf.cpp:365-368 | For some arguments the code steps over the terminator, exactly when the text is not such a format |
| `Spellings.FormatsComplete` | lib/common/vsnprintf.cpp:182-375 | With arguments that do not stop it, printing is complete exactly on formats |
| `PrintedText.IntegerPrinted` | lib/common/vsnprintf.cpp:258-303 | Every %d, %i, %u, %x, %X, %o directive, and %b below 2^32, without an effective '#', whatever its flags, width, precision and length modifier, given an argument that passes the C value v in two's complement: it prints v's sign and the numeral of its magnitude, in the base and letters of the conversion character, with at least one figure and no leading zero (none for a zero with a precision), in the columns written out; the sign is missing exactly beyond 32 places |
| `PrintedText.PrefixedPrinted` | lib/common/vsnprintf.cpp:46-54 | With '#' the same numeral after 0x, 0X, 0 or 0b, wherever the buffer has room for figures and prefix (%b below 2^30) |
| `PrintedText.NumeralShown` | lib/common/vsnprintf.cpp:66-98 | The stored digits, highest first, are the numeral of the value |
| `PrintedText.MeaningGiven` | lib/common/vsnprintf.cpp:204-235 | A width or precision is the number its figures write, modulo 2^32, or the int a star's argument passes; a negative width is a '-' and its magnitude, a negative precision is 0 |
| `PrintedText.CharPrinted` | lib/common/vsnprintf.cpp:315-328 | %c prints the one character whose code is the argument's lowest byte, with blanks up to the width on the side '-' asks for |
| `PrintedText.PointerPrinted` | lib/common/vsnprintf.cpp:349-358 | %p without a precision prints the numeral of the address in capitals, with zeros in front up to sixteen columns, or blanks behind with '-' |
| `PrintedText.TextPrinted` | lib/common/vsnprintf.cpp:330-347 | Every %s directive: place by place the characters of the text in their order, as many as the precision allows, and the blanks the code counts, on the side '-' asks for |
| `PrintedText.TextAlone` | lib/common/vsnprintf.cpp:330-347 | %s prints every text as itself |
| `Printer.BackEndsAgree` | lib/common/vsnprintf.cpp:9-20 | For a text without NUL the string left in the buffer is the delivered text cut to maxlength - 1 characters |
| `Printer.Sink.Out` | lib/common/vsnprintf.cpp:9-20 | Either back end shows one character more of the emitted text, provided the index is the number emitted so far |
| `Printer.Sink.Terminate` | lib/common/vsnprintf.cpp:372 | Places the terminator after the text or on the last place below maxlength; does nothing for maxlength 0 |
| `Printer.Sink.OutRev` | lib/common/vsnprintf.cpp:22-37 | Emits the buffer backwards, justified to the width, at consecutive indices |
| `Printer.Sink.NtoaFormat` | lib/common/vsnprintf.cpp:39-64 | For all flags, widths and precisions the index into the buffer of 32 stays in range, and exactly the specified field is emitted |
| `Printer.Sink.StoreDigits` | lib/common/vsnprintf.cpp:72-79 | The loop leaves exactly the digits of the value, lowest first, at most 32 of them |
| `Printer.Sink.Ntoa` | lib/common/vsnprintf.cpp:66-98 | Emits exactly the integer field of the value |
| `Printer.Sink.PutInteger` | lib/common/vsnprintf.cpp:258-303 | An integer conversion emits the text the directive stands for, after the length modifiers, sign and flags are settled; which text that is, `PrintedText.IntegerPrinted` and `PrefixedPrinted` say without the printer's functions |
| `Printer.Sink.PutString` | lib/common/vsnprintf.cpp:330-347 | %s emits at most precision characters with the padding the code computes; which text that is, `PrintedText.TextPrinted` says place by place |
| `Printer.Sink.Convert` | lib/common/vsnprintf.cpp:257-369 | Every conversion emits exactly the directive's text and consumes exactly its argument |
| `Printer.ScanDirective` | lib/common/vsnprintf.cpp:193-254 | The scanning loops read every well-formed spelling as what it means, taking the arguments of its stars, and agree with the specification on every other text |
| `Printer.Sink.Format` | lib/common/vsnprintf.cpp:182-375 | Both back ends receive the rendered text at consecutive indices, terminated; returns its length as an int |
| `Printer.Snprintf` | lib/common/vsnprintf.cpp:377-387 | The whole buffer afterwards, place by place: as much of the text as fits below maxlength - 1, the terminator, everything beyond untouched; returns the full length |
| `Printer.PrintThenRead` | lib/common/stdlib.cpp:12-22 | A %u directive, however it is spelled, printed into a buffer and read back from it by atoi: the value and the end of the text, exactly when the field has no blank and the value is below 2^32 |
| `Printer.Fctprintf` | lib/common/vsnprintf.cpp:389-400 | The function receives the text without its NULs; returns the full length |
| `Structs.FieldRead` | boot/src/include/boot/boot.h:17-28 | In a struct written field by field, a load at a field's place reads its value |
| `Structs.FileHeaderRead` | boot/src/include/boot/boot.h:17-24 | e_machine, e_phoff, e_phentsize and e_phnum are read from their places in an Elf64_Ehdr written field by field |
| `Structs.ProgramHeaderRead` | boot/src/include/boot/boot.h:26-29 | p_type, p_offset, p_vaddr, p_filesz and p_memsz are read from their places in an Elf64_Phdr written field by field |
| `SegmentLoader.HeadersRead` | boot/src/main.c:91-102 | For every file with an ELF header and program headers where it says, the first checks pass exactly on the right signature, machine, a table and at least one header, and the headers the loader goes over are those of the file |
| `SegmentLoader.LastBackerWins` | boot/src/main.c:123-132 | Where segments overlap the last header that backs an address decides its byte |
| `SegmentLoader.UnbackedIsZero` | boot/src/main.c:121-132 | An address no header backs is zero |
| `SegmentLoader.SegmentExact` | boot/src/main.c:121-132 | Segments that do not overlap load exactly: their file bytes, then zeros up to p_memsz |
| `SegmentLoader.Extent` | boot/src/main.c:100-106 | The first pass computes the lowest start and highest end over the loadable headers |
| `SegmentLoader.ExtentHolds` | boot/src/main.c:100-106 | Without wrap, that extent holds every loadable segment |
| `SegmentLoader.ExtentAttained` | boot/src/main.c:100-106 | Each end of the extent is the end of some loadable segment, if there is one |
| `SegmentLoader.PagesHoldAll` | boot/src/main.c:107-115 | Rounded to pages it still does, and the page count is exact |
| `SegmentLoader.CopySegments` | boot/src/main.c:123-132 | The pass ends with the verdict on the first bad header; on success every byte of the image is the one the headers describe |
| `SegmentLoader.PassExact` | boot/src/main.c:123-132 | When no segment wraps no access goes astray, and the pass succeeds if and only if every loadable header is sane |
| `SegmentLoader.PassEnds` | boot/src/main.c:123-132 | Whatever the headers hold, the pass succeeds exactly when all are let through and stay inside file and pages, and goes astray exactly when the first that does not is let through by the check, which wraps |
| `SegmentLoader.OffsetWraps` | boot/src/main.c:123-132 | An input: a header whose offset plus file size wraps passes the check, and its copy leaves the file |
| `SegmentLoader.EndWraps` | boot/src/main.c:100-132 | An input: a segment whose end wraps to 0 does not extend the pages, and its copy leaves them |
| `SegmentLoader.LastPageLoads` | boot/src/main.c:107-132 | An input: a segment in the last page loads though rounding its end up wraps |
| `SegmentLoader.RunPasses` | boot/src/main.c:98-132 | Whatever the headers hold: it ends without pages, loaded, or with an access astray, each exactly under its condition on the headers; when no segment wraps it loads if and only if the pages are granted, something is to be loaded and all headers are sane, and the image then holds every segment |
| `SegmentLoader.LoadKernel` | boot/src/main.c:91-132 | The same from the raw file, with the signature, machine and header-table checks in front; and for every file that has an ELF header and program headers written field by field, in terms of those headers: refused, loaded, without pages or astray exactly under their conditions, and a loaded image is the one they describe |

## Left out

- Hardware: `rdmsr`/`wrmsr`, `invlpg`, CR3 and TLB effects. CR3 and `physOffset` are fields, and a pointer is translated by the tables CR3 names.
- Console, framebuffer, font, serial output, GDT, IDT, IRQ and ports: device writes and fixed tables.
- `_ftoa` and the floating-point directives: not compiled into the kernel. `math`, `strlen`, `contains`, `memcmp`: they would only add easy members.
- The rest of `efi_main` (files, graphics, handover) and the firmware's answers: whether the pages are granted is a parameter.
- The memory map is a sequence of descriptors; the stride `desc_size` and the other descriptor fields are not modelled. Memory above 2^47 (for the tables) and 2^46 (for `Boot`, whose direct map must end below the heap) is excluded by a precondition, because there the maps the kernel makes overlap.
- Memory is modelled twice: as frames of 512 entries for the page tables and as the heap's bytes. Frame ownership is what keeps the two apart; that a heap byte is stored in the frame behind its page is not a statement of the model. The bitmap is an array of its own, kept apart from other frames by `Pmm.Init`.
- A frame is zeroed for a new table in one step rather than by the `memset` loop; the loop itself is `Bytes.Memory.Memset`.
- `flags` of `map` cannot overlap ADDR_MASK: an entry is a record of three bit fields.
- 64-bit wrap is modelled where an address or an ELF field can wrap. Frame counts, heap sizes and the printer's `idx` are unbounded integers; `Format` truncates the returned length to an int.
- The most negative int or long is negated as two's complement does.
- KernelHeap.Heap.Realloc: where the new block is smaller than the old one the method ends before the copy; what the code then overwrites is not modelled.
- KernelHeap.Heap.Free: requires a live pointer; double free and foreign pointers are not modelled. `HeapSessions.Serve` shows that callers which only free what they hold meet this.
- PhysicalMemory.Pmm.FreeFrames: freeing a frame that belongs to somebody else is allowed here as in the code; `Vmm.ReturnFrames`, which the heap calls, requires the frames to be no tables.
- VirtualMemory.Vmm.Unmap: unmapping a page of the direct map is described, but no later call is once the direct map of a table is gone, since nothing in the code protects it.
- VirtualMemory.Vmm.UnmapRange: requires that the range spares the direct map, for the same reason: its next step would go through the pages it has just taken away. `MappingRuns.RunCalls` requires it too.
- VirtualMemory.Vmm.Map: a failed call may leave new empty tables on the path of its key, as the code does; they are not returned.
- VirtualMemory.Vmm.Init: nothing is claimed about reachability when a descriptor could not be mapped for want of frames, nor about a framebuffer that overlaps a descriptor (its `map_range` then fails as a whole) or is not page-aligned.
- HeapSessions.Serve: a resize that fails the guard is not performed, since by `CopySizes.ResizeIsSafe` it may copy beyond the new block.
- Printer.Sink.Format: an argument that is missing or of the wrong kind ends the run (`BadArgument`), as C leaves it undefined; `va_list` is a sequence of integers and strings.
- PrintedText.PrefixedPrinted: a %b of 31 or 32 figures with '#' is left out, and so are the settings with which digits or prefix find no room; `Fields.PrefixKeepsDigits` has the condition under which digits are lost.
- PrintedText.PointerPrinted: %p with a precision, or with '#' and an address other than 0, is emitted as `Directives.PointerText` says, and not written out.
- SegmentLoader.LoadKernel: an access outside the file or the granted pages ends the run (`Astray`); what such an access would do is not modelled.
