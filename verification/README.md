# Verified model of the guest runtime

A Dafny model of the runtime library that the guest tests of `acrn-unit-test` are linked with, and
of two pieces of test code that stand on it. It covers the allocator stack, the split virtqueue
driver, the processor re-INIT handshake, the table-driven CRC-32, the formatter with its string and
report helpers, the environment file parser, and PCI capability walking, register sizing and window
allocation. `dafny verify dfyconfig.toml` checks the whole project.

## What is modelled

- **Allocator stack.** `PhysAlloc.dfy` is the early bump allocator and its hand-over to the page
  allocator; `PageAlloc.dfy` is the free list kept inside the pages it manages, with the search for
  aligned runs; `PageRuns.dfy` says what that search finds and what every sequence of calls conserves;
  `PageOps.dfy` and `Bitops.dfy` are the page allocator behind `malloc` and the `fls` it rounds with;
  `Vmalloc.dfy` cuts virtual ranges, takes frames and page-table pages off the list and gives frames
  back; `Heap.dfy` is `memalign` and `free` with the two header words they keep in memory; `Layers.dfy`
  puts the stack together as `setup_vm` does.
- **Virtqueue** (`Virtio.dfy`). Driver and device as two parties on one descriptor table and two rings
  with 16-bit indices. A step of either party is a method; a run is any sequence of steps. Section 2.6
  of VIRTIO 1.1 describes the rings.
- **Handshake** (`Handshake.dfy`). The boot processor's call, the two restarts it sends and the booting
  application processor, as a transition system with one step per shared-memory access.
- **CRC-32** (`Crc32.dfy`). The byte loop with its 256-entry table against the bit-at-a-time
  definition of section 8 of RFC 1952.
- **Text** (`Text.dfy`, `Numbers.dfy`, `Printf.dfy`, `Format.dfy`, `Numerals.dfy`, `FormatLaws.dfy`,
  `Strings.dfy`, `Report.dfy`, `Env.dfy`). `vsnprintf` against the unbounded text a format stands for, and
  that text against positional numerals and justified fields; `atol`, `strlen`, `memcmp`, `strstr`; the
  stack of report prefixes held in one string; the environment parser.
- **PCI** (`PciCaps.dfy`, `PciBars.dfy`, `PciHost.dfy`). Sections 6.2.5.1 and 6.7 of PCI Local Bus 3.0
  describe the registers and the list.

Machine integers are unbounded `int`s with wrap-around written out (`Wrap`, `Align64`, `ToInt`, `ToLong`,
indices modulo 2^16); signed overflow, which C leaves undefined, wraps as it does on x86. The CRC uses
bit-vectors. NULL is 0. `virt_to_phys` is the identity, as on x86. A failed assertion of the source is an
outcome of its own (`Abort`, `Refused`, `ok == false`, `BadId`, `TooMany`) where the caller can meet it, and a
precondition where the source states it as a demand on the caller. A read outside a table or through NULL is
an outcome too (`Wild`, `ok == false`).

## Where the code does not do what it is for

Each of these is proved: an input or a family of inputs that fails, and the exact condition under which
the code does what it should.

- `alloc_pages` does not start a new run at the page that broke one, so it can miss a run that is on the
  list (`ShadowedRunIsMissed`). It returns NULL exactly when no run can be opened and completed by its scan
  (`AllocPages`), and a run with no aligned page of an overlapping run before it is never missed
  (`UnshadowedRunIsFound`).
- `free_pages` with size 0 empties the list (`EmptyFreeLosesTheList`); a run of calls loses no page exactly
  when it makes no such call on a list that holds pages (`RunsConserve`).
- `page_memalign` asks for two pages when its rounding wraps (`PageCountCovers`), and `page_free` leaves
  the tail of a block that is not a power of two on no list (`PageFreeKeepsTheTail`, `TakeAndGiveBack`).
- `phys_alloc_aligned_safe` grants sizes whose padded sum wraps (`HugeSizeIsGranted`,
  `PhysAlloc.GrantSoundIffNoWrap`).
- `memalign` lays a block out without overlap exactly when what the request needs stays below 2^64
  (`BlockLayout`); where that is 2^64 it asks for a block of size 0 (`EmptyBlock`). `vm_memalign` counts pages in
  32 bits and covers the size exactly up to 2^32 - 1 pages (`PagesCoverIff`).
- `vm_free` ends only for page multiples (`VmFreeEnds`); `memalign` records nothing else.
- The handshake can return without the modification having run when the application processor is still
  on its first pass through `ap_main` (`LateApSkipsTheModification`, `SettlesIffApIsDone`).
- `print_int` negates the least `long` to itself and leaves its digit table (`LeastLongIsWild`); every other
  `long` is printed and reads back (`PrintedLongReadsBack`). A width is cut to an `int`, so "%4294967301d" pads
  to 5 (`WidthIsInt`), and the count returned by `vsnprintf` is the length exactly below 2^31 (`Vsnprintf`).
- A pushed prefix reads back exactly when it holds no NUL and fits (`ReadsBackIffReadable`). With a NUL in it
  the pop that follows does not undo the push, and uses a NULL unless the NUL comes first (`PushThenPop`,
  `PrefixWithNul`); a text of 2^32 characters is accepted (`HugeTextIsAccepted`).
- `pci_alloc_resource` grants ranges outside the window once its sum passes 2^64
  (`HalfOfAllIsGranted`, `PciHost.GrantSoundIffNoWrap`), and `pci_host_bridge_get_paddr` recognises no
  address of a window that ends at 2^64 (`HitsIffBelowTop`).

## Model

| member | source | states |
|---|---|---|
| `Machine.Align64IsWrapped` | acrn-unit-test/guest/lib/libcflat.h:33-35 | ALIGN on 64-bit operands is rounding up to a multiple, and 0 exactly when the rounded value is 2^64 |
| `PageAlloc.PageAllocator.FreePages` | acrn-unit-test/guest/lib/alloc_page.c:24-54 | the pages of the region go to the front of the list in address order, the rest keeps its order, no other memory changes; size 0 empties the list |
| `PageAlloc.PageAllocator.LinkRun` | acrn-unit-test/guest/lib/alloc_page.c:46-52 | the loop links each page of the region to the next and the last to the old list, also when the region ends at 2^64 |
| `PageAlloc.PageAllocator.AllocPage` | acrn-unit-test/guest/lib/alloc_page.c:56-69 | the first page leaves the list; NULL exactly on the empty list |
| `PageAlloc.PageAllocator.Search` | acrn-unit-test/guest/lib/alloc_page.c:75-127 | the traversal stops at the first place where the run counter reaches 2^order, with the page before the run and the page after it in hand |
| `PageAlloc.ScanHit` | acrn-unit-test/guest/lib/alloc_page.c:106-120 | when the counter reaches 2^order there, a consecutive run with an aligned start ends there, and none ended earlier |
| `PageAlloc.PageAllocator.Unlink` | acrn-unit-test/guest/lib/alloc_page.c:120-126 | splicing removes exactly the run from the list in memory, at the head or in the middle |
| `PageAlloc.PageAllocator.AllocPages` | acrn-unit-test/guest/lib/alloc_page.c:75-130 | exactly the first hit of 2^order pages leaves the list and all others keep their order; NULL if and only if no run is one the scan can open and complete, and then list and memory are unchanged |
| `PageAlloc.PageAllocator.FreePage` | acrn-unit-test/guest/lib/alloc_page.c:133-139 | the page becomes the head of the list |
| `PageRuns.TakenRunIsAligned` | acrn-unit-test/guest/lib/alloc_page.c:71-130 | the old list is the new one with 2^order pages inserted at one place; they are consecutive from a start aligned to 2^order pages and none of them is left on the list |
| `PageRuns.UnshadowedRunIsFound` | acrn-unit-test/guest/lib/alloc_page.c:106-118 | if 2^order pages in a row that start on a multiple of their size are on the list, and no shorter row from an earlier multiple leads up to them, some run is found |
| `PageRuns.MaskIsBoundary` | acrn-unit-test/guest/lib/alloc_page.c:85-107 | the mask test holds of a page if and only if it is a multiple of 2^order pages and the order is below 52 |
| `PageRuns.SinglePageIsHead` | acrn-unit-test/guest/lib/alloc_page.c:75-130 | alloc_pages(0) takes the head of the list, and is NULL if and only if the list is empty |
| `PageRuns.ShadowedRunIsMissed` | acrn-unit-test/guest/lib/alloc_page.c:116-118 | behind any single page at a multiple of 8192 a pair at a multiple of 8192 is on the list and alloc_pages(1) returns NULL |
| `PageRuns.StepConserves` | acrn-unit-test/guest/lib/alloc_page.c:24-139 | every call keeps free and held pages disjoint, duplicate-free and donated; it keeps them equal to all pages ever donated unless it frees size 0 while pages are on the list, both directions |
| `PageRuns.RunsConserve` | acrn-unit-test/guest/lib/alloc_page.c:24-139 | the same over every run of calls from the empty allocator: no page is lost if and only if no such call is in the run |
| `PageRuns.Make` | acrn-unit-test/guest/lib/alloc_page.c:24-139 | each call on the list in memory makes exactly its step, and the list stays linked to NULL |
| `PageRuns.MakeAll` | acrn-unit-test/guest/lib/alloc_page.c:24-139 | any sequence of calls goes through the worlds its legal calls step through; the list in memory ends safe, and conserved if and only if no call made freed size 0 while pages were on the list |
| `PageRuns.EmptyFreeLosesTheList` | acrn-unit-test/guest/lib/alloc_page.c:38-41 | the call that frees size 0 conserves pages if and only if the list was empty |
| `Bitops.Rung` | acrn-unit-test/guest/lib/bitops.h:42-62 | one rung of the ladder keeps the sum of counter and logarithm and moves the top bit above its limit |
| `Bitops.Fls` | acrn-unit-test/guest/lib/bitops.h:37-66 | the ladder returns floor(log2 w) for every nonzero 64-bit w, and 0 for 0 |
| `Bitops.Log2Bounds` | acrn-unit-test/guest/lib/bitops.h:37-66 | what that number means: 2^k <= w < 2^(k+1) |
| `Bitops.Log2Unique` | acrn-unit-test/guest/lib/bitops.h:37-66 | no other number does |
| `PageOps.LeastOrder` | acrn-unit-test/guest/lib/alloc_page.c:149 | the order picked is the least one with 2^order >= n |
| `PageOps.PageCountCovers` | acrn-unit-test/guest/lib/alloc_page.c:143 | the page count covers the size, without a whole page to spare, if and only if size <= 2^64 - 4096; above that it is 0 and two pages are asked for |
| `PageOps.PageMemalign` | acrn-unit-test/guest/lib/alloc_page.c:141-152 | takes a run of the least order for the page count; NULL and nothing taken for size 0 |
| `PageOps.PageFreeKeepsTheTail` | acrn-unit-test/guest/lib/alloc_page.c:141-157 | of the list after page_free of n pages exactly the last 2^order - n pages of the block are missing; nothing is missing if and only if n is a power of two |
| `PageOps.PageFree` | acrn-unit-test/guest/lib/alloc_page.c:154-157 | the pages given go to the front of the list in memory |
| `PageOps.TakeAndGiveBack` | acrn-unit-test/guest/lib/alloc_page.c:141-157 | page_memalign and page_free of n pages on the list in memory: the tail of the block is missing from it afterwards and nothing else; no page is if and only if n is a power of two |
| `PhysAlloc.EarlyAllocator.constructor` | acrn-unit-test/guest/lib/alloc_phys.c:54-61 | the region starts whole, with nothing taken |
| `PhysAlloc.GrantSoundIffNoWrap` | acrn-unit-test/guest/lib/alloc_phys.c:85-101 | a grant is aligned, inside the free memory and moves the base past it if and only if the padded size does not wrap |
| `PhysAlloc.RefusedOnlyWhenFull` | acrn-unit-test/guest/lib/alloc_phys.c:87-99 | without wrap a request is refused exactly when it does not fit |
| `PhysAlloc.HugeSizeIsGranted` | acrn-unit-test/guest/lib/alloc_phys.c:87-101 | a request of nearly 2^64 bytes is granted from a small region, and the base does not move |
| `PhysAlloc.EarlyAllocator.Memalign` | acrn-unit-test/guest/lib/alloc_phys.c:71-143 | every region handed out is aligned, inside the initial region and disjoint from all earlier ones, whether logged or not; NULL changes nothing |
| `PhysAlloc.EarlyAllocator.GetUnused` | acrn-unit-test/guest/lib/alloc_phys.c:118-130 | the rest of the memory is reported and becomes the last region |
| `PhysAlloc.HandOver` | acrn-unit-test/guest/lib/vmalloc.c:89-105 | the assertion fails exactly when there is neither memory nor a page on the list; a list that holds pages stays; an empty one becomes the whole pages of the rest, each past every early allocation and below the top |
| `Vmalloc.Vm.AllocVpages` | acrn-unit-test/guest/lib/vmalloc.c:21-27 | the top moves down by the range, in wrapping arithmetic from 2^64 |
| `Vmalloc.Vm.WalkTables` | acrn-unit-test/guest/lib/x86/vm.c:6-32 | each missing table of the walk takes one page off the list; owners stay disjoint and account for every donated page |
| `Vmalloc.Vm.MapPage` | acrn-unit-test/guest/lib/vmalloc.c:66-70 | one virtual page gets a frame no table, live page or free list holds |
| `Vmalloc.Vm.MapRange` | acrn-unit-test/guest/lib/vmalloc.c:65-70 | the loop maps each page of the range to a frame of its own; other live pages keep their frames |
| `Vmalloc.Vm.VmMemalign` | acrn-unit-test/guest/lib/vmalloc.c:57-72 | for every 64-bit size the pages it counts are mapped one by one to distinct frames below all earlier ranges, and earlier mappings stay; nothing is mapped for a size it counts as 0 |
| `Vmalloc.Vm.UnmapPage` | acrn-unit-test/guest/lib/vmalloc.c:77 | the frame of the page goes to the head of the list and nothing else moves |
| `Vmalloc.Vm.VmFree` | acrn-unit-test/guest/lib/vmalloc.c:74-81 | terminates for page multiples and returns exactly the range's frames, last page first, above the old list |
| `Vmalloc.VmFreeEnds` | acrn-unit-test/guest/lib/vmalloc.c:74-81 | the loop of vm_free reaches size 0 if and only if the size is a page multiple |
| `Vmalloc.PagesCoverIff` | acrn-unit-test/guest/lib/vmalloc.c:61-64 | the pages counted cover the size, without a whole page to spare, if and only if they are fewer than 2^32 |
| `Vmalloc.TablesOf` | acrn-unit-test/guest/lib/x86/vm.c:6-32 | the three tables below the root on the way to an address, each by the address bits above it |
| `Vmalloc.FirstMappingTakesThreeTables` | acrn-unit-test/guest/lib/vmalloc.c:65-70 | the first n pages mapped within 2 megabytes take n frames and three table pages |
| `Heap.PlanIsWrapped` | acrn-unit-test/guest/lib/alloc.c:47-56 | for every size the block asked of the backend is header, slack and user bytes rounded up, wrapped to 64 bits |
| `Heap.RoomIffNoWrap` | acrn-unit-test/guest/lib/alloc.c:47-56 | below 2^64 the block has room for all three and less than a unit to spare; from 2^64 on it has no room for header and user bytes |
| `Heap.PlaceBounds` | acrn-unit-test/guest/lib/alloc.c:59-61 | the pointer is aligned, two words past the block's start or more, and the slack is below the alignment |
| `Heap.BlockLayout` | acrn-unit-test/guest/lib/alloc.c:43-67 | for every power-of-two alignment, every size and any word-aligned block of the planned size: pointer aligned, header words and user bytes inside the block without overlap, if and only if what is needed stays below 2^64 |
| `Heap.EmptyBlock` | acrn-unit-test/guest/lib/alloc.c:43-67 | every size at most 2^64 - 16 and less than a unit below that asks for a block of size 0, and its header starts at the address the backend returns |
| `Heap.Heap.Memalign` | acrn-unit-test/guest/lib/alloc.c:43-67 | live blocks stay disjoint and keep their headers and contents; the new pointer is aligned, 16 bytes into its block for alignments up to 8 and less than an alignment past that otherwise, and its block is recorded |
| `Heap.Heap.HeaderWords` | acrn-unit-test/guest/lib/alloc.c:63-65 | 16 bytes before a live pointer is its distance from the block, 8 bytes before it the size of the block, in the frames of their pages |
| `Heap.PlanPagesCover` | acrn-unit-test/guest/lib/alloc.c:47-56 | the pages of a block hold 16 bytes, the bytes asked for and the slack, and no page more |
| `Heap.Heap.Write` | acrn-unit-test/guest/lib/alloc.c:63-66 | a store to user bytes of a live block changes no header, so whatever the user writes leaves free with the right block |
| `Heap.Heap.Free` | acrn-unit-test/guest/lib/alloc.c:21-41 | the header leads to exactly the base and size allocated; exactly that block's frames return to the page list, and all other blocks stay as they were |
| `Layers.SetupVm` | acrn-unit-test/guest/lib/vmalloc.c:89-105 | the virtual-range allocator built on the handed-over list starts valid, and every page it can ever own is past every early allocation |
| `Layers.EarlyMemoryIsNeverTouched` | acrn-unit-test/guest/lib/vmalloc.c:57-105 | in every state of that allocator no free page, page-table page or address of a mapped page meets an early allocation |
| `Virtio.PowersOfTwoAreGood` | acrn-unit-test/guest/lib/virtio.c:74 | every power of two below 2^16 is a ring size for which masked 16-bit indices stay in step |
| `Virtio.SlotOfIndex` | acrn-unit-test/guest/lib/virtio.c:74 | the masked 16-bit index is the slot of the unbounded count, over runs of any length |
| `Virtio.RingAppend` | acrn-unit-test/guest/lib/virtio.c:74-77 | appending to a ring that is not full overwrites no entry the other side has yet to read |
| `Virtio.Virtqueue.constructor` | acrn-unit-test/guest/lib/virtio.c:23-48 | a new queue has every descriptor on the free chain and nothing in flight |
| `Virtio.Virtqueue.Accounts` | acrn-unit-test/guest/lib/virtio.c:43-125 | free descriptors plus those waiting, held and done equal num; free ones are distinct |
| `Virtio.Virtqueue.AddOutbuf` | acrn-unit-test/guest/lib/virtio.c:50-81 | -1 and no change when nothing is free; else the head of the free chain describes the buffer and is the next entry of the available ring |
| `Virtio.Virtqueue.DetachBuf` | acrn-unit-test/guest/lib/virtio.c:90-104 | a chain of any length goes back to the front of the free chain, counted link by link |
| `Virtio.Virtqueue.GetBuf` | acrn-unit-test/guest/lib/virtio.c:106-125 | returns the buffer of the next used element, whose descriptor becomes the free head |
| `Virtio.Virtqueue.DeviceTake` | acrn-unit-test/guest/lib/virtio.c:74-77 | the device reads the submitted heads in submission order, each once |
| `Virtio.AllAccounted` | acrn-unit-test/guest/lib/virtio.c:59-104 | free and in-flight descriptors share the table: distinct, disjoint, and num together |
| `Virtio.DriverSubmit` | acrn-unit-test/guest/lib/virtio.c:50-81 | a submission is accepted exactly when a descriptor is free, and what the device will see is the buffers sent, in order |
| `Virtio.DriverReap` | acrn-unit-test/guest/lib/virtio.c:106-125 | reaping a published entry keeps what waits for the device |
| `Virtio.Interleave` | acrn-unit-test/guest/lib/virtio.c:23-125 | in every interleaving of submit, take, complete and reap the queue stays valid with the tally the steps add up to, and the device has seen exactly the first of the buffers sent |
| `Handshake.StepKeepsInv` | acrn-unit-test/guest/x86/cpumode.c:30-60 | every step of either processor keeps the invariant of the call in progress |
| `Handshake.EveryRunSettles` | acrn-unit-test/guest/x86/cpumode.c:30-120 | over every interleaving and any number of calls, each returned call ran its modification exactly once, a boot began after it, and both flags are 0 at return |
| `Handshake.CountIsRestored` | acrn-unit-test/guest/lib/x86/misc.c:148-169 | over every interleaving and any number of calls the count of processors online is back to what it was at each return |
| `Handshake.LateApSkipsTheModification` | acrn-unit-test/guest/x86/cpumode.c:95-120 | a run in which the first call returns without the modification, the processor being still on its way through its first pass |
| `Handshake.SettlesIffApIsDone` | acrn-unit-test/guest/x86/cpumode.c:30-120 | all runs settle if and only if the application processor has finished its first pass when the calls start |
| `Handshake.NoDeadlock` | acrn-unit-test/guest/x86/cpumode.c:30-60 | while a call is in progress some processor can change the state |
| `Handshake.StepProgress` | acrn-unit-test/guest/lib/x86/misc.c:148-169 | every step that changes the state brings the return of the call nearer |
| `Handshake.FairCallReturns` | acrn-unit-test/guest/x86/cpumode.c:30-60 | from any point of any run, a call for 27814, 27816 or 27818 returns under every schedule with 136 rounds in which both processors step |
| `Handshake.UnknownCaseHangs` | acrn-unit-test/guest/x86/cpumode.c:104-119 | from any point of any run, a call for any other case id returns under no schedule |
| `Crc32.EntryIsBits8` | acrn-unit-test/guest/x86/crc32.c:5-43 | all 256 table entries are eight shift steps with polynomial 0xEDB88320 |
| `Crc32.Bits8Linear` | acrn-unit-test/guest/x86/crc32.c:52 | eight shift steps are linear over exclusive or |
| `Crc32.ByteStep` | acrn-unit-test/guest/x86/crc32.c:52 | one table step is eight shift steps, for every state and byte |
| `Crc32.ComputeBuf` | acrn-unit-test/guest/x86/crc32.c:44-55 | the loop equals the bit-at-a-time CRC for every buffer and seed |
| `Crc32.CrcContinues` | acrn-unit-test/guest/x86/crc32.c:48-54 | continuing from the CRC of a prefix gives the CRC of the whole |
| `Crc32.OneByteErrorIsDetected` | acrn-unit-test/guest/x86/crc32.c:48-54 | buffers that differ in one byte have different CRCs |
| `Crc32.LeadingZeroCounts` | acrn-unit-test/guest/x86/crc32.c:49 | a zero byte in front of any buffer changes its CRC |
| `Crc32.Residue` | acrn-unit-test/guest/x86/crc32.c:48-54 | a buffer followed by its own CRC, low byte first, has the CRC 0x2144DF1C, for every buffer and 32-bit seed |
| `Crc32.ShortBuffers` | acrn-unit-test/guest/x86/crc32.c:48-54 | the CRC of nothing is the seed, that of a single zero byte is 0xD202EF8D |
| `Text.AtolLoop` | acrn-unit-test/guest/lib/string.c:138-167 | the loop reads blanks, sign and digits as the number they stand for, wrapped to a long |
| `FormatLaws.AtolMeaning` | acrn-unit-test/guest/lib/string.c:138-167 | spaces and tabs, an optional sign and digits are read as the signed value of the digits, up to the first character that is none |
| `Numbers.AtolUndoesPrintInt` | acrn-unit-test/guest/lib/printf.c:61-93 | atol of the decimal text is the number, for every long and every space-padded width on either side |
| `Numbers.PaddedLength` | acrn-unit-test/guest/lib/printf.c:33-57 | a number printed in any int width has that many characters, or its own when they are more |
| `Numbers.ReverseDigits` | acrn-unit-test/guest/lib/printf.c:71-88 | digits emitted from the least significant and turned round are the number's digits |
| `Printf.EmitDigits` | acrn-unit-test/guest/lib/printf.c:71-74 | the digit loop leaves the digits of a nonnegative number in reverse order at the front of the buffer, 20 at most; for every negative number it leaves its digit table |
| `Printf.Magnitude` | acrn-unit-test/guest/lib/printf.c:66-69 | the 64-bit negation gives the magnitude of every number but the least, which it leaves as it is |
| `Printf.ReverseInPlace` | acrn-unit-test/guest/lib/printf.c:82-88 | the swap loop reverses the text and touches nothing past it |
| `Printf.FormatInt` | acrn-unit-test/guest/lib/printf.c:61-93 | sign, digits and turn-around leave the number's text, with room for its NUL in the local buffer, if and only if the number is not the least one |
| `Printf.FormatUnsigned` | acrn-unit-test/guest/lib/printf.c:95-132 | the same for unsigned numbers in base 10 and 16, with the 0x prefix |
| `Printf.PStream.AddChar` | acrn-unit-test/guest/lib/printf.c:24-31 | the buffer holds what fits of everything added; the count is of everything, as an int |
| `Printf.StoredAt` | acrn-unit-test/guest/lib/printf.c:24-31 | place by place: the output as far as it fits, a NUL, and the rest of the buffer as it was |
| `Printf.PStream.PrintStr` | acrn-unit-test/guest/lib/printf.c:33-57 | adds the string padded to the width, left or right |
| `Printf.PStream.PrintInt` | acrn-unit-test/guest/lib/printf.c:61-93 | adds the padded decimal text of every 64-bit number but the least; for that one it leaves its digit table |
| `Printf.PStream.PrintUnsigned` | acrn-unit-test/guest/lib/printf.c:95-132 | adds the padded text in base 10 or 16 |
| `Format.FmtNum` | acrn-unit-test/guest/lib/printf.c:134-148 | reads the number as an int and steps over exactly its sign and digits, as long as an int can count them |
| `Format.Flag` | acrn-unit-test/guest/lib/printf.c:180-203 | each flag, width and length character changes the conversion as the format's meaning says, with int widths |
| `Format.Print` | acrn-unit-test/guest/lib/printf.c:171-252 | each conversion character adds the text the format's meaning says and takes its argument; it leaves its digit table exactly where the meaning says so |
| `Format.Vsnprintf` | acrn-unit-test/guest/lib/printf.c:150-257 | for every format, argument list and size from 1 to 2^31 - 1: it keeps to its tables if and only if no conversion prints the least number or has a width written with 2^31 characters or more; then only the given part of the buffer is written, with the first size-1 characters of the unbounded text and a NUL, and the value returned is the unbounded length if and only if that is below 2^31 |
| `Format.RenderPlain` | acrn-unit-test/guest/lib/printf.c:157-166 | a format without '%' stands for itself |
| `Format.PrintedLongReadsBack` | acrn-unit-test/guest/lib/printf.c:150-257 | "%ld" prints a long if and only if it is not the least one, and atol reads it back as that long |
| `Format.LeastLongIsWild` | acrn-unit-test/guest/lib/printf.c:66-73 | "%ld" of the least long leaves the digit table |
| `Format.WidthIsInt` | acrn-unit-test/guest/lib/printf.c:134-148 | a decimal width of any size pads to what an int holds of it |
| `Numerals.DigitsNumeral` | acrn-unit-test/guest/lib/printf.c:71-88 | the digits the loops produce are the numeral of the number: digits of the base, its value, no zero in front |
| `Numerals.NumeralIsUnique` | acrn-unit-test/guest/lib/printf.c:71-88 | a number has one numeral |
| `Numerals.PadJustifies` | acrn-unit-test/guest/lib/printf.c:33-57 | print_str puts the text to the right of its field after the pad, or for a negative width to the left before spaces |
| `FormatLaws.StringDirective` | acrn-unit-test/guest/lib/printf.c:247-249 | for every flag and width "%s" prints its string in its field, and the rest of the format the other arguments |
| `FormatLaws.PlainStrings` | acrn-unit-test/guest/lib/printf.c:247-249 | "%s" of a string is the string, "%s%s" of two is one after the other |
| `FormatLaws.SignedDirective` | acrn-unit-test/guest/lib/printf.c:204-216 | for every flag, width and length "%d" prints sign and decimal numeral of what an int or long holds of its argument, if and only if that is not the least long |
| `FormatLaws.DecimalDirective` | acrn-unit-test/guest/lib/printf.c:217-229 | for every flag, width and length "%u" prints the decimal numeral of its argument modulo 2^32 or 2^64 |
| `FormatLaws.HexDirective` | acrn-unit-test/guest/lib/printf.c:230-242 | for every flag, width and length "%x" prints the hexadecimal numeral, with 0x in front of it or of its zeros under '#' unless it is 0 |
| `FormatLaws.PointerDirective` | acrn-unit-test/guest/lib/printf.c:243-246 | "%p" prints as "%#lx" does |
| `FormatLaws.CharacterDirective` | acrn-unit-test/guest/lib/printf.c:174-176 | "%c" prints the low byte of its argument |
| `FormatLaws.OtherDirective` | acrn-unit-test/guest/lib/printf.c:171-252 | "%%" and '%' before a character that is no conversion print that character and take no argument |
| `FormatLaws.PlainCharacter` | acrn-unit-test/guest/lib/printf.c:164-167 | any other character stands for itself |
| `Strings.StrlenAt` | acrn-unit-test/guest/lib/string.c:10-17 | the length of the text up to the NUL |
| `Strings.Memcmp` | acrn-unit-test/guest/lib/string.c:98-110 | 0 if and only if the two stretches are equal, else the difference at the first character where they differ |
| `Strings.Strstr` | acrn-unit-test/guest/lib/string.c:58-73 | the first occurrence in the text, or NULL exactly when there is none |
| `Report.UniqueStack` | acrn-unit-test/guest/lib/report.c:29-56 | the prefix string determines the stack of prefixes |
| `Report.DelimiterEndsPrefix` | acrn-unit-test/guest/lib/report.c:73-76 | the first delimiter from the start of a prefix is the one that ends it, also after an empty prefix or one that ends with ':' |
| `Report.Reporter.Push` | acrn-unit-test/guest/lib/report.c:29-56 | for every format and argument list: wild, refused or accepted, each with its exact condition, and the whole buffer after it; the string reads as the stack with the new prefix if and only if the text has no NUL and fits |
| `Report.AcceptsIff` | acrn-unit-test/guest/lib/report.c:37-54 | a text is accepted if and only if its length and that of the string, in 32 bits, leave two of 256 bytes and a NUL, and no ": " is in the stored part before its first NUL |
| `Report.PlainPrefixIsAccepted` | acrn-unit-test/guest/lib/report.c:37-54 | a text without NUL is accepted if and only if string, text and delimiter are below 256 characters and it holds no ": " |
| `Report.Reporter.LastPrefix` | acrn-unit-test/guest/lib/report.c:73-77 | the loop of strstr calls ends at the last prefix if and only if the text ends with a delimiter; else it uses a NULL |
| `Report.Reporter.Pop` | acrn-unit-test/guest/lib/report.c:63-81 | on any text: ends well if and only if it is empty or ends with a delimiter, and cuts it at the last prefix; from the string of a stack it removes exactly the last prefix pushed, nothing on an empty stack |
| `Report.NulHidesTheRest` | acrn-unit-test/guest/lib/report.c:41-54 | of a pushed text with a NUL only the part before the NUL can be read, without its delimiter |
| `Report.ReadsBackIffReadable` | acrn-unit-test/guest/lib/report.c:29-56 | the buffer after a push reads as the old string, the text and its delimiter if and only if the text has no NUL and fits |
| `Report.PushThenPop` | acrn-unit-test/guest/lib/report.c:29-81 | pop undoes an accepted push that fits if and only if its text has no NUL, or starts with one on an empty stack; pop uses a NULL if and only if a NUL comes after the first character |
| `Report.PrefixWithNul` | acrn-unit-test/guest/lib/report.c:41 | "a%cb" of the character 0 is a text with a NUL |
| `Report.HugeTextIsAccepted` | acrn-unit-test/guest/lib/report.c:36-54 | a text of 2^32 characters passes every assertion of the push and does not fit |
| `Env.Eol` | acrn-unit-test/guest/lib/argv.c:65-70 | the end of the line: its newline or the final NUL |
| `Env.InvalidEol` | acrn-unit-test/guest/lib/argv.c:72-81 | shows exactly the line and leaves the buffer as it was |
| `Env.Named` | acrn-unit-test/guest/lib/argv.c:90-101 | the loop's flag tells whether the line is identifier, '=', anything |
| `Env.EntryMeaning` | acrn-unit-test/guest/lib/argv.c:22-24 | an entry is a line of the form [A-Za-z_][A-Za-z0-9_]*=..., both directions |
| `Env.QuietMeaning` | acrn-unit-test/guest/lib/argv.c:110-118 | the lines passed over in silence are comments after blanks and blank lines ended by a newline, both directions |
| `Env.FileMeaning` | acrn-unit-test/guest/lib/argv.c:83-123 | of any list of lines the entries are recorded, and the lines that are neither entry, comment nor blank complained about, in order; a last line of blanks without newline is complained about |
| `Env.TextIsFile` | acrn-unit-test/guest/lib/argv.c:83-123 | every text is such a list of lines |
| `Env.PackedMeaning` | acrn-unit-test/guest/lib/argv.c:125-146 | strings with a NUL after each are recorded up to the first empty one; the last may end with the region |
| `Env.TextIsPacked` | acrn-unit-test/guest/lib/argv.c:125-146 | every region is such a list of strings |
| `Env.FileRegion` | acrn-unit-test/guest/lib/argv.c:125-146 | a region without NUL that is followed by one is parsed as lines |
| `Env.PackedRegion` | acrn-unit-test/guest/lib/argv.c:125-146 | any other region is parsed as packed strings |
| `Env.EnvNext` | acrn-unit-test/guest/lib/argv.c:83-123 | stops at the next entry line; every line passed is complained about exactly when it should be |
| `Env.CloseEntry` | acrn-unit-test/guest/lib/argv.c:142-144 | the entry is ended by a NUL at its own newline, its own NUL or the end of the region; nothing else is written |
| `Env.SetupEnv` | acrn-unit-test/guest/lib/argv.c:125-146 | terminates for every region with a NUL in it; reading back the recorded pointers gives exactly the entry lines, or the packed strings, in order; only separators and the end were overwritten |
| `Env.FileRoundTrip` | acrn-unit-test/guest/lib/argv.c:125-146 | any list of entries written one a line is parsed back as that list, with no complaint |
| `PciCaps.Pigeonhole` | acrn-unit-test/guest/lib/pci.c:12-24 | of 256 nonzero 8-bit offsets two are equal |
| `PciCaps.EndsIffNotCyclic` | acrn-unit-test/guest/lib/pci.c:17-24 | a list ends if and only if no offset comes up twice, and then within 255 links |
| `PciCaps.BadIdIsEarly` | acrn-unit-test/guest/lib/pci.c:17-24 | a bad id anywhere on the list is met before the counter can trip |
| `PciCaps.CapWalk` | acrn-unit-test/guest/lib/pci.c:10-25 | visits the capabilities in list order, each where the byte after the id of the one before says, from offset 0x34; ends, each visited once, exactly on a list that ends; trips the counter exactly on a cyclic one; trips the id assertion exactly when an id above 0x14 is on the list |
| `PciBars.WriteBack` | acrn-unit-test/guest/lib/pci.c:182-185 | writing back what a register held restores it, whatever was written between |
| `PciBars.TypeBits` | acrn-unit-test/guest/lib/pci.c:223-232 | a register is the low half of a pair if and only if bit 0 is 0 and bits 1 and 2 hold 2, whatever bit 3 |
| `PciBars.DecodesInBits` | acrn-unit-test/guest/lib/pci.c:107-111 | what is asked of the registers of a range, by their bits: 2 information bits for I/O, 4 for memory, a pair for memory type 2 |
| `PciBars.PciDev.SizeHelper` | acrn-unit-test/guest/lib/pci.c:176-188 | returns which bits stuck and leaves configuration space as it was |
| `PciBars.PciDev.BarSize` | acrn-unit-test/guest/lib/pci.c:190-209 | returns the size of the pair of registers when bit 0 is 0 and bits 1 and 2 hold 2, of the single register otherwise, 0 for none; configuration space is restored |
| `PciBars.KeepsKind` | acrn-unit-test/guest/lib/pci.c:107-111 | no write changes whether a register is I/O, 32-bit or 64-bit |
| `PciBars.PciDev.SetAddr` | acrn-unit-test/guest/lib/pci.c:144-164 | succeeds exactly when the address is valid and below 2^32 or the register by its bits is the low half of a pair, and writes both halves of such a range |
| `PciBars.ProgrammedAligned` | acrn-unit-test/guest/lib/pci.c:121-164 | a range programmed with a size-aligned address reads back as being there, with its size unchanged |
| `PciBars.ProgrammedValues` | acrn-unit-test/guest/lib/pci.c:144-164 | the registers then hold the halves of the address above the information bits, and no other register changes |
| `PciHost.GrantedIffFits` | acrn-unit-test/guest/lib/pci-host-generic.c:202-206 | below 2^64 a request is granted exactly when it fits, at the least aligned address |
| `PciHost.KindInBits` | acrn-unit-test/guest/lib/pci-host-generic.c:184-187 | the kind of window a register asks for, by its bits |
| `PciHost.WindowForIs` | acrn-unit-test/guest/lib/pci-host-generic.c:189-193 | the first window of that kind |
| `PciHost.WidthInBits` | acrn-unit-test/guest/lib/pci-host-generic.c:249-250 | the probe steps over two registers exactly for memory type 2 |
| `PciHost.GrantSoundIffNoWrap` | acrn-unit-test/guest/lib/pci-host-generic.c:202-206 | a granted range is aligned, past all earlier ones and inside the window if and only if the sum does not pass 2^64 |
| `PciHost.HalfOfAllIsGranted` | acrn-unit-test/guest/lib/pci-host-generic.c:202-206 | a window of the upper half of the addresses with anything in use grants half of all addresses at 0 |
| `PciHost.Bridge.Place` | acrn-unit-test/guest/lib/pci-host-generic.c:202-208 | the arithmetic on one window: address, new count, or a failed assertion |
| `PciHost.Bridge.AllocResource` | acrn-unit-test/guest/lib/pci-host-generic.c:168-209 | every outcome with its exact condition; addresses handed out stay aligned, inside their windows and disjoint |
| `PciHost.Bridge.ProbeBars` | acrn-unit-test/guest/lib/pci-host-generic.c:237-251 | succeeds if and only if each range with a size and a window finds a place in it in turn, a 32-bit one below 2^32; then every such range and no other is programmed, and is at the place handed out for it |
| `PciHost.GetPaddr` | acrn-unit-test/guest/lib/pci-host-generic.c:264-278 | the first window that recognises the address gives the address as far from its CPU start as it is from its PCI start, in 64 bits; else the invalid address |
| `PciHost.FirstHitIs` | acrn-unit-test/guest/lib/pci-host-generic.c:270-275 | that window and no earlier one has the address from its start up to its end, the end taken in 64 bits |
| `PciHost.HitsIffBelowTop` | acrn-unit-test/guest/lib/pci-host-generic.c:271-272 | an address of a window is recognised if and only if the window ends below 2^64 |
| `PciHost.TranslatedInside` | acrn-unit-test/guest/lib/pci-host-generic.c:264-278 | with separate windows every address of one is translated into its CPU range, at the same distance from its start |

## Left out

- Spinlocks and use of the allocators by several processors: calls are sequential; the source reads shared state outside its locks.
- PageAlloc.PageAllocator.FreePages: the region must not hold page 0, which would read as the end of the list, nor pages already on the list.
- PhysAlloc.EarlyAllocator.Memalign: stated for requests whose padded size does not wrap; `PhysAlloc.GrantSoundIffNoWrap` says why that is needed. The 32-bit `safe` path is not modelled.
- PhysAlloc.EarlyAllocator.GetUnused: needs a free log entry, because the source writes one without a check.
- PhysAlloc.HandOver: the rest of the memory, when it is handed over, must hold a page boundary above 0.
- Vmalloc.Vm.AllocVpages: the range must stay above the identity map, which the source does not test.
- Vmalloc.Vm.VmMemalign: needs enough pages on the list, since the source does not test alloc_page's result, and room above the identity map, which alloc_vpages does not test either.
- Heap.Heap.Memalign: on `vmalloc_ops` only, for requests of fewer than 2^32 pages that the page list can serve; `Heap.BlockLayout` and `Vmalloc.PagesCoverIff` say what happens past that.
- vmap, init_alloc_vpage and the contents of page-table entries: the tables are a map from virtual page to frame plus the set of table pages. Of setup_mmu only the pages it takes off the list are modelled.
- Vmalloc.Vm.WalkTables: does not model the zeroing of new tables nor the entries that link them.
- vring_init: ring layout in memory; the rings are arrays of their own. Memory barriers and virtqueue_kick.
- Virtio.Virtqueue.GetBuf: needs an unread used element, because the source does not look at the used index.
- The i386 variant of ap_main, which loops without clearing the case id; restarts arrive at once, cpu_online_count does not wrap at 16 bits, and the register changes of the modification are not modelled.
- Format.Vsnprintf: a missing or wrong argument reads as 0 or ""; what the code prints after it has left its tables is not modelled.
- Report.Reporter.Push: the buffer after a failed assertion, which ends the program, is not modelled, nor are the pass, fail and skip counters of va_report.
- Env.SetupEnv: needs as many slots as there are entries, since the source writes its 200 slots without a check, and a NUL somewhere in the buffer.
- __setup_args, getenv, memmove, strncmp, simple_glob: would only add easy members.
- PciCaps.CapWalk: the handler does not change configuration space.
- PciBars.PciDev.BarSize: masks with powers of two are remainders, and a register's writable bits reach up to bit 31; an I/O register that decodes 16 bits only is not modelled.
- PciBars.PciDev.SetAddr: the assertion on the resource array of pci_dev is left out, since that array is not modelled.
- PciHost.Bridge.ProbeBars: needs every window and twice every size to stay within 2^64 together. The command register, the resource array of pci_dev and its assertions, and the parsing of the device tree are not modelled; `allocated` is taken to start at 0, which pci_dt_probe does not set.
- Device register I/O, exception and feature tests under x86/: they check hardware values.
