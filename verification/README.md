# A verified model of the nOSok kernel

nOSok is a small 32-bit kernel. This project models its hand-written data structures and protocols
in Dafny and proves what they keep over every run. `dafny verify dfyconfig.toml` checks everything.

Two layers run through the project. Operations that update memory, tables or registers step by step
are methods on arrays and classes that follow the code branch by branch. Each is proved against a
function or relation on plain values, and the properties of whole runs are lemmas about those. What such a
function means is stated once more without it, in the bytes, bits and numbers a user of the machine sees:
`MallocExactly`, `HeapInBytes`, `HardwareWalk`, `CreateInDwords`, `FrameBytes`, `HeadBytes`, `WrapIsLayout`,
`ScreenInPixels`, `SpelledPrints`, `KernelFromDisk` and their like.

| modules | what they model |
|---|---|
| `HeapBlocks`, `Heap`, `HeapRuns` | first-fit heap with 16-byte headers inside the memory it manages: the block list as a value, the headers in byte memory, whole runs with callers writing their blocks |
| `Frames`, `PageTables`, `KernelMemory`, `Paging`, `Boot` | frame bitmap, two-level page tables in physical memory, ownership of frames over whole runs, the framebuffer window, the tables built at boot |
| `Tasks`, `TaskRuns` | the ring of task contexts, the register save and restore, whole runs of working, switching and creating |
| `Checksum`, `Packets`, `PacketLaws`, `Dhcp` | the two one's-complement checksums, UDP over IPv4 over Ethernet in both directions, DHCP options and messages |
| `Terminal`, `Video`, `Numbers`, `Printf` | the line model of the screen, the framebuffer that shows it, number printing and format scanning onto it |
| `Loader`, `ElfLoader` | the FAT16 chain walk and the placing of ELF segments |
| `Machine`, `Strings` | 32-bit wrap-around, little-endian words in byte memory, `memcpy`, `memset`, `memcmp` |

Machine integers are the types `u8`, `u16`, `u32` with wrap-around written out (`Add32`, `Sub32`,
`Low16`, `Swap`); every array index and every value stored in a field is proved to be in range.

## Where the code differs from what one would expect

- The heap's fit test is strict, so a free block of exactly the requested size is never used
  (`FirstFitLowest`, `ExactSizeUnused`).
- The UDP checksum adds an odd last byte as the high half of a little-endian word; RFC 768 pads with a
  zero byte behind it. The words a receiver adds fold to all ones exactly when the length is even or that
  byte is zero (`UdpVerifiesIff`; `OddPayloadRejected` is a payload that fails).
- A UDP checksum that computes to zero is sent as zero, which RFC 768 reserves for "none computed". That
  happens exactly when the word sum is a multiple of 65535 (`ZeroChecksumIff`; `ZeroChecksumSent` gives a
  payload for any addresses and ports). A receiver then skips its test, so what it accepts is `AcceptedIff`,
  and `OddPayloadAccepted` is an odd payload it takes although the words do not fold to all ones.
- `send_packet` sums whatever the checksum field of the header it is given holds: the header it emits is
  right exactly when that was 0 or 0xffff (`IpHeaderVerifiesIff`).
- A frame that becomes a page table is not cleared: `MapTranslatesAny` says what the other pages of its slot
  translate to, `MapSparesOthersIff` when that does no harm.
- `printf` leaves its memory on some formats: one that ends inside a directive sends the scan past the
  terminator, a `%x` wider than 8 writes zeros in front of its buffer, a missing argument is read off the
  stack, and a character from 0x80 up has no glyph (`GlyphInFontIff`). A width of 2^31 or more, in any
  directive, is no memory access but overflows a signed `int`, which C leaves undefined. The exact condition
  is `ScanStaysInsideIff`; `LonePercentOverruns` and `WidthNineOverruns` are inputs that fail. The model
  stops there and says so.
- The loader's segment loop reads the program headers from the memory it is overwriting. `LoadElf` says what
  that does; with targets clear of the image it is the overlay of all segments (`CompleteImageLoads`). Otherwise
  a header may be read from bytes an earlier segment copied over it (`HeaderReplaced`), and memory changes
  that no header of the file mentions (`ImageOverwritesHeaders`).
- A new thread's first stack frame is built 4096 words, not bytes, past the start of its 4096-byte
  block, so it never lies in that block (`FrameOutsideBlock`). Stacks and contexts being disjoint is
  therefore a precondition of `Create`.
- `clear()` multiplies the pitch, already in bytes, by the bytes per pixel once more; the window is
  modelled with that size (`Video.Screen.Clear`).
- The last text row of the screen is never written: the cursor stays two rows above the bottom edge or
  higher.

## Assumptions

- Heap: the range starts above address 0 and its link fields hold null before `heap_allocator_init`, which
  does not set them. Its size may reach past the end of memory, as the 0xffffffff of `kmain` does; then
  callers ask only for what memory still has room for (`RoomFor`). Only payload pointers of live blocks are
  freed.
- Paging: `map_page` does not check the frame allocator, so a frame must be left when a table is
  needed; in whole runs frames nobody owns hold zeros, since a new table is not cleared; table frames lie in the
  identity-mapped window, so tables are addressed physically. Callers free only frames handed to them,
  which lie below 2 GiB, the reach of the bitmap.
- Threads: a switch is atomic; the running one writes neither context records nor another one's stack.
- Screen: at least two text rows and one column, 24 or 32 bits per pixel, lines no longer than the
  pitch, 7-bit characters.
- Network: a received frame holds the fields the handlers read; no handler looks at a length.
- Loader: chains of matching directory entries end and lie on the disk, and what the segment loop reads and
  writes lies in memory.

## Model

| member | source | states |
|---|---|---|
| HeapBlocks.FirstFitLowest | src/kernel/memory/alloc.cpp:19-40 | kmalloc(n) fails exactly when no free block has more than n bytes; otherwise it uses the lowest such block and grants between n and n + 16 bytes |
| HeapBlocks.MallocExactly | src/kernel/memory/alloc.cpp:19-40 | the lowest free block with more than n bytes is replaced by its first n bytes and a free remainder when it has more than n + 16, by itself in use otherwise; no other block changes |
| HeapBlocks.ExactSizeUnused | src/kernel/memory/alloc.cpp:20 | a free block of exactly n bytes is not used for n, one of n + 1 bytes is |
| HeapBlocks.PayloadsSeparate | src/kernel/memory/alloc.cpp:24-40 | blocks overlap nowhere and no payload meets a header |
| HeapBlocks.MallocLive | src/kernel/memory/alloc.cpp:24-40 | kmalloc keeps the list tiled and coalesced and adds exactly the granted block, at an address no live block had |
| HeapBlocks.FreeLive | src/kernel/memory/alloc.cpp:44-66 | kfree keeps the list tiled and coalesced, merging on both sides, and removes exactly the freed block |
| HeapBlocks.Canonical | src/kernel/memory/alloc.cpp:44-66 | a tiled, coalesced list is determined by its live blocks alone |
| HeapBlocks.FreesCommute | src/kernel/memory/alloc.cpp:44-66 | frees of two live blocks give the same list in either order |
| HeapBlocks.FreeUndoesMalloc | src/kernel/memory/alloc.cpp:16-66 | kfree(kmalloc(n)) restores the list exactly, whether or not the block was split |
| HeapBlocks.NestedRestores | src/kernel/memory/alloc.cpp:16-66 | nested allocations freed in reverse restore the list, for any number and any sizes, exactly when all of them succeed |
| HeapBlocks.SendRestoresHeap | src/kernel/net/udp.cpp:70-89 | the three new[]/delete[] pairs of one UDP send leave the heap as it was when none of them fails |
| HeapBlocks.RunKeeps | src/kernel/memory/alloc.cpp:9-66 | every state of every valid run of kmalloc and kfree is tiled and coalesced |
| HeapBlocks.RunsConverge | src/kernel/memory/alloc.cpp:9-66 | two runs from the initial heap that end with the same live blocks end with the same list |
| HeapBlocks.NothingLiveIsInitial | src/kernel/memory/alloc.cpp:9-66 | a run that leaves nothing live leaves the single initial block |
| HeapBlocks.FreeAllInAnyOrder | src/kernel/memory/alloc.cpp:44-66 | every duplicate-free order of freeing all live blocks is valid and ends in the single initial block |
| HeapBlocks.TotalConserved | src/kernel/memory/alloc.cpp:24-36 | sizes plus headers always add up to the initial range |
| Heap.KernelHeap.constructor | src/kernel/memory/alloc.cpp:9-14 | on a range whose link fields hold null, one free block of the given size, which may reach past the end of memory as the size 0xffffffff does; no byte outside its header changes |
| Heap.KernelHeap.FindFit | src/kernel/memory/alloc.cpp:19-22 | the search loop returns null exactly when every free block has at most size bytes, otherwise the address of the lowest free block with more |
| Heap.KernelHeap.Split | src/kernel/memory/alloc.cpp:24-36 | the split branch cuts the block down, links a free block made of the rest in behind it in both directions, and writes nothing else |
| Heap.KernelHeap.Kmalloc | src/kernel/memory/alloc.cpp:16-42 | in byte memory with in-band headers: the lowest free block with more than size bytes is replaced by its pieces and its payload address returned; with none, -1 and nothing changes; no byte of a live payload or outside the heap changes |
| Heap.RangeHasRoom | src/kernel/memory/alloc.cpp:24-40 | in a range that lies in memory every request finds the memory it is about to use |
| Heap.KernelHeap.AbsorbPrev | src/kernel/memory/alloc.cpp:49-57 | merging into the predecessor writes its size and next field and the back link behind, and nothing else |
| Heap.KernelHeap.AbsorbNext | src/kernel/memory/alloc.cpp:59-65 | absorbing the successor writes the size, the next field and the back link behind, and nothing else |
| Heap.KernelHeap.Kfree | src/kernel/memory/alloc.cpp:44-66 | the freed block is merged with whichever neighbours are free, in byte memory, and no byte of a remaining live payload changes |
| Heap.SplitLink | src/kernel/memory/alloc.cpp:25-35 | after the writes of a split, each block's header holds its own fields and the addresses of its two neighbours |
| Heap.MergeLink | src/kernel/memory/alloc.cpp:50-64 | after the writes of a merge, each block's header holds its own fields and the addresses of its two neighbours |
| Heap.HeapInBytes | src/kernel/memory/alloc.cpp:9-14 | the layout of a heap in memory: flag at offset 0 of a block, size at 4, address of the next block at 8, of the previous at 12, null at either end |
| Heap.AllocatedHolds | src/kernel/memory/alloc.cpp:24-40 | from the header writes of kmalloc alone: memory holds the new block list and no live payload byte has changed |
| Heap.ReleasedHolds | src/kernel/memory/alloc.cpp:44-66 | from the header writes of kfree alone: memory holds the merged block list and no remaining payload byte has changed |
| HeapRuns.RunHolds | src/kernel/memory/alloc.cpp:9-66 | over every run of kmalloc, kfree and stores by owners into their own blocks, each told by the bytes it writes, memory holds a well-formed linked heap |
| HeapRuns.PayloadSurvives | src/kernel/memory/alloc.cpp:16-66 | over every such run a live block that is neither freed nor written by its owner keeps every payload byte |
| HeapRuns.StoreKeepsHeaders | src/kernel/memory/alloc.cpp:16-66 | a store into a live payload damages no header |
| HeapRuns.PerformAll | src/kernel/memory/alloc.cpp:16-66 | any list of requests and stores whose callers keep to the rules, performed by the allocator, is such a run |
| Frames.MaskSets | src/kernel/memory/frame_alloc.cpp:12-17 | setting bit j of a bitmap byte changes bit j alone |
| Frames.MaskClears | src/kernel/memory/frame_alloc.cpp:19-24 | clearing bit j of a bitmap byte changes bit j alone |
| Frames.OwnedBit | src/kernel/memory/frame_alloc.cpp:26-31 | frame i, below 2^19, is owned exactly when bit i % 8 of byte i / 8 is set, counted from the lowest |
| Frames.FrameAllocator.MarkAsOwned | src/kernel/memory/frame_alloc.cpp:12-17 | the set of owned frames gains exactly frame i |
| Frames.FrameAllocator.MarkAsFree | src/kernel/memory/frame_alloc.cpp:19-24 | the set of owned frames loses exactly frame i |
| Frames.FrameAllocator.Get | src/kernel/memory/frame_alloc.cpp:26-31 | tests membership in the set of owned frames |
| Frames.FrameAllocator.Init | src/kernel/memory/frame_alloc.cpp:33-37 | afterwards exactly the frames below _kernel_end + 0x10000, and those owned before, are owned |
| Frames.FrameAllocator.Alloc | src/kernel/memory/frame_alloc.cpp:39-48 | returns the lowest frame not owned and adds it; -1, changing nothing, exactly when every frame is owned |
| Frames.FrameAllocator.Free | src/kernel/memory/frame_alloc.cpp:50-54 | the frame of the address is no longer owned, nothing else changes |
| PageTables.HardwareWalk | src/kernel/memory/paging.cpp:63-91 | looking up and translating an address is the walk of section 4.3 of the Intel SDM, volume 3A, spelled in dwords and bits; 0 for an address that is not mapped |
| PageTables.MapInDwords | src/kernel/memory/paging.cpp:18-41 | the two dwords map_page leaves: frame, present and writable bits, other flags as they were |
| PageTables.UnmapInDwords | src/kernel/memory/paging.cpp:43-61 | unmap_page clears the one dword of the page, or nothing |
| PageTables.EntryFields | src/kernel/memory/paging.cpp:25-27 | filling an entry makes it present with the given frame and leaves the flags above the two lowest alone |
| PageTables.MapTranslatesAny | src/kernel/memory/paging.cpp:18-41 | for any frame the allocator hands out: the mapped pages move, and when a table had to be made the other pages of its slot translate to whatever that frame holds |
| PageTables.MapTranslates | src/kernel/memory/paging.cpp:18-41 | on a clean frame map_page changes translation for exactly the pages with v's table index in slots sharing v's table; all others are as before |
| PageTables.MapSparesOthersIff | src/kernel/memory/paging.cpp:23-31 | all other pages are unchanged exactly when no table had to be made or no other cell of its uncleared frame is present |
| PageTables.UnmapTranslates | src/kernel/memory/paging.cpp:43-61 | unmap_page removes exactly the pages with v's table index in slots sharing v's table |
| PageTables.UnmapUndoesMap | src/kernel/memory/paging.cpp:18-61 | unmapping right after mapping leaves v absent and every unrelated page as it was |
| PageTables.MapSlots | src/kernel/memory/paging.cpp:23-31 | map_page changes at most v's own directory slot, and only from absent to the new table |
| KernelMemory.StepTranslates | src/kernel/memory/paging.cpp:18-61 | under the ownership discipline, what one event does to one page is told from the event alone; slots 0 and 768 move together |
| KernelMemory.RunTranslates | src/kernel/memory/paging.cpp:18-91 | the page tables refine a map: over every run, a page translates to what the last map or unmap that hit it says |
| KernelMemory.StepSafe | src/kernel/memory/paging.cpp:18-61 | alloc, valid free, map, unmap and writes to handed-out frames keep the discipline: kernel frames owned, tables owned and distinct but for slots 0 and 768, free frames zero |
| KernelMemory.RunSafe | src/kernel/memory/frame_alloc.cpp:33-54 | the discipline holds after every valid run |
| KernelMemory.AllocIsExclusive | src/kernel/memory/frame_alloc.cpp:39-48 | a frame handed out is no table, not held by another caller, and not below _kernel_end + 0x10000 |
| Paging.KernelPaging.MapPage | src/kernel/memory/paging.cpp:18-41 | on real tables, with the frame allocator's bitmap, does exactly the map event and returns v |
| Paging.KernelPaging.UnmapPage | src/kernel/memory/paging.cpp:43-61 | on real tables, does exactly the unmap event |
| Paging.KernelPaging.PagePresent | src/kernel/memory/paging.cpp:63-76 | true exactly when the page translates |
| Paging.KernelPaging.VaddrToPaddr | src/kernel/memory/paging.cpp:78-91 | the page's frame with the low 12 bits of the address, 0 when not mapped |
| Paging.KernelPaging.AllocFrame | src/kernel/memory/frame_alloc.cpp:39-48 | on the real bitmap, does exactly the alloc event: the caller holds the lowest free frame from then on, or gets -1 and nothing changes |
| Paging.KernelPaging.FreeFrame | src/kernel/memory/frame_alloc.cpp:50-54 | on the real bitmap, does exactly the free event for a frame the caller holds and has cleared |
| Paging.PerformAll | src/kernel/memory/paging.cpp:18-61 | any valid run of allocations, frees, mappings, unmappings and writes is what these functions do to the real tables and bitmap |
| Paging.KernelPaging.MapFramebuffer | src/kernel/drivers/video.cpp:21-27 | after the mapping loop the window pages lead to the framebuffer in order and no other page changes, given one free frame per 4 MiB of window |
| Paging.WindowStep | src/kernel/drivers/video.cpp:24-27 | one round of the loop never meets an exhausted allocator and extends the window by one page |
| Paging.FramebufferReached | src/kernel/drivers/video.cpp:21-27 | every offset below pitch * h * (bpp / 8) translates to the framebuffer address plus that offset |
| Paging.WindowCovers | src/kernel/drivers/video.cpp:22-24 | the loop maps just the pages up to the one that holds the byte behind the framebuffer |
| Boot.BuildTables | src/kernel/entry.asm:27-53 | the boot loop leaves 1023 identity entries, the VGA entry, and directory slots 0 and 768 sharing the table |
| Boot.BootTranslates | src/kernel/entry.asm:27-53 | what every page translates to after boot |
| Boot.BootIdentity | src/kernel/entry.asm:27-53 | below 0x3FF000, v and v + 0xC0000000 both reach physical v |
| Boot.BootVga | src/kernel/entry.asm:47-53 | the last page of both halves is the VGA text buffer at 0xB8000, and nothing else is mapped |
| Boot.BootWritable | src/kernel/entry.asm:34-53 | both entries of every mapped page are present and writable |
| Boot.BootIsSafe | src/kernel/entry.asm:50-53 | boot followed by frames::init establishes the ownership discipline |
| Tasks.Cpu.constructor | src/kernel/task/taskmgr.cpp:18-27 | the running code becomes the only task, its context followed by itself |
| Tasks.BuildStack | src/kernel/task/taskmgr.cpp:39-48 | the hand-built stack holds seven zero registers, the entry point and 0x08, lowest first, and nothing else is written |
| Tasks.CreateInDwords | src/kernel/task/taskmgr.cpp:29-50 | the dwords create leaves: 0x08 16384 bytes above the base of the stack, the entry point and seven zeros below it, the lowest of them in the new context, which is linked between the last and the first |
| Tasks.Cpu.Create | src/kernel/task/taskmgr.cpp:29-53 | the new context is spliced in last, before the first, suspended at its entry with zero registers; every other task stays as it was, and no byte changes but the last context's next field, the new context and its frame |
| Tasks.Cpu.PushRegisters | src/kernel/cpu/context_switch.asm:8-14 | the seven registers end up below the return address in the order the restore expects |
| Tasks.FrameFields | src/kernel/cpu/context_switch.asm:8-38 | where each register of a saved frame lies: ebp, edi, esi, edx, ecx, ebx, eax and the return address, from the stack pointer up |
| Tasks.Cpu.Resume | src/kernel/cpu/context_switch.asm:30-38 | pops the seven registers and returns to the saved address |
| Tasks.Cpu.SaveCurrent | src/kernel/cpu/context_switch.asm:6-20 | pushing the seven registers and saving esp turns the running task into a suspended one with those registers, and touches only its own stack and saved esp |
| Tasks.Cpu.Activate | src/kernel/cpu/context_switch.asm:22-38 | popping the next task's frame gives the machine exactly its saved registers and return address, with memory unchanged |
| Tasks.Cpu.SwitchContext | src/kernel/cpu/context_switch.asm:6-38 | the current task is suspended with its registers, return address and stack pointer; the next in the ring continues with its own; ring and other tasks are unchanged, and no byte changes but the outgoing task's own stack and saved esp |
| Tasks.StackWritesKeepRing | src/kernel/cpu/context_switch.asm:6-38 | whatever the current task writes on its own stack, the ring and the suspended tasks stay intact |
| Tasks.SwitchMeans | src/kernel/cpu/context_switch.asm:6-38 | from the bytes and registers alone: a switch suspends the current task and continues the next one in the ring exactly where it was suspended |
| Tasks.CreateMeans | src/kernel/task/taskmgr.cpp:29-53 | from the bytes alone: create leaves a closed ring in which the new task can be resumed |
| TaskRuns.RunGood | src/kernel/cpu/context_switch.asm:6-38 | every state reached by running, switching and creating, each told by the bytes it writes and the registers it loads, has a closed ring in which every task but the current one can be resumed |
| TaskRuns.PerformAll | src/kernel/cpu/context_switch.asm:6-38 | any list of allowed actions, a task computing and storing into its own stack, switching and creating, performed by the real switch and create, is such a run |
| TaskRuns.ResumesExactly | src/kernel/cpu/context_switch.asm:6-38 | a task switched back in has exactly the seven registers it had when switched out, continues at the return address on its stack, and has its stack pointer just above that, whatever ran in between |
| TaskRuns.FirstRun | src/kernel/task/taskmgr.cpp:39-50 | a new task first runs at its entry point with all seven registers zero |
| TaskRuns.OrderKept | src/kernel/task/taskmgr.cpp:35-37 | tasks stay in creation order, none lost, moved or duplicated |
| TaskRuns.RoundRobin | src/kernel/cpu/context_switch.asm:16-25 | with no creates, m switches advance the ring by m places modulo its length |
| TaskRuns.EachRunsOnce | src/kernel/cpu/context_switch.asm:16-25 | with no creates, as many switches as there are tasks switch to every task exactly once |
| TaskRuns.RunsSoon | src/kernel/cpu/context_switch.asm:16-25 | a task at ring distance d runs within d switches plus one for each task created meanwhile |
| TaskRuns.DistanceCounts | src/kernel/cpu/context_switch.asm:16-25 | the distance of a task is the number of places from the current one on to it, round the ring |
| TaskRuns.FrameOutsideBlock | src/kernel/task/taskmgr.cpp:31-50 | in every heap the first frame create() builds lies wholly outside the 4096-byte block it asked for |
| Checksum.SwapTwice | src/kernel/std/inet.cpp:10-13 | htons is its own inverse |
| Checksum.SwapExchanges | src/kernel/std/inet.cpp:10-13 | htons exchanges the two bytes of a word |
| Checksum.FoldMeaning | src/kernel/net/udp.cpp:107-132 | the folded value is the only 16-bit value congruent to the sum modulo 65535 that is zero just for zero |
| Checksum.AddFoldStep | src/kernel/net/udp.cpp:107-130 | folding the carry at every addition keeps the folded value of the running sum |
| Checksum.DeferredStep | src/kernel/net/ip.cpp:58-59 | one round of the deferred fold keeps the folded value and shrinks the sum |
| Checksum.FoldedZeroIff | src/kernel/net/udp.cpp:107-132 | on an even number of bytes either folded sum is zero exactly when every byte is zero |
| Checksum.ByteOrderIndependent | src/kernel/net/udp.cpp:101-133 | on the same even number of bytes the native little-endian sum and the byte-swapped sum fold to byte swaps of each other (section 2(B) of RFC 1071) |
| Checksum.Verifies | src/kernel/net/ip.cpp:61 | a sum plus the complement of its folded value folds to 0xffff |
| Packets.UdpChecksum | src/kernel/net/udp.cpp:101-133 | the three loops return the complement of the folded sum of all words plus, for odd lengths, the last byte as the HIGH half of a word |
| Packets.IpChecksum | src/kernel/net/ip.cpp:50-62 | summing swapped words and folding at the end returns the complement of the folded network-order sum; the fold loop ends |
| Packets.FoldDeferred | src/kernel/net/ip.cpp:58-61 | the deferred fold loop terminates with the folded value |
| Packets.NetStack.OpenSocket | src/kernel/net/udp.cpp:16-23 | the socket is registered under its port, the rest of the table is unchanged |
| Packets.NetStack.CloseSocket | src/kernel/net/udp.cpp:25-27 | the port is free again |
| Packets.NetStack.EthernetSend | src/kernel/net/ethernet.cpp:26-42 | one frame, header then payload, goes to the adapter; nothing without an adapter |
| Packets.NetStack.IpSend | src/kernel/net/ip.cpp:15-37 | the payload goes out behind a filled-in, checksummed IPv4 header |
| Packets.NetStack.UdpSend | src/kernel/net/udp.cpp:62-90 | the payload goes out behind the checksummed UDP header inside IPv4 |
| Packets.NetStack.SendTo | src/kernel/net/udp.cpp:29-39 | the whole frame one sendto puts on the wire, byte for byte |
| Packets.NetStack.HandleFrame | src/kernel/net/ethernet.cpp:44-57 | an IPv4 UDP frame for a port with a socket sets that socket's flag and points its buffer at byte 42; every other socket is unchanged; only the fields the handlers read must be there |
| Packets.NetStack.HandleIp | src/kernel/net/ip.cpp:39-48 | UDP packets go to the UDP handler 20 bytes on, others are dropped |
| Packets.NetStack.HandleUdp | src/kernel/net/udp.cpp:92-99 | the socket of the destination port, if any, gets flag and buffer |
| PacketLaws.SentArrives | src/kernel/net/udp.cpp:29-99 | the frame of one sendto is for the destination port and carries the payload unchanged at byte 42, for every payload |
| PacketLaws.SendAndReceive | src/kernel/net/udp.cpp:29-99 | a datagram sent by one stack and handled by another: the socket of the destination port has the payload behind its buffer offset 42, every other socket is unchanged |
| PacketLaws.FrameBytes | src/kernel/net/udp.cpp:29-90 | every byte of a sent frame but the two checksums: both MACs, the type, 0x45, lengths, id, flags, TTL, protocol, sender and destination address, both ports in network order, payload |
| PacketLaws.IpPacketBytes | src/kernel/net/ip.cpp:15-37 | every byte but the checksum of the IPv4 packet made of any header passed down and a payload, sender address at 12, destination at 16 |
| PacketLaws.EthernetBytes | src/kernel/net/ethernet.cpp:26-42 | a frame is broadcast: six 0xff, the adapter's address, the type 0x0800, the packet |
| PacketLaws.DestinationIff | src/kernel/net/ethernet.cpp:44-57 | a frame is for port p exactly when its type is 0x0800, its protocol 17 and bytes 36 and 37 spell p in network order |
| PacketLaws.FrameVerifiesIff | src/kernel/net/udp.cpp:62-133 | from the bytes of a sent frame alone: its header words fold to 0xffff, and those of pseudo-header and padded datagram exactly when the payload length is even or its last byte is zero |
| PacketLaws.PseudoBytes | src/kernel/net/udp.cpp:72-79 | the pseudo-header: both addresses, a zero byte, protocol 17, the length of the datagram in network order |
| PacketLaws.BufferSizes | src/kernel/net/udp.cpp:70-89 | the three buffers of a send are as long as datagram, packet and frame |
| PacketLaws.IpHeaderVerifiesIff | src/kernel/net/ip.cpp:20-27 | for every header passed down, the ten words of the emitted header fold to 0xffff (section 3.1 of RFC 791) exactly when its checksum field held 0 or 0xffff |
| PacketLaws.UdpVerifiesIff | src/kernel/net/udp.cpp:101-133 | the words a receiver adds, pseudo-header, header and zero-padded payload, fold to 0xffff exactly when the payload length is even or its last byte is zero |
| PacketLaws.OddPayloadRejected | src/kernel/net/udp.cpp:126-130 | the words of a datagram with the one-byte payload 1 do not fold to 0xffff |
| PacketLaws.ZeroChecksumIff | src/kernel/net/udp.cpp:101-133 | a datagram is sent with a zero checksum exactly when its word sum is a multiple of 65535 |
| PacketLaws.ZeroChecksumSent | src/kernel/net/udp.cpp:101-133 | for any addresses, ports and size field there is a two-byte payload that is sent with a zero checksum |
| PacketLaws.AcceptedIff | src/kernel/net/udp.cpp:101-133 | a receiver that skips the test for a zero checksum accepts a datagram exactly when its payload length is even, its last byte is zero, or its word sum is a multiple of 65535 |
| PacketLaws.OddPayloadAccepted | src/kernel/net/udp.cpp:126-130 | for any addresses, ports and size field a three-byte payload ending in 1 is accepted although its words do not fold to 0xffff |
| PacketLaws.LengthsStated | src/kernel/net/ip.cpp:26 | up to 65535 bytes the two length fields state the true lengths in network order |
| PacketLaws.DhcpVerifies | src/kernel/net/dhcp.cpp:119-149 | the two DHCP messages are 258 and 264 bytes long and the datagrams carrying them verify |
| Dhcp.OptionBuilder.AddCookie | src/kernel/net/dhcp.cpp:21-26 | appends the magic cookie and starts a list of options behind it |
| Dhcp.OptionBuilder.AddOption | src/kernel/net/dhcp.cpp:28-35 | appends code, length and data: the list grows by that option |
| Dhcp.OptionBuilder.AddClientId | src/kernel/net/dhcp.cpp:37-45 | appends exactly option 61 of length 7 holding the hardware type and address |
| Dhcp.OptionBuilder.AddEnd | src/kernel/net/dhcp.cpp:47-49 | after any sequence of builder calls, a reader that starts behind the cookie finds exactly the options appended since, in order, and the end mark |
| Dhcp.ReadOption | src/kernel/net/dhcp.cpp:51-64 | returns the option at the offset, or the end mark without reading past it |
| Dhcp.RoundTrip | src/kernel/net/dhcp.cpp:21-64 | for every list of encodable options, reading what was written yields the same list in order, up to the end mark |
| Dhcp.HoldsIff | src/kernel/net/dhcp.cpp:21-64 | writing and reading are inverse both ways: a buffer in which the chain of options reaches an end mark is the encoding of exactly the options read from it |
| Dhcp.ReadOffer | src/kernel/net/dhcp.cpp:80-97 | the option loop ends with the verdict and server address that follow from the message, for every message whose options, as far as the loop reads them, lie in the buffer |
| Dhcp.OfferJudged | src/kernel/net/dhcp.cpp:80-97 | on options long enough for the client the loop stays inside the buffer and concludes from the options written there alone, so from nothing behind the end mark |
| Dhcp.AcceptedMeans | src/kernel/net/dhcp.cpp:84-87 | an offer is accepted exactly when every message type option in it says 2 |
| Dhcp.LastServerCounts | src/kernel/net/dhcp.cpp:89-92 | the server identifier of an accepted offer is its last one |
| Dhcp.DoDiscover | src/kernel/net/dhcp.cpp:114-150 | the DISCOVER message, byte for byte |
| Dhcp.DoRequest | src/kernel/net/dhcp.cpp:152-189 | the REQUEST message, byte for byte |
| Dhcp.HeadBytes | src/kernel/net/dhcp.cpp:114-189 | the BOOTP part of both messages byte by byte and the magic cookie 99.130.83.99 behind it |
| Dhcp.DiscoverInBytes | src/kernel/net/dhcp.cpp:119-149 | every option byte of the DISCOVER message |
| Dhcp.RequestInBytes | src/kernel/net/dhcp.cpp:157-188 | every option byte of the REQUEST message |
| Dhcp.MessageParses | src/kernel/net/dhcp.cpp:76-97 | a reader that skips header and cookie recovers a message's options |
| Terminal.WrapKeepsText | src/kernel/drivers/video.cpp:60-95 | wrapping loses, adds and reorders no character |
| Terminal.WrapFits | src/kernel/drivers/video.cpp:85-88 | no line is longer than the screen is wide and the last always has room |
| Terminal.WrapIsLayout | src/kernel/drivers/video.cpp:60-95 | wrapping character by character is cutting the text into lines from the front: a line ends at its newline or where it is exactly full |
| Terminal.GlyphSpellsFont | src/kernel/drivers/video.cpp:73-77 | a glyph's pixels are full or empty, and the eight of a line, left to right, spell its byte in the font in binary |
| Video.Screen.constructor | src/kernel/drivers/video.cpp:29-34 | the screen globals of init: geometry, and the cursor in the upper left corner |
| Video.GlyphInFontIff | src/kernel/drivers/video.cpp:70-74 | a glyph line is read from inside the font exactly when the character, signed in C, is a 7-bit one |
| Video.Screen.PutPixel | src/kernel/drivers/video.cpp:37-42 | writes the three colour bytes of one pixel and nothing else, in bounds |
| Video.PartsMakeColor | src/kernel/drivers/video.cpp:37-42 | the three bytes of a pixel make up its colour, lowest first |
| Video.Screen.DrawLine | src/kernel/drivers/video.cpp:74-78 | draws line y of a glyph, 8 pixels, and changes no other byte |
| Video.Screen.Scroll | src/kernel/drivers/video.cpp:52-54 | the overlapping upward copy is a true shift by 16 pixel lines |
| Video.Screen.Clear | src/kernel/drivers/video.cpp:56-58 | the whole window is zero and shows the empty text |
| Video.WindowSize | src/kernel/drivers/video.cpp:56-58 | the window is pitch * height * bytes per pixel long |
| Video.Screen.DrawGlyph | src/kernel/drivers/video.cpp:70-79 | draws the glyph's 16 by 8 pixels in one character cell and changes no other byte |
| Video.Screen.Putc | src/kernel/drivers/video.cpp:60-96 | every byte of the window is again what the line model shows for the text printed so far, with the cursor inside x < w/8, y <= h/16 - 2 |
| Video.ScreenInPixels | src/kernel/drivers/video.cpp:60-96 | what a valid screen shows, byte by byte: the last lines that fit of the text cut into lines, each character's pixels set by the bits of its glyph in the font, leftmost bit highest |
| Video.ScrollShown | src/kernel/drivers/video.cpp:90-93 | scrolling shows the next line first when an empty line comes into view |
| Video.ScrollShifts | src/kernel/drivers/video.cpp:52-54 | each byte of the window after the overlapping copy is the one a text line further down |
| Video.BlankPastCursor | src/kernel/drivers/video.cpp:60-96 | nothing is shown from the cursor's cell on |
| Strings.Memcpy | src/kernel/std/string.cpp:3-9 | the ascending byte copy, for any two ranges: a true copy between buffers, and inside one unless the target starts inside the source |
| Strings.AscendingByte | src/kernel/std/string.cpp:3-9 | where each byte of an ascending copy inside one buffer comes from: a target that starts p bytes inside its source repeats the first p bytes |
| Strings.Memset | src/kernel/std/string.cpp:24-30 | fills exactly the range |
| Strings.Memcmp | src/kernel/std/string.cpp:11-22 | zero exactly when the ranges agree, otherwise the difference of the first differing pair |
| Numbers.DigitsRead | src/kernel/std/printf.cpp:52-57 | the digits read back to the value, in both bases |
| Numbers.DigitsStep | src/kernel/std/printf.cpp:43-74 | one more digit is ten, or sixteen, times the rest plus that digit, with the characters 0 to 9 and a to f |
| Numbers.ValueStep | src/kernel/std/printf.cpp:16-20 | reading a number digit by digit |
| Numbers.NoLeadingZero | src/kernel/std/printf.cpp:52-57 | no leading zero except for zero itself |
| Numbers.PaddedRead | src/kernel/std/printf.cpp:59-60 | padding keeps the value and gives the larger of the width and what the value needs |
| Printf.FillDigits | src/kernel/std/printf.cpp:45-57 | the backwards do-while loop leaves exactly the value's digits in the buffer, in bounds although the offset may wrap below zero |
| Printf.PadZeros | src/kernel/std/printf.cpp:59-60 | the padding loop puts the missing zeros in front; it stays inside its buffer exactly for widths up to 8 |
| Printf.PrintHex | src/kernel/std/printf.cpp:45-63 | for widths up to 8, and no others, it stays inside its buffer and the screen text grows by the value's padded hexadecimal digits |
| Printf.PrintDec | src/kernel/std/printf.cpp:65-77 | the screen text grows by the value's decimal digits |
| Printf.Printf | src/kernel/std/printf.cpp:8-41 | for every format and argument list the screen text grows by what they render to, up to the point where what the code does is undefined; the mutual recursion terminates |
| Printf.SpelledPrints | src/kernel/std/printf.cpp:11-40 | a well-spelled format prints its pieces in order, the k-th directive args[k]: %d in decimal, %x in hexadecimal with at least its width of digits, any other letter nothing |
| Printf.TwoNumbers | src/kernel/std/printf.cpp:11-40 | %d.%x prints its first argument in decimal and its second in hexadecimal |
| Printf.ScanStaysInsideIff | src/kernel/std/printf.cpp:11-40 | printf does nothing undefined exactly when the format is a sequence of 7-bit letters and complete directives with widths below 2^31, %x no wider than 8, and for the k-th directive, if it prints, there are more than k arguments |
| Printf.LonePercentOverruns | src/kernel/std/printf.cpp:11-40 | the format "%" makes the scan step over its terminator |
| Printf.WidthNineOverruns | src/kernel/std/printf.cpp:59-60 | width 8 fits the buffer for every value, width 9 for none |
| Loader.TerminatesIffAcyclic | src/boot/legacy/nosokldr.c:67-71 | the chain loop ends on exactly the FAT chains that never repeat a cluster |
| Loader.LoadChain | src/boot/legacy/nosokldr.c:63-71 | the chain's clusters end up one behind the other at the image address, nothing else changes |
| Loader.ChainInFatIff | src/boot/legacy/nosokldr.c:63-71 | the chain in the bytes of the FAT at 0x8000: each cluster's word names the next, the last one's is 0xfff8 or more |
| Loader.ImageByte | src/boot/legacy/nosokldr.c:67-71 | byte o of sector s of the j-th cluster of the image is byte o of disk sector firstData + (chain[j] - 2) * sectors per cluster + s |
| Loader.LoadKernel | src/boot/legacy/nosokldr.c:60-73 | every directory entry with the kernel's name has its chain loaded, each image over the last; nothing else changes |
| Loader.OneKernel | src/boot/legacy/nosokldr.c:60-73 | with one matching entry what lies at the image address is the clusters of any FAT chain from its first cluster, end to end; with none memory is unchanged |
| Loader.KernelFromDisk | src/boot/legacy/nosokldr.c:60-73 | from the eleven name characters and cluster bytes of the directory entry, the words of the FAT and the sectors of the disk to each byte of memory from 0x40000 on; nothing below changes |
| ElfLoader.LoadElf | src/boot/legacy/nosokldr.c:75-101 | for every image: an invalid header leaves memory unchanged, a valid one runs the loop, which reads each program header and the number of them from memory as it then is |
| ElfLoader.HeaderOkIff | src/boot/legacy/nosokldr.c:78-90 | exactly which images are accepted, by the bytes of magic, type, machine and version |
| ElfLoader.CompleteImageLoads | src/boot/legacy/nosokldr.c:93-101 | when the image is complete and the targets are clear of it, the loop is the ordered overlay of all segments the untouched image describes |
| ElfLoader.HeaderReplaced | src/boot/legacy/nosokldr.c:96-101 | a program header that an earlier segment covers is read from the bytes copied there |
| ElfLoader.ImageOverwritesHeaders | src/boot/legacy/nosokldr.c:75-101 | a valid image on which the loop changes a byte that none of its program headers covers |
| ElfLoader.OverlayByte | src/boot/legacy/nosokldr.c:96-101 | every byte ends up as the file byte of the last segment covering it, or as it was |
| ElfLoader.SegmentsHold | src/boot/legacy/nosokldr.c:96-101 | when no two targets overlap every segment holds its file bytes |
| ElfLoader.ImageKept | src/boot/legacy/nosokldr.c:96-101 | placing segments clear of the image never disturbs the image |
| ElfLoader.OutsideKept | src/boot/legacy/nosokldr.c:96-101 | bytes no segment covers keep their value |
| ElfLoader.LoadAndPlace | src/boot/legacy/nosokldr.c:60-101 | both halves of the loader in sequence: the loaded image decides whether and how the loop runs |
| ElfLoader.KernelInPlace | src/boot/legacy/nosokldr.c:60-101 | from disk to physical address: with one kernel and disjoint targets, byte i of a segment is byte offset + i of the clusters of the FAT's chain laid end to end |
| ElfLoader.SegmentFromDisk | src/boot/legacy/nosokldr.c:60-101 | byte i of a segment in memory is the byte of the disk sector that holds that byte of the file |

## Left out

- Port I/O, PIC and IDT set-up, exception dumps, bochs output and PCI scanning: hardware plumbing without an invariant to keep; a timer interrupt appears only as "a switch may happen".
- The PCnet driver's rings and the AHCI and RTL8139 stubs: their guarantees rest on device behaviour the repository does not define. `send_packet` of the adapter is the list of frames in `NetStack.wire`.
- The ARP cache and ARP frames: a linear lookup; an ARP frame is accepted and ignored here.
- `UDPSocket::recv` waiting on `hlt`, and interrupts inside it: delivery is one atomic step.
- The DHCP exchange with a server after the offer (the request is built but its reply is not modelled), lease times and retries: lease times and retries are not implemented in the code either.
- Failing allocations inside the network code and `create()`: the code does not check for -1, so buffers are always obtained here; `HeapBlocks` says when they are.
- VESA and EDID mode choice, BIOS calls and mode switching: foreign calls; a BIOS disk read is a copy from an abstract array of sectors.
- `p_type` filtering and zero fill up to `p_memsz`: the code does neither.
- TLB flushes, `set_cr3`, atomics and memory ordering: not visible in the tables and values modelled.
- Printf.Printf: does not say what the code does once it has left its format, buffer, arguments or font, because that memory is not part of this model; it stops there and reports it.
- The RFC 768 rule that a computed checksum of zero is sent as all ones: the code does not implement it; `ZeroChecksumIff` says exactly when it would matter.
- Heap.KernelHeap.constructor: requires null link fields, because the code does not write the links.
- Heap.KernelHeap.Kmalloc: requires that the memory it is about to use exists, because the code does not know where memory ends; always so when the range lies in memory (`RangeHasRoom`).
- Frames.FrameAllocator.Free: requires an address below 2 GiB, because beyond it the code writes behind its bitmap.
- Frames.FrameAllocator.Init: requires a kernel that ends below 2 GiB less 64 KiB, because beyond it the code writes behind its bitmap.
- Paging.KernelPaging.FreeFrame: requires a frame the caller holds and has cleared, for the same reason as `KernelMemory.StepSafe`.
- KernelMemory.StepSafe: frees only cleared frames, because no later step of the code clears one before it becomes a page table; `MapSparesOthersIff` says what an uncleared one does.
- Paging.KernelPaging.MapPage: requires a free frame when a table is needed, because the code uses the -1 of an exhausted allocator as an address.
- Paging.KernelPaging.MapFramebuffer: requires a page-aligned framebuffer and enough free frames, because the code drops the low address bits and does not check the allocator.
- Tasks.Cpu.Create: requires the new stack and context to be clear of the others, because the code builds the first frame outside the block it allocated.
- Video.Screen.Putc: requires a 7-bit character, because for any other the code reads outside the font (`GlyphInFontIff`).
- Video.Screen.DrawLine: requires a 7-bit character, like `Putc`.
- Video.Screen.DrawGlyph: requires a 7-bit character, like `Putc`.
