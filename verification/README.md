# Verified model of the capucho-os kernel

This project models the parts of capucho-os, a small x86-64 kernel, whose correctness is not
local: who owns which physical frame from the bootloader's memory map onwards, the reference
counts of the ACPI handler on top of that, the scrolling VGA text screen, and the register-level
code of the I/O APIC, PCI and AHCI drivers. `dafny verify dfyconfig.toml` checks everything.

## How it is built

| file | what it models |
|---|---|
| `Wrappers.dfy` | `Option` and intervals of numbers |
| `MemoryMap.dfy` | the memory map, its usable frames, and the region lookup |
| `Bitmap.dfy` | the `u32` bitmap and the set of frames it stands for |
| `Mapper.dfy` | what the kernel sees of the mapper of the `x86_64` crate |
| `Bootstrap.dfy` | the bootstrap allocator and its counters |
| `FrameAllocator.dfy` | the bitmap allocator and the hand-over to it |
| `KernelRuns.dfy` | whole runs of allocation, mapping, device mapping and unmapping |
| `Paging.dfy` | the paging context: `map_range`, `mmap_dev`, `unmap` |
| `AcpiRuns.dfy` | whole runs of the ACPI handler interleaved with the rest of the kernel |
| `AcpiHandler.dfy` | the handler and its regions |
| `Vga.dfy` | the text writer and the unbounded log |
| `Words.dfy` | machine words as sets of bit positions |
| `RedirEntries.dfy`, `IoApic.dfy` | redirection entries, routing, register access, set-up |
| `Pci.dfy`, `Ahci.dfy` | configuration space, device search, port slice, split addresses |

State that the kernel updates in place is a class: the two allocators with their arrays, the
paging context, the ACPI handler, the text writer with its 25 by 80 array, the interrupt
controller. Each method is tied to a relation or function on values, and the laws are proved
about those.

## Main results

- **No live frame is handed out twice** (`KernelRuns.HandoutSafety`). Over every run, under any
  interleaving, this holds if and only if start-up leaves no frame *exposed*: free, usable,
  unmapped, and taken for a device frame by the region lookup. With the containment test in
  `get_frame_ty` nothing is ever exposed. With the comparison as it is written, the exposed frames
  are described exactly (`WrittenExposes`), the law is characterised by the memory map
  (`WrittenHandoutSafety`), and a concrete machine breaks it (`WrittenCounterexample`).
- **Exhaustion is real** (`KernelRuns.ExhaustionSafety`): allocation fails only when every usable
  frame is used, in every run, if and only if no exposed frame lies below a free one. For the
  comparison as it is written, `WrittenExhaustionSafety` says this in terms of the memory map, and
  `WrittenExhaustionCounterexample` is a machine on which allocation fails with a frame free.
- **The bootstrap counters lose nothing** (`Bootstrap.CountersExact`,
  `FrameAllocator.HandoverExact`).
- **References are conserved** (`AcpiRuns.ReferenceConservation`): page counts equal live regions
  plus pins in every run, at page granularity and with the rest of the kernel interleaved, the page
  table is what the others mapped and the identity on exactly the referenced pages, and a release
  never panics. `TakenAndReleased` gives the round trip for any number of regions, overlapping or
  not. The methods of the handler are proved to be such runs.
- **The screen is the tail of the log** (`Vga.ScreenIsTailOfLog`), for every text and every
  starting screen.

## Where the code and its intent part

The model follows the code. `Lookup` in `MemoryMap.dfy` names both comparisons of
`get_frame_ty`, so that each law is stated for the written one and for the containment test.

- `get_frame_ty` tests `start >= addr`: it answers with the first region that starts at or after
  the frame. `LookupAgreement` says exactly for which frames that is right.
- The bitmap's memory is never cleared: `Init` takes its contents as a parameter, and
  `HandoverExact` says for exactly which contents the marks are right.
- The bitmap slice is `end_frame + 1` words long, although fewer are mapped. The model's array has
  exactly the mapped words, so every index is proved to lie in mapped memory.
- The setters of `RedirEntry` toggle their field instead of clearing it, and `set_vector` only
  ORs: `SetterExact` and `ConfigureExact` give the exact conditions under which the result is right.
- `get_interrupt_ioapic` never looks at the base of chip 0 (`RoutedExact`,
  `RoutedCounterexample`), and the interrupt number is used as the entry number without subtracting
  the base of the chip. `RouteExact` says exactly when the code still reaches the interrupt's own
  entry, `RouteCounterexample` gives two chips on which it does not, and `InitExact` carries this
  through to what `apic_init` achieves.
- The base of a chip is cut to a byte, so that 256 becomes 0. `Chip.base` is the cut base, and the
  results above are about cut bases. `CutRouteExact` says exactly when an interrupt still reaches
  the entry that is its own by the uncut bases; `CutRouteCounterexample` gives two chips on which
  it does not.
- The AML reads and writes map only the page of the address. `CoveredExact` says exactly when that
  covers the whole operand, and `AccessCounterexample` gives an access on which it does not.
- `redir_entry` takes the highest entry number for a count and refuses exactly the last entry
  (`ReadableExact`, `ReadableCounterexample`).
- The 16-bit PCI accesses pick their half by `offset % 2`, narrow writes overwrite the whole
  dword, and offsets of 256 and above fall on those below.

## Assumptions

- The memory map has 1 to 64 regions, not empty, in increasing order and without overlap. The
  largest address does not overflow.
- The mapper of the `x86_64` crate is a map from pages to frames. Mapping an already mapped page
  fails; otherwise the walk draws the missing page tables, at most three, and may end at a huge
  page. Which walk happens is a parameter (`Walk`). Unmapping frees no page tables.
- A guard cannot be copied and is used up by `unmap`. Each locked operation is one step.
- A panic is a result (`None`, `Panicked` or `false`) after which there is no further step.
- Registers and configuration space are plain storage. Arithmetic overflow on `u8` panics.
- Frame numbers stand for addresses divided by 4096.

## Model

| member | source | states |
|---|---|---|
| MemoryMap.UsableFramesSorted | src/memory/frame_allocator/mod.rs:138-142 | the iterator chain visits exactly the usable frames, each once, in increasing order |
| MemoryMap.UsableFramesAt | src/memory/frame_allocator/bootstrap.rs:30-40 | entry k of the chain is the frame at its offset within its own region |
| MemoryMap.ContainmentLookup | src/memory/frame_allocator/mod.rs:123-132 | with the containment test the lookup finds the one region that holds the frame, and says usable exactly for usable frames |
| MemoryMap.WrittenLookup | src/memory/frame_allocator/mod.rs:123-132 | with the written test it finds the first region that starts at or after the frame |
| MemoryMap.LookupAgreement | src/memory/frame_allocator/mod.rs:129 | the two tests agree if and only if the frame opens its region, the next region has the same type, or the frame is past the map |
| MemoryMap.EndFrameExact | src/memory/frame_allocator/mod.rs:36 | a number bounds every frame of the map if and only if it is at least the end frame of the last region |
| MemoryMap.LookupBelowEnd | src/memory/frame_allocator/mod.rs:97-99 | every frame the lookup answers for has its bit inside the bitmap |
| Bitmap.FrameIdxToParts | src/memory/frame_allocator/mod.rs:191-196 | the truncating cast before the remainder loses nothing |
| Bitmap.MaskExact | src/memory/frame_allocator/mod.rs:193-195 | the mask of a bit, shifted down by it, is one |
| Bitmap.SetBit | src/memory/frame_allocator/mod.rs:109-113 | setting a bit adds exactly its frame to the set |
| Bitmap.ClearBit | src/memory/frame_allocator/mod.rs:116-120 | clearing a bit removes exactly its frame from the set |
| Bitmap.StorageSuffices | src/memory/frame_allocator/mod.rs:35-58 | a number of pages of 32768 bits holds every bit if and only if it is at least the computed one |
| Bootstrap.BootStrapAllocator.AllocateFrame | src/memory/frame_allocator/bootstrap.rs:44-50 | hands out the usable frames in order, fails after the last, and keeps the counters exact |
| Bootstrap.BootStrapAllocator.AllocateBitmapFrame | src/memory/frame_allocator/bootstrap.rs:14-28 | maps the page on the next frame and draws the missing tables, succeeding exactly when that is possible |
| Bootstrap.CounterStep | src/memory/frame_allocator/bootstrap.rs:47-48 | taking a frame bumps the counter of its region and no other |
| Bootstrap.CountersExact | src/memory/frame_allocator/bootstrap.rs:44-50 | the runs described by the counters are exactly the frames handed out |
| Bootstrap.CountersSum | src/memory/frame_allocator/bootstrap.rs:47-48 | the counters add up to the number of frames handed out |
| FrameAllocator.MapPagesSound | src/memory/frame_allocator/mod.rs:52-55 | the bitmap's pages land on distinct bootstrap frames and the rest of the page table is kept |
| FrameAllocator.MapPagesTotal | src/memory/frame_allocator/mod.rs:52-55 | mapping the bitmap succeeds if and only if its pages are free, no huge page is met and the frames suffice |
| FrameAllocator.MapBitmap | src/memory/frame_allocator/mod.rs:52-55 | the loop computes that mapping and takes one frame per page and per missing table |
| FrameAllocator.MarkTaken | src/memory/frame_allocator/mod.rs:66-73 | the loop over the counters marks exactly the frames the bootstrap allocator took |
| FrameAllocator.MarkKernel | src/memory/frame_allocator/mod.rs:75-91 | the loop over the regions marks exactly the frames of the regions that are not Usable, Reserved, AcpiReclaimable or FrameZero |
| FrameAllocator.Init | src/memory/frame_allocator/mod.rs:29-94 | start-up marks the bootstrap frames, the kernel frames and what the bitmap memory held, nothing else; which region types are marked and which are not, by name |
| FrameAllocator.MarkedTypes | src/memory/frame_allocator/mod.rs:75-91 | after start-up every frame of a region of another type than those four is marked, and a Reserved, AcpiReclaimable or FrameZero frame exactly if the bitmap memory had its bit set |
| FrameAllocator.HandoverExact | src/memory/frame_allocator/mod.rs:57-73 | the marked usable frames are exactly the counted runs if and only if the memory held no other usable frame's bit |
| FrameAllocator.ClearedMemory | src/memory/frame_allocator/mod.rs:57-64 | memory of zero words marks no frame |
| FrameAllocator.GlobalFrameAllocator.IsUsed | src/memory/frame_allocator/mod.rs:102-106 | agrees with membership in the set of used frames |
| FrameAllocator.GlobalFrameAllocator.MarkUsed | src/memory/frame_allocator/mod.rs:109-113 | adds one frame to the set of used frames |
| FrameAllocator.GlobalFrameAllocator.MarkUnused | src/memory/frame_allocator/mod.rs:116-120 | removes one frame from the set of used frames |
| FrameAllocator.GlobalFrameAllocator.RecalculateNextUsable | src/memory/frame_allocator/mod.rs:136-158 | moves the cursor to the least free usable frame at or above it, or reports that there is none |
| FrameAllocator.GlobalFrameAllocator.AllocateFrame | src/memory/frame_allocator/mod.rs:162-179 | returns and marks that frame, and fails exactly when there is none |
| FrameAllocator.GlobalFrameAllocator.DeallocateFrame | src/memory/frame_allocator/mod.rs:183-185 | removes one frame from the set of used frames; the cursor stays |
| KernelRuns.StartupIsStart | src/memory/frame_allocator/mod.rs:46-94 | start-up ends in a state where what was handed out is distinct, usable and marked |
| KernelRuns.StepKeepsInv | src/memory/mod.rs:66-139 | every step keeps the invariant on guards, mappings, handed-out frames and cursor |
| KernelRuns.HandoutSafety | src/memory/frame_allocator/mod.rs:123-186 | in every run no live frame is handed out again and all stay marked, if and only if no frame is exposed at the start |
| KernelRuns.HandedOutTwice | src/memory/mod.rs:66-115 | an exposed frame gives a run that hands it out twice |
| KernelRuns.EveryRun | src/memory/mod.rs:66-115 | frames handed out are usable, start-up marks are never cleared, start-up mappings are kept, guards always find their own page |
| KernelRuns.UnguardedKept | src/memory/mod.rs:104-139 | from any state on, a page mapped without a guard keeps its frame in every run |
| KernelRuns.BitmapKept | src/memory/frame_allocator/mod.rs:52-58 | in every run the pages of the bitmap stay on their own bootstrap frames, which stay marked |
| KernelRuns.KernelFramesKept | src/memory/frame_allocator/mod.rs:75-91 | the frames of every region that is not Usable, Reserved, AcpiReclaimable or FrameZero stay marked, are never handed out and are not released by a guard |
| KernelRuns.ExhaustionSafety | src/memory/frame_allocator/mod.rs:136-179 | allocation fails only when all usable frames are used, in every run, if and only if no exposed frame lies below a free one |
| KernelRuns.ContainmentHandoutSafety | src/memory/frame_allocator/mod.rs:123-132 | with the containment test both laws hold in every run |
| KernelRuns.WrittenExposes | src/memory/frame_allocator/mod.rs:129 | the frames exposed by the written comparison, in terms of the memory map |
| KernelRuns.WrittenHandoutSafety | src/memory/frame_allocator/mod.rs:129 | the exact condition on the map under which the written code is safe |
| KernelRuns.WrittenExhaustionSafety | src/memory/frame_allocator/mod.rs:129-157 | the exact condition on the map under which allocation in the written code fails only when all usable frames are used |
| KernelRuns.WrittenExhaustionCounterexample | src/memory/frame_allocator/mod.rs:129-157 | a map, the state that start-up leaves on it, and a run after which allocation fails with frame 2 free |
| KernelRuns.WrittenCounterexample | src/memory/frame_allocator/mod.rs:129 | a map, the state that start-up leaves on it, and a run that hands a frame out twice |
| Paging.PagingContext.MapRange | src/memory/mod.rs:119-139 | on success each page is on its own fresh frame and the used count grows by pages plus tables; on failure the prefix stays mapped and at most the tables of the failing page are drawn besides |
| Paging.RangeFrameFresh | src/memory/mod.rs:125-136 | the frame of every page mapped was not used before and is none of the page tables drawn on the way |
| Paging.RangeFramesDistinct | src/memory/mod.rs:125-136 | no two pages of a range share a frame |
| Paging.DrawnCount | src/memory/mod.rs:125-136 | the number of used frames grows by exactly the frames drawn |
| Paging.PagingContext.MmapDev | src/memory/mod.rs:66-101 | draws the missing tables, then maps the frame to itself and makes the guard; it panics exactly on a known type other than Reserved, FrameZero and, for ACPI, KernelStack; when it fails, and why |
| Paging.PagingContext.UnmapGuarded | src/memory/mod.rs:104-115 | never fails, releases at most the frame the guard was made for |
| Paging.InitMemory | src/memory/mod.rs:31-37 | start-up succeeds exactly when the bitmap can be mapped, and leaves a context with the bitmap mapped from which the laws about runs hold |
| AcpiRuns.ReferenceConservation | src/acpi.rs:45-102 | in every run counts equal live regions plus pins, keys exist exactly for referenced pages, the page table is what others mapped plus the identity on those pages, and the release of a held page never panics |
| AcpiRuns.RunForeign | src/acpi.rs:76-102 | the pages of others change only by the events of others |
| AcpiRuns.BalancedRestores | src/acpi/handlers.rs:23-57 | after balanced region operations each count has grown by exactly the pins since, whatever happened elsewhere |
| AcpiRuns.TakenAndReleased | src/acpi/handlers.rs:23-57 | any regions taken and released again, if nothing was pinned and nobody else mapped, leave counts, keys and page table as they were |
| AcpiRuns.AcpiRunsAreSafe | src/acpi.rs:76-102 | the allocator's laws hold with the handler running |
| AcpiRuns.KernelPart | src/acpi.rs:82-100 | every run of the handler is a run of the kernel |
| AcpiHandler.RegionPagesMatch | src/acpi/handlers.rs:23-57 | for every address and size the pages released are the frames mapped, and these are exactly the pages with a byte from address to address + size; start and length of the mapping |
| AcpiHandler.PagesOfExact | src/acpi/handlers.rs:49-55 | a release goes over the pages from one end to the other and panics if and only if an end is not the start of a page |
| AcpiHandler.Handler.Map | src/acpi.rs:76-85 | adds a reference, mapping the frame only when there was none; fails only on a refused type, a mapped page, a huge page or when no frame is left for a table |
| AcpiHandler.Handler.Unmap | src/acpi.rs:88-102 | drops a reference, unmapping with the last one, and fails exactly without a reference |
| AcpiHandler.Handler.MapFrames | src/acpi.rs:126-128 | a run that takes one reference to each frame up to where it stops for its owner, and stops early only at a frame without one that cannot be mapped |
| AcpiHandler.Handler.PinTable | src/acpi.rs:121-128 | a run that pins each frame of a table, or stops at one that cannot be mapped |
| AcpiHandler.Handler.Access | src/acpi.rs:45-53 | a run that pins the page of the address; the operand is then covered if and only if it ends on that page or the next page had a reference |
| AcpiHandler.CoveredExact | src/acpi.rs:45-53 | the same as a fact about the reference counts before and after |
| AcpiHandler.AccessCounterexample | src/acpi/handlers.rs:64 | a two-byte access at 4095 is not covered unless page 1 had a key |
| AcpiHandler.Handler.MapPhysicalRegion | src/acpi/handlers.rs:16-40 | a run that opens the region and takes one reference to each of its pages; nothing else in the page table changes; it stops only at a frame that cannot be mapped |
| AcpiHandler.Handler.UnmapPhysicalRegion | src/acpi/handlers.rs:42-58 | a run that drops one reference to each page, succeeding exactly when every page has one |
| AcpiHandler.HeldRegionReleases | src/acpi/handlers.rs:42-58 | in every reachable state the pages of a held region all have a reference, so releasing it does not panic |
| Vga.ScreenIsTailOfLog | src/vga_buffer.rs:90-148 | the screen after any text is the last 25 rows of the wrapped log, and the column is the length of its last piece |
| Vga.Writer.constructor | src/vga_buffer.rs:10-14 | a writer over screen memory with any contents is valid |
| Vga.Writer.WriteString | src/vga_buffer.rs:116-125 | the buffer shows that screen for the text with unprintable bytes replaced: for the text itself if all bytes are 32 to 126 or 10, and 254 at the cursor for another byte |
| Vga.ShownExact | src/vga_buffer.rs:117-124 | a text is shown as it is if and only if its bytes are 32 to 126, 10 or 254, and every other byte is shown as 254 |
| Vga.Writer.WriteByte | src/vga_buffer.rs:90-109 | one byte in place, wrapping only when the next character comes |
| Vga.Writer.NewLineInPlace | src/vga_buffer.rs:128-137 | the in-place shift drops the top row and adds a blank one |
| Vga.Writer.ClearRow | src/vga_buffer.rs:140-148 | blanks one row and touches no other |
| RedirEntries.SetterExact | src/apic.rs:234-321 | each setter changes only its own field; the written form reads back if and only if the left-over bits are among the new ones |
| RedirEntries.ReadsBackIsField | src/apic.rs:234-316 | a getter returns a value exactly when the field holds it |
| RedirEntries.ReadsBackAsNumber | src/apic.rs:234-316 | each getter by division and remainder of the 64-bit number, with the codes of the delivery modes |
| RedirEntries.SequencesKeepOtherFields | src/apic.rs:236-321 | no sequence of setter calls changes a bit outside the fields it sets |
| RedirEntries.SequencesKeepField | src/apic.rs:236-321 | a field keeps its value under every sequence of calls of the other setters |
| IoApic.GetInterruptSource | src/apic.rs:15-21 | the first override decides, cut to a byte; without one the vector stays |
| IoApic.GetInterruptIoApic | src/apic.rs:25-41 | finds the first chip with the greatest base not above the vector if and only if chip 0 has its base at or below it |
| IoApic.RoutedExact | src/apic.rs:25-41 | the same about the search as a function |
| IoApic.RoutedCounterexample | src/apic.rs:25-41 | two chips in decreasing order on which the search stays at the wrong one |
| IoApic.RouteExact | src/apic.rs:43-55 | the code goes to the interrupt's own entry if and only if chip 0 has base 0 and no other chip starts between one and the interrupt |
| IoApic.RouteCounterexample | src/apic.rs:43-55 | two chips on which interrupt 30 goes to the wrong entry |
| IoApic.CutRouteExact | src/apic.rs:102-105 | with the bases cut to a byte an interrupt reaches its own entry by the uncut bases if and only if chip 0 really has base 0 and no cut base lies between one and the interrupt |
| IoApic.CutRouteCounterexample | src/apic.rs:102-105 | a chip with base 264 that gets interrupt 10 |
| IoApic.Apic.constructor | src/apic.rs:89-108 | the chips of the tables with their bases cut to a byte and their registers as they are |
| IoApic.ReadableExact | src/apic.rs:156-159 | of the entries a chip has, exactly the last is refused |
| IoApic.ReadableCounterexample | src/apic.rs:146-159 | a chip with 24 entries whose entry 23 cannot be read |
| IoApic.EntryRegisters | src/apic.rs:161-164 | entry j is register 0x10 + 2j below register 0x11 + 2j, and exists if and only if the latter fits in a byte |
| IoApic.EntryCountExact | src/apic.rs:146-149 | the count is bits 16 to 23 of register 1 |
| IoApic.EntryRoundTrip | src/apic.rs:156-172 | an entry written is read back and every other register is kept |
| IoApic.Apic.ReadRedirEntry | src/apic.rs:156-165 | the entry through the register pair, or a panic exactly when out of bounds |
| IoApic.Apic.WriteRedirEntry | src/apic.rs:167-172 | both halves of the entry through the register pair |
| IoApic.Apic.ReadReg | src/apic.rs:181-186 | the selected register; no register changes |
| IoApic.Apic.WriteReg | src/apic.rs:188-193 | one register of one chip changes |
| IoApic.Apic.SetUp | src/apic.rs:110-116 | the entry an interrupt is routed to is read, changed and written back |
| IoApic.Apic.Init | src/apic.rs:110-124 | both set-ups, or a panic exactly when an entry is not readable |
| IoApic.ConfigureExact | src/apic.rs:113-114 | an entry comes out unmasked with its vector if and only if it was masked and had no other vector bits |
| IoApic.EntriesAfterInit | src/apic.rs:110-124 | every entry of every chip after both set-ups; only the two that the code goes to change |
| IoApic.InitExact | src/apic.rs:110-124 | timer and keyboard are delivered as 32 and 33, each at its own entry of the chip that handles it, if and only if they differ and each has what it needs |
| IoApic.InitDelivers | src/apic.rs:110-124 | when neither is delivered before: if and only if they differ, both own entries are fit, and both are routed right |
| Pci.ConfigWordNumber | src/pci.rs:60-71 | the address word as a number: 2^31 plus bus, device, function and low offset byte at their places |
| Pci.ConfigWordExact | src/pci.rs:60-71 | address words are equal if and only if function and low offset byte are |
| Pci.ReadAfterWrite | src/pci.rs:8-38 | a write is read back there and changes nothing else |
| Pci.BytesMakeDword | src/acpi/handlers.rs:90-103 | the four byte reads reassemble the dword |
| Pci.ReadU16Exact | src/acpi/handlers.rs:95-98 | the 16-bit read gives the two bytes at its offset for every configuration space if and only if the offset is a multiple of four |
| Pci.ReadU16Counterexample | src/acpi/handlers.rs:95-98 | for every other offset, a configuration space on which it goes wrong |
| Pci.WriteU16Exact | src/acpi/handlers.rs:118-135 | the exact condition, for every offset, under which a 16-bit write replaces its bytes in the dword and keeps the rest |
| Pci.WriteU8Exact | src/acpi/handlers.rs:105-116 | a byte write keeps the rest of the dword exactly when it was zero |
| Pci.BruteForceFind | src/pci.rs:73-89 | finds exactly the functions that answer with low 16 bits other than 0xFFFF, each once, in bus, device, function order |
| Pci.ExistsExact | src/pci.rs:43-47 | the test as a number, and an absent function never passes it |
| Ahci.PortSliceExact | src/ahci.rs:242-273 | the slice lists the ports below the number of ones in the register, which are exactly those found one by one if and only if the register is 2^k - 1 |
| Ahci.AddressRegisters.Set | src/ahci.rs:195-217 | an address is taken if and only if it is a multiple of 1024; the halves are its remainder and quotient by 2^32, and it is read back from them |

## Left out

- AML parsing, ACPI table discovery, sleep states and enabling ACPI: external crates and port I/O.
- Page-table walking, TLB flushes and page flags: the mapper is the abstract one described above.
- The heap allocator: a library; its one use of `map_range` is covered by `MapRange`.
- Interrupt handlers, GDT and IDT, serial port, logger, keyboard: port writes whose meaning lies in hardware.
- Spin locks and interrupt masking: each locked operation is one step.
- AHCI capability and status decoders, and the `Debug` output of all types: single-branch facts.
- The second dword of a 16-bit PCI access that crosses a dword boundary: the code never writes it.
- I/O APIC bits that the hardware keeps read-only: registers are plain storage.
- The iterator over redirection entries: it repeats `redir_entry`.
- Words of the I/O APIC, PCI and AHCI registers are sets of bit positions, not bit vectors; only the frame bitmap uses bit vectors.
