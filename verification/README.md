# OSFort memory manager, NVMe start-up and loader: a Dafny model

OSFort is a small x86_64 kernel with a UEFI boot loader. This project models its stateful parts and
proves what their callers rely on:

* **The page-frame allocator** (`Bitmap.dfy`, `Allocator.dfy`, `AllocatorRuns.dfy`): a bitmap over bytes
  with three wrapping counters. Every method is proved against a function on the sequence of visible
  bits (`Mark`, `Requested`, `Run`), and the properties of runs are proved about those functions: the
  bitmap refines an abstract free set that is handed out lowest-first, no page is handed out twice, the
  counters account for the pages exactly, ranges are charged once.
* **Four-level page tables on top of it** (`PageTable.dfy`, `MapProofs.dfy`, `MapTheorems.dfy`,
  `Walk.dfy`, `KernelRuns.dfy`, `Paging.dfy`). Physical memory is an array of entries, entry `slot` of frame `f` at
  `512 * f + slot`. `At(mem, root, level, i)` is the frame the hardware walk reaches for index `i` of a
  level (4 is the PML4, 3 a PDPT, 2 a PD, 1 a PT, 0 a page), where index `i` of level `l` stands for the
  virtual pages `v` with `v / 512^l == i`. `Tree` says that every table lies in RAM, is marked in the
  bitmap, and has one place only. What the processor makes of memory is stated apart from all this, by
  `Walk` (section 4.5 of the Intel SDM, Volume 3A) on raw entries, access rights included. `Need` is the
  set of missing tables of a list of mappings and `ClearRam` the set of unmarked RAM frames.
* **Boot-time memory set-up** (`MemoryMap.dfy`, `Boot.dfy`, `BootTheorems.dfy`, `BootCost.dfy`,
  `BootCode.dfy`): the scan of the firmware map, the place of the bitmap, the reservations, and the first
  address space, from the map to the load of CR3; when all of this is right, what it costs, and what it
  leaves in the counters. The conditions (`Placed`, `HasRoom`, `Fits`) speak of the firmware map, the
  kernel's link addresses and the device ranges alone.
* **The NVMe admin queue and the controller handshake** (`NvmeQueue.dfy`, `NvmeHandshake.dfy`,
  `Registers.dfy`): driver and controller as interleaved steps (NVM Express Base Specification 1.4,
  sections 4.1, 4.6 and 7.6.1), and the bit-field accesses on registers. Machine words are sequences of
  bits there, so that the masks and shifts of the code are written out and hold for every width.
* **The loader and the formatters** (`Loader.dfy`, `Directory.dfy`, `Print.dfy`): the PT_LOAD copy loop
  over a page-ownership model of `AllocatePages`, the ext2 directory walk, decimal and hexadecimal
  digits.

## What was found

Where the code does not meet the obvious property, the exact condition is proved, and a lemma gives an
input at which it fails:

* `_start` clears the bitmap in the memory whose map it is still reading, and looks only for the largest
  conventional descriptor. Every byte of the bitmap lies on conventional RAM outside the kernel image if
  and only if the bitmap is `Placed` well: its storage ends inside RAM, avoids every descriptor of another
  kind, and shares no page with the kernel image (`BitmapSparesMemoryIff`; with no conventional descriptor
  behind the picked one, the storage avoids other memory exactly when it fits into the picked descriptor,
  `FitsPickedIff`). Otherwise the clearing destroys the loader's data (`BitmapOverruns`), which can be
  the kernel (`KernelCleared`). The results on the reservations and on the boot are stated for a well placed bitmap.
* No step of the boot checks that a page was left, and the framebuffer is locked only after the root and
  the tables of the identity map were taken, lowest page first. On a sized machine the tree is well-formed,
  every page is translated as it should be and no table stands on a framebuffer page if and only if the
  usable pages suffice for the root, all tables and the framebuffer pages among them, and each of these
  has enough usable pages below it for the root and the identity map (`BootRightIff`, with `Fits`). A
  machine without a page for the tables is `NoPageForTables`; with a framebuffer on the lowest pages of RAM
  paging works (`OutcomeIff`), but the tables stand in the framebuffer (`TablesInFramebuffer`).
* The bound checks of the bitmap use `>`, so bit `size * 8` is reached: a set touches the byte behind
  the bitmap exactly for that index when the bit there differs (`SetStaysInside`, `ByteBehindWritten`).
  At boot that byte lies in the locked storage, but it is not cleared (`ClearedIsAccountedIff`).
* `req_page` answers 0 on exhaustion, the address of a page in use (`RequestIsOwnedIff`, `NothingLeft`),
  and `map_page` does not look: a run of calls is right exactly when the missing tables fit into the clear
  RAM frames (`MapAllCorrectIff`, `NoRoomFails`).
* `free_page` on a page that holds a table breaks the tree, on any other page it keeps it
  (`FreeKeepsTreeIff`, `RootFreed`).
* `lock_pages` followed by `free_pages` loses a page's worth of bytes for each page behind the bitmap
  (`LockThenFree`, `PageBehindLost`); so at boot every page of a framebuffer outside RAM is charged
  to RAM in the counters (`FbOutsideIsCharged`).
* `vir_to_phys` shifts a 40-bit field without widening it: with its tables below 2^40 it is right exactly
  for pages below 2^40 (`VirToPhysIff`, `HighPageLost`).
* The pages of a range are counted from its size alone. For the MCFG table, which need not start on a page,
  all bytes lie on mapped pages if and only if the offset of its start and the rest of its length fit into
  one page (`McfgCoveredIff`, `McfgCut`).
* The queue base registers get an address in a field already shifted by 12 (`QueueBaseIff`,
  `QueueBaseMoved`).
* The doorbell offset is a 32-bit product: two doorbells meet exactly when their numbers agree modulo
  2^(30 - stride) (`BellsMeetIff`, `BellsMeet`).
* `itoa` computes 10^20, which wraps: the digits stand for the number modulo 10^19 (`Itoa`,
  `LeadingDigitLost`).
* The rounding up of `p_memsz` wraps for the largest sizes, and then no page is asked for (`RoundingIff`,
  `RoundedToNothing`).
* The directory search ignores `name_len`. A record that bears the wanted name is found if and only if no
  earlier record shadows it: none has a name that starts with the wanted one, and none has a shorter name
  that the bytes behind it complete (`Find`, `NamedIsFirstIff`, `LongerNameFound`, `ShorterNameFound`).

## Reading guide

The inline blocks of `map_page` that fetch the next table are one method here (`Memory.NextTable`), and
`_start` is cut into several methods along its source lines. CR3 is a parameter (`root`). The methods ask
for no room: with an exhausted allocator they use page 0, as the code does. An entry outside RAM reads
as clear and a write there is lost; that `map_page` stays inside RAM when it has room is `MapPageInBounds`.
The bytes of the bitmap (`buffer`, with the one byte behind it that the bound check lets through) and the
page-table entries (`ram`) are separate arrays; that they never overlap in the one physical memory of the
original while there is room, and that the firmware map and the kernel image are not written, is what
`Placed`, `BitmapSparesMemoryIff` and `TablesOnUsablePages` say. Without room the original may overwrite
the bitmap through page 0, which the two arrays do not show. A directory is given with the list of its record
offsets; a buffer has one such list at most (`SameRecords`).

## Model

| member | source | states |
|---|---|---|
| Bitmaps.BitsOfUpdate | boot/kernel/bitmap.c:10-25 | setting or clearing one bit of one byte changes that bit of the bit sequence and no other |
| Bitmaps.Bitmap.Get | boot/kernel/bitmap.c:4-12 | the bit at the index, and 0 behind the last visible bit; index size * 8 is visible |
| Bitmaps.Bitmap.Set | boot/kernel/bitmap.c:13-25 | the visible bits change at the index only, and the answer says whether the index was visible |
| Bitmaps.SetStaysInside | boot/kernel/bitmap.c:14 | memory behind the bitmap is untouched if and only if the index is not size * 8 or the bit there already has the value |
| Bitmaps.ByteBehindWritten | boot/kernel/bitmap.c:14 | a bitmap of one byte whose neighbour is written |
| Allocator.FirstClear | boot/kernel/paging.c:67-68 | the scan of req_page yields the least clear bit, and nothing only when all bits are set |
| Allocator.FoundIsLeast | boot/kernel/paging.c:66-76 | the page handed out is exactly the least clear one below size * 8, and that bit alone is set |
| Allocator.RunAppend | boot/kernel/paging.c:17-65 | calls on the allocator compose: a range call is the run of its single calls |
| Allocator.PageBitmap.Place | boot/kernel/kernel.c:54-57 | after placing and clearing, all bits are clear except the one behind the bitmap, which keeps its value |
| Allocator.PageBitmap.FreePage | boot/kernel/paging.c:6-16 | a set page becomes clear and its bytes move from used to free; otherwise nothing changes |
| Allocator.PageBitmap.LockPage | boot/kernel/paging.c:21-31 | a page that reads clear becomes set and its bytes move from free to used, also behind the bitmap where no bit changes |
| Allocator.PageBitmap.UnreservePage | boot/kernel/paging.c:36-46 | a set page becomes clear and its bytes move from reserved to free |
| Allocator.PageBitmap.ReservePage | boot/kernel/paging.c:51-61 | a page that reads clear becomes set and its bytes move from free to reserved |
| Allocator.PageBitmap.FreePages | boot/kernel/paging.c:17-20 | the run of free_page over the range, with 64-bit address wrap |
| Allocator.PageBitmap.LockPages | boot/kernel/paging.c:32-35 | the run of lock_page over the range, with 64-bit address wrap |
| Allocator.PageBitmap.UnreservePages | boot/kernel/paging.c:47-50 | the run of unreserve_page over the range, with 64-bit address wrap |
| Allocator.PageBitmap.ReservePages | boot/kernel/paging.c:62-65 | the run of reserve_page over the range, with 64-bit address wrap |
| Allocator.PageBitmap.ReqPage | boot/kernel/paging.c:66-76 | the lowest clear page below size * 8 is locked and its address returned; without one nothing changes and the answer is 0 |
| Machine.PageOfPageAddr | boot/kernel/paging.c:19 | the i-th page of a range is page base + i modulo 2^52 |
| AllocatorRuns.TotalIsConstant | boot/kernel/paging.c:6-76 | free + used + reserved is constant modulo 2^64 over every run, pages behind the bitmap included |
| AllocatorRuns.RunRefinesPool | boot/kernel/paging.c:6-76 | every call of every run acts on an abstract free set: requests take its minimum below the limit and fail only when there is none |
| AllocatorRuns.StaysSet | boot/kernel/paging.c:6-76 | a set page stays set until a call frees or unreserves it |
| AllocatorRuns.NoDoubleHandOut | boot/kernel/paging.c:66-76 | a page handed out twice was freed or unreserved in between |
| AllocatorRuns.RequestIsOwnedIff | boot/kernel/paging.c:66-76 | the address returned belongs to a page that was clear if and only if some scanned bit was clear |
| AllocatorRuns.NothingLeft | boot/kernel/paging.c:66-76 | an allocator with nothing left to hand out, on which the answer is 0 and page 0 is in use |
| AllocatorRuns.StepAccounted | boot/kernel/paging.c:6-76 | one matching call keeps bits and counters equal to what the page labels say |
| AllocatorRuns.CountersAreExact | boot/kernel/paging.c:6-65 | over matching runs used and reserved are PAGE_SIZE times the pages so labelled, and bits are set exactly for pages not free |
| AllocatorRuns.PagesOfRange | boot/kernel/paging.c:32-35 | which pages a range call names, from address and length |
| AllocatorRuns.MarkingSets | boot/kernel/paging.c:21-65 | lock and reserve calls add exactly the named pages that the bitmap covers |
| AllocatorRuns.MarkingCharges | boot/kernel/paging.c:21-65 | they move one page's worth of bytes per newly set page and per call behind the bitmap |
| AllocatorRuns.FreeingSets | boot/kernel/paging.c:6-20 | free calls remove exactly the named pages |
| AllocatorRuns.UnionIsCharged | boot/kernel/paging.c:21-65 | from an empty bitmap the set bits are the union of the ranges, each page charged once |
| AllocatorRuns.LockThenFree | boot/kernel/paging.c:17-35 | lock_pages then free_pages on pages not set restores the bitmap; per page behind the bitmap one page's worth of bytes stays on the used side |
| AllocatorRuns.PageBehindLost | boot/kernel/paging.c:17-35 | a page behind the bitmap that stays counted as used after lock and free |
| PageTables.IndexFields | boot/kernel/paging.c:78-81 | the four index fields are the slots on the way from the root to the address's page |
| PageTables.ZeroedAt | boot/kernel/paging.c:90 | zeroing a frame that is no table changes no walk |
| PageTables.WrittenAt | boot/kernel/paging.c:95 | writing one slot of one table changes only the walks through that slot |
| PageTables.NewTableIsFree | boot/kernel/paging.c:89 | with a clear RAM frame left, the new table's frame is clear, in RAM and no live table |
| PageTables.NewTableLinked | boot/kernel/paging.c:84-96 | after a missing table is allocated, zeroed and linked, its parent's entry has p and rw set, the frame, and nothing else; every other walk, link and last-level entry is as before, and the tree is well-formed |
| PageTables.LeafWritten | boot/kernel/paging.c:135-139 | writing a last-level entry changes that page's entry and nothing else, no link of a table included |
| MapProofs.GrownTwice | boot/kernel/paging.c:77-147 | growing the tree composes: disjoint sets of new tables with their links, frames and bytes add up |
| MapProofs.AllLevels | boot/kernel/paging.c:84-133 | the three blocks add exactly the missing tables, leave all last-level entries alone and reach the page's table |
| MapProofs.MapPageEffect | boot/kernel/paging.c:77-142 | map_page takes exactly the missing tables from clear RAM, links each for reading and writing and with nothing else set, keeps all other links and the tree, and changes addr, p and rw of one last-level entry only |
| MapProofs.MapAllEffect | boot/kernel/paging.c:77-147 | for every list of calls with room: last writer wins per page, one frame per distinct missing prefix, linked for reading and writing with nothing else set, old links untouched, used and free move by PAGE_SIZE times that, only those frames become marked |
| BootTheorems.MapAllLowest | boot/kernel/paging.c:66-147 | every run of calls takes the lowest clear RAM frames, with room or without |
| MapTheorems.NeedMember | boot/kernel/paging.c:84-133 | a table is missing for a list exactly when it is absent and some page of the list has its prefix |
| MapTheorems.MapAllCorrectIff | boot/kernel/paging.c:77-147 | the run is correct (tree, translations, fresh frames) if and only if the missing tables fit into the clear RAM frames |
| MapTheorems.MapPageTranslates | boot/kernel/paging.c:77-142 | the address translates to its frame, and every address that differs in bits 12..47 as before |
| MapTheorems.RemapIsFree | boot/kernel/paging.c:135-139 | remapping mapped pages takes no frame, moves no counter and keeps the other bits of the entries |
| MapTheorems.LastOfCalls | boot/kernel/paging.c:143-147 | the page-by-page effect of map_pages calls equals the description by ranges, wrap-around included |
| MapTheorems.CallsRefine | boot/kernel/paging.c:143-147 | any sequence of map_pages calls refines the described address space, last covering call first, and pays one frame per missing table |
| MapTheorems.CostAtMost | boot/kernel/paging.c:84-147 | in any tree a range at any address takes at most the number of distinct prefixes of its pages per level, also where it wraps |
| MapTheorems.CostOfRange | boot/kernel/paging.c:84-147 | into an empty PML4 it takes exactly that many frames, and used and free move by that many pages |
| MapTheorems.CostFromZero | boot/kernel/paging.c:84-147 | for n pages from address 0 that number is ceil(n/512) + ceil(n/512^2) + ceil(n/512^3) |
| HardwareWalk.WalkOfTree | boot/kernel/paging.c:77-142 | in a tree whose tables are all linked for reading and writing, the processor's walk on raw memory ends at the frame and with the rights of the page's last-level entry |
| HardwareWalk.MapPageWalks | boot/kernel/paging.c:77-142 | after map_page with room the processor reaches the address's frame for reading and writing, and every address that differs in bits 12..47 as before |
| HardwareWalk.RunWalks | boot/kernel/paging.c:77-147 | the same for any run of calls with room: the frame of the last call that names the page, writable, with the execute permission the page had; and all tables stay so linked |
| HardwareWalk.NewPageIsClean | boot/kernel/paging.c:120-139 | a page mapped into a table that had to be made has an entry with p, rw and the frame, and nothing else |
| KernelRuns.RunKeepsTree | boot/kernel/paging.c:6-147 | every state that allowed calls reach has distinct, marked tables, each in one place |
| KernelRuns.OneParentSlot | boot/kernel/paging.c:84-133 | a table is linked from one slot of one table, and the root from none |
| KernelRuns.RequestedIsNoTable | boot/kernel/paging.c:66-76 | req_page never finds a live table |
| KernelRuns.FreeKeepsTreeIff | boot/kernel/paging.c:6-16 | free_page and unreserve_page keep the tree if and only if the page is no table |
| KernelRuns.EmptyTree | boot/kernel/kernel.c:72-73 | a marked and zeroed frame is the root of an empty tree |
| KernelRuns.VirToPhysIff | boot/kernel/paging.c:148-164 | with its tables below 2^40, vir_to_phys of a mapped address is the base of its page modulo 2^40, hence that base if and only if it lies below 2^40 |
| KernelRuns.HighPageLost | boot/kernel/paging.c:148-164 | a machine on which a page mapped at 2^40 gets another answer |
| KernelRuns.NoRoomFails | boot/kernel/paging.c:77-142 | a machine without a clear frame, on which mapping any page is not correct |
| KernelRuns.RootFreed | boot/kernel/paging.c:6-16 | a tree that freeing its root breaks |
| Paging.Memory.ZeroPage | boot/kernel/paging.c:90 | exactly the entries of the frame become clear |
| Paging.Memory.NextTable | boot/kernel/paging.c:84-99 | one block of map_page: the next table, requested, zeroed and linked when absent, with page 0 when nothing is left |
| Paging.Memory.MapPage | boot/kernel/paging.c:77-142 | memory and allocator become what the specification of map_page says |
| Paging.Memory.MapPages | boot/kernel/paging.c:143-147 | the loop is the run of map_page over the range |
| Paging.Memory.VirToPhys | boot/kernel/paging.c:148-164 | the walk without present checks and with 40-bit shifts, on every address; right on mapped ones exactly below 2^40 |
| Paging.MapPageInBounds | boot/kernel/paging.c:84-135 | with room, every table that map_page reads, zeroes or writes lies in RAM |
| MemoryMap.ScanMap | boot/kernel/kernel.c:36-52 | the total is the sum of all descriptors modulo 2^64, and the pick is the first largest conventional descriptor or NULL |
| MemoryMap.LargestIsLargest | boot/kernel/kernel.c:46-51 | the fold over the descriptors meets the definition of the first largest one |
| MemoryMap.TotalOfTiles | boot/kernel/kernel.c:41-43 | for a map that tiles pages [0, n) the total is n pages |
| MemoryMap.ClearedIsAccountedIff | boot/kernel/kernel.c:54-57 | the fresh counters match the bits if and only if the bit behind the bitmap is clear |
| MemoryMap.BitmapSparesMemoryIff | boot/kernel/kernel.c:54-58 | every byte of the bitmap and the byte behind it lie on conventional RAM outside the kernel image if and only if the bitmap is placed well |
| MemoryMap.StorageIsSpare | boot/kernel/kernel.c:58 | then so does every page locked for it |
| MemoryMap.FitsPickedIff | boot/kernel/kernel.c:46-58 | with no conventional descriptor behind the picked one, the storage avoids other memory if and only if it fits into the picked descriptor |
| MemoryMap.BitmapOverruns | boot/kernel/kernel.c:57 | a map on which clearing the bitmap destroys memory of another kind |
| MemoryMap.KernelCleared | boot/kernel/kernel.c:57 | on that map the page destroyed is the kernel image |
| MemoryMap.ClearIffUsable | boot/kernel/kernel.c:58-70 | after the reservations a RAM page is clear exactly when it is conventional memory outside the bitmap's storage and the kernel image, and the storage meets neither reserved memory nor the image |
| MemoryMap.RequestsAreUsable | boot/kernel/kernel.c:36-72 | later requests yield such pages while one is left, in every run that gives back only such pages |
| MemoryMap.StorageIff | boot/kernel/kernel.c:58 | the pages locked for the bitmap are exactly those that hold one of its bytes or the byte behind it |
| MemoryMap.KernelIff | boot/kernel/kernel.c:68-70 | the pages reserved for the kernel are exactly those that hold an address from its start to the one behind it |
| Boot.FramebufferIff | boot/kernel/kernel.c:77-78 | and likewise those of the framebuffer |
| Boot.McfgCoveredIff | boot/kernel/kernel.c:86-88 | every byte of the MCFG table lies on a page mapped for it if and only if the offset of its start and the rest of its length fit into one page |
| Boot.McfgCut | boot/kernel/kernel.c:86-88 | a table of two bytes on two pages, of which one is mapped |
| BootTheorems.BootRightIff | boot/kernel/kernel.c:72-88 | the result is right (tree, every page translated by its last mapping, the processor reaching exactly these addresses for reading, writing and executing, every table on a usable page outside the framebuffer) if and only if a condition on layout and devices holds: usable pages for root, tables and framebuffer, and the framebuffer not among the lowest |
| BootTheorems.OutcomeIff | boot/kernel/kernel.c:72-88 | paging works, with no table on a framebuffer page that the lock took, if and only if there is room for root, tables and those pages |
| BootTheorems.BootMapsMemory | boot/kernel/kernel.c:72-88 | with room, the processor's walk reaches each page of RAM, framebuffer, APIC and MCFG at itself, page k from 0xFFFF_0000_0000 + kernelStart (modulo 2^48) at page k of the kernel image, all for reading, writing and executing, and no other address, when the high range meets none of them modulo 2^48 |
| BootTheorems.TablesOnUsablePages | boot/kernel/kernel.c:72-88 | with room, every table built lies on usable memory, never in the bitmap's storage or the kernel image |
| BootTheorems.ClearAfterBoot | boot/kernel/kernel.c:36-88 | after the boot a clear RAM page is usable, no table and not in the framebuffer, and req_page finds such a page |
| BootCost.RoomWhenPaid | boot/kernel/kernel.c:72-88 | there is room when the usable pages reach the cost of the ranges by distinct prefixes, the root, and the framebuffer pages on usable RAM; and the result is right when, in addition, the framebuffer lies outside usable RAM |
| BootCost.ReservedCounters | boot/kernel/kernel.c:54-70 | after the reservations free, used and reserved are exactly the bytes of usable pages, bitmap storage and all other RAM |
| BootCost.BootCounters | boot/kernel/kernel.c:72-88 | from there the bytes of the root, of the tables and of the framebuffer charge, all three given by layout and devices, move from free to used |
| BootCost.FbChargeIsTaken | boot/kernel/kernel.c:77 | locking the framebuffer takes its usable pages that root and identity map left, and its pages behind RAM that read as clear |
| BootCost.FbOutsideIsCharged | boot/kernel/kernel.c:77 | every page of a framebuffer outside RAM is charged although none is RAM |
| BootCost.SmallMachineFits | boot/kernel/kernel.c:36-88 | the requirements of the boot results can be met: a machine of 16 MiB with the kernel at 1 MiB and 32 MiB of framebuffer at 3 GiB meets them whatever its memory holds |
| BootCost.TablesInFramebuffer | boot/kernel/kernel.c:72-77 | that machine with a framebuffer on the lowest pages of RAM: paging works, and tables stand in the framebuffer |
| BootCost.NoPageForTables | boot/kernel/kernel.c:72-88 | a machine whose only usable page becomes the root: the result is wrong with any devices |
| BootCode.MarkMemory | boot/kernel/kernel.c:36-70 | scan, placement and reservations leave the allocator of the specification with a bitmap of the size that the firmware map's pages give, and every byte written lies on conventional RAM outside the kernel image |
| BootCode.SetUp | boot/kernel/kernel.c:36-88 | the whole sequence leaves memory and allocator as specified, and pml4 is the requested root; on a sized machine the result is right exactly when it fits, and with room the processor reaches RAM, the devices and the kernel as BootMapsMemory says |
| Registers.FitsIsBelow | dev/nvme/nvme.c:15 | a value has no bits from `size` on exactly when it is below 2^size |
| Registers.FieldRoundTrip | dev/nvme/nvme.c:12-24 | a written field reads back as the value if and only if the value fits, and then all other bits are unchanged |
| Registers.DisjointField | dev/nvme/nvme.c:12-44 | writing a fitting value leaves every disjoint field unchanged |
| Registers.SplitJoin | dev/nvme/nvme.c:26-34 | splitting a 64-bit word into halves and joining them gives it back |
| Registers.PutBit | dev/nvme/nvme.c:12-17 | bit i of a written word: inside the field bit i - off of the value, outside it the old bit, set as well where a value too large reaches it |
| Registers.Mmio.Write32 | dev/nvme/nvme.c:12-17 | one register changes, in the field |
| Registers.Mmio.Read32 | dev/nvme/nvme.c:18-24 | bit i of the answer is bit off + i of the register, for i below size and off + i below 32, and all others are 0 |
| Registers.Mmio.Write64 | dev/nvme/nvme.c:25-35 | the joined register pair changes, in the field, and no other register |
| Registers.Mmio.Read64 | dev/nvme/nvme.c:36-44 | bit i of the answer is bit off + i of the register pair, the high half from the second register, and all others are 0 |
| NvmeHandshake.EnAt | boot/kernel/kernel.c:149-165 | EN is 0 from the first write on and 1 only after the last |
| NvmeHandshake.QueuesWrittenWhileDisabled | boot/kernel/kernel.c:148-156 | in every interleaving each write of AQA, ASQ or ACQ happens while EN = 0 and RDY = 0, whether or not it changes the value |
| NvmeHandshake.OnlyWritesChange | boot/kernel/kernel.c:148-167 | no other step changes them |
| NvmeHandshake.NumValue | boot/kernel/kernel.c:153-162 | the bits written for a number that fits stand for that number |
| NvmeHandshake.CompletedIsConfigured | boot/kernel/kernel.c:148-167 | on completion RDY = EN = 1, AQA reads 31 and 31, CC reads 0, 0, 0, 0, 6 and 4 as values of their fields, ASQ and ACQ hold the addresses passed from bit 12 on, and every bit not named by a write is as found |
| NvmeHandshake.QueueBaseIff | boot/kernel/kernel.c:155-156 | the register holds the queue's address if and only if that address is 0 |
| NvmeHandshake.QueueBaseMoved | boot/kernel/kernel.c:155-156 | a queue at 0x1000 whose register gets bit 24 |
| NvmeHandshake.Configure | boot/kernel/kernel.c:153-162 | the ten writes leave the registers that the step-wise program describes: AQA reads 31 and 31, CC 0, 0, 0, 0, 6 and 4, the base fields the addresses, and all other bits are as found |
| NvmeQueue.TagIsStale | dev/nvme/nvme.c:92 | before an entry is posted its slot carries the opposite tag of the round, afterwards the round's tag |
| NvmeQueue.ReadyIffPosted | dev/nvme/nvme.c:91-94 | the wait loop ends exactly when an unconsumed completion is posted |
| NvmeQueue.NextKeepsInv | dev/nvme/nvme.c:45-113 | every step of driver or controller keeps the queue invariant |
| NvmeQueue.QueueIsSafe | dev/nvme/nvme.c:45-113 | in every interleaving head and tail are the commands completed and submitted modulo 32, phase and expected identifier follow from the rounds completed, the tag matches exactly for an unconsumed completion, and that completion answers the waiting command and carries the expected identifier |
| NvmeQueue.ConsumedInOrder | dev/nvme/nvme.c:89-105 | the n-th completion consumed answers command n; no stale entry is consumed across any number of wraps |
| NvmeQueue.Driver.RingSubmissionDoorbell | dev/nvme/nvme.c:45-55 | for any queue number the admin tail advances by one modulo 32 and is written to one doorbell, at 0x1000 + 2 * qid * (4 * 2^DSTRD) while 2 * qid < 2^(30 - DSTRD); for queue 0 that is the step of the protocol |
| NvmeQueue.Driver.RingCompletionDoorbell | dev/nvme/nvme.c:56-66 | for any queue number the admin head advances by one modulo 32 and is written to one doorbell, at 0x1000 + (2 * qid + 1) * (4 * 2^DSTRD) while 2 * qid + 1 < 2^(30 - DSTRD); for queue 0 that is the step of the protocol |
| NvmeQueue.Driver.Submit | dev/nvme/nvme.c:67-85 | the command is stored at the old tail and the doorbell rung |
| NvmeQueue.Driver.Complete | dev/nvme/nvme.c:105-113 | the completion is consumed, and phase and command identifier change on a wrap only |
| NvmeQueue.StrideIsBits | dev/nvme/nvme.c:47-58 | the stride is the number in bits 32 to 35 of CAP |
| NvmeQueue.BellAddress | dev/nvme/nvme.c:47-58 | as long as the 32-bit product does not wrap, a doorbell is at 0x1000 + number * 4 * 2^stride |
| NvmeQueue.BellsMeetIff | dev/nvme/nvme.c:47-58 | doorbells share an address if and only if their numbers agree modulo 2^(30 - stride), as the product wraps at 32 bits |
| NvmeQueue.BellsApart | dev/nvme/nvme.c:47-58 | the doorbells of all queues below 2^(29 - stride) have addresses of their own |
| NvmeQueue.BellsMeet | dev/nvme/nvme.c:47-58 | two queues that share a doorbell |
| Loader.RoundingIff | boot/efi/bootloader.c:428 | the rounded page count covers p_memsz if and only if the sum does not wrap |
| Loader.PagesAreTouched | boot/efi/bootloader.c:428 | unless the sum wraps, the pages asked for are exactly those that hold a byte of [p_paddr, p_paddr + p_memsz) |
| Loader.RoundedToNothing | boot/efi/bootloader.c:428 | every size whose sum wraps is rounded up to no page |
| Loader.AllocatableIff | boot/efi/bootloader.c:431-435 | all segments get their pages exactly when these are free at the start and pairwise disjoint |
| Loader.AllocatableByBytes | boot/efi/bootloader.c:422-443 | for sizes that can be rounded that is: every page with a byte of a segment is free at the start, and no two segments have bytes on one page |
| Loader.Firmware.AllocatePages | boot/efi/bootloader.c:431 | all pages of the request or none, when one of them is not free; for an aligned request whose size can be rounded these are the pages that hold a byte of the segment |
| Loader.Firmware.LoadSegment | boot/efi/bootloader.c:427-441 | pages are taken and the file bytes copied, nothing else changes |
| Loader.Firmware.LoadSegments | boot/efi/bootloader.c:422-443 | success exactly when allocatable, for roundable sizes: when every page with a byte of a segment is free and no two segments share one; then each byte comes from the one segment that fills it, all others and the image are unchanged |
| Loader.SegmentIsImage | boot/efi/bootloader.c:437-440 | when all pages were handed over, each segment lies in memory and its bytes at p_paddr equal its file range |
| Directory.Find | boot/efi/bootloader.c:265-285 | on a well-formed directory with a match the walk stops at the first matching record, inside the buffer, and so at a record with the wanted name if and only if no earlier record shadows it |
| Directory.MatchesIsShadows | boot/efi/bootloader.c:270 | the comparison succeeds exactly on names that start with the target, or are shorter and completed by the bytes behind them |
| Directory.NamedIsFirstIff | boot/efi/bootloader.c:310-330 | the record with the wanted name is the first match if and only if no earlier record shadows it |
| Directory.ShadowsWhenZeroBehind | boot/efi/bootloader.c:270 | when every name is followed by 0, only names that start with the target shadow it |
| Directory.SameRecords | boot/efi/bootloader.c:283 | the record boundaries follow from the buffer |
| Directory.RecordsFollow | boot/efi/bootloader.c:283 | the next record begins where bytes 4 and 5 of this one, the low one first, say |
| Directory.RecordsGrow | boot/efi/bootloader.c:283 | later records lie at least a header further on |
| Directory.LongerNameFound | boot/efi/bootloader.c:270 | a directory in which the search for one name stops at a longer one |
| Directory.ShorterNameFound | boot/efi/bootloader.c:270 | and one in which it stops at a shorter one |
| Print.Pow | boot/kernel/print.c:84-94 | the power modulo 2^64 |
| Print.Itoa | boot/kernel/print.c:95-117 | decimal digits, then NULs inside 21 bytes, that stand for num modulo 10^19, hence for num if and only if num < 10^19; a leading 0 only for 0 and from 10^19 on |
| Print.CountDigits | boot/kernel/print.c:104 | the loop finds the number of digits |
| Print.CodeDigit | boot/kernel/print.c:112-113 | the remainder and quotient are the digit at that place, also where the product wraps |
| Print.LeadingDigitLost | boot/kernel/print.c:112-113 | of 10^19, whose first digit is 1, the code writes 0 |
| Print.NibbleValue | boot/kernel/print.c:125 | mask and shift yield the value of four bits |
| Print.Hex | boot/kernel/print.c:118-131 | sixteen characters of '0'..'9' and 'A'..'F', which stand for the number, and a NUL |
| Print.HexByte | boot/kernel/print.c:132-145 | two characters of '0'..'9' and 'A'..'F', which stand for the byte, and a NUL |
| Print.ValueInjective | boot/kernel/print.c:118-145 | words of one width with the same value are equal, so the digits determine the number |

## Left out

- BootTheorems.BootRightIff: only machines with a usable page, as without one even the root is page 0.
- Paging.Memory.NextTable: the bitmap's bytes are no part of `ram`, so that on exhaustion the clearing of a page 0 that holds the bitmap does not change its bits.
- Paging.Memory.MapPage: the same, and neither do entries written through page 0 once it serves as a table.
- Paging.Memory.MapPages: the same.
- BootCode.SetUp: the same; with room no table stands on the bitmap's storage and nothing is lost.
- Directory.Find: only directories that are well-formed and hold a match; a record whose rec_len is too short for its name makes the original loop for ever, and a missing name makes it read behind the buffer.
- Large pages: `At` ignores the ps bit, as vir_to_phys does, and `Walk` ends at it; map_page never sets it.
- The accessed and dirty bits have no effect in the model; they are carried along unchanged. Of us and xd only the rights that the walk grants are modelled.
- TLB invalidation, the load of CR3, memory fences and the addresses of the ACPI tables: hardware effects or parameters.
- The mapping of the NVMe registers after boot (boot/kernel/kernel.c:145-146): one more map_pages call.
- Liveness of the controller: the wait loops are guards, and nothing says that they ever pass.
- The fields of the identify command other than its identifier, which the driver does not compare with that of the completion.
- Firmware maps with holes: the reservation and mapping results are stated for maps that tile the memory.
- The zero fill of p_memsz beyond p_filesz, which the original does not do, and the checks of the ELF header.
- The comparison routine of the UEFI library is not part of this model; it is taken to compare up to the first difference.
- Framebuffer output, fonts, descriptor tables, interrupts, system calls, PCIe enumeration, timer calibration and UEFI calls other than AllocatePages.
