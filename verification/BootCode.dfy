/** boot/kernel/kernel.c, lines 36 to 88: the code of the set-up, cut into methods along its lines. */
module BootCode {
  import opened Machine
  import opened Bitmaps
  import opened Allocator
  import opened PageTables
  import opened MapProofs
  import opened MapTheorems
  import opened MemoryMap
  import opened Boot
  import opened BootTheorems
  import opened Paging

  // reserve_pages for every descriptor that is not conventional memory.
  method ReserveAll(pages: PageBitmap, descs: seq<Descriptor>)
    requires pages.Valid()
    modifies pages, pages.bitmap.buffer
    ensures pages.Valid() && pages.View() == Run(old(pages.View()), ReserveOps(descs))
  {
    ghost var a := pages.View();
    for i := 0 to |descs|
      invariant pages.Valid() && pages.View() == Run(a, ReserveOps(descs[..i]))
    {
      var desc := descs[i];
      assert descs[..i + 1][..i] == descs[..i];
      if desc.kind != CONVENTIONAL {
        RunAppend(a, ReserveOps(descs[..i]), RangeOps(Reserve, desc.phys, desc.pages));
        pages.ReservePages(desc.phys, desc.pages);
      } else {
        assert ReserveOps(descs[..i]) + [] == ReserveOps(descs[..i]);
      }
    }
    assert descs[..|descs|] == descs;
  }

  // Lines 54 to 58: the bitmap is placed, cleared and locked.
  method PlaceBitmap(pages: PageBitmap, l: Layout, total: u64, largest: u64, buffer: array<bv8>)
    requires pages.used == 0 && pages.reserved == 0
    requires total == l.Total() && largest == l.Bitmap() && buffer.Length == l.BitmapSize() + 1
    modifies pages, pages.bitmap, buffer
    ensures pages.Valid() && pages.bitmap.buffer == buffer
    ensures pages.View() == Run(Cleared(l, Bit(old(buffer[l.BitmapSize()]), 0)),
                                RangeOps(Lock, l.Bitmap(), l.StoragePages()))
  {
    pages.Place(buffer, total / PAGE_SIZE / 8 + 1, total);
    pages.LockPages(largest, pages.bitmap.size / PAGE_SIZE + 1);
  }

  // Lines 60 to 70: everything else that is not free is reserved.
  method ReserveMemory(pages: PageBitmap, l: Layout)
    requires pages.Valid()
    modifies pages, pages.bitmap.buffer
    ensures pages.Valid()
    ensures pages.View() == Run(Run(old(pages.View()), ReserveOps(l.descs)),
                                RangeOps(Reserve, l.kernelStart, l.KernelPages()))
  {
    ReserveAll(pages, l.descs);
    var kernelSize := Sub64(l.kernelEnd, l.kernelStart);
    var kernelPages := kernelSize / PAGE_SIZE + 1;
    pages.ReservePages(l.kernelStart, kernelPages);
  }

  lemma ReservedInSteps(l: Layout, behind: bool)
    ensures Reserved(l, behind)
            == Run(Run(Run(Cleared(l, behind), RangeOps(Lock, l.Bitmap(), l.StoragePages())), ReserveOps(l.descs)),
                   RangeOps(Reserve, l.kernelStart, l.KernelPages()))
  {
    var a, x, y := Cleared(l, behind), RangeOps(Lock, l.Bitmap(), l.StoragePages()), ReserveOps(l.descs);
    RunAppend(a, x, y);
    RunAppend(a, x + y, RangeOps(Reserve, l.kernelStart, l.KernelPages()));
  }

  /** Lines 36 to 70. `buffer` is the memory from the address that the scan picks, up to the byte behind
      the bitmap; all of it lies on conventional RAM outside the kernel image, so that neither the
      firmware map nor the image is written while the code still reads them. */
  method MarkMemory(pages: PageBitmap, l: Layout, buffer: array<bv8>) returns (total: u64)
    requires pages.used == 0 && pages.reserved == 0 && buffer.Length == l.BitmapSize() + 1
    requires Tiles(l.descs, RamPages(l)) && l.Placed(RamPages(l))
    modifies pages, pages.bitmap, buffer
    ensures pages.Valid() && pages.bitmap.buffer == buffer && total == l.Total()
    ensures pages.View() == Reserved(l, Bit(old(buffer[l.BitmapSize()]), 0))
    ensures pages.bitmap.size == TotalPages(l.descs) * 0x1000 % 0x1_0000_0000_0000_0000 / 0x1000 / 8 + 1
    ensures forall b: nat :: b < buffer.Length ==> l.Spare(RamPages(l), StoragePage(l, b))
  {
    BitmapSparesMemoryIff(l, RamPages(l));
    ReservedInSteps(l, Bit(buffer[l.BitmapSize()], 0));
    var largest: u64, largestSize: u64;
    total, largest, largestSize := ScanMap(l.descs);
    PlaceBitmap(pages, l, total, largest, buffer);
    ReserveMemory(pages, l);
  }

  // Lines 72 and 73: the PML4 is requested and cleared.
  method MakeRoot(m: Memory, ghost l: Layout, ghost behind: bool) returns (pml4: u64)
    requires m.Valid() && m.pages.View() == Reserved(l, behind)
    modifies m.pages, m.pages.bitmap.buffer, m.ram
    ensures m.Valid() && m.View() == WithRoot(l, behind, old(m.ram[..]))
    ensures pml4 / PAGE_SIZE == Root(l, behind, old(m.ram[..])) && pml4 % PAGE_SIZE == 0
  {
    pml4 := m.NewPage();
  }

  // Line 75.
  method MapRam(m: Memory, root: nat, ghost l: Layout, total: u64)
    requires m.Valid() && total == l.Total()
    modifies m.pages, m.pages.bitmap.buffer, m.ram
    ensures m.Valid() && m.View() == MapAll(old(m.View()), root, IdentityMaps(l))
  {
    m.MapPages(root, 0, 0, total / PAGE_SIZE);
  }

  // Line 77.
  method LockFramebuffer(m: Memory, d: Devices)
    requires m.Valid()
    modifies m.pages, m.pages.bitmap.buffer
    ensures m.Valid()
    ensures m.View() == old(m.View()).(alloc := Run(old(m.View()).alloc, RangeOps(Lock, d.fb, d.FbPages())))
  {
    m.pages.LockPages(d.fb, d.FbPages());
    assert m.ram[..] == old(m.ram[..]);
  }

  // Lines 78 to 80: the framebuffer and the kernel's high range.
  method MapEarly(m: Memory, root: nat, l: Layout, d: Devices)
    requires m.Valid()
    modifies m.pages, m.pages.bitmap.buffer, m.ram
    ensures m.Valid() && m.View() == MapAll(old(m.View()), root, EarlyPart(l, d))
  {
    var kernelPages := Sub64(l.kernelEnd, l.kernelStart) / PAGE_SIZE + 1;
    MapAllAppend(m.View(), root, PageList(d.fb, d.fb, d.FbPages()), PageList(High(l), l.kernelStart, l.KernelPages()));
    m.MapPages(root, d.fb, d.fb, d.fbSize / PAGE_SIZE + 1);
    m.MapPages(root, Add64(KERNEL_START, l.kernelStart), l.kernelStart, kernelPages);
  }

  // Lines 82 to 88: the APIC page and the MCFG table.
  method MapTables(m: Memory, root: nat, d: Devices)
    requires m.Valid()
    modifies m.pages, m.pages.bitmap.buffer, m.ram
    ensures m.Valid() && m.View() == MapAll(old(m.View()), root, TablePart(d))
  {
    MapAllAppend(m.View(), root, PageList(d.apic, d.apic, 1), PageList(d.mcfg, d.mcfg, d.McfgPages()));
    OnePage(m.View(), root, d.apic);
    m.MapPage(root, d.apic, d.apic);
    var mcfgPages := d.mcfgLen / PAGE_SIZE + 1;
    m.MapPages(root, d.mcfg, d.mcfg, mcfgPages);
  }

  // A list of one page is one call of map_page.
  lemma OnePage(s: Vm, root: nat, addr: u64)
    ensures MapAll(s, root, PageList(addr, addr, 1)) == PageTables.MapPage(s, root, addr, addr)
  {
    assert PageAddr(addr, 0) == addr;
    PageListSnoc(addr, addr, 0);
    assert PageList(addr, addr, 0) == [];
    MapAllSnoc(s, root, [], Mapping(addr, addr));
  }

  // Lines 75 to 88.
  method BuildAddressSpace(m: Memory, root: nat, l: Layout, d: Devices, total: u64, ghost behind: bool,
                           ghost ram: seq<Pte>)
    requires m.Valid() && m.View() == WithRoot(l, behind, ram) && root == Root(l, behind, ram) && total == l.Total()
    modifies m.pages, m.pages.bitmap.buffer, m.ram
    ensures m.Valid() && m.View() == Booted(l, d, behind, ram)
  {
    MapAllAppend(WithFb(l, d, behind, ram), root, EarlyPart(l, d), TablePart(d));
    MapRam(m, root, l, total);
    LockFramebuffer(m, d);
    MapEarly(m, root, l, d);
    MapTables(m, root, d);
  }

  /** _start, lines 36 to 88, on a machine whose bitmap is placed well: memory and allocator become what
      the specification says, and that is right exactly when Fits holds. `ram` is all the memory that the
      firmware map tiles; the bytes of the bitmap, in `buffer`, are kept apart from it, so that what a boot
      without room does to a bitmap on page 0 is not shown. */
  method SetUp(m: Memory, l: Layout, d: Devices, buffer: array<bv8>) returns (pml4: u64)
    requires m.ram as object != buffer && m.pages.used == 0 && m.pages.reserved == 0
    requires buffer.Length == l.BitmapSize() + 1 && Tiles(l.descs, RamPages(l)) && l.Placed(RamPages(l))
    modifies m.pages, m.pages.bitmap, buffer, m.ram
    ensures var behind := Bit(old(buffer[l.BitmapSize()]), 0);
            && m.Valid() && m.View() == Booted(l, d, behind, old(m.ram[..]))
            && pml4 / PAGE_SIZE == Root(l, behind, old(m.ram[..])) && pml4 % PAGE_SIZE == 0
            && (Sized(l, old(m.ram[..])) ==> (BootRight(l, d, behind, old(m.ram[..])) <==> Fits(l, d)))
    ensures Sized(l, old(m.ram[..])) && HasRoom(l, d) && Separate(l, d) ==>
              forall a: u64 :: Reaches(l, d, m.View().mem, pml4 / 0x1000, a)
  {
    ghost var behind, ram := Bit(buffer[l.BitmapSize()], 0), m.ram[..];
    var total := MarkMemory(m.pages, l, buffer);
    assert m.ram[..] == ram;
    pml4 := MakeRoot(m, l, behind);
    BuildAddressSpace(m, pml4 / PAGE_SIZE, l, d, total, behind, ram);
    if Sized(l, ram) { BootRightIff(l, d, behind, ram); }
    if Sized(l, ram) && HasRoom(l, d) && Separate(l, d) {
      forall a: u64 ensures Reaches(l, d, m.View().mem, pml4 / 0x1000, a) { BootMapsMemory(l, d, behind, ram, a); }
    }
  }
}
