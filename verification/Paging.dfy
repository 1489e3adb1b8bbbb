/** boot/kernel/paging.c, lines 77 to 164: map_page, map_pages and vir_to_phys in place, on
    physical memory seen as an array of 64-bit entries. */
module Paging {
  import opened Machine
  import opened Allocator
  import opened PageTables
  import opened MapProofs
  import opened KernelRuns

  /** RAM and its allocator. Entry `slot` of the table in frame f is ram[f * 512 + slot]. An entry
      outside RAM reads as clear, and a write there is lost. The bitmap's own bytes are kept apart
      from `ram`; they lie in pages that are marked in the bitmap, and while there is room no marked
      frame is written as a new table. Without room page 0 is: where the bitmap lies on that page, or
      a walk through it leads back to the bitmap, the original changes bits that stay here. */
  class Memory {
    const pages: PageBitmap
    const ram: array<Pte>

    constructor (pages: PageBitmap, ram: array<Pte>)
      requires pages.Valid() && ram as object != pages.bitmap.buffer
      ensures Valid()
      ensures this.pages == pages && this.ram == ram
    {
      this.pages, this.ram := pages, ram;
    }

    ghost predicate Valid()
      reads this, pages, pages.bitmap
    {
      pages.Valid() && ram as object != pages.bitmap.buffer
    }

    ghost function View(): (s: Vm)
      requires Valid()
      reads this, pages, pages.bitmap, pages.bitmap.buffer, ram
      ensures |s.mem| == ram.Length
    {
      Vm(pages.View(), ram[..])
    }

    method ReadEntry(f: nat, slot: nat) returns (e: Pte)
      requires Valid() && slot < SLOTS
      ensures e == Entry(View().mem, f, slot)
    {
      if f * SLOTS + slot < ram.Length {
        e := ram[f * SLOTS + slot];
      } else {
        e := ZERO;
      }
    }

    method WriteEntry(f: nat, slot: nat, e: Pte)
      requires Valid() && slot < SLOTS
      modifies ram
      ensures Valid() && View() == old(View()).(mem := WithEntry(old(View()).mem, f, slot, e))
    {
      ghost var z := ram[..];
      if f * SLOTS + slot < ram.Length {
        ram[f * SLOTS + slot] := e;
      }
      assert ram[..] == WithEntry(z, f, slot, e);
    }

    // The frame is cleared, one entry at a time.
    method ZeroPage(f: nat)
      requires Valid()
      modifies ram
      ensures Valid() && View() == old(View()).(mem := Zeroed(old(View()).mem, f))
    {
      ghost var z := ram[..];
      for k := 0 to SLOTS
        invariant forall j :: 0 <= j < ram.Length ==>
                                ram[j] == if f * SLOTS <= j < f * SLOTS + k then ZERO else z[j]
      {
        if f * SLOTS + k < ram.Length {
          ram[f * SLOTS + k] := ZERO;
        }
      }
      assert ram[..] == Zeroed(z, f);
    }

    // One of the three blocks of map_page.
    method NextTable(f: nat, slot: nat) returns (t: nat)
      requires Valid() && slot < SLOTS
      modifies pages, pages.bitmap.buffer, ram
      ensures Valid() && (View(), t) == Next(old(View()), f, slot)
    {
      var pe := ReadEntry(f, slot);
      if !pe.p {
        var addr := NewPage();
        t := addr / PAGE_SIZE;
        pe := ZERO.(addr := FrameOf(addr), p := true, rw := true);
        WriteEntry(f, slot, pe);
      } else {
        t := pe.addr;
      }
    }

    // A page is requested and cleared, NULL as well.
    method NewPage() returns (addr: u64)
      requires Valid()
      modifies pages, pages.bitmap.buffer, ram
      ensures Valid() && addr % PAGE_SIZE == 0 && PageOf(addr) == NewTable(old(View()))
      ensures View() == Vm(Requested(old(View()).alloc), Zeroed(old(View()).mem, PageOf(addr)))
    {
      ghost var s := View();
      addr := pages.ReqPage();
      assert View() == Vm(Requested(s.alloc), s.mem);
      ZeroPage(addr / PAGE_SIZE);
    }

    /** map_page, with whatever req_page answers; the bitmap changes through req_page only. */
    method MapPage(root: nat, vir: u64, phys: u64)
      requires Valid()
      modifies pages, pages.bitmap.buffer, ram
      ensures Valid() && View() == PageTables.MapPage(old(View()), root, vir, phys)
    {
      var pIndex := vir / PAGE_SIZE % SLOTS;
      var ptIndex := vir / 0x20_0000 % SLOTS;
      var pdIndex := vir / 0x4000_0000 % SLOTS;
      var pdptIndex := vir / 0x80_0000_0000 % SLOTS;
      ghost var s := View();

      var pdpt := NextTable(root, pdptIndex);
      ghost var s3 := View();
      var pd := NextTable(pdpt, pdIndex);
      ghost var s2 := View();
      var pt := NextTable(pd, ptIndex);
      ghost var s1 := View();
      WriteLeaf(pt, pIndex, phys);
      MapPageBlocks(s, root, vir, phys, s3, pdpt, s2, pd, s1, pt);
    }

    // The end of map_page: addr, p and rw of one last-level entry.
    method WriteLeaf(pt: nat, slot: nat, phys: u64)
      requires Valid() && slot < SLOTS
      modifies ram
      ensures Valid() && View() == old(View()).(mem := LeafSet(old(View()).mem, pt, slot, phys))
    {
      var pe := ReadEntry(pt, slot);
      pe := pe.(addr := FrameOf(phys));
      pe := pe.(p := true);
      pe := pe.(rw := true);
      WriteEntry(pt, slot, pe);
    }

    method MapPages(root: nat, vir: u64, phys: u64, pageCnt: nat)
      requires Valid()
      modifies pages, pages.bitmap.buffer, ram
      ensures Valid() && View() == MapAll(old(View()), root, PageList(vir, phys, pageCnt))
    {
      ghost var s := View();
      for i := 0 to pageCnt
        invariant Valid() && View() == MapAll(s, root, PageList(vir, phys, i))
      {
        PageListSnoc(vir, phys, i);
        MapAllSnoc(s, root, PageList(vir, phys, i), Mapping(PageAddr(vir, i), PageAddr(phys, i)));
        MapPage(root, PageAddr(vir, i), PageAddr(phys, i));
      }
    }

    /** vir_to_phys with the root that CR3 holds passed in. */
    method VirToPhys(root: nat, vir: u64) returns (phys: u64)
      requires Valid()
      ensures phys == KernelRuns.VirToPhys(View().mem, root, vir)
      ensures Translate(View().mem, root, Vpn(vir)).Some? && LowTables(View().mem, root, Vpn(vir)) ==>
                (phys == Translate(View().mem, root, Vpn(vir)).value * PAGE_SIZE
                 <==> Translate(View().mem, root, Vpn(vir)).value < 0x1000_0000)
    {
      if Translate(View().mem, root, Vpn(vir)).Some? && LowTables(View().mem, root, Vpn(vir)) {
        VirToPhysIff(View().mem, root, vir);
      }
      var e := ReadEntry(root, vir / 0x80_0000_0000 % SLOTS);
      var pdpt := PageOf(Shifted(e.addr));
      e := ReadEntry(pdpt, vir / 0x4000_0000 % SLOTS);
      var pd := PageOf(Shifted(e.addr));
      e := ReadEntry(pd, vir / 0x20_0000 % SLOTS);
      var pt := PageOf(Shifted(e.addr));
      e := ReadEntry(pt, vir / PAGE_SIZE % SLOTS);
      phys := Shifted(e.addr);
    }
  }

  lemma MapPageBlocks(s: Vm, root: nat, vir: u64, phys: u64, s3: Vm, pdpt: nat, s2: Vm, pd: nat, s1: Vm, pt: nat)
    requires (s3, pdpt) == Next(s, root, vir / 0x80_0000_0000 % SLOTS)
    requires (s2, pd) == Next(s3, pdpt, vir / 0x4000_0000 % SLOTS)
    requires (s1, pt) == Next(s2, pd, vir / 0x20_0000 % SLOTS)
    ensures PageTables.MapPage(s, root, vir, phys)
            == s1.(mem := LeafSet(s1.mem, pt, vir / PAGE_SIZE % SLOTS, phys))
  {
  }

  // Each block of map_page works on tables inside RAM, and a new table lies inside RAM.
  lemma MapPageInBounds(s: Vm, root: nat, vir: u64)
    requires Tree(s, root) && |NeedOf(s.mem, root, Vpn(vir))| <= |ClearRam(s)|
    ensures var i3, i2, i1 := vir / 0x80_0000_0000 % SLOTS, vir / 0x4000_0000 % SLOTS, vir / 0x20_0000 % SLOTS;
            var (s3, pdpt) := Next(s, root, i3);
            var (s2, pd) := Next(s3, pdpt, i2);
            var (s1, pt) := Next(s2, pd, i1);
            && BlockInRam(s, root, i3) && BlockInRam(s3, pdpt, i2) && BlockInRam(s2, pd, i1) && InRam(s1, pt)
            && |s3.mem| == |s2.mem| == |s1.mem| == |s.mem|
  {
    var v := Vpn(vir);
    AllLevels(s, root, vir);
    IndexFields(vir);
    var (s3, pdpt) := Next(s, root, vir / 0x80_0000_0000 % SLOTS);
    var (s2, pd) := Next(s3, pdpt, vir / 0x4000_0000 % SLOTS);
    var (s1, pt) := Next(s2, pd, vir / 0x20_0000 % SLOTS);
    ReadyBlock(s, root, 3, Up(v, 3), root, vir / 0x80_0000_0000 % SLOTS);
    ReadyBlock(s3, root, 2, Up(v, 2), pdpt, vir / 0x4000_0000 % SLOTS);
    ReadyBlock(s2, root, 1, Up(v, 1), pd, vir / 0x20_0000 % SLOTS);
    TableInRam(s1, root, 1, Up(v, 1));
  }

  // The table that a block reads, and the one it adds when the entry is absent, lie in RAM.
  predicate BlockInRam(s: Vm, f: nat, slot: nat) {
    InRam(s, f) && (!Entry(s.mem, f, slot).p ==> InRam(s, NewTable(s)))
  }

  lemma ReadyBlock(s: Vm, root: nat, l: nat, c: nat, f: nat, slot: nat)
    requires Ready(s, root, l, c, f) && 1 <= l <= 3 && slot == c % SLOTS
    ensures BlockInRam(s, f, slot)
  {
    ReadyInRam(s, root, l, c, f);
  }

  lemma TableInRam(s: Vm, root: nat, l: nat, i: nat)
    requires Tree(s, root) && 1 <= l <= 4 && At(s.mem, root, l, i).Some?
    ensures InRam(s, At(s.mem, root, l, i).value)
  {
    assert TableFrame(s, At(s.mem, root, l, i).value);
  }
}
