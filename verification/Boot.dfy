/** boot/kernel/kernel.c, lines 36 to 88: the memory set-up of _start up to the load of CR3,
    as values, and what it needs. */
module Boot {
  import opened Machine
  import opened Allocator
  import opened AllocatorRuns
  import opened PageTables
  import opened MapProofs
  import opened MapTheorems
  import opened KernelRuns
  import opened MemoryMap

  const KERNEL_START: u64 := 0x0000_FFFF_0000_0000

  /** The device ranges that _start maps: framebuffer, local APIC and the MCFG table. */
  datatype Devices = Devices(fb: u64, fbSize: u64, apic: u64, mcfg: u64, mcfgLen: u64) {
    function FbPages(): nat { fbSize / PAGE_SIZE + 1 }

    function McfgPages(): nat { mcfgLen / PAGE_SIZE + 1 }

    predicate InFb(p: nat) { (p - PageOf(fb)) % PAGES < FbPages() }
  }

  /** The framebuffer's pages are those of its bytes and of the address behind it. */
  lemma FramebufferIff(d: Devices, p: nat)
    requires d.fb % 0x1000 == 0 && d.fb + d.fbSize < WORD && p < PAGES
    ensures d.InFb(p) <==> exists a :: d.fb <= a <= d.fb + d.fbSize && OnPage(a, p)
  {
    CircleDistance(PageOf(d.fb), p);
    PagesOfBytes(d.fb, d.fbSize, p);
  }

  /** The MCFG table need not start on a page: all its bytes lie on the pages that are mapped for it exactly
      when the offset of its start and the rest of its length fit into one page. */
  lemma McfgCoveredIff(d: Devices)
    requires 0 < d.mcfgLen
    ensures (forall a :: d.mcfg <= a < d.mcfg + d.mcfgLen ==> a / 0x1000 < d.mcfg / 0x1000 + d.McfgPages())
            <==> d.mcfg % 0x1000 + d.mcfgLen % 0x1000 <= 0x1000
  {
    PagesHoldRangeIff(d.mcfg, d.mcfgLen);
  }

  /** A table of two bytes on two pages, of which one is mapped. */
  lemma McfgCut(d: Devices)
    requires d.mcfg == 0x1FFF && d.mcfgLen == 2
    ensures d.McfgPages() == 1 && (d.mcfg + 1) / 0x1000 == d.mcfg / 0x1000 + 1
  {
  }

  // ----- the sequence as values -----

  function RamPages(l: Layout): nat { l.Total() / PAGE_SIZE }

  function High(l: Layout): u64 { Add64(KERNEL_START, l.kernelStart) }

  function Root(l: Layout, behind: bool, ram: seq<Pte>): nat { NewTable(Vm(Reserved(l, behind), ram)) }

  // After pml4 was requested and zeroed.
  function WithRoot(l: Layout, behind: bool, ram: seq<Pte>): Vm {
    Vm(Requested(Reserved(l, behind)), Zeroed(ram, Root(l, behind, ram)))
  }

  function IdentityMaps(l: Layout): seq<Mapping> { PageList(0, 0, RamPages(l)) }

  function EarlyPart(l: Layout, d: Devices): seq<Mapping> {
    PageList(d.fb, d.fb, d.FbPages()) + PageList(High(l), l.kernelStart, l.KernelPages())
  }

  function TablePart(d: Devices): seq<Mapping> {
    PageList(d.apic, d.apic, 1) + PageList(d.mcfg, d.mcfg, d.McfgPages())
  }

  function LateMaps(l: Layout, d: Devices): seq<Mapping> { EarlyPart(l, d) + TablePart(d) }

  function WithRam(l: Layout, behind: bool, ram: seq<Pte>): Vm {
    MapAll(WithRoot(l, behind, ram), Root(l, behind, ram), IdentityMaps(l))
  }

  function WithFb(l: Layout, d: Devices, behind: bool, ram: seq<Pte>): Vm {
    var s := WithRam(l, behind, ram);
    s.(alloc := Run(s.alloc, RangeOps(Lock, d.fb, d.FbPages())))
  }

  function Booted(l: Layout, d: Devices, behind: bool, ram: seq<Pte>): Vm {
    MapAll(WithFb(l, d, behind, ram), Root(l, behind, ram), LateMaps(l, d))
  }

  /** A tiled map of at most 2^36 pages that is all the RAM there is, with the bitmap placed well and a
      free page left. */
  ghost predicate Sized(l: Layout, ram: seq<Pte>) {
    && Tiles(l.descs, RamPages(l)) && l.Placed(RamPages(l)) && RamPages(l) <= VPNS && |ram| == RamPages(l) * SLOTS
    && (exists p :: 0 <= p < RamPages(l) && l.Usable(p))
  }

  // ----- the condition, from the layout and the devices alone -----

  function UsablePages(l: Layout): set<nat> { set p | 0 <= p < RamPages(l) && l.Usable(p) }

  // The elements of a set below p.
  function Below(all: set<nat>, p: nat): set<nat> { set q | q in all && q < p }

  // The frames that the root and the identity map take, the lowest usable ones, and those they leave.
  function EarlyCost(l: Layout): nat { 1 + RangeCost(0, RamPages(l)) }

  function Left(l: Layout): set<nat> {
    set p | p in UsablePages(l) && EarlyCost(l) <= |Below(UsablePages(l), p)|
  }

  // Usable pages that belong to the framebuffer, and those among them that are left when it is locked.
  function FbOnRam(l: Layout, d: Devices): set<nat> { set p | p in UsablePages(l) && d.InFb(p) }

  function FbLeft(l: Layout, d: Devices): set<nat> { set p | p in FbOnRam(l, d) && p in Left(l) }

  // The tables of the five ranges, each counted once.
  function LateTouched(l: Layout, d: Devices): set<Node> {
    (TouchedNodes(d.fb, d.FbPages()) + TouchedNodes(High(l), l.KernelPages()))
    + (TouchedNodes(d.apic, 1) + TouchedNodes(d.mcfg, d.McfgPages()))
  }

  function AllTouched(l: Layout, d: Devices): set<Node> { TouchedNodes(0, RamPages(l)) + LateTouched(l, d) }

  /** There is a usable page for the root, for every table, and for the framebuffer pages still clear
      when the framebuffer is locked. */
  predicate HasRoom(l: Layout, d: Devices) { 1 + |AllTouched(l, d)| + |FbLeft(l, d)| <= |UsablePages(l)| }

  /** There is a usable page for the root, for every table and for every usable framebuffer page, and
      the usable framebuffer pages are not among the lowest, which the root and the identity map take. */
  predicate Fits(l: Layout, d: Devices) {
    && 1 + |AllTouched(l, d)| + |FbOnRam(l, d)| <= |UsablePages(l)|
    && forall p :: p in FbOnRam(l, d) ==> EarlyCost(l) <= |Below(UsablePages(l), p)|
  }

  lemma FitsHasRoom(l: Layout, d: Devices)
    requires Fits(l, d)
    ensures FbLeft(l, d) == FbOnRam(l, d) && HasRoom(l, d)
  {
  }

  // ----- lists of mappings -----

  lemma {:induction false} NeedAppend(mem: seq<Pte>, root: nat, xs: seq<Mapping>, ys: seq<Mapping>)
    ensures Need(mem, root, xs + ys) == Need(mem, root, xs) + Need(mem, root, ys)
    decreases |ys|
  {
    if ys == [] {
      assert xs + ys == xs;
    } else {
      var ys', y := ys[..|ys| - 1], ys[|ys| - 1];
      NeedAppend(mem, root, xs, ys');
      NeedSnoc(mem, root, xs + ys', y);
      NeedSnoc(mem, root, ys', y);
      AppendSnoc(xs, ys);
    }
  }

  lemma {:induction false} NeedAllLater(s: Vm, s': Vm, root: nat, need: set<Node>, ms: seq<Mapping>)
    requires NodesGrown(s, s', root, need)
    ensures Need(s'.mem, root, ms) == Need(s.mem, root, ms) - need
  {
    if ms != [] {
      NeedAllLater(s, s', root, need, ms[..|ms| - 1]);
      NeedLater(s, s', root, need, Vpn(ms[|ms| - 1].vir));
    }
  }

  // Locking pages takes exactly the clear frames among them.
  lemma {:induction false} LockTakes(s: Vm, ops: seq<Op>)
    requires AllOf(ops, {Lock})
    ensures ClearRam(s.(alloc := Run(s.alloc, ops))) == ClearRam(s) - Pages(ops)
  {
    if ops == [] {
      assert s.(alloc := Run(s.alloc, ops)) == s;
    } else {
      var ops', op := ops[..|ops| - 1], ops[|ops| - 1];
      LockTakes(s, ops');
      LockedClear(s.(alloc := Run(s.alloc, ops')), PageOf(op.addr));
      assert ops == ops' + [op];
      PagesSnoc(ops', op);
    }
  }

  lemma LockedClear(s: Vm, i: nat)
    ensures ClearRam(s.(alloc := Mark(s.alloc, Lock, i))) == ClearRam(s) - {i}
  {
    var t := s.(alloc := Mark(s.alloc, Lock, i));
    forall f: nat ensures t.alloc.IsClear(f) <==> s.alloc.IsClear(f) && f != i { }
  }

  // ----- the stages -----

  lemma RootIsFree(l: Layout, behind: bool, ram: seq<Pte>)
    requires Sized(l, ram)
    ensures var g := Root(l, behind, ram);
            && Found(Reserved(l, behind)) == Some(g) && g < RamPages(l) && l.Usable(g)
            && WithRoot(l, behind, ram).alloc == Mark(Reserved(l, behind), Lock, g)
    ensures |Reserved(l, behind).bits| == l.BitmapSize() * 8 + 1
  {
    var a, n := Reserved(l, behind), RamPages(l);
    var p :| 0 <= p < n && l.Usable(p);
    ClearIffUsable(l, behind, n, p);
    assert Run(a, []) == a;
    RequestsAreUsable(l, behind, n, []);
    RunKeepsLength(Cleared(l, behind), l.Ops());
  }

  lemma RootTree(l: Layout, behind: bool, ram: seq<Pte>)
    requires Sized(l, ram)
    ensures var s, root := WithRoot(l, behind, ram), Root(l, behind, ram);
            && Tree(s, root) && |s.mem| == |ram| && s.Frames() == RamPages(l)
            && (forall k, i :: 0 <= k <= 3 ==> At(s.mem, root, k, i).None?)
  {
    var a, g := Reserved(l, behind), Root(l, behind, ram);
    RootIsFree(l, behind, ram);
    RamTracked(l, RamPages(l));
    var s := Vm(Mark(a, Lock, g), ram);
    FramesOf(s, RamPages(l));
    assert |s.alloc.bits| == l.BitmapSize() * 8 + 1 && s.alloc.IsSet(g);
    EmptyTree(s, g);
  }

  lemma FramesOf(s: Vm, n: nat)
    requires |s.mem| == n * SLOTS
    ensures s.Frames() == n && |s.mem| % SLOTS == 0
  {
  }

  lemma RamTracked(l: Layout, n: nat)
    requires Tiles(l.descs, n)
    ensures RamPages(l) == n && n < l.BitmapSize() * 8
  {
    TotalOfTiles(l.descs, n);
  }

  lemma {:induction false} LockKeepsTree(s: Vm, root: nat, ops: seq<Op>)
    requires Tree(s, root) && AllOf(ops, {Lock})
    ensures Tree(s.(alloc := Run(s.alloc, ops)), root)
  {
    if ops != [] {
      LockKeepsTree(s, root, ops[..|ops| - 1]);
      StepKeepsTree(s.(alloc := Run(s.alloc, ops[..|ops| - 1])), root, ops[|ops| - 1]);
    }
  }

  // ----- the finished address space -----

  lemma LastIdentity(addr: u64, n: nat, v: nat)
    requires PageOf(addr) + n <= VPNS && v < VPNS
    ensures Last(PageList(addr, addr, n), v) == if PageOf(addr) <= v < PageOf(addr) + n then Some(v) else None
  {
    LastOfPages(addr, addr, n, v);
    IdentityOffset(addr, n, v);
  }

  lemma IdentityOffset(addr: u64, n: nat, v: nat)
    requires PageOf(addr) + n <= VPNS && v < VPNS
    ensures var c := Call(addr, addr, n);
            && (c.Offset(v) < n <==> PageOf(addr) <= v < PageOf(addr) + n)
            && (c.Offset(v) < n ==> (PageOf(addr) + c.Index(v)) % FRAMES == v)
  {
  }

  // The virtual page that the k-th page of the kernel image is mapped to.
  function HighVpn(l: Layout, k: nat): nat { (Vpn(High(l)) + k) % VPNS }

  lemma LastHigh(l: Layout, k: nat)
    requires k < l.KernelPages() <= VPNS
    ensures Last(PageList(High(l), l.kernelStart, l.KernelPages()), HighVpn(l, k))
            == Some((PageOf(l.kernelStart) + k) % FRAMES)
  {
    LastOfPages(High(l), l.kernelStart, l.KernelPages(), HighVpn(l, k));
    OffsetOf(Vpn(High(l)), k);
    assert Call(High(l), l.kernelStart, l.KernelPages()).Offset(HighVpn(l, k)) == k;
    IndexInside(k, l.KernelPages());
  }

  lemma OffsetOf(w: nat, k: nat)
    requires w < VPNS && k < VPNS
    ensures ((w + k) % VPNS - w) % VPNS == k
  {
  }

  lemma IndexInside(off: nat, n: nat)
    requires off < n <= VPNS
    ensures off + (n - 1 - off) / VPNS * VPNS == off
  {
  }

  lemma LastNotHigh(l: Layout, v: nat)
    requires v < VPNS && forall k :: 0 <= k < l.KernelPages() ==> HighVpn(l, k) != v
    ensures Last(PageList(High(l), l.kernelStart, l.KernelPages()), v).None?
  {
    var c := Call(High(l), l.kernelStart, l.KernelPages());
    LastOfPages(High(l), l.kernelStart, l.KernelPages(), v);
    OffsetBack(Vpn(High(l)), v);
    assert HighVpn(l, c.Offset(v)) == v;
  }

  lemma OffsetBack(w: nat, v: nat)
    requires w < VPNS && v < VPNS
    ensures (w + (v - w) % VPNS) % VPNS == v
  {
  }

  // Virtual page v belongs to one of the ranges that are mapped to themselves.
  predicate SelfMapped(l: Layout, d: Devices, v: nat) {
    || v < RamPages(l)
    || PageOf(d.fb) <= v < PageOf(d.fb) + d.FbPages()
    || v == PageOf(d.apic)
    || PageOf(d.mcfg) <= v < PageOf(d.mcfg) + d.McfgPages()
  }

  /** All device ranges lie below 2^48, and the high range of the kernel, modulo 2^48, meets no
      range that is mapped to itself. */
  ghost predicate Separate(l: Layout, d: Devices) {
    && PageOf(d.fb) + d.FbPages() <= VPNS && PageOf(d.apic) + 1 <= VPNS && PageOf(d.mcfg) + d.McfgPages() <= VPNS
    && l.KernelPages() <= VPNS
    && forall k :: 0 <= k < l.KernelPages() ==> !SelfMapped(l, d, HighVpn(l, k))
  }

  // The last mapping that the whole sequence gives a page.
  function BootLast(l: Layout, d: Devices, v: nat): Option<nat> {
    if Last(LateMaps(l, d), v).Some? then Last(LateMaps(l, d), v) else Last(IdentityMaps(l), v)
  }

  lemma LateLast(l: Layout, d: Devices, v: nat)
    ensures var x := Last(PageList(d.fb, d.fb, d.FbPages()), v);
            var y := Last(PageList(High(l), l.kernelStart, l.KernelPages()), v);
            var z, w := Last(PageList(d.apic, d.apic, 1), v), Last(PageList(d.mcfg, d.mcfg, d.McfgPages()), v);
            Last(LateMaps(l, d), v) == if w.Some? then w else if z.Some? then z else if y.Some? then y else x
  {
    var xs, ys := PageList(d.fb, d.fb, d.FbPages()), PageList(High(l), l.kernelStart, l.KernelPages());
    var zs, ws := PageList(d.apic, d.apic, 1), PageList(d.mcfg, d.mcfg, d.McfgPages());
    LastAppend(xs + ys, zs + ws, v);
    LastAppend(zs, ws, v);
    LastAppend(xs, ys, v);
  }

  lemma BootLastSelf(l: Layout, d: Devices, v: nat)
    requires Separate(l, d) && SelfMapped(l, d, v) && RamPages(l) <= VPNS
    ensures BootLast(l, d, v) == Some(v)
  {
    LateLast(l, d, v);
    LastIdentity(0, RamPages(l), v);
    LastIdentity(d.fb, d.FbPages(), v);
    LastIdentity(d.apic, 1, v);
    LastIdentity(d.mcfg, d.McfgPages(), v);
    LastNotHigh(l, v);
  }

  lemma BootLastHigh(l: Layout, d: Devices, k: nat)
    requires Separate(l, d) && k < l.KernelPages() && RamPages(l) <= VPNS
    ensures BootLast(l, d, HighVpn(l, k)) == Some((PageOf(l.kernelStart) + k) % FRAMES)
  {
    var v := HighVpn(l, k);
    LateLast(l, d, v);
    LastIdentity(d.apic, 1, v);
    LastIdentity(d.mcfg, d.McfgPages(), v);
    LastHigh(l, k);
  }
}
