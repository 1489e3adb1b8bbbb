/** What the set-up of _start costs, what it leaves in the counters, and machines on which it works or fails. */
module BootCost {
  import opened Machine
  import opened Allocator
  import opened AllocatorRuns
  import opened PageTables
  import opened MapProofs
  import opened MapTheorems
  import opened MemoryMap
  import opened Boot
  import opened BootTheorems

  // ----- a count that a caller can check -----

  lemma UnionSize<T>(a: set<T>, b: set<T>)
    ensures |a + b| <= |a| + |b|
  {
    assert a + b == a + (b - a);
    assert b == b * a + (b - a);
  }

  function LateCost(l: Layout, d: Devices): nat {
    RangeCost(d.fb, d.FbPages()) + RangeCost(High(l), l.KernelPages())
    + RangeCost(d.apic, 1) + RangeCost(d.mcfg, d.McfgPages())
  }

  // The root, the tables of each range, and the framebuffer as far as it lies on usable pages.
  function Cost(l: Layout, d: Devices): nat {
    1 + RangeCost(0, RamPages(l)) + LateCost(l, d) + |FbOnRam(l, d)|
  }

  lemma TouchedCost(l: Layout, d: Devices)
    ensures |AllTouched(l, d)| <= RangeCost(0, RamPages(l)) + LateCost(l, d)
  {
    TouchedSize(0, RamPages(l));
    TouchedSize(d.fb, d.FbPages());
    TouchedSize(High(l), l.KernelPages());
    TouchedSize(d.apic, 1);
    TouchedSize(d.mcfg, d.McfgPages());
    UnionSize(TouchedNodes(0, RamPages(l)), LateTouched(l, d));
    FourSizes(TouchedNodes(d.fb, d.FbPages()), TouchedNodes(High(l), l.KernelPages()),
              TouchedNodes(d.apic, 1), TouchedNodes(d.mcfg, d.McfgPages()));
  }

  lemma FourSizes(w: set<Node>, x: set<Node>, y: set<Node>, z: set<Node>)
    ensures |(w + x) + (y + z)| <= |w| + |x| + |y| + |z|
  {
    UnionSize(w, x);
    UnionSize(y, z);
    UnionSize(w + x, y + z);
  }

  /** The boot sequence has room when there are as many usable pages as it costs, and is right when, in
      addition, no framebuffer page is usable RAM. */
  lemma RoomWhenPaid(l: Layout, d: Devices)
    requires Cost(l, d) <= |UsablePages(l)|
    ensures HasRoom(l, d) && (FbOnRam(l, d) == {} ==> Fits(l, d))
  {
    TouchedCost(l, d);
    SubsetSize(FbLeft(l, d), FbOnRam(l, d));
  }

  // ----- the counters -----

  // x bytes moved from free to used, or from free to reserved.
  predicate Spent(a: Alloc, b: Alloc, x: int) {
    b.free == (a.free - x) % WORD && b.used == (a.used + x) % WORD && b.reserved == a.reserved
  }

  predicate SetAside(a: Alloc, b: Alloc, x: int) {
    b.free == (a.free - x) % WORD && b.reserved == (a.reserved + x) % WORD && b.used == a.used
  }

  lemma SpentTwice(a: Alloc, b: Alloc, c: Alloc, x: int, y: int)
    requires Spent(a, b, x) && Spent(b, c, y)
    ensures Spent(a, c, x + y)
  {
    AddMod(a.free, -x, -y);
    AddMod(a.used, x, y);
  }

  // The pages a list of lock and reserve calls takes: the new ones, and one per call behind the bitmap.
  function Taken(a: Alloc, ops: seq<Op>): int {
    |SetPages(Run(a, ops))| - |SetPages(a)| + Behind(ops, |a.bits|)
  }

  lemma LockSpends(a: Alloc, ops: seq<Op>, k: int)
    requires AllOf(ops, {Lock}) && k == Taken(a, ops)
    ensures Spent(a, Run(a, ops), k * PAGE_SIZE)
  {
    MarkingCharges(a, ops);
    ReservedKept(a, ops);
    UsedFromCharged(a, Run(a, ops), k);
  }

  lemma {:induction false} UsedKept(a: Alloc, ops: seq<Op>)
    requires AllOf(ops, {Reserve})
    ensures Run(a, ops).used == a.used
  {
    if ops != [] {
      UsedKept(a, ops[..|ops| - 1]);
    }
  }

  lemma ReserveCharges(a: Alloc, ops: seq<Op>, k: int)
    requires AllOf(ops, {Reserve}) && k == Taken(a, ops)
    ensures SetAside(a, Run(a, ops), k * PAGE_SIZE)
  {
    MarkingCharges(a, ops);
    UsedKept(a, ops);
    DropTerm(Run(a, ops).reserved, a.reserved + k * PAGE_SIZE, a.used);
  }

  // RAM pages that are reserved: memory of another kind and the kernel image.
  function OtherPages(l: Layout): set<nat> { set p | 0 <= p < RamPages(l) && (l.InReserved(p) || l.InKernel(p)) }

  function StorageSet(l: Layout): set<nat> { set p | 0 <= p < RamPages(l) && l.InStorage(p) }

  // The kernel image lies in RAM.
  predicate KernelInRam(l: Layout) { PageOf(l.kernelStart) + l.KernelPages() <= RamPages(l) }

  function StorageLocks(l: Layout): seq<Op> { RangeOps(Lock, l.Bitmap(), l.StoragePages()) }

  function Reservations(l: Layout): seq<Op> {
    ReserveOps(l.descs) + RangeOps(Reserve, l.kernelStart, l.KernelPages())
  }

  // In range, marking pages that were clear takes each of them once.
  lemma TakenInRange(a: Alloc, ops: seq<Op>, n: nat)
    requires AllOf(ops, {Lock, Reserve}) && n <= |a.bits|
    requires forall p :: p in Pages(ops) ==> p < n && !a.IsSet(p)
    ensures Taken(a, ops) == |Pages(ops)| && SetPages(Run(a, ops)) == SetPages(a) + Pages(ops)
  {
    MarkingSets(a, ops);
    NoneBehind(ops, |a.bits|);
    assert (set p | p in Pages(ops) && p < |a.bits|) == Pages(ops);
    assert SetPages(a) !! Pages(ops);
  }

  lemma StoragePagesInRam(l: Layout)
    requires Tiles(l.descs, RamPages(l)) && l.Placed(RamPages(l))
    ensures Pages(StorageLocks(l)) == StorageSet(l) && |StorageSet(l)| == l.StoragePages()
  {
    var lo, k := PageOf(l.Bitmap()), l.StoragePages();
    forall p: nat ensures p in Pages(StorageLocks(l)) <==> p in StorageSet(l) {
      if p < PAGES {
        StorageOps(l, p);
        if l.InStorage(p) { StorageIsSpare(l, RamPages(l), p); }
      }
    }
    forall p: nat | p < RamPages(l) ensures l.InStorage(p) <==> Between(lo, p, lo + k) { CircleDistance(lo, p); }
    assert StorageSet(l) == Interval(lo, lo + k);
    IntervalSize(lo, lo + k);
  }

  lemma ReservationsInRam(l: Layout)
    requires Tiles(l.descs, RamPages(l)) && l.Placed(RamPages(l)) && KernelInRam(l)
    ensures Pages(Reservations(l)) == OtherPages(l) && AllOf(Reservations(l), {Reserve})
  {
    ReserveOpsKind(l.descs);
    forall p: nat | p < PAGES ensures p in Pages(Reservations(l)) <==> p in OtherPages(l) {
      ReservedPage(l, p);
    }
  }

  lemma ReservedPage(l: Layout, p: nat)
    requires Tiles(l.descs, RamPages(l)) && KernelInRam(l) && p < PAGES
    ensures p in Pages(Reservations(l)) <==> p in OtherPages(l)
  {
    PagesAppend(ReserveOps(l.descs), RangeOps(Reserve, l.kernelStart, l.KernelPages()));
    ReserveOpsPages(l.descs, p);
    KernelOps(l, p);
    CircleDistance(PageOf(l.kernelStart), p);
  }

  lemma OnePart(l: Layout, p: nat)
    requires Tiles(l.descs, RamPages(l)) && l.Placed(RamPages(l)) && p < RamPages(l)
    ensures l.InStorage(p) ==> !l.InReserved(p) && !l.InKernel(p)
    ensures l.Usable(p) <==> !(l.InStorage(p) || l.InReserved(p) || l.InKernel(p))
  {
    OneCover(l.descs, RamPages(l), p);
    if l.InStorage(p) { StorageIsSpare(l, RamPages(l), p); }
  }

  lemma ThreeParts(l: Layout)
    requires Tiles(l.descs, RamPages(l)) && l.Placed(RamPages(l))
    ensures RamPages(l) == |UsablePages(l)| + |StorageSet(l)| + |OtherPages(l)| && StorageSet(l) !! OtherPages(l)
  {
    var u, s, o := UsablePages(l), StorageSet(l), OtherPages(l);
    forall p: nat | p < RamPages(l)
      ensures l.InStorage(p) ==> !l.InReserved(p) && !l.InKernel(p)
      ensures l.Usable(p) <==> !(l.InStorage(p) || l.InReserved(p) || l.InKernel(p))
    {
      OnePart(l, p);
    }
    assert u + s + o == Interval(0, RamPages(l)) && u !! s && (u + s) !! o;
    IntervalSize(0, RamPages(l));
    ThreeSizes(u, s, o);
  }

  // Locking the storage of the bitmap.
  lemma StorageSpends(l: Layout, behind: bool)
    requires Tiles(l.descs, RamPages(l)) && l.Placed(RamPages(l))
    ensures var a, b := Cleared(l, behind), Run(Cleared(l, behind), StorageLocks(l));
            Spent(a, b, |StorageSet(l)| * PAGE_SIZE)
  {
    var a := Cleared(l, behind);
    RamTracked(l, RamPages(l));
    StoragePagesInRam(l);
    TakenInRange(a, StorageLocks(l), RamPages(l));
    LockSpends(a, StorageLocks(l), |StorageSet(l)|);
  }

  lemma StorageBits(l: Layout, behind: bool)
    requires Tiles(l.descs, RamPages(l)) && l.Placed(RamPages(l))
    ensures var a, b := Cleared(l, behind), Run(Cleared(l, behind), StorageLocks(l));
            && |b.bits| == |a.bits|
            && forall p :: 0 <= p < RamPages(l) ==> (b.IsSet(p) <==> p in StorageSet(l))
  {
    var a := Cleared(l, behind);
    RamTracked(l, RamPages(l));
    StoragePagesInRam(l);
    TakenInRange(a, StorageLocks(l), RamPages(l));
    RunKeepsLength(a, StorageLocks(l));
    NewlySet(a, Run(a, StorageLocks(l)), StorageSet(l), RamPages(l));
  }

  lemma NewlySet(a: Alloc, b: Alloc, taken: set<nat>, n: nat)
    requires SetPages(b) == SetPages(a) + taken && n <= |a.bits| == |b.bits|
    requires forall p :: 0 <= p < n ==> !a.IsSet(p)
    ensures forall p :: 0 <= p < n ==> (b.IsSet(p) <==> p in taken)
  {
    forall p | 0 <= p < n ensures b.IsSet(p) <==> p in taken {
      assert b.IsSet(p) <==> p in SetPages(b);
      assert a.IsSet(p) <==> p in SetPages(a);
    }
  }

  // Reserving everything else.
  lemma OthersCharged(l: Layout, b: Alloc)
    requires Tiles(l.descs, RamPages(l)) && l.Placed(RamPages(l)) && KernelInRam(l) && RamPages(l) <= |b.bits|
    requires forall p :: p in OtherPages(l) ==> !b.IsSet(p)
    ensures SetAside(b, Run(b, Reservations(l)), |OtherPages(l)| * PAGE_SIZE)
  {
    ReservationsInRam(l);
    TakenInRange(b, Reservations(l), RamPages(l));
    ReserveCharges(b, Reservations(l), |OtherPages(l)|);
  }

  /** After the reservations the counters are exact: the free bytes are those of the usable pages, the
      used bytes those of the bitmap's storage, and the reserved bytes those of all other RAM. */
  lemma ReservedCounters(l: Layout, behind: bool)
    requires Tiles(l.descs, RamPages(l)) && l.Placed(RamPages(l)) && KernelInRam(l)
    ensures var a := Reserved(l, behind);
            && a.free == |UsablePages(l)| * PAGE_SIZE && a.used == |StorageSet(l)| * PAGE_SIZE
            && a.reserved == |OtherPages(l)| * PAGE_SIZE
  {
    var a := Cleared(l, behind);
    var b := Run(a, StorageLocks(l));
    RamTracked(l, RamPages(l));
    TotalOfTiles(l.descs, RamPages(l));
    ThreeParts(l);
    StorageSpends(l, behind);
    StorageBits(l, behind);
    OthersCharged(l, b);
    RunAppend(a, StorageLocks(l), Reservations(l));
    assert StorageLocks(l) + Reservations(l) == l.Ops();
    Counted(a, b, Reserved(l, behind), |UsablePages(l)| * PAGE_SIZE, |StorageSet(l)| * PAGE_SIZE,
            |OtherPages(l)| * PAGE_SIZE);
  }

  lemma Counted(a: Alloc, b: Alloc, c: Alloc, u: nat, s: nat, o: nat)
    requires u + s + o < WORD && a.free == u + s + o && a.used == a.reserved == 0
    requires Spent(a, b, s) && SetAside(b, c, o)
    ensures c.free == u && c.used == s && c.reserved == o
  {
    SmallMod(u + o, WORD);
    SmallMod(s, WORD);
    SmallMod(u, WORD);
    SmallMod(o, WORD);
  }

  // ----- what locking the framebuffer takes -----

  // Page p behind RAM reads as clear before the framebuffer is locked: it lies behind the bitmap, or in
  // its last bits outside the kernel image, and the bit behind the bitmap is as it was found.
  predicate ReadsClear(l: Layout, behind: bool, p: nat) {
    l.BitmapSize() * 8 < p || (!l.InKernel(p) && (p == l.BitmapSize() * 8 ==> !behind))
  }

  // The framebuffer pages behind RAM that are charged.
  function FbOutside(l: Layout, d: Devices, behind: bool): set<nat> {
    set p | RamPages(l) <= p < PAGES && d.InFb(p) && ReadsClear(l, behind, p)
  }

  function FbCharge(l: Layout, d: Devices, behind: bool): nat { |FbLeft(l, d)| + |FbOutside(l, d, behind)| }

  // The pages named that lie at or above `size`, and those that are not set.
  function PagesFrom(ops: seq<Op>, size: nat): set<nat> { set p | p in Pages(ops) && size <= p }

  function Unset(a: Alloc, ops: seq<Op>): set<nat> { set p | p in Pages(ops) && !a.IsSet(p) }

  lemma NextPageIsNew(k: Kind, addr: u64, n: nat)
    requires n < PAGES
    ensures PageOf(PageAddr(addr, n)) !in Pages(RangeOps(k, addr, n))
  {
    PageOfPageAddr(addr, n);
    PagesOfRange(k, addr, n, PageOf(PageAddr(addr, n)));
    CircleDistance(PageOf(addr), PageOf(PageAddr(addr, n)));
    WrapOnce(PageOf(addr), n);
  }

  lemma WrapOnce(a: nat, n: nat)
    requires a < PAGES && n < PAGES
    ensures (a + n) % PAGES == if a + n < PAGES then a + n else a + n - PAGES
  {
    DivModUnique(a + n, PAGES, if a + n < PAGES then 0 else 1, if a + n < PAGES then a + n else a + n - PAGES);
  }

  // A range of at most 2^52 pages names each page once.
  lemma {:induction false} BehindIsCount(k: Kind, addr: u64, n: nat, size: nat)
    requires n <= PAGES
    ensures Behind(RangeOps(k, addr, n), size) == |PagesFrom(RangeOps(k, addr, n), size)|
  {
    if n > 0 {
      var ops, op := RangeOps(k, addr, n - 1), On(k, PageAddr(addr, n - 1));
      BehindIsCount(k, addr, n - 1, size);
      RangeOpsSnoc(k, addr, n - 1);
      NextPageIsNew(k, addr, n - 1);
      OneMorePage(ops, op, size);
    }
  }

  lemma OneMorePage(ops: seq<Op>, op: Op, size: nat)
    requires op.On? && PageOf(op.addr) !in Pages(ops)
    ensures Behind(ops + [op], size) == Behind(ops, size) + if size <= PageOf(op.addr) then 1 else 0
    ensures |PagesFrom(ops + [op], size)| == |PagesFrom(ops, size)| + if size <= PageOf(op.addr) then 1 else 0
  {
    var p := PageOf(op.addr);
    assert (ops + [op])[..|ops|] == ops;
    PagesSnoc(ops, op);
    assert PagesFrom(ops + [op], size) == PagesFrom(ops, size) + if size <= p then {p} else {};
  }

  // Locking a range takes each page that reads clear, once.
  lemma TakenIsUnset(a: Alloc, addr: u64, n: nat)
    requires n <= PAGES
    ensures Taken(a, RangeOps(Lock, addr, n)) == |Unset(a, RangeOps(Lock, addr, n))|
  {
    var ops := RangeOps(Lock, addr, n);
    MarkingSets(a, ops);
    BehindIsCount(Lock, addr, n, |a.bits|);
    Newly(SetPages(a), PagesInside(a, ops));
    UnsetInParts(a, ops);
    TwoParts(Unset(a, ops), PagesInside(a, ops) - SetPages(a), PagesFrom(ops, |a.bits|));
  }

  function PagesInside(a: Alloc, ops: seq<Op>): set<nat> { set p | p in Pages(ops) && p < |a.bits| }

  lemma Newly(a: set<nat>, b: set<nat>)
    ensures |a + b| == |a| + |b - a|
  {
    assert a + b == a + (b - a);
  }

  lemma UnsetInParts(a: Alloc, ops: seq<Op>)
    ensures PagesInside(a, ops) - SetPages(a) <= Unset(a, ops)
    ensures PagesFrom(ops, |a.bits|) == Unset(a, ops) - (PagesInside(a, ops) - SetPages(a))
  {
    forall p: nat ensures p in SetPages(a) <==> a.IsSet(p) { }
  }

  lemma TwoParts<T>(all: set<T>, x: set<T>, y: set<T>)
    requires x <= all && y == all - x
    ensures |all| == |x| + |y|
  {
    assert all == x + y;
  }

  // The bits behind RAM, once the reservations are made.
  lemma BitsBehindRam(l: Layout, behind: bool, p: nat)
    requires Tiles(l.descs, RamPages(l)) && l.Placed(RamPages(l)) && RamPages(l) <= p < PAGES
    ensures Reserved(l, behind).IsSet(p) <==> !ReadsClear(l, behind, p)
  {
    var a := Cleared(l, behind);
    OpsPages(l, p);
    OpsKind(l);
    MarkingSets(a, l.Ops());
    RunKeepsLength(a, l.Ops());
    assert Reserved(l, behind).IsSet(p) <==> p in SetPages(Reserved(l, behind));
    assert a.IsSet(p) <==> p in SetPages(a);
    if l.InStorage(p) { StorageIsSpare(l, RamPages(l), p); }
  }

  // And when the framebuffer is locked they are still the same.
  lemma BitsStay(l: Layout, behind: bool, ram: seq<Pte>, p: nat)
    requires Sized(l, ram) && EarlyCost(l) <= |UsablePages(l)| && RamPages(l) <= p
    ensures WithRam(l, behind, ram).alloc.IsSet(p) <==> Reserved(l, behind).IsSet(p)
  {
    var s, t, root := WithRoot(l, behind, ram), WithRam(l, behind, ram), Root(l, behind, ram);
    RootBit(l, behind, ram, p);
    EarlyStage(l, behind, ram);
    NotTaken(s, t, root, TouchedNodes(0, RamPages(l)), p);
  }

  lemma RootBit(l: Layout, behind: bool, ram: seq<Pte>, p: nat)
    requires Sized(l, ram) && RamPages(l) <= p
    ensures WithRoot(l, behind, ram).Frames() <= p
    ensures WithRoot(l, behind, ram).alloc.IsSet(p) <==> Reserved(l, behind).IsSet(p)
  {
    RootIsFree(l, behind, ram);
    RootTree(l, behind, ram);
  }

  lemma NotTaken(s: Vm, t: Vm, root: nat, need: set<Node>, p: nat)
    requires Grown(s, t, root, need) && s.Frames() <= p
    ensures t.alloc.IsSet(p) <==> s.alloc.IsSet(p)
  {
    if TakenBy(t.mem, root, need, p) {
      TakenIsClear(s, t, root, need, p);
    }
  }

  lemma TakenIsClear(s: Vm, t: Vm, root: nat, need: set<Node>, p: nat)
    requires NodesGrown(s, t, root, need) && TakenBy(t.mem, root, need, p)
    ensures p in ClearRam(s)
  {
    var n :| n in need && At(t.mem, root, n.0, n.1) == Some(p);
    assert Fresh(s, t, root, n);
  }

  lemma ClearInRam(l: Layout, behind: bool, ram: seq<Pte>, p: nat)
    requires Sized(l, ram) && EarlyCost(l) <= |UsablePages(l)| && p < RamPages(l)
    ensures !WithRam(l, behind, ram).alloc.IsSet(p) <==> p in Left(l)
  {
    var t := WithRam(l, behind, ram);
    EarlyStage(l, behind, ram);
    RootTree(l, behind, ram);
    FramesOf(t, RamPages(l));
    UnsetInRam(t, Root(l, behind, ram), p);
  }

  lemma UnsetInRam(t: Vm, root: nat, p: nat)
    requires Tree(t, root) && p < t.Frames()
    ensures !t.alloc.IsSet(p) <==> p in ClearRam(t)
  {
  }

  lemma UnsetIsCharged(l: Layout, d: Devices, behind: bool, ram: seq<Pte>)
    requires Sized(l, ram) && EarlyCost(l) <= |UsablePages(l)|
    ensures Unset(WithRam(l, behind, ram).alloc, RangeOps(Lock, d.fb, d.FbPages()))
            == FbLeft(l, d) + FbOutside(l, d, behind)
  {
    var a, ops := WithRam(l, behind, ram).alloc, RangeOps(Lock, d.fb, d.FbPages());
    forall p: nat ensures p in Unset(a, ops) <==> p in FbLeft(l, d) || p in FbOutside(l, d, behind) {
      if p < PAGES {
        FbPage(d, p);
        if p < RamPages(l) {
          ClearInRam(l, behind, ram, p);
        } else {
          BitsBehindRam(l, behind, p);
          BitsStay(l, behind, ram, p);
        }
      }
    }
  }

  lemma FbChargeIsTaken(l: Layout, d: Devices, behind: bool, ram: seq<Pte>)
    requires Sized(l, ram) && EarlyCost(l) <= |UsablePages(l)|
    ensures Taken(WithRam(l, behind, ram).alloc, RangeOps(Lock, d.fb, d.FbPages())) == FbCharge(l, d, behind)
  {
    TakenIsUnset(WithRam(l, behind, ram).alloc, d.fb, d.FbPages());
    UnsetIsCharged(l, d, behind, ram);
    TwoParts(FbLeft(l, d) + FbOutside(l, d, behind), FbLeft(l, d), FbOutside(l, d, behind));
  }

  /** Of a framebuffer outside RAM whose pages read as clear every page is charged, although none of them
      is RAM. */
  lemma FbOutsideIsCharged(l: Layout, d: Devices, behind: bool)
    requires forall p :: 0 <= p < PAGES && d.InFb(p) ==> RamPages(l) <= p && ReadsClear(l, behind, p)
    ensures FbCharge(l, d, behind) == d.FbPages()
  {
    AllOutside(l, d, behind);
    BehindIsCount(Lock, d.fb, d.FbPages(), 0);
    AllBehind(RangeOps(Lock, d.fb, d.FbPages()), 0);
    InRamNone(l, d);
  }

  lemma AllOutside(l: Layout, d: Devices, behind: bool)
    requires forall p :: 0 <= p < PAGES && d.InFb(p) ==> RamPages(l) <= p && ReadsClear(l, behind, p)
    ensures PagesFrom(RangeOps(Lock, d.fb, d.FbPages()), 0) == FbOutside(l, d, behind)
  {
    forall p: nat | p < PAGES
      ensures p in PagesFrom(RangeOps(Lock, d.fb, d.FbPages()), 0) <==> p in FbOutside(l, d, behind)
    {
      FbPage(d, p);
    }
  }

  lemma InRamNone(l: Layout, d: Devices)
    requires forall p :: 0 <= p < PAGES && d.InFb(p) ==> RamPages(l) <= p
    ensures FbLeft(l, d) == {}
  {
    forall p: nat ensures p !in FbLeft(l, d) { assert p < RamPages(l) ==> p < PAGES; }
  }

  lemma {:induction false} AllBehind(ops: seq<Op>, size: nat)
    requires AllOf(ops, {Lock, Reserve}) && forall p :: p in Pages(ops) ==> size <= p
    ensures Behind(ops, size) == |ops|
  {
    if ops != [] {
      var ops', op := ops[..|ops| - 1], ops[|ops| - 1];
      assert ops == ops' + [op];
      PagesSnoc(ops', op);
      AllBehind(ops', size);
    }
  }

  // ----- the counters after the boot -----

  // The root, the tables, and what locking the framebuffer takes.
  function BootPages(l: Layout, d: Devices, behind: bool): nat { 1 + |AllTouched(l, d)| + FbCharge(l, d, behind) }

  /** From the reservations on the boot moves exactly the bytes of the root, of the tables and of what
      locking the framebuffer takes from free to used. */
  lemma BootCounters(l: Layout, d: Devices, behind: bool, ram: seq<Pte>)
    requires Sized(l, ram) && HasRoom(l, d)
    ensures Spent(Reserved(l, behind), Booted(l, d, behind, ram).alloc,
                  BootPages(l, d, behind) * PAGE_SIZE)
  {
    var s, t, u := WithRoot(l, behind, ram), WithRam(l, behind, ram), WithFb(l, d, behind, ram);
    StagesSpend(l, d, behind, ram);
    RootSpends(l, behind, ram);
    TwoParts(AllTouched(l, d), TouchedNodes(0, RamPages(l)), LateNeed(l, d));
    SpentFour(Reserved(l, behind), s.alloc, t.alloc, u.alloc, Booted(l, d, behind, ram).alloc,
              |TouchedNodes(0, RamPages(l))|, FbCharge(l, d, behind), |LateNeed(l, d)|, BootPages(l, d, behind));
  }

  lemma SpentFour(a: Alloc, b: Alloc, c: Alloc, d: Alloc, e: Alloc, x: int, f: int, y: int, n: int)
    requires n == 1 + (x + y) + f && Spent(a, b, PAGE_SIZE) && Spent(b, c, x * PAGE_SIZE) && Spent(c, d, f * PAGE_SIZE)
    requires Spent(d, e, y * PAGE_SIZE)
    ensures Spent(a, e, n * PAGE_SIZE)
  {
    SpentTwice(a, b, c, PAGE_SIZE, x * PAGE_SIZE);
    SpentTwice(a, c, d, PAGE_SIZE + x * PAGE_SIZE, f * PAGE_SIZE);
    SpentTwice(a, d, e, PAGE_SIZE + x * PAGE_SIZE + f * PAGE_SIZE, y * PAGE_SIZE);
    FourBytes(x, f, y);
  }

  lemma FourBytes(x: int, f: int, y: int)
    ensures (1 + (x + y) + f) * PAGE_SIZE == PAGE_SIZE + x * PAGE_SIZE + f * PAGE_SIZE + y * PAGE_SIZE
  {
  }

  lemma RootSpends(l: Layout, behind: bool, ram: seq<Pte>)
    requires Sized(l, ram)
    ensures Spent(Reserved(l, behind), WithRoot(l, behind, ram).alloc, PAGE_SIZE)
  {
    RootIsFree(l, behind, ram);
    LockedSpends(Reserved(l, behind), Root(l, behind, ram));
  }

  lemma LockedSpends(a: Alloc, i: nat)
    requires a.IsClear(i)
    ensures Spent(a, Mark(a, Lock, i), PAGE_SIZE)
  {
  }

  lemma StagesSpend(l: Layout, d: Devices, behind: bool, ram: seq<Pte>)
    requires Sized(l, ram) && HasRoom(l, d)
    ensures var s, t, u := WithRoot(l, behind, ram), WithRam(l, behind, ram), WithFb(l, d, behind, ram);
            && Spent(s.alloc, t.alloc, |TouchedNodes(0, RamPages(l))| * PAGE_SIZE)
            && Spent(t.alloc, u.alloc, FbCharge(l, d, behind) * PAGE_SIZE)
            && Spent(u.alloc, Booted(l, d, behind, ram).alloc, |LateNeed(l, d)| * PAGE_SIZE)
  {
    var s, t, u := WithRoot(l, behind, ram), WithRam(l, behind, ram), WithFb(l, d, behind, ram);
    RoomForEarly(l, d);
    EarlyStage(l, behind, ram);
    LateStage(l, d, behind, ram);
    PaidSpends(s, t, |TouchedNodes(0, RamPages(l))|);
    PaidSpends(u, Booted(l, d, behind, ram), |LateNeed(l, d)|);
    FbChargeIsTaken(l, d, behind, ram);
    LockSpends(t.alloc, RangeOps(Lock, d.fb, d.FbPages()), FbCharge(l, d, behind));
  }

  lemma PaidSpends(s: Vm, s': Vm, k: nat)
    requires Paid(s, s', k)
    ensures Spent(s.alloc, s'.alloc, k * PAGE_SIZE)
  {
  }

  // ----- a machine on which it works -----

  const LOW: Descriptor := Descriptor(7, 0, 256)
  const IMAGE: Descriptor := Descriptor(2, 0x10_0000, 16)
  const MAIN: Descriptor := Descriptor(7, 0x11_0000, 3808)
  const TABLES: Descriptor := Descriptor(9, 0xFF_0000, 16)

  // 16 MiB of RAM with the kernel image at 1 MiB and the ACPI tables at the end.
  const SMALL: Layout := Layout([LOW, IMAGE, MAIN, TABLES], 0x10_0000, 0x10_F000)
  // 32 MiB of framebuffer at 3 GiB, the local APIC at its usual place, and the MCFG table.
  const DEVICES: Devices := Devices(0xC000_0000, 0x200_0000, 0xFEE0_0000, 0xFF_0000, 60)

  lemma OneMore(ds: seq<Descriptor>, d: Descriptor)
    ensures TotalPages(ds + [d]) == TotalPages(ds) + d.pages
    ensures Largest(ds + [d])
            == if d.kind == CONVENTIONAL && d.Bytes() > Largest(ds).1 then (d.phys, d.Bytes()) else Largest(ds)
  {
    assert (ds + [d])[..|ds|] == ds;
  }

  lemma SmallTotals()
    ensures TotalPages(SMALL.descs) == 4096 && Largest(SMALL.descs) == (0x11_0000, 3808 * PAGE_SIZE)
  {
    OneMore([], LOW);
    OneMore([LOW], IMAGE);
    OneMore([LOW, IMAGE], MAIN);
    OneMore([LOW, IMAGE, MAIN], TABLES);
    assert [] + [LOW] == [LOW] && [LOW] + [IMAGE] == [LOW, IMAGE] && [LOW, IMAGE] + [MAIN] == [LOW, IMAGE, MAIN];
    assert SMALL.descs == [LOW, IMAGE, MAIN] + [TABLES];
  }

  lemma SmallMap()
    ensures Tiles(SMALL.descs, 4096) && RamPages(SMALL) == 4096 && SMALL.Bitmap() == 0x11_0000
    ensures SMALL.StoragePages() == 1 && SMALL.KernelPages() == 16
  {
    SmallTotals();
    SmallTiles();
  }

  lemma SmallTiles()
    ensures Tiles(SMALL.descs, 4096)
  {
    var ds := SMALL.descs;
    assert ds[0] == LOW && ds[1] == IMAGE && ds[2] == MAIN && ds[3] == TABLES;
    forall p: nat | p < 4096 ensures IsCovered(ds, p) {
      assert ds[if p < 256 then 0 else if p < 272 then 1 else if p < 4080 then 2 else 3].Covers(p);
    }
  }

  lemma SmallPlaced()
    ensures SMALL.Placed(4096)
  {
    SmallMap();
    CircleDistance(272, 256);
    CircleDistance(256, 272);
    var ds := SMALL.descs;
    assert ds[0] == LOW && ds[1] == IMAGE && ds[2] == MAIN && ds[3] == TABLES;
  }

  lemma SmallUsable()
    ensures 256 <= |UsablePages(SMALL)| && (forall p :: 0 <= p < 256 ==> p in UsablePages(SMALL))
  {
    SmallMap();
    forall p: nat | p < 256 ensures SMALL.Usable(p) {
      assert SMALL.descs[0].Covers(p);
      CircleDistance(272, p);
      CircleDistance(256, p);
    }
    IntervalSize(0, 256);
    SubsetSize(Interval(0, 256), UsablePages(SMALL));
  }

  lemma SmallFbOutside()
    ensures FbOnRam(SMALL, DEVICES) == {}
  {
    SmallMap();
    forall p: nat | p < 4096 ensures !DEVICES.InFb(p) { CircleDistance(0xC_0000, p); }
  }

  lemma SmallSized(ram: seq<Pte>)
    requires |ram| == 4096 * SLOTS
    ensures Sized(SMALL, ram)
  {
    SmallMap();
    SmallPlaced();
    SmallUsable();
    assert 0 in UsablePages(SMALL);
  }

  lemma OneNode(v: nat, n: nat, l: nat)
    requires 1 <= l <= 3 && 0 < n && v % Span(l) + n <= Span(l)
    ensures Touched(v, n, l) == 1
  {
    SmallQuotient(v % Span(l) + n - 1, Span(l));
  }

  // A range that lies below one table costs three.
  lemma OneTable(vir: u64, n: nat)
    requires 0 < n && Vpn(vir) % Span(1) + n <= Span(1) && Vpn(vir) % Span(2) + n <= Span(2)
    requires Vpn(vir) % Span(3) + n <= Span(3)
    ensures RangeCost(vir, n) == 3
  {
    OneNode(Vpn(vir), n, 1);
    OneNode(Vpn(vir), n, 2);
    OneNode(Vpn(vir), n, 3);
  }

  lemma SmallRamCost()
    ensures RangeCost(0, 4096) == 10
  {
    CostFromZero(4096);
  }

  lemma SmallFbCost()
    ensures RangeCost(DEVICES.fb, DEVICES.FbPages()) == 19
  {
    assert Vpn(DEVICES.fb) == 0xC_0000 && DEVICES.FbPages() == 8193;
    OneNode(0xC_0000, 8193, 3);
    OneNode(0xC_0000, 8193, 2);
    assert Touched(0xC_0000, 8193, 1) == 17;
  }

  lemma SmallCost()
    ensures RangeCost(High(SMALL), 16) == 3 && RangeCost(0xFEE0_0000, 1) == 3 && RangeCost(0xFF_0000, 1) == 3
  {
    assert High(SMALL) == 0xFFFF_0010_0000 && Vpn(0xFFFF_0010_0000) == 0xF_FFF0_0100;
    assert Vpn(0xFEE0_0000) == 0xF_EE00 && Vpn(0xFF_0000) == 0xFF0;
    OneTable(High(SMALL), 16);
    OneTable(0xFEE0_0000, 1);
    OneTable(0xFF_0000, 1);
  }

  lemma SmallHigh(k: nat)
    requires k < 16
    ensures (0xF_FFF0_0100 + k) % VPNS == 0xF_FFF0_0100 + k
  {
  }

  lemma SmallSeparate()
    ensures Separate(SMALL, DEVICES)
  {
    SmallMap();
    assert High(SMALL) == 0xFFFF_0010_0000 && Vpn(0xFFFF_0010_0000) == 0xF_FFF0_0100;
    forall k | 0 <= k < 16 ensures HighVpn(SMALL, k) == 0xF_FFF0_0100 + k { SmallHigh(k); }
  }

  /** The requirements of the boot results can be met: this machine meets them whatever its memory
      holds, with a framebuffer larger than its RAM. */
  lemma SmallMachineFits(ram: seq<Pte>)
    requires |ram| == 4096 * SLOTS
    ensures Sized(SMALL, ram) && Fits(SMALL, DEVICES) && Separate(SMALL, DEVICES) && KernelInRam(SMALL)
  {
    SmallMap();
    SmallSized(ram);
    SmallUsable();
    SmallFbOutside();
    SmallSeparate();
    SmallRamCost();
    SmallFbCost();
    SmallCost();
    RoomWhenPaid(SMALL, DEVICES);
  }

  // ----- machines on which it fails -----

  // The same devices with a framebuffer on the lowest pages of RAM.
  const LOWFB: Devices := Devices(0, 0x1_4000, 0xFEE0_0000, 0xFF_0000, 60)

  lemma LowFbPages()
    ensures |FbOnRam(SMALL, LOWFB)| <= 21 && 0 in FbOnRam(SMALL, LOWFB)
  {
    SmallMap();
    SmallUsable();
    forall p | p in FbOnRam(SMALL, LOWFB) ensures p in Interval(0, 21) { CircleDistance(0, p); }
    IntervalSize(0, 21);
    SubsetSize(FbOnRam(SMALL, LOWFB), Interval(0, 21));
    CircleDistance(0, 0);
  }

  lemma LowFbCost()
    ensures Cost(SMALL, LOWFB) <= 44
  {
    SmallMap();
    LowFbPages();
    SmallRamCost();
    LowFbLate();
  }

  lemma LowFbLate()
    ensures LateCost(SMALL, LOWFB) == 12
  {
    SmallMap();
    SmallCost();
    LowFbRange();
  }

  lemma LowFbRange()
    ensures RangeCost(LOWFB.fb, LOWFB.FbPages()) == 3
  {
    assert Vpn(LOWFB.fb) == 0 && LOWFB.FbPages() == 21;
    OneTable(LOWFB.fb, LOWFB.FbPages());
  }

  lemma LowFbRoom()
    ensures HasRoom(SMALL, LOWFB) && !Fits(SMALL, LOWFB)
  {
    LowFbCost();
    LowFbPages();
    SmallUsable();
    RoomWhenPaid(SMALL, LOWFB);
    assert Below(UsablePages(SMALL), 0) == {};
  }

  /** With a framebuffer on the lowest pages of RAM there is room for everything, and every page is
      translated as it should be, but tables stand in the framebuffer. */
  lemma TablesInFramebuffer(behind: bool, ram: seq<Pte>)
    requires |ram| == 4096 * SLOTS
    ensures Sized(SMALL, ram) && Outcome(SMALL, LOWFB, behind, ram, FbLeft(SMALL, LOWFB))
    ensures !BootRight(SMALL, LOWFB, behind, ram)
  {
    SmallSized(ram);
    LowFbRoom();
    OutcomeIff(SMALL, LOWFB, behind, ram);
    BootRightIff(SMALL, LOWFB, behind, ram);
  }

  // Two pages of conventional memory, the first of which the bitmap takes, and one for the kernel.
  const TINY: Layout := Layout([Descriptor(7, 0, 2), Descriptor(2, 0x2000, 1)], 0x2000, 0x2FFF)

  lemma TinyMap()
    ensures Tiles(TINY.descs, 3) && RamPages(TINY) == 3 && TINY.Bitmap() == 0 && TINY.StoragePages() == 1
    ensures TINY.KernelPages() == 1 && TINY.Placed(3)
  {
    var ds := TINY.descs;
    OneMore([], ds[0]);
    OneMore([ds[0]], ds[1]);
    assert [] + [ds[0]] == [ds[0]] && [ds[0]] + [ds[1]] == ds;
    forall p: nat | p < 3 ensures IsCovered(ds, p) { assert ds[if p < 2 then 0 else 1].Covers(p); }
    CircleDistance(0, 2);
    CircleDistance(2, 0);
  }

  lemma TinyUsable()
    ensures UsablePages(TINY) == {1}
  {
    TinyMap();
    forall p: nat | p < 3 ensures TINY.Usable(p) <==> p == 1 {
      assert TINY.descs[if p < 2 then 0 else 1].Covers(p);
      OneCover(TINY.descs, 3, p);
      CircleDistance(0, p);
      CircleDistance(2, p);
    }
  }

  /** On a machine whose only usable page becomes the root, the boot is not right with any devices. */
  lemma NoPageForTables(d: Devices, behind: bool, ram: seq<Pte>)
    requires |ram| == 3 * SLOTS
    ensures Sized(TINY, ram) && !BootRight(TINY, d, behind, ram)
  {
    TinyMap();
    TinyUsable();
    assert 1 in UsablePages(TINY);
    TooFewPages(TINY, d);
    BootRightIff(TINY, d, behind, ram);
  }

  lemma TooFewPages(l: Layout, d: Devices)
    requires |UsablePages(l)| <= 1 && 0 < RamPages(l)
    ensures !Fits(l, d)
  {
    if Fits(l, d) {
      RoomForEarly(l, d);
      SomeTouched(0, RamPages(l));
    }
  }

  lemma SomeTouched(vir: u64, n: nat)
    requires 0 < n
    ensures 0 < RangeCost(vir, n)
  {
    assert 0 < Touched(Vpn(vir), n, 3);
  }
}
