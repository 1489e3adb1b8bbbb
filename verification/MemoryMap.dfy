/** boot/kernel/kernel.c, lines 36 to 70: the scan of the firmware memory map, the place of the
    bitmap and the reservation of everything that is not free memory. */
module MemoryMap {
  import opened Machine
  import opened Allocator
  import opened AllocatorRuns

  // EfiConventionalMemory
  const CONVENTIONAL: nat := 7

  datatype Descriptor = Descriptor(kind: nat, phys: u64, pages: u64) {
    function Bytes(): u64 { pages * PAGE_SIZE % WORD }

    predicate Covers(p: nat) { PageOf(phys) <= p < PageOf(phys) + pages }

    // No page of [lo, hi) belongs to the descriptor.
    predicate Avoids(lo: nat, hi: nat) { pages == 0 || PageOf(phys) + pages <= lo || hi <= PageOf(phys) }
  }

  // ----- the scan -----

  function TotalPages(descs: seq<Descriptor>): nat {
    if descs == [] then 0 else TotalPages(descs[..|descs| - 1]) + descs[|descs| - 1].pages
  }

  /** The first of the largest conventional descriptors, or NULL when none has any size. */
  predicate IsLargest(descs: seq<Descriptor>, addr: u64, size: u64) {
    if size == 0
    then addr == 0 && forall j :: 0 <= j < |descs| && descs[j].kind == CONVENTIONAL ==> descs[j].Bytes() == 0
    else exists i ::
      && 0 <= i < |descs| && descs[i].kind == CONVENTIONAL && descs[i].phys == addr && descs[i].Bytes() == size
      && (forall j :: 0 <= j < |descs| && descs[j].kind == CONVENTIONAL ==> descs[j].Bytes() <= size)
      && (forall j :: 0 <= j < i && descs[j].kind == CONVENTIONAL ==> descs[j].Bytes() < size)
  }

  lemma TotalMoves(descs: seq<Descriptor>, i: nat)
    requires i < |descs|
    ensures Add64(TotalPages(descs[..i]) * PAGE_SIZE % WORD, descs[i].Bytes())
            == TotalPages(descs[..i + 1]) * PAGE_SIZE % WORD
  {
    assert descs[..i + 1][..i] == descs[..i];
    ModSum(TotalPages(descs[..i]) * PAGE_SIZE, descs[i].pages * PAGE_SIZE);
  }

  lemma ModSum(x: nat, y: nat)
    ensures (x % WORD + y % WORD) % WORD == (x + y) % WORD
  {
  }

  // Address and size of the descriptor that the scan picks.
  function Largest(descs: seq<Descriptor>): (u64, u64) {
    if descs == [] then (0, 0)
    else
      var best, d := Largest(descs[..|descs| - 1]), descs[|descs| - 1];
      if d.kind == CONVENTIONAL && d.Bytes() > best.1 then (d.phys, d.Bytes()) else best
  }

  lemma {:induction false} LargestIsLargest(descs: seq<Descriptor>)
    ensures IsLargest(descs, Largest(descs).0, Largest(descs).1)
  {
    if descs != [] {
      var i := |descs| - 1;
      LargestIsLargest(descs[..i]);
      LargestNext(descs, i, Largest(descs[..i]).0, Largest(descs[..i]).1);
      assert descs[..i + 1] == descs;
    }
  }

  lemma LargestNext(descs: seq<Descriptor>, i: nat, addr: u64, size: u64)
    requires i < |descs| && IsLargest(descs[..i], addr, size)
    ensures if descs[i].kind == CONVENTIONAL && descs[i].Bytes() > size
            then IsLargest(descs[..i + 1], descs[i].phys, descs[i].Bytes())
            else IsLargest(descs[..i + 1], addr, size)
  {
    var now, next := descs[..i], descs[..i + 1];
    assert next[..i] == now && next[i] == descs[i];
    assert forall j :: 0 <= j < i ==> next[j] == now[j];
    if size != 0 && !(descs[i].kind == CONVENTIONAL && descs[i].Bytes() > size) {
      var k :| && 0 <= k < |now| && now[k].kind == CONVENTIONAL && now[k].phys == addr && now[k].Bytes() == size
               && (forall j :: 0 <= j < |now| && now[j].kind == CONVENTIONAL ==> now[j].Bytes() <= size)
               && (forall j :: 0 <= j < k && now[j].kind == CONVENTIONAL ==> now[j].Bytes() < size);
      assert next[k] == now[k];
    }
  }

  method ScanMap(descs: seq<Descriptor>) returns (total: u64, largest: u64, largestSize: u64)
    ensures total == TotalPages(descs) * PAGE_SIZE % WORD
    ensures (largest, largestSize) == Largest(descs) && IsLargest(descs, largest, largestSize)
  {
    total, largest, largestSize := 0, 0, 0;
    for i := 0 to |descs|
      invariant total == TotalPages(descs[..i]) * PAGE_SIZE % WORD
      invariant (largest, largestSize) == Largest(descs[..i])
    {
      var desc := descs[i];
      TotalMoves(descs, i);
      assert descs[..i + 1][..i] == descs[..i];
      total := Add64(total, desc.pages * PAGE_SIZE % WORD);
      if desc.kind == CONVENTIONAL {
        if desc.pages * PAGE_SIZE % WORD > largestSize {
          largest := desc.phys;
          largestSize := desc.pages * PAGE_SIZE % WORD;
        }
      }
    }
    assert descs[..|descs|] == descs;
    LargestIsLargest(descs);
  }

  // ----- tiled maps -----

  predicate IsCovered(descs: seq<Descriptor>, p: nat) {
    exists i :: 0 <= i < |descs| && descs[i].Covers(p)
  }

  // Page p belongs to a descriptor that is (or is not) conventional memory.
  predicate CoveredAs(descs: seq<Descriptor>, conventional: bool, p: nat) {
    exists i :: 0 <= i < |descs| && (descs[i].kind == CONVENTIONAL <==> conventional) && descs[i].Covers(p)
  }

  /** The map tiles pages [0, n): page-aligned, disjoint, without a gap, inside 64 bits. */
  ghost predicate Tiles(descs: seq<Descriptor>, n: nat) {
    && n < PAGES && Apart(descs, n)
    && (forall i :: 0 <= i < |descs| ==> descs[i].phys % PAGE_SIZE == 0)
    && (forall p: nat :: p < n ==> IsCovered(descs, p))
  }

  function Covered(descs: seq<Descriptor>): set<nat> {
    if descs == [] then {}
    else
      var d := descs[|descs| - 1];
      Covered(descs[..|descs| - 1]) + Interval(PageOf(d.phys), PageOf(d.phys) + d.pages)
  }

  predicate Between(lo: nat, p: nat, hi: nat) { lo <= p < hi }

  function Interval(lo: nat, hi: nat): set<nat> { set p: nat | p < hi && Between(lo, p, hi) }

  lemma {:induction false} IntervalSize(lo: nat, hi: nat)
    requires lo <= hi
    ensures |Interval(lo, hi)| == hi - lo
  {
    if lo < hi {
      IntervalSize(lo, hi - 1);
      assert Interval(lo, hi) == Interval(lo, hi - 1) + {hi - 1};
    }
  }

  // The descriptors lie below page n and no two of them share a page.
  ghost predicate Apart(descs: seq<Descriptor>, n: nat) {
    && (forall i :: 0 <= i < |descs| ==> PageOf(descs[i].phys) + descs[i].pages <= n)
    && (forall i, j, p: nat :: 0 <= i < j < |descs| && descs[i].Covers(p) ==> !descs[j].Covers(p))
  }

  lemma {:induction false} CoveredMember(descs: seq<Descriptor>, p: nat)
    ensures p in Covered(descs) <==> IsCovered(descs, p)
  {
    if descs != [] {
      CoveredMember(descs[..|descs| - 1], p);
      CoveredSnoc(descs, p);
    }
  }

  lemma {:induction false} CoveredSize(descs: seq<Descriptor>, n: nat)
    requires Apart(descs, n)
    ensures |Covered(descs)| == TotalPages(descs)
  {
    if descs != [] {
      var ds, d := descs[..|descs| - 1], descs[|descs| - 1];
      CoveredSize(ds, n);
      IntervalSize(PageOf(d.phys), PageOf(d.phys) + d.pages);
      forall p | p in Covered(ds) ensures !Between(PageOf(d.phys), p, PageOf(d.phys) + d.pages) {
        CoveredMember(ds, p);
        var i :| 0 <= i < |ds| && ds[i].Covers(p);
        assert descs[i].Covers(p) && !descs[|descs| - 1].Covers(p);
      }
      DisjointSize(Covered(ds), Interval(PageOf(d.phys), PageOf(d.phys) + d.pages), Covered(descs));
    }
  }

  lemma CoveredSnoc(descs: seq<Descriptor>, p: nat)
    requires descs != []
    ensures var ds, d := descs[..|descs| - 1], descs[|descs| - 1];
            && (IsCovered(descs, p) <==> IsCovered(ds, p) || d.Covers(p))
            && (CoveredAs(descs, false, p) <==> CoveredAs(ds, false, p) || (d.kind != CONVENTIONAL && d.Covers(p)))
  {
  }

  lemma DisjointSize(a: set<nat>, b: set<nat>, c: set<nat>)
    requires a !! b && c == a + b
    ensures |c| == |a| + |b|
  {
  }

  /** total_mem_size of a tiled map is the size of the memory it tiles. */
  lemma TotalOfTiles(descs: seq<Descriptor>, n: nat)
    requires Tiles(descs, n)
    ensures TotalPages(descs) == n && TotalPages(descs) * PAGE_SIZE % WORD == n * PAGE_SIZE
  {
    CoveredSize(descs, n);
    IntervalSize(0, n);
    forall p: nat ensures p in Covered(descs) <==> p in Interval(0, n) {
      CoveredMember(descs, p);
      assert p < n ==> IsCovered(descs, p);
    }
    assert Covered(descs) == Interval(0, n);
  }

  // ----- the reservations -----

  // reserve_pages for each descriptor that is not conventional memory.
  function ReserveOps(descs: seq<Descriptor>): seq<Op> {
    if descs == [] then []
    else
      var d := descs[|descs| - 1];
      ReserveOps(descs[..|descs| - 1]) + if d.kind != CONVENTIONAL then RangeOps(Reserve, d.phys, d.pages) else []
  }

  /** What _start needs to know of the machine: the firmware map and the kernel's link addresses. */
  datatype Layout = Layout(descs: seq<Descriptor>, kernelStart: u64, kernelEnd: u64) {
    // The bitmap goes to the start of the largest conventional descriptor.
    function Bitmap(): u64 { Largest(descs).0 }

    function Total(): u64 { TotalPages(descs) * PAGE_SIZE % WORD }

    function BitmapSize(): nat { Total() / PAGE_SIZE / 8 + 1 }

    function StoragePages(): nat { BitmapSize() / PAGE_SIZE + 1 }

    function KernelPages(): nat { Sub64(kernelEnd, kernelStart) / PAGE_SIZE + 1 }

    // Every allocator call of _start before the first req_page.
    function Ops(): seq<Op> {
      RangeOps(Lock, Bitmap(), StoragePages()) + ReserveOps(descs) + RangeOps(Reserve, kernelStart, KernelPages())
    }

    predicate InStorage(p: nat) { (p - PageOf(Bitmap())) % PAGES < StoragePages() }

    predicate InKernel(p: nat) { (p - PageOf(kernelStart)) % PAGES < KernelPages() }

    predicate InReserved(p: nat) { CoveredAs(descs, false, p) }

    // The bitmap's storage ends inside the n pages of RAM and avoids every descriptor that is not
    // conventional memory.
    predicate OffOthers(n: nat) {
      && PageOf(Bitmap()) + StoragePages() <= n
      && forall i :: 0 <= i < |descs| && descs[i].kind != CONVENTIONAL ==>
           descs[i].Avoids(PageOf(Bitmap()), PageOf(Bitmap()) + StoragePages())
    }

    /** The bitmap is placed well: off other memory, and neither of its storage and the kernel image
        starts inside the other. */
    predicate Placed(n: nat) {
      OffOthers(n) && !InStorage(PageOf(kernelStart)) && !InKernel(PageOf(Bitmap()))
    }

    // Page p is conventional RAM outside the kernel image.
    predicate Spare(n: nat, p: nat) { p < n && CoveredAs(descs, true, p) && !InReserved(p) && !InKernel(p) }

    // Page p is conventional memory that neither the bitmap nor the kernel occupies.
    predicate Usable(p: nat) { CoveredAs(descs, true, p) && !InStorage(p) && !InKernel(p) }
  }

  // The allocator right after the bitmap was cleared; bit size * 8 is whatever byte follows it.
  function Cleared(l: Layout, behind: bool): Alloc {
    Alloc(seq(l.BitmapSize() * 8, _ => false) + [behind], l.Total(), 0, 0)
  }

  function Reserved(l: Layout, behind: bool): Alloc { Run(Cleared(l, behind), l.Ops()) }

  lemma {:induction false} NoneCounted(n: nat, l: Label)
    requires l != IsFree
    ensures Count(seq(n, _ => IsFree), l) == 0
  {
    if n > 0 {
      NoneCounted(n - 1, l);
      assert seq(n, _ => IsFree)[..n - 1] == seq(n - 1, _ => IsFree);
    }
  }

  /** With all pages free the cleared allocator is accounted for exactly when the bit behind the
      bitmap, which the clearing does not reach, happens to be clear. */
  lemma ClearedIsAccountedIff(l: Layout, behind: bool)
    ensures Accounted(Cleared(l, behind), seq(l.BitmapSize() * 8 + 1, _ => IsFree)) <==> !behind
  {
    NoneCounted(l.BitmapSize() * 8 + 1, IsUsed);
    NoneCounted(l.BitmapSize() * 8 + 1, IsReserved);
    var a, ls := Cleared(l, behind), seq(l.BitmapSize() * 8 + 1, _ => IsFree);
    assert a.bits[l.BitmapSize() * 8] == behind && ls[l.BitmapSize() * 8] == IsFree;
  }

  lemma PagesAppend(xs: seq<Op>, ys: seq<Op>)
    ensures Pages(xs + ys) == Pages(xs) + Pages(ys)
  {
    var zs := xs + ys;
    forall p | p in Pages(xs) ensures p in Pages(zs) {
      var k :| 0 <= k < |xs| && xs[k].On? && PageOf(xs[k].addr) == p;
      assert zs[k] == xs[k];
    }
    forall p | p in Pages(ys) ensures p in Pages(zs) {
      var k :| 0 <= k < |ys| && ys[k].On? && PageOf(ys[k].addr) == p;
      assert zs[|xs| + k] == ys[k];
    }
    forall p | p in Pages(zs) ensures p in Pages(xs) + Pages(ys) {
      var k :| 0 <= k < |zs| && zs[k].On? && PageOf(zs[k].addr) == p;
      if k < |xs| { assert xs[k] == zs[k]; } else { assert ys[k - |xs|] == zs[k]; }
    }
  }

  lemma {:induction false} ReserveOpsKind(descs: seq<Descriptor>)
    ensures AllOf(ReserveOps(descs), {Reserve})
  {
    if descs != [] {
      ReserveOpsKind(descs[..|descs| - 1]);
    }
  }

  lemma {:induction false} ReserveOpsPages(descs: seq<Descriptor>, p: nat)
    requires p < PAGES && forall i :: 0 <= i < |descs| ==> PageOf(descs[i].phys) + descs[i].pages <= PAGES
    ensures p in Pages(ReserveOps(descs)) <==> CoveredAs(descs, false, p)
  {
    if descs != [] {
      var ds, d := descs[..|descs| - 1], descs[|descs| - 1];
      ReserveOpsPages(ds, p);
      CoveredSnoc(descs, p);
      if d.kind != CONVENTIONAL {
        PagesAppend(ReserveOps(ds), RangeOps(Reserve, d.phys, d.pages));
        PagesOfRange(Reserve, d.phys, d.pages, p);
        OffsetInside(PageOf(d.phys), d.pages, p);
      } else {
        assert ReserveOps(ds) + [] == ReserveOps(ds);
      }
    }
  }

  lemma OffsetInside(lo: nat, k: nat, p: nat)
    requires lo + k <= PAGES && p < PAGES && lo < PAGES
    ensures (p - lo) % PAGES < k <==> lo <= p < lo + k
  {
  }

  lemma OpsPages(l: Layout, p: nat)
    requires p < PAGES && forall i :: 0 <= i < |l.descs| ==> PageOf(l.descs[i].phys) + l.descs[i].pages <= PAGES
    ensures p in Pages(l.Ops()) <==> l.InStorage(p) || l.InReserved(p) || l.InKernel(p)
  {
    StorageOps(l, p);
    ReserveOpsPages(l.descs, p);
    KernelOps(l, p);
    PagesOfThree(RangeOps(Lock, l.Bitmap(), l.StoragePages()), ReserveOps(l.descs),
                 RangeOps(Reserve, l.kernelStart, l.KernelPages()));
  }

  lemma StorageOps(l: Layout, p: nat)
    requires p < PAGES
    ensures p in Pages(RangeOps(Lock, l.Bitmap(), l.StoragePages())) <==> l.InStorage(p)
  {
    PagesOfRange(Lock, l.Bitmap(), l.StoragePages(), p);
  }

  lemma KernelOps(l: Layout, p: nat)
    requires p < PAGES
    ensures p in Pages(RangeOps(Reserve, l.kernelStart, l.KernelPages())) <==> l.InKernel(p)
  {
    PagesOfRange(Reserve, l.kernelStart, l.KernelPages(), p);
  }

  lemma PagesOfThree(x: seq<Op>, y: seq<Op>, z: seq<Op>)
    ensures Pages(x + y + z) == Pages(x) + Pages(y) + Pages(z)
  {
    PagesAppend(x, y);
    PagesAppend(x + y, z);
  }

  lemma OpsKind(l: Layout)
    ensures AllOf(l.Ops(), {Lock, Reserve})
  {
    ReserveOpsKind(l.descs);
  }

  // ----- the place of the bitmap -----

  // Two circular ranges share a page exactly when one of them starts in the other.
  lemma CircleMeets(a: nat, k: nat, s: nat, m: nat, p: nat)
    requires a < PAGES && s < PAGES && p < PAGES && (p - a) % PAGES < k && (p - s) % PAGES < m
    ensures (s - a) % PAGES < k || (a - s) % PAGES < m
  {
    CircleDistance(a, p);
    CircleDistance(s, p);
    CircleDistance(a, s);
    CircleDistance(s, a);
  }

  lemma CircleDistance(a: nat, p: nat)
    requires a < PAGES && p < PAGES
    ensures (p - a) % PAGES == if a <= p then p - a else p - a + PAGES
  {
    DivModUnique(p - a, PAGES, if a <= p then 0 else -1, if a <= p then p - a else p - a + PAGES);
  }

  lemma StorageIsSpare(l: Layout, n: nat, p: nat)
    requires Tiles(l.descs, n) && l.Placed(n) && p < PAGES && l.InStorage(p)
    ensures l.Spare(n, p)
  {
    var lo := PageOf(l.Bitmap());
    CircleDistance(lo, p);
    assert lo <= p < lo + l.StoragePages();
    assert IsCovered(l.descs, p);
    OneCover(l.descs, n, p);
    if l.InKernel(p) {
      CircleMeets(lo, l.StoragePages(), PageOf(l.kernelStart), l.KernelPages(), p);
    }
  }

  lemma PlacedWhenSpare(l: Layout, n: nat)
    requires Tiles(l.descs, n) && forall p: nat :: p < PAGES && l.InStorage(p) ==> l.Spare(n, p)
    ensures l.Placed(n)
  {
    var lo, k := PageOf(l.Bitmap()), l.StoragePages();
    CircleDistance(lo, lo);
    assert l.InStorage(lo) && l.Spare(n, lo);
    CircleDistance(lo, n);
    assert !l.Spare(n, n) && !l.InStorage(n);
    forall i | 0 <= i < |l.descs| && l.descs[i].kind != CONVENTIONAL
      ensures l.descs[i].Avoids(lo, lo + k)
    {
      var d := l.descs[i];
      var p := if PageOf(d.phys) <= lo then lo else PageOf(d.phys);
      CircleDistance(lo, p);
      assert d.Covers(p) ==> l.InReserved(p);
      assert l.InStorage(p) ==> !d.Covers(p);
    }
    var s := PageOf(l.kernelStart);
    CircleDistance(s, s);
    assert l.InKernel(s) && !l.Spare(n, s);
  }

  // The page of byte b behind the start of the bitmap.
  function StoragePage(l: Layout, b: nat): nat { PageOf((l.Bitmap() + b) % WORD) }

  lemma StorageByte(l: Layout, b: nat)
    requires l.Bitmap() % PAGE_SIZE == 0
    ensures StoragePage(l, b) == (PageOf(l.Bitmap()) + b / PAGE_SIZE) % PAGES
  {
    var a, q := l.Bitmap(), b / PAGE_SIZE;
    var lo := a / PAGE_SIZE;
    var k, r := (lo + q) / PAGES, (lo + q) % PAGES;
    DivModUnique(a + b, WORD, k, r * PAGE_SIZE + b % PAGE_SIZE);
    DivModUnique(r * PAGE_SIZE + b % PAGE_SIZE, PAGE_SIZE, r, b % PAGE_SIZE);
  }

  lemma BytesAreStorage(l: Layout, b: nat)
    requires l.Bitmap() % PAGE_SIZE == 0 && b <= l.BitmapSize()
    ensures StoragePage(l, b) < PAGES && l.InStorage(StoragePage(l, b))
  {
    StorageByte(l, b);
    OffsetAtMost(PageOf(l.Bitmap()), b / PAGE_SIZE);
  }

  lemma StorageIsBytes(l: Layout, p: nat) returns (b: nat)
    requires l.Bitmap() % PAGE_SIZE == 0 && p < PAGES && l.InStorage(p)
    ensures b <= l.BitmapSize() && StoragePage(l, b) == p
  {
    b := (p - PageOf(l.Bitmap())) % PAGES * PAGE_SIZE;
    StorageByte(l, b);
    OffsetReaches(PageOf(l.Bitmap()), p);
  }

  /** The storage is the pages of the bitmap's bytes and of the byte behind it. */
  lemma StorageIff(l: Layout, n: nat, p: nat)
    requires Tiles(l.descs, n) && p < PAGES
    ensures l.InStorage(p) <==> exists b: nat :: b <= n / 8 + 1 && StoragePage(l, b) == p
  {
    BitmapAligned(l, n);
    TotalOfTiles(l.descs, n);
    if l.InStorage(p) {
      var b := StorageIsBytes(l, p);
    }
    if b: nat :| b <= n / 8 + 1 && StoragePage(l, b) == p {
      BytesAreStorage(l, b);
    }
  }

  /** The kernel's pages are those of its image and of the address behind it. */
  lemma KernelIff(l: Layout, p: nat)
    requires l.kernelStart % 0x1000 == 0 && l.kernelStart <= l.kernelEnd && p < PAGES
    ensures l.InKernel(p) <==> exists a :: l.kernelStart <= a <= l.kernelEnd && OnPage(a, p)
  {
    SmallMod(l.kernelEnd - l.kernelStart, WORD);
    CircleDistance(PageOf(l.kernelStart), p);
    PagesOfBytes(l.kernelStart, l.kernelEnd - l.kernelStart, p);
  }

  lemma BitmapAligned(l: Layout, n: nat)
    requires Tiles(l.descs, n)
    ensures l.Bitmap() % PAGE_SIZE == 0
  {
    LargestIsLargest(l.descs);
  }

  /** _start clears the bitmap in the memory it has just read the firmware map from. Every byte of the
      bitmap, and the byte behind it that the bound check lets through, lies on conventional RAM
      outside the kernel image exactly when the bitmap is placed well. */
  lemma BitmapSparesMemoryIff(l: Layout, n: nat)
    requires Tiles(l.descs, n)
    ensures l.Placed(n) <==> forall b: nat :: b <= l.BitmapSize() ==> l.Spare(n, StoragePage(l, b))
  {
    BitmapAligned(l, n);
    if l.Placed(n) {
      forall b: nat | b <= l.BitmapSize() ensures l.Spare(n, StoragePage(l, b)) {
        BytesAreStorage(l, b);
        StorageIsSpare(l, n, StoragePage(l, b));
      }
    }
    if forall b: nat :: b <= l.BitmapSize() ==> l.Spare(n, StoragePage(l, b)) {
      forall p: nat | p < PAGES && l.InStorage(p) ensures l.Spare(n, p) {
        var b := StorageIsBytes(l, p);
      }
      PlacedWhenSpare(l, n);
    }
  }

  /** When no conventional descriptor follows the picked one, the storage avoids all other memory
      exactly when a descriptor was picked and the storage fits into it. */
  lemma FitsPickedIff(l: Layout, n: nat)
    requires Tiles(l.descs, n)
    requires forall i :: 0 <= i < |l.descs| && l.descs[i].kind == CONVENTIONAL && l.descs[i].pages > 0 ==>
               PageOf(l.descs[i].phys) != PageOf(l.Bitmap()) + Largest(l.descs).1 / PAGE_SIZE
    ensures l.OffOthers(n) <==> 0 < Largest(l.descs).1 && l.StoragePages() * PAGE_SIZE <= Largest(l.descs).1
  {
    var size := Largest(l.descs).1;
    LargestIsLargest(l.descs);
    if size == 0 {
      NothingPicked(l, n);
    } else {
      var i :| 0 <= i < |l.descs| && l.descs[i].kind == CONVENTIONAL && l.descs[i].phys == l.Bitmap()
               && l.descs[i].Bytes() == size;
      BytesOf(l.descs[i], n);
      DivModUnique(size, PAGE_SIZE, l.descs[i].pages, 0);
      PickedFitsIff(l, n, i);
    }
  }

  lemma PickedFitsIff(l: Layout, n: nat, i: nat)
    requires Tiles(l.descs, n) && i < |l.descs| && l.descs[i].kind == CONVENTIONAL && l.descs[i].phys == l.Bitmap()
    requires 0 < l.descs[i].pages
    requires forall j :: 0 <= j < |l.descs| && l.descs[j].kind == CONVENTIONAL && l.descs[j].pages > 0 ==>
               PageOf(l.descs[j].phys) != PageOf(l.Bitmap()) + l.descs[i].pages
    ensures l.OffOthers(n) <==> l.StoragePages() <= l.descs[i].pages
  {
    if l.StoragePages() <= l.descs[i].pages {
      InsideIsOff(l, n, i);
    } else {
      BeyondIsNotOff(l, n, i);
    }
  }

  lemma NothingPicked(l: Layout, n: nat)
    requires Tiles(l.descs, n) && IsLargest(l.descs, l.Bitmap(), 0)
    ensures !l.OffOthers(n)
  {
    forall j | 0 <= j < |l.descs| && l.descs[j].kind == CONVENTIONAL ensures l.descs[j].pages == 0 {
      BytesOf(l.descs[j], n);
    }
    if l.OffOthers(n) {
      assert IsCovered(l.descs, 0);
      var j :| 0 <= j < |l.descs| && l.descs[j].Covers(0);
    }
  }

  lemma BytesOf(d: Descriptor, n: nat)
    requires n < PAGES && PageOf(d.phys) + d.pages <= n
    ensures d.Bytes() == d.pages * PAGE_SIZE
  {
  }

  lemma InsideIsOff(l: Layout, n: nat, i: nat)
    requires Tiles(l.descs, n) && i < |l.descs| && l.descs[i].kind == CONVENTIONAL && l.descs[i].phys == l.Bitmap()
    requires l.StoragePages() <= l.descs[i].pages
    ensures l.OffOthers(n)
  {
    var lo := PageOf(l.Bitmap());
    forall j | 0 <= j < |l.descs| && l.descs[j].kind != CONVENTIONAL
      ensures l.descs[j].Avoids(lo, lo + l.StoragePages())
    {
      var p := if PageOf(l.descs[j].phys) <= lo then lo else PageOf(l.descs[j].phys);
      NotBoth(l.descs, n, i, j, p);
    }
  }

  lemma NotBoth(descs: seq<Descriptor>, n: nat, i: nat, j: nat, p: nat)
    requires Apart(descs, n) && i < |descs| && j < |descs| && i != j
    ensures !(descs[i].Covers(p) && descs[j].Covers(p))
  {
  }

  // Behind the picked descriptor i comes memory of another kind, or the end of RAM.
  lemma BeyondIsNotOff(l: Layout, n: nat, i: nat)
    requires Tiles(l.descs, n) && i < |l.descs| && l.descs[i].kind == CONVENTIONAL && l.descs[i].phys == l.Bitmap()
    requires 0 < l.descs[i].pages < l.StoragePages()
    requires forall j :: 0 <= j < |l.descs| && l.descs[j].kind == CONVENTIONAL && l.descs[j].pages > 0 ==>
               PageOf(l.descs[j].phys) != PageOf(l.Bitmap()) + l.descs[i].pages
    ensures !l.OffOthers(n)
  {
    var end := PageOf(l.Bitmap()) + l.descs[i].pages;
    if end < n {
      assert IsCovered(l.descs, end);
      var j :| 0 <= j < |l.descs| && l.descs[j].Covers(end);
      NotBoth(l.descs, n, i, j, end - 1);
      assert l.descs[j].kind != CONVENTIONAL;
      assert !l.descs[j].Avoids(PageOf(l.Bitmap()), PageOf(l.Bitmap()) + l.StoragePages());
    }
  }

  /** After the reservation loops of a tiled map, on which the bitmap is placed well, a RAM page is
      clear in the bitmap exactly when it is conventional memory outside the bitmap's storage and the
      kernel image; and of storage, reserved memory and kernel the storage meets neither other. */
  lemma ClearIffUsable(l: Layout, behind: bool, n: nat, p: nat)
    requires Tiles(l.descs, n) && l.Placed(n) && p < n
    ensures Reserved(l, behind).IsClear(p) <==> l.Usable(p)
    ensures l.InStorage(p) ==> !l.InReserved(p) && !l.InKernel(p)
  {
    MarkedIffNamed(l, behind, n, p);
    OneCover(l.descs, n, p);
    if l.InStorage(p) { StorageIsSpare(l, n, p); }
  }

  lemma MarkedIffNamed(l: Layout, behind: bool, n: nat, p: nat)
    requires Tiles(l.descs, n) && p < n
    ensures Reserved(l, behind).IsClear(p) <==> !(l.InStorage(p) || l.InReserved(p) || l.InKernel(p))
  {
    TotalOfTiles(l.descs, n);
    assert l.BitmapSize() == n / 8 + 1 && p < l.BitmapSize() * 8;
    var a := Cleared(l, behind);
    OpsPages(l, p);
    OpsKind(l);
    MarkingSets(a, l.Ops());
    RunKeepsLength(a, l.Ops());
    assert p in SetPages(Reserved(l, behind)) <==> p in Pages(l.Ops());
  }

  // One conventional page, and behind it 40000 pages of the loader's data.
  const OVERRUN: Layout := Layout([Descriptor(7, 0, 1), Descriptor(2, 4096, 40000)], 4096, 8191)

  /** The bitmap of this machine takes 5001 bytes, which do not fit into the only free page: clearing
      it destroys a page of the loader's data. */
  lemma BitmapOverruns()
    ensures Tiles(OVERRUN.descs, 40001) && !OVERRUN.Placed(40001)
    ensures OVERRUN.InReserved(StoragePage(OVERRUN, 4096)) && 4096 < OVERRUN.BitmapSize()
  {
    var d := OVERRUN.descs;
    assert d[0] == Descriptor(7, 0, 1) && d[1] == Descriptor(2, 4096, 40000);
    forall p: nat | p < 40001 ensures IsCovered(d, p) { assert d[if p == 0 then 0 else 1].Covers(p); }
    TotalOfTiles(d, 40001);
    assert d[..1] == [d[0]] && d[..1][..0] == [];
    assert Largest(d[..1]) == (0, 4096);
    StorageByte(OVERRUN, 4096);
    assert d[1].Covers(1) && !d[1].Avoids(0, 2);
  }

  /** That page is the kernel image. */
  lemma KernelCleared()
    ensures Tiles(OVERRUN.descs, 40001) && OVERRUN.InKernel(StoragePage(OVERRUN, 4096))
  {
    BitmapOverruns();
    assert OVERRUN.descs[..1] == [OVERRUN.descs[0]] && OVERRUN.descs[..1][..0] == [];
    assert Largest(OVERRUN.descs[..1]) == (0, 4096);
    StorageByte(OVERRUN, 4096);
  }

  lemma OneCover(descs: seq<Descriptor>, n: nat, p: nat)
    requires Tiles(descs, n) && p < n
    ensures CoveredAs(descs, false, p) <==> !CoveredAs(descs, true, p)
  {
    assert IsCovered(descs, p);
    var i :| 0 <= i < |descs| && descs[i].Covers(p);
    forall j | 0 <= j < |descs| && descs[j].Covers(p) ensures j == i { }
  }

  /** From then on, as long as only usable pages are given back, the allocator hands out usable
      RAM pages while one is left: the search is lowest-first, so the bits behind RAM come last. */
  lemma RequestsAreUsable(l: Layout, behind: bool, n: nat, ops: seq<Op>)
    requires Tiles(l.descs, n) && l.Placed(n)
    requires forall k: nat, p: nat :: k < |ops| && p < n && GivesBack(ops[k], p) ==> l.Usable(p)
    ensures var a := Run(Reserved(l, behind), ops);
            && (forall p: nat :: p < n && a.IsClear(p) ==> l.Usable(p))
            && ((exists p: nat :: p < n && a.IsClear(p)) ==>
                  Found(a).Some? && Found(a).value < n && l.Usable(Found(a).value))
  {
    TotalOfTiles(l.descs, n);
    var a := Run(Reserved(l, behind), ops);
    RunKeepsLength(Cleared(l, behind), l.Ops());
    RunKeepsLength(Reserved(l, behind), ops);
    forall p: nat | p < n && a.IsClear(p) ensures l.Usable(p) { ClearStaysUsable(l, behind, n, ops, p); }
    if p: nat :| p < n && a.IsClear(p) {
      assert Found(a).Some? && Found(a).value <= p;
      assert a.IsClear(Found(a).value);
    }
  }

  lemma {:induction false} ClearStaysUsable(l: Layout, behind: bool, n: nat, ops: seq<Op>, p: nat)
    requires Tiles(l.descs, n) && l.Placed(n) && p < n
    requires forall k :: 0 <= k < |ops| && GivesBack(ops[k], p) ==> l.Usable(p)
    requires Run(Reserved(l, behind), ops).IsClear(p)
    ensures l.Usable(p)
  {
    if ops == [] {
      ClearIffUsable(l, behind, n, p);
    } else {
      var ops', op := ops[..|ops| - 1], ops[|ops| - 1];
      if !GivesBack(op, p) {
        ClearBefore(Run(Reserved(l, behind), ops'), op, p);
        ClearStaysUsable(l, behind, n, ops', p);
      }
    }
  }

  lemma ClearBefore(a: Alloc, op: Op, p: nat)
    requires Step(a, op).IsClear(p) && !GivesBack(op, p)
    ensures a.IsClear(p)
  {
    StepKeepsLength(a, op);
  }
}
