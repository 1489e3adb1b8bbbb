/** boot/kernel/paging.c, lines 6 to 76: the page-frame allocator over the bitmap. */
module Allocator {
  import opened Machine
  import opened Bitmaps

  /** The value of a PAGE_BITMAP: the visible bits and the three byte counters. */
  datatype Alloc = Alloc(bits: seq<bool>, free: u64, used: u64, reserved: u64) {
    predicate IsSet(i: nat) { i < |bits| && bits[i] }

    predicate IsClear(i: nat) { i < |bits| && !bits[i] }

    // req_page scans only the bits below size * 8.
    function Limit(): nat { if |bits| == 0 then 0 else |bits| - 1 }
  }

  datatype Kind = Lock | Reserve | Free | Unreserve

  function WriteBit(bits: seq<bool>, i: nat, v: bool): seq<bool> {
    if i < |bits| then bits[i := v] else bits
  }

  // lock_page, reserve_page, free_page and unreserve_page on page i. A page behind the
  // bitmap reads as clear and cannot be set, but the counters move.
  function Mark(a: Alloc, k: Kind, i: nat): Alloc {
    match k
    case Lock =>
      if a.IsSet(i) then a
      else a.(bits := WriteBit(a.bits, i, true), free := Sub64(a.free, PAGE_SIZE), used := Add64(a.used, PAGE_SIZE))
    case Reserve =>
      if a.IsSet(i) then a
      else a.(bits := WriteBit(a.bits, i, true), free := Sub64(a.free, PAGE_SIZE),
              reserved := Add64(a.reserved, PAGE_SIZE))
    case Free =>
      if a.IsSet(i)
      then a.(bits := WriteBit(a.bits, i, false), free := Add64(a.free, PAGE_SIZE), used := Sub64(a.used, PAGE_SIZE))
      else a
    case Unreserve =>
      if a.IsSet(i)
      then a.(bits := WriteBit(a.bits, i, false), free := Add64(a.free, PAGE_SIZE),
              reserved := Sub64(a.reserved, PAGE_SIZE))
      else a
  }

  // The first clear bit at or above i and below limit, if there is one.
  function FirstClear(bits: seq<bool>, i: nat, limit: nat): (r: Option<nat>)
    requires i <= limit <= |bits|
    ensures r.Some? ==> i <= r.value < limit && !bits[r.value]
    ensures r.Some? ==> forall j :: i <= j < r.value ==> bits[j]
    ensures r.None? ==> forall j :: i <= j < limit ==> bits[j]
    decreases limit - i
  {
    if i == limit then None
    else if bits[i] then FirstClear(bits, i + 1, limit)
    else Some(i)
  }

  // The page req_page finds, and the allocator it leaves behind.
  function Found(a: Alloc): Option<nat> { FirstClear(a.bits, 0, a.Limit()) }

  function Requested(a: Alloc): Alloc {
    match Found(a)
    case None => a
    case Some(i) => Mark(a, Lock, i)
  }

  /** The page found is the least clear one, the last bit apart, and then that bit alone is set. */
  lemma FoundIsLeast(a: Alloc, i: nat)
    requires a.bits != []
    ensures Found(a) == Some(i) <==>
              i < |a.bits| - 1 && !a.bits[i] && forall j :: 0 <= j < i ==> a.bits[j]
    ensures Found(a) == Some(i) ==> Requested(a).bits == a.bits[i := true]
    ensures Found(a).None? ==> Requested(a) == a
  {
    if i < |a.bits| - 1 && !a.bits[i] && forall j :: 0 <= j < i ==> a.bits[j] {
      assert Found(a).Some? && Found(a).value <= i;
    }
  }

  /** One call on the allocator, and a run of calls. A range call is a run of single calls. */
  datatype Op = Request | On(kind: Kind, addr: u64)

  function Step(a: Alloc, op: Op): Alloc {
    match op
    case Request => Requested(a)
    case On(k, addr) => Mark(a, k, PageOf(addr))
  }

  function Run(a: Alloc, ops: seq<Op>): Alloc {
    if ops == [] then a else Step(Run(a, ops[..|ops| - 1]), ops[|ops| - 1])
  }

  function RangeOps(k: Kind, addr: u64, n: nat): (ops: seq<Op>)
    ensures |ops| == n
    ensures forall i :: 0 <= i < n ==> ops[i] == On(k, PageAddr(addr, i))
  {
    seq(n, i requires 0 <= i < n => On(k, PageAddr(addr, i)))
  }

  lemma RunSnoc(a: Alloc, ops: seq<Op>, op: Op)
    ensures Run(a, ops + [op]) == Step(Run(a, ops), op)
  {
    assert (ops + [op])[..|ops|] == ops;
  }

  lemma {:induction false} RunAppend(a: Alloc, xs: seq<Op>, ys: seq<Op>)
    ensures Run(a, xs + ys) == Run(Run(a, xs), ys)
    decreases |ys|
  {
    if ys == [] {
      assert xs + ys == xs;
    } else {
      var ys' := ys[..|ys| - 1];
      RunAppend(a, xs, ys');
      AppendSnoc(xs, ys);
      RunSnoc(a, xs + ys', ys[|ys| - 1]);
    }
  }

  // Nothing clear below i.
  predicate Scanned(a: Alloc, i: nat) { i <= a.Limit() && Found(a) == FirstClear(a.bits, i, a.Limit()) }

  lemma ScanStep(a: Alloc, i: nat)
    requires Scanned(a, i) && i < a.Limit()
    ensures if a.bits[i] then Scanned(a, i + 1) else Found(a) == Some(i)
  {
  }

  // Locking the address of the page that was found is what req_page does.
  lemma LockFound(a: Alloc, i: nat)
    requires Found(a) == Some(i) && i < PAGES
    ensures i * PAGE_SIZE < WORD && Step(a, On(Lock, i * PAGE_SIZE)) == Requested(a)
  {
    PageOfMultiple(i);
  }

  lemma RangeOpsSnoc(k: Kind, addr: u64, n: nat)
    ensures RangeOps(k, addr, n + 1) == RangeOps(k, addr, n) + [On(k, PageAddr(addr, n))]
  {
  }

  lemma StepKeepsLength(a: Alloc, op: Op)
    ensures |Step(a, op).bits| == |a.bits|
  {
  }

  lemma {:induction false} RunKeepsLength(a: Alloc, ops: seq<Op>)
    ensures |Run(a, ops).bits| == |a.bits|
  {
    if ops != [] {
      RunKeepsLength(a, ops[..|ops| - 1]);
    }
  }

  /** The PAGE_BITMAP structure and the functions that work on it. */
  class PageBitmap {
    const bitmap: Bitmap
    var free: u64
    var reserved: u64
    var used: u64

    constructor ()
      ensures Valid() && fresh(bitmap) && fresh(bitmap.buffer)
      ensures free == reserved == used == 0
    {
      bitmap := new Bitmap();
      free, reserved, used := 0, 0, 0;
    }

    // The assignments of _start: the bitmap moves to `buffer`, and its `size` bytes are cleared.
    method Place(buffer: array<bv8>, size: nat, total: u64)
      requires buffer.Length == size + 1 && size * 8 <= PAGES
      modifies this, bitmap, buffer
      ensures Valid() && bitmap.buffer == buffer
      ensures used == old(used) && reserved == old(reserved) && free == total
      ensures View().bits == seq(size * 8, _ => false) + [Bit(old(buffer[size]), 0)]
    {
      free := total;
      bitmap.size := size;
      bitmap.buffer := buffer;
      for i := 0 to size
        modifies buffer
        invariant forall j :: 0 <= j < i ==> buffer[j] == 0
        invariant buffer[size] == old(buffer[size])
      {
        buffer[i] := 0;
      }
      assert View().bits == seq(size * 8, _ => false) + [Bit(buffer[size], 0)] by {
        forall i | 0 <= i < size * 8 ensures !View().bits[i] {
          assert View().bits[i] == Bit(buffer[i / 8], i % 8) && buffer[i / 8] == 0;
        }
      }
    }

    // size is total_mem_size / PAGE_SIZE / 8 + 1, so the scanned pages have 64-bit addresses.
    ghost predicate Valid()
      reads this, bitmap
    {
      bitmap.Valid() && bitmap.size * 8 <= PAGES
    }

    ghost function View(): (a: Alloc)
      requires Valid()
      reads this, bitmap, bitmap.buffer
      ensures |a.bits| == bitmap.size * 8 + 1
    {
      Alloc(bitmap.Bits(), free, used, reserved)
    }

    method FreePage(addr: u64)
      requires Valid()
      modifies this, bitmap.buffer
      ensures Valid() && View() == Step(old(View()), On(Free, addr))
    {
      ghost var a := View();
      var i := PageOf(addr);
      var taken := bitmap.Get(i);
      if taken {
        var _ := bitmap.Set(i, false);
        assert bitmap.Bits() == WriteBit(a.bits, i, false);
        free := Add64(free, PAGE_SIZE);
        used := Sub64(used, PAGE_SIZE);
      }
    }

    method LockPage(addr: u64)
      requires Valid()
      modifies this, bitmap.buffer
      ensures Valid() && View() == Step(old(View()), On(Lock, addr))
    {
      ghost var a := View();
      var i := PageOf(addr);
      var taken := bitmap.Get(i);
      if !taken {
        var _ := bitmap.Set(i, true);
        assert bitmap.Bits() == WriteBit(a.bits, i, true);
        free := Sub64(free, PAGE_SIZE);
        used := Add64(used, PAGE_SIZE);
      }
    }

    method UnreservePage(addr: u64)
      requires Valid()
      modifies this, bitmap.buffer
      ensures Valid() && View() == Step(old(View()), On(Unreserve, addr))
    {
      ghost var a := View();
      var i := PageOf(addr);
      var taken := bitmap.Get(i);
      if taken {
        var _ := bitmap.Set(i, false);
        assert bitmap.Bits() == WriteBit(a.bits, i, false);
        free := Add64(free, PAGE_SIZE);
        reserved := Sub64(reserved, PAGE_SIZE);
      }
    }

    method ReservePage(addr: u64)
      requires Valid()
      modifies this, bitmap.buffer
      ensures Valid() && View() == Step(old(View()), On(Reserve, addr))
    {
      ghost var a := View();
      var i := PageOf(addr);
      var taken := bitmap.Get(i);
      if !taken {
        var _ := bitmap.Set(i, true);
        assert bitmap.Bits() == WriteBit(a.bits, i, true);
        free := Sub64(free, PAGE_SIZE);
        reserved := Add64(reserved, PAGE_SIZE);
      }
    }

    method FreePages(addr: u64, pageCnt: nat)
      requires Valid()
      modifies this, bitmap.buffer
      ensures Valid() && View() == Run(old(View()), RangeOps(Free, addr, pageCnt))
    {
      for i := 0 to pageCnt
        invariant Valid() && View() == Run(old(View()), RangeOps(Free, addr, i))
      {
        RangeOpsSnoc(Free, addr, i);
        RunSnoc(old(View()), RangeOps(Free, addr, i), On(Free, PageAddr(addr, i)));
        FreePage(PageAddr(addr, i));
      }
    }

    method LockPages(addr: u64, pageCnt: nat)
      requires Valid()
      modifies this, bitmap.buffer
      ensures Valid() && View() == Run(old(View()), RangeOps(Lock, addr, pageCnt))
    {
      for i := 0 to pageCnt
        invariant Valid() && View() == Run(old(View()), RangeOps(Lock, addr, i))
      {
        RangeOpsSnoc(Lock, addr, i);
        RunSnoc(old(View()), RangeOps(Lock, addr, i), On(Lock, PageAddr(addr, i)));
        LockPage(PageAddr(addr, i));
      }
    }

    method UnreservePages(addr: u64, pageCnt: nat)
      requires Valid()
      modifies this, bitmap.buffer
      ensures Valid() && View() == Run(old(View()), RangeOps(Unreserve, addr, pageCnt))
    {
      for i := 0 to pageCnt
        invariant Valid() && View() == Run(old(View()), RangeOps(Unreserve, addr, i))
      {
        RangeOpsSnoc(Unreserve, addr, i);
        RunSnoc(old(View()), RangeOps(Unreserve, addr, i), On(Unreserve, PageAddr(addr, i)));
        UnreservePage(PageAddr(addr, i));
      }
    }

    method ReservePages(addr: u64, pageCnt: nat)
      requires Valid()
      modifies this, bitmap.buffer
      ensures Valid() && View() == Run(old(View()), RangeOps(Reserve, addr, pageCnt))
    {
      for i := 0 to pageCnt
        invariant Valid() && View() == Run(old(View()), RangeOps(Reserve, addr, i))
      {
        RangeOpsSnoc(Reserve, addr, i);
        RunSnoc(old(View()), RangeOps(Reserve, addr, i), On(Reserve, PageAddr(addr, i)));
        ReservePage(PageAddr(addr, i));
      }
    }

    // NULL stands for page 0 as well as for "nothing found".
    method ReqPage() returns (addr: u64)
      requires Valid()
      modifies this, bitmap.buffer
      ensures Valid() && View() == Requested(old(View()))
      ensures addr == match Found(old(View())) case None => 0 case Some(i) => i * PAGE_SIZE
    {
      ghost var a := View();
      var limit := bitmap.size * 8;
      for i := 0 to limit
        invariant Valid() && View() == a && Scanned(a, i)
      {
        ScanStep(a, i);
        var taken := bitmap.Get(i);
        if taken {
          continue;
        } else {
          LockFound(a, i);
          LockPage(i * PAGE_SIZE);
          return i * PAGE_SIZE;
        }
      }
      return 0;
    }
  }
}
