/** boot/efi/bootloader.c, lines 415 to 443: the PT_LOAD segments of the kernel file are copied to
    their physical addresses, in pages that the firmware hands over one segment at a time. */
module Loader {
  import opened Machine

  const PT_LOAD: nat := 1

  datatype Phdr = Phdr(kind: nat, offset: u64, paddr: u64, filesz: u64, memsz: u64) {
    // p_memsz in pages, rounded up; the sum may wrap.
    function PageCount(): nat { (memsz + 0xFFF) % WORD / PAGE_SIZE }

    function Pages(): set<nat> { set p: nat | p < PageOf(paddr) + PageCount() && From(p) }

    predicate From(p: nat) { PageOf(paddr) <= p }

    // The segment's bytes in the file lie inside the image and inside the pages asked for.
    predicate WellFormed(size: nat) {
      kind == PT_LOAD ==>
        paddr % 0x1000 == 0 && offset + filesz <= size && filesz <= (memsz + 0xFFF) % WORD / 0x1000 * 0x1000
    }

    // Some byte of the segment in memory, [p_paddr, p_paddr + p_memsz), lies on page p.
    ghost predicate Touches(p: nat) { exists a: nat :: paddr <= a < paddr + memsz && OnPage(a, p) }

    // Byte address a receives a byte of the file.
    predicate Fills(a: int) { kind == PT_LOAD && paddr <= a < paddr + filesz }

    // Where that byte stands in an image at address kernel.
    function Source(kernel: nat, a: int): int { kernel + offset + (a - paddr) }
  }

  /** The pages asked for are exactly those that the segment touches, when its size can be rounded up. */
  lemma PagesAreTouched(h: Phdr, p: nat)
    requires h.paddr % 0x1000 == 0 && h.memsz + 0xFFF < 0x1_0000_0000_0000_0000
    ensures p in h.Pages() <==> h.Touches(p)
  {
    if p in h.Pages() {
      assert OnPage(p * 0x1000, p);
    }
  }

  /** A segment with p_filesz <= p_memsz always fits its pages exactly when the rounding up of
      p_memsz does not wrap. */
  lemma RoundingIff(memsz: u64)
    ensures memsz <= Phdr(PT_LOAD, 0, 0, 0, memsz).PageCount() * PAGE_SIZE <==> memsz + 0xFFF < WORD
  {
  }

  /** A size whose sum wraps is rounded up to no page at all. */
  lemma RoundedToNothing(h: Phdr)
    requires 0x1_0000_0000_0000_0000 <= h.memsz + 0xFFF
    ensures h.Pages() == {}
  {
  }

  // Pages that the segments before n claim.
  function Claimed(phdrs: seq<Phdr>, n: nat): set<nat>
    requires n <= |phdrs|
  {
    if n == 0 then {}
    else Claimed(phdrs, n - 1) + if phdrs[n - 1].kind == PT_LOAD then phdrs[n - 1].Pages() else {}
  }

  // Each of the first n segments finds its pages free when its turn comes.
  predicate Allocatable(phdrs: seq<Phdr>, n: nat, free: set<nat>)
    requires n <= |phdrs|
  {
    forall i :: 0 <= i < n && phdrs[i].kind == PT_LOAD ==> phdrs[i].Pages() <= free - Claimed(phdrs, i)
  }

  lemma AllocatableNext(phdrs: seq<Phdr>, n: nat, free: set<nat>)
    requires n < |phdrs|
    ensures Allocatable(phdrs, n + 1, free)
            <==> Allocatable(phdrs, n, free)
                 && (phdrs[n].kind == PT_LOAD ==> phdrs[n].Pages() <= free - Claimed(phdrs, n))
    ensures phdrs[n].kind == PT_LOAD ==> free - Claimed(phdrs, n + 1) == free - Claimed(phdrs, n) - phdrs[n].Pages()
    ensures phdrs[n].kind != PT_LOAD ==> free - Claimed(phdrs, n + 1) == free - Claimed(phdrs, n)
  {
  }

  lemma {:induction false} ClaimedMember(phdrs: seq<Phdr>, n: nat, p: nat)
    requires n <= |phdrs|
    ensures p in Claimed(phdrs, n) <==> exists i :: 0 <= i < n && phdrs[i].kind == PT_LOAD && p in phdrs[i].Pages()
  {
    if n > 0 {
      ClaimedMember(phdrs, n - 1, p);
    }
  }

  /** Segments are allocatable exactly when their pages are free at the start and no two segments
      share a page. */
  lemma AllocatableIff(phdrs: seq<Phdr>, n: nat, free: set<nat>)
    requires n <= |phdrs|
    ensures Allocatable(phdrs, n, free)
            <==> && (forall i :: 0 <= i < n && phdrs[i].kind == PT_LOAD ==> phdrs[i].Pages() <= free)
                 && (forall i, j :: 0 <= i < j < n && phdrs[i].kind == PT_LOAD && phdrs[j].kind == PT_LOAD ==>
                       phdrs[i].Pages() !! phdrs[j].Pages())
  {
    forall i, p: nat | 0 <= i < n
      ensures p in Claimed(phdrs, i) <==> exists j :: 0 <= j < i && phdrs[j].kind == PT_LOAD && p in phdrs[j].Pages()
    {
      ClaimedMember(phdrs, i, p);
    }
    if Allocatable(phdrs, n, free) {
      forall i, j | 0 <= i < j < n && phdrs[i].kind == PT_LOAD && phdrs[j].kind == PT_LOAD
        ensures phdrs[i].Pages() !! phdrs[j].Pages()
      {
        forall p | p in phdrs[i].Pages() ensures p !in phdrs[j].Pages() {
          assert p in Claimed(phdrs, j);
        }
      }
    }
  }

  // Each loadable segment's size can be rounded up.
  predicate Roundable(phdrs: seq<Phdr>) {
    forall i :: 0 <= i < |phdrs| && phdrs[i].kind == PT_LOAD ==> phdrs[i].memsz + 0xFFF < 0x1_0000_0000_0000_0000
  }

  // Every page that a loadable segment touches is free, and no two of them touch the same page.
  ghost predicate Loadable(phdrs: seq<Phdr>, free: set<nat>) {
    && (forall i, p: nat :: 0 <= i < |phdrs| && phdrs[i].kind == 1 && phdrs[i].Touches(p) ==> p in free)
    && (forall i, j, p: nat :: 0 <= i < j < |phdrs| && phdrs[i].kind == 1 && phdrs[j].kind == 1 ==>
          !(phdrs[i].Touches(p) && phdrs[j].Touches(p)))
  }

  /** In terms of bytes: the segments are allocatable exactly when they are loadable. */
  lemma AllocatableByBytes(phdrs: seq<Phdr>, size: nat, free: set<nat>)
    requires Roundable(phdrs) && forall i :: 0 <= i < |phdrs| ==> phdrs[i].WellFormed(size)
    ensures Allocatable(phdrs, |phdrs|, free) <==> Loadable(phdrs, free)
  {
    AllocatableIff(phdrs, |phdrs|, free);
    forall i, p: nat | 0 <= i < |phdrs| && phdrs[i].kind == PT_LOAD
      ensures p in phdrs[i].Pages() <==> phdrs[i].Touches(p)
    {
      PagesAreTouched(phdrs[i], p);
    }
  }

  predicate Filled(phdrs: seq<Phdr>, n: nat, a: int)
    requires n <= |phdrs|
  {
    exists i :: 0 <= i < n && phdrs[i].Fills(a)
  }

  // The image lies in memory, and the headers' file ranges inside it.
  predicate InImage(phdrs: seq<Phdr>, kernel: nat, size: nat, length: nat) {
    kernel + size <= length && forall i :: 0 <= i < |phdrs| ==> phdrs[i].WellFormed(size)
  }

  /** Memory after the first n segments: a byte that a segment fills is that segment's byte of the
      image as it was at the start, and every other byte is unchanged. */
  predicate Loaded(before: seq<bv8>, after: seq<bv8>, kernel: nat, size: nat, phdrs: seq<Phdr>, n: nat)
    requires n <= |phdrs| && |after| == |before| && InImage(phdrs, kernel, size, |before|)
  {
    && (forall i, a: nat :: 0 <= i < n && a < |before| && phdrs[i].Fills(a) ==>
          after[a] == before[phdrs[i].Source(kernel, a)])
    && (forall a: nat :: a < |before| && !Filled(phdrs, n, a) ==> after[a] == before[a])
  }

  // Byte address a lies in one of the pages.
  predicate PageIn(a: nat, pages: set<nat>) { a / PAGE_SIZE in pages }

  // No byte of the image lies in a free page.
  predicate ImageKept(kernel: nat, size: nat, free: set<nat>) {
    forall a: nat :: kernel <= a < kernel + size ==> !PageIn(a, free)
  }

  lemma KeptShrinks(kernel: nat, size: nat, free: set<nat>, free': set<nat>)
    requires ImageKept(kernel, size, free) && free' <= free
    ensures ImageKept(kernel, size, free')
  {
    forall a: nat | kernel <= a < kernel + size ensures !PageIn(a, free') { assert !PageIn(a, free); }
  }

  lemma FillsItsPages(h: Phdr, size: nat, a: nat)
    requires h.WellFormed(size) && h.Fills(a)
    ensures PageIn(a, h.Pages())
  {
  }

  // A byte filled by one of the first n segments lies in a claimed page.
  lemma FilledIsClaimed(phdrs: seq<Phdr>, n: nat, size: nat, a: nat)
    requires n <= |phdrs| && (forall i :: 0 <= i < |phdrs| ==> phdrs[i].WellFormed(size)) && Filled(phdrs, n, a)
    ensures PageIn(a, Claimed(phdrs, n))
  {
    var i :| 0 <= i < n && phdrs[i].Fills(a);
    FillsItsPages(phdrs[i], size, a);
    ClaimedMember(phdrs, n, a / PAGE_SIZE);
  }

  // Segment n fills no byte of an earlier segment and no byte outside the pages free at the start.
  lemma FillsOnlyFree(phdrs: seq<Phdr>, n: nat, size: nat, free: set<nat>, a: nat)
    requires n < |phdrs| && (forall i :: 0 <= i < |phdrs| ==> phdrs[i].WellFormed(size)) && phdrs[n].Fills(a)
    requires phdrs[n].Pages() <= free - Claimed(phdrs, n)
    ensures PageIn(a, free) && !Filled(phdrs, n, a)
  {
    FillsItsPages(phdrs[n], size, a);
    if Filled(phdrs, n, a) {
      FilledIsClaimed(phdrs, n, size, a);
    }
  }

  // The bytes that the copy of segment n changes, and how.
  predicate Copied(mid: seq<bv8>, after: seq<bv8>, kernel: nat, size: nat, h: Phdr)
    requires |mid| == |after| && h.WellFormed(size) && kernel + size <= |mid|
  {
    forall a: nat :: a < |mid| ==> after[a] == if h.Fills(a) then mid[h.Source(kernel, a)] else mid[a]
  }

  predicate SameImage(before: seq<bv8>, after: seq<bv8>, kernel: nat, size: nat)
    requires |before| == |after| && kernel + size <= |before|
  {
    forall a: nat :: kernel <= a < kernel + size ==> after[a] == before[a]
  }

  // Copying segment n extends what is loaded and leaves the image alone.
  lemma CopyStep(before: seq<bv8>, mid: seq<bv8>, after: seq<bv8>, kernel: nat, size: nat, phdrs: seq<Phdr>, n: nat,
                 free: set<nat>)
    requires n < |phdrs| && |before| == |mid| == |after| && InImage(phdrs, kernel, size, |before|)
    requires Loaded(before, mid, kernel, size, phdrs, n) && phdrs[n].kind == PT_LOAD
    requires phdrs[n].Pages() <= free - Claimed(phdrs, n)
    requires ImageKept(kernel, size, free) && SameImage(before, mid, kernel, size)
    requires Copied(mid, after, kernel, size, phdrs[n])
    ensures Loaded(before, after, kernel, size, phdrs, n + 1)
    ensures SameImage(before, after, kernel, size)
  {
    NewFills(phdrs, n, size, free, |before|);
    CopyKeepsEarlier(before, mid, after, kernel, size, phdrs, n);
    CopyBringsNew(before, mid, after, kernel, size, phdrs[n]);
    CopyKeepsOthers(before, mid, after, kernel, size, phdrs, n);
    CopyKeepsImage(before, mid, after, kernel, size, phdrs[n], free);
  }

  lemma NewFills(phdrs: seq<Phdr>, n: nat, size: nat, free: set<nat>, length: nat)
    requires n < |phdrs| && forall i :: 0 <= i < |phdrs| ==> phdrs[i].WellFormed(size)
    requires phdrs[n].Pages() <= free - Claimed(phdrs, n)
    ensures forall a: nat :: a < length && phdrs[n].Fills(a) ==> !Filled(phdrs, n, a) && PageIn(a, free)
  {
    forall a: nat | a < length && phdrs[n].Fills(a) ensures !Filled(phdrs, n, a) && PageIn(a, free) {
      FillsOnlyFree(phdrs, n, size, free, a);
    }
  }

  lemma CopyKeepsImage(before: seq<bv8>, mid: seq<bv8>, after: seq<bv8>, kernel: nat, size: nat, h: Phdr,
                       free: set<nat>)
    requires |before| == |mid| == |after| && h.WellFormed(size) && kernel + size <= |before|
    requires Copied(mid, after, kernel, size, h) && SameImage(before, mid, kernel, size)
    requires ImageKept(kernel, size, free) && forall a: nat :: a < |before| && h.Fills(a) ==> PageIn(a, free)
    ensures SameImage(before, after, kernel, size)
  {
  }

  lemma CopyKeepsEarlier(before: seq<bv8>, mid: seq<bv8>, after: seq<bv8>, kernel: nat, size: nat, phdrs: seq<Phdr>,
                         n: nat)
    requires n < |phdrs| && |before| == |mid| == |after| && InImage(phdrs, kernel, size, |before|)
    requires Loaded(before, mid, kernel, size, phdrs, n) && Copied(mid, after, kernel, size, phdrs[n])
    requires forall a: nat :: a < |before| && phdrs[n].Fills(a) ==> !Filled(phdrs, n, a)
    ensures forall i, a: nat :: 0 <= i < n && a < |before| && phdrs[i].Fills(a) ==>
              after[a] == before[phdrs[i].Source(kernel, a)]
  {
  }

  lemma CopyBringsNew(before: seq<bv8>, mid: seq<bv8>, after: seq<bv8>, kernel: nat, size: nat, h: Phdr)
    requires |before| == |mid| == |after| && h.WellFormed(size) && kernel + size <= |before|
    requires Copied(mid, after, kernel, size, h) && SameImage(before, mid, kernel, size)
    ensures forall a: nat :: a < |before| && h.Fills(a) ==> after[a] == before[h.Source(kernel, a)]
  {
  }

  lemma CopyKeepsOthers(before: seq<bv8>, mid: seq<bv8>, after: seq<bv8>, kernel: nat, size: nat, phdrs: seq<Phdr>,
                        n: nat)
    requires n < |phdrs| && |before| == |mid| == |after| && InImage(phdrs, kernel, size, |before|)
    requires Loaded(before, mid, kernel, size, phdrs, n) && Copied(mid, after, kernel, size, phdrs[n])
    ensures forall a: nat :: a < |before| && !Filled(phdrs, n + 1, a) ==> after[a] == before[a]
  {
  }

  /** Memory and the firmware's record of free pages. */
  class Firmware {
    const mem: array<bv8>
    var free: set<nat>

    constructor (mem: array<bv8>, free: set<nat>)
      requires forall p :: p in free ==> (p + 1) * PAGE_SIZE <= mem.Length
      ensures this.mem == mem && this.free == free && Valid()
    {
      this.mem, this.free := mem, free;
    }

    ghost predicate Valid()
      reads this
    {
      forall p :: p in free ==> (p + 1) * PAGE_SIZE <= mem.Length
    }

    // AllocatePages with AllocateAddress: all pages, or none when one of them is not free.
    method AllocatePages(h: Phdr) returns (ok: bool)
      requires Valid()
      modifies this
      ensures Valid() && ok == (h.Pages() <= old(free))
      ensures free == if ok then old(free) - h.Pages() else old(free)
      ensures h.paddr % 0x1000 == 0 && h.memsz + 0xFFF < 0x1_0000_0000_0000_0000 ==>
                && (ok <==> forall p: nat :: h.Touches(p) ==> p in old(free))
                && forall p: nat :: p in free <==> p in old(free) && !(ok && h.Touches(p))
    {
      if h.paddr % 0x1000 == 0 && h.memsz + 0xFFF < 0x1_0000_0000_0000_0000 {
        forall p: nat ensures p in h.Pages() <==> h.Touches(p) { PagesAreTouched(h, p); }
      }
      ok := h.Pages() <= free;
      if ok {
        free := free - h.Pages();
      }
    }

    method Copy(dst: nat, src: nat, n: nat)
      requires dst + n <= mem.Length && src + n <= mem.Length && (dst + n <= src || src + n <= dst)
      modifies mem
      ensures forall a :: 0 <= a < mem.Length ==>
                            mem[a] == if dst <= a < dst + n then old(mem[src + (a - dst)]) else old(mem[a])
    {
      for i := 0 to n
        invariant forall a :: 0 <= a < mem.Length ==>
                                mem[a] == if dst <= a < dst + i then old(mem[src + (a - dst)]) else old(mem[a])
      {
        mem[dst + i] := mem[src + i];
      }
    }

    // The bytes of a segment whose pages were free lie in memory, away from the image.
    lemma Separated(h: Phdr, kernel: nat, size: nat)
      requires Valid() && h.kind == PT_LOAD && h.WellFormed(size) && h.Pages() <= free && kernel + size <= mem.Length
      requires ImageKept(kernel, size, free)
      ensures h.filesz > 0 ==> h.paddr + h.filesz <= mem.Length
      ensures h.filesz > 0 ==>
                h.paddr + h.filesz <= kernel + h.offset || kernel + h.offset + h.filesz <= h.paddr
    {
      forall a: nat | h.Fills(a) ensures PageIn(a, free) && !(kernel <= a < kernel + size) {
        FillsItsPages(h, size, a);
        assert PageIn(a, free);
      }
      assert h.filesz > 0 ==> h.Fills(h.paddr) && h.Fills(h.paddr + h.filesz - 1);
      assert !h.Fills(kernel + h.offset) || h.filesz == 0;
    }

    // One PT_LOAD header whose pages are free: they are taken and the bytes copied.
    method LoadSegment(h: Phdr, kernel: nat, size: nat) returns (ok: bool)
      requires Valid() && h.kind == PT_LOAD && h.WellFormed(size) && kernel + size <= mem.Length
      requires ImageKept(kernel, size, free)
      modifies this, mem
      ensures Valid() && ok == (h.Pages() <= old(free))
      ensures free == if ok then old(free) - h.Pages() else old(free)
      ensures ok ==> Copied(old(mem[..]), mem[..], kernel, size, h)
      ensures !ok ==> mem[..] == old(mem[..])
    {
      if h.Pages() <= free { Separated(h, kernel, size); }
      ok := AllocatePages(h);
      if ok && h.filesz > 0 {
        Copy(h.paddr, kernel + h.offset, h.filesz);
      }
    }

    /** The loop over the program headers. The image lies at [kernel, kernel + size) in pages that
        are not free. The loop ends early, as the original does by hanging, exactly when some segment
        finds one of its pages taken. */
    method LoadSegments(phdrs: seq<Phdr>, kernel: nat, size: nat) returns (ok: bool)
      requires Valid() && InImage(phdrs, kernel, size, mem.Length)
      requires ImageKept(kernel, size, free)
      modifies this, mem
      ensures Valid() && ok == Allocatable(phdrs, |phdrs|, old(free))
      ensures Roundable(phdrs) ==> (ok <==> Loadable(phdrs, old(free)))
      ensures ok ==> Loaded(old(mem[..]), mem[..], kernel, size, phdrs, |phdrs|)
      ensures ok ==> free == old(free) - Claimed(phdrs, |phdrs|)
      ensures SameImage(old(mem[..]), mem[..], kernel, size)
    {
      ghost var before, taken := mem[..], free;
      if Roundable(phdrs) { AllocatableByBytes(phdrs, size, free); }
      for n := 0 to |phdrs|
        invariant Valid() && Progress(before, mem[..], kernel, size, phdrs, n, taken, free)
      {
        ghost var mid, left := mem[..], free;
        KeptShrinks(kernel, size, taken, free);
        if phdrs[n].kind == PT_LOAD {
          var done := LoadSegment(phdrs[n], kernel, size);
          if !done {
            assert phdrs[n].kind == PT_LOAD && !(phdrs[n].Pages() <= taken - Claimed(phdrs, n));
            return false;
          }
          ProgressLoad(before, mid, mem[..], kernel, size, phdrs, n, taken, left, free);
        } else {
          ProgressSkip(before, mid, kernel, size, phdrs, n, taken, free);
        }
      }
      ok := true;
    }
  }

  // What holds before header n is looked at.
  ghost predicate Progress(before: seq<bv8>, now: seq<bv8>, kernel: nat, size: nat, phdrs: seq<Phdr>, n: nat,
                           taken: set<nat>, free: set<nat>)
    requires n <= |phdrs| && |now| == |before| && InImage(phdrs, kernel, size, |before|)
  {
    && Allocatable(phdrs, n, taken) && free == taken - Claimed(phdrs, n)
    && Loaded(before, now, kernel, size, phdrs, n) && SameImage(before, now, kernel, size)
  }

  lemma ProgressLoad(before: seq<bv8>, mid: seq<bv8>, after: seq<bv8>, kernel: nat, size: nat, phdrs: seq<Phdr>, n: nat,
                     taken: set<nat>, left: set<nat>, free: set<nat>)
    requires n < |phdrs| && |before| == |mid| == |after| && InImage(phdrs, kernel, size, |before|)
    requires Progress(before, mid, kernel, size, phdrs, n, taken, left) && ImageKept(kernel, size, taken)
    requires phdrs[n].kind == PT_LOAD && phdrs[n].Pages() <= left && free == left - phdrs[n].Pages()
    requires Copied(mid, after, kernel, size, phdrs[n])
    ensures Progress(before, after, kernel, size, phdrs, n + 1, taken, free)
  {
    AllocatableNext(phdrs, n, taken);
    CopyStep(before, mid, after, kernel, size, phdrs, n, taken);
  }

  lemma ProgressSkip(before: seq<bv8>, mid: seq<bv8>, kernel: nat, size: nat, phdrs: seq<Phdr>, n: nat,
                     taken: set<nat>, free: set<nat>)
    requires n < |phdrs| && |before| == |mid| && InImage(phdrs, kernel, size, |before|)
    requires Progress(before, mid, kernel, size, phdrs, n, taken, free) && phdrs[n].kind != PT_LOAD
    ensures Progress(before, mid, kernel, size, phdrs, n + 1, taken, free)
  {
  }

  /** What the caller gets of one segment when all pages were handed over: its file bytes stand at its
      physical address, inside memory. */
  lemma SegmentIsImage(before: seq<bv8>, after: seq<bv8>, kernel: nat, size: nat, phdrs: seq<Phdr>, i: nat,
                       free: set<nat>)
    requires i < |phdrs| && |after| == |before| && InImage(phdrs, kernel, size, |before|)
    requires Allocatable(phdrs, |phdrs|, free) && forall p :: p in free ==> (p + 1) * PAGE_SIZE <= |before|
    requires Loaded(before, after, kernel, size, phdrs, |phdrs|)
    requires phdrs[i].kind == PT_LOAD && phdrs[i].filesz > 0
    ensures var h := phdrs[i];
            && h.paddr + h.filesz <= |before|
            && after[h.paddr..h.paddr + h.filesz] == before[kernel + h.offset..kernel + h.offset + h.filesz]
  {
    SegmentInside(phdrs[i], size, free, |before|);
  }

  lemma SegmentInside(h: Phdr, size: nat, free: set<nat>, length: nat)
    requires h.WellFormed(size) && h.kind == PT_LOAD && h.filesz > 0 && h.Pages() <= free
    requires forall p :: p in free ==> (p + 1) * PAGE_SIZE <= length
    ensures h.paddr + h.filesz <= length
  {
    FillsItsPages(h, size, h.paddr + h.filesz - 1);
  }
}
