/** The 64-bit machine the kernel runs on: sizes, wrapping arithmetic and page numbers. */
module Machine {

  datatype Option<+T> = None | Some(value: T)

  const WORD: nat := 0x1_0000_0000_0000_0000
  const PAGE_SIZE: nat := 0x1000
  // Number of page-sized blocks in the 64-bit address space.
  const PAGES: nat := 0x10_0000_0000_0000
  // Number of pages a 48-bit virtual address can name (bits 12..47).
  const VPNS: nat := 0x10_0000_0000
  // Number of frames the 40-bit address field of a page-table entry can name.
  const FRAMES: nat := 0x100_0000_0000

  // size_t, uint64_t and pointers.
  type u64 = x: int | 0 <= x < WORD

  function Add64(a: u64, b: u64): u64 { (a + b) % WORD }

  function Sub64(a: u64, b: u64): u64 { (a - b) % WORD }

  // The address of the i-th page after addr: the pointer sum wraps at 64 bits.
  function PageAddr(addr: u64, i: nat): u64 { (addr + i * PAGE_SIZE) % WORD }

  function PageOf(addr: u64): (i: nat)
    ensures i < PAGES
  {
    addr / PAGE_SIZE
  }

  lemma PageOfMultiple(i: nat)
    requires i < PAGES
    ensures i * PAGE_SIZE < WORD && PageOf(i * PAGE_SIZE) == i
  {
    DivModUnique(i * PAGE_SIZE, PAGE_SIZE, i, 0);
  }

  lemma PageOfPageAddr(addr: u64, i: nat)
    ensures PageOf(PageAddr(addr, i)) == (PageOf(addr) + i) % PAGES
  {
    var h, r := addr / PAGE_SIZE, addr % PAGE_SIZE;
    var q, k := (h + i) / PAGES, (h + i) % PAGES;
    assert h + i == q * PAGES + k;
    DivModUnique(addr + i * PAGE_SIZE, WORD, q, k * PAGE_SIZE + r);
    DivModUnique(k * PAGE_SIZE + r, PAGE_SIZE, k, r);
  }

  // Reducing a sum early does not change it.
  lemma AddMod(x: int, d: int, e: int)
    ensures ((x + d) % WORD + e) % WORD == (x + d + e) % WORD
  {
    var q, r := (x + d) / WORD, (x + d) % WORD;
    var q', r' := (r + e) / WORD, (r + e) % WORD;
    DivModUnique(x + d + e, WORD, q + q', r');
  }

  lemma SmallMod(x: nat, m: nat)
    requires x < m
    ensures x % m == x
  {
    DivModUnique(x, m, 0, x);
  }

  lemma SmallQuotient(x: nat, d: nat)
    requires x < d
    ensures x / d == 0
  {
    DivModUnique(x, d, 0, x);
  }

  // Byte address a lies on page p.
  predicate OnPage(a: nat, p: nat) { a / 0x1000 == p }

  // From an aligned address on, size / 0x1000 + 1 pages are those of the bytes up to and including addr + size.
  lemma PagesOfBytes(addr: nat, size: nat, p: nat)
    requires addr % 0x1000 == 0
    ensures addr / 0x1000 <= p < addr / 0x1000 + size / 0x1000 + 1
            <==> exists a :: addr <= a <= addr + size && OnPage(a, p)
  {
    if addr / 0x1000 <= p < addr / 0x1000 + size / 0x1000 + 1 {
      assert OnPage(p * 0x1000, p);
    }
  }

  /** That many pages hold all bytes of a range that starts anywhere exactly when the two remainders fit
      into one page. */
  lemma PagesHoldRangeIff(addr: nat, size: nat)
    requires 0 < size
    ensures (forall a :: addr <= a < addr + size ==> a / 0x1000 < addr / 0x1000 + size / 0x1000 + 1)
            <==> addr % 0x1000 + size % 0x1000 <= 0x1000
  {
    var last := addr + size - 1;
    assert last / 0x1000 < addr / 0x1000 + size / 0x1000 + 1 <==> addr % 0x1000 + size % 0x1000 <= 0x1000;
    forall a | addr <= a < addr + size ensures a / 0x1000 <= last / 0x1000 { }
  }

  lemma DivModUnique(x: int, d: int, q: int, r: int)
    requires 0 < d && 0 <= r < d && x == q * d + r
    ensures x / d == q && x % d == r
  {
    var q', r' := x / d, x % d;
    assert x == q' * d + r';
    if q < q' {
      MulMono(q + 1, q', d);
    } else if q' < q {
      MulMono(q' + 1, q, d);
    }
  }

  lemma MulMono(a: int, b: int, d: int)
    requires a <= b && 0 <= d
    ensures a * d <= b * d
  {
  }

  lemma MulAssoc(a: int, b: int, c: int)
    ensures a * (b * c) == (a * b) * c
  {
  }

  lemma ModMod(x: nat, k: nat, m: nat)
    requires 0 < k && 0 < m
    ensures x % (k * m) % m == x % m
  {
    var q, r := x / (k * m), x % (k * m);
    var q', r' := r / m, r % m;
    assert x == (q * k + q') * m + r' by {
      assert x == q * (k * m) + r;
      assert q * (k * m) == (q * k) * m;
    }
    DivModUnique(x, m, q * k + q', r');
  }

  lemma ModAdd(x: nat, i: nat, m: nat)
    requires 0 < m
    ensures (x + i) % m == (x % m + i) % m
  {
    var q, r := (x % m + i) / m, (x % m + i) % m;
    assert x == x / m * m + x % m;
    assert x + i == (x / m + q) * m + r;
    DivModUnique(x + i, m, x / m + q, r);
  }

  // Splitting the last element off a concatenation.
  lemma AppendSnoc<T>(xs: seq<T>, ys: seq<T>)
    requires ys != []
    ensures xs + ys == (xs + ys[..|ys| - 1]) + [ys[|ys| - 1]]
    ensures ys == ys[..|ys| - 1] + [ys[|ys| - 1]]
  {
  }
}
