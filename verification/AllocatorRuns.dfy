/** Properties of every sequence of calls on the page-frame allocator. */
module AllocatorRuns {
  import opened Machine
  import opened Allocator

  // ----- conservation -----

  function Total(a: Alloc): u64 { (a.free + a.used + a.reserved) % WORD }

  /** free + used + reserved never changes (modulo 2^64), even for pages behind the bitmap. */
  lemma {:induction false} TotalIsConstant(a: Alloc, ops: seq<Op>)
    ensures Total(Run(a, ops)) == Total(a)
  {
    if ops != [] {
      TotalIsConstant(a, ops[..|ops| - 1]);
      StepKeepsTotal(Run(a, ops[..|ops| - 1]), ops[|ops| - 1]);
    }
  }

  lemma StepKeepsTotal(a: Alloc, op: Op)
    ensures Total(Step(a, op)) == Total(a)
  {
    match op
    case Request => if Found(a).Some? { MarkKeepsTotal(a, Lock, Found(a).value); }
    case On(k, addr) => MarkKeepsTotal(a, k, PageOf(addr));
  }

  lemma MarkKeepsTotal(a: Alloc, k: Kind, i: nat)
    ensures Total(Mark(a, k, i)) == Total(a)
  {
    match k
    case Lock => Moved(a.free, a.used, a.reserved);
    case Reserve => Moved(a.free, a.reserved, a.used);
    case Free => Moved(a.used, a.free, a.reserved);
    case Unreserve => Moved(a.reserved, a.free, a.used);
  }

  // PAGE_SIZE bytes move from one counter to another.
  lemma Moved(x: u64, y: u64, z: u64)
    ensures (Sub64(x, PAGE_SIZE) + Add64(y, PAGE_SIZE) + z) % WORD == (x + y + z) % WORD
  {
    var a: int := -1 * PAGE_SIZE;
    AddMod(x, a, Add64(y, PAGE_SIZE) + z);
    AddMod(y, PAGE_SIZE, x + a + z);
  }

  // ----- the free set -----

  function ClearSet(a: Alloc): set<nat> { set i | 0 <= i < |a.bits| && !a.bits[i] }

  /** The abstract allocator: a set of free pages 0..limit, of which only those below limit are
      handed out, the least first. */
  ghost predicate PoolStep(free: set<nat>, limit: nat, op: Op, free': set<nat>, page: Option<nat>) {
    match op
    case Request =>
      (match page
       case None => (forall j :: j in free ==> limit <= j) && free' == free
       case Some(i) => i in free && i < limit && (forall j :: j in free ==> i <= j) && free' == free - {i})
    case On(k, addr) =>
      if k in {Lock, Reserve} then free' == free - {PageOf(addr)}
      else free' == free + if PageOf(addr) <= limit then {PageOf(addr)} else {}
  }

  /** Every call of every run does to the bitmap what the abstract allocator does to its set. */
  lemma RunRefinesPool(a: Alloc, ops: seq<Op>, k: nat)
    requires k < |ops| && a.bits != []
    ensures var before, after := Run(a, ops[..k]), Run(a, ops[..k + 1]);
            PoolStep(ClearSet(before), a.Limit(), ops[k], ClearSet(after), Found(before))
  {
    assert ops[..k + 1][..k] == ops[..k];
    RunKeepsLength(a, ops[..k]);
    StepRefinesPool(Run(a, ops[..k]), ops[k]);
  }

  lemma StepRefinesPool(a: Alloc, op: Op)
    requires a.bits != []
    ensures PoolStep(ClearSet(a), a.Limit(), op, ClearSet(Step(a, op)), Found(a))
  {
  }

  // ops[k] hands out page p.
  predicate HandsOut(a: Alloc, ops: seq<Op>, k: nat, p: nat)
    requires k < |ops|
  {
    ops[k] == Request && Found(Run(a, ops[..k])) == Some(p)
  }

  predicate GivesBack(op: Op, p: nat) {
    op.On? && op.kind in {Free, Unreserve} && PageOf(op.addr) == p
  }

  lemma RunPrefix(a: Alloc, ops: seq<Op>, k: nat)
    requires k < |ops|
    ensures Run(a, ops[..k + 1]) == Step(Run(a, ops[..k]), ops[k])
  {
    assert ops[..k + 1][..k] == ops[..k];
  }

  lemma StepStaysSet(a: Alloc, op: Op, p: nat)
    requires a.IsSet(p) && !GivesBack(op, p)
    ensures Step(a, op).IsSet(p)
  {
  }

  lemma {:induction false} StaysSet(a: Alloc, ops: seq<Op>, lo: nat, hi: nat, p: nat)
    requires lo <= hi <= |ops| && Run(a, ops[..lo]).IsSet(p)
    requires forall k :: lo <= k < hi ==> !GivesBack(ops[k], p)
    ensures Run(a, ops[..hi]).IsSet(p)
    decreases hi - lo
  {
    if lo < hi {
      RunPrefix(a, ops, lo);
      StepStaysSet(Run(a, ops[..lo]), ops[lo], p);
      StaysSet(a, ops, lo + 1, hi, p);
    }
  }

  /** No page is handed out twice unless it is freed or unreserved in between. */
  lemma NoDoubleHandOut(a: Alloc, ops: seq<Op>, i: nat, j: nat, p: nat)
    requires i < j < |ops| && HandsOut(a, ops, i, p) && HandsOut(a, ops, j, p)
    ensures exists k :: i < k < j && GivesBack(ops[k], p)
  {
    assert ops[..i + 1][..i] == ops[..i];
    assert Run(a, ops[..i + 1]).IsSet(p);
    if forall k :: i < k < j ==> !GivesBack(ops[k], p) {
      StaysSet(a, ops, i + 1, j, p);
    }
  }

  /** req_page returns an address of a page that was clear exactly when some scanned bit is clear:
      on exhaustion it answers 0, the address of a page that is in use. */
  lemma RequestIsOwnedIff(a: Alloc)
    requires 1 < |a.bits|
    ensures var addr := match Found(a) { case None => 0 case Some(i) => i * PAGE_SIZE };
            a.IsClear(addr / PAGE_SIZE) <==> exists i :: 0 <= i < a.Limit() && a.IsClear(i)
  {
  }

  /** With both pages in use the answer is 0, and page 0 is one of them. */
  lemma NothingLeft(free: u64, used: u64, reserved: u64)
    ensures var a := Alloc([true, true, false], free, used, reserved);
            Found(a).None? && Requested(a) == a && a.IsSet(0)
  {
  }

  // ----- the counters -----

  datatype Label = IsFree | IsUsed | IsReserved

  function Count(ls: seq<Label>, l: Label): nat {
    if ls == [] then 0 else Count(ls[..|ls| - 1], l) + if ls[|ls| - 1] == l then 1 else 0
  }

  lemma {:induction false} CountUpdate(ls: seq<Label>, i: nat, x: Label, l: Label)
    requires i < |ls|
    ensures Count(ls[i := x], l)
            == Count(ls, l) + (if x == l then 1 else 0) - (if ls[i] == l then 1 else 0)
  {
    var n := |ls| - 1;
    if i == n {
      assert ls[i := x][..n] == ls[..n];
    } else {
      CountUpdate(ls[..n], i, x, l);
      assert ls[i := x][..n] == ls[..n][i := x];
    }
  }

  // What a call means for the labels: the page it takes or gives back changes its label.
  function LabelStep(ls: seq<Label>, found: Option<nat>, op: Op): seq<Label> {
    match op
    case Request => if found.Some? && found.value < |ls| then ls[found.value := IsUsed] else ls
    case On(k, addr) =>
      var i := PageOf(addr);
      if i >= |ls| then ls
      else
        match k
        case Lock => if ls[i] == IsFree then ls[i := IsUsed] else ls
        case Reserve => if ls[i] == IsFree then ls[i := IsReserved] else ls
        case Free => ls[i := IsFree]
        case Unreserve => ls[i := IsFree]
  }

  function LabelRun(a: Alloc, ls: seq<Label>, ops: seq<Op>): seq<Label> {
    if ops == [] then ls
    else
      var ops' := ops[..|ops| - 1];
      LabelStep(LabelRun(a, ls, ops'), Found(Run(a, ops')), ops[|ops| - 1])
  }

  // The page exists, and free_page never meets a reserved page nor unreserve_page a used one.
  predicate Matched(ls: seq<Label>, op: Op) {
    op.On? ==>
      var i := PageOf(op.addr);
      i < |ls| && (op.kind == Free ==> ls[i] != IsReserved) && (op.kind == Unreserve ==> ls[i] != IsUsed)
  }

  ghost predicate MatchedRun(a: Alloc, ls: seq<Label>, ops: seq<Op>) {
    ops == [] || (MatchedRun(a, ls, ops[..|ops| - 1])
                  && Matched(LabelRun(a, ls, ops[..|ops| - 1]), ops[|ops| - 1]))
  }

  ghost predicate Accounted(a: Alloc, ls: seq<Label>) {
    && |ls| == |a.bits|
    && (forall i :: 0 <= i < |ls| ==> (a.bits[i] <==> ls[i] != IsFree))
    && a.used == PAGE_SIZE * Count(ls, IsUsed) % WORD
    && a.reserved == PAGE_SIZE * Count(ls, IsReserved) % WORD
  }

  lemma CounterMoves(n: nat)
    ensures Add64(PAGE_SIZE * n % WORD, PAGE_SIZE) == PAGE_SIZE * (n + 1) % WORD
    ensures n > 0 ==> Sub64(PAGE_SIZE * n % WORD, PAGE_SIZE) == PAGE_SIZE * (n - 1) % WORD
  {
    AddMod(PAGE_SIZE * n, 0, PAGE_SIZE);
    AddMod(PAGE_SIZE * n, 0, -1 * PAGE_SIZE);
  }

  lemma Relabel(a: Alloc, ls: seq<Label>, i: nat, x: Label)
    requires Accounted(a, ls) && i < |ls|
    ensures Count(ls[i := x], IsUsed)
            == Count(ls, IsUsed) + (if x == IsUsed then 1 else 0) - (if ls[i] == IsUsed then 1 else 0)
    ensures Count(ls[i := x], IsReserved)
            == Count(ls, IsReserved) + (if x == IsReserved then 1 else 0) - (if ls[i] == IsReserved then 1 else 0)
    ensures Add64(a.used, PAGE_SIZE) == PAGE_SIZE * (Count(ls, IsUsed) + 1) % WORD
    ensures Add64(a.reserved, PAGE_SIZE) == PAGE_SIZE * (Count(ls, IsReserved) + 1) % WORD
    ensures Count(ls, IsUsed) > 0 ==> Sub64(a.used, PAGE_SIZE) == PAGE_SIZE * (Count(ls, IsUsed) - 1) % WORD
    ensures Count(ls, IsReserved) > 0 ==>
              Sub64(a.reserved, PAGE_SIZE) == PAGE_SIZE * (Count(ls, IsReserved) - 1) % WORD
  {
    CountUpdate(ls, i, x, IsUsed);
    CountUpdate(ls, i, x, IsReserved);
    CounterMoves(Count(ls, IsUsed));
    CounterMoves(Count(ls, IsReserved));
  }

  lemma PageAccounted(a: Alloc, ls: seq<Label>, k: Kind, addr: u64)
    requires Accounted(a, ls) && Matched(ls, On(k, addr))
    ensures Accounted(Mark(a, k, PageOf(addr)), LabelStep(ls, Found(a), On(k, addr)))
  {
    var i := PageOf(addr);
    var x := if k == Lock then IsUsed else if k == Reserve then IsReserved else IsFree;
    Relabel(a, ls, i, x);
    if ls[i] == IsFree && x == IsFree {
      assert ls[i := x] == ls;
    }
  }

  lemma StepAccounted(a: Alloc, ls: seq<Label>, op: Op)
    requires Accounted(a, ls) && Matched(ls, op)
    ensures Accounted(Step(a, op), LabelStep(ls, Found(a), op))
  {
    match op
    case Request =>
      if Found(a).Some? {
        Relabel(a, ls, Found(a).value, IsUsed);
      }
    case On(k, addr) =>
      PageAccounted(a, ls, k, addr);
  }

  /** Over every run whose give-backs match, the counters are PAGE_SIZE times the number of pages
      with the label, and a bit is set exactly when its page is not free. */
  lemma {:induction false} CountersAreExact(a: Alloc, ls: seq<Label>, ops: seq<Op>)
    requires Accounted(a, ls) && MatchedRun(a, ls, ops)
    ensures Accounted(Run(a, ops), LabelRun(a, ls, ops))
  {
    if ops != [] {
      var ops' := ops[..|ops| - 1];
      CountersAreExact(a, ls, ops');
      StepAccounted(Run(a, ops'), LabelRun(a, ls, ops'), ops[|ops| - 1]);
    }
  }

  // ----- ranges -----

  function SetPages(a: Alloc): set<nat> { set i | 0 <= i < |a.bits| && a.bits[i] }

  predicate AllOf(ops: seq<Op>, kinds: set<Kind>) {
    forall k :: 0 <= k < |ops| ==> ops[k].On? && ops[k].kind in kinds
  }

  // The pages a list of calls names.
  function Pages(ops: seq<Op>): set<nat> { set k | 0 <= k < |ops| && ops[k].On? :: PageOf(ops[k].addr) }

  // How many of the calls name a page behind the bitmap.
  function Behind(ops: seq<Op>, size: nat): nat {
    if ops == [] then 0
    else
      var op := ops[|ops| - 1];
      Behind(ops[..|ops| - 1], size) + if op.On? && PageOf(op.addr) >= size then 1 else 0
  }

  lemma PagesSnoc(ops: seq<Op>, op: Op)
    requires op.On?
    ensures Pages(ops + [op]) == Pages(ops) + {PageOf(op.addr)}
  {
    var all := ops + [op];
    forall p | p in Pages(ops) ensures p in Pages(all) {
      var k :| 0 <= k < |ops| && ops[k].On? && PageOf(ops[k].addr) == p;
      assert all[k] == ops[k];
    }
    assert all[|ops|] == op;
  }

  /** The pages of a range call, from its address and length alone. */
  lemma PagesOfRange(k: Kind, addr: u64, n: nat, p: nat)
    requires p < PAGES
    ensures p in Pages(RangeOps(k, addr, n)) <==> (p - PageOf(addr)) % PAGES < n
  {
    var ops := RangeOps(k, addr, n);
    var d := (p - PageOf(addr)) % PAGES;
    if p in Pages(ops) {
      var i :| 0 <= i < |ops| && ops[i].On? && PageOf(ops[i].addr) == p;
      PageOfPageAddr(addr, i);
      OffsetAtMost(PageOf(addr), i);
    }
    if d < n {
      PageOfPageAddr(addr, d);
      OffsetReaches(PageOf(addr), p);
      assert ops[d].On? && PageOf(ops[d].addr) == p;
    }
  }

  lemma OffsetAtMost(a: nat, i: nat)
    ensures ((a + i) % PAGES - a) % PAGES <= i
  {
  }

  lemma OffsetReaches(a: nat, p: nat)
    requires p < PAGES
    ensures (a + (p - a) % PAGES) % PAGES == p
  {
  }

  // k pages' worth of bytes left `free` for `used` and `reserved` between two states.
  ghost predicate Charged(a: Alloc, a': Alloc, k: int) {
    && a'.free == (a.free - k * PAGE_SIZE) % WORD
    && (a'.used + a'.reserved) % WORD == (a.used + a.reserved + k * PAGE_SIZE) % WORD
  }

  lemma ChargedTwice(a: Alloc, b: Alloc, c: Alloc, x: int, y: int)
    requires Charged(a, b, x) && Charged(b, c, y)
    ensures Charged(a, c, x + y)
  {
    var dx, dy := x * PAGE_SIZE, y * PAGE_SIZE;
    AddMod(a.free, -dx, -dy);
    AddMod(b.used + b.reserved, 0, dy);
    AddMod(a.used + a.reserved, dx, dy);
  }

  // One call: the set of marked pages, its size, and the bytes moved.
  lemma MarkSet(a: Alloc, k: Kind, i: nat)
    requires k in {Lock, Reserve}
    ensures SetPages(Mark(a, k, i)) == SetPages(a) + (if i < |a.bits| then {i} else {})
  {
  }

  lemma MarkSize(a: Alloc, k: Kind, i: nat)
    requires k in {Lock, Reserve}
    ensures |SetPages(Mark(a, k, i))| == |SetPages(a)| + (if a.IsClear(i) then 1 else 0)
  {
    MarkSet(a, k, i);
    if !a.IsClear(i) { assert SetPages(Mark(a, k, i)) == SetPages(a); }
  }

  lemma MarkCharge(a: Alloc, k: Kind, i: nat)
    requires k in {Lock, Reserve}
    ensures Charged(a, Mark(a, k, i), if a.IsSet(i) then 0 else 1)
  {
    AddMod(a.reserved + a.used, 0, 0);
    AddMod(a.used, PAGE_SIZE, a.reserved);
    AddMod(a.reserved, PAGE_SIZE, a.used);
  }

  lemma FreeSet(a: Alloc, i: nat)
    ensures SetPages(Mark(a, Free, i)) == SetPages(a) - {i}
  {
  }

  lemma FreeSize(a: Alloc, i: nat)
    ensures |SetPages(Mark(a, Free, i))| == |SetPages(a)| - (if a.IsSet(i) then 1 else 0)
  {
    FreeSet(a, i);
    if !a.IsSet(i) { assert SetPages(Mark(a, Free, i)) == SetPages(a); }
  }

  lemma FreeCharge(a: Alloc, i: nat)
    ensures Charged(a, Mark(a, Free, i), if a.IsSet(i) then -1 else 0)
  {
    AddMod(a.used, -1 * PAGE_SIZE, a.reserved);
  }

  lemma {:induction false} MarkingSets(a: Alloc, ops: seq<Op>)
    requires AllOf(ops, {Lock, Reserve})
    ensures SetPages(Run(a, ops)) == SetPages(a) + (set p | p in Pages(ops) && p < |a.bits|)
  {
    if ops != [] {
      var ops', op := ops[..|ops| - 1], ops[|ops| - 1];
      MarkingSets(a, ops');
      assert ops == ops' + [op];
      PagesSnoc(ops', op);
      RunKeepsLength(a, ops');
      MarkSet(Run(a, ops'), op.kind, PageOf(op.addr));
    }
  }

  lemma {:induction false} MarkingCharges(a: Alloc, ops: seq<Op>)
    requires AllOf(ops, {Lock, Reserve})
    ensures Charged(a, Run(a, ops), |SetPages(Run(a, ops))| - |SetPages(a)| + Behind(ops, |a.bits|))
  {
    if ops != [] {
      var ops', op := ops[..|ops| - 1], ops[|ops| - 1];
      var b, i := Run(a, ops'), PageOf(op.addr);
      MarkingCharges(a, ops');
      RunKeepsLength(a, ops');
      MarkSize(b, op.kind, i);
      MarkCharge(b, op.kind, i);
      ChargedTwice(a, b, Mark(b, op.kind, i), |SetPages(b)| - |SetPages(a)| + Behind(ops', |a.bits|),
                   if b.IsSet(i) then 0 else 1);
    }
  }

  lemma {:induction false} FreeingSets(a: Alloc, ops: seq<Op>)
    requires AllOf(ops, {Free})
    ensures SetPages(Run(a, ops)) == SetPages(a) - Pages(ops)
  {
    if ops != [] {
      var ops', op := ops[..|ops| - 1], ops[|ops| - 1];
      FreeingSets(a, ops');
      assert ops == ops' + [op];
      PagesSnoc(ops', op);
      FreeSet(Run(a, ops'), PageOf(op.addr));
    }
  }

  lemma {:induction false} FreeingCharges(a: Alloc, ops: seq<Op>)
    requires AllOf(ops, {Free})
    ensures Charged(a, Run(a, ops), |SetPages(Run(a, ops))| - |SetPages(a)|)
  {
    if ops != [] {
      var ops', op := ops[..|ops| - 1], ops[|ops| - 1];
      var b, i := Run(a, ops'), PageOf(op.addr);
      FreeingCharges(a, ops');
      FreeSize(b, i);
      FreeCharge(b, i);
      ChargedTwice(a, b, Mark(b, Free, i), |SetPages(b)| - |SetPages(a)|, if b.IsSet(i) then -1 else 0);
    }
  }

  lemma {:induction false} ReservedKept(a: Alloc, ops: seq<Op>)
    requires AllOf(ops, {Lock, Free})
    ensures Run(a, ops).reserved == a.reserved
  {
    if ops != [] {
      ReservedKept(a, ops[..|ops| - 1]);
    }
  }

  /** From an empty bitmap, any list of in-range lock_pages and reserve_pages calls sets exactly
      the union of the pages named and charges each of them once, however the ranges overlap. */
  lemma UnionIsCharged(a: Alloc, ops: seq<Op>)
    requires SetPages(a) == {} && a.used == a.reserved == 0
    requires AllOf(ops, {Lock, Reserve}) && forall p :: p in Pages(ops) ==> p < |a.bits|
    ensures var a' := Run(a, ops);
            && SetPages(a') == Pages(ops)
            && (a'.used + a'.reserved) % WORD == |Pages(ops)| * PAGE_SIZE % WORD
            && a'.free == (a.free - |Pages(ops)| * PAGE_SIZE) % WORD
  {
    MarkingInRange(a, ops);
    ChargedFromZero(a, Run(a, ops), |Pages(ops)|);
  }

  lemma MarkingInRange(a: Alloc, ops: seq<Op>)
    requires SetPages(a) == {} && AllOf(ops, {Lock, Reserve}) && forall p :: p in Pages(ops) ==> p < |a.bits|
    ensures SetPages(Run(a, ops)) == Pages(ops) && Charged(a, Run(a, ops), |Pages(ops)|)
  {
    MarkingSets(a, ops);
    NoneBehind(ops, |a.bits|);
    assert (set p | p in Pages(ops) && p < |a.bits|) == Pages(ops);
    MarkingCharges(a, ops);
  }

  lemma ChargedFromZero(a: Alloc, a': Alloc, k: nat)
    requires a.used == a.reserved == 0 && Charged(a, a', k)
    ensures (a'.used + a'.reserved) % WORD == k * PAGE_SIZE % WORD && a'.free == (a.free - k * PAGE_SIZE) % WORD
  {
  }

  lemma {:induction false} NoneBehind(ops: seq<Op>, size: nat)
    requires forall p :: p in Pages(ops) ==> p < size
    ensures Behind(ops, size) == 0
  {
    if ops != [] {
      var ops', op := ops[..|ops| - 1], ops[|ops| - 1];
      forall p | p in Pages(ops') ensures p < size {
        var k :| 0 <= k < |ops'| && ops'[k].On? && PageOf(ops'[k].addr) == p;
        assert ops[k] == ops'[k];
        assert p in Pages(ops);
      }
      NoneBehind(ops', size);
      if op.On? { assert ops[|ops| - 1].On? && PageOf(op.addr) in Pages(ops); }
    }
  }

  function LockedThenFreed(a: Alloc, addr: u64, n: nat): Alloc {
    Run(Run(a, RangeOps(Lock, addr, n)), RangeOps(Free, addr, n))
  }

  /** lock_pages then free_pages on pages none of which was set gives back the bitmap; each call
      on a page behind the bitmap leaves one page's worth of bytes on the used side for ever. */
  lemma LockThenFree(a: Alloc, addr: u64, n: nat)
    requires forall p :: p in Pages(RangeOps(Lock, addr, n)) ==> !a.IsSet(p)
    ensures LockedThenFreed(a, addr, n)
            == var lost := Behind(RangeOps(Lock, addr, n), |a.bits|) * PAGE_SIZE;
               a.(free := (a.free - lost) % WORD, used := (a.used + lost) % WORD)
  {
    MarkedThenFreed(a, addr, n);
    LockThenFreeCharge(a, addr, n);
    OnlyCharged(a, LockedThenFreed(a, addr, n), Behind(RangeOps(Lock, addr, n), |a.bits|));
  }

  /** One page behind a bitmap of one bit: locked and freed, it stays counted as used. */
  lemma PageBehindLost(free: u64, used: u64, reserved: u64)
    ensures var a := Alloc([false], free, used, reserved);
            LockedThenFreed(a, PAGE_SIZE, 1) == a.(free := Sub64(free, PAGE_SIZE), used := Add64(used, PAGE_SIZE))
  {
    var a := Alloc([false], free, used, reserved);
    RangeOpsSnoc(Lock, PAGE_SIZE, 0);
    RangeOpsSnoc(Free, PAGE_SIZE, 0);
    RunSnoc(a, RangeOps(Lock, PAGE_SIZE, 0), On(Lock, PAGE_SIZE));
    RunSnoc(Run(a, RangeOps(Lock, PAGE_SIZE, 1)), RangeOps(Free, PAGE_SIZE, 0), On(Free, PAGE_SIZE));
  }

  lemma LockThenFreeCharge(a: Alloc, addr: u64, n: nat)
    requires SetPages(LockedThenFreed(a, addr, n)) == SetPages(a)
    ensures Charged(a, LockedThenFreed(a, addr, n), Behind(RangeOps(Lock, addr, n), |a.bits|))
    ensures LockedThenFreed(a, addr, n).reserved == a.reserved
  {
    var ls, fs := RangeOps(Lock, addr, n), RangeOps(Free, addr, n);
    var b := Run(a, ls);
    MarkingCharges(a, ls);
    FreeingCharges(b, fs);
    ReservedKept(a, ls);
    ReservedKept(b, fs);
    ChargedTwice(a, b, Run(b, fs), |SetPages(b)| - |SetPages(a)| + Behind(ls, |a.bits|),
                 |SetPages(Run(b, fs))| - |SetPages(b)|);
  }

  lemma MarkedThenFreed(a: Alloc, addr: u64, n: nat)
    requires forall p :: p in Pages(RangeOps(Lock, addr, n)) ==> !a.IsSet(p)
    ensures var c := LockedThenFreed(a, addr, n);
            SetPages(c) == SetPages(a) && c.bits == a.bits
  {
    var ls, fs := RangeOps(Lock, addr, n), RangeOps(Free, addr, n);
    var b := Run(a, ls);
    var c := Run(b, fs);
    MarkingSets(a, ls);
    FreeingSets(b, fs);
    SamePages(addr, n);
    assert SetPages(c) == SetPages(a);
    RunKeepsLength(a, ls);
    RunKeepsLength(b, fs);
    SameSetSameBits(a, c);
  }

  lemma OnlyCharged(a: Alloc, c: Alloc, k: nat)
    requires Charged(a, c, k) && c.reserved == a.reserved && c.bits == a.bits
    ensures c == a.(free := (a.free - k * PAGE_SIZE) % WORD, used := (a.used + k * PAGE_SIZE) % WORD)
  {
    UsedFromCharged(a, c, k);
  }

  lemma SamePages(addr: u64, n: nat)
    ensures Pages(RangeOps(Lock, addr, n)) == Pages(RangeOps(Free, addr, n))
  {
  }

  lemma SameSetSameBits(a: Alloc, b: Alloc)
    requires |a.bits| == |b.bits| && SetPages(a) == SetPages(b)
    ensures a.bits == b.bits
  {
    forall i | 0 <= i < |a.bits| ensures a.bits[i] == b.bits[i] {
      assert a.bits[i] <==> i in SetPages(a);
      assert b.bits[i] <==> i in SetPages(b);
    }
  }

  lemma UsedFromCharged(a: Alloc, c: Alloc, k: int)
    requires Charged(a, c, k) && c.reserved == a.reserved
    ensures c.used == (a.used + k * PAGE_SIZE) % WORD
  {
    DropTerm(c.used, a.used + k * PAGE_SIZE, a.reserved);
  }

  lemma DropTerm(x: u64, y: int, r: u64)
    requires (x + r) % WORD == (y + r) % WORD
    ensures x == y % WORD
  {
    var d := -1 * r;
    AddMod(x + r, 0, d);
    AddMod(y + r, 0, d);
  }
}
