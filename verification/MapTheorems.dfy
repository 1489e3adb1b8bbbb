/** The properties of the paging code that its callers rely on. */
module MapTheorems {
  import opened Machine
  import opened PageTables
  import opened MapProofs

  // ----- when map_page is correct -----

  /** The list is mapped: the tables still form a tree, every page translates as the last call that
      names it says, all others as before, and every new table stands on a frame that was clear RAM. */
  ghost predicate Correct(s: Vm, s': Vm, root: nat, ms: seq<Mapping>) {
    && Tree(s', root)
    && (forall v: nat :: Translate(s'.mem, root, v) ==
          match Last(ms, v) { case None => Translate(s.mem, root, v) case Some(f) => Some(f) })
    && (forall l: nat, i: nat :: 1 <= l <= 3 && At(s.mem, root, l, i).None? && At(s'.mem, root, l, i).Some? ==>
          At(s'.mem, root, l, i).value in ClearRam(s))
  }

  // Some page of the list lies below node (l, i).
  predicate Names(ms: seq<Mapping>, l: nat, i: nat) {
    exists k :: 0 <= k < |ms| && Up(Vpn(ms[k].vir), l) == i
  }

  lemma NamesSnoc(ms: seq<Mapping>, l: nat, i: nat)
    requires ms != []
    ensures Names(ms, l, i) <==> Names(ms[..|ms| - 1], l, i) || Up(Vpn(ms[|ms| - 1].vir), l) == i
  {
    var ms' := ms[..|ms| - 1];
    assert forall k :: 0 <= k < |ms'| ==> ms'[k] == ms[k];
  }

  // Membership in Need, without its recursion.
  lemma {:induction false} NeedMember(mem: seq<Pte>, root: nat, ms: seq<Mapping>, n: Node)
    ensures n in Need(mem, root, ms) <==> 1 <= n.0 <= 3 && At(mem, root, n.0, n.1).None? && Names(ms, n.0, n.1)
  {
    if ms != [] {
      NeedMember(mem, root, ms[..|ms| - 1], n);
      NeedOfMember(mem, root, Vpn(ms[|ms| - 1].vir), n);
      NamesSnoc(ms, n.0, n.1);
    }
  }

  lemma NeedOfMember(mem: seq<Pte>, root: nat, v: nat, n: Node)
    ensures n in NeedOf(mem, root, v)
            <==> 1 <= n.0 <= 3 && At(mem, root, n.0, n.1).None? && Up(v, n.0) == n.1
  {
  }

  lemma {:induction false} LastMember(ms: seq<Mapping>, k: nat)
    requires k < |ms|
    ensures Last(ms, Vpn(ms[k].vir)).Some?
  {
    if k < |ms| - 1 {
      LastMember(ms[..|ms| - 1], k);
    }
  }

  // A mapped page has all its tables.
  lemma {:induction false} TablesOfMapped(mem: seq<Pte>, root: nat, v: nat, l: nat)
    requires Translate(mem, root, v).Some? && l <= 3
    ensures At(mem, root, l, Up(v, l)).Some?
  {
    if l > 0 {
      TablesOfMapped(mem, root, v, l - 1);
    }
  }

  ghost predicate StandsIn(mem: seq<Pte>, root: nat, n: Node, frames: set<nat>) {
    1 <= n.0 <= 4 && At(mem, root, n.0, n.1).Some? && At(mem, root, n.0, n.1).value in frames
  }

  // As many nodes as frames at most, when each stands on its own frame.
  lemma {:induction false} NodesFit(s: Vm, root: nat, nodes: set<Node>, frames: set<nat>)
    requires Tree(s, root)
    requires forall n :: n in nodes ==> StandsIn(s.mem, root, n, frames)
    ensures |nodes| <= |frames|
  {
    if nodes != {} {
      var n :| n in nodes;
      var f := At(s.mem, root, n.0, n.1).value;
      forall m | m in nodes - {n} ensures StandsIn(s.mem, root, m, frames - {f}) {
        assert StandsIn(s.mem, root, m, frames);
      }
      NodesFit(s, root, nodes - {n}, frames - {f});
    }
  }

  lemma CorrectWhenRoom(s: Vm, root: nat, ms: seq<Mapping>)
    requires Tree(s, root) && |Need(s.mem, root, ms)| <= |ClearRam(s)|
    ensures Correct(s, MapAll(s, root, ms), root, ms)
  {
    MapAllEffect(s, root, ms);
    CorrectOfEffect(s, MapAll(s, root, ms), root, ms, Need(s.mem, root, ms));
  }

  lemma CorrectOfEffect(s: Vm, s': Vm, root: nat, ms: seq<Mapping>, need: set<Node>)
    requires Tree(s', root) && NodesGrown(s, s', root, need) && LeavesAfter(s, s', root, ms)
    ensures Correct(s, s', root, ms)
  {
    forall v: nat
      ensures Translate(s'.mem, root, v) ==
              match Last(ms, v) { case None => Translate(s.mem, root, v) case Some(f) => Some(f) }
    {
      TranslateIsLeaf(s.mem, root, v);
      TranslateIsLeaf(s'.mem, root, v);
    }
    forall l: nat, i: nat | 1 <= l <= 3 && At(s.mem, root, l, i).None? && At(s'.mem, root, l, i).Some?
      ensures At(s'.mem, root, l, i).value in ClearRam(s)
    {
      assert (l, i) in need;
      assert Fresh(s, s', root, (l, i));
    }
  }

  lemma RoomWhenCorrect(s: Vm, s': Vm, root: nat, ms: seq<Mapping>)
    requires Correct(s, s', root, ms)
    ensures |Need(s.mem, root, ms)| <= |ClearRam(s)|
  {
    forall n | n in Need(s.mem, root, ms)
      ensures StandsIn(s'.mem, root, n, ClearRam(s))
    {
      NeedMember(s.mem, root, ms, n);
      var k :| 0 <= k < |ms| && Up(Vpn(ms[k].vir), n.0) == n.1;
      LastMember(ms, k);
      TablesOfMapped(s'.mem, root, Vpn(ms[k].vir), n.0);
    }
    NodesFit(s', root, Need(s.mem, root, ms), ClearRam(s));
  }

  /** map_page checks no result of req_page. A run of calls is correct exactly when the missing
      tables fit into the clear RAM frames. */
  lemma MapAllCorrectIff(s: Vm, root: nat, ms: seq<Mapping>)
    requires Tree(s, root)
    ensures Correct(s, MapAll(s, root, ms), root, ms) <==> |Need(s.mem, root, ms)| <= |ClearRam(s)|
  {
    if |Need(s.mem, root, ms)| <= |ClearRam(s)| {
      CorrectWhenRoom(s, root, ms);
    } else if Correct(s, MapAll(s, root, ms), root, ms) {
      RoomWhenCorrect(s, MapAll(s, root, ms), root, ms);
    }
  }

  /** map_page in a tree with room: the address translates to the frame it was given, and every
      address that differs in bits 12..47 translates as before, or is still unmapped. */
  lemma MapPageTranslates(s: Vm, root: nat, vir: u64, phys: u64)
    requires Tree(s, root) && |NeedOf(s.mem, root, Vpn(vir))| <= |ClearRam(s)|
    ensures var s' := MapPage(s, root, vir, phys);
            && Tree(s', root)
            && Translate(s'.mem, root, Vpn(vir)) == Some(FrameOf(phys))
            && forall w: u64 :: Vpn(w) != Vpn(vir) ==>
                 Translate(s'.mem, root, Vpn(w)) == Translate(s.mem, root, Vpn(w))
  {
    var m := Mapping(vir, phys);
    var s' := MapPage(s, root, vir, phys);
    MapPageEffect(s, root, m);
    TranslateIsLeaf(s'.mem, root, Vpn(vir));
    LastOfOne(m, Vpn(vir));
    forall w: u64 | Vpn(w) != Vpn(vir)
      ensures Translate(s'.mem, root, Vpn(w)) == Translate(s.mem, root, Vpn(w))
    {
      TranslateIsLeaf(s'.mem, root, Vpn(w));
      TranslateIsLeaf(s.mem, root, Vpn(w));
      LastOfOne(m, Vpn(w));
    }
  }

  // ----- remapping -----

  /** Remapping pages that are all mapped takes no frame, moves no counter, and changes only the
      addr, p and rw fields of the last-level entries it names. */
  lemma RemapIsFree(s: Vm, root: nat, ms: seq<Mapping>)
    requires Tree(s, root)
    requires forall k :: 0 <= k < |ms| ==> Translate(s.mem, root, Vpn(ms[k].vir)).Some?
    ensures MapAll(s, root, ms).alloc == s.alloc
    ensures LeavesAfter(s, MapAll(s, root, ms), root, ms)
  {
    var need := Need(s.mem, root, ms);
    forall n | n in need ensures false {
      NeedMember(s.mem, root, ms, n);
      var k :| 0 <= k < |ms| && Up(Vpn(ms[k].vir), n.0) == n.1;
      TablesOfMapped(s.mem, root, Vpn(ms[k].vir), n.0);
    }
    assert need == {};
    MapAllEffect(s, root, ms);
    SameAlloc(s, MapAll(s, root, ms), root);
  }

  lemma SameAlloc(s: Vm, s': Vm, root: nat)
    requires Grown(s, s', root, {})
    ensures s'.alloc == s.alloc
  {
    forall i | 0 <= i < |s.alloc.bits| ensures s'.alloc.bits[i] == s.alloc.bits[i] {
      assert s'.alloc.IsSet(i) <==> s.alloc.IsSet(i) || TakenBy(s'.mem, root, {}, i);
    }
    assert s'.alloc.bits == s.alloc.bits;
  }

  // ----- sequences of map_pages calls -----

  // The last index below n that is congruent to off modulo 2^36.
  function LastIndex(off: nat, n: nat): nat
    requires off < n
  {
    off + (n - 1 - off) / VPNS * VPNS
  }

  datatype Call = Call(vir: u64, phys: u64, n: nat) {
    // How far virtual page v lies behind the first page of the call, modulo the address space.
    function Offset(v: nat): nat { (v - Vpn(vir)) % VPNS }

    // The last page of the call that lands on virtual page v.
    function Index(v: nat): nat
      requires Offset(v) < n
    {
      LastIndex(Offset(v), n)
    }
  }

  function Flat(calls: seq<Call>): seq<Mapping> {
    if calls == [] then []
    else
      var c := calls[|calls| - 1];
      Flat(calls[..|calls| - 1]) + PageList(c.vir, c.phys, c.n)
  }

  /** The address space a sequence of map_pages calls describes: the last call that covers a page
      gives it the frame at the same distance from the call's physical address. */
  function Described(calls: seq<Call>, v: nat): Option<nat> {
    if calls == [] then None
    else
      var c := calls[|calls| - 1];
      if c.Offset(v) < c.n then Some((PageOf(c.phys) + c.Index(v)) % FRAMES)
      else Described(calls[..|calls| - 1], v)
  }

  lemma {:induction false} LastAppend(xs: seq<Mapping>, ys: seq<Mapping>, v: nat)
    ensures Last(xs + ys, v) == if Last(ys, v).Some? then Last(ys, v) else Last(xs, v)
    decreases |ys|
  {
    if ys == [] {
      assert xs + ys == xs;
    } else {
      LastAppend(xs, ys[..|ys| - 1], v);
      assert (xs + ys)[..|xs + ys| - 1] == xs + ys[..|ys| - 1];
    }
  }

  lemma VpnOfPageAddr(vir: u64, i: nat)
    ensures Vpn(PageAddr(vir, i)) == (PageOf(vir) + i) % VPNS == (Vpn(vir) + i) % VPNS
  {
    PageOfPageAddr(vir, i);
    ModMod(PageOf(vir) + i, 0x1_0000, VPNS);
    ModAdd(PageOf(vir), i, VPNS);
  }

  lemma FrameOfPageAddr(phys: u64, i: nat)
    ensures FrameOf(PageAddr(phys, i)) == (PageOf(phys) + i) % FRAMES
  {
    PageOfPageAddr(phys, i);
    ModMod(PageOf(phys) + i, 0x1000, FRAMES);
  }

  // The page at distance i behind w is v exactly when i is congruent to v's offset.
  lemma OffsetHit(w: nat, v: nat, i: nat)
    requires w < VPNS && v < VPNS
    ensures (w + i) % VPNS == v <==> i % VPNS == (v - w) % VPNS
  {
  }

  lemma LastStep(vir: u64, phys: u64, n: nat, v: nat)
    requires 0 < n
    ensures Last(PageList(vir, phys, n), v)
            == if (Vpn(vir) + n - 1) % VPNS == v then Some((PageOf(phys) + n - 1) % FRAMES)
               else Last(PageList(vir, phys, n - 1), v)
  {
    assert PageList(vir, phys, n)[..n - 1] == PageList(vir, phys, n - 1);
    VpnOfPageAddr(vir, n - 1);
    FrameOfPageAddr(phys, n - 1);
  }

  lemma {:induction false} LastOfPages(vir: u64, phys: u64, n: nat, v: nat)
    requires v < VPNS
    ensures var c := Call(vir, phys, n);
            Last(PageList(vir, phys, n), v)
            == if c.Offset(v) < n then Some((PageOf(phys) + c.Index(v)) % FRAMES) else None
  {
    if n > 0 {
      LastOfPages(vir, phys, n - 1, v);
      LastStep(vir, phys, n, v);
      OffsetHit(Vpn(vir), v, n - 1);
      IndexStep(Call(vir, phys, n).Offset(v), n);
    }
  }

  // It moves to n - 1 when n - 1 is congruent, and stays otherwise.
  lemma IndexStep(off: nat, n: nat)
    requires off < VPNS && 0 < n
    ensures (n - 1) % VPNS == off ==> off < n && LastIndex(off, n) == n - 1
    ensures (n - 1) % VPNS != off && off < n ==> off < n - 1 && LastIndex(off, n) == LastIndex(off, n - 1)
  {
  }

  lemma {:induction false} LastOfCalls(calls: seq<Call>, v: nat)
    requires v < VPNS
    ensures Last(Flat(calls), v) == Described(calls, v)
  {
    if calls != [] {
      var c := calls[|calls| - 1];
      LastOfCalls(calls[..|calls| - 1], v);
      LastAppend(Flat(calls[..|calls| - 1]), PageList(c.vir, c.phys, c.n), v);
      LastOfPages(c.vir, c.phys, c.n, v);
    }
  }

  lemma {:induction false} MapAllAppend(s: Vm, root: nat, xs: seq<Mapping>, ys: seq<Mapping>)
    ensures MapAll(s, root, xs + ys) == MapAll(MapAll(s, root, xs), root, ys)
    decreases |ys|
  {
    if ys == [] {
      assert xs + ys == xs;
    } else {
      var ys', y := ys[..|ys| - 1], ys[|ys| - 1];
      MapAllAppend(s, root, xs, ys');
      MapAllSnoc(s, root, xs + ys', y);
      MapAllSnoc(MapAll(s, root, xs), root, ys', y);
      AppendSnoc(xs, ys);
    }
  }

  function RunCalls(s: Vm, root: nat, calls: seq<Call>): Vm {
    if calls == [] then s
    else
      var c := calls[|calls| - 1];
      MapAll(RunCalls(s, root, calls[..|calls| - 1]), root, PageList(c.vir, c.phys, c.n))
  }

  lemma {:induction false} RunCallsFlat(s: Vm, root: nat, calls: seq<Call>)
    ensures RunCalls(s, root, calls) == MapAll(s, root, Flat(calls))
  {
    if calls != [] {
      var c := calls[|calls| - 1];
      RunCallsFlat(s, root, calls[..|calls| - 1]);
      MapAllAppend(s, root, Flat(calls[..|calls| - 1]), PageList(c.vir, c.phys, c.n));
    }
  }

  /** Any sequence of map_pages calls with room for its tables: the tree refines the described
      address space, pages not described keep their translation, and the calls pay exactly one
      frame per distinct missing table. */
  lemma CallsRefine(s: Vm, root: nat, calls: seq<Call>)
    requires Tree(s, root) && |Need(s.mem, root, Flat(calls))| <= |ClearRam(s)|
    ensures var s' := RunCalls(s, root, calls);
            && Tree(s', root) && Paid(s, s', |Need(s.mem, root, Flat(calls))|)
            && forall v: nat | v < VPNS :: Translate(s'.mem, root, v)
                 == match Described(calls, v) { case None => Translate(s.mem, root, v) case Some(f) => Some(f) }
  {
    var ms := Flat(calls);
    RunCallsFlat(s, root, calls);
    MapAllEffect(s, root, ms);
    CorrectWhenRoom(s, root, ms);
    forall v: nat | v < VPNS ensures Last(ms, v) == Described(calls, v) { LastOfCalls(calls, v); }
  }

  // ----- the cost of a range -----

  // How many pages lie below a node of level l, and how many nodes the level has.
  function Span(l: nat): nat
    requires 1 <= l <= 3
  {
    if l == 1 then 0x200 else if l == 2 then 0x4_0000 else 0x800_0000
  }

  function Nodes(l: nat): nat
    requires 1 <= l <= 3
  {
    if l == 1 then 0x800_0000 else if l == 2 then 0x4_0000 else 0x200
  }

  // How many nodes of level l the n pages from virtual page v touch.
  function Touched(v: nat, n: nat, l: nat): nat
    requires 1 <= l <= 3
  {
    if n == 0 then 0
    else
      var k := (v % Span(l) + n - 1) / Span(l) + 1;
      if k <= Nodes(l) then k else Nodes(l)
  }

  // Node number i behind node j in a ring of m nodes.
  function Ring(j: nat, i: nat, m: nat): nat
    requires 0 < m
  {
    (j + i) % m
  }

  // k nodes of level l from node j on, around the end of the address space.
  function Around(l: nat, j: nat, k: nat, m: nat): set<Node>
    requires 0 < m
  {
    set i: nat | i < k :: (l, Ring(j, i, m))
  }

  lemma {:induction false} AroundSize(l: nat, j: nat, k: nat, m: nat)
    requires k <= m && 0 < m
    ensures |Around(l, j, k, m)| == k
  {
    if k > 0 {
      AroundSize(l, j, k - 1, m);
      var x := (l, Ring(j, k - 1, m));
      AroundSnoc(l, j, k - 1, m);
      assert x !in Around(l, j, k - 1, m) by {
        forall i: nat | i < k - 1 ensures Ring(j, i, m) != Ring(j, k - 1, m) {
          NotCongruent(j + i, k - 1 - i, m);
        }
      }
    }
  }

  lemma AroundSnoc(l: nat, j: nat, k: nat, m: nat)
    requires 0 < m
    ensures Around(l, j, k + 1, m) == Around(l, j, k, m) + {(l, Ring(j, k, m))}
  {
  }

  lemma NotCongruent(x: nat, d: nat, m: nat)
    requires 0 < d < m
    ensures x % m != (x + d) % m
  {
    var q, r := x / m, x % m;
    assert x == q * m + r;
    if r + d < m {
      DivModUnique(x + d, m, q, r + d);
    } else {
      assert (q + 1) * m == q * m + m;
      DivModUnique(x + d, m, q + 1, r + d - m);
    }
  }

  lemma UpIsDiv(v: nat, l: nat)
    requires 1 <= l <= 3
    ensures Up(v, l) == v / Span(l)
  {
    assert Up(v, 1) == v / 0x200 && Up(v, 2) == v / 0x200 / 0x200 && Up(v, 3) == v / 0x200 / 0x200 / 0x200;
  }

  // Reducing modulo k * m before or after the division by k.
  lemma DivMod(x: nat, k: nat, m: nat)
    requires 0 < k && 0 < m
    ensures x % (k * m) / k == x / k % m
  {
    var h := x / k;
    var q, r := h / m, h % m;
    assert h == q * m + r;
    assert x == q * (k * m) + (r * k + x % k) by {
      assert x == h * k + x % k;
      assert (q * m + r) * k == q * (k * m) + r * k;
    }
    MulMono(r + 1, m, k);
    DivModUnique(x, k * m, q, r * k + x % k);
    DivModUnique(r * k + x % k, k, r, x % k);
  }

  // The node above the k-th page behind page v.
  lemma NodeOfPage(v: nat, k: nat, l: nat)
    requires 1 <= l <= 3
    ensures Up((v + k) % VPNS, l) == Ring(v / Span(l), (v % Span(l) + k) / Span(l), Nodes(l))
  {
    var s, q := Span(l), (v % Span(l) + k) / Span(l);
    UpIsDiv((v + k) % VPNS, l);
    DivMod(v + k, s, Nodes(l));
    DivSum(v, k, s);
  }

  lemma DivSum(v: nat, k: nat, s: nat)
    requires 0 < s
    ensures (v + k) / s == v / s + (v % s + k) / s
  {
    var q, r := (v % s + k) / s, (v % s + k) % s;
    assert v + k == (v / s + q) * s + r by {
      assert v == v / s * s + v % s && v % s + k == q * s + r;
    }
    DivModUnique(v + k, s, v / s + q, r);
  }

  lemma DivMono(a: nat, b: nat, s: nat)
    requires a <= b && 0 < s
    ensures a / s <= b / s
  {
    assert a == a / s * s + a % s && b == b / s * s + b % s;
    if a / s > b / s {
      MulMono(b / s + 1, a / s, s);
    }
  }

  // The nodes of level l that the n pages from virtual page v touch.
  function NodesOf(v: nat, n: nat, l: nat): set<Node>
    requires 1 <= l <= 3
  {
    Around(l, v / Span(l), Touched(v, n, l), Nodes(l))
  }

  // A page of the range lies below one of them.
  lemma TouchedNode(v: nat, n: nat, l: nat, k: nat)
    requires 1 <= l <= 3 && k < n
    ensures (l, Up((v + k) % VPNS, l)) in NodesOf(v, n, l)
  {
    var j, q, m := v / Span(l), (v % Span(l) + k) / Span(l), Nodes(l);
    NodeOfPage(v, k, l);
    DivMono(v % Span(l) + k, v % Span(l) + n - 1, Span(l));
    if q < Touched(v, n, l) {
      InAround(l, j, Touched(v, n, l), m, q);
    } else {
      RingTwice(j, q, m);
      InAround(l, j, m, m, q % m);
    }
  }

  lemma InAround(l: nat, j: nat, k: nat, m: nat, i: nat)
    requires i < k && 0 < m
    ensures (l, Ring(j, i, m)) in Around(l, j, k, m)
  {
  }

  lemma RingTwice(j: nat, i: nat, m: nat)
    requires 0 < m
    ensures Ring(j, i, m) == Ring(j, i % m, m)
  {
    ModAdd(i, j, m);
  }

  // And every one of them lies above a page of the range.
  lemma PageBelow(v: nat, n: nat, l: nat, q: nat) returns (k: nat)
    requires 1 <= l <= 3 && q < Touched(v, n, l)
    ensures k < n && Up((v + k) % VPNS, l) == Ring(v / Span(l), q, Nodes(l))
  {
    k := FirstBelow(v % Span(l), n, Span(l), q);
    NodeOfPage(v, k, l);
  }

  lemma FirstBelow(r: nat, n: nat, s: nat, q: nat) returns (k: nat)
    requires r < s && 0 < n && q <= (r + n - 1) / s
    ensures k < n && (r + k) / s == q
  {
    if q == 0 {
      k := 0;
      SmallQuotient(r, s);
    } else {
      MulMono(1, q, s);
      MulMono(q, (r + n - 1) / s, s);
      assert r + n - 1 == (r + n - 1) / s * s + (r + n - 1) % s;
      k := q * s - r;
      DivModUnique(q * s, s, q, 0);
    }
  }

  lemma NamesIsTouched(vir: u64, phys: u64, n: nat, l: nat, i: nat)
    requires 1 <= l <= 3
    ensures Names(PageList(vir, phys, n), l, i) <==> (l, i) in NodesOf(Vpn(vir), n, l)
  {
    var v, ms := Vpn(vir), PageList(vir, phys, n);
    if Names(ms, l, i) {
      var k :| 0 <= k < |ms| && Up(Vpn(ms[k].vir), l) == i;
      VpnOfPageAddr(vir, k);
      TouchedNode(v, n, l, k);
    }
    if (l, i) in NodesOf(v, n, l) {
      var q := NumberAround(l, v / Span(l), Touched(v, n, l), Nodes(l), i);
      var k := PageBelow(v, n, l, q);
      VpnOfPageAddr(vir, k);
      assert Up(Vpn(ms[k].vir), l) == i;
    }
  }

  lemma NumberAround(l: nat, j: nat, k: nat, m: nat, x: nat) returns (i: nat)
    requires 0 < m && (l, x) in Around(l, j, k, m)
    ensures i < k && x == Ring(j, i, m)
  {
    i :| i < k && x == Ring(j, i, m);
  }

  // All nodes that the n pages from vir touch, and their number.
  function TouchedNodes(vir: u64, n: nat): set<Node> {
    NodesOf(Vpn(vir), n, 3) + NodesOf(Vpn(vir), n, 2) + NodesOf(Vpn(vir), n, 1)
  }

  function RangeCost(vir: u64, n: nat): nat {
    Touched(Vpn(vir), n, 3) + Touched(Vpn(vir), n, 2) + Touched(Vpn(vir), n, 1)
  }

  lemma TouchedSize(vir: u64, n: nat)
    ensures |TouchedNodes(vir, n)| == RangeCost(vir, n)
  {
    var v := Vpn(vir);
    LevelSize(v, n, 3);
    LevelSize(v, n, 2);
    LevelSize(v, n, 1);
    ThreeSizes(NodesOf(v, n, 3), NodesOf(v, n, 2), NodesOf(v, n, 1));
  }

  lemma LevelSize(v: nat, n: nat, l: nat)
    requires 1 <= l <= 3
    ensures |NodesOf(v, n, l)| == Touched(v, n, l)
    ensures forall x :: x in NodesOf(v, n, l) ==> x.0 == l
  {
    AroundSize(l, v / Span(l), Touched(v, n, l), Nodes(l));
  }

  lemma InTouched(vir: u64, n: nat, l: nat, i: nat)
    ensures (l, i) in TouchedNodes(vir, n) <==> 1 <= l <= 3 && (l, i) in NodesOf(Vpn(vir), n, l)
  {
    LevelSize(Vpn(vir), n, 1);
    LevelSize(Vpn(vir), n, 2);
    LevelSize(Vpn(vir), n, 3);
  }

  lemma NeedIsTouched(mem: seq<Pte>, root: nat, vir: u64, phys: u64, n: nat, l: nat, i: nat)
    ensures (l, i) in Need(mem, root, PageList(vir, phys, n))
            <==> 1 <= l <= 3 && At(mem, root, l, i).None? && (l, i) in TouchedNodes(vir, n)
  {
    NeedMember(mem, root, PageList(vir, phys, n), (l, i));
    InTouched(vir, n, l, i);
    if 1 <= l <= 3 {
      NamesIsTouched(vir, phys, n, l, i);
    }
  }

  /** In every tree a range costs at most as many frames as it touches nodes below the root: per level
      the number of distinct prefixes of its pages, also where the range wraps. */
  lemma CostAtMost(mem: seq<Pte>, root: nat, vir: u64, phys: u64, n: nat)
    ensures |Need(mem, root, PageList(vir, phys, n))| <= RangeCost(vir, n)
  {
    var need, all := Need(mem, root, PageList(vir, phys, n)), TouchedNodes(vir, n);
    forall x | x in need ensures x in all { NeedIsTouched(mem, root, vir, phys, n, x.0, x.1); }
    TouchedSize(vir, n);
    SubsetSize(need, all);
  }

  lemma SubsetSize<T>(a: set<T>, b: set<T>)
    requires a <= b
    ensures |a| <= |b|
  {
    assert b == a + (b - a);
  }

  // With an empty PML4 all of them are missing.
  lemma NeedOfRange(mem: seq<Pte>, root: nat, vir: u64, phys: u64, n: nat)
    requires forall i :: At(mem, root, 3, i).None?
    ensures Need(mem, root, PageList(vir, phys, n)) == TouchedNodes(vir, n)
  {
    forall x: Node ensures x in Need(mem, root, PageList(vir, phys, n)) <==> x in TouchedNodes(vir, n) {
      NeedIsTouched(mem, root, vir, phys, n, x.0, x.1);
      InTouched(vir, n, x.0, x.1);
      if 1 <= x.0 <= 3 { EmptyBelow(mem, root, x.0, x.1); }
    }
  }

  /** Into an empty PML4 it costs exactly that many. */
  lemma CostOfRange(s: Vm, root: nat, vir: u64, phys: u64, n: nat)
    requires Tree(s, root) && forall i :: At(s.mem, root, 3, i).None?
    ensures |Need(s.mem, root, PageList(vir, phys, n))| == RangeCost(vir, n)
    ensures RangeCost(vir, n) <= |ClearRam(s)| ==>
              Paid(s, MapAll(s, root, PageList(vir, phys, n)), RangeCost(vir, n))
  {
    NeedOfRange(s.mem, root, vir, phys, n);
    TouchedSize(vir, n);
    if RangeCost(vir, n) <= |ClearRam(s)| {
      MapAllEffect(s, root, PageList(vir, phys, n));
    }
  }

  /** From address 0, n pages cost ceil(n / 512) + ceil(n / 512^2) + ceil(n / 512^3) frames. */
  lemma CostFromZero(n: nat)
    requires n <= VPNS
    ensures RangeCost(0, n) == (n + 0x1FF) / 0x200 + (n + 0x3_FFFF) / 0x4_0000 + (n + 0x7FF_FFFF) / 0x800_0000
  {
    TouchedFromZero(n, 1);
    TouchedFromZero(n, 2);
    TouchedFromZero(n, 3);
  }

  lemma TouchedFromZero(n: nat, l: nat)
    requires n <= VPNS && 1 <= l <= 3
    ensures Touched(0, n, l) == (n + Span(l) - 1) / Span(l)
  {
    if n == 0 {
      SmallQuotient(Span(l) - 1, Span(l));
    } else {
      DivSum(Span(l), n - 1, Span(l));
    }
  }

  lemma {:induction false} EmptyBelow(mem: seq<Pte>, root: nat, l: nat, i: nat)
    requires l <= 3 && forall j :: At(mem, root, 3, j).None?
    ensures At(mem, root, l, i).None?
    decreases 3 - l
  {
    if l < 3 {
      EmptyBelow(mem, root, l + 1, i / SLOTS);
    }
  }

  lemma NeedSnoc(mem: seq<Pte>, root: nat, ms: seq<Mapping>, m: Mapping)
    ensures Need(mem, root, ms + [m]) == Need(mem, root, ms) + NeedOf(mem, root, Vpn(m.vir))
  {
    assert (ms + [m])[..|ms|] == ms;
  }
}
