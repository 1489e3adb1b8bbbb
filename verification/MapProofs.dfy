/** What runs of map_page do to the tree, the address space and the allocator. */
module MapProofs {
  import opened Machine
  import opened Allocator
  import opened PageTables

  type Node = (nat, nat)

  /** One map_page call: virtual and physical address. */
  datatype Mapping = Mapping(vir: u64, phys: u64)

  function MapAll(s: Vm, root: nat, ms: seq<Mapping>): Vm {
    if ms == [] then s
    else
      var m := ms[|ms| - 1];
      MapPage(MapAll(s, root, ms[..|ms| - 1]), root, m.vir, m.phys)
  }

  // The calls of map_page made by one map_pages.
  function PageList(vir: u64, phys: u64, n: nat): (ms: seq<Mapping>)
    ensures |ms| == n
    ensures forall i :: 0 <= i < n ==> ms[i] == Mapping(PageAddr(vir, i), PageAddr(phys, i))
  {
    seq(n, i requires 0 <= i < n => Mapping(PageAddr(vir, i), PageAddr(phys, i)))
  }

  lemma MapAllSnoc(s: Vm, root: nat, ms: seq<Mapping>, m: Mapping)
    ensures MapAll(s, root, ms + [m]) == MapPage(MapAll(s, root, ms), root, m.vir, m.phys)
  {
    assert (ms + [m])[..|ms|] == ms;
  }

  lemma PageListSnoc(vir: u64, phys: u64, n: nat)
    ensures PageList(vir, phys, n + 1) == PageList(vir, phys, n) + [Mapping(PageAddr(vir, n), PageAddr(phys, n))]
  {
  }

  function Missing(mem: seq<Pte>, root: nat, l: nat, i: nat): set<Node> {
    if At(mem, root, l, i).None? then {(l, i)} else {}
  }

  // The tables on the way to vpn that are missing.
  function NeedOf(mem: seq<Pte>, root: nat, vpn: nat): set<Node> {
    Missing(mem, root, 3, Up(vpn, 3)) + Missing(mem, root, 2, Up(vpn, 2)) + Missing(mem, root, 1, Up(vpn, 1))
  }

  // The tables that are missing for a list of mappings: one per distinct missing prefix.
  function Need(mem: seq<Pte>, root: nat, ms: seq<Mapping>): set<Node> {
    if ms == [] then {} else Need(mem, root, ms[..|ms| - 1]) + NeedOf(mem, root, Vpn(ms[|ms| - 1].vir))
  }

  // The last mapping of the list that names virtual page vpn decides.
  function Last(ms: seq<Mapping>, vpn: nat): Option<Frame> {
    if ms == [] then None
    else if Vpn(ms[|ms| - 1].vir) == vpn then Some(FrameOf(ms[|ms| - 1].phys))
    else Last(ms[..|ms| - 1], vpn)
  }

  // The last-level entry a page should have after the list: only addr, p and rw are written.
  function LeafAfter(e: Pte, ms: seq<Mapping>, vpn: nat): Pte {
    match Last(ms, vpn) case None => e case Some(f) => e.(addr := f, p := true, rw := true)
  }

  // RAM frames that are not marked in use.
  function ClearRam(s: Vm): set<nat> { set f | 0 <= f < s.Frames() && s.alloc.IsClear(f) }

  /** s' has the tables of s and, in addition, exactly the tables `need`, each on a frame that was
      clear RAM in s; those frames, and no others, became marked, and the counters say so. */
  ghost predicate Grown(s: Vm, s': Vm, root: nat, need: set<Node>) {
    && Tree(s', root) && |s'.mem| == |s.mem| && |s'.alloc.bits| == |s.alloc.bits|
    && NodesGrown(s, s', root, need)
    && MarksGrown(s, s', root, need)
    && LinksGrown(s, s', root, need)
    && Paid(s, s', |need|)
  }

  ghost predicate NodesGrown(s: Vm, s': Vm, root: nat, need: set<Node>) {
    && (forall l: nat, i: nat :: 1 <= l <= 4 && At(s.mem, root, l, i).Some? ==>
          At(s'.mem, root, l, i) == At(s.mem, root, l, i))
    && (forall l: nat, i: nat :: 1 <= l <= 4 && At(s.mem, root, l, i).None? ==>
          (At(s'.mem, root, l, i).Some? <==> (l, i) in need))
    && (forall n :: n in need ==> 1 <= n.0 <= 3 && Fresh(s, s', root, n))
  }

  // Node n is new in s' and stands on a frame that was clear RAM in s.
  ghost predicate Fresh(s: Vm, s': Vm, root: nat, n: Node) {
    && At(s.mem, root, n.0, n.1).None? && At(s'.mem, root, n.0, n.1).Some?
    && At(s'.mem, root, n.0, n.1).value in ClearRam(s)
  }

  ghost predicate MarksGrown(s: Vm, s': Vm, root: nat, need: set<Node>) {
    forall f: nat :: s'.alloc.IsSet(f) <==> s.alloc.IsSet(f) || TakenBy(s'.mem, root, need, f)
  }

  ghost predicate TakenBy(mem: seq<Pte>, root: nat, need: set<Node>, f: nat) {
    exists n :: n in need && At(mem, root, n.0, n.1) == Some(f)
  }

  // The new tables are linked for reading and writing, and the links that were there are untouched.
  ghost predicate LinksGrown(s: Vm, s': Vm, root: nat, need: set<Node>) {
    LinksKept(s.mem, s'.mem, root) && forall n :: n in need ==> Linked(s'.mem, root, n)
  }

  ghost predicate Linked(mem: seq<Pte>, root: nat, n: Node) {
    At(mem, root, n.0, n.1).Some? && LinksTo(EntryOf(mem, root, n.0, n.1), At(mem, root, n.0, n.1).value)
  }

  // k clear RAM frames were taken for tables, and are accounted as used.
  predicate Paid(s: Vm, s': Vm, k: nat) {
    && |ClearRam(s')| == |ClearRam(s)| - k
    && s'.alloc.used == (s.alloc.used + k * PAGE_SIZE) % WORD
    && s'.alloc.free == (s.alloc.free - k * PAGE_SIZE) % WORD
    && s'.alloc.reserved == s.alloc.reserved
  }

  lemma GrownNothing(s: Vm, root: nat)
    requires Tree(s, root)
    ensures Grown(s, s, root, {})
  {
  }

  // A missing table is added.
  lemma GrownOne(s: Vm, s': Vm, root: nat, l: nat, i: nat, g: nat)
    requires Tree(s', root) && |s'.mem| == |s.mem| && 1 <= l <= 3
    requires At(s.mem, root, l, i).None? && NodeAdded(s.mem, s'.mem, root, l, i, g)
    requires g in ClearRam(s) && s'.alloc == Mark(s.alloc, Lock, g)
    requires LinksTo(EntryOf(s'.mem, root, l, i), g) && LinksKept(s.mem, s'.mem, root)
    ensures Grown(s, s', root, {(l, i)})
  {
    assert ClearRam(s') == ClearRam(s) - {g};
    assert At(s'.mem, root, l, i) == Some(g);
    assert NodesGrown(s, s', root, {(l, i)}) by {
      assert Fresh(s, s', root, (l, i));
    }
    assert MarksGrown(s, s', root, {(l, i)}) by {
      assert TakenBy(s'.mem, root, {(l, i)}, g) by { assert (l, i) in {(l, i)}; }
    }
  }

  lemma ClearShrinks(s: Vm, s': Vm, root: nat, need: set<Node>)
    requires MarksGrown(s, s', root, need)
    requires |s.mem| == |s'.mem| && |s.alloc.bits| == |s'.alloc.bits|
    ensures ClearRam(s') <= ClearRam(s)
  {
    forall f | f in ClearRam(s') ensures f in ClearRam(s) {
      assert s'.alloc.IsClear(f) && !s'.alloc.IsSet(f) && !s.alloc.IsSet(f);
      assert s.alloc.IsClear(f);
    }
  }

  lemma NodesTwice(s: Vm, s': Vm, s'': Vm, root: nat, a: set<Node>, b: set<Node>)
    requires NodesGrown(s, s', root, a) && MarksGrown(s, s', root, a) && NodesGrown(s', s'', root, b)
    requires |s.mem| == |s'.mem| && |s.alloc.bits| == |s'.alloc.bits|
    ensures a !! b && NodesGrown(s, s'', root, a + b)
  {
    forall n | n in a ensures n !in b && Fresh(s, s'', root, n) {
      assert Fresh(s, s', root, n);
      assert n in b ==> Fresh(s', s'', root, n);
    }
    ClearShrinks(s, s', root, a);
    forall n | n in b ensures Fresh(s, s'', root, n) {
      assert Fresh(s', s'', root, n);
    }
  }

  lemma MarksTwice(s: Vm, s': Vm, s'': Vm, root: nat, a: set<Node>, b: set<Node>)
    requires NodesGrown(s, s', root, a) && NodesGrown(s', s'', root, b)
    requires MarksGrown(s, s', root, a) && MarksGrown(s', s'', root, b)
    ensures MarksGrown(s, s'', root, a + b)
  {
  }

  lemma LinksTwice(s: Vm, s': Vm, s'': Vm, root: nat, a: set<Node>, b: set<Node>)
    requires NodesGrown(s, s', root, a) && NodesGrown(s', s'', root, b)
    requires LinksGrown(s, s', root, a) && LinksGrown(s', s'', root, b)
    ensures LinksGrown(s, s'', root, a + b)
  {
    forall n | n in a ensures Linked(s''.mem, root, n) {
      assert Fresh(s, s', root, n) && Linked(s'.mem, root, n);
    }
    forall k: nat, i: nat | 1 <= k <= 3 && At(s.mem, root, k, i).Some?
      ensures EntryOf(s''.mem, root, k, i) == EntryOf(s.mem, root, k, i)
    {
      assert At(s'.mem, root, k, i).Some?;
    }
  }

  lemma PaidTwice(s: Vm, s': Vm, s'': Vm, a: nat, b: nat)
    requires Paid(s, s', a) && Paid(s', s'', b)
    ensures Paid(s, s'', a + b)
  {
    AddMod(s.alloc.used, a * PAGE_SIZE, b * PAGE_SIZE);
    var da: int, db: int := -(a * PAGE_SIZE), -(b * PAGE_SIZE);
    AddMod(s.alloc.free, da, db);
  }

  lemma GrownTwice(s: Vm, s': Vm, s'': Vm, root: nat, a: set<Node>, b: set<Node>)
    requires Grown(s, s', root, a) && Grown(s', s'', root, b)
    ensures a !! b && Grown(s, s'', root, a + b)
  {
    NodesTwice(s, s', s'', root, a, b);
    MarksTwice(s, s', s'', root, a, b);
    LinksTwice(s, s', s'', root, a, b);
    PaidBoth(s, s', s'', a, b);
    GrownParts(s, s'', root, a + b);
  }

  lemma PaidBoth(s: Vm, s': Vm, s'': Vm, a: set<Node>, b: set<Node>)
    requires a !! b && Paid(s, s', |a|) && Paid(s', s'', |b|)
    ensures Paid(s, s'', |a + b|)
  {
    PaidTwice(s, s', s'', |a|, |b|);
    assert |a + b| == |a| + |b|;
  }

  lemma GrownParts(s: Vm, s': Vm, root: nat, need: set<Node>)
    requires Tree(s', root) && |s'.mem| == |s.mem| && |s'.alloc.bits| == |s.alloc.bits|
    requires NodesGrown(s, s', root, need) && MarksGrown(s, s', root, need) && LinksGrown(s, s', root, need)
    requires Paid(s, s', |need|)
    ensures Grown(s, s', root, need)
  {
  }

  // ----- one call of map_page -----

  // One of the three blocks: afterwards node (l, c) is there, and nothing else moved.
  lemma NextLevel(s: Vm, root: nat, l: nat, c: nat)
    requires Tree(s, root) && 1 <= l <= 3 && At(s.mem, root, l + 1, c / SLOTS).Some?
    requires |Missing(s.mem, root, l, c)| <= |ClearRam(s)|
    ensures var (s', g) := Next(s, At(s.mem, root, l + 1, c / SLOTS).value, c % SLOTS);
            && Grown(s, s', root, Missing(s.mem, root, l, c))
            && At(s'.mem, root, l, c) == Some(g)
            && SameLeaves(s.mem, s'.mem, root)
  {
    if At(s.mem, root, l, c).Some? {
      GrownNothing(s, root);
    } else {
      NextNew(s, root, l, c);
    }
  }

  lemma NextNew(s: Vm, root: nat, l: nat, c: nat)
    requires Tree(s, root) && 1 <= l <= 3 && At(s.mem, root, l + 1, c / SLOTS).Some?
    requires At(s.mem, root, l, c).None? && 1 <= |ClearRam(s)|
    ensures var (s', g) := Next(s, At(s.mem, root, l + 1, c / SLOTS).value, c % SLOTS);
            && Grown(s, s', root, {(l, c)})
            && At(s'.mem, root, l, c) == Some(g)
            && SameLeaves(s.mem, s'.mem, root)
  {
    RoomLeft(s);
    NewTableIsFree(s, root);
    assert c / SLOTS * SLOTS + c % SLOTS == c;
    NewTableLinked(s, root, l + 1, c / SLOTS, c % SLOTS);
    var (s', g) := Next(s, At(s.mem, root, l + 1, c / SLOTS).value, c % SLOTS);
    GrownOne(s, s', root, l, c, g);
  }

  lemma RoomLeft(s: Vm)
    requires 1 <= |ClearRam(s)|
    ensures Room(s)
  {
    var i :| i in ClearRam(s);
  }

  ghost predicate SameLeaves(mem: seq<Pte>, mem': seq<Pte>, root: nat) {
    forall v: nat :: Leaf(mem', root, v) == Leaf(mem, root, v)
  }

  // The tables that a level still misses after a lower-numbered node was added.
  lemma MissingLater(s: Vm, s': Vm, root: nat, need: set<Node>, l: nat, i: nat)
    requires NodesGrown(s, s', root, need) && 1 <= l <= 3 && (l, i) !in need
    ensures Missing(s'.mem, root, l, i) == Missing(s.mem, root, l, i)
  {
  }

  lemma ThreeSizes<T>(a: set<T>, b: set<T>, c: set<T>)
    requires a !! b && (a + b) !! c
    ensures |a + b + c| == |a| + |b| + |c|
  {
    assert |a + b| == |a| + |b|;
  }

  // The three blocks together.
  lemma AllLevels(s: Vm, root: nat, vir: u64)
    requires Tree(s, root) && |NeedOf(s.mem, root, Vpn(vir))| <= |ClearRam(s)|
    ensures var v := Vpn(vir);
            var (s3, pdpt) := Next(s, root, vir / 0x80_0000_0000 % SLOTS);
            var (s2, pd) := Next(s3, pdpt, vir / 0x4000_0000 % SLOTS);
            var (s1, pt) := Next(s2, pd, vir / 0x20_0000 % SLOTS);
            && Ready(s, root, 3, Up(v, 3), root)
            && Ready(s3, root, 2, Up(v, 2), pdpt)
            && Ready(s2, root, 1, Up(v, 1), pd)
            && |s3.mem| == |s2.mem| == |s.mem|
            && Grown(s, s1, root, NeedOf(s.mem, root, Vpn(vir)))
            && At(s1.mem, root, 1, Up(Vpn(vir), 1)) == Some(pt)
            && SameLeaves(s.mem, s1.mem, root)
  {
    var v := Vpn(vir);
    IndexFields(vir);
    var n3 := Missing(s.mem, root, 3, Up(v, 3));
    var n2 := Missing(s.mem, root, 2, Up(v, 2));
    var n1 := Missing(s.mem, root, 1, Up(v, 1));
    ThreeSizes(n3, n2, n1);
    var (s3, pdpt) := Next(s, root, Up(v, 3));
    assert Up(v, 3) / SLOTS == 0 && Up(v, 3) % SLOTS == Up(v, 3);
    NextLevel(s, root, 3, Up(v, 3));
    MissingLater(s, s3, root, n3, 2, Up(v, 2));
    MissingLater(s, s3, root, n3, 1, Up(v, 1));
    var (s2, pd) := Next(s3, pdpt, Up(v, 2) % SLOTS);
    NextLevel(s3, root, 2, Up(v, 2));
    MissingLater(s3, s2, root, n2, 1, Up(v, 1));
    NextLevel(s2, root, 1, Up(v, 1));
    GrownTwice(s, s3, s2, root, n3, n2);
    GrownTwice(s, s2, Next(s2, pd, Up(v, 1) % SLOTS).0, root, n3 + n2, n1);
  }

  // Table f is in place above node (l, c), and there is room for that node.
  ghost predicate Ready(s: Vm, root: nat, l: nat, c: nat, f: nat) {
    Tree(s, root) && At(s.mem, root, l + 1, c / SLOTS) == Some(f)
    && |Missing(s.mem, root, l, c)| <= |ClearRam(s)|
  }

  predicate InRam(s: Vm, f: nat) { f * SLOTS + SLOTS <= |s.mem| }

  // A block that is ready works inside RAM.
  lemma ReadyInRam(s: Vm, root: nat, l: nat, c: nat, f: nat)
    requires Ready(s, root, l, c, f) && 1 <= l <= 3
    ensures InRam(s, f) && (!Entry(s.mem, f, c % SLOTS).p ==> InRam(s, NewTable(s)))
  {
  }

  lemma GrownSameNodes(s: Vm, s': Vm, s'': Vm, root: nat, need: set<Node>)
    requires Grown(s, s', root, need) && Tree(s'', root) && s''.alloc == s'.alloc && |s''.mem| == |s'.mem|
    requires forall k, i :: 1 <= k <= 4 ==> At(s''.mem, root, k, i) == At(s'.mem, root, k, i)
    requires LinksKept(s'.mem, s''.mem, root)
    ensures Grown(s, s'', root, need)
  {
    SameNodes(s, s', s'', root, need);
    SameMarks(s, s', s'', root, need);
    SameLinks(s, s', s'', root, need);
    assert ClearRam(s'') == ClearRam(s');
    GrownParts(s, s'', root, need);
  }

  lemma SameNodes(s: Vm, s': Vm, s'': Vm, root: nat, need: set<Node>)
    requires NodesGrown(s, s', root, need)
    requires forall k, i :: 1 <= k <= 4 ==> At(s''.mem, root, k, i) == At(s'.mem, root, k, i)
    ensures NodesGrown(s, s'', root, need)
  {
    forall n | n in need ensures 1 <= n.0 <= 3 && Fresh(s, s'', root, n) {
      assert Fresh(s, s', root, n);
    }
  }

  lemma SameLinks(s: Vm, s': Vm, s'': Vm, root: nat, need: set<Node>)
    requires NodesGrown(s, s', root, need) && LinksGrown(s, s', root, need) && LinksKept(s'.mem, s''.mem, root)
    requires forall k, i :: 1 <= k <= 4 ==> At(s''.mem, root, k, i) == At(s'.mem, root, k, i)
    ensures LinksGrown(s, s'', root, need)
  {
    forall n | n in need ensures Linked(s''.mem, root, n) {
      assert Fresh(s, s', root, n) && Linked(s'.mem, root, n);
    }
    forall k: nat, i: nat | 1 <= k <= 3 && At(s.mem, root, k, i).Some?
      ensures EntryOf(s''.mem, root, k, i) == EntryOf(s.mem, root, k, i)
    {
      assert At(s'.mem, root, k, i).Some?;
    }
  }

  lemma SameMarks(s: Vm, s': Vm, s'': Vm, root: nat, need: set<Node>)
    requires NodesGrown(s, s', root, need) && MarksGrown(s, s', root, need) && s''.alloc == s'.alloc
    requires forall k, i :: 1 <= k <= 4 ==> At(s''.mem, root, k, i) == At(s'.mem, root, k, i)
    ensures MarksGrown(s, s'', root, need)
  {
    forall f: nat ensures TakenBy(s''.mem, root, need, f) <==> TakenBy(s'.mem, root, need, f) {
      assert forall n :: n in need ==> At(s''.mem, root, n.0, n.1) == At(s'.mem, root, n.0, n.1);
    }
  }

  /** map_page on a well-formed tree: the page it names translates to the frame it names, every
      other last-level entry is untouched, and exactly the missing tables were taken from clear RAM. */
  lemma MapPageEffect(s: Vm, root: nat, m: Mapping)
    requires Tree(s, root) && |NeedOf(s.mem, root, Vpn(m.vir))| <= |ClearRam(s)|
    ensures var s' := MapPage(s, root, m.vir, m.phys);
            && Grown(s, s', root, NeedOf(s.mem, root, Vpn(m.vir)))
            && LeavesAfter(s, s', root, [m])
  {
    var v := Vpn(m.vir);
    AllLevels(s, root, m.vir);
    IndexFields(m.vir);
    var (s3, pdpt) := Next(s, root, m.vir / 0x80_0000_0000 % SLOTS);
    var (s2, pd) := Next(s3, pdpt, m.vir / 0x4000_0000 % SLOTS);
    var (s1, pt) := Next(s2, pd, m.vir / 0x20_0000 % SLOTS);
    var e := Leaf(s1.mem, root, v).(addr := FrameOf(m.phys), p := true, rw := true);
    LeafWritten(s1, root, v, e);
    GrownSameNodes(s, s1, MapPage(s, root, m.vir, m.phys), root, NeedOf(s.mem, root, v));
    forall w: nat
      ensures Leaf(MapPage(s, root, m.vir, m.phys).mem, root, w) == LeafAfter(Leaf(s.mem, root, w), [m], w)
    {
      LastOfOne(m, w);
    }
  }

  lemma LastOfOne(m: Mapping, v: nat)
    ensures Last([m], v) == if Vpn(m.vir) == v then Some(FrameOf(m.phys)) else None
  {
    assert [m][..0] == [];
  }

  // What is still missing for a page after earlier pages were mapped.
  lemma NeedLater(s: Vm, s': Vm, root: nat, need: set<Node>, v: nat)
    requires NodesGrown(s, s', root, need)
    ensures NeedOf(s'.mem, root, v) == NeedOf(s.mem, root, v) - need
  {
  }

  lemma NeedSplit(a: set<Node>, b: set<Node>)
    ensures |a + b| == |a| + |b - a| && a + (b - a) == a + b
  {
    assert a + b == a + (b - a);
  }

  lemma LeafAfterSnoc(e: Pte, ms: seq<Mapping>, v: nat)
    requires ms != []
    ensures LeafAfter(LeafAfter(e, ms[..|ms| - 1], v), [ms[|ms| - 1]], v) == LeafAfter(e, ms, v)
  {
    LastOfOne(ms[|ms| - 1], v);
  }

  /** A run of map_page calls with enough clear RAM: the last call that names a page decides its
      entry, one table is taken per distinct missing prefix, and the tree stays a tree. */
  lemma {:induction false} MapAllEffect(s: Vm, root: nat, ms: seq<Mapping>)
    requires Tree(s, root) && |Need(s.mem, root, ms)| <= |ClearRam(s)|
    ensures Grown(s, MapAll(s, root, ms), root, Need(s.mem, root, ms))
    ensures LeavesAfter(s, MapAll(s, root, ms), root, ms)
  {
    if ms == [] {
      GrownNothing(s, root);
    } else {
      var ms', m := ms[..|ms| - 1], ms[|ms| - 1];
      var a, b := Need(s.mem, root, ms'), NeedOf(s.mem, root, Vpn(m.vir));
      NeedSplit(a, b);
      MapAllEffect(s, root, ms');
      MapAllStep(s, MapAll(s, root, ms'), root, ms, a, b);
    }
  }

  ghost predicate LeavesAfter(s: Vm, s': Vm, root: nat, ms: seq<Mapping>) {
    forall v: nat :: Leaf(s'.mem, root, v) == LeafAfter(Leaf(s.mem, root, v), ms, v)
  }

  lemma MapAllStep(s: Vm, s': Vm, root: nat, ms: seq<Mapping>, a: set<Node>, b: set<Node>)
    requires ms != [] && b == NeedOf(s.mem, root, Vpn(ms[|ms| - 1].vir))
    requires Grown(s, s', root, a) && LeavesAfter(s, s', root, ms[..|ms| - 1])
    requires |a| + |b - a| <= |ClearRam(s)|
    ensures var m := ms[|ms| - 1]; var s'' := MapPage(s', root, m.vir, m.phys);
            Grown(s, s'', root, a + (b - a)) && LeavesAfter(s, s'', root, ms)
  {
    var m := ms[|ms| - 1];
    var s'' := MapPage(s', root, m.vir, m.phys);
    NeedLater(s, s', root, a, Vpn(m.vir));
    MapPageEffect(s', root, m);
    GrownTwice(s, s', s'', root, a, b - a);
    forall v: nat ensures Leaf(s''.mem, root, v) == LeafAfter(Leaf(s.mem, root, v), ms, v) {
      LeafAfterSnoc(Leaf(s.mem, root, v), ms, v);
    }
  }
}
