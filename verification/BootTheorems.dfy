/** When the set-up of _start is right, and what its callers may rely on then. */
module BootTheorems {
  import opened Machine
  import opened Allocator
  import opened AllocatorRuns
  import opened PageTables
  import opened MapProofs
  import opened MapTheorems
  import opened KernelRuns
  import opened HardwareWalk
  import opened MemoryMap
  import opened Boot

  // ----- the lowest frames go first -----

  // What was taken of a set of clear frames lies below all that was left.
  ghost predicate LowestTaken(before: set<nat>, after: set<nat>) {
    after <= before && forall x, y :: x in before && x !in after && y in after ==> x < y
  }

  lemma LowestTwice(a: set<nat>, b: set<nat>, c: set<nat>)
    requires LowestTaken(a, b) && LowestTaken(b, c)
    ensures LowestTaken(a, c)
  {
  }

  // Exactly the frames with enough others below them are left.
  lemma LeftIff(all: set<nat>, left: set<nat>, p: nat)
    requires LowestTaken(all, left) && p in all
    ensures p in left <==> |all - left| <= |Below(all, p)|
  {
    if p in left {
      SubsetSize(all - left, Below(all, p));
    } else {
      assert Below(all, p) <= all - left - {p};
      SubsetSize(Below(all, p), all - left - {p});
    }
  }

  lemma SameClear(s: Vm, t: Vm)
    requires s.alloc == t.alloc && |s.mem| == |t.mem|
    ensures ClearRam(s) == ClearRam(t)
  {
  }

  lemma RequestLowest(s: Vm)
    ensures LowestTaken(ClearRam(s), ClearRam(s.(alloc := Requested(s.alloc))))
  {
    if Found(s.alloc).Some? {
      var i := Found(s.alloc).value;
      LockedClear(s, i);
      forall y | y in ClearRam(s) && y != i ensures i < y { assert s.alloc.IsClear(y); }
    }
  }

  lemma NextLowest(s: Vm, f: nat, slot: nat)
    ensures LowestTaken(ClearRam(s), ClearRam(Next(s, f, slot).0))
  {
    var t := Next(s, f, slot).0;
    RequestLowest(s);
    if t.alloc == s.alloc {
      SameClear(t, s);
    } else {
      SameClear(t, s.(alloc := Requested(s.alloc)));
    }
  }

  lemma MapPageLowest(s: Vm, root: nat, m: Mapping)
    ensures LowestTaken(ClearRam(s), ClearRam(MapPage(s, root, m.vir, m.phys)))
  {
    var i3, i2, i1 := m.vir / 0x80_0000_0000 % SLOTS, m.vir / 0x4000_0000 % SLOTS, m.vir / 0x20_0000 % SLOTS;
    var (s3, pdpt) := Next(s, root, i3);
    var (s2, pd) := Next(s3, pdpt, i2);
    var s1 := Next(s2, pd, i1).0;
    NextLowest(s, root, i3);
    NextLowest(s3, pdpt, i2);
    NextLowest(s2, pd, i1);
    LowestTwice(ClearRam(s), ClearRam(s3), ClearRam(s2));
    LowestTwice(ClearRam(s), ClearRam(s2), ClearRam(s1));
    SameClear(MapPage(s, root, m.vir, m.phys), s1);
  }

  /** Every run of map_page calls takes the lowest clear RAM frames, with room or without. */
  lemma {:induction false} MapAllLowest(s: Vm, root: nat, ms: seq<Mapping>)
    ensures LowestTaken(ClearRam(s), ClearRam(MapAll(s, root, ms)))
  {
    if ms != [] {
      var t := MapAll(s, root, ms[..|ms| - 1]);
      MapAllLowest(s, root, ms[..|ms| - 1]);
      MapPageLowest(t, root, ms[|ms| - 1]);
      LowestTwice(ClearRam(s), ClearRam(t), ClearRam(MapAll(s, root, ms)));
    }
  }

  // ----- the stages -----

  lemma UsableIsClear(l: Layout, behind: bool, s: Vm)
    requires s.alloc == Reserved(l, behind) && s.Frames() == RamPages(l)
    requires Tiles(l.descs, RamPages(l)) && l.Placed(RamPages(l))
    ensures ClearRam(s) == UsablePages(l)
  {
    forall f: nat | f < RamPages(l) ensures s.alloc.IsClear(f) <==> l.Usable(f) {
      ClearIffUsable(l, behind, RamPages(l), f);
    }
  }

  // The root takes the lowest usable page.
  lemma RootStage(l: Layout, behind: bool, ram: seq<Pte>)
    requires Sized(l, ram)
    ensures var s, root := WithRoot(l, behind, ram), Root(l, behind, ram);
            && Tree(s, root) && root in UsablePages(l) && ClearRam(s) == UsablePages(l) - {root}
            && LowestTaken(UsablePages(l), ClearRam(s))
  {
    var r := Vm(Reserved(l, behind), ram);
    var s, root := WithRoot(l, behind, ram), Root(l, behind, ram);
    RootIsFree(l, behind, ram);
    RootTree(l, behind, ram);
    FramesOf(r, RamPages(l));
    UsableIsClear(l, behind, r);
    LockedClear(r, root);
    RequestLowest(r);
    SameClear(s, r.(alloc := Requested(r.alloc)));
  }

  // The identity map takes the next ones.
  lemma EarlyStage(l: Layout, behind: bool, ram: seq<Pte>)
    requires Sized(l, ram) && EarlyCost(l) <= |UsablePages(l)|
    ensures var s, t, root := WithRoot(l, behind, ram), WithRam(l, behind, ram), Root(l, behind, ram);
            && Need(s.mem, root, IdentityMaps(l)) == TouchedNodes(0, RamPages(l))
            && |TouchedNodes(0, RamPages(l))| == RangeCost(0, RamPages(l)) <= |ClearRam(s)|
            && Grown(s, t, root, TouchedNodes(0, RamPages(l))) && ClearRam(t) == Left(l)
            && |Left(l)| == |UsablePages(l)| - EarlyCost(l)
  {
    var s, t, root := WithRoot(l, behind, ram), WithRam(l, behind, ram), Root(l, behind, ram);
    RootTree(l, behind, ram);
    RootStage(l, behind, ram);
    NeedOfRange(s.mem, root, 0, 0, RamPages(l));
    TouchedSize(0, RamPages(l));
    MapAllEffect(s, root, IdentityMaps(l));
    MapAllLowest(s, root, IdentityMaps(l));
    LowestTwice(UsablePages(l), ClearRam(s), ClearRam(t));
    LowestLeft(l, ClearRam(t));
  }

  lemma LowestLeft(l: Layout, left: set<nat>)
    requires LowestTaken(UsablePages(l), left) && |left| == |UsablePages(l)| - EarlyCost(l)
    ensures left == Left(l)
  {
    WithoutSome(UsablePages(l), left);
    forall p | p in UsablePages(l) ensures p in left <==> p in Left(l) { LeftIff(UsablePages(l), left, p); }
  }

  lemma WithoutSome<T>(a: set<T>, b: set<T>)
    requires b <= a
    ensures |a - b| == |a| - |b|
  {
    assert a == (a - b) + b;
  }

  lemma FbPage(d: Devices, p: nat)
    requires p < PAGES
    ensures p in Pages(RangeOps(Lock, d.fb, d.FbPages())) <==> d.InFb(p)
  {
    PagesOfRange(Lock, d.fb, d.FbPages(), p);
  }

  // Locking the framebuffer takes what is left of it.
  lemma FbStage(l: Layout, d: Devices, behind: bool, ram: seq<Pte>)
    requires Sized(l, ram) && EarlyCost(l) <= |UsablePages(l)|
    ensures var u, root := WithFb(l, d, behind, ram), Root(l, behind, ram);
            && Tree(u, root) && ClearRam(u) == Left(l) - FbLeft(l, d)
            && |ClearRam(u)| == |UsablePages(l)| - EarlyCost(l) - |FbLeft(l, d)|
  {
    var t, fb := WithRam(l, behind, ram), RangeOps(Lock, d.fb, d.FbPages());
    EarlyStage(l, behind, ram);
    LockKeepsTree(t, Root(l, behind, ram), fb);
    LockTakes(t, fb);
    FbOfLeft(l, d);
    WithoutSome(Left(l), FbLeft(l, d));
  }

  lemma FbOfLeft(l: Layout, d: Devices)
    ensures Left(l) - Pages(RangeOps(Lock, d.fb, d.FbPages())) == Left(l) - FbLeft(l, d)
  {
    forall p | p in Left(l) ensures p in Pages(RangeOps(Lock, d.fb, d.FbPages())) <==> p in FbLeft(l, d) {
      FbPage(d, p);
    }
  }

  // All tables that the sequence misses at its start.
  lemma BootNeed(l: Layout, d: Devices, mem: seq<Pte>, root: nat)
    requires forall i :: At(mem, root, 3, i).None?
    ensures Need(mem, root, LateMaps(l, d)) == LateTouched(l, d)
    ensures Need(mem, root, IdentityMaps(l) + LateMaps(l, d)) == AllTouched(l, d)
  {
    NeedAppend(mem, root, IdentityMaps(l), LateMaps(l, d));
    NeedAppend(mem, root, EarlyPart(l, d), TablePart(d));
    NeedAppend(mem, root, PageList(d.fb, d.fb, d.FbPages()), PageList(High(l), l.kernelStart, l.KernelPages()));
    NeedAppend(mem, root, PageList(d.apic, d.apic, 1), PageList(d.mcfg, d.mcfg, d.McfgPages()));
    NeedOfRange(mem, root, 0, 0, RamPages(l));
    NeedOfRange(mem, root, d.fb, d.fb, d.FbPages());
    NeedOfRange(mem, root, High(l), l.kernelStart, l.KernelPages());
    NeedOfRange(mem, root, d.apic, d.apic, 1);
    NeedOfRange(mem, root, d.mcfg, d.mcfg, d.McfgPages());
  }

  lemma RoomForEarly(l: Layout, d: Devices)
    requires 1 + |AllTouched(l, d)| <= |UsablePages(l)|
    ensures EarlyCost(l) <= |UsablePages(l)|
  {
    TouchedSize(0, RamPages(l));
    SubsetSize(TouchedNodes(0, RamPages(l)), AllTouched(l, d));
  }

  function LateNeed(l: Layout, d: Devices): set<Node> { AllTouched(l, d) - TouchedNodes(0, RamPages(l)) }

  lemma LateSize(l: Layout, d: Devices, behind: bool, ram: seq<Pte>)
    requires Sized(l, ram) && HasRoom(l, d)
    ensures EarlyCost(l) <= |UsablePages(l)| && |LateNeed(l, d)| <= |ClearRam(WithFb(l, d, behind, ram))|
  {
    RoomForEarly(l, d);
    FbStage(l, d, behind, ram);
    TouchedSize(0, RamPages(l));
    WithoutSome(AllTouched(l, d), TouchedNodes(0, RamPages(l)));
  }

  // What the late maps still miss.
  lemma LateMisses(l: Layout, d: Devices, behind: bool, ram: seq<Pte>)
    requires Sized(l, ram) && EarlyCost(l) <= |UsablePages(l)|
    ensures Need(WithFb(l, d, behind, ram).mem, Root(l, behind, ram), LateMaps(l, d)) == LateNeed(l, d)
  {
    var s, t, root := WithRoot(l, behind, ram), WithRam(l, behind, ram), Root(l, behind, ram);
    RootTree(l, behind, ram);
    EarlyStage(l, behind, ram);
    BootNeed(l, d, s.mem, root);
    NeedAllLater(s, t, root, TouchedNodes(0, RamPages(l)), LateMaps(l, d));
    SecondPart(TouchedNodes(0, RamPages(l)), LateTouched(l, d));
  }

  lemma SecondPart(a: set<Node>, b: set<Node>)
    ensures a + b - a == b - a
  {
  }

  // The late maps find room for it.
  lemma LateStage(l: Layout, d: Devices, behind: bool, ram: seq<Pte>)
    requires Sized(l, ram) && HasRoom(l, d)
    ensures var u, w, root := WithFb(l, d, behind, ram), Booted(l, d, behind, ram), Root(l, behind, ram);
            && Tree(u, root) && Grown(u, w, root, LateNeed(l, d)) && LeavesAfter(u, w, root, LateMaps(l, d))
  {
    LateSize(l, d, behind, ram);
    LateMisses(l, d, behind, ram);
    FbStage(l, d, behind, ram);
    MapAllEffect(WithFb(l, d, behind, ram), Root(l, behind, ram), LateMaps(l, d));
  }

  // ----- when the boot is right -----

  // The access to a page that was mapped: for reading, writing and executing.
  function Reached(f: Option<nat>): Option<Access> {
    match f case None => None case Some(x) => Some(Access(x, true, false, true))
  }

  /** The tables form a tree; every page translates as the last mapping of the sequence says, and the
      processor reaches it there with full access; and every table stands on a usable page that is not one
      of `avoid`. */
  ghost predicate Outcome(l: Layout, d: Devices, behind: bool, ram: seq<Pte>, avoid: set<nat>) {
    var s, root := Booted(l, d, behind, ram), Root(l, behind, ram);
    && Tree(s, root)
    && (forall v: nat :: Translate(s.mem, root, v) == BootLast(l, d, v))
    && (forall a: u64 :: Walk(s.mem, root, a) == Reached(BootLast(l, d, a / 0x1000 % 0x10_0000_0000)))
    && (forall k: nat, i: nat :: 1 <= k <= 4 && At(s.mem, root, k, i).Some? ==>
          At(s.mem, root, k, i).value in UsablePages(l) - avoid)
  }

  /** The boot is right: and no table stands in the framebuffer. */
  ghost predicate BootRight(l: Layout, d: Devices, behind: bool, ram: seq<Pte>) {
    Outcome(l, d, behind, ram, FbOnRam(l, d))
  }

  lemma EarlyTranslate(l: Layout, behind: bool, ram: seq<Pte>, v: nat)
    requires Sized(l, ram) && EarlyCost(l) <= |UsablePages(l)|
    ensures Translate(WithRam(l, behind, ram).mem, Root(l, behind, ram), v) == Last(IdentityMaps(l), v)
  {
    RootTree(l, behind, ram);
    EarlyStage(l, behind, ram);
    MappedFromEmpty(WithRoot(l, behind, ram), Root(l, behind, ram), IdentityMaps(l), v);
  }

  lemma MappedFromEmpty(s: Vm, root: nat, ms: seq<Mapping>, v: nat)
    requires Tree(s, root) && Translate(s.mem, root, v).None? && |Need(s.mem, root, ms)| <= |ClearRam(s)|
    ensures Translate(MapAll(s, root, ms).mem, root, v) == Last(ms, v)
  {
    CorrectWhenRoom(s, root, ms);
  }

  lemma LateTranslate(l: Layout, d: Devices, behind: bool, ram: seq<Pte>, v: nat)
    requires Sized(l, ram) && HasRoom(l, d)
    ensures var root := Root(l, behind, ram);
            Translate(Booted(l, d, behind, ram).mem, root, v)
            == if Last(LateMaps(l, d), v).Some? then Last(LateMaps(l, d), v)
               else Translate(WithRam(l, behind, ram).mem, root, v)
  {
    var u, w, root := WithFb(l, d, behind, ram), Booted(l, d, behind, ram), Root(l, behind, ram);
    LateStage(l, d, behind, ram);
    CorrectOfEffect(u, w, root, LateMaps(l, d), LateNeed(l, d));
  }

  lemma BootTranslate(l: Layout, d: Devices, behind: bool, ram: seq<Pte>, v: nat)
    requires Sized(l, ram) && HasRoom(l, d)
    ensures Translate(Booted(l, d, behind, ram).mem, Root(l, behind, ram), v) == BootLast(l, d, v)
  {
    RoomForEarly(l, d);
    EarlyTranslate(l, behind, ram, v);
    LateTranslate(l, d, behind, ram, v);
  }

  lemma NoLeaf(l: Layout, behind: bool, ram: seq<Pte>, v: nat)
    requires Sized(l, ram)
    ensures Leaf(WithRoot(l, behind, ram).mem, Root(l, behind, ram), v) == ZERO
  {
    RootTree(l, behind, ram);
  }

  lemma EarlyLeaf(l: Layout, behind: bool, ram: seq<Pte>, v: nat)
    requires Sized(l, ram) && EarlyCost(l) <= |UsablePages(l)|
    ensures Leaf(WithRam(l, behind, ram).mem, Root(l, behind, ram), v) == LeafAfter(ZERO, IdentityMaps(l), v)
  {
    NoLeaf(l, behind, ram, v);
    EarlyLeaves(l, behind, ram);
  }

  lemma EarlyLeaves(l: Layout, behind: bool, ram: seq<Pte>)
    requires Sized(l, ram) && EarlyCost(l) <= |UsablePages(l)|
    ensures LeavesAfter(WithRoot(l, behind, ram), WithRam(l, behind, ram), Root(l, behind, ram), IdentityMaps(l))
  {
    RootTree(l, behind, ram);
    EarlyStage(l, behind, ram);
    MapAllEffect(WithRoot(l, behind, ram), Root(l, behind, ram), IdentityMaps(l));
  }

  // A page that the sequence maps has a clean entry, and no other page has one.
  lemma BootLeaf(l: Layout, d: Devices, behind: bool, ram: seq<Pte>, v: nat)
    requires Sized(l, ram) && HasRoom(l, d)
    ensures var e := Leaf(Booted(l, d, behind, ram).mem, Root(l, behind, ram), v);
            match BootLast(l, d, v) case None => !e.p case Some(f) => LinksTo(e, f)
  {
    RoomForEarly(l, d);
    EarlyLeaf(l, behind, ram, v);
    LateStage(l, d, behind, ram);
    assert Leaf(Booted(l, d, behind, ram).mem, Root(l, behind, ram), v)
           == LeafAfter(LeafAfter(ZERO, IdentityMaps(l), v), LateMaps(l, d), v);
  }

  lemma EarlyLinked(l: Layout, behind: bool, ram: seq<Pte>)
    requires Sized(l, ram) && EarlyCost(l) <= |UsablePages(l)|
    ensures AllLinked(WithRam(l, behind, ram).mem, Root(l, behind, ram))
  {
    RootTree(l, behind, ram);
    EarlyStage(l, behind, ram);
    LinkedStays(WithRoot(l, behind, ram), WithRam(l, behind, ram), Root(l, behind, ram), TouchedNodes(0, RamPages(l)));
  }

  lemma BootLinked(l: Layout, d: Devices, behind: bool, ram: seq<Pte>)
    requires Sized(l, ram) && HasRoom(l, d)
    ensures Tree(Booted(l, d, behind, ram), Root(l, behind, ram))
    ensures AllLinked(Booted(l, d, behind, ram).mem, Root(l, behind, ram))
  {
    RoomForEarly(l, d);
    EarlyLinked(l, behind, ram);
    LateStage(l, d, behind, ram);
    LinkedStays(WithFb(l, d, behind, ram), Booted(l, d, behind, ram), Root(l, behind, ram), LateNeed(l, d));
  }

  lemma BootWalk(l: Layout, d: Devices, behind: bool, ram: seq<Pte>, a: u64)
    requires Sized(l, ram) && HasRoom(l, d)
    ensures Walk(Booted(l, d, behind, ram).mem, Root(l, behind, ram), a)
            == Reached(BootLast(l, d, a / 0x1000 % 0x10_0000_0000))
  {
    BootLinked(l, d, behind, ram);
    WalkOfTree(Booted(l, d, behind, ram), Root(l, behind, ram), a);
    BootLeaf(l, d, behind, ram, a / 0x1000 % 0x10_0000_0000);
  }

  // A node that a stage added stands on a frame that was clear before the stage.
  lemma AddedOnClear(s: Vm, s': Vm, root: nat, need: set<Node>, k: nat, i: nat)
    requires NodesGrown(s, s', root, need) && 1 <= k <= 4 && At(s'.mem, root, k, i).Some?
    ensures At(s.mem, root, k, i) == At(s'.mem, root, k, i) || At(s'.mem, root, k, i).value in ClearRam(s)
  {
  }

  lemma BootTable(l: Layout, d: Devices, behind: bool, ram: seq<Pte>, k: nat, i: nat)
    requires Sized(l, ram) && HasRoom(l, d) && 1 <= k <= 4
    requires At(Booted(l, d, behind, ram).mem, Root(l, behind, ram), k, i).Some?
    ensures At(Booted(l, d, behind, ram).mem, Root(l, behind, ram), k, i).value in UsablePages(l) - FbLeft(l, d)
  {
    var u, w, root := WithFb(l, d, behind, ram), Booted(l, d, behind, ram), Root(l, behind, ram);
    RoomForEarly(l, d);
    FbStage(l, d, behind, ram);
    LateStage(l, d, behind, ram);
    AddedOnClear(u, w, root, LateNeed(l, d), k, i);
    if At(w.mem, root, k, i).value !in ClearRam(u) {
      EarlyTable(l, behind, ram, k, i);
    }
  }

  lemma EarlyTable(l: Layout, behind: bool, ram: seq<Pte>, k: nat, i: nat)
    requires Sized(l, ram) && EarlyCost(l) <= |UsablePages(l)| && 1 <= k <= 4
    requires At(WithRam(l, behind, ram).mem, Root(l, behind, ram), k, i).Some?
    ensures At(WithRam(l, behind, ram).mem, Root(l, behind, ram), k, i).value in UsablePages(l) - Left(l)
  {
    var s, t, root := WithRoot(l, behind, ram), WithRam(l, behind, ram), Root(l, behind, ram);
    RootTree(l, behind, ram);
    RootStage(l, behind, ram);
    EarlyStage(l, behind, ram);
    GrownTable(s, t, root, TouchedNodes(0, RamPages(l)), UsablePages(l), k, i);
  }

  // What grows from the root stands on frames that were clear, and no longer are.
  lemma GrownTable(s: Vm, t: Vm, root: nat, need: set<Node>, usable: set<nat>, k: nat, i: nat)
    requires Grown(s, t, root, need) && 1 <= k <= 4 && At(t.mem, root, k, i).Some?
    requires root in usable && ClearRam(s) == usable - {root}
    requires forall k, i :: 0 <= k <= 3 ==> At(s.mem, root, k, i).None?
    ensures At(t.mem, root, k, i).value in usable - ClearRam(t)
  {
    TableNotClear(t, root, k, i);
    AddedOnClear(s, t, root, need, k, i);
  }

  lemma TableNotClear(s: Vm, root: nat, k: nat, i: nat)
    requires Tree(s, root) && 1 <= k <= 4 && At(s.mem, root, k, i).Some?
    ensures At(s.mem, root, k, i).value !in ClearRam(s)
  {
    assert TableFrame(s, At(s.mem, root, k, i).value);
  }

  lemma OutcomeWhenRoom(l: Layout, d: Devices, behind: bool, ram: seq<Pte>)
    requires Sized(l, ram) && HasRoom(l, d)
    ensures Outcome(l, d, behind, ram, FbLeft(l, d))
  {
    var s, root := Booted(l, d, behind, ram), Root(l, behind, ram);
    LateStage(l, d, behind, ram);
    forall v: nat ensures Translate(s.mem, root, v) == BootLast(l, d, v) { BootTranslate(l, d, behind, ram, v); }
    forall a: u64 ensures Walk(s.mem, root, a) == Reached(BootLast(l, d, a / 0x1000 % 0x10_0000_0000)) {
      BootWalk(l, d, behind, ram, a);
    }
    forall k: nat, i: nat | 1 <= k <= 4 && At(s.mem, root, k, i).Some?
      ensures At(s.mem, root, k, i).value in UsablePages(l) - FbLeft(l, d)
    {
      BootTable(l, d, behind, ram, k, i);
    }
  }

  // A table that the sequence needs is there when every page translates as it should.
  lemma NeededIsThere(l: Layout, d: Devices, behind: bool, ram: seq<Pte>, avoid: set<nat>, n: Node)
    requires Sized(l, ram) && Outcome(l, d, behind, ram, avoid) && n in AllTouched(l, d)
    ensures StandsIn(Booted(l, d, behind, ram).mem, Root(l, behind, ram), n, UsablePages(l) - avoid)
  {
    var s, root := WithRoot(l, behind, ram), Root(l, behind, ram);
    var ms := IdentityMaps(l) + LateMaps(l, d);
    RootTree(l, behind, ram);
    BootNeed(l, d, s.mem, root);
    NeedMember(s.mem, root, ms, n);
    var k :| 0 <= k < |ms| && Up(Vpn(ms[k].vir), n.0) == n.1;
    var v := Vpn(ms[k].vir);
    LastMember(ms, k);
    LastAppend(IdentityMaps(l), LateMaps(l, d), v);
    assert BootLast(l, d, v).Some?;
    TablesOfMapped(Booted(l, d, behind, ram).mem, root, v, n.0);
  }

  // The root and the needed tables stand on usable pages of their own.
  lemma RoomWhenOutcome(l: Layout, d: Devices, behind: bool, ram: seq<Pte>, avoid: set<nat>)
    requires Sized(l, ram) && Outcome(l, d, behind, ram, avoid) && avoid <= UsablePages(l)
    ensures 1 + |AllTouched(l, d)| + |avoid| <= |UsablePages(l)|
  {
    forall n | n in AllTouched(l, d) + {TOP}
      ensures StandsIn(Booted(l, d, behind, ram).mem, Root(l, behind, ram), n, UsablePages(l) - avoid)
    {
      NodeIsThere(l, d, behind, ram, avoid, n);
    }
    TopNotTouched(l, d);
    TablesFit(Booted(l, d, behind, ram), Root(l, behind, ram), AllTouched(l, d), UsablePages(l), avoid);
  }

  lemma TablesFit(s: Vm, root: nat, nodes: set<Node>, usable: set<nat>, avoid: set<nat>)
    requires Tree(s, root) && TOP !in nodes && avoid <= usable
    requires forall n :: n in nodes + {TOP} ==> StandsIn(s.mem, root, n, usable - avoid)
    ensures 1 + |nodes| + |avoid| <= |usable|
  {
    NodesFit(s, root, nodes + {TOP}, usable - avoid);
    WithoutSome(usable, avoid);
  }

  // The node of the root.
  const TOP: Node := (4, 0)

  lemma NodeIsThere(l: Layout, d: Devices, behind: bool, ram: seq<Pte>, avoid: set<nat>, n: Node)
    requires Sized(l, ram) && Outcome(l, d, behind, ram, avoid) && n in AllTouched(l, d) + {TOP}
    ensures StandsIn(Booted(l, d, behind, ram).mem, Root(l, behind, ram), n, UsablePages(l) - avoid)
  {
    if n in AllTouched(l, d) {
      NeededIsThere(l, d, behind, ram, avoid, n);
    } else {
      assert At(Booted(l, d, behind, ram).mem, Root(l, behind, ram), 4, 0) == Some(Root(l, behind, ram));
    }
  }

  lemma TopNotTouched(l: Layout, d: Devices)
    ensures TOP !in AllTouched(l, d)
  {
    InTouched(0, RamPages(l), 4, 0);
    InTouched(d.fb, d.FbPages(), 4, 0);
    InTouched(High(l), l.KernelPages(), 4, 0);
    InTouched(d.apic, 1, 4, 0);
    InTouched(d.mcfg, d.McfgPages(), 4, 0);
  }

  /** Paging works, and no table stands on a framebuffer page that the lock took, if and only if there is
      room. */
  lemma OutcomeIff(l: Layout, d: Devices, behind: bool, ram: seq<Pte>)
    requires Sized(l, ram)
    ensures Outcome(l, d, behind, ram, FbLeft(l, d)) <==> HasRoom(l, d)
  {
    if HasRoom(l, d) {
      OutcomeWhenRoom(l, d, behind, ram);
    } else if Outcome(l, d, behind, ram, FbLeft(l, d)) {
      RoomWhenOutcome(l, d, behind, ram, FbLeft(l, d));
    }
  }

  // A usable page that is not left holds the root or a table of the identity map.
  lemma TakenByTable(l: Layout, d: Devices, behind: bool, ram: seq<Pte>, p: nat)
    requires Sized(l, ram) && HasRoom(l, d) && p in UsablePages(l) && p !in Left(l)
    ensures IsTable(Booted(l, d, behind, ram), Root(l, behind, ram), p)
  {
    var s, t, w := WithRoot(l, behind, ram), WithRam(l, behind, ram), Booted(l, d, behind, ram);
    var root := Root(l, behind, ram);
    RoomForEarly(l, d);
    RootStage(l, behind, ram);
    EarlyStage(l, behind, ram);
    LateStage(l, d, behind, ram);
    if p == root {
      assert At(w.mem, root, 4, 0) == Some(p);
    } else {
      assert p in ClearRam(s) && p !in ClearRam(t);
      var n := TableOnTaken(s, t, root, TouchedNodes(0, RamPages(l)), p);
      assert At(w.mem, root, n.0, n.1) == Some(p);
    }
  }

  // A frame that a stage took holds one of its new tables.
  lemma TableOnTaken(s: Vm, t: Vm, root: nat, need: set<Node>, p: nat) returns (n: Node)
    requires Grown(s, t, root, need) && p in ClearRam(s) && p !in ClearRam(t)
    ensures 1 <= n.0 <= 4 && At(t.mem, root, n.0, n.1) == Some(p)
  {
    assert s.alloc.IsClear(p) && !s.alloc.IsSet(p) && t.alloc.IsSet(p);
    assert TakenBy(t.mem, root, need, p);
    n :| n in need && At(t.mem, root, n.0, n.1) == Some(p);
    assert Fresh(s, t, root, n);
  }

  lemma FitsWhenRight(l: Layout, d: Devices, behind: bool, ram: seq<Pte>)
    requires Sized(l, ram) && BootRight(l, d, behind, ram)
    ensures Fits(l, d)
  {
    RoomWhenOutcome(l, d, behind, ram, FbOnRam(l, d));
    SubsetSize(FbLeft(l, d), FbOnRam(l, d));
    forall p | p in FbOnRam(l, d) ensures EarlyCost(l) <= |Below(UsablePages(l), p)| {
      FbIsLeft(l, d, behind, ram, p);
    }
  }

  lemma FbIsLeft(l: Layout, d: Devices, behind: bool, ram: seq<Pte>, p: nat)
    requires Sized(l, ram) && HasRoom(l, d) && BootRight(l, d, behind, ram) && p in FbOnRam(l, d)
    ensures p in Left(l)
  {
    if p !in Left(l) {
      TakenByTable(l, d, behind, ram, p);
      TableAvoids(l, d, behind, ram, FbOnRam(l, d), p);
    }
  }

  lemma TableAvoids(l: Layout, d: Devices, behind: bool, ram: seq<Pte>, avoid: set<nat>, p: nat)
    requires Outcome(l, d, behind, ram, avoid) && IsTable(Booted(l, d, behind, ram), Root(l, behind, ram), p)
    ensures p !in avoid
  {
    var s, root := Booted(l, d, behind, ram), Root(l, behind, ram);
    var k: nat, i: nat :| 1 <= k <= 4 && At(s.mem, root, k, i) == Some(p);
    assert At(s.mem, root, k, i).value in UsablePages(l) - avoid;
  }

  /** No step of the boot checks that a page was left, nor that the framebuffer is locked before tables are
      taken. On a sized machine it is right exactly when the usable pages suffice for the root, all tables
      and the framebuffer pages among them, and these are not the lowest. */
  lemma BootRightIff(l: Layout, d: Devices, behind: bool, ram: seq<Pte>)
    requires Sized(l, ram)
    ensures BootRight(l, d, behind, ram) <==> Fits(l, d)
  {
    if Fits(l, d) {
      FitsHasRoom(l, d);
      OutcomeWhenRoom(l, d, behind, ram);
    } else if BootRight(l, d, behind, ram) {
      FitsWhenRight(l, d, behind, ram);
    }
  }

  // ----- what its callers may rely on -----

  // Page v is the k-th page of the kernel's high range: KERNEL_START + kernel_start + k pages, in 64 bits.
  predicate IsHigh(l: Layout, k: nat, v: nat) {
    v == (0x0000_FFFF_0000_0000 + l.kernelStart + k * 0x1000) % 0x1_0000_0000_0000_0000 / 0x1000 % 0x10_0000_0000
  }

  lemma HighAddress(l: Layout, k: nat)
    ensures IsHigh(l, k, HighVpn(l, k))
  {
    VpnOfPageAddr(High(l), k);
    AddMod(KERNEL_START, l.kernelStart, k * 0x1000);
  }

  // Page v is to be mapped to itself: RAM, the framebuffer, the APIC page or the MCFG table.
  predicate IsSelf(l: Layout, d: Devices, v: nat) {
    || v < TotalPages(l.descs)
    || d.fb / 0x1000 <= v <= d.fb / 0x1000 + d.fbSize / 0x1000
    || v == d.apic / 0x1000
    || d.mcfg / 0x1000 <= v <= d.mcfg / 0x1000 + d.mcfgLen / 0x1000
  }

  // Number k is that of a page of the kernel image, or of the page behind it.
  predicate IsKernelPage(l: Layout, k: nat) { k <= (l.kernelEnd - l.kernelStart) % 0x1_0000_0000_0000_0000 / 0x1000 }

  lemma SelfIff(l: Layout, d: Devices, v: nat)
    requires Tiles(l.descs, RamPages(l))
    ensures IsSelf(l, d, v) <==> SelfMapped(l, d, v)
  {
    TotalOfTiles(l.descs, RamPages(l));
  }

  lemma HighLast(l: Layout, d: Devices, k: nat, v: nat)
    requires Separate(l, d) && RamPages(l) <= VPNS && IsKernelPage(l, k) && IsHigh(l, k, v)
    ensures BootLast(l, d, v) == Some((l.kernelStart / 0x1000 + k) % 0x100_0000_0000)
  {
    HighAddress(l, k);
    BootLastHigh(l, d, k);
  }

  /** The processor reaches, for reading, writing and executing: address a at itself when it is one of
      RAM, of the pages of the framebuffer, of the APIC page or of the MCFG pages, and at the k-th page of the
      image when it is one of the k-th page of the kernel's high range; and no other address at all. */
  ghost predicate Reaches(l: Layout, d: Devices, mem: seq<Pte>, root: nat, a: u64) {
    var v := a / 0x1000 % 0x10_0000_0000;
    && (IsSelf(l, d, v) ==> Walk(mem, root, a) == Some(Access(v, true, false, true)))
    && (forall k: nat :: IsKernelPage(l, k) && IsHigh(l, k, v) ==>
          Walk(mem, root, a) == Some(Access((l.kernelStart / 0x1000 + k) % 0x100_0000_0000, true, false, true)))
    && (!IsSelf(l, d, v) && (forall k: nat :: IsKernelPage(l, k) ==> !IsHigh(l, k, v)) ==> Walk(mem, root, a).None?)
  }

  /** After the boot sequence the processor reaches what it should. */
  lemma BootMapsMemory(l: Layout, d: Devices, behind: bool, ram: seq<Pte>, a: u64)
    requires Sized(l, ram) && HasRoom(l, d) && Separate(l, d)
    ensures Tree(Booted(l, d, behind, ram), Root(l, behind, ram))
    ensures Reaches(l, d, Booted(l, d, behind, ram).mem, Root(l, behind, ram), a)
  {
    var v := a / 0x1000 % 0x10_0000_0000;
    BootLinked(l, d, behind, ram);
    BootWalk(l, d, behind, ram, a);
    SelfIff(l, d, v);
    forall k: nat | IsKernelPage(l, k) && IsHigh(l, k, v)
      ensures BootLast(l, d, v) == Some((l.kernelStart / 0x1000 + k) % 0x100_0000_0000)
    {
      HighLast(l, d, k, v);
    }
    if SelfMapped(l, d, v) {
      BootLastSelf(l, d, v);
    } else if forall k: nat :: IsKernelPage(l, k) ==> !IsHigh(l, k, v) {
      NotMapped(l, d, v);
    }
  }

  lemma NotMapped(l: Layout, d: Devices, v: nat)
    requires v < VPNS && Separate(l, d) && !SelfMapped(l, d, v) && RamPages(l) <= VPNS
    requires forall k: nat :: IsKernelPage(l, k) ==> !IsHigh(l, k, v)
    ensures BootLast(l, d, v).None?
  {
    LateLast(l, d, v);
    LastIdentity(0, RamPages(l), v);
    LastIdentity(d.fb, d.FbPages(), v);
    LastIdentity(d.apic, 1, v);
    LastIdentity(d.mcfg, d.McfgPages(), v);
    forall k | 0 <= k < l.KernelPages() ensures HighVpn(l, k) != v { HighAddress(l, k); }
    LastNotHigh(l, v);
  }

  /** Every table that the boot sequence built lies on conventional memory outside the bitmap's
      storage and the kernel image; so zeroing and writing tables never touches either. */
  lemma TablesOnUsablePages(l: Layout, d: Devices, behind: bool, ram: seq<Pte>, k: nat, i: nat)
    requires Sized(l, ram) && HasRoom(l, d) && 1 <= k <= 4
    requires At(Booted(l, d, behind, ram).mem, Root(l, behind, ram), k, i).Some?
    ensures l.Usable(At(Booted(l, d, behind, ram).mem, Root(l, behind, ram), k, i).value)
  {
    BootTable(l, d, behind, ram, k, i);
  }

  /** After the boot a clear RAM page is still usable memory, no table and not in the framebuffer, so
      req_page goes on to hand out such pages while one is left. */
  lemma ClearAfterBoot(l: Layout, d: Devices, behind: bool, ram: seq<Pte>, f: nat)
    requires Sized(l, ram) && HasRoom(l, d) && f in ClearRam(Booted(l, d, behind, ram))
    ensures l.Usable(f) && !d.InFb(f) && !IsTable(Booted(l, d, behind, ram), Root(l, behind, ram), f)
    ensures var a := Booted(l, d, behind, ram).alloc;
            Found(a).Some? && l.Usable(Found(a).value) && !d.InFb(Found(a).value)
  {
    var s, root := Booted(l, d, behind, ram), Root(l, behind, ram);
    LateStage(l, d, behind, ram);
    FoundIsClear(s, root, f);
    ClearIsFree(l, d, behind, ram, f);
    ClearIsFree(l, d, behind, ram, Found(s.alloc).value);
  }

  lemma ClearIsFree(l: Layout, d: Devices, behind: bool, ram: seq<Pte>, f: nat)
    requires Sized(l, ram) && HasRoom(l, d) && f in ClearRam(Booted(l, d, behind, ram))
    ensures l.Usable(f) && !d.InFb(f)
  {
    RoomForEarly(l, d);
    FbStage(l, d, behind, ram);
    MapAllLowest(WithFb(l, d, behind, ram), Root(l, behind, ram), LateMaps(l, d));
  }

  lemma FoundIsClear(s: Vm, root: nat, f: nat)
    requires Tree(s, root) && f in ClearRam(s)
    ensures Found(s.alloc).Some? && Found(s.alloc).value in ClearRam(s) && !IsTable(s, root, f)
  {
    assert Found(s.alloc).Some? && Found(s.alloc).value <= f;
  }
}
