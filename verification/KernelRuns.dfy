/** Runs of the whole memory manager: allocator calls and map_page calls in any order. */
module KernelRuns {
  import opened Machine
  import opened Allocator
  import opened PageTables
  import opened MapProofs
  import opened MapTheorems

  datatype VmOp = Alloc(op: Op) | Map(m: Mapping)

  function VmStep(s: Vm, root: nat, o: VmOp): Vm {
    match o
    case Alloc(op) => s.(alloc := Step(s.alloc, op))
    case Map(m) => MapPage(s, root, m.vir, m.phys)
  }

  function VmRun(s: Vm, root: nat, ops: seq<VmOp>): Vm {
    if ops == [] then s else VmStep(VmRun(s, root, ops[..|ops| - 1]), root, ops[|ops| - 1])
  }

  // Frame f holds a table.
  ghost predicate IsTable(s: Vm, root: nat, f: nat) {
    exists l: nat, i: nat :: 1 <= l <= 4 && At(s.mem, root, l, i) == Some(f)
  }

  /** What a caller owes in state s: room for the tables of a mapping, and no table is freed. */
  ghost predicate Allowed(s: Vm, root: nat, o: VmOp) {
    match o
    case Map(m) => |NeedOf(s.mem, root, Vpn(m.vir))| <= |ClearRam(s)|
    case Alloc(On(Free, addr)) => !IsTable(s, root, PageOf(addr))
    case Alloc(On(Unreserve, addr)) => !IsTable(s, root, PageOf(addr))
    case Alloc(_) => true
  }

  ghost predicate AllowedRun(s: Vm, root: nat, ops: seq<VmOp>) {
    ops == [] || (AllowedRun(s, root, ops[..|ops| - 1])
                  && Allowed(VmRun(s, root, ops[..|ops| - 1]), root, ops[|ops| - 1]))
  }

  lemma StepKeepsTree(s: Vm, root: nat, op: Op)
    requires Tree(s, root) && Allowed(s, root, VmOp.Alloc(op))
    ensures Tree(VmStep(s, root, VmOp.Alloc(op)), root)
  {
  }

  /** free_page and unreserve_page keep the tree exactly when the page they clear is no table. */
  lemma FreeKeepsTreeIff(s: Vm, root: nat, k: Kind, addr: u64)
    requires Tree(s, root) && k in {Free, Unreserve}
    ensures Tree(VmStep(s, root, VmOp.Alloc(On(k, addr))), root) <==> !IsTable(s, root, PageOf(addr))
  {
    if IsTable(s, root, PageOf(addr)) {
      var l: nat, i: nat :| 1 <= l <= 4 && At(s.mem, root, l, i) == Some(PageOf(addr));
      assert TableFrame(s, PageOf(addr));
    } else {
      StepKeepsTree(s, root, On(k, addr));
    }
  }

  /** In every state that an allowed run reaches from a tree, the tables are distinct, each has
      one place in the tree and is marked in the bitmap. */
  lemma {:induction false} RunKeepsTree(s: Vm, root: nat, ops: seq<VmOp>)
    requires Tree(s, root) && AllowedRun(s, root, ops)
    ensures Tree(VmRun(s, root, ops), root)
  {
    if ops != [] {
      var t, o := VmRun(s, root, ops[..|ops| - 1]), ops[|ops| - 1];
      RunKeepsTree(s, root, ops[..|ops| - 1]);
      match o
      case Alloc(op) => StepKeepsTree(t, root, op);
      case Map(m) => MapPageEffect(t, root, m);
    }
  }

  // A table is linked from one slot of one table only.
  lemma OneParentSlot(s: Vm, root: nat, l: nat, i: nat, slot: nat, l': nat, i': nat, slot': nat)
    requires Tree(s, root) && 2 <= l <= 4 && 2 <= l' <= 4 && slot < SLOTS && slot' < SLOTS
    requires At(s.mem, root, l, i).Some? && At(s.mem, root, l', i').Some?
    requires var e := Entry(s.mem, At(s.mem, root, l, i).value, slot);
             var e' := Entry(s.mem, At(s.mem, root, l', i').value, slot');
             e.p && e'.p && e.addr == e'.addr
    ensures l == l' && i == i' && slot == slot'
    ensures Entry(s.mem, At(s.mem, root, l, i).value, slot).addr != root
  {
    AbsentEntry(s.mem, root, l, i, slot);
    AbsentEntry(s.mem, root, l', i', slot');
    assert At(s.mem, root, 4, 0) == Some(root);
  }

  /** After any allowed run, a page that req_page finds is no live table. */
  lemma RequestedIsNoTable(s: Vm, root: nat, ops: seq<VmOp>)
    requires Tree(s, root) && AllowedRun(s, root, ops)
    ensures var t := VmRun(s, root, ops);
            Found(t.alloc).Some? ==> !IsTable(t, root, Found(t.alloc).value)
  {
    RunKeepsTree(s, root, ops);
  }

  // A marked, zeroed RAM frame is the root of an empty tree.
  lemma EmptyTree(s: Vm, root: nat)
    requires |s.mem| % SLOTS == 0 && s.Frames() <= s.alloc.Limit() && s.Frames() <= FRAMES
    requires TableFrame(s, root)
    ensures var s' := s.(mem := Zeroed(s.mem, root));
            Tree(s', root) && forall l, i :: 0 <= l <= 3 ==> At(s'.mem, root, l, i).None?
  {
    var mem' := Zeroed(s.mem, root);
    forall l: nat, i: nat | l <= 3 ensures At(mem', root, l, i).None? { EmptyRoot(mem', s.mem, root, l, i); }
  }

  lemma {:induction false} EmptyRoot(mem': seq<Pte>, mem: seq<Pte>, root: nat, l: nat, i: nat)
    requires l <= 3 && mem' == Zeroed(mem, root)
    ensures At(mem', root, l, i).None?
    decreases 3 - l
  {
    if l < 3 {
      EmptyRoot(mem', mem, root, l + 1, i / SLOTS);
    } else {
      EntryZeroed(mem, root, root, i % SLOTS);
    }
  }

  // ----- vir_to_phys -----

  // The 40-bit field shifted left by 12 without widening it first.
  function Shifted(f: Frame): u64 { f * PAGE_SIZE % FRAMES }

  /** vir_to_phys: the walk without a look at the present bits. Its shifts stay 40 bits wide, so
      a frame above 2^28 loses its high bits, and the offset within the page is dropped. */
  function VirToPhys(mem: seq<Pte>, root: nat, vir: u64): u64 {
    var pdpt := PageOf(Shifted(Entry(mem, root, vir / 0x80_0000_0000 % SLOTS).addr));
    var pd := PageOf(Shifted(Entry(mem, pdpt, vir / 0x4000_0000 % SLOTS).addr));
    var pt := PageOf(Shifted(Entry(mem, pd, vir / 0x20_0000 % SLOTS).addr));
    Shifted(Entry(mem, pt, vir / PAGE_SIZE % SLOTS).addr)
  }

  lemma ShiftedPage(f: Frame)
    ensures Shifted(f) == f * PAGE_SIZE <==> f < 0x1000_0000
    ensures f < 0x1000_0000 ==> PageOf(Shifted(f)) == f
  {
  }

  // The tables on the way to page v stand on frames below 2^40.
  ghost predicate LowTables(mem: seq<Pte>, root: nat, v: nat) {
    forall l :: 1 <= l <= 3 && At(mem, root, l, Up(v, l)).Some? ==> At(mem, root, l, Up(v, l)).value < 0x1000_0000
  }

  /** With the tables on its way below 2^40, vir_to_phys of a mapped address is the base of the page it
      translates to exactly when that page lies below 2^40. */
  lemma VirToPhysIff(mem: seq<Pte>, root: nat, vir: u64)
    requires Translate(mem, root, Vpn(vir)).Some? && LowTables(mem, root, Vpn(vir))
    ensures VirToPhys(mem, root, vir) == Translate(mem, root, Vpn(vir)).value * 0x1000 % 0x100_0000_0000
    ensures VirToPhys(mem, root, vir) == Translate(mem, root, Vpn(vir)).value * 0x1000
            <==> Translate(mem, root, Vpn(vir)).value < 0x1000_0000
  {
    var v := Vpn(vir);
    IndexFields(vir);
    WalkStep(mem, root, v, 3);
    WalkStep(mem, root, v, 2);
    WalkStep(mem, root, v, 1);
    assert Up(v, 0) == v && At(mem, root, 4, Up(v, 4)) == Some(root);
    ShiftedPage(At(mem, root, 0, v).value);
  }

  lemma WalkStep(mem: seq<Pte>, root: nat, v: nat, l: nat)
    requires Translate(mem, root, v).Some? && LowTables(mem, root, v) && 1 <= l <= 3
    ensures At(mem, root, l, Up(v, l)).Some? && At(mem, root, l + 1, Up(v, l + 1)).Some?
    ensures At(mem, root, l, Up(v, l)).value
            == PageOf(Shifted(Entry(mem, At(mem, root, l + 1, Up(v, l + 1)).value, Up(v, l) % SLOTS).addr))
    ensures At(mem, root, l - 1, Up(v, l - 1)).Some?
            && At(mem, root, l - 1, Up(v, l - 1)).value
               == Entry(mem, At(mem, root, l, Up(v, l)).value, Up(v, l - 1) % SLOTS).addr
  {
    TablesOfMapped(mem, root, v, l);
    TablesOfMapped(mem, root, v, l - 1);
    assert Up(v, l + 1) == Up(v, l) / SLOTS && Up(v, l) == Up(v, l - 1) / SLOTS;
    ShiftedPage(At(mem, root, l, Up(v, l)).value);
  }

  // ----- machines in which it goes wrong -----

  // A machine of n frames in which frame 0 is the root of an empty tree.
  function RootOnly(n: nat, clear: bool): Vm {
    Vm(Alloc.Alloc(seq(n + 1, i => i == 0 || !clear), 0, 0, 0), seq(n * SLOTS, _ => ZERO))
  }

  lemma RootOnlyTree(n: nat, clear: bool)
    requires 1 <= n <= FRAMES
    ensures var s := RootOnly(n, clear);
            && Tree(s, 0) && s.Frames() == n && (forall l, i :: 0 <= l <= 3 ==> At(s.mem, 0, l, i).None?)
            && (forall f :: f in ClearRam(s) <==> 1 <= f < n && clear)
  {
    var s := RootOnly(n, clear);
    assert Zeroed(s.mem, 0) == s.mem;
    EmptyTree(s, 0);
  }

  /** With no clear frame left, mapping a single page is not correct. */
  lemma NoRoomFails(m: Mapping)
    ensures var s := RootOnly(1, false);
            Tree(s, 0) && !Correct(s, MapAll(s, 0, [m]), 0, [m])
  {
    var s, v := RootOnly(1, false), Vpn(m.vir);
    RootOnlyTree(1, false);
    assert ClearRam(s) == {};
    MapAllCorrectIff(s, 0, [m]);
    NeedMember(s.mem, 0, [m], (3, Up(v, 3)));
    assert Up(Vpn([m][0].vir), 3) == Up(v, 3);
  }

  /** Freeing the root breaks the tree. */
  lemma RootFreed()
    ensures var s := RootOnly(1, false);
            Tree(s, 0) && !Tree(VmStep(s, 0, VmOp.Alloc(On(Free, 0))), 0)
  {
    var s := RootOnly(1, false);
    RootOnlyTree(1, false);
    assert At(s.mem, 0, 4, 0) == Some(0);
    FreeKeepsTreeIff(s, 0, Free, 0);
  }

  /** A machine on which vir_to_phys answers another address of a page that was mapped at 2^40. */
  lemma HighPageLost(vir: u64) returns (s: Vm)
    ensures Tree(s, 0) && Translate(s.mem, 0, Vpn(vir)) == Some(0x1000_0000)
    ensures VirToPhys(s.mem, 0, vir) != 0x100_0000_0000
  {
    RootOnlyTree(4, true);
    assert ClearRam(RootOnly(4, true)) == {1, 2, 3};
    s := HighMapped(RootOnly(4, true), 0, vir, 0x100_0000_0000);
    NotTheBase(s, 0, vir, 0x1000_0000);
  }

  lemma HighMapped(s: Vm, root: nat, vir: u64, phys: u64) returns (t: Vm)
    requires Tree(s, root) && 3 <= |ClearRam(s)|
    ensures Tree(t, root) && |t.mem| == |s.mem| && Translate(t.mem, root, Vpn(vir)) == Some(FrameOf(phys))
  {
    t := MapPage(s, root, vir, phys);
    MapPageSize(s, root, vir, phys);
    ThreeAtMost(s.mem, root, Vpn(vir));
    MapPageTranslates(s, root, vir, phys);
  }

  lemma MapPageSize(s: Vm, root: nat, vir: u64, phys: u64)
    ensures |MapPage(s, root, vir, phys).mem| == |s.mem|
  {
  }

  lemma NotTheBase(t: Vm, root: nat, vir: u64, f: nat)
    requires Tree(t, root) && t.Frames() <= 0x1000_0000 <= f && Translate(t.mem, root, Vpn(vir)) == Some(f)
    ensures VirToPhys(t.mem, root, vir) != f * PAGE_SIZE
  {
    TablesLow(t, root, Vpn(vir));
    VirToPhysIff(t.mem, root, vir);
  }

  lemma TablesLow(s: Vm, root: nat, v: nat)
    requires Tree(s, root) && s.Frames() <= 0x1000_0000
    ensures LowTables(s.mem, root, v)
  {
    forall l | 1 <= l <= 3 && At(s.mem, root, l, Up(v, l)).Some?
      ensures At(s.mem, root, l, Up(v, l)).value < 0x1000_0000
    {
      assert TableFrame(s, At(s.mem, root, l, Up(v, l)).value);
    }
  }

  lemma ThreeAtMost(mem: seq<Pte>, root: nat, v: nat)
    ensures |NeedOf(mem, root, v)| <= 3
  {
    var all := {(3, Up(v, 3)), (2, Up(v, 2)), (1, Up(v, 1))};
    SubsetSize(NeedOf(mem, root, v), all);
  }
}
