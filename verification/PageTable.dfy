/** The value of the kernel's paging state: four-level page tables in physical memory, walked as
    in section 4.5 of the Intel SDM, Volume 3A, and the effect of map_page on them. */
module PageTables {
  import opened Machine
  import opened Allocator

  type Frame = x: nat | x < FRAMES

  /** PAGE_TABLE_ENTRY: the bit-fields of one 64-bit entry. */
  datatype Pte = Pte(p: bool, rw: bool, us: bool, pwt: bool, pcd: bool, a: bool, avl0: bool, ps: bool,
                     avl1: bv4, addr: Frame, avl2: bv11, xd: bool)

  const ZERO: Pte := Pte(false, false, false, false, false, false, false, false, 0, 0, 0, false)
  const SLOTS: nat := 512

  // A page number stored in the 40-bit field.
  function FrameOf(addr: u64): Frame { PageOf(addr) % FRAMES }

  // Bits 12..47 of a virtual address, all that the walk looks at.
  function Vpn(addr: u64): (v: nat)
    ensures v < VPNS
  {
    PageOf(addr) % VPNS
  }

  // Entry `slot` of the table stored in frame f.
  function Entry(mem: seq<Pte>, f: nat, slot: nat): Pte {
    if f * SLOTS + slot < |mem| then mem[f * SLOTS + slot] else ZERO
  }

  function WithEntry(mem: seq<Pte>, f: nat, slot: nat, e: Pte): (m: seq<Pte>)
    ensures |m| == |mem|
  {
    if f * SLOTS + slot < |mem| then mem[f * SLOTS + slot := e] else mem
  }

  // All entries of one frame cleared.
  function Zeroed(mem: seq<Pte>, f: nat): (m: seq<Pte>)
    ensures |m| == |mem|
  {
    seq(|mem|, k requires 0 <= k < |mem| => if f * SLOTS <= k < f * SLOTS + SLOTS then ZERO else mem[k])
  }

  lemma EntryWithEntry(mem: seq<Pte>, f: nat, slot: nat, e: Pte, g: nat, t: nat)
    requires slot < SLOTS && t < SLOTS && f * SLOTS + slot < |mem|
    ensures Entry(WithEntry(mem, f, slot, e), g, t) == if g == f && t == slot then e else Entry(mem, g, t)
  {
  }

  lemma EntryZeroed(mem: seq<Pte>, f: nat, g: nat, t: nat)
    requires t < SLOTS
    ensures Entry(Zeroed(mem, f), g, t) == if g == f then ZERO else Entry(mem, g, t)
  {
  }

  /** The frame reached for index i of a level: level 4 is the PML4, 3 a PDPT, 2 a PD, 1 a PT and
      0 a mapped page. Index i of a level stands for the virtual pages v with
      v / 512^level == i. */
  function At(mem: seq<Pte>, root: nat, level: nat, i: nat): Option<nat>
    decreases 4 - level
  {
    if level >= 4 then
      if level == 4 && i == 0 then Some(root) else None
    else
      match At(mem, root, level + 1, i / SLOTS)
      case None => None
      case Some(f) => var e := Entry(mem, f, i % SLOTS); if e.p then Some(e.addr) else None
  }

  // The frame a virtual page is mapped to.
  function Translate(mem: seq<Pte>, root: nat, vpn: nat): Option<nat> { At(mem, root, 0, vpn) }

  // The last-level entry of a virtual page; clear when its page table is missing.
  function Leaf(mem: seq<Pte>, root: nat, vpn: nat): Pte {
    match At(mem, root, 1, vpn / SLOTS) case None => ZERO case Some(pt) => Entry(mem, pt, vpn % SLOTS)
  }

  // The entry for index i of a level in its parent table; clear when that table is missing.
  function EntryOf(mem: seq<Pte>, root: nat, level: nat, i: nat): Pte {
    match At(mem, root, level + 1, i / SLOTS) case None => ZERO case Some(f) => Entry(mem, f, i % SLOTS)
  }

  /** An entry that links frame f for reading and writing: present, writable, and all else clear. */
  predicate LinksTo(e: Pte, f: nat) {
    f < FRAMES && e == Pte(true, true, false, false, false, false, false, false, 0, f, 0, false)
  }

  // The links of the tables that were there are as they were.
  ghost predicate LinksKept(mem: seq<Pte>, mem': seq<Pte>, root: nat) {
    forall k: nat, i: nat :: 1 <= k <= 3 && At(mem, root, k, i).Some? ==>
      EntryOf(mem', root, k, i) == EntryOf(mem, root, k, i)
  }

  lemma TranslateIsLeaf(mem: seq<Pte>, root: nat, vpn: nat)
    ensures Translate(mem, root, vpn)
            == if Leaf(mem, root, vpn).p then Some(Leaf(mem, root, vpn).addr) else None
  {
  }

  // Node (level, i) is node (l, j) or lies below it.
  predicate Under(level: nat, i: nat, l: nat, j: nat)
    decreases l - level
  {
    level <= l && if level == l then i == j else Under(level + 1, i / SLOTS, l, j)
  }

  /** The paging state: the allocator and physical memory seen as page-table entries. */
  datatype Vm = Vm(alloc: Alloc, mem: seq<Pte>) {
    // RAM frames, all of them in the part of the bitmap that req_page scans.
    function Frames(): nat { |mem| / SLOTS }
  }

  predicate TableFrame(s: Vm, f: nat) {
    f < s.Frames() && s.alloc.IsSet(f)
  }

  /** Every table lies in RAM and is marked in the bitmap, and no frame serves as two tables. */
  ghost predicate Tree(s: Vm, root: nat) {
    && |s.mem| % SLOTS == 0
    && s.Frames() <= s.alloc.Limit() && s.Frames() <= FRAMES
    && (forall l, i :: 1 <= l <= 4 && At(s.mem, root, l, i).Some? ==> TableFrame(s, At(s.mem, root, l, i).value))
    && (forall l, i, l', i' ::
          (1 <= l <= 4 && 1 <= l' <= 4 && At(s.mem, root, l, i).Some?
           && At(s.mem, root, l, i) == At(s.mem, root, l', i')) ==> l == l' && i == i')
  }

  // One of the three blocks of map_page that fetch the next table, allocating it when the entry
  // is not present. An exhausted allocator hands out page 0.
  function LinkedEntry(g: Frame): Pte { ZERO.(addr := g, p := true, rw := true) }

  function NewTable(s: Vm): nat {
    match Found(s.alloc) case None => 0 case Some(g) => g
  }

  function Next(s: Vm, f: nat, slot: nat): (Vm, nat) {
    var e := Entry(s.mem, f, slot);
    if e.p then (s, e.addr)
    else
      var g := NewTable(s);
      (Vm(Requested(s.alloc), WithEntry(Zeroed(s.mem, g), f, slot, LinkedEntry(g % FRAMES))), g)
  }

  function MapPage(s: Vm, root: nat, vir: u64, phys: u64): Vm {
    var (s3, pdpt) := Next(s, root, vir / 0x80_0000_0000 % SLOTS);
    var (s2, pd) := Next(s3, pdpt, vir / 0x4000_0000 % SLOTS);
    var (s1, pt) := Next(s2, pd, vir / 0x20_0000 % SLOTS);
    s1.(mem := LeafSet(s1.mem, pt, vir / PAGE_SIZE % SLOTS, phys))
  }

  function LeafSet(mem: seq<Pte>, pt: nat, slot: nat, phys: u64): (m: seq<Pte>)
    ensures |m| == |mem|
  {
    WithEntry(mem, pt, slot, Entry(mem, pt, slot).(addr := FrameOf(phys), p := true, rw := true))
  }

  // The index at level l of the subtree that virtual page vpn belongs to.
  function Up(vpn: nat, l: nat): nat { if l == 0 then vpn else Up(vpn, l - 1) / SLOTS }

  // Dropping the low field commutes with reducing modulo the remaining ones.
  lemma DropField(n: nat, m: nat)
    requires 0 < m
    ensures n % (SLOTS * m) / SLOTS == n / SLOTS % m && n % (SLOTS * m) % SLOTS == n % SLOTS
  {
    var h, r, q := n / SLOTS, n % SLOTS, n / SLOTS / m;
    DivModUnique(n, SLOTS * m, q, h % m * SLOTS + r) by {
      assert h == q * m + h % m;
      calc {
        n;
        h * SLOTS + r;
        (q * m + h % m) * SLOTS + r;
        q * (SLOTS * m) + (h % m * SLOTS + r);
      }
    }
    DivModUnique(h % m * SLOTS + r, SLOTS, h % m, r);
  }

  lemma PageFields(vir: u64)
    ensures vir / 0x20_0000 == PageOf(vir) / SLOTS
    ensures vir / 0x4000_0000 == PageOf(vir) / SLOTS / SLOTS
    ensures vir / 0x80_0000_0000 == PageOf(vir) / SLOTS / SLOTS / SLOTS
  {
  }

  // The four index fields of an address are the slots on the way down to its page.
  lemma IndexFields(vir: u64)
    ensures var v := Vpn(vir);
            && vir / PAGE_SIZE % SLOTS == v % SLOTS
            && vir / 0x20_0000 % SLOTS == Up(v, 1) % SLOTS
            && vir / 0x4000_0000 % SLOTS == Up(v, 2) % SLOTS
            && vir / 0x80_0000_0000 % SLOTS == Up(v, 3) && Up(v, 4) == 0
  {
    var n, v := PageOf(vir), Vpn(vir);
    PageFields(vir);
    DropField(n, 0x800_0000);
    assert Up(v, 1) == n / SLOTS % 0x800_0000;
    DropField(n / SLOTS, 0x4_0000);
    assert Up(v, 2) == n / SLOTS / SLOTS % 0x4_0000;
    DropField(n / SLOTS / SLOTS, SLOTS);
    assert Up(v, 3) == n / SLOTS / SLOTS / SLOTS % SLOTS;
  }

  // ----- one write -----

  // Zeroing a frame that is no table changes no walk.
  lemma {:induction false} ZeroedAt(mem: seq<Pte>, root: nat, g: nat, l: nat, i: nat)
    requires forall k, j :: 1 <= k <= 4 ==> At(mem, root, k, j) != Some(g)
    ensures At(Zeroed(mem, g), root, l, i) == At(mem, root, l, i)
    decreases 4 - l
  {
    if l < 4 {
      ZeroedAt(mem, root, g, l + 1, i / SLOTS);
      if At(mem, root, l + 1, i / SLOTS).Some? {
        EntryZeroed(mem, g, At(mem, root, l + 1, i / SLOTS).value, i % SLOTS);
      }
    }
  }

  // Writing one slot of table (l, j) changes only the walks through that slot.
  lemma {:induction false} WrittenAt(s: Vm, root: nat, l: nat, j: nat, slot: nat, e: Pte, k: nat, i: nat)
    requires Tree(s, root) && 1 <= l <= 4 && At(s.mem, root, l, j).Some? && slot < SLOTS
    ensures var mem' := WithEntry(s.mem, At(s.mem, root, l, j).value, slot, e);
            && (!Under(k, i, l - 1, j * SLOTS + slot) ==> At(mem', root, k, i) == At(s.mem, root, k, i))
            && (k == l - 1 && i == j * SLOTS + slot ==> At(mem', root, k, i) == if e.p then Some(e.addr) else None)
    decreases 4 - k
  {
    var f := At(s.mem, root, l, j).value;
    if k < 4 {
      WrittenAt(s, root, l, j, slot, e, k + 1, i / SLOTS);
      var up := At(s.mem, root, k + 1, i / SLOTS);
      if up.Some? {
        assert TableFrame(s, f);
        EntryWithEntry(s.mem, f, slot, e, up.value, i % SLOTS);
      }
    }
  }

  // Nothing lies below a node that is not there, or below a table of clear entries.
  lemma {:induction false} NothingUnder(mem: seq<Pte>, root: nat, l: nat, j: nat, k: nat, i: nat)
    requires l <= 4 && Under(k, i, l, j) && At(mem, root, l, j).None?
    ensures At(mem, root, k, i).None?
    decreases l - k
  {
    if k < l {
      NothingUnder(mem, root, l, j, k + 1, i / SLOTS);
    }
  }

  lemma {:induction false} NothingUnderZero(mem: seq<Pte>, root: nat, l: nat, j: nat, g: nat, k: nat, i: nat)
    requires l <= 4 && k < l && Under(k, i, l, j) && At(mem, root, l, j) == Some(g)
    requires forall t :: 0 <= t < SLOTS ==> Entry(mem, g, t) == ZERO
    ensures At(mem, root, k, i).None?
    decreases l - k
  {
    if k + 1 < l {
      NothingUnderZero(mem, root, l, j, g, k + 1, i / SLOTS);
    }
  }

  // ----- one level of map_page -----

  // Some RAM frame is still clear.
  ghost predicate Room(s: Vm) { exists i :: 0 <= i < s.Frames() && s.alloc.IsClear(i) }

  lemma NewTableIsFree(s: Vm, root: nat)
    requires Tree(s, root) && Room(s)
    ensures Found(s.alloc) == Some(NewTable(s)) && NewTable(s) < s.Frames() && s.alloc.IsClear(NewTable(s))
    ensures forall l, i :: 1 <= l <= 4 ==> At(s.mem, root, l, i) != Some(NewTable(s))
  {
    var i :| 0 <= i < s.Frames() && s.alloc.IsClear(i);
  }

  // Marking frames in use and zeroing a frame that is no table keep the tree.
  lemma ZeroedTree(s: Vm, root: nat, g: nat)
    requires Tree(s, root) && forall l, i :: 1 <= l <= 4 ==> At(s.mem, root, l, i) != Some(g)
    ensures Tree(Vm(Mark(s.alloc, Lock, g), Zeroed(s.mem, g)), root)
    ensures forall k, i :: At(Zeroed(s.mem, g), root, k, i) == At(s.mem, root, k, i)
  {
    forall k: nat, i: nat
      ensures At(Zeroed(s.mem, g), root, k, i) == At(s.mem, root, k, i)
    {
      ZeroedAt(s.mem, root, g, k, i);
    }
  }

  // What node (k, i) becomes when the zeroed frame g is linked below table (l, j) of tree z.
  lemma LinkedAt(z: Vm, root: nat, l: nat, j: nat, slot: nat, g: Frame, k: nat, i: nat)
    requires Tree(z, root) && 2 <= l <= 4 && slot < SLOTS
    requires At(z.mem, root, l, j).Some? && At(z.mem, root, l - 1, j * SLOTS + slot).None?
    requires At(z.mem, root, l, j) != Some(g) && forall t :: 0 <= t < SLOTS ==> Entry(z.mem, g, t) == ZERO
    ensures At(WithEntry(z.mem, At(z.mem, root, l, j).value, slot, LinkedEntry(g)), root, k, i)
            == if k == l - 1 && i == j * SLOTS + slot then Some(g) else At(z.mem, root, k, i)
  {
    var f, c := At(z.mem, root, l, j).value, j * SLOTS + slot;
    var mem' := WithEntry(z.mem, f, slot, LinkedEntry(g));
    WrittenAt(z, root, l, j, slot, LinkedEntry(g), k, i);
    if k < l - 1 && Under(k, i, l - 1, c) {
      WrittenAt(z, root, l, j, slot, LinkedEntry(g), l - 1, c);
      forall t | 0 <= t < SLOTS ensures Entry(mem', g, t) == ZERO {
        EntryWithEntry(z.mem, f, slot, LinkedEntry(g), g, t);
      }
      BothEmpty(z.mem, mem', root, l - 1, c, g, k, i);
    }
  }

  lemma BothEmpty(mem: seq<Pte>, mem': seq<Pte>, root: nat, l: nat, c: nat, g: nat, k: nat, i: nat)
    requires l <= 4 && k < l && Under(k, i, l, c)
    requires At(mem, root, l, c).None? && At(mem', root, l, c) == Some(g)
    requires forall t :: 0 <= t < SLOTS ==> Entry(mem', g, t) == ZERO
    ensures At(mem, root, k, i).None? && At(mem', root, k, i).None?
  {
    NothingUnder(mem, root, l, c, k, i);
    NothingUnderZero(mem', root, l, c, g, k, i);
  }

  // mem' has the nodes of mem and one more: (l, c), on frame g.
  ghost predicate NodeAdded(mem: seq<Pte>, mem': seq<Pte>, root: nat, l: nat, c: nat, g: nat) {
    forall k, i :: At(mem', root, k, i) == if k == l && i == c then Some(g) else At(mem, root, k, i)
  }

  lemma LinkedNode(z: Vm, root: nat, l: nat, j: nat, slot: nat, g: Frame)
    requires Tree(z, root) && 2 <= l <= 4 && slot < SLOTS
    requires At(z.mem, root, l, j).Some? && At(z.mem, root, l - 1, j * SLOTS + slot).None?
    requires At(z.mem, root, l, j) != Some(g) && forall t :: 0 <= t < SLOTS ==> Entry(z.mem, g, t) == ZERO
    ensures NodeAdded(z.mem, WithEntry(z.mem, At(z.mem, root, l, j).value, slot, LinkedEntry(g)), root,
                      l - 1, j * SLOTS + slot, g)
  {
    var mem' := WithEntry(z.mem, At(z.mem, root, l, j).value, slot, LinkedEntry(g));
    forall k: nat, i: nat
      ensures At(mem', root, k, i) == if k == l - 1 && i == j * SLOTS + slot then Some(g) else At(z.mem, root, k, i)
    {
      LinkedAt(z, root, l, j, slot, g, k, i);
    }
  }

  // A tree stays a tree when one node is added on a frame that no table uses.
  lemma TreeGrows(z: Vm, mem': seq<Pte>, root: nat, l: nat, c: nat, g: nat)
    requires Tree(z, root) && |mem'| == |z.mem| && TableFrame(z, g)
    requires forall k, i :: 1 <= k <= 4 ==> At(z.mem, root, k, i) != Some(g)
    requires NodeAdded(z.mem, mem', root, l, c, g)
    ensures Tree(z.(mem := mem'), root)
  {
  }

  // After a missing table is linked, every node of the tree is what it was, except that the new
  // table now stands where there was nothing; no last-level entry changes.
  lemma NewTableLinked(s: Vm, root: nat, l: nat, j: nat, slot: nat)
    requires Tree(s, root) && Room(s) && 2 <= l <= 4 && slot < SLOTS
    requires At(s.mem, root, l, j).Some? && At(s.mem, root, l - 1, j * SLOTS + slot).None?
    ensures var (s', g) := Next(s, At(s.mem, root, l, j).value, slot);
            && g == NewTable(s) && s'.alloc == Mark(s.alloc, Lock, g) && |s'.mem| == |s.mem|
            && NodeAdded(s.mem, s'.mem, root, l - 1, j * SLOTS + slot, g)
            && Tree(s', root)
            && LinksTo(EntryOf(s'.mem, root, l - 1, j * SLOTS + slot), g) && LinksKept(s.mem, s'.mem, root)
            && forall v :: Leaf(s'.mem, root, v) == Leaf(s.mem, root, v)
  {
    NewTableIsFree(s, root);
    var f, g, c := At(s.mem, root, l, j).value, NewTable(s), j * SLOTS + slot;
    var z := Vm(Mark(s.alloc, Lock, g), Zeroed(s.mem, g));
    ZeroedTree(s, root, g);
    forall t | 0 <= t < SLOTS ensures Entry(z.mem, g, t) == ZERO { EntryZeroed(s.mem, g, g, t); }
    LinkedNode(z, root, l, j, slot, g);
    var mem' := WithEntry(z.mem, f, slot, LinkedEntry(g));
    AbsentEntry(s.mem, root, l, j, slot);
    NextAbsent(s, f, slot);
    TreeGrows(z, mem', root, l - 1, c, g);
    forall v: nat ensures Leaf(mem', root, v) == Leaf(s.mem, root, v) {
      LeafKept(s, root, l, j, slot, g, v);
    }
    LinkIsNew(z, root, l, j, slot, g);
    forall k: nat, i: nat | 1 <= k <= 3 && At(s.mem, root, k, i).Some?
      ensures EntryOf(mem', root, k, i) == EntryOf(s.mem, root, k, i)
    {
      LinkKept(s, root, l, j, slot, g, k, i);
    }
  }

  // The entry that was written links the new table.
  lemma LinkIsNew(z: Vm, root: nat, l: nat, j: nat, slot: nat, g: Frame)
    requires Tree(z, root) && 2 <= l <= 4 && slot < SLOTS && At(z.mem, root, l, j).Some?
    requires NodeAdded(z.mem, WithEntry(z.mem, At(z.mem, root, l, j).value, slot, LinkedEntry(g)), root,
                       l - 1, j * SLOTS + slot, g)
    ensures LinksTo(EntryOf(WithEntry(z.mem, At(z.mem, root, l, j).value, slot, LinkedEntry(g)), root,
                            l - 1, j * SLOTS + slot), g)
  {
    var f := At(z.mem, root, l, j).value;
    assert TableFrame(z, f);
    SlotOf(j, slot);
    EntryWithEntry(z.mem, f, slot, LinkedEntry(g), f, slot);
  }

  lemma SlotOf(j: nat, slot: nat)
    requires slot < SLOTS
    ensures (j * SLOTS + slot) / SLOTS == j && (j * SLOTS + slot) % SLOTS == slot
  {
    DivModUnique(j * SLOTS + slot, SLOTS, j, slot);
  }

  lemma LinkKept(s: Vm, root: nat, l: nat, j: nat, slot: nat, g: Frame, k: nat, i: nat)
    requires Tree(s, root) && 2 <= l <= 4 && slot < SLOTS && At(s.mem, root, l, j).Some?
    requires At(s.mem, root, l - 1, j * SLOTS + slot).None?
    requires forall k, i :: 1 <= k <= 4 ==> At(s.mem, root, k, i) != Some(g)
    requires NodeAdded(s.mem, WithEntry(Zeroed(s.mem, g), At(s.mem, root, l, j).value, slot, LinkedEntry(g)), root,
                       l - 1, j * SLOTS + slot, g)
    requires 1 <= k <= 3 && At(s.mem, root, k, i).Some?
    ensures EntryOf(WithEntry(Zeroed(s.mem, g), At(s.mem, root, l, j).value, slot, LinkedEntry(g)), root, k, i)
            == EntryOf(s.mem, root, k, i)
  {
    var f, t := At(s.mem, root, l, j).value, At(s.mem, root, k + 1, i / SLOTS).value;
    assert TableFrame(s, f) && i == i / SLOTS * SLOTS + i % SLOTS;
    assert t == f ==> k + 1 == l && i / SLOTS == j;
    assert t != f || i % SLOTS != slot;
    assert t != g;
    EntryWithEntry(Zeroed(s.mem, g), f, slot, LinkedEntry(g), t, i % SLOTS);
    EntryZeroed(s.mem, g, t, i % SLOTS);
  }

  lemma LeafKept(s: Vm, root: nat, l: nat, j: nat, slot: nat, g: Frame, v: nat)
    requires Tree(s, root) && 2 <= l <= 4 && slot < SLOTS && At(s.mem, root, l, j).Some?
    requires At(s.mem, root, l - 1, j * SLOTS + slot).None?
    requires forall k, i :: 1 <= k <= 4 ==> At(s.mem, root, k, i) != Some(g)
    requires NodeAdded(s.mem, WithEntry(Zeroed(s.mem, g), At(s.mem, root, l, j).value, slot, LinkedEntry(g)), root,
                       l - 1, j * SLOTS + slot, g)
    ensures Leaf(WithEntry(Zeroed(s.mem, g), At(s.mem, root, l, j).value, slot, LinkedEntry(g)), root, v)
            == Leaf(s.mem, root, v)
  {
    var f := At(s.mem, root, l, j).value;
    var t := At(WithEntry(Zeroed(s.mem, g), f, slot, LinkedEntry(g)), root, 1, v / SLOTS);
    assert TableFrame(s, f);
    if t.Some? {
      assert t.value != f;
      EntryWithEntry(Zeroed(s.mem, g), f, slot, LinkedEntry(g), t.value, v % SLOTS);
      EntryZeroed(s.mem, g, t.value, v % SLOTS);
    }
  }

  lemma AbsentEntry(mem: seq<Pte>, root: nat, l: nat, j: nat, slot: nat)
    requires 1 <= l <= 4 && At(mem, root, l, j).Some? && slot < SLOTS
    ensures At(mem, root, l - 1, j * SLOTS + slot)
            == var e := Entry(mem, At(mem, root, l, j).value, slot); if e.p then Some(e.addr) else None
  {
  }

  lemma NextAbsent(s: Vm, f: nat, slot: nat)
    requires !Entry(s.mem, f, slot).p && Found(s.alloc) == Some(NewTable(s)) && NewTable(s) < FRAMES
    ensures var g := NewTable(s);
            Next(s, f, slot)
            == (Vm(Mark(s.alloc, Lock, g), WithEntry(Zeroed(s.mem, g), f, slot, LinkedEntry(g))), g)
  {
  }

  // ----- the last level -----

  // A page table holds no link of another table.
  lemma LeafSparesLinks(s: Vm, root: nat, vpn: nat, e: Pte, k: nat, i: nat)
    requires Tree(s, root) && At(s.mem, root, 1, vpn / SLOTS).Some? && 1 <= k <= 3 && At(s.mem, root, k, i).Some?
    requires var mem' := WithEntry(s.mem, At(s.mem, root, 1, vpn / SLOTS).value, vpn % SLOTS, e);
             At(mem', root, k + 1, i / SLOTS) == At(s.mem, root, k + 1, i / SLOTS)
    ensures var mem' := WithEntry(s.mem, At(s.mem, root, 1, vpn / SLOTS).value, vpn % SLOTS, e);
            EntryOf(mem', root, k, i) == EntryOf(s.mem, root, k, i)
  {
    var f, t := At(s.mem, root, 1, vpn / SLOTS).value, At(s.mem, root, k + 1, i / SLOTS).value;
    assert TableFrame(s, f) && t != f;
    EntryWithEntry(s.mem, f, vpn % SLOTS, e, t, i % SLOTS);
  }

  // Writing a present entry into a page table maps one virtual page and changes nothing else.
  lemma LeafWritten(s: Vm, root: nat, vpn: nat, e: Pte)
    requires Tree(s, root) && At(s.mem, root, 1, vpn / SLOTS).Some?
    ensures var mem' := WithEntry(s.mem, At(s.mem, root, 1, vpn / SLOTS).value, vpn % SLOTS, e);
            && (forall k, i :: 1 <= k <= 4 ==> At(mem', root, k, i) == At(s.mem, root, k, i))
            && (forall v :: Leaf(mem', root, v) == if v == vpn then e else Leaf(s.mem, root, v))
            && Tree(s.(mem := mem'), root) && LinksKept(s.mem, mem', root)
  {
    var f := At(s.mem, root, 1, vpn / SLOTS).value;
    var mem' := WithEntry(s.mem, f, vpn % SLOTS, e);
    forall k: nat, i: nat | 1 <= k <= 4
      ensures At(mem', root, k, i) == At(s.mem, root, k, i)
    {
      WrittenAt(s, root, 1, vpn / SLOTS, vpn % SLOTS, e, k, i);
    }
    forall k: nat, i: nat | 1 <= k <= 3 && At(s.mem, root, k, i).Some?
      ensures EntryOf(mem', root, k, i) == EntryOf(s.mem, root, k, i)
    {
      LeafSparesLinks(s, root, vpn, e, k, i);
    }
    assert TableFrame(s, f);
    forall v: nat
      ensures Leaf(mem', root, v) == if v == vpn then e else Leaf(s.mem, root, v)
    {
      var t := At(s.mem, root, 1, v / SLOTS);
      if t.Some? {
        EntryWithEntry(s.mem, f, vpn % SLOTS, e, t.value, v % SLOTS);
        assert v == v / SLOTS * SLOTS + v % SLOTS && vpn == vpn / SLOTS * SLOTS + vpn % SLOTS;
      }
    }
  }
}
