/** The walk of the processor through the four levels, as section 4.5 of the Intel SDM, Volume 3A,
    describes it on memory alone, and what map_page and map_pages mean for it. */
module HardwareWalk {
  import opened Machine
  import opened PageTables
  import opened MapProofs
  import opened MapTheorems

  /** Where an access ends, and what all entries on the way allow. */
  datatype Access = Access(frame: nat, writable: bool, user: bool, executable: bool)

  // The entry at an index of memory, when it is present.
  function Fetch(mem: seq<Pte>, k: nat): Option<Pte> { if k < |mem| && mem[k].p then Some(mem[k]) else None }

  // What an entry above it leaves of an access.
  function Narrow(a: Option<Access>, e: Pte): Option<Access> {
    match a
    case None => None
    case Some(x) => Some(Access(x.frame, x.writable && e.rw, x.user && e.us, x.executable && !e.xd))
  }

  /** The access that the processor makes: bits 39 to 47, 30 to 38, 21 to 29 and 12 to 20 of the address
      select an entry in tables of 512, each of which gives the frame of the next one. An entry with ps set
      in the middle levels maps a large page, which nothing here does. */
  function Walk(mem: seq<Pte>, root: nat, vir: u64): Option<Access> {
    match Fetch(mem, root * 512 + vir / 0x80_0000_0000 % 512)
    case None => None
    case Some(e) => Narrow(WalkPdpt(mem, e.addr, vir), e)
  }

  function WalkPdpt(mem: seq<Pte>, pdpt: nat, vir: u64): Option<Access> {
    match Fetch(mem, pdpt * 512 + vir / 0x4000_0000 % 512)
    case None => None
    case Some(e) => if e.ps then None else Narrow(WalkPd(mem, e.addr, vir), e)
  }

  function WalkPd(mem: seq<Pte>, pd: nat, vir: u64): Option<Access> {
    match Fetch(mem, pd * 512 + vir / 0x20_0000 % 512)
    case None => None
    case Some(e) => if e.ps then None else Narrow(WalkPt(mem, e.addr, vir), e)
  }

  function WalkPt(mem: seq<Pte>, pt: nat, vir: u64): Option<Access> {
    match Fetch(mem, pt * 512 + vir / 0x1000 % 512)
    case None => None
    case Some(e) => Some(Access(e.addr, e.rw, e.us, !e.xd))
  }

  /** Every table below the root is linked for reading and writing. */
  ghost predicate AllLinked(mem: seq<Pte>, root: nat) {
    forall k: nat, i: nat :: 1 <= k <= 3 && At(mem, root, k, i).Some? ==> Linked(mem, root, (k, i))
  }

  lemma LinkedStays(s: Vm, s': Vm, root: nat, need: set<Node>)
    requires AllLinked(s.mem, root) && NodesGrown(s, s', root, need) && LinksGrown(s, s', root, need)
    ensures AllLinked(s'.mem, root)
  {
    forall k: nat, i: nat | 1 <= k <= 3 && At(s'.mem, root, k, i).Some? ensures Linked(s'.mem, root, (k, i)) {
      if At(s.mem, root, k, i).Some? {
        assert Linked(s.mem, root, (k, i));
      } else {
        assert (k, i) in need;
      }
    }
  }

  // Reading memory is reading the entry of a table in RAM.
  lemma FetchIs(s: Vm, f: nat, slot: nat)
    requires |s.mem| % SLOTS == 0 && f < s.Frames() && slot < SLOTS
    ensures Fetch(s.mem, f * 512 + slot)
            == if Entry(s.mem, f, slot).p then Some(Entry(s.mem, f, slot)) else None
  {
  }

  // One step of the walk, from the table above node (l, c).
  lemma WalkDown(s: Vm, root: nat, l: nat, c: nat, f: nat)
    requires Tree(s, root) && AllLinked(s.mem, root) && 1 <= l <= 3 && At(s.mem, root, l + 1, c / SLOTS) == Some(f)
    ensures var e := Fetch(s.mem, f * 512 + c % 512);
            && (e.Some? <==> At(s.mem, root, l, c).Some?)
            && (e.Some? ==> LinksTo(e.value, At(s.mem, root, l, c).value))
  {
    assert TableFrame(s, f);
    FetchIs(s, f, c % SLOTS);
    if At(s.mem, root, l, c).Some? {
      assert Linked(s.mem, root, (l, c));
    }
  }

  // What the walk makes of the last-level entry.
  function Granted(e: Pte): Option<Access> { if e.p then Some(Access(e.addr, e.rw, false, !e.xd)) else None }

  lemma PtOfTree(s: Vm, root: nat, vir: u64, pt: nat, link: Pte)
    requires Tree(s, root) && At(s.mem, root, 1, Vpn(vir) / SLOTS) == Some(pt) && LinksTo(link, pt)
    ensures Narrow(WalkPt(s.mem, pt, vir), link) == Granted(Leaf(s.mem, root, Vpn(vir)))
  {
    IndexFields(vir);
    assert TableFrame(s, pt);
    FetchIs(s, pt, Vpn(vir) % SLOTS);
  }

  lemma PdOfTree(s: Vm, root: nat, vir: u64, pd: nat, link: Pte)
    requires Tree(s, root) && AllLinked(s.mem, root) && At(s.mem, root, 2, Up(Vpn(vir), 2)) == Some(pd)
    requires LinksTo(link, pd)
    ensures Narrow(WalkPd(s.mem, pd, vir), link) == Granted(Leaf(s.mem, root, Vpn(vir)))
  {
    var c := Vpn(vir) / SLOTS;
    assert Up(Vpn(vir), 1) == c && Up(Vpn(vir), 2) == c / SLOTS;
    IndexFields(vir);
    WalkDown(s, root, 1, c, pd);
    if At(s.mem, root, 1, c).Some? {
      PtOfTree(s, root, vir, At(s.mem, root, 1, c).value, Fetch(s.mem, pd * 512 + c % 512).value);
    }
  }

  lemma PdptOfTree(s: Vm, root: nat, vir: u64, pdpt: nat, link: Pte)
    requires Tree(s, root) && AllLinked(s.mem, root) && At(s.mem, root, 3, Up(Vpn(vir), 3)) == Some(pdpt)
    requires LinksTo(link, pdpt)
    ensures Narrow(WalkPdpt(s.mem, pdpt, vir), link) == Granted(Leaf(s.mem, root, Vpn(vir)))
  {
    var c := Up(Vpn(vir), 2);
    assert Up(Vpn(vir), 3) == c / SLOTS && c == Up(Vpn(vir), 1) / SLOTS && Up(Vpn(vir), 1) == Vpn(vir) / SLOTS;
    IndexFields(vir);
    WalkDown(s, root, 2, c, pdpt);
    if At(s.mem, root, 2, c).Some? {
      PdOfTree(s, root, vir, At(s.mem, root, 2, c).value, Fetch(s.mem, pdpt * 512 + c % 512).value);
    }
  }

  /** In a tree with linked tables the processor ends at the last-level entry of the page. */
  lemma WalkOfTree(s: Vm, root: nat, vir: u64)
    requires Tree(s, root) && AllLinked(s.mem, root)
    ensures Walk(s.mem, root, vir) == Granted(Leaf(s.mem, root, vir / 0x1000 % 0x10_0000_0000))
  {
    var c := Up(Vpn(vir), 3);
    IndexFields(vir);
    RootSlot(vir);
    WalkDown(s, root, 3, c, root);
    if At(s.mem, root, 3, c).Some? {
      PdptOfTree(s, root, vir, At(s.mem, root, 3, c).value, Fetch(s.mem, root * 512 + c % 512).value);
    } else {
      NoTables(s.mem, root, Vpn(vir));
    }
  }

  lemma RootSlot(vir: u64)
    ensures Up(Vpn(vir), 3) / SLOTS == 0 && Up(Vpn(vir), 3) % SLOTS == Up(Vpn(vir), 3)
    ensures vir / 0x1000 % 0x10_0000_0000 == Vpn(vir)
  {
    IndexFields(vir);
  }

  lemma NoTables(mem: seq<Pte>, root: nat, v: nat)
    requires At(mem, root, 3, Up(v, 3)).None?
    ensures Leaf(mem, root, v) == ZERO
  {
    assert Up(v, 3) == Up(v, 2) / SLOTS && Up(v, 2) == Up(v, 1) / SLOTS && Up(v, 1) == v / SLOTS;
  }

  /** What the processor makes of any run of map_page calls with room: a page that a call names is reached
      for reading and writing at the frame of the last such call, with the execute permission it had; all
      other addresses are reached as before, or not at all. */
  lemma RunWalks(s: Vm, root: nat, ms: seq<Mapping>, vir: u64)
    requires Tree(s, root) && AllLinked(s.mem, root) && |Need(s.mem, root, ms)| <= |ClearRam(s)|
    ensures var v := vir / 0x1000 % 0x10_0000_0000;
            Walk(MapAll(s, root, ms).mem, root, vir)
            == match Last(ms, v)
               case None => Walk(s.mem, root, vir)
               case Some(f) => Some(Access(f, true, false, !Leaf(s.mem, root, v).xd))
    ensures AllLinked(MapAll(s, root, ms).mem, root)
  {
    var t := MapAll(s, root, ms);
    MapAllEffect(s, root, ms);
    LinkedStays(s, t, root, Need(s.mem, root, ms));
    WalkOfTree(s, root, vir);
    WalkOfTree(t, root, vir);
  }

  /** map_page: the processor reaches the page's frame for reading and writing, and every address that
      differs in bits 12..47 as before. */
  lemma MapPageWalks(s: Vm, root: nat, vir: u64, phys: u64, w: u64)
    requires Tree(s, root) && AllLinked(s.mem, root) && |NeedOf(s.mem, root, Vpn(vir))| <= |ClearRam(s)|
    ensures var mem' := PageTables.MapPage(s, root, vir, phys).mem;
            && Walk(mem', root, vir)
               == Some(Access(phys / 0x1000 % 0x100_0000_0000, true, false,
                              !Leaf(s.mem, root, vir / 0x1000 % 0x10_0000_0000).xd))
            && (w / 0x1000 % 0x10_0000_0000 != vir / 0x1000 % 0x10_0000_0000 ==>
                  Walk(mem', root, w) == Walk(s.mem, root, w))
  {
    var m := Mapping(vir, phys);
    assert [m][..0] == [];
    assert MapAll(s, root, [m]) == PageTables.MapPage(s, root, vir, phys);
    assert Need(s.mem, root, [m]) == NeedOf(s.mem, root, Vpn(vir));
    RunWalks(s, root, [m], vir);
    RunWalks(s, root, [m], w);
    LastOfOne(m, Vpn(vir));
    LastOfOne(m, Vpn(w));
  }

  /** A page mapped into a table that had to be made has an entry that is clear but for addr, p and rw. */
  lemma NewPageIsClean(s: Vm, root: nat, ms: seq<Mapping>, v: nat)
    requires Tree(s, root) && |Need(s.mem, root, ms)| <= |ClearRam(s)|
    requires At(s.mem, root, 1, v / SLOTS).None? && Last(ms, v).Some?
    ensures LinksTo(Leaf(MapAll(s, root, ms).mem, root, v), Last(ms, v).value)
  {
    MapAllEffect(s, root, ms);
  }
}
