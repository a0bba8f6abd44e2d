/** The Sv39 virtual address translation process of section 4.3.2 of the RISC-V Privileged
    Architecture, version 20211203, run on the same memory as the kernel's own walk.
    Access-type checks (R, W, X against the kind of access, U against the mode, A and D) are not
    part of it: they decide whether an access is allowed, not where it goes. */
module Hardware {
  import opened Sv39
  import opened PageTable
  import opened Memory

  datatype Outcome = PageFault | Physical(pa: nat)

  const PPN_LIMIT: nat := 0x1000_0000_0000   // 44-bit physical page numbers

  /** Steps 2 to 8 at level i, with the table in frame a. */
  function HwWalk(mem: Mem, a: nat, va: u64, i: nat): Outcome
    requires i <= 2
    decreases i
  {
    if a !in mem then PageFault else
    var pte := mem[a][Px(i, va)];
    if !PteV(pte) || (!PteR(pte) && PteW(pte)) then PageFault
    else if pte / 1024 >= PPN_LIMIT then PageFault
    else if PteR(pte) || PteX(pte) then LeafAt(i, pte, va)
    else if i == 0 then PageFault
    else HwWalk(mem, pte / 1024, va, i - 1)
  }

  /** A leaf found at level i: misaligned above level 0 is a fault, otherwise the low page-number
      fields come from the address. */
  function LeafAt(i: nat, pte: u64, va: u64): Outcome
  {
    if pte / 1024 % Reach(i) != 0 then PageFault
    else Physical((pte / 1024 + va / 4096 % Reach(i)) * 4096 + va % 4096)
  }

  /** Pages covered by a leaf entry at level i. */
  function Reach(i: nat): (n: nat)
    ensures n > 0
  {
    if i == 0 then 1 else 512 * Reach(i - 1)
  }

  function HwTranslate(mem: Mem, root: nat, va: u64): Outcome
    requires va < MAXVA   // bits 63-39 equal bit 38, all zero
  {
    HwWalk(mem, root, va, 2)
  }

  /** What user_va_to_pa reports, its null as a fault. */
  ghost function SwTranslate(sp: Space, va: u64): Outcome
  {
    if Lookup(sp, va) == 0 then PageFault else Physical(Lookup(sp, va) + va % 4096)
  }

  /** No superpage and no reserved encoding is met: the hardware walk descends through the same
      tables and ends at the page's own entry. */
  lemma HwReachesLeaf(mem: Mem, free: seq<nat>, sp: Space, va: u64)
    requires Holds(mem, free, sp) && va < MAXVA
    requires forall id :: id in sp.tables ==> sp.tables[id] < PPN_LIMIT
    ensures HwTranslate(mem, sp.tables[Root], va)
         == if va / 4096 !in sp.pages then PageFault else HwLeaf(sp.pages[va / 4096], va)
  {
    var v := va / 4096;
    PxDigits(va);
    if v in sp.pages { MappedHasLeaf(mem, free, sp, v); }
    HwStep(mem, free, sp, va, 2);
    if Mid(v / 512 / 512) in sp.tables {
      HwStep(mem, free, sp, va, 1);
      if Leaf(v / 512) in sp.tables {
        LeafWord(mem, free, sp, v);
      }
    } else {
      NoLeafBelow(mem, free, sp, 2, v);
    }
  }

  /** The level-0 decision on an entry. */
  function HwLeaf(pte: u64, va: u64): Outcome
  {
    if !PteV(pte) || (!PteR(pte) && PteW(pte)) || pte / 1024 >= PPN_LIMIT || (!PteR(pte) && !PteX(pte))
    then PageFault
    else Physical(pte / 1024 * 4096 + va % 4096)
  }

  lemma HwStep(mem: Mem, free: seq<nat>, sp: Space, va: u64, i: nat)
    requires Holds(mem, free, sp) && va < MAXVA && 0 < i <= 2
    requires forall id :: id in sp.tables ==> sp.tables[id] < PPN_LIMIT
    requires TableAt(i, va / 4096) in sp.tables
    ensures HwWalk(mem, sp.tables[TableAt(i, va / 4096)], va, i)
         == if TableAt(i - 1, va / 4096) !in sp.tables then PageFault
            else HwWalk(mem, sp.tables[TableAt(i - 1, va / 4096)], va, i - 1)
  {
    hide Holds, LeafAt, Px, Shape;
    var v := va / 4096;
    PxDigits(va);
    var id := TableAt(i, v);
    assert Child(id, Px(i, va)) == TableAt(i - 1, v);
    WalkStep(mem, free, sp, id, Px(i, va));
    if TableAt(i - 1, v) in sp.tables {
      LowBits(sp.tables[TableAt(i - 1, v)], 1);
      HwInterior(mem, sp.tables[id], va, i, sp.tables[TableAt(i - 1, v)]);
    }
  }

  lemma {:induction false} HwInterior(mem: Mem, a: nat, va: u64, i: nat, f: nat)
    requires 0 < i <= 2 && a in mem && mem[a][Px(i, va)] == Link(f) && f < PPN_LIMIT
    ensures HwWalk(mem, a, va, i) == HwWalk(mem, f, va, i - 1)
  {
    hide LeafAt, Px;
    LowBits(f, 1);
  }

  /** Exactly when the kernel's translation and the hardware's agree at an address below MAXVA. */
  lemma SoftwareMatchesHardware(mem: Mem, free: seq<nat>, sp: Space, va: u64)
    requires Holds(mem, free, sp) && va < MAXVA
    requires forall id :: id in sp.tables ==> sp.tables[id] < PPN_LIMIT
    requires forall v :: v in sp.pages ==> sp.pages[v] / 1024 < PPN_LIMIT
    ensures SwTranslate(sp, va) == HwTranslate(mem, sp.tables[Root], va)
       <==> (va / 4096 in sp.pages ==> SameView(sp.pages[va / 4096]))
  {
    hide Holds;
    HwReachesLeaf(mem, free, sp, va);
    if va / 4096 in sp.pages { MappedHasLeaf(mem, free, sp, va / 4096); }
  }

  /** A readable page off frame 0 is seen alike by both; so is one with no permission at all. */
  predicate SameView(pte: u64)
  {
    if pte / 1024 == 0 then !PteR(pte) && (PteW(pte) || !PteX(pte))
    else PteR(pte) || (!PteW(pte) && !PteX(pte))
  }
}
