/** Who holds each frame the allocator manages, and what a process slot of kernel/process.c owns. */
module Ownership {
  import opened Sv39
  import opened PageTable
  import opened Memory

  /** The one use of a managed frame. PageOf(p, v) is private to slot p and mapped there at page v;
      CodeUse is shared between a process and its forks and never handed back; KernelUse is held
      by the kernel for good. */
  datatype Use =
    | FreeUse | TableOf(p: nat) | PageOf(p: nat, v: nat) | KstackOf(p: nat) | InfoOf(p: nat) | CodeUse | KernelUse

  type Owners = map<nat, Use>

  datatype Segment = CodeSegment | DataSegment | StackSegment | ContextSegment | SystemSegment

  datatype Region = Region(va: u64, npages: nat, seg: Segment)

  /** A slot's memory: kernel stack, page directory, trapframe and region-list frames, and the list. */
  datatype Image = Image(kstack: nat, pagetable: nat, trapframe: nat, info: nat, regions: seq<Region>)

  ghost predicate HeldBy(u: Use, p: nat)
  {
    u == TableOf(p) || u == KstackOf(p) || u == InfoOf(p) || (u.PageOf? && u.p == p)
  }

  /** A kernel stack or a region list. */
  predicate IsStaff(u: Use) { u.KstackOf? || u.InfoOf? }

  /** These frames, with these uses, are the kernel stacks and region lists. */
  ghost predicate StaffIs(own: Owners, staff: map<nat, Use>)
  {
    && (forall f :: f in own && IsStaff(own[f]) ==> f in staff)
    && (forall f :: f in staff ==> f in own && own[f] == staff[f] && IsStaff(own[f]))
  }

  lemma StaffSame(own: Owners, staff: map<nat, Use>, own': Owners)
    requires StaffIs(own, staff) && own'.Keys == own.Keys
    requires forall f :: f in own && own'[f] != own[f] ==> !IsStaff(own[f]) && !IsStaff(own'[f])
    ensures StaffIs(own', staff)
  {
  }

  lemma StaffOne(own: Owners, staff: map<nat, Use>, f: nat, u: Use)
    requires StaffIs(own, staff) && f in own && !IsStaff(own[f])
    ensures StaffIs(own[f := u], if IsStaff(u) then staff[f := u] else staff)
  {
  }

  lemma StaffLess(own: Owners, staff: map<nat, Use>, f: nat, u: Use)
    requires StaffIs(own, staff) && f in own && !IsStaff(u)
    ensures StaffIs(own[f := u], staff - {f})
  {
  }

  predicate Covers(r: Region, v: nat) { r.va / 4096 <= v < r.va / 4096 + r.npages }

  /** Segments whose frames are handed back when the process is reaped or replaced. */
  predicate Reclaimed(seg: Segment) { seg.DataSegment? || seg.StackSegment? || seg.ContextSegment? }

  predicate InCode(rs: seq<Region>, v: nat)
  {
    exists i :: 0 <= i < |rs| && rs[i].seg.CodeSegment? && Covers(rs[i], v)
  }

  ghost predicate RegionsOk(rs: seq<Region>)
  {
    && (forall i :: 0 <= i < |rs| ==> RegionOk(rs[i]))
    && (forall i, j :: 0 <= i < j < |rs| ==> Disjoint(rs[i], rs[j]))
  }

  /** Page-aligned, below MAXVA, and small enough for npages * PGSIZE in 32 bits. */
  predicate RegionOk(r: Region) { r.va % 4096 == 0 && r.npages < 0x10_0000 && r.va + r.npages * 4096 <= MAXVA }

  ghost predicate Disjoint(r: Region, s: Region) { forall v :: !(Covers(r, v) && Covers(s, v)) }

  /** The allocator's list and the uses agree on which managed frames are free. */
  ghost predicate Accounted(mem: Mem, free: seq<nat>, own: Owners, start: nat, end: nat)
  {
    && (forall f :: f in own <==> Managed(f, start, end))
    && (forall f :: f in own ==> f in mem)
    && (forall f :: f in own ==> (own[f] == FreeUse <==> f in free))
    && (forall f :: f in free ==> f in own)
  }

  /** A page directory of slot p: the tree is in place and all its frames are tables of p. */
  ghost predicate SpaceOk(mem: Mem, free: seq<nat>, own: Owners, p: nat, sp: Space)
  {
    && Holds(mem, free, sp)
    && forall id :: id in sp.tables ==> sp.tables[id] in own && own[sp.tables[id]] == TableOf(p)
  }

  /** Every managed frame that slot p maps at page v is a code frame or private to p at v. */
  ghost predicate Backing(own: Owners, p: nat, rs: seq<Region>, pages: map<nat, u64>)
  {
    forall v :: v in pages ==> Backed(own, p, rs, v, pages[v])
  }

  ghost predicate Backed(own: Owners, p: nat, rs: seq<Region>, v: nat, pte: u64)
  {
    && PteR(pte)
    && (FrameOf(pte) in own ==> own[FrameOf(pte)] == if InCode(rs, v) then CodeUse else PageOf(p, v))
  }

  ghost predicate IsUse(own: Owners, f: nat, u: Use) { f in own && own[f] == u }

  const USER_STACK_PAGE: u64 := 0x7fff_e000   // USER_STACK_TOP - PGSIZE

  ghost predicate SlotOk(mem: Mem, free: seq<nat>, own: Owners, p: nat, img: Image, sp: Space)
  {
    && SpaceOk(mem, free, own, p, sp) && sp.tables[Root] == img.pagetable
    && Backing(own, p, img.regions, sp.pages)
    && ImageOk(own, p, img)
    && Homed(sp.pages, img.trapframe)
  }

  /** The trapframe is mapped at its own address. */
  ghost predicate Homed(pages: map<nat, u64>, tf: nat) { tf in pages && FrameOf(pages[tf]) == tf }

  ghost predicate ImageOk(own: Owners, p: nat, img: Image)
  {
    && RegionsOk(img.regions)
    && FixedRegions(img.regions, img.trapframe)
    && IsUse(own, img.trapframe, PageOf(p, img.trapframe))
    && IsUse(own, img.kstack, KstackOf(p))
    && IsUse(own, img.info, InfoOf(p))
  }

  /** The three regions alloc_process registers first. */
  ghost predicate FixedRegions(rs: seq<Region>, trapframe: nat)
  {
    && |rs| >= 3
    && rs[0] == Region(USER_STACK_PAGE, 1, StackSegment)
    && rs[1].seg.ContextSegment? && rs[1].npages == 1 && rs[1].va == trapframe * 4096
    && rs[2].seg.SystemSegment?
    && forall i :: 3 <= i < |rs| ==> rs[i].seg.CodeSegment? || rs[i].seg.DataSegment?
  }

  /** Between two moments nothing but free frames and frames of slot p changed use or contents. */
  ghost predicate Local(p: nat, mem: Mem, own: Owners, mem': Mem, own': Owners)
  {
    && own'.Keys == own.Keys && mem'.Keys == mem.Keys
    && (forall f :: f in own && own[f] != FreeUse && !HeldBy(own[f], p) ==> own'[f] == own[f])
    && (forall f :: f in mem && (f in own ==> own[f] != FreeUse && !HeldBy(own[f], p)) ==> mem'[f] == mem[f])
  }

  lemma LocalTrans(p: nat, m0: Mem, o0: Owners, m1: Mem, o1: Owners, m2: Mem, o2: Owners)
    requires Local(p, m0, o0, m1, o1) && Local(p, m1, o1, m2, o2)
    ensures Local(p, m0, o0, m2, o2)
  {
  }

  /** Another slot is untouched by a step that is local to slot p. */
  lemma OtherSlotKept(p: nat, q: nat, mem: Mem, free: seq<nat>, own: Owners, mem': Mem, free': seq<nat>, own': Owners,
                      start: nat, end: nat, img: Image, sp: Space)
    requires p != q && Local(p, mem, own, mem', own')
    requires Accounted(mem, free, own, start, end) && Accounted(mem', free', own', start, end)
    requires SlotOk(mem, free, own, q, img, sp)
    ensures SlotOk(mem', free', own', q, img, sp)
  {
    hide FrameOf, SpaceOk, Backing, ImageOk, Accounted, Local;
    SpaceUntouched(p, q, mem, free, own, mem', free', own', start, end, sp);
    UsesUntouched(p, q, mem, own, mem', own', img, sp.pages);
  }

  lemma SpaceUntouched(p: nat, q: nat, mem: Mem, free: seq<nat>, own: Owners, mem': Mem, free': seq<nat>, own': Owners,
                       start: nat, end: nat, sp: Space)
    requires p != q && Local(p, mem, own, mem', own') && Accounted(mem', free', own', start, end)
    requires SpaceOk(mem, free, own, q, sp)
    ensures SpaceOk(mem', free', own', q, sp)
  {
    hide SpaceOk, Managed;
    SpaceKept(q, mem, free, own, mem', free', own', sp);
  }

  lemma UsesUntouched(p: nat, q: nat, mem: Mem, own: Owners, mem': Mem, own': Owners, img: Image, pages: map<nat, u64>)
    requires p != q && Local(p, mem, own, mem', own') && Backing(own, q, img.regions, pages) && ImageOk(own, q, img)
    ensures Backing(own', q, img.regions, pages) && ImageOk(own', q, img)
  {
    hide Backing, RegionsOk, FixedRegions;
    BackingKept(q, own, own', img.regions, pages);
  }

  lemma SpaceKept(q: nat, mem: Mem, free: seq<nat>, own: Owners, mem': Mem, free': seq<nat>, own': Owners, sp: Space)
    requires SpaceOk(mem, free, own, q, sp)
    requires forall f :: f in own && f in mem && own[f] == TableOf(q) ==>
               f in own' && own'[f] == TableOf(q) && f in mem' && mem'[f] == mem[f]
    requires forall f :: f in free' ==> f in own' && own'[f] == FreeUse
    ensures SpaceOk(mem', free', own', q, sp)
  {
    hide Shape;
    HoldsFrame(mem, free, mem', free', sp);
  }

  lemma BackingKept(q: nat, own: Owners, own': Owners, rs: seq<Region>, pages: map<nat, u64>)
    requires Backing(own, q, rs, pages) && own'.Keys == own.Keys
    requires forall f :: f in own && (own[f] == CodeUse || (own[f].PageOf? && own[f].p == q)) ==> own'[f] == own[f]
    ensures Backing(own', q, rs, pages)
  {
    hide FrameOf, InCode;
    forall v | v in pages ensures Backed(own', q, rs, v, pages[v]) {
      assert Backed(own, q, rs, v, pages[v]);
    }
  }

  /** Frames in use kept their use, and only free frames and tables of p were written. */
  ghost predicate TablesOnly(p: nat, mem: Mem, own: Owners, mem': Mem, own': Owners)
  {
    && own'.Keys == own.Keys && mem'.Keys == mem.Keys
    && (forall f :: f in own && own[f] != FreeUse ==> own'[f] == own[f])
    && (forall f :: f in mem && (f in own ==> own[f] != FreeUse && own[f] != TableOf(p)) ==> mem'[f] == mem[f])
  }

  ghost function Grow(own: Owners, free: seq<nat>, free': seq<nat>, p: nat): Owners
  {
    map f | f in own :: if f in free && f !in free' then TableOf(p) else own[f]
  }

  /** A growth of p's tree keeps the account: the frames taken are now tables of p. */
  lemma GrowOwners(mem: Mem, free: seq<nat>, own: Owners, start: nat, end: nat, p: nat, sp: Space, mem': Mem,
                   free': seq<nat>, sp': Space)
    requires Accounted(mem, free, own, start, end) && SpaceOk(mem, free, own, p, sp)
    requires Holds(mem', free', sp') && Grown(mem, free, sp, mem', free', sp')
    ensures var own' := Grow(own, free, free', p);
            && Accounted(mem', free', own', start, end)
            && SpaceOk(mem', free', own', p, sp')
            && TablesOnly(p, mem, own, mem', own')
  {
    hide Shape, Managed, Holds;
    assert forall f :: f in free' ==> f in free;
    forall f | f in own && own[f] != FreeUse && own[f] != TableOf(p) ensures f !in sp.tables.Values {
    }
  }

  ghost predicate PrivateIn(u: Use, p: nat, v: nat, n: nat) { u.PageOf? && u.p == p && v <= u.v < v + n }

  /** The free list gained private pages v .. v+n of p and nothing else. */
  ghost predicate HandedBack(own: Owners, p: nat, v: nat, n: nat, free: seq<nat>, free': seq<nat>)
  {
    && (forall f :: f in free ==> f in free')
    && (forall f :: f in free' && f !in free ==> f in own && PrivateIn(own[f], p, v, n))
  }

  /** Only table words, free frames and the private pages v .. v+n of p changed, and the latter only
      by becoming free. */
  ghost predicate Trimmed(p: nat, v: nat, n: nat, mem: Mem, own: Owners, mem': Mem, own': Owners)
  {
    && own'.Keys == own.Keys && mem'.Keys == mem.Keys
    && (forall f :: f in mem &&
                    (f in own ==> own[f] != FreeUse && own[f] != TableOf(p) && !PrivateIn(own[f], p, v, n)) ==>
          mem'[f] == mem[f])
    && (forall f :: f in own && !PrivateIn(own[f], p, v, n) ==> own'[f] == own[f])
    && (forall f :: f in own && own'[f] != own[f] ==> own'[f] == FreeUse)
  }

  ghost function Release(own: Owners, free: seq<nat>): Owners
  {
    map f | f in own :: if f in free then FreeUse else own[f]
  }

  /** Private pages of p outside code regions can be handed back. */
  lemma BackedReclaimable(mem: Mem, free: seq<nat>, own: Owners, start: nat, end: nat, p: nat, sp: Space,
                          rs: seq<Region>, v: nat, n: nat)
    requires Accounted(mem, free, own, start, end) && SpaceOk(mem, free, own, p, sp) && Backing(own, p, rs, sp.pages)
    requires forall w :: v <= w < v + n ==> !InCode(rs, w)
    ensures Reclaimable(sp, free, v, n, start, end)
  {
    hide FrameOf, Managed, InCode, Holds;
    forall w | v <= w < v + n && w in sp.pages && Managed(FrameOf(sp.pages[w]), start, end)
      ensures own[FrameOf(sp.pages[w])] == PageOf(p, w)
    {
      assert Backed(own, p, rs, w, sp.pages[w]);
    }
  }

  /** Unmapping a range, and handing back its frames if asked, keeps the account. */
  lemma {:induction false} TrimOwners(mem: Mem, free: seq<nat>, own: Owners, start: nat, end: nat, p: nat, sp: Space,
                                      rs: seq<Region>, v: nat, n: nat, reclaim: bool, mem': Mem, free': seq<nat>)
    requires Accounted(mem, free, own, start, end) && SpaceOk(mem, free, own, p, sp) && Backing(own, p, rs, sp.pages)
    requires reclaim ==> forall w :: v <= w < v + n ==> !InCode(rs, w)
    requires AllMapped(sp.pages, v, n) && AllUnmappable(sp, v, n, reclaim, start, end)
    requires free' == if reclaim then Freed(sp.pages, v, n, free) else free
    requires Spares(mem, free, sp, mem', free')
    requires Holds(mem', free', Space(sp.tables, Without(sp.pages, v, n)))
    ensures var own' := Release(own, free');
            && Accounted(mem', free', own', start, end)
            && SpaceOk(mem', free', own', p, Space(sp.tables, Without(sp.pages, v, n)))
            && Trimmed(p, v, n, mem, own, mem', own')
            && Backing(own', p, rs, Without(sp.pages, v, n))
  {
    hide FrameOf, Managed, InCode, Holds, Backing;
    Frees(own, start, end, p, sp, rs, v, n, reclaim, free, free');
    ReleaseAccount(mem, free, own, start, end, p, v, n, mem', free');
    ReleaseTrims(mem, free, own, start, end, p, sp, v, n, mem', free');
    ReleaseBacking(own, p, sp.pages, rs, v, n, free, free', start, end, mem);
  }

  lemma ReleaseAccount(mem: Mem, free: seq<nat>, own: Owners, start: nat, end: nat, p: nat, v: nat, n: nat, mem': Mem,
                       free': seq<nat>)
    requires Accounted(mem, free, own, start, end) && HandedBack(own, p, v, n, free, free') && mem'.Keys == mem.Keys
    ensures Accounted(mem', free', Release(own, free'), start, end)
  {
    hide Managed;
  }

  lemma ReleaseTrims(mem: Mem, free: seq<nat>, own: Owners, start: nat, end: nat, p: nat, sp: Space, v: nat, n: nat,
                     mem': Mem, free': seq<nat>)
    requires Accounted(mem, free, own, start, end) && HandedBack(own, p, v, n, free, free')
    requires SpaceOk(mem, free, own, p, sp) && Spares(mem, free, sp, mem', free')
    ensures Trimmed(p, v, n, mem, own, mem', Release(own, free'))
    ensures forall id :: id in sp.tables ==> IsUse(Release(own, free'), sp.tables[id], TableOf(p))
  {
    hide Managed, Holds;
  }

  lemma ReleaseBacking(own: Owners, p: nat, pages: map<nat, u64>, rs: seq<Region>, v: nat, n: nat, free: seq<nat>,
                       free': seq<nat>, start: nat, end: nat, mem: Mem)
    requires Accounted(mem, free, own, start, end) && HandedBack(own, p, v, n, free, free')
    requires Backing(own, p, rs, pages)
    ensures Backing(Release(own, free'), p, rs, Without(pages, v, n))
  {
    hide FrameOf, Managed, InCode;
    forall w | w in Without(pages, v, n) ensures Backed(Release(own, free'), p, rs, w, pages[w]) {
      assert Backed(own, p, rs, w, pages[w]);
    }
  }

  lemma {:induction false} Frees(own: Owners, start: nat, end: nat, p: nat, sp: Space, rs: seq<Region>, v: nat, n: nat,
                                 reclaim: bool, free: seq<nat>, free': seq<nat>)
    requires Backing(own, p, rs, sp.pages) && forall g :: g in own <==> Managed(g, start, end)
    requires reclaim ==> forall w :: v <= w < v + n ==> !InCode(rs, w)
    requires AllMapped(sp.pages, v, n) && AllUnmappable(sp, v, n, reclaim, start, end)
    requires free' == if reclaim then Freed(sp.pages, v, n, free) else free
    ensures HandedBack(own, p, v, n, free, free')
  {
    hide FrameOf, Managed, InCode;
    if reclaim {
      forall i | 0 <= i < |free'| ensures i >= n ==> free'[i] == free[i - n] {
        assert i >= n ==> free'[i] == free'[n..][i - n];
      }
      forall i | 0 <= i < |free| ensures free[i] in free' { assert free[i] == free'[n..][i]; }
      forall i | 0 <= i < n ensures free'[i] in own && own[free'[i]] == PageOf(p, v + n - 1 - i) {
        var w := v + n - 1 - i;
        assert CanUnmap(sp, w, true, start, end) && Backed(own, p, rs, w, sp.pages[w]);
      }
    }
  }

  /** Turning a free frame to use u keeps the account. */
  lemma TakeOwner(mem: Mem, free: seq<nat>, own: Owners, start: nat, end: nat, u: Use)
    requires Accounted(mem, free, own, start, end) && free != [] && free[0] !in free[1..] && u != FreeUse
    ensures free[0] in own && own[free[0]] == FreeUse
    ensures Accounted(mem, free[1..], own[free[0] := u], start, end)
  {
    hide Managed;
    assert forall f :: f in free <==> f == free[0] || f in free[1..];
  }

  /** Before any process exists, every managed frame is free or the kernel's. */
  ghost function InitialOwners(mem: Mem, free: seq<nat>, start: nat, end: nat): Owners
  {
    map f | f in mem && Managed(f, start, end) :: if f in free then FreeUse else KernelUse
  }

  lemma InitialAccount(mem: Mem, free: seq<nat>, start: nat, end: nat)
    requires Bounds(mem, free, start, end)
    ensures Accounted(mem, free, InitialOwners(mem, free, start, end), start, end)
  {
    hide Managed;
  }

  ghost predicate NoCode(rs: seq<Region>, v: nat, n: nat) { forall w :: v <= w < v + n ==> !InCode(rs, w) }

  lemma TrimmedRefl(p: nat, v: nat, n: nat, mem: Mem, own: Owners)
    ensures Trimmed(p, v, n, mem, own, mem, own)
  {
  }

  lemma TrimmedTrans(p: nat, n: nat, v1: nat, n1: nat, m0: Mem, o0: Owners, m1: Mem, o1: Owners, m2: Mem, o2: Owners)
    requires Trimmed(p, 0, n, m0, o0, m1, o1) && Trimmed(p, v1, n1, m1, o1, m2, o2) && v1 + n1 <= n
    ensures Trimmed(p, 0, n, m0, o0, m2, o2)
  {
  }

  lemma TrimmedLocal(p: nat, v: nat, n: nat, mem: Mem, own: Owners, mem': Mem, own': Owners)
    requires Trimmed(p, v, n, mem, own, mem', own')
    ensures Local(p, mem, own, mem', own')
  {
  }

  lemma TablesOnlyLocal(p: nat, mem: Mem, own: Owners, mem': Mem, own': Owners)
    requires TablesOnly(p, mem, own, mem', own')
    ensures Local(p, mem, own, mem', own')
  {
  }

  /** Changing use and contents of one frame that slot p holds, or that is free, is local to p. */
  lemma OneFrameLocal(p: nat, mem: Mem, own: Owners, f: nat, u: Use, mem': Mem)
    requires f in own && (own[f] == FreeUse || HeldBy(own[f], p))
    requires mem'.Keys == mem.Keys && forall g :: g in mem && g != f ==> mem'[g] == mem[g]
    ensures Local(p, mem, own, mem', own[f := u])
  {
  }

  /** No frame in use changed its use. */
  ghost predicate Keeps(own: Owners, own': Owners)
  {
    forall f, u :: IsUse(own, f, u) && u != FreeUse ==> IsUse(own', f, u)
  }

  /** Frame f is in use as u and holds page. */
  ghost predicate Held(mem: Mem, own: Owners, f: nat, u: Use, page: Page)
  {
    f in own && f in mem && own[f] == u && mem[f] == page
  }

  lemma HeldFacts(mem: Mem, own: Owners, f: nat, u: Use, page: Page)
    requires Held(mem, own, f, u, page)
    ensures IsUse(own, f, u) && f in mem && mem[f] == page
  {
  }

  /** Only free frames changed. */
  ghost predicate Adds(mem: Mem, own: Owners, mem': Mem, own': Owners)
  {
    && own'.Keys == own.Keys && mem'.Keys == mem.Keys
    && (forall f :: f in mem && f !in own ==> mem'[f] == mem[f])
    && (forall f, u, page :: Held(mem, own, f, u, page) && u != FreeUse ==> Held(mem', own', f, u, page))
  }

  lemma AddsTrans(m0: Mem, o0: Owners, m1: Mem, o1: Owners, m2: Mem, o2: Owners)
    requires Adds(m0, o0, m1, o1) && Adds(m1, o1, m2, o2)
    ensures Adds(m0, o0, m2, o2)
  {
    hide Held;
  }

  lemma AddsHeld(mem: Mem, own: Owners, mem': Mem, own': Owners, f: nat, u: Use, page: Page)
    requires Adds(mem, own, mem', own') && Held(mem, own, f, u, page) && u != FreeUse
    ensures Held(mem', own', f, u, page) && IsUse(own', f, u) && f in mem' && mem'[f] == page
  {
  }

  lemma AddsTablesOnly(p: nat, mem: Mem, free: seq<nat>, own: Owners, start: nat, end: nat, mem': Mem, own': Owners)
    requires Adds(mem, own, mem', own') && Accounted(mem, free, own, start, end)
    ensures TablesOnly(p, mem, own, mem', own') && Keeps(own, own')
  {
    hide Managed;
    forall f | f in own && own[f] != FreeUse ensures own'[f] == own[f] && mem'[f] == mem[f] {
      assert Held(mem, own, f, own[f], mem[f]);
    }
  }

  /** Taking free frames disturbs no slot. */
  lemma AddsSlot(p: nat, mem: Mem, free: seq<nat>, own: Owners, mem': Mem, free': seq<nat>, own': Owners, start: nat,
                 end: nat, img: Image, sp: Space)
    requires Adds(mem, own, mem', own') && SlotOk(mem, free, own, p, img, sp)
    requires Accounted(mem, free, own, start, end) && Accounted(mem', free', own', start, end)
    ensures SlotOk(mem', free', own', p, img, sp)
  {
    hide SlotOk, Accounted, Adds, TablesOnly, Local;
    AddsTablesOnly(p + 1, mem, free, own, start, end, mem', own');
    TablesOnlyLocal(p + 1, mem, own, mem', own');
    OtherSlotKept(p + 1, p, mem, free, own, mem', free', own', start, end, img, sp);
  }

  lemma TablesOnlyKeeps(p: nat, mem: Mem, free: seq<nat>, own: Owners, start: nat, end: nat, mem': Mem, own': Owners)
    requires TablesOnly(p, mem, own, mem', own') && Accounted(mem, free, own, start, end)
    ensures Keeps(own, own')
  {
    hide Managed;
  }

  /** A page directory with nothing mapped. */
  lemma EmptySpace(mem: Mem, free: seq<nat>, own: Owners, start: nat, end: nat, p: nat, root: nat)
    requires Accounted(mem, free, own, start, end) && IsUse(own, root, TableOf(p)) && root in mem
    requires mem[root] == ZeroPage()
    ensures SpaceOk(mem, free, own, p, Space(map[Root := root], map[]))
  {
  }

  /** Adding a page, with the region list extended over pages that are not mapped. */
  lemma BackingAdd(own: Owners, p: nat, rs: seq<Region>, rs': seq<Region>, pages: map<nat, u64>, v: nat, pte: u64)
    requires Backing(own, p, rs, pages) && v !in pages && Backed(own, p, rs', v, pte)
    requires forall w :: w in pages ==> (InCode(rs, w) <==> InCode(rs', w))
    ensures Backing(own, p, rs', pages[v := pte])
  {
    hide FrameOf, InCode;
    forall w | w in pages ensures Backed(own, p, rs', w, pages[w]) {
      assert Backed(own, p, rs, w, pages[w]);
    }
  }

  /** The entry map_pages writes is readable if asked for, and leads to the frame given. */
  lemma EntryFacts(pa: u64, prot: bv8, user: bool)
    ensures FrameOf(MakePte(pa, ProtToType(prot, user))) == pa / 4096
    ensures PteR(MakePte(pa, ProtToType(prot, user))) <==> prot & 1 != 0 || prot & 7 == 0
  {
    ProtFlags(prot, user);
    MakePteFields(pa, ProtToType(prot, user));
  }

  lemma TablesOnlyBacking(p: nat, mem: Mem, own: Owners, mem': Mem, own': Owners, rs: seq<Region>, pages: map<nat, u64>)
    requires TablesOnly(p, mem, own, mem', own') && Backing(own, p, rs, pages) && forall f :: f in own ==> f in mem
    ensures Backing(own', p, rs, pages)
  {
    hide Backing;
    BackingKept(p, own, own', rs, pages);
  }

  lemma TablesOnlyTrans(p: nat, m0: Mem, o0: Owners, m1: Mem, o1: Owners, m2: Mem, o2: Owners)
    requires TablesOnly(p, m0, o0, m1, o1) && TablesOnly(p, m1, o1, m2, o2)
    ensures TablesOnly(p, m0, o0, m2, o2)
  {
  }

  lemma TablesOnlyUse(p: nat, mem: Mem, own: Owners, mem': Mem, own': Owners, f: nat)
    requires TablesOnly(p, mem, own, mem', own') && f in own && f in mem && own[f] != FreeUse
    ensures f in own' && own'[f] == own[f] && f in mem' && (own[f] != TableOf(p) ==> mem'[f] == mem[f])
  {
  }

  ghost predicate Submap(a: map<nat, u64>, b: map<nat, u64>) { forall v :: v in a ==> v in b && a[v] == b[v] }

  /** Frame f backs a page of one of the first k regions, a region whose frames are handed back. */
  ghost predicate Returned(rs: seq<Region>, pages: map<nat, u64>, k: nat, f: nat)
    requires k <= |rs|
  {
    exists j, v :: 0 <= j < k && Reclaimed(rs[j].seg) && Covers(rs[j], v) && v in pages && FrameOf(pages[v]) == f
  }

  /** The free list gained exactly the frames of the first k regions that are handed back. */
  ghost predicate GainedRegions(free: seq<nat>, free': seq<nat>, rs: seq<Region>, pages: map<nat, u64>, k: nat)
    requires k <= |rs|
  {
    forall f :: f in free' <==> f in free || Returned(rs, pages, k, f)
  }

  lemma {:induction false} GainedStep(free: seq<nat>, free1: seq<nat>, free2: seq<nat>, rs: seq<Region>,
                                      pages: map<nat, u64>, pages1: map<nat, u64>, k: nat)
    requires k < |rs| && GainedRegions(free, free1, rs, pages, k) && Submap(pages1, pages)
    requires AllMapped(pages1, rs[k].va / 4096, rs[k].npages)
    requires free2 == if Reclaimed(rs[k].seg) then Freed(pages1, rs[k].va / 4096, rs[k].npages, free1) else free1
    ensures GainedRegions(free, free2, rs, pages, k + 1)
  {
    hide FrameOf;
    var v, n := rs[k].va / 4096, rs[k].npages;
    forall f ensures f in free2 <==> f in free || Returned(rs, pages, k + 1, f) {
      if Reclaimed(rs[k].seg) { InFreed(pages1, v, n, free1, f); }
      if f in free2 && f !in free1 {
        var w :| v <= w < v + n && FrameOf(pages1[w]) == f;
        assert Covers(rs[k], w) && w in pages;
      } else if f in free2 && f !in free {
        assert Returned(rs, pages, k, f);
      }
      if Returned(rs, pages, k + 1, f) && !Returned(rs, pages, k, f) {
        var w :| Covers(rs[k], w) && w in pages && FrameOf(pages[w]) == f;
        assert w in pages1;
      }
    }
  }

  lemma {:induction false} InFreed(pages: map<nat, u64>, v: nat, n: nat, free: seq<nat>, f: nat)
    requires AllMapped(pages, v, n)
    ensures f in Freed(pages, v, n, free) <==> f in free || exists w :: v <= w < v + n && FrameOf(pages[w]) == f
  {
    hide FrameOf;
    var r := Freed(pages, v, n, free);
    assert forall i :: 0 <= i < |free| ==> r[n + i] == r[n..][i];
    forall w | v <= w < v + n ensures r[v + n - 1 - w] == FrameOf(pages[w]) { }
  }

  lemma ReleaseTwice(own: Owners, free1: seq<nat>, free2: seq<nat>)
    requires forall f :: f in free1 ==> f in free2
    ensures Release(Release(own, free1), free2) == Release(own, free2)
  {
  }

  /** Frames the kernel holds, the RAM disk's among them, keep their use and their contents. */
  ghost predicate KernelKept(mem: Mem, own: Owners, mem': Mem, own': Owners)
  {
    forall f :: f in own && own[f] == KernelUse && f in mem ==>
      f in own' && own'[f] == KernelUse && f in mem' && mem'[f] == mem[f]
  }

  lemma LocalKernel(p: nat, mem: Mem, own: Owners, mem': Mem, own': Owners)
    requires Local(p, mem, own, mem', own')
    ensures KernelKept(mem, own, mem', own')
  {
  }

  lemma KernelTrans(m0: Mem, o0: Owners, m1: Mem, o1: Owners, m2: Mem, o2: Owners)
    requires KernelKept(m0, o0, m1, o1) && KernelKept(m1, o1, m2, o2)
    ensures KernelKept(m0, o0, m2, o2)
  {
  }

  lemma KernelRefl(mem: Mem, own: Owners)
    ensures KernelKept(mem, own, mem, own)
  {
  }
}
