/** The memory side of kernel/process.c, kernel/syscall.c and kernel/strap.c: building, replacing,
    copying and reaping process images over the page tables and the frame allocator. */
module ProcessMemory {
  import opened Sv39
  import opened PageTable
  import opened Lists
  import opened Memory
  import opened Ownership
  import opened Images
  import opened Placement
  import opened Reaping
  import opened Freeing
  import opened Forking
  import opened Bytes
  import opened Arguments
  import U = UserBuffer
  import opened Steps

  /** Stack and trapframe are two frames. */
  lemma StackApart(p: nat, own: Owners, img: Image, pages: map<nat, u64>)
    requires ImageOk(own, p, img) && StackMapped(own, p, pages)
    ensures FrameOf(pages[USER_STACK_PAGE / 4096]) != img.trapframe
  {
    hide FrameOf;
    assert Covers(img.regions[0], USER_STACK_PAGE / 4096) && Covers(img.regions[1], img.trapframe);
    assert Disjoint(img.regions[0], img.regions[1]);
  }

  /** Writes to two private frames of p are local and keep its image. */
  lemma PrivateWrites(p: nat, mem: Mem, free: seq<nat>, own: Owners, start: nat, end: nat, mem': Mem, img: Image,
                      sp: Space, f: nat, g: nat)
    requires Accounted(mem, free, own, start, end) && SlotOk(mem, free, own, p, img, sp) && mem'.Keys == mem.Keys
    requires f in mem && g in mem && mem' == mem[f := mem'[f]][g := mem'[g]]
    requires f in own && own[f].PageOf? && own[f].p == p && g in own && own[g].PageOf? && own[g].p == p
    ensures SlotOk(mem', free, own, p, img, sp) && Local(p, mem, own, mem', own)
  {
    hide Managed, Holds, Backing, ImageOk, Homed;
    SpaceKept(p, mem, free, own, mem', free, own, sp);
  }

  /** Loading the program leaves stack and trapframe as they are. */
  lemma StillCalled(p: nat, mem: Mem, free: seq<nat>, own: Owners, img: Image, sp: Space, mem': Mem, own': Owners,
                    pages: map<nat, u64>, args: seq<seq<byte>>)
    requires SlotOk(mem, free, own, p, img, sp) && StackMapped(own, p, sp.pages) && TablesOnly(p, mem, own, mem', own')
    requires Fit(args) && CalledWith(mem, sp.pages, img.trapframe, args) && Submap(sp.pages, pages)
    ensures CalledWith(mem', pages, img.trapframe, args)
  {
    hide SpaceOk, Backing, RegionsOk, FixedRegions, Homed, FrameOf, Fit, Registers, Pointers, Copied, TablesOnly;
    var stack := FrameOf(sp.pages[USER_STACK_PAGE / 4096]);
    TablesOnlyUse(p, mem, own, mem', own', stack);
    TablesOnlyUse(p, mem, own, mem', own', img.trapframe);
    ArgumentsKept(mem, mem', stack, img.trapframe, args);
  }

  lemma TrapframeKept(p: nat, mem: Mem, free: seq<nat>, own: Owners, img: Image, sp: Space, mem': Mem, own': Owners)
    requires SlotOk(mem, free, own, p, img, sp) && TablesOnly(p, mem, own, mem', own')
    requires NewContext(mem, img.trapframe)
    ensures NewContext(mem', img.trapframe)
  {
    hide SpaceOk, Backing, RegionsOk, FixedRegions, Homed, TablesOnly;
    TablesOnlyUse(p, mem, own, mem', own', img.trapframe);
  }

  lemma StackStays(p: nat, own: Owners, own': Owners, pages: map<nat, u64>)
    requires StackMapped(own, p, pages) && Keeps(own, own')
    ensures StackMapped(own', p, pages)
  {
    hide FrameOf;
  }

  /** The store of the result is far below the arguments. */
  lemma CalledAfter(mem: Mem, pages: map<nat, u64>, tf: nat, args: seq<seq<byte>>, f: nat)
    requires Fit(args) && CalledWith(mem, pages, tf, args) && f != tf && f in mem
    ensures CalledWith(Cleared(mem, f), pages, tf, args)
  {
    hide FrameOf, Fit, Registers, Pointers, Copied;
    ArgumentsKept(mem, Cleared(mem, f), FrameOf(pages[USER_STACK_PAGE / 4096]), tf, args);
  }

  /** Page v is backed by the frame of address pa. */
  ghost predicate Behind(sp: Space, v: nat, pa: nat) { v in sp.pages && FrameOf(sp.pages[v]) == pa / 4096 }

  /** Page v of slot p is there, backed by the managed frame of address pa. */
  ghost predicate Target(slots: seq<Slot>, spaces: seq<Space>, p: nat, v: nat, pa: nat, start: nat, end: nat)
  {
    p < |slots| == |spaces| && slots[p].Occupied? && Behind(spaces[p], v, pa) && Managed(pa / 4096, start, end)
  }

  ghost predicate OffCodeAt(slots: seq<Slot>, p: nat, v: nat)
  {
    p < |slots| && slots[p].Occupied? && !InCode(slots[p].img.regions, v)
  }

  /** A managed page of a process is found where the page table says. */
  lemma Backer(p: nat, own: Owners, rs: seq<Region>, sp: Space, va: u64)
    requires Backing(own, p, rs, sp.pages) && Lookup(sp, va) != 0
    ensures Behind(sp, va / 4096, Lookup(sp, va) + va % 4096)
    ensures (Lookup(sp, va) + va % 4096) % 4096 == va % 4096
  {
    hide Backing;
    DivMod(Lookup(sp, va) / 4096, va % 4096, 4096);
  }

  /** A walk takes at most two frames. */
  lemma FewTaken(sp: Space, sp': Space, v: nat, free: seq<nat>, free': seq<nat>, r: MapResult)
    requires r.Done? ==> Took(Missing(sp.tables.Keys, v, 0), free, free', sp, sp')
    requires r.NoFrame? ==> |free| < |Missing(sp.tables.Keys, v, 0)|
    ensures !r.Panic? ==> |free| <= |free'| + 2
  {
    hide Missing, Took;
    MissingFew(sp.tables.Keys, v);
    if r.Done? { TookLength(Missing(sp.tables.Keys, v, 0), free, free', sp, sp'); }
  }

  lemma TablesTaken(mem: Mem, head: nat, free: seq<nat>, sp: Space, mem': Mem, free': seq<nat>, sp': Space)
    requires IsFreeList(mem, head, free) && Holds(mem, free, sp) && Holds(mem', free', sp')
    requires Grown(mem, free, sp, mem', free', sp')
    ensures |sp'.tables.Keys| + |free'| == |sp.tables.Keys| + |free|
  {
    hide Grown, Shape, NodeAddr;
    GrownCount(mem, free, sp, mem', free', sp');
  }

  lemma {:induction false} NoDataYet(p: nat, c: nat, mem0: Mem, own0: Owners, imgp: Image, spp: Space, mem: Mem,
                                     own: Owners, free: seq<nat>, img: Image, spc: Space)
    requires ForkInv(p, c, mem0, own0, imgp, spp, 3, mem, own, free, img, spc)
    ensures |imgp.regions| >= 3 && DataPages(imgp.regions, 3) == 0
  {
    hide RegionsOk, Backing, Local, SpaceOk, SlotOk;
    var rs := imgp.regions;
    assert DataPages(rs, 2) == DataPages(rs, 1) == DataPages(rs, 0) == 0;
  }

  lemma InitialStaff(mem: Mem, free: seq<nat>, start: nat, end: nat)
    ensures StaffIs(InitialOwners(mem, free, start, end), map[])
  {
  }

  lemma Relabelled(mem: Mem, free: seq<nat>, own: Owners, start: nat, end: nat, f: nat, u: Use)
    requires Accounted(mem, free, own, start, end) && f in own && own[f] != FreeUse && u != FreeUse
    ensures Accounted(mem, free, own[f := u], start, end)
  {
    hide Managed;
  }

  /** A frame that was free is new under any use. */
  lemma AddsOther(mem: Mem, free: seq<nat>, own: Owners, start: nat, end: nat, mem': Mem, own': Owners, f: nat, u: Use)
    requires Accounted(mem, free, own, start, end) && Adds(mem, own, mem', own') && f in free && f in mem' && f in own'
    ensures Adds(mem, own, mem', own'[f := u]) && Held(mem', own'[f := u], f, u, mem'[f])
  {
    hide Managed;
  }

  lemma GrowStaff(mem: Mem, free: seq<nat>, own: Owners, start: nat, end: nat, p: nat, free': seq<nat>,
                  staff: map<nat, Use>)
    requires Accounted(mem, free, own, start, end) && StaffIs(own, staff)
    ensures StaffIs(Grow(own, free, free', p), staff)
  {
    hide Managed;
    StaffSame(own, staff, Grow(own, free, free', p));
  }

  lemma TrimStaff(p: nat, v: nat, n: nat, mem: Mem, own: Owners, mem': Mem, own': Owners, staff: map<nat, Use>)
    requires Trimmed(p, v, n, mem, own, mem', own') && StaffIs(own, staff)
    ensures StaffIs(own', staff)
  {
    StaffSame(own, staff, own');
  }

  /** A mapped frame is no kernel stack. */
  lemma NotStaff(p: nat, mem: Mem, free: seq<nat>, own: Owners, img: Image, sp: Space, v: nat)
    requires SlotOk(mem, free, own, p, img, sp) && v in sp.pages && FrameOf(sp.pages[v]) in own
    ensures !IsStaff(own[FrameOf(sp.pages[v])])
  {
    hide SpaceOk, ImageOk, Homed, InCode, FrameOf;
    assert Backed(own, p, img.regions, v, sp.pages[v]);
  }

  class ProcessMemory {
    const m: Memory
    const trapSec: u64            // trap_sec_start, in kernel text
    var slots: seq<Slot>
    var heapNext: u64             // g_ufree_page
    ghost var own: Owners
    ghost var spaces: seq<Space>
    ghost var staff: map<nat, Use>   // kernel stacks and region lists

    /** init_proc_pool, after the kernel's own allocations: frames that are not free are the kernel's. */
    constructor (m: Memory, trapSec: u64)
      requires m.Valid() && trapSec % 4096 == 0 && !Managed(trapSec / 4096, m.start, m.end)
      requires USER_STACK_PAGE < trapSec < MAXVA && USER_STACK_PAGE < m.start
      ensures this.m == m && this.trapSec == trapSec
      ensures Valid() && slots == seq(NPROC, _ => Vacant) && own == InitialOwners(m.mem, m.free, m.start, m.end)
      ensures heapNext == 0x40_0000
    {
      hide Accounted, StaffIs, IsFreeList, Bounds, SlotOk, Managed;
      this.m, this.trapSec := m, trapSec;
      slots, heapNext := seq(NPROC, _ => Vacant), 0x40_0000;
      own := InitialOwners(m.mem, m.free, m.start, m.end);
      InitialAccount(m.mem, m.free, m.start, m.end);
      spaces := seq(NPROC, _ => Space(map[], map[]));
      staff := map[];
      InitialStaff(m.mem, m.free, m.start, m.end);
    }

    ghost predicate Valid()
      reads this, m
    {
      && Counted()
      && |slots| == |spaces| == NPROC
      && Layout()
      && heapNext % 4096 == 0
      && SlotsBut(NPROC, m.mem, m.free, own, slots, spaces) && Staffed(staff, slots)
    }

    ghost function State(): MemState
      reads this, m
    {
      MemState(m.mem, m.free, own, slots, spaces, heapNext)
    }

    /** The same with slot p left out. */
    ghost predicate ValidBut(p: nat)
      reads this, m
    {
      && Counted()
      && |slots| == |spaces| == NPROC
      && Layout()
      && heapNext % 4096 == 0
      && SlotsBut(p, m.mem, m.free, own, slots, spaces) && Staffed(staff, slots)
    }

    /** The trap vector's page is the kernel's, and memory lies above the user stack. */
    ghost predicate Layout()
      reads this, m
    {
      trapSec % 4096 == 0 && trapSec / 4096 !in own && USER_STACK_PAGE < trapSec < MAXVA && USER_STACK_PAGE < m.start
    }

    lemma NowInOrder()
      requires Valid()
      ensures InOrder(State(), m.start, m.end)
    {
      hide IsFreeList, Bounds, Accounted, SlotsBut, StaffIs, Staffed, StaffOnce;
      ListHead(m.mem, m.head, m.free);
      StaffUses(own, staff, slots);
    }

    /** The free list holds each frame once, all of them managed, and none that a process can reach:
        not its kernel stack, saved context or region list, not a page table, not a mapped page. */
    lemma FreeUnreachable(f: nat)
      requires Valid() && f in m.free
      ensures NoDup(m.free) && Managed(f, m.start, m.end)
      ensures forall q :: 0 <= q < NPROC && slots[q].Occupied? ==> !Reaches(slots[q].img, spaces[q], f)
    {
      hide IsFreeList, Bounds, SlotsBut, Accounted, FrameOf, Managed, SlotOk, Reaches;
      FreeFacts(m.mem, m.head, m.free, own, m.start, m.end, f);
      forall q | 0 <= q < NPROC && slots[q].Occupied? ensures !Reaches(slots[q].img, spaces[q], f) {
        SlotFacts(m.mem, m.free, own, q, slots, spaces);
        NotReached(m.mem, m.free, own, q, slots[q].img, spaces[q], f);
      }
    }

    /** No process can reach a frame of the kernel. */
    lemma KernelUnreachable(f: nat)
      requires Valid() && f in own && own[f] == KernelUse
      ensures f !in m.free && forall q :: 0 <= q < NPROC && slots[q].Occupied? ==> !Reaches(slots[q].img, spaces[q], f)
    {
      hide IsFreeList, Bounds, SlotsBut, FrameOf, Managed, SlotOk, Reaches;
      forall q | 0 <= q < NPROC && slots[q].Occupied? ensures !Reaches(slots[q].img, spaces[q], f) {
        SlotFacts(m.mem, m.free, own, q, slots, spaces);
        NotReached(m.mem, m.free, own, q, slots[q].img, spaces[q], f);
      }
    }

    /** Two processes share no frame but code. */
    lemma OnlyCodeShared(p: nat, q: nat, f: nat)
      requires Valid() && p < NPROC && q < NPROC && p != q && slots[p].Occupied? && slots[q].Occupied?
      requires f in own && Reaches(slots[p].img, spaces[p], f) && Reaches(slots[q].img, spaces[q], f)
      ensures own[f] == CodeUse
    {
      hide IsFreeList, Bounds, SlotsBut, Accounted, FrameOf, Managed, SlotOk, Reaches;
      SlotFacts(m.mem, m.free, own, p, slots, spaces);
      SlotFacts(m.mem, m.free, own, q, slots, spaces);
      ReachedUse(m.mem, m.free, own, p, slots[p].img, spaces[p], f);
      ReachedUse(m.mem, m.free, own, q, slots[q].img, spaces[q], f);
    }

    lemma Sizes()
      requires Valid()
      ensures |slots| == |spaces| == NPROC
    {
    }

    ghost predicate Counted()
      reads this, m
    {
      m.Valid() && Accounted(m.mem, m.free, own, m.start, m.end) && StaffIs(own, staff)
    }

    /** alloc_page, the frame taken to use u. */
    method Take(ghost u: Use) returns (pa: u64)
      requires Counted() && u != FreeUse && !IsStaff(u)
      modifies this`own, m`head, m`free
      ensures Counted()
      ensures pa == 0 <==> old(m.free) == []
      ensures pa == 0 ==> own == old(own) && m.free == []
      ensures pa != 0 ==> && pa % 4096 == 0 && pa < MAXVA && pa / 4096 in old(own) && old(own)[pa / 4096] == FreeUse
                          && own == old(own)[pa / 4096 := u] && pa / 4096 in m.mem && m.free == old(m.free)[1..]
                          && pa / 4096 == old(m.free)[0]
      ensures IsSuffix(m.free, old(m.free))
    {
      hide Accounted, StaffIs, IsFreeList, Bounds, Managed;
      AllocFacts(m.mem, m.head, m.free, m.start, m.end);
      if m.free != [] { TakeOwner(m.mem, m.free, own, m.start, m.end, u); }
      pa := m.AllocPage();
      if pa != 0 {
        StaffOne(own, staff, pa / 4096, u);
        own := own[pa / 4096 := u];
      }
    }

    /** free_page of a frame that slot p holds: its range check always passes. */
    method Give(ghost p: nat, f: nat)
      requires Counted() && f in own && HeldBy(own[f], p) && !IsStaff(own[f])
      modifies this`own, m`mem, m`head, m`free
      ensures Counted() && own == old(own)[f := FreeUse] && m.free == [f] + old(m.free)
      ensures m.mem.Keys == old(m.mem).Keys && forall g :: g in m.mem && g != f ==> m.mem[g] == old(m.mem)[g]
      ensures Local(p, old(m.mem), old(own), m.mem, own) && own == Release(old(own), m.free)
    {
      hide IsFreeList, Bounds, Local, Release, StaffIs;
      assert Managed(f, m.start, m.end);
      var ok := m.FreePage(f * 4096);
      StaffOne(own, staff, f, FreeUse);
      own := own[f := FreeUse];
      GiveFacts(p, old(m.mem), old(m.free), old(own), m.start, m.end, f, m.mem, m.free, own);
    }

    /** The same of its kernel stack or its region list. */
    method Dismiss(ghost p: nat, f: nat)
      requires Counted() && f in own && IsStaff(own[f]) && own[f].p == p
      modifies this`own, this`staff, m`mem, m`head, m`free
      ensures Counted() && own == old(own)[f := FreeUse] && m.free == [f] + old(m.free)
      ensures m.mem.Keys == old(m.mem).Keys && forall g :: g in m.mem && g != f ==> m.mem[g] == old(m.mem)[g]
      ensures Local(p, old(m.mem), old(own), m.mem, own) && own == Release(old(own), m.free)
      ensures staff == old(staff) - {f}
    {
      hide Accounted, StaffIs, IsFreeList, Bounds, Local, Release;
      StaffLess(own, staff, f, TableOf(p));
      Relabelled(m.mem, m.free, own, m.start, m.end, f, TableOf(p));
      own, staff := own[f := TableOf(p)], staff - {f};
      Give(p, f);
      assert own == old(own)[f := FreeUse];
      GiveFacts(p, old(m.mem), old(m.free), old(own), m.start, m.end, f, m.mem, m.free, own);
    }

    /** map_pages over the single page at va in the tree of slot p. */
    method MapPage(ghost p: nat, root: nat, va: u64, pa: u64, perm: Perm, ghost sp: Space)
      returns (r: MapResult, ghost sp': Space)
      requires Counted() && SpaceOk(m.mem, m.free, own, p, sp) && sp.tables[Root] == root && va % 4096 == 0
      modifies this`own, m`mem, m`head, m`free
      ensures Counted() && SpaceOk(m.mem, m.free, own, p, sp') && sp'.tables[Root] == root
      ensures TablesOnly(p, old(m.mem), old(own), m.mem, own)
      ensures r.Done? ==> va < MAXVA && va / 4096 !in sp.pages && sp'.pages == sp.pages[va / 4096 := MakePte(pa, perm)]
      ensures !r.Done? ==> sp'.pages == sp.pages
      ensures r.NoFrame? ==> m.free == [] && va / 4096 !in sp.pages
      ensures r.NoFrame? ==> |old(m.free)| < |Missing(sp.tables.Keys, va / 4096, 0)|
      ensures r.Panic? ==> va >= MAXVA || va / 4096 in sp.pages
      ensures |m.free| <= |old(m.free)|
      ensures !r.Panic? ==> |old(m.free)| <= |m.free| + 2
      ensures |sp'.tables.Keys| + |m.free| == |sp.tables.Keys| + |old(m.free)|
      ensures IsSuffix(m.free, old(m.free))
      ensures r.Done? ==> Took(Missing(sp.tables.Keys, va / 4096, 0), old(m.free), m.free, sp, sp')
    {
      hide Accounted, StaffIs, IsFreeList, Bounds, Holds, Grown, Mapped, Span, MakePte, TablesOnly, Grow, Unmapped,
           Took, Missing, Paths, SpaceOk;
      ghost var n;
      HasRoot(m.mem, m.free, own, p, sp);
      OnePage(va, sp.pages, pa, perm);
      r, sp', n := m.MapPages(root, va, 4096, pa, perm, sp);
      GrowOwners(old(m.mem), old(m.free), own, m.start, m.end, p, sp, m.mem, m.free, sp');
      GrowStaff(old(m.mem), old(m.free), own, m.start, m.end, p, m.free, staff);
      own := Grow(own, old(m.free), m.free, p);
      TablesTaken(old(m.mem), old(m.head), old(m.free), sp, m.mem, m.free, sp');
      GrownIsSuffix(old(m.mem), old(m.free), sp, m.mem, m.free, sp');
      GrownKeeps(old(m.mem), old(m.free), sp, m.mem, m.free, sp', Root);
      if n == 1 { FirstUnmapped(sp.pages, va / 4096); }
      PathsOne(sp.tables.Keys, va / 4096);
      FewTaken(sp, sp', va / 4096, old(m.free), m.free, r);
    }

    /** user_vm_unmap over npages pages of slot p, whose pages are backed as its regions rs say. */
    method UnmapRange(ghost p: nat, root: nat, va: u64, npages: nat, reclaim: bool, ghost sp: Space,
                      ghost rs: seq<Region>)
      returns (ok: bool, ghost sp': Space)
      requires Counted() && SpaceOk(m.mem, m.free, own, p, sp) && sp.tables[Root] == root
      requires Backing(own, p, rs, sp.pages) && (reclaim ==> NoCode(rs, va / 4096, npages))
      requires va % 4096 == 0 && va + npages * 4096 <= MAXVA
      modifies this`own, m`mem, m`head, m`free
      ensures ok ==> Counted() && SpaceOk(m.mem, m.free, own, p, sp') && Backing(own, p, rs, sp'.pages)
      ensures ok ==> AllMapped(sp.pages, va / 4096, npages)
                     && sp' == Space(sp.tables, Without(sp.pages, va / 4096, npages))
                     && m.free == (if reclaim then Freed(sp.pages, va / 4096, npages, old(m.free)) else old(m.free))
                     && own == Release(old(own), m.free)
      ensures ok ==> Trimmed(p, va / 4096, npages, old(m.mem), old(own), m.mem, own)
      ensures ok <==> AllUnmappable(sp, va / 4096, npages, reclaim, m.start, m.end)
    {
      hide Accounted, StaffIs, IsFreeList, Bounds, Holds, Reclaimable, UnmapSpan, AllMapped, AllUnmappable, Spares,
           Trimmed, Backing;
      HasRoot(m.mem, m.free, own, p, sp);
      WholePages(va, npages);
      if reclaim { BackedReclaimable(m.mem, m.free, own, m.start, m.end, p, sp, rs, va / 4096, npages); }
      ghost var n;
      ok, sp', n := m.UserVmUnmap(root, va, npages * 4096, reclaim, sp);
      if !ok {
        StuckAt(sp, va / 4096, npages, n, reclaim, m.start, m.end);
        return;
      }
      TrimOwners(old(m.mem), old(m.free), own, m.start, m.end, p, sp, rs, va / 4096, n, reclaim, m.mem, m.free);
      TrimStaff(p, va / 4096, n, old(m.mem), own, m.mem, Release(own, m.free), staff);
      own := Release(own, m.free);
    }

    /** The loop realloc_process and do_wait run over the region list: stack, trapframe and data
        frames are handed back, code frames are only unmapped, the system page is left alone. */
    method UnmapRegions(ghost p: nat, img: Image, ghost sp: Space) returns (ok: bool, ghost sp': Space)
      requires Counted() && SpaceOk(m.mem, m.free, own, p, sp) && sp.tables[Root] == img.pagetable
      requires Backing(own, p, img.regions, sp.pages) && RegionsOk(img.regions)
      modifies this`own, m`mem, m`head, m`free
      ensures ok ==> Counted() && SpaceOk(m.mem, m.free, own, p, sp') && sp'.tables == sp.tables
      ensures ok ==> Trimmed(p, 0, NVPN, old(m.mem), old(own), m.mem, own)
      ensures ok ==> GainedRegions(old(m.free), m.free, img.regions, sp.pages, |img.regions|)
                     && own == Release(old(own), m.free)
      ensures ok ==> m.free == Pushed(img.regions, sp.pages, |img.regions|, old(m.free))
      ensures ok <==> Removable(sp, img.regions, m.start, m.end)
    {
      hide Accounted, StaffIs, IsFreeList, Bounds, Holds, SpaceOk, Trimmed, Backing, RegionsOk, Without, Freed,
           AllMapped, GainedRegions, Release, Removable, StillMapped, AllUnmappable, Submap, RemovableTo, Pushed;
      ok, sp' := true, sp;
      TrimmedRefl(p, 0, NVPN, m.mem, own);
      GainedNone(m.mem, m.free, own, m.start, m.end, img.regions, sp.pages);
      NoneRemoved(img.regions, sp.pages);
      NothingDone(sp, img.regions, m.start, m.end, m.free);
      var j := 0;
      while j < |img.regions|
        invariant 0 <= j <= |img.regions|
        invariant ok && Counted() && SpaceOk(m.mem, m.free, own, p, sp') && sp'.tables == sp.tables
        invariant Backing(own, p, img.regions, sp'.pages) && Submap(sp'.pages, sp.pages)
        invariant StillMapped(img.regions, j, sp.pages, sp'.pages)
        invariant RemovableTo(sp, img.regions, j, m.start, m.end)
        invariant m.free == Pushed(img.regions, sp.pages, j, old(m.free))
        invariant Trimmed(p, 0, NVPN, old(m.mem), old(own), m.mem, own)
        invariant GainedRegions(old(m.free), m.free, img.regions, sp.pages, j) && own == Release(old(own), m.free)
      {
        var r := img.regions[j];
        RegionFacts(img.regions, j);
        if r.seg.SystemSegment? {
          GainedSystem(old(m.free), m.free, img.regions, sp.pages, j);
          SkippedRegion(img.regions, j, sp.pages, sp'.pages);
          PushedSkip(img.regions, sp.pages, j, old(m.free));
          RemovableStep(sp, sp', img.regions, j, m.start, m.end);
        } else {
          ghost var mem1, free1, own1, sp1 := m.mem, m.free, own, sp';
          var reclaim := match r.seg case StackSegment => true case ContextSegment => true case DataSegment => true
                                     case CodeSegment => false case SystemSegment => false;
          ok, sp' := UnmapRange(p, img.pagetable, r.va, r.npages, reclaim, sp1, img.regions);
          if !ok {
            NotRemovable(sp, sp1, img.regions, j, m.start, m.end);
            return;
          }
          RemovedRegion(img.regions, j, sp.pages, sp1.pages);
          PushedStep(img.regions, sp.pages, sp1.pages, j, old(m.free));
          RemovableStep(sp, sp1, img.regions, j, m.start, m.end);
          TrimmedTrans(p, NVPN, r.va / 4096, r.npages, old(m.mem), old(own), mem1, own1, m.mem, own);
          GainedStep(old(m.free), free1, m.free, img.regions, sp.pages, sp1.pages, j);
          FreedGrows(sp1.pages, r.va / 4096, r.npages, free1, Reclaimed(r.seg), m.free);
          ReleaseTwice(old(own), free1, m.free);
        }
        j := j + 1;
      }
      AllRemovable(sp, img.regions, m.start, m.end);
    }

    /** Map the stack page, the trapframe and the trap vector into the empty directory root of slot p. */
    method MapFixed(ghost p: nat, root: nat, tf: u64, stack: u64, ghost sp: Space)
      returns (ok: bool, ghost sp': Space, rs: seq<Region>)
      requires Counted() && SpaceOk(m.mem, m.free, own, p, sp) && sp.tables[Root] == root && sp.pages == map[]
      requires tf % 4096 == 0 && stack % 4096 == 0 && tf < MAXVA && Layout()
      requires IsUse(own, tf / 4096, PageOf(p, tf / 4096))
      requires IsUse(own, stack / 4096, PageOf(p, USER_STACK_PAGE / 4096))
      requires sp.tables.Keys == {Root}
      modifies this`own, m`mem, m`head, m`free
      ensures ok ==> Counted() && SpaceOk(m.mem, m.free, own, p, sp') && sp'.tables[Root] == root
      ensures ok ==> Backing(own, p, rs, sp'.pages) && RegionsOk(rs) && FixedRegions(rs, tf / 4096) && |rs| == 3
      ensures ok ==> TablesOnly(p, old(m.mem), old(own), m.mem, own) && Keeps(old(own), own)
      ensures ok ==> rs[2].va == trapSec && AllListedMapped(rs, sp'.pages) && HighPages(sp'.pages)
      ensures ok ==> HasFixed(sp'.pages, tf / 4096, trapSec) && Homed(sp'.pages, tf / 4096)
      ensures ok ==> USER_STACK_PAGE / 4096 in sp'.pages && FrameOf(sp'.pages[USER_STACK_PAGE / 4096]) == stack / 4096
      ensures !ok ==> m.free == [] && |old(m.free)| < |FixedTables(tf / 4096, trapSec / 4096)| <= 6
      ensures ok ==> |old(m.free)| <= |m.free| + 6
      ensures ok ==> |sp'.tables.Keys| + |m.free| == 1 + |old(m.free)|
      ensures ok ==> IsSuffix(m.free, old(m.free))
      ensures ok ==> Took(FixedTables(tf / 4096, trapSec / 4096), old(m.free), m.free, sp, sp')
      ensures ok ==> sp'.pages.Keys == {STACK, tf / 4096, trapSec / 4096}
    {
      hide Accounted, StaffIs, IsFreeList, Bounds, SpaceOk, TablesOnly, Backing, MakePte, ProtToType, FrameOf,
           RegionsOk, FixedRegions, AllListedMapped, HighPages, HasFixed, Keeps, IsSuffix, Homed, Took, Missing,
           FixedTables, HeadPlan;
      rs := FixedThree(tf, trapSec);
      ok := false;
      var r;
      FixedFew(tf / 4096, trapSec / 4096);
      ghost var m0, o0 := m.mem, own;
      AboveStack(m.mem, m.free, own, m.start, m.end, tf);
      r, sp' := MapPage(p, root, USER_STACK_PAGE, stack, ProtToType(3, true), sp);
      if r != Done {
        FixedShort(old(m.free), sp.tables.Keys, tf / 4096, trapSec / 4096);
        return;
      }
      ghost var m1, f1, o1 := m.mem, m.free, own;
      ghost var s1 := sp';
      r, sp' := MapPage(p, root, tf, tf, ProtToType(3, false), sp');
      if r != Done {
        FixedShortNext(old(m.free), f1, sp, s1, tf / 4096, trapSec / 4096);
        return;
      }
      ghost var m2, f2, o2 := m.mem, m.free, own;
      SuffixTrans(old(m.free), f1, f2);
      ghost var s2 := sp';
      r, sp' := MapPage(p, root, trapSec, trapSec, ProtToType(5, false), sp');
      if r != Done {
        FixedShortLast(old(m.free), f1, f2, sp, s1, s2, tf / 4096, trapSec / 4096);
        return;
      }
      ok := true;
      SuffixTrans(old(m.free), f2, m.free);
      TablesOnlyTrans(p, m0, o0, m1, o1, m2, o2);
      TablesOnlyTrans(p, m0, o0, m2, o2, m.mem, own);
      FixedTook(old(m.free), f1, f2, m.free, sp, s1, s2, sp', tf / 4096, trapSec / 4096);
      TookLength(FixedTables(tf / 4096, trapSec / 4096), old(m.free), m.free, sp, sp');
      FixedMapped(p, m0, old(m.free), o0, m.start, m.end, m.mem, own, rs, tf, stack, trapSec, sp'.pages);
    }

    /** alloc_page followed by writes to the new frame; a null page makes the kernel fault. */
    method TakeFilled(ghost u: Use, words: seq<u64>) returns (pa: u64)
      requires Counted() && u != FreeUse && !IsStaff(u) && |words| <= 512
      modifies this`own, m`mem, m`head, m`free
      ensures Counted() && Adds(old(m.mem), old(own), m.mem, own)
      ensures pa != 0 ==> pa % 4096 == 0 && pa < MAXVA && pa / 4096 in m.mem
      ensures pa != 0 ==> Held(m.mem, own, pa / 4096, u, m.mem[pa / 4096]) && m.mem[pa / 4096][..|words|] == words
      ensures pa != 0 ==> old(m.free) != [] && pa / 4096 == old(m.free)[0] && m.free == old(m.free)[1..]
      ensures pa == 0 ==> old(m.free) == m.free == []
      ensures IsSuffix(m.free, old(m.free))
    {
      hide Accounted, StaffIs, IsFreeList, Bounds, IsSuffix;
      pa := Take(u);
      if pa == 0 { return; }
      var f := pa / 4096;
      InUse(m.mem, m.free, own, m.start, m.end, f);
      m.WritePage(f, words + m.mem[f][|words|..]);
      AccountedFrame(old(m.mem), m.free, own, m.start, m.end, m.mem);
    }

    /** The same for a kernel stack or a region list. */
    method Hire(ghost u: Use, words: seq<u64>) returns (pa: u64)
      requires Counted() && IsStaff(u) && |words| <= 512
      modifies this`own, this`staff, m`mem, m`head, m`free
      ensures Counted() && Adds(old(m.mem), old(own), m.mem, own)
      ensures pa != 0 ==> pa % 4096 == 0 && pa < MAXVA && pa / 4096 in m.mem
      ensures pa != 0 ==> Held(m.mem, own, pa / 4096, u, m.mem[pa / 4096]) && m.mem[pa / 4096][..|words|] == words
      ensures pa != 0 ==> old(m.free) != [] && pa / 4096 == old(m.free)[0] && m.free == old(m.free)[1..]
      ensures pa == 0 ==> old(m.free) == m.free == []
      ensures IsSuffix(m.free, old(m.free))
      ensures staff == if pa == 0 then old(staff) else old(staff)[pa / 4096 := u]
    {
      hide Accounted, StaffIs, IsFreeList, Bounds, IsSuffix, Adds;
      ghost var o0 := own;
      pa := TakeFilled(KernelUse, words);
      if pa == 0 { return; }
      ghost var f := pa / 4096;
      StaffOne(own, staff, f, u);
      Relabelled(m.mem, m.free, own, m.start, m.end, f, u);
      AddsOther(old(m.mem), old(m.free), o0, m.start, m.end, m.mem, own, f, u);
      own, staff := own[f := u], staff[f := u];
    }

    /** The first two frames of a new image: a cleared trapframe and an empty page directory. */
    method TakeRoot(ghost p: nat) returns (ok: bool, tf: u64, pt: u64)
      requires Counted()
      modifies this`own, m`mem, m`head, m`free
      ensures Counted() && Adds(old(m.mem), old(own), m.mem, own)
      ensures ok ==> IsTrapframe(m.mem, own, p, tf) && IsDirectory(m.mem, own, p, pt)
      ensures !ok ==> m.free == [] && |old(m.free)| < 2
      ensures IsSuffix(m.free, old(m.free))
      ensures ok ==> |old(m.free)| >= 2 && old(m.free)[..2] == [tf / 4096, pt / 4096] && m.free == old(m.free)[2..]
    {
      hide Accounted, StaffIs, IsFreeList, Bounds, Adds, IsSuffix;
      ok, pt := false, 0;
      tf := TakeFilled(TrapframeUse(p, m.free), NewTrapframe());
      if tf == 0 { return; }
      ghost var m1, f1, o1 := m.mem, m.free, own;
      pt := TakeFilled(TableOf(p), ZeroPage());
      AddsTrans(old(m.mem), old(own), m1, o1, m.mem, own);
      SuffixTrans(old(m.free), f1, m.free);
      if pt == 0 { return; }
      assert m.mem[pt / 4096] == m.mem[pt / 4096][..512] == ZeroPage();
      AddsHeld(m1, o1, m.mem, own, tf / 4096, PageOf(p, tf / 4096), m1[tf / 4096]);
      ok := true;
    }

    /** The frames alloc_process takes for slot p: trapframe, page directory, kernel stack, user
        stack and region list. */
    method TakeFrames(ghost p: nat) returns (ok: bool, tf: u64, pt: u64, ks: u64, stack: u64, info: u64)
      requires Counted()
      modifies this`own, this`staff, m`mem, m`head, m`free
      ensures Counted() && Adds(old(m.mem), old(own), m.mem, own)
      ensures ok ==> IsTrapframe(m.mem, own, p, tf) && IsDirectory(m.mem, own, p, pt)
      ensures ok ==> IsUse(own, ks / 4096, KstackOf(p)) && IsUse(own, info / 4096, InfoOf(p))
      ensures ok ==> stack % 4096 == 0 && IsUse(own, stack / 4096, PageOf(p, USER_STACK_PAGE / 4096))
      ensures !ok ==> m.free == [] && |old(m.free)| < 5
      ensures ok ==> staff == Hired(old(staff), p, ks / 4096, info / 4096)
      ensures IsSuffix(m.free, old(m.free))
      ensures ok ==> |old(m.free)| >= 5 && old(m.free)[..2] == [tf / 4096, pt / 4096] && m.free == old(m.free)[5..]
    {
      hide Accounted, StaffIs, IsFreeList, Bounds, Adds, IsTrapframe, IsDirectory, IsSuffix;
      ks, stack, info := 0, 0, 0;
      ok, tf, pt := TakeRoot(p);
      if !ok { return; }
      ok := false;
      ghost var m1, f1, o1 := m.mem, m.free, own;
      ks := Hire(KstackOf(p), []);
      AddsTrans(old(m.mem), old(own), m1, o1, m.mem, own);
      SuffixTrans(old(m.free), f1, m.free);
      if ks == 0 { return; }
      ghost var m2, f2, o2 := m.mem, m.free, own;
      stack := TakeFilled(PageOf(p, USER_STACK_PAGE / 4096), []);
      AddsTrans(old(m.mem), old(own), m2, o2, m.mem, own);
      SuffixTrans(old(m.free), f2, m.free);
      if stack == 0 { return; }
      ghost var m3, f3, o3 := m.mem, m.free, own;
      info := Hire(InfoOf(p), ZeroPage());
      AddsTrans(old(m.mem), old(own), m3, o3, m.mem, own);
      SuffixTrans(old(m.free), f3, m.free);
      if info == 0 { return; }
      AddsTrans(m2, o2, m3, o3, m.mem, own);
      AddsTrans(m1, o1, m2, o2, m.mem, own);
      AddsRoot(m1, o1, m.mem, own, p, tf, pt);
      AddsHeld(m2, o2, m.mem, own, ks / 4096, KstackOf(p), m2[ks / 4096]);
      AddsHeld(m3, o3, m.mem, own, stack / 4096, PageOf(p, USER_STACK_PAGE / 4096), m3[stack / 4096]);
      ok := true;
    }

    /** The frames and the three fixed mappings of alloc_process. */
    method NewImage(ghost p: nat) returns (ok: bool, img: Image, ghost sp: Space)
      requires Counted() && Layout()
      modifies this`own, this`staff, m`mem, m`head, m`free
      ensures ok ==> Counted() && SlotOk(m.mem, m.free, own, p, img, sp) && |img.regions| == 3
      ensures ok ==> TablesOnly(p, old(m.mem), old(own), m.mem, own)
      ensures ok ==> AllListedMapped(img.regions, sp.pages) && StackMapped(own, p, sp.pages) && HighPages(sp.pages)
      ensures ok ==> HasFixed(sp.pages, img.trapframe, trapSec) && NewContext(m.mem, img.trapframe)
      ensures !ok ==> m.free == [] && |old(m.free)| < 11
      ensures ok ==> staff == Hired(old(staff), p, img.kstack, img.info)
      ensures ok ==> |old(m.free)| <= |m.free| + 11 && |old(m.free)| == |m.free| + 4 + |sp.tables.Keys|
      ensures ok ==> IsSuffix(m.free, old(m.free))
      ensures ok ==> |old(m.free)| >= 2 && old(m.free)[..2] == [img.trapframe, img.pagetable]
    {
      hide Accounted, StaffIs, Hired, IsFreeList, Bounds, SpaceOk, TablesOnly, Backing, RegionsOk, FixedRegions,
           AllListedMapped, Adds, Keeps, FrameOf, HighPages, HasFixed, IsSuffix, Homed, Took, FixedTables;
      ok, img, sp := false, Image(0, 0, 0, 0, []), Space(map[], map[]);
      var got, tf, pt, ks, stack, info := TakeFrames(p);
      if !got { return; }
      AddsTablesOnly(p, old(m.mem), old(m.free), old(own), m.start, m.end, m.mem, own);
      SameKeys(p, old(m.mem), old(own), m.mem, own);
      EmptySpace(m.mem, m.free, own, m.start, m.end, p, pt / 4096);
      ghost var m1, f1, o1 := m.mem, m.free, own;
      var mapped, rs;
      mapped, sp, rs := MapFixed(p, pt / 4096, tf, stack, Space(map[Root := pt / 4096], map[]));
      if !mapped { return; }
      TablesOnlyTrans(p, old(m.mem), old(own), m1, o1, m.mem, own);
      KeptUses(own, o1, p, ks / 4096, info / 4096, tf / 4096, stack / 4096);
      TablesOnlyUse(p, m1, o1, m.mem, own, tf / 4096);
      img := Image(ks / 4096, pt / 4096, tf / 4096, info / 4096, rs);
      SuffixTrans(old(m.free), f1, m.free);
      ok := true;
    }

    /** alloc_process for slot p, after the slot was found: frames, the three fixed mappings and the
        open-file page. */
    method AllocImage(ghost p: nat) returns (ok: bool, img: Image, ghost sp: Space)
      requires Counted() && Layout()
      modifies this`own, this`staff, m`mem, m`head, m`free
      ensures ok ==> Counted() && SlotOk(m.mem, m.free, own, p, img, sp) && |img.regions| == 3
      ensures ok ==> TablesOnly(p, old(m.mem), old(own), m.mem, own)
      ensures ok ==> AllListedMapped(img.regions, sp.pages) && StackMapped(own, p, sp.pages) && HighPages(sp.pages)
      ensures ok ==> HasFixed(sp.pages, img.trapframe, trapSec) && NewContext(m.mem, img.trapframe)
      ensures !ok ==> m.free == [] && |old(m.free)| < 12
      ensures ok ==> staff == Hired(old(staff), p, img.kstack, img.info)
      ensures ok ==> |old(m.free)| <= |m.free| + 12 && |old(m.free)| == |m.free| + 5 + |sp.tables.Keys|
      ensures ok ==> IsSuffix(m.free, old(m.free))
      ensures ok ==> |old(m.free)| >= 2 && old(m.free)[..2] == [img.trapframe, img.pagetable]
    {
      hide Accounted, StaffIs, Hired, IsFreeList, Bounds, SlotOk, TablesOnly, AllListedMapped, Adds, Keeps, HighPages,
           HasFixed, IsSuffix, NewContext, StackMapped;
      ok, img, sp := NewImage(p);
      if !ok { return; }
      ghost var m2, f2, o2 := m.mem, m.free, own;
      var files := TakeFilled(KernelUse, []);
      ok := files != 0;
      if !ok { return; }
      AddsTablesOnly(p, m2, f2, o2, m.start, m.end, m.mem, own);
      AddsSlot(p, m2, f2, o2, m.mem, m.free, own, m.start, m.end, img, sp);
      TrapframeKept(p, m2, f2, o2, img, sp, m.mem, own);
      StackStays(p, o2, own, sp.pages);
      TablesOnlyTrans(p, old(m.mem), old(own), m2, o2, m.mem, own);
      SuffixTrans(old(m.free), f2, m.free);
    }

    /** do_wait's teardown of the zombie in slot p: kernel stack, regions, region list, directory. */
    method Reap(p: nat) returns (ok: bool)
      requires Valid() && p < NPROC && slots[p].Occupied?
      modifies this, m`mem, m`head, m`free
      ensures ok ==> Valid() && slots == old(slots)[p := Vacant] && spaces == old(spaces) && heapNext == old(heapNext)
      ensures ok ==> var img := old(slots)[p].img;
                     GivenBack(old(m.free), m.free, {img.kstack, img.info, img.pagetable}, img.regions,
                               old(spaces)[p].pages)
      ensures ok ==> var img := old(slots)[p].img;
                     && Refunded(old(m.free), m.free, {img.kstack, img.info, img.pagetable}, img, old(spaces)[p].pages)
                     && |m.free| == |old(m.free)| + 5 + DataPages(img.regions, |img.regions|)
      ensures ok ==> LeftBehind(p, old(own), old(slots)[p].img, old(spaces)[p], own) && Unstaffed(p, own)
      ensures ok ==> own == Release(old(own), m.free) && Local(p, old(m.mem), old(own), m.mem, own)
      ensures ok <==> Removable(old(spaces)[p], old(slots)[p].img.regions, m.start, m.end)
    {
      hide Accounted, StaffIs, Unstaffed, Dismissed, IsFreeList, Bounds, SlotOk, GivenBack, SlotsBut, Local, Removable,
           Staffed, Refunded, LeftBehind, DataPages;
      ghost var m0, f0, o0 := m.mem, m.free, own;
      SlotFacts(m.mem, m.free, own, p, slots, spaces);
      SlotsAll(p, m.mem, m.free, own, slots, spaces);
      ok := TearDown(p, slots[p].img, spaces[p]);
      if !ok { return; }
      SlotsKept(p, m0, f0, o0, m.mem, m.free, own, m.start, m.end, slots, spaces);
      StaffDismissed(old(staff), old(slots), p);
      slots := slots[p := Vacant];
      VacantUnstaffed(own, staff, slots, p);
      SlotsVacate(p, m.mem, m.free, own, old(slots), spaces);
    }

    method TearDown(ghost p: nat, img: Image, ghost sp: Space) returns (ok: bool)
      requires Counted() && SlotOk(m.mem, m.free, own, p, img, sp)
      modifies this`own, this`staff, m`mem, m`head, m`free
      ensures ok ==> Counted()
      ensures ok ==> GivenBack(old(m.free), m.free, {img.kstack, img.info, img.pagetable}, img.regions, sp.pages)
      ensures ok ==> Refunded(old(m.free), m.free, {img.kstack, img.info, img.pagetable}, img, sp.pages)
      ensures ok ==> |m.free| == |old(m.free)| + 5 + DataPages(img.regions, |img.regions|)
      ensures ok ==> LeftBehind(p, old(own), img, sp, own)
      ensures ok ==> staff == Dismissed(old(staff), img.kstack, img.info)
      ensures ok ==> own == Release(old(own), m.free) && Local(p, old(m.mem), old(own), m.mem, own)
      ensures ok <==> Removable(sp, img.regions, m.start, m.end)
    {
      hide Accounted, StaffIs, IsFreeList, Bounds, SpaceOk, Trimmed, Backing, RegionsOk, GainedRegions, GivenBack,
           Release, Local, FixedRegions, Removable, Refunded, LeftBehind, DataPages, Pushed;
      ghost var m0, f0, o0 := m.mem, m.free, own;
      RootUse(m.mem, m.free, own, p, sp);
      Dismiss(p, img.kstack);
      GiveSpace(p, m0, f0, o0, m.start, m.end, img.kstack, img, sp, m.mem, m.free, own);
      ghost var m1, f1, o1 := m.mem, m.free, own;
      ghost var sp';
      ok, sp' := UnmapRegions(p, img, sp);
      if !ok { return; }
      TrimmedLocal(p, 0, NVPN, m1, o1, m.mem, own);
      TrimmedUse(p, m1, o1, m.mem, own, img.info, InfoOf(p));
      TrimmedUse(p, m1, o1, m.mem, own, img.pagetable, TableOf(p));
      LocalTrans(p, m0, o0, m1, o1, m.mem, own);
      ghost var m2, f2, o2 := m.mem, m.free, own;
      Dismiss(p, img.info);
      LocalTrans(p, m0, o0, m2, o2, m.mem, own);
      ghost var m3, f3, o3 := m.mem, m.free, own;
      Give(p, img.pagetable);
      LocalTrans(p, m0, o0, m3, o3, m.mem, own);
      ReapedFree(f0, f1, f2, m.free, img, sp.pages);
      ReleaseChain(o0, f1, f2, f3, m.free);
      PushedTwo(img, sp, m.start, m.end, f1);
      RefundedBy(f0, m.free, {img.kstack, img.info, img.pagetable}, img, sp, m.start, m.end);
      WhatIsLeft(p, m0, f0, o0, m.start, m.end, img, sp, m.free, own);
    }

    /** elf_load on the image of slot p: one page per segment, filled, mapped and listed in order. */
    method LoadSegments(ghost p: nat, img: Image, ghost sp: Space, segs: seq<ElfSegment>)
      returns (ok: bool, img': Image, ghost sp': Space)
      requires Counted() && SlotOk(m.mem, m.free, own, p, img, sp) && AllListedMapped(img.regions, sp.pages)
      requires HighPages(sp.pages)
      requires Plain(segs)
      modifies this`own, m`mem, m`head, m`free
      ensures ok ==> Counted() && SlotOk(m.mem, m.free, own, p, img', sp')
      ensures ok ==> TablesOnly(p, old(m.mem), old(own), m.mem, own)
      ensures ok ==> img' == img.(regions := img.regions + Listed(segs)) && AllLoaded(m.mem, sp'.pages, segs)
      ensures ok ==> Submap(sp.pages, sp'.pages)
      ensures ok ==> |sp'.tables.Keys| + |m.free| + |segs| == |sp.tables.Keys| + |old(m.free)|
      ensures !ok ==> !ProgramOk(segs) || (m.free == [] && SegsShort(old(m.free), sp, segs))
      ensures ok ==> IsSuffix(m.free, old(m.free))
      ensures ok ==> SegsLoaded(segs, |segs|, old(m.free), m.free, sp, sp') && AllListedMapped(img'.regions, sp'.pages)
      ensures ok && Handable(old(own), img.regions, sp.pages) ==> Handable(own, img'.regions, sp'.pages)
    {
      hide Accounted, StaffIs, IsFreeList, Bounds, SlotOk, TablesOnly, AllListedMapped, HighPages, AllLoaded,
           HighOrLoaded, ProgramOk, Loaded, Submap, AddsPage, IsSuffix, LoadedAt, SegsLoaded, Handable, FrameOf,
           SegShort, SegsShort;
      ok, img', sp' := false, img, sp;
      TablesOnlyRefl(p, m.mem, own);
      SuffixRefl(m.free);
      NoSegs(segs, m.free, sp);
      NoneLoaded(m.mem, sp.pages, segs);
      NoneRemoved(img.regions, sp.pages);
      var k := 0;
      while k < |segs|
        invariant 0 <= k <= |segs|
        invariant Counted() && SlotOk(m.mem, m.free, own, p, img', sp') && AllListedMapped(img'.regions, sp'.pages)
        invariant TablesOnly(p, old(m.mem), old(own), m.mem, own) && SegsLoaded(segs, k, old(m.free), m.free, sp, sp')
        invariant img' == img.(regions := img.regions + Listed(segs[..k])) && IsSuffix(m.free, old(m.free))
        invariant AllLoaded(m.mem, sp'.pages, segs[..k]) && HighOrLoaded(sp'.pages, segs, k)
        invariant Submap(sp.pages, sp'.pages) && |sp'.tables.Keys| + |m.free| + k == |sp.tables.Keys| + |old(m.free)|
        invariant Handable(old(own), img.regions, sp.pages) ==> Handable(own, img'.regions, sp'.pages)
      {
        ghost var m1, f1, o1, img1, sp1 := m.mem, m.free, own, img', sp';
        var done;
        done, img', sp' := LoadSegment(p, img', sp', segs[k]);
        if !done {
          if SegShort(f1, sp1, segs[k].va / 4096) { TooFewFor(segs, k, old(m.free), f1, sp, sp1); }
          DoesNotFit(sp1.pages, segs, k);
          return;
        }
        TablesOnlyTrans(p, old(m.mem), old(own), m1, o1, m.mem, own);
        ListedStep(segs, k);
        SuffixTrans(old(m.free), f1, m.free);
        OneMoreSeg(segs, k, old(m.free), f1, m.free, sp, sp1, sp');
        LoadedStep(p, m1, f1, o1, m.mem, own, img1, sp1, sp'.pages, segs, k);
        MoreHandable(o1, own, img1.regions, sp1.pages, sp'.pages, segs[k].Region());
        SubmapStep(sp.pages, sp1.pages, sp'.pages, segs[k].va / 4096);
        k := k + 1;
      }
      assert segs[..k] == segs;
      ok := true;
    }

    method LoadSegment(ghost p: nat, img: Image, ghost sp: Space, seg: ElfSegment)
      returns (ok: bool, img': Image, ghost sp': Space)
      requires Counted() && SlotOk(m.mem, m.free, own, p, img, sp) && AllListedMapped(img.regions, sp.pages)
      requires seg.va % 4096 == 0
      modifies this`own, m`mem, m`head, m`free
      ensures ok ==> Counted() && SlotOk(m.mem, m.free, own, p, img', sp') && AllListedMapped(img'.regions, sp'.pages)
      ensures ok ==> TablesOnly(p, old(m.mem), old(own), m.mem, own)
      ensures ok ==> img' == img.(regions := img.regions + [seg.Region()])
      ensures ok ==> seg.va / 4096 !in sp.pages && AddsPage(sp.pages, sp'.pages, seg.va / 4096)
      ensures ok ==> Loaded(m.mem, sp'.pages, seg)
      ensures ok ==> |sp'.tables.Keys| + |m.free| + 1 == |sp.tables.Keys| + |old(m.free)|
      ensures !ok ==> || seg.va >= MAXVA || seg.va / 4096 in sp.pages
                      || (m.free == [] && SegShort(old(m.free), sp, seg.va / 4096))
      ensures ok ==> IsSuffix(m.free, old(m.free))
      ensures ok ==> LoadedAt(seg.va / 4096, old(m.free), m.free, sp, sp')
      ensures ok ==> own.Keys == old(own).Keys && FrameOf(sp'.pages[seg.va / 4096]) in own
    {
      hide Accounted, StaffIs, IsFreeList, Bounds, SpaceOk, TablesOnly, Backing, RegionsOk, FixedRegions,
           AllListedMapped, Adds, Keeps, MakePte, ProtToType, Loaded, FrameOf, IsSuffix, Took, Missing, LoadedAt;
      ok, img', sp' := false, img, sp;
      ghost var u := if seg.code then CodeUse else PageOf(p, seg.va / 4096);
      ghost var m0, f0, o0 := m.mem, m.free, own;
      var pa := TakeFilled(u, seg.page);
      if pa == 0 { return; }
      HeldFacts(m.mem, own, pa / 4096, u, m.mem[pa / 4096]);
      assert m.mem[pa / 4096] == m.mem[pa / 4096][..512] == seg.page;
      AddsTablesOnly(p, m0, f0, o0, m.start, m.end, m.mem, own);
      AddsSlot(p, m0, f0, o0, m.mem, m.free, own, m.start, m.end, img, sp);
      ghost var m1, f1, o1 := m.mem, m.free, own;
      var r;
      r, sp' := MapPage(p, img.pagetable, seg.va, pa, ProtToType(7, true), sp);
      if r != Done { return; }
      TablesOnlyTrans(p, m0, o0, m1, o1, m.mem, own);
      TablesOnlyKeeps(p, m1, f1, o1, m.start, m.end, m.mem, own);
      OwnedExist(m1, f1, o1, m.start, m.end);
      SegmentAdded(p, m1, o1, m.mem, own, img, sp, seg, pa);
      LoadedBy(seg.va / 4096, pa, ProtToType(7, true), f0, m.free, sp, sp');
      SegmentLoaded(p, m1, o1, m.mem, own, sp.pages, seg, u, pa);
      LoadedHome(seg.va / 4096, f0, m.free, sp, sp');
      SameKeys(p, m0, o0, m.mem, own);
      FirstOwned(m0, f0, o0, m.start, m.end);
      img' := img.(regions := img.regions + [seg.Region()]);
      SuffixTrans(f0, f1, m.free);
      ok := true;
    }

    /** The frames realloc_process takes: trapframe, page directory and user stack. */
    method TakeExecFrames(ghost p: nat) returns (ok: bool, tf: u64, pt: u64, stack: u64)
      requires Counted()
      modifies this`own, m`mem, m`head, m`free
      ensures Counted() && Adds(old(m.mem), old(own), m.mem, own)
      ensures ok ==> IsTrapframe(m.mem, own, p, tf) && IsDirectory(m.mem, own, p, pt)
      ensures ok ==> stack % 4096 == 0 && IsUse(own, stack / 4096, PageOf(p, USER_STACK_PAGE / 4096))
      ensures !ok ==> m.free == [] && |old(m.free)| < 3
      ensures IsSuffix(m.free, old(m.free))
      ensures ok ==> |old(m.free)| >= 3 && old(m.free)[..3] == [tf / 4096, pt / 4096, stack / 4096]
      ensures ok ==> m.free == old(m.free)[3..]
    {
      hide Accounted, StaffIs, IsFreeList, Bounds, Adds, IsTrapframe, IsDirectory, IsSuffix;
      stack := 0;
      ok, tf, pt := TakeRoot(p);
      if !ok { return; }
      ghost var m1, f1, o1 := m.mem, m.free, own;
      stack := TakeFilled(PageOf(p, USER_STACK_PAGE / 4096), []);
      AddsTrans(old(m.mem), old(own), m1, o1, m.mem, own);
      SuffixTrans(old(m.free), f1, m.free);
      AddsRoot(m1, o1, m.mem, own, p, tf, pt);
      ok := stack != 0;
    }

    /** realloc_process, first half: hand back the old image except kernel stack and region list. */
    method DropImage(ghost p: nat, img: Image, ghost sp: Space) returns (ok: bool)
      requires Counted() && SlotOk(m.mem, m.free, own, p, img, sp)
      modifies this`own, m`mem, m`head, m`free
      ensures ok ==> Counted() && Local(p, old(m.mem), old(own), m.mem, own)
      ensures ok ==> IsUse(own, img.kstack, KstackOf(p)) && IsUse(own, img.info, InfoOf(p))
      ensures ok ==> GivenBack(old(m.free), m.free, {img.pagetable}, img.regions, sp.pages)
      ensures ok ==> Refunded(old(m.free), m.free, {img.pagetable}, img, sp.pages)
      ensures ok ==> |m.free| == |old(m.free)| + 3 + DataPages(img.regions, |img.regions|)
      ensures ok ==> m.free == Dropped(old(m.free), img.pagetable, img.regions, sp.pages)
      ensures ok <==> Removable(sp, img.regions, m.start, m.end)
    {
      hide Accounted, StaffIs, IsFreeList, Bounds, SpaceOk, Trimmed, Backing, RegionsOk, GainedRegions, GivenBack,
           Release, Local, FixedRegions, Removable, Refunded, DataPages, Pushed;
      RootUse(m.mem, m.free, own, p, sp);
      ghost var sp';
      ok, sp' := UnmapRegions(p, img, sp);
      if !ok { return; }
      TrimmedLocal(p, 0, NVPN, old(m.mem), old(own), m.mem, own);
      TrimmedUse(p, old(m.mem), old(own), m.mem, own, img.kstack, KstackOf(p));
      TrimmedUse(p, old(m.mem), old(own), m.mem, own, img.info, InfoOf(p));
      TrimmedUse(p, old(m.mem), old(own), m.mem, own, img.pagetable, TableOf(p));
      ghost var m1, f1, o1 := m.mem, m.free, own;
      Give(p, img.pagetable);
      LocalTrans(p, old(m.mem), old(own), m1, o1, m.mem, own);
      DroppedFree(old(m.free), f1, m.free, img, sp.pages);
      PushedTwo(img, sp, m.start, m.end, old(m.free));
      RefundedBy(old(m.free), m.free, {img.pagetable}, img, sp, m.start, m.end);
    }

    /** realloc_process, second half: a new image on the old kernel stack and region page. */
    method BuildImage(ghost p: nat, kstack: nat, info: nat) returns (ok: bool, img: Image, ghost sp: Space)
      requires Counted() && Layout() && IsUse(own, kstack, KstackOf(p)) && IsUse(own, info, InfoOf(p))
      modifies this`own, m`mem, m`head, m`free
      ensures ok ==> Counted() && SlotOk(m.mem, m.free, own, p, img, sp) && |img.regions| == 3
      ensures ok ==> img.kstack == kstack && img.info == info && Local(p, old(m.mem), old(own), m.mem, own)
      ensures ok ==> AllListedMapped(img.regions, sp.pages) && StackMapped(own, p, sp.pages) && HighPages(sp.pages)
      ensures ok ==> HasFixed(sp.pages, img.trapframe, trapSec)
      ensures ok ==> NewContext(m.mem, img.trapframe)
      ensures ok ==> IsSuffix(m.free, old(m.free)) && Rebuilt(old(m.free), m.free, img, sp, trapSec / 4096)
      ensures !ok ==> m.free == []
      ensures ok ==> |old(m.free)| == |m.free| + 2 + |sp.tables.Keys|
      ensures !ok && old(m.free) != [] ==> |old(m.free)| < |HeadPlan(old(m.free)[0], trapSec / 4096)|
    {
      hide Accounted, StaffIs, IsFreeList, Bounds, SpaceOk, TablesOnly, Backing, RegionsOk, FixedRegions,
           AllListedMapped, Adds, Keeps, FrameOf, Local, HighPages, HasFixed, IsSuffix, Homed, Took, FixedTables,
           Rebuilt, HeadPlan;
      ok, img, sp := false, Image(0, 0, 0, 0, []), Space(map[], map[]);
      ghost var f0 := m.free;
      FixedFew(FirstFree(f0), trapSec / 4096);
      var got, tf, pt, stack := TakeExecFrames(p);
      if !got { return; }
      AddsTablesOnly(p, old(m.mem), old(m.free), old(own), m.start, m.end, m.mem, own);
      TablesOnlyLocal(p, old(m.mem), old(own), m.mem, own);
      ghost var m2, f2, o2 := m.mem, m.free, own;
      KeptUses2(own, old(own), p, kstack, info);
      InUse(m.mem, m.free, own, m.start, m.end, info);
      m.WritePage(info, ZeroPage());
      AccountedFrame(m2, m.free, own, m.start, m.end, m.mem);
      WriteLocal(p, m2, own, info, ZeroPage());
      LocalTrans(p, old(m.mem), old(own), m2, own, m.mem, own);
      LocalKeys(p, old(m.mem), old(own), m.mem, own);
      EmptySpace(m.mem, m.free, own, m.start, m.end, p, pt / 4096);
      ghost var m3, o3, sp0 := m.mem, own, Space(map[Root := pt / 4096], map[]);
      var mapped, rs;
      mapped, sp, rs := MapFixed(p, pt / 4096, tf, stack, sp0);
      if !mapped { return; }
      TablesOnlyLocal(p, m3, o3, m.mem, own);
      LocalTrans(p, old(m.mem), old(own), m3, o3, m.mem, own);
      KeptUses(own, o3, p, kstack, info, tf / 4096, stack / 4096);
      TablesOnlyUse(p, m3, o3, m.mem, own, tf / 4096);
      img := Image(kstack, pt / 4096, tf / 4096, info, rs);
      SuffixTrans(f0, f2, m.free);
      ListDistinct(old(m.mem), old(m.head), f0);
      FirstThree(f0, tf / 4096, pt / 4096, stack / 4096);
      RebuiltBy(f0, m.free, img, sp0, sp, trapSec / 4096);
      ok := true;
    }

    /** realloc_process for slot p. */
    method ReallocImage(ghost p: nat, img: Image, ghost sp: Space) returns (ok: bool, img': Image, ghost sp': Space)
      requires Counted() && SlotOk(m.mem, m.free, own, p, img, sp) && Layout()
      modifies this`own, m`mem, m`head, m`free
      ensures ok ==> Counted() && SlotOk(m.mem, m.free, own, p, img', sp') && |img'.regions| == 3
      ensures ok ==> img'.kstack == img.kstack && img'.info == img.info
      ensures ok ==> Local(p, old(m.mem), old(own), m.mem, own)
      ensures ok ==> AllListedMapped(img'.regions, sp'.pages) && StackMapped(own, p, sp'.pages) && HighPages(sp'.pages)
      ensures ok ==> HasFixed(sp'.pages, img'.trapframe, trapSec)
      ensures ok ==> NewContext(m.mem, img'.trapframe)
      ensures ok ==> Exchanged(old(m.free), m.free, img.pagetable, img.regions, sp.pages)
      ensures ok ==>
                Rebuilt(Dropped(old(m.free), img.pagetable, img.regions, sp.pages), m.free, img', sp', trapSec / 4096)
      ensures ok ==> Removable(sp, img.regions, m.start, m.end)
      ensures ok ==> |old(m.free)| + 1 + DataPages(img.regions, |img.regions|) == |m.free| + |sp'.tables.Keys|
      ensures ok ==> var f1 := Dropped(old(m.free), img.pagetable, img.regions, sp.pages);
                     && Refunded(old(m.free), f1, {img.pagetable}, img, sp.pages)
                     && |f1| == |old(m.free)| + 3 + DataPages(img.regions, |img.regions|)
      ensures !ok ==> m.free == [] || !Removable(sp, img.regions, m.start, m.end)
      ensures !ok && Removable(sp, img.regions, m.start, m.end) ==>
                |Dropped(old(m.free), img.pagetable, img.regions, sp.pages)| <
                |HeadPlan(img.pagetable, trapSec / 4096)|
    {
      hide Accounted, StaffIs, IsFreeList, Bounds, SlotOk, AllListedMapped, StackMapped, FrameOf, Local, GivenBack,
           HighPages, HasFixed, Removable, IsSuffix, Exchanged, Rebuilt, HeadPlan, Pushed, Refunded, DataPages,
           NewContext;
      ok, img', sp' := false, img, sp;
      var dropped := DropImage(p, img, sp);
      if !dropped { return; }
      ghost var m1, f1, o1 := m.mem, m.free, own;
      LocalKeys(p, old(m.mem), old(own), m.mem, own);
      ok, img', sp' := BuildImage(p, img.kstack, img.info);
      if !ok { return; }
      LocalTrans(p, old(m.mem), old(own), m1, o1, m.mem, own);
      ExchangedBy(old(m.free), f1, m.free, img.pagetable, img.regions, sp.pages);
    }

    /** load_user_program: a new process in the vacant slot p. */
    method Spawn(p: nat, segs: seq<ElfSegment>) returns (ok: bool)
      requires Valid() && p < NPROC && slots[p].Vacant? && Plain(segs)
      modifies this, m`mem, m`head, m`free
      ensures ok ==> Valid() && slots[p].Occupied? && slots == old(slots)[p := slots[p]] && heapNext == old(heapNext)
      ensures ok ==> spaces == old(spaces)[p := spaces[p]] && |slots[p].img.regions| >= 3
      ensures ok ==> slots[p].img.regions[3..] == Listed(segs)
      ensures ok ==> AllLoaded(m.mem, spaces[p].pages, segs) && TablesOnly(p, old(m.mem), old(own), m.mem, own)
      ensures ok ==> HasFixed(spaces[p].pages, slots[p].img.trapframe, trapSec)
      ensures !ok ==> !ProgramOk(segs) || (m.free == [] && |old(m.free)| < 12 + 3 * |segs|)
      ensures ok ==> |old(m.free)| == |m.free| + 5 + |segs| + |spaces[p].tables.Keys|
      ensures ok ==> IsSuffix(m.free, old(m.free)) && |old(m.free)| <= |m.free| + 12 + 3 * |segs|
      ensures ok ==> |old(m.free)| >= 2 && old(m.free)[..2] == [slots[p].img.trapframe, slots[p].img.pagetable]
      ensures ok ==> Removable(spaces[p], slots[p].img.regions, m.start, m.end)
      ensures ok ==> NewContext(m.mem, slots[p].img.trapframe)
    {
      hide Accounted, StaffIs, Hired, SegsShort, IsFreeList, Bounds, SlotOk, TablesOnly, AllListedMapped, SlotsBut,
           Local, HighPages, AllLoaded, ProgramOk, HasFixed, Submap, IsSuffix, SegsLoaded, Handable, Removable,
           StackMapped, NewContext, Staffed;
      ok := false;
      SlotsAll(p, m.mem, m.free, own, slots, spaces);
      var got, img;
      ghost var sp;
      got, img, sp := AllocImage(p);
      if !got { return; }
      FixedHandable(p, m.mem, m.free, own, img, sp);
      ghost var m1, f1, o1, sp1 := m.mem, m.free, own, sp;
      ghost var img1 := img;
      got, img, sp := LoadSegments(p, img, sp, segs);
      if !got {
        if SegsShort(f1, sp1, segs) { ShortBound(f1, sp1, segs); }
        return;
      }
      SegsTaken(segs, f1, m.free, sp1, sp);
      SuffixTrans(old(m.free), f1, m.free);
      FixedKept(sp1.pages, sp.pages, img.trapframe, trapSec);
      TrapframeKept(p, m1, f1, o1, img1, sp1, m.mem, own);
      TablesOnlyTrans(p, old(m.mem), old(own), m1, o1, m.mem, own);
      TablesOnlyLocal(p, old(m.mem), old(own), m.mem, own);
      HandableRemovable(p, m.mem, m.free, own, m.start, m.end, img, sp);
      StaffHired(old(staff), slots, p, img);
      SetSlot(p, img, sp, old(m.mem), old(m.free), old(own));
      ok := true;
    }

    /** The arguments, on the new stack and in the new trapframe; both are private frames of p. */
    method LoadArguments(ghost p: nat, img: Image, ghost sp: Space, args: seq<seq<byte>>)
      requires Counted() && SlotOk(m.mem, m.free, own, p, img, sp) && StackMapped(own, p, sp.pages) && Fit(args)
      requires NewContext(m.mem, img.trapframe)
      modifies m`mem, m`head, m`free
      ensures Counted() && m.free == old(m.free) && SlotOk(m.mem, m.free, own, p, img, sp)
      ensures Local(p, old(m.mem), own, m.mem, own) && CalledWith(m.mem, sp.pages, img.trapframe, args)
    {
      hide Accounted, StaffIs, IsFreeList, Bounds, SpaceOk, Backing, RegionsOk, FixedRegions, Homed, FrameOf, Lookup,
           HasArguments, Fit, Local;
      SlotRoot(p, m.mem, m.free, own, img, sp);
      HasRoot(m.mem, m.free, own, p, sp);
      var pa := m.LookupPa(img.pagetable, USER_STACK_PAGE, sp);
      ReadableLookup(p, own, img.regions, sp, USER_STACK_PAGE);
      StackApart(p, own, img, sp.pages);
      InUse(m.mem, m.free, own, m.start, m.end, pa / 4096);
      InUse(m.mem, m.free, own, m.start, m.end, img.trapframe);
      ghost var m0 := m.mem;
      assert Blank(m.mem[img.trapframe]) by {
        assert forall j :: 0 <= j < 35 ==> m.mem[img.trapframe][j] == m.mem[img.trapframe][..35][j];
      }
      PushArguments(m, pa / 4096, img.trapframe, args);
      AccountedFrame(m0, m.free, own, m.start, m.end, m.mem);
      PrivateWrites(p, m0, m.free, own, m.start, m.end, m.mem, img, sp, pa / 4096, img.trapframe);
    }

    /** realloc_process, the arguments and the loading of the new program into slot p. */
    method Exec(p: nat, args: seq<seq<byte>>, segs: seq<ElfSegment>) returns (ok: bool)
      requires Valid() && p < NPROC && slots[p].Occupied? && Fit(args) && Plain(segs)
      modifies this, m`mem, m`head, m`free
      ensures ok ==> Valid() && slots[p].Occupied? && slots == old(slots)[p := slots[p]] && heapNext == old(heapNext)
      ensures ok ==> slots[p].img.kstack == old(slots)[p].img.kstack && slots[p].img.info == old(slots)[p].img.info
      ensures ok ==> spaces == old(spaces)[p := spaces[p]] && |slots[p].img.regions| >= 3
      ensures ok ==> slots[p].img.regions[3..] == Listed(segs)
      ensures ok ==> AllLoaded(m.mem, spaces[p].pages, segs) && Local(p, old(m.mem), old(own), m.mem, own)
      ensures ok ==> CalledWith(m.mem, spaces[p].pages, slots[p].img.trapframe, args)
      ensures ok ==> var img := old(slots)[p].img;
                     Exchanged(old(m.free), m.free, img.pagetable, img.regions, old(spaces)[p].pages)
      ensures ok ==> HasFixed(spaces[p].pages, slots[p].img.trapframe, trapSec)
      ensures ok ==> ExecTaken(old(m.free), old(slots)[p].img.regions, segs, m.free, spaces[p])
      ensures !ok ==>
                || !ProgramOk(segs) || !Removable(old(spaces)[p], old(slots)[p].img.regions, m.start, m.end)
                || (m.free == [] && TooFew(old(m.free), old(slots)[p].img, old(spaces)[p].pages, trapSec / 4096, segs))
      ensures ok ==> var img := old(slots)[p].img;
                     Placed(Dropped(old(m.free), img.pagetable, img.regions, old(spaces)[p].pages),
                            m.free, slots[p].img, spaces[p], trapSec / 4096, segs)
      ensures ok ==> Removable(old(spaces)[p], old(slots)[p].img.regions, m.start, m.end)
      ensures ok ==> Removable(spaces[p], slots[p].img.regions, m.start, m.end)
    {
      hide Accounted, StaffIs, IsFreeList, Bounds, SlotOk, TablesOnly, AllListedMapped, SlotsBut, Local, HighPages,
           AllLoaded, ProgramOk, Removable, HasFixed, Submap, IsSuffix, Exchanged, SegsLoaded, Rebuilt, Placed,
           Dropped, StackMapped, Handable, CalledWith, Fit, DataPages, Refunded, NewContext, Staffed;
      ok := false;
      SlotFacts(m.mem, m.free, own, p, slots, spaces);
      SlotsAll(p, m.mem, m.free, own, slots, spaces);
      var got, img;
      ghost var sp;
      got, img, sp := ReallocImage(p, slots[p].img, spaces[p]);
      if !got { return; }
      ghost var dropped := Dropped(old(m.free), slots[p].img.pagetable, slots[p].img.regions, spaces[p].pages);
      DroppedFirst(old(m.free), slots[p].img.pagetable, slots[p].img.regions, spaces[p].pages);
      ghost var m0, o0 := m.mem, own;
      LoadArguments(p, img, sp, args);
      LocalTrans(p, old(m.mem), old(own), m0, o0, m.mem, own);
      FixedHandable(p, m.mem, m.free, own, img, sp);
      ghost var m1, f1, o1, img1, sp1 := m.mem, m.free, own, img, sp;
      got, img, sp := LoadSegments(p, img, sp, segs);
      if !got {
        if ProgramOk(segs) { TooFewForPlan(dropped, f1, img1, sp1, trapSec / 4096, segs); }
        return;
      }
      PlacedBy(dropped, f1, m.free, img1, img, sp1, sp, trapSec / 4096, segs);
      ExchangedMore(old(m.free), f1, m.free, slots[p].img.pagetable, slots[p].img.regions, spaces[p].pages);
      FixedKept(sp1.pages, sp.pages, img.trapframe, trapSec);
      StillCalled(p, m1, f1, o1, img1, sp1, m.mem, own, sp.pages, args);
      TablesOnlyLocal(p, m1, o1, m.mem, own);
      LocalTrans(p, old(m.mem), old(own), m1, o1, m.mem, own);
      HandableRemovable(p, m.mem, m.free, own, m.start, m.end, img, sp);
      StaffKept(staff, slots, p, img);
      SetSlot(p, img, sp, old(m.mem), old(m.free), old(own));
      ok := true;
    }

    /** The whole exec trap: handle_syscall stores the result through the trapframe pointer it was given, the
        old one. Free list, uses and all other slots survive that, and so do the arguments; the new image does
        exactly if the store does not cut it, and the program is intact exactly if the store does not spoil it. */
    method ExecTrap(p: nat, args: seq<seq<byte>>, segs: seq<ElfSegment>) returns (ok: bool, ghost built: Mem)
      requires Valid() && p < NPROC && slots[p].Occupied? && Fit(args) && Plain(segs)
      modifies this, m`mem, m`head, m`free
      ensures ok ==> ValidBut(p) && slots[p].Occupied? && slots == old(slots)[p := slots[p]]
      ensures ok ==> heapNext == old(heapNext)
      ensures ok ==> slots[p].img.kstack == old(slots)[p].img.kstack && slots[p].img.info == old(slots)[p].img.info
      ensures ok ==> spaces == old(spaces)[p := spaces[p]] && |slots[p].img.regions| >= 3
      ensures ok ==> slots[p].img.regions[3..] == Listed(segs)
      ensures ok ==> HasFixed(spaces[p].pages, slots[p].img.trapframe, trapSec)
      ensures ok ==> AllLoaded(built, spaces[p].pages, segs) && m.mem == Cleared(built, old(slots)[p].img.trapframe)
      ensures ok ==> CalledWith(m.mem, spaces[p].pages, slots[p].img.trapframe, args)
      ensures ok ==> Local(p, old(m.mem), old(own), m.mem, own) && Local(p, old(m.mem), old(own), built, own)
      ensures ok ==> var img := old(slots)[p].img;
                     Exchanged(old(m.free), m.free, img.pagetable, img.regions, old(spaces)[p].pages)
      ensures ok ==> var img := old(slots)[p].img;
                     Valid() <==> !Cuts(img.pagetable, trapSec / 4096, segs, ResultAt(img.regions))
      ensures ok ==> var img := old(slots)[p].img;
                     AllLoaded(m.mem, spaces[p].pages, segs) <==>
                       !Spoils(img.pagetable, trapSec / 4096, segs, ResultAt(img.regions))
      ensures ok ==> ExecTaken(old(m.free), old(slots)[p].img.regions, segs, m.free, spaces[p])
      ensures !ok ==>
                || !ProgramOk(segs) || !Removable(old(spaces)[p], old(slots)[p].img.regions, m.start, m.end)
                || (m.free == [] && TooFew(old(m.free), old(slots)[p].img, old(spaces)[p].pages, trapSec / 4096, segs))
      ensures ok ==> Removable(spaces[p], slots[p].img.regions, m.start, m.end)
    {
      hide Accounted, StaffIs, IsFreeList, Bounds, SlotOk, AllListedMapped, SlotsBut, Local, AllLoaded, ProgramOk,
           Removable, HasFixed, Exchanged, Placed, Dropped, Cuts, Spoils, ResultAt, CalledWith, Fit, DataPages,
           Staffed;
      SlotFacts(m.mem, m.free, own, p, slots, spaces);
      SlotsAll(p, m.mem, m.free, own, slots, spaces);
      var tf := slots[p].img.trapframe;
      ok := Exec(p, args, segs);
      built := m.mem;
      if !ok { return; }
      LocalKeys(p, old(m.mem), old(own), m.mem, own);
      SlotFacts(m.mem, m.free, own, p, slots, spaces);
      AfterExec(p, old(m.mem), old(m.free), old(own), old(slots)[p].img, old(spaces)[p], m.start, m.end,
                m.mem, m.free, own, slots[p].img, spaces[p], trapSec / 4096, segs);
      NewTrapframeElsewhere(p, old(m.mem), old(m.free), old(own), old(slots)[p].img, old(spaces)[p], m.start, m.end,
                            m.free, slots[p].img, spaces[p], trapSec / 4096, segs);
      OwnedExist(m.mem, m.free, own, m.start, m.end);
      m.ClearWord(tf, 9);
      CalledAfter(built, spaces[p].pages, slots[p].img.trapframe, args, tf);
      AccountedFrame(built, m.free, own, m.start, m.end, m.mem);
      ClearedLocal(p, old(m.mem), old(own), built, own, tf);
      SlotsKept(p, old(m.mem), old(m.free), old(own), m.mem, m.free, own, m.start, m.end, old(slots), old(spaces));
      SlotsReplaced(p, m.mem, m.free, own, old(slots), old(spaces), slots, spaces);
    }

    /** Install an image in slot p after steps that were local to it. */
    method SetSlot(p: nat, img: Image, ghost sp: Space, ghost m0: Mem, ghost f0: seq<nat>, ghost o0: Owners)
      requires |slots| == |spaces| == NPROC && p < NPROC && heapNext % 4096 == 0
      requires trapSec % 4096 == 0 && trapSec / 4096 !in o0 && USER_STACK_PAGE < trapSec < MAXVA
      requires USER_STACK_PAGE < m.start
      requires Counted() && Accounted(m0, f0, o0, m.start, m.end) && Local(p, m0, o0, m.mem, own)
      requires Staffed(staff, slots[p := Occupied(img)])
      requires SlotsBut(p, m0, f0, o0, slots, spaces) && SlotOk(m.mem, m.free, own, p, img, sp)
      modifies this`slots, this`spaces
      ensures Valid() && slots == old(slots)[p := Occupied(img)] && spaces == old(spaces)[p := sp]
    {
      hide Accounted, StaffIs, IsFreeList, Bounds, SlotOk, Local;
      SlotsKept(p, m0, f0, o0, m.mem, m.free, own, m.start, m.end, slots, spaces);
      LocalKeys(p, m0, o0, m.mem, own);
      slots, spaces := slots[p := Occupied(img)], spaces[p := sp];
    }

    /** A new readable and writable user page at va for slot p. Neither caller checks the allocator's
        result: with no frame left the page is mapped to physical address 0 if no table is missing. */
    method MapFresh(p: nat, va: u64) returns (ok: bool)
      requires Valid() && p < NPROC && slots[p].Occupied? && va % 4096 == 0
      modifies this`own, this`slots, this`spaces, m`mem, m`head, m`free
      ensures ok ==> Valid() && slots == old(slots) && va / 4096 !in old(spaces)[p].pages
      ensures ok ==> spaces == old(spaces)[p := spaces[p]]
                     && spaces[p].pages == WithFresh(old(spaces)[p].pages, va / 4096, old(m.free))
      ensures ok ==> TablesOnly(p, old(m.mem), old(own), m.mem, own)
      ensures !ok ==> (m.free == [] && |old(m.free)| < 3) || va >= MAXVA || va / 4096 in old(spaces)[p].pages
      ensures ok ==> IsSuffix(m.free, old(m.free))
      ensures ok ==> OnePageTaken(old(m.free), old(spaces)[p], m.free, spaces[p])
    {
      hide Accounted, StaffIs, IsFreeList, Bounds, SlotOk, TablesOnly, SlotsBut, Local, WithFresh, IsSuffix;
      SlotFacts(m.mem, m.free, own, p, slots, spaces);
      SlotsAll(p, m.mem, m.free, own, slots, spaces);
      ghost var sp';
      ok, sp' := MapFreshIn(p, slots[p].img, va, spaces[p]);
      if !ok { return; }
      TablesOnlyLocal(p, old(m.mem), old(own), m.mem, own);
      StaffKept(staff, slots, p, slots[p].img);
      SetSlot(p, slots[p].img, sp', old(m.mem), old(m.free), old(own));
    }

    method MapFreshIn(ghost p: nat, img: Image, va: u64, ghost sp: Space) returns (ok: bool, ghost sp': Space)
      requires Counted() && SlotOk(m.mem, m.free, own, p, img, sp) && va % 4096 == 0
      modifies this`own, m`mem, m`head, m`free
      ensures ok ==> Counted() && SlotOk(m.mem, m.free, own, p, img, sp') && va / 4096 !in sp.pages
      ensures ok ==> sp'.pages == WithFresh(sp.pages, va / 4096, old(m.free))
      ensures ok ==> TablesOnly(p, old(m.mem), old(own), m.mem, own)
      ensures !ok ==> (m.free == [] && |old(m.free)| < 3) || va >= MAXVA || va / 4096 in sp.pages
      ensures ok ==> IsSuffix(m.free, old(m.free))
      ensures ok ==> OnePageTaken(old(m.free), sp, m.free, sp')
    {
      hide Accounted, StaffIs, IsFreeList, Bounds, SlotOk, SpaceOk, TablesOnly, Adds, MakePte, ProtToType, InCode,
           IsSuffix, Took, Missing;
      ghost var m0, f0, o0 := m.mem, m.free, own;
      ghost var u := if InCode(img.regions, va / 4096) then CodeUse else PageOf(p, va / 4096);
      var pa := Take(u);
      TakeAdds(m0, f0, o0, m.start, m.end, pa, u, own);
      AddsTablesOnly(p, m0, f0, o0, m.start, m.end, m.mem, own);
      AddsSlot(p, m0, f0, o0, m.mem, m.free, own, m.start, m.end, img, sp);
      SlotRoot(p, m.mem, m.free, own, img, sp);
      ghost var m1, f1, o1 := m.mem, m.free, own;
      var r;
      r, sp' := MapPage(p, img.pagetable, va, pa, ProtToType(3, true), sp);
      MissingFew(sp.tables.Keys, va / 4096);
      ok := r == Done;
      if !ok { return; }
      TablesOnlyTrans(p, m0, o0, m1, o1, m.mem, own);
      SuffixTrans(f0, f1, m.free);
      FreshSlot(p, m1, f1, o1, m.start, m.end, m.mem, m.free, own, img, sp, sp', va / 4096, pa);
    }

    /** sys_user_allocate_page. */
    method AllocateHeapPage(p: nat) returns (ok: bool, va: u64)
      requires Valid() && p < NPROC && slots[p].Occupied?
      modifies this, m`mem, m`head, m`free
      ensures va == old(heapNext) && heapNext == (va + 4096) % TWO64
      ensures ok ==> Valid() && slots == old(slots) && va / 4096 !in old(spaces)[p].pages
      ensures ok ==> spaces == old(spaces)[p := spaces[p]]
                     && spaces[p].pages == WithFresh(old(spaces)[p].pages, va / 4096, old(m.free))
      ensures ok ==> TablesOnly(p, old(m.mem), old(own), m.mem, own)
      ensures !ok ==> (m.free == [] && |old(m.free)| < 3) || va >= MAXVA || va / 4096 in old(spaces)[p].pages
      ensures ok ==> IsSuffix(m.free, old(m.free))
      ensures ok ==> OnePageTaken(old(m.free), old(spaces)[p], m.free, spaces[p])
    {
      hide Accounted, StaffIs, IsFreeList, Bounds, SlotsBut, TablesOnly, MakePte, ProtToType, IsSuffix;
      va := heapNext;
      heapNext := (heapNext + 4096) % TWO64;
      ok := MapFresh(p, va);
    }

    /** handle_user_page_fault on a store at stval. */
    method StoreFault(p: nat, stval: u64) returns (ok: bool)
      requires Valid() && p < NPROC && slots[p].Occupied?
      modifies this`own, this`slots, this`spaces, m`mem, m`head, m`free
      ensures ok ==> Valid() && slots == old(slots) && stval / 4096 !in old(spaces)[p].pages
      ensures ok ==> spaces == old(spaces)[p := spaces[p]]
                     && spaces[p].pages == WithFresh(old(spaces)[p].pages, stval / 4096, old(m.free))
      ensures ok ==> TablesOnly(p, old(m.mem), old(own), m.mem, own)
      ensures !ok ==> (m.free == [] && |old(m.free)| < 3) || stval >= MAXVA || stval / 4096 in old(spaces)[p].pages
      ensures ok ==> IsSuffix(m.free, old(m.free))
      ensures ok ==> OnePageTaken(old(m.free), old(spaces)[p], m.free, spaces[p])
    {
      hide Accounted, StaffIs, IsFreeList, Bounds, SlotsBut, TablesOnly, MakePte, ProtToType, IsSuffix;
      ok := MapFresh(p, stval / 4096 * 4096);
    }

    /** Whether a page of region r of slot q has frame f, page v of slot p aside. */
    method ScanRegion(q: nat, k: nat, p: nat, v: nat, f: nat) returns (found: bool)
      requires Valid() && q < NPROC && slots[q].Occupied? && k < |slots[q].img.regions|
      requires slots[q].img.regions[k].seg.CodeSegment?
      requires f > 0 && NoOtherIn(slots, spaces, q, p, v, f, k)
      modifies m`mem, m`head, m`free
      ensures State() == old(State()) && m.head == old(m.head)
      ensures found ==> !NoOther(slots, spaces, q, p, v, f)
      ensures !found ==> NoOtherIn(slots, spaces, q, p, v, f, k + 1)
    {
      hide Accounted, StaffIs, IsFreeList, Bounds, SpaceOk, Backing, SlotsBut, FrameOf, Lookup, RegionsOk,
           FixedRegions, Maps, Covers, NoOther, NoOtherIn, Scanned;
      SlotFacts(m.mem, m.free, own, q, slots, spaces);
      ScanStart(slots, spaces, q, p, v, f, k);
      var img, r := slots[q].img, slots[q].img.regions[k];
      RegionFacts(img.regions, k);
      HasRoot(m.mem, m.free, own, q, spaces[q]);
      found := false;
      var w := r.va / 4096;
      while w < r.va / 4096 + r.npages
        invariant r.va / 4096 <= w <= r.va / 4096 + r.npages && State() == old(State()) && m.head == old(m.head)
        invariant Scanned(slots, spaces, q, p, v, f, r.va / 4096, w)
      {
        var pa := m.LookupPa(img.pagetable, w * 4096, spaces[q]);
        LookupMaps(q, w, f, m.mem, m.free, own, slots, spaces);
        ScannedOne(slots, spaces, q, p, v, f, r.va / 4096, w);
        if pa / 4096 == f && (q != p || w != v) {
          return true;
        }
        w := w + 1;
      }
      ScannedAll(slots, spaces, q, p, v, f, k);
    }

    /** Whether slot q maps frame f, page v of slot p aside. */
    method ScanSlot(q: nat, p: nat, v: nat, f: nat) returns (found: bool)
      requires Valid() && q < NPROC && slots[q].Occupied? && f > 0 && f in own
      requires (own[f] == CodeUse || own[f] == PageOf(p, v))
      modifies m`mem, m`head, m`free
      ensures State() == old(State()) && m.head == old(m.head)
      ensures found <==> !NoOther(slots, spaces, q, p, v, f)
    {
      hide Accounted, StaffIs, IsFreeList, Bounds, SlotsBut, NoOther, Covers, Maps;
      found := false;
      var k := 0;
      while k < |slots[q].img.regions|
        invariant 0 <= k <= |slots[q].img.regions| && State() == old(State()) && m.head == old(m.head)
        invariant NoOtherIn(slots, spaces, q, p, v, f, k)
      {
        if slots[q].img.regions[k].seg.CodeSegment? {
          found := ScanRegion(q, k, p, v, f);
          if found { return; }
        }
        k := k + 1;
      }
      if own[f] == CodeUse {
        CodeOnly(q, p, v, f, m.mem, m.free, own, slots, spaces);
      } else {
        PrivateAlone(p, q, v, f, m.mem, m.free, own, slots, spaces);
      }
    }

    /** Whether any slot maps frame f, page v of slot p aside. */
    method ScanSlots(p: nat, v: nat, f: nat) returns (found: bool)
      requires Valid() && f > 0 && f in own && (own[f] == CodeUse || own[f] == PageOf(p, v))
      modifies m`mem, m`head, m`free
      ensures State() == old(State()) && m.head == old(m.head)
      ensures found <==> !Alone(slots, spaces, p, v, f)
    {
      hide Accounted, StaffIs, IsFreeList, Bounds, SlotsBut, NoOther;
      found := false;
      var q := 0;
      while q < NPROC
        invariant 0 <= q <= NPROC && State() == old(State()) && m.head == old(m.head)
        invariant forall i :: 0 <= i < q ==> NoOther(slots, spaces, i, p, v, f)
      {
        if slots[q].Occupied? {
          found := ScanSlot(q, p, v, f);
          if found { return; }
        } else {
          VacantMaps(slots, spaces, q, p, v, f);
        }
        q := q + 1;
      }
    }

    /** Whether the frame behind page v, once handed back, would still be in use: a question sys_user_free_page
        never asks. */
    method InUseElsewhere(p: nat, v: nat) returns (used: bool)
      requires Valid() && p < NPROC && slots[p].Occupied?
      modifies m`mem, m`head, m`free
      ensures State() == old(State()) && m.head == old(m.head)
      ensures used <==> CanUnmap(spaces[p], v, true, m.start, m.end) && StillUsed(slots, spaces, p, v)
    {
      hide Accounted, StaffIs, IsFreeList, Bounds, SlotsBut, FrameOf, Lookup, StillUsed, CanUnmap, SlotOk, SpaceOk,
           Alone;
      SlotFacts(m.mem, m.free, own, p, slots, spaces);
      InReachOfWalk(spaces[p], v, m.start, m.end);
      used := v == slots[p].img.trapframe;
      OwnTrapframe(p, m.mem, m.free, own, m.start, m.end, slots, spaces);
      if used || v >= NVPN { return; }
      SlotRoot(p, m.mem, m.free, own, slots[p].img, spaces[p]);
      HasRoot(m.mem, m.free, own, p, spaces[p]);
      var pa := m.LookupPa(slots[p].img.pagetable, v * 4096, spaces[p]);
      ReadBack(p, v, m.mem, m.free, own, m.start, m.end, slots[p].img, spaces[p]);
      if pa == 0 || !(m.start <= pa < m.end) { return; }
      used := ScanSlots(p, v, pa / 4096);
      ElsewhereIff(slots, spaces, p, v);
    }

    /** sys_user_free_page, on any address. The page is unmapped and its frame handed back, whoever else uses it;
        the invariant survives exactly if nobody does. At the last page of the address space the loop of
        user_vm_unmap makes no turn. */
    method FreeUserPage(p: nat, va: u64) returns (ok: bool)
      requires Valid() && p < NPROC && slots[p].Occupied?
      modifies this`own, this`spaces, m`mem, m`head, m`free
      ensures ok <==>
                va % 4096 == 0 && (va + 4096 == TWO64 || CanUnmap(old(spaces)[p], va / 4096, true, m.start, m.end))
      ensures ok && va + 4096 == TWO64 ==> State() == old(State()) && Valid()
      ensures ok && va + 4096 < TWO64 ==>
                Counted() && FreedPage(p, va / 4096, old(m.mem), old(m.free), old(own), old(spaces),
                                       m.mem, m.free, own, spaces)
      ensures ok ==> (Valid() <==> !StillUsed(slots, old(spaces), p, va / 4096))
      ensures ok && StillUsed(slots, old(spaces), p, va / 4096) ==>
                m.free != [] && FreeInReach(m.free[0], slots, spaces)
      ensures ok ==> Counted() && KernelKept(old(m.mem), old(own), m.mem, own)
    {
      hide Accounted, StaffIs, IsFreeList, Bounds, SpaceOk, Backing, ImageOk, SlotsBut, FrameOf, StillUsed,
           OnlyTablesAnd, Reclaimable, Spares, Holds, Without, UnmapSpan, AllMapped, AllUnmappable, Freed, KernelKept;
      KernelRefl(m.mem, own);
      ghost var v, sp := va / 4096, spaces[p];
      SlotFacts(m.mem, m.free, own, p, slots, spaces);
      HasRoot(m.mem, m.free, own, p, sp);
      OneTurn(va);
      PageReclaimable(p, m.mem, m.free, own, m.start, m.end, slots[p].img.regions, sp, v);
      NoneReclaimed(sp, m.free, v, m.start, m.end);
      ghost var sp', n;
      ok, sp', n := m.UserVmUnmap(slots[p].img.pagetable, va, 4096, true, sp);
      OnePageOrNone(sp, v, n, old(m.free), m.start, m.end);
      if !ok { return; }
      if n == 0 {
        UnmappedNone(old(m.mem), old(m.free), sp, m.mem, v);
        NotMapped(slots, spaces, p, v, m.mem, m.free);
        assert spaces[p := sp'] == spaces;
      } else {
        ghost var f := FrameOf(sp.pages[v]);
        ManagedOwned(old(m.mem), old(m.free), own, m.start, m.end, f);
        SparesTables(p, f, old(m.mem), old(m.free), own, sp, m.mem);
        OnlyKeys(p, f, old(m.mem), own, m.mem);
        FreedAccount(old(m.mem), old(m.free), own, m.start, m.end, f, m.mem);
        FreedIff(p, v, old(m.mem), old(m.free), own, m.start, m.end, m.mem, slots, spaces);
        if StillUsed(slots, spaces, p, v) { ReachableYetFree(slots, spaces, p, v); }
        NotStaff(p, old(m.mem), old(m.free), own, slots[p].img, sp, v);
        StaffOne(own, staff, f, FreeUse);
        own, spaces := own[f := FreeUse], spaces[p := sp'];
        FreedKernel(p, v, old(m.mem), old(m.free), old(own), slots, old(spaces), m.mem, m.free, own, spaces);
      }
    }

    /** One turn of do_fork's code loop: the child maps the parent's frame. The result of map_pages is
        not looked at, so when a table is missing and no frame is left the page is left out. */
    method ForkCodePage(ghost p: nat, ghost c: nat, root: nat, va: u64, proot: nat, ghost spc: Space, ghost spp: Space,
                        ghost rsp: seq<Region>, ghost mem0: Mem, ghost own0: Owners)
      returns (ok: bool, ghost spc': Space)
      requires p != c && va % 4096 == 0 && va < MAXVA
      requires Counted() && SpaceOk(m.mem, m.free, own, c, spc) && spc.tables[Root] == root
      requires SpaceOk(m.mem, m.free, own, p, spp) && spp.tables[Root] == proot
      requires Local(c, mem0, own0, m.mem, own) && Backing(own0, p, rsp, spp.pages) && 0 !in own0
      requires InCode(rsp, va / 4096)
      modifies this`own, m`mem, m`head, m`free
      ensures ok ==> Counted() && SpaceOk(m.mem, m.free, own, c, spc') && spc'.tables[Root] == root
      ensures ok ==> SpaceOk(m.mem, m.free, own, p, spp) && TablesOnly(c, old(m.mem), old(own), m.mem, own)
      ensures ok ==> va / 4096 !in spc.pages && (old(m.free) == [] ==> m.free == [])
      ensures ok ==> GainedPage(true, mem0, spp, m.mem, own, m.free, c, spc.pages, spc'.pages, va / 4096)
      ensures !ok ==> va / 4096 in spc.pages
      ensures ok ==> |spc'.tables.Keys| + |m.free| == |spc.tables.Keys| + |old(m.free)|
      ensures ok ==> IsSuffix(m.free, old(m.free)) && |old(m.free)| <= |m.free| + 2
    {
      hide Accounted, StaffIs, IsFreeList, Bounds, SpaceOk, TablesOnly, Backing, MakePte, ProtToType, InCode,
           PageForked, Lookup, Local, IsSuffix, Took, Missing;
      HasRoot(m.mem, m.free, own, p, spp);
      var addr := m.LookupPa(proot, va, spp);
      var r;
      r, spc' := MapPage(c, root, va, addr, ProtToType(7, true), spc);
      ok := r != Panic;
      if !ok { return; }
      OtherSpaceKept(p, c, old(m.mem), old(m.free), old(own), m.mem, m.free, own, m.start, m.end, spp);
      TablesOnlyLocal(c, old(m.mem), old(own), m.mem, own);
      LocalTrans(c, mem0, own0, old(m.mem), old(own), m.mem, own);
      assert va / 4096 * 4096 == va;
      if Source(spp, va / 4096) in own { CodeSource(p, c, mem0, own0, m.mem, own, rsp, spp, va / 4096); }
      CodePageForked(mem0, spp, m.mem, own, c, va / 4096);
    }

    /** One turn of do_fork's data loop: the child gets a copy of the parent's page in a new frame. */
    method ForkDataPage(ghost p: nat, ghost c: nat, root: nat, va: u64, proot: nat, ghost spc: Space, ghost spp: Space,
                        ghost rsp: seq<Region>, ghost mem0: Mem, ghost own0: Owners)
      returns (ok: bool, ghost spc': Space)
      requires p != c && va % 4096 == 0 && va < MAXVA
      requires Counted() && SpaceOk(m.mem, m.free, own, c, spc) && spc.tables[Root] == root
      requires SpaceOk(m.mem, m.free, own, p, spp) && spp.tables[Root] == proot
      requires Local(c, mem0, own0, m.mem, own) && Backing(own0, p, rsp, spp.pages)
      modifies this`own, m`mem, m`head, m`free
      ensures ok ==> Counted() && SpaceOk(m.mem, m.free, own, c, spc') && spc'.tables[Root] == root
      ensures ok ==> SpaceOk(m.mem, m.free, own, p, spp) && TablesOnly(c, old(m.mem), old(own), m.mem, own)
      ensures ok ==> va / 4096 !in spc.pages && (old(m.free) == [] ==> m.free == [])
      ensures ok ==> GainedPage(false, mem0, spp, m.mem, own, m.free, c, spc.pages, spc'.pages, va / 4096)
      ensures !ok ==> old(m.free) == m.free == [] || va / 4096 in spc.pages || !Readable(mem0, spp, va / 4096)
      ensures ok ==> |spc'.tables.Keys| + |m.free| + 1 == |spc.tables.Keys| + |old(m.free)|
      ensures ok ==> IsSuffix(m.free, old(m.free)) && |old(m.free)| <= |m.free| + 3
    {
      hide Accounted, StaffIs, IsFreeList, Bounds, SpaceOk, TablesOnly, Backing, MakePte, ProtToType, PageForked,
           Lookup, Adds, Held, Local, IsSuffix, Took, Missing;
      ghost var m1, f1, o1 := m.mem, m.free, own;
      ghost var v := va / 4096;
      assert v * 4096 == va;
      spc' := spc;
      var addr;
      ok, addr := CopyToNew(p, va, proot, spp, PageOf(c, v));
      if !ok {
        SameReadable(c, mem0, own0, m1, o1, spp, v);
        return;
      }
      ok := false;
      var pa := addr;
      AddsTablesOnly(c, m1, f1, o1, m.start, m.end, m.mem, own);
      OwnSpaceKept(p, m1, f1, o1, m.mem, m.free, own, m.start, m.end, spp);
      OwnSpaceKept(c, m1, f1, o1, m.mem, m.free, own, m.start, m.end, spc);
      SourceStable(p, c, mem0, own0, m1, o1, rsp, spp, v);
      ghost var m2, f2, o2 := m.mem, m.free, own;
      var r;
      r, spc' := MapPage(c, root, va, pa, ProtToType(3, true), spc);
      if r == Panic { return; }
      OtherSpaceKept(p, c, m2, f2, o2, m.mem, m.free, own, m.start, m.end, spp);
      TablesOnlyTrans(c, m1, o1, m2, o2, m.mem, own);
      TablesOnlyHeld(c, m2, o2, m.mem, own, pa / 4096, PageOf(c, v), mem0[Source(spp, v)]);
      SuffixTrans(f1, f2, m.free);
      DataPageForked(mem0, spp, m.mem, own, c, v, pa);
      ok := true;
    }

    /** alloc_page, then memcpy of the page that slot p maps at va; halts on a null on either side. */
    method CopyToNew(ghost p: nat, va: u64, proot: nat, ghost spp: Space, ghost u: Use) returns (ok: bool, pa: u64)
      requires Counted() && SpaceOk(m.mem, m.free, own, p, spp) && spp.tables[Root] == proot
      requires u != FreeUse && !IsStaff(u) && va % 4096 == 0 && va < MAXVA
      modifies this`own, m`mem, m`head, m`free
      ensures ok ==> Counted() && Adds(old(m.mem), old(own), m.mem, own) && (old(m.free) == [] ==> m.free == [])
      ensures ok ==> pa % 4096 == 0 && Source(spp, va / 4096) != 0 && Source(spp, va / 4096) in old(m.mem)
      ensures ok ==> Held(m.mem, own, pa / 4096, u, old(m.mem)[Source(spp, va / 4096)])
      ensures !ok ==> old(m.free) == m.free == [] || !Readable(old(m.mem), spp, va / 4096)
      ensures ok ==> IsSuffix(m.free, old(m.free)) && |old(m.free)| == |m.free| + 1
    {
      hide Accounted, StaffIs, IsFreeList, Bounds, SpaceOk, Lookup, Adds, Held, IsSuffix;
      ok := false;
      assert va / 4096 * 4096 == va;
      pa := Take(u);
      TakeAdds(m.mem, old(m.free), old(own), m.start, m.end, pa, u, own);
      OwnSpaceKept(p, m.mem, old(m.free), old(own), m.mem, m.free, own, m.start, m.end, spp);
      HasRoot(m.mem, m.free, own, p, spp);
      var addr := m.LookupPa(proot, va, spp);
      if pa == 0 || addr == 0 || addr / 4096 !in m.mem { return; }
      var f, page := pa / 4096, m.mem[addr / 4096];
      FillAdds(m.mem, old(m.free), old(own), m.start, m.end, f, u, page);
      InUse(m.mem, m.free, own, m.start, m.end, f);
      m.WritePage(f, page);
      AccountedFrame(old(m.mem), m.free, own, m.start, m.end, m.mem);
      ok := true;
    }

    /** One turn of either loop, at page j of region r. */
    method ForkPage(ghost p: nat, ghost c: nat, root: nat, r: Region, j: nat, proot: nat, ghost spc: Space,
                    ghost spp: Space, ghost rsp: seq<Region>, ghost mem0: Mem, ghost own0: Owners)
      returns (ok: bool, ghost spc': Space)
      requires p != c && RegionOk(r) && r in rsp && (r.seg.CodeSegment? || r.seg.DataSegment?) && j < r.npages
      requires Counted() && SpaceOk(m.mem, m.free, own, c, spc) && spc.tables[Root] == root
      requires SpaceOk(m.mem, m.free, own, p, spp) && spp.tables[Root] == proot
      requires Local(c, mem0, own0, m.mem, own) && Backing(own0, p, rsp, spp.pages) && 0 !in own0
      modifies this`own, m`mem, m`head, m`free
      ensures ok ==> Counted() && SpaceOk(m.mem, m.free, own, c, spc') && spc'.tables[Root] == root
      ensures ok ==> SpaceOk(m.mem, m.free, own, p, spp) && TablesOnly(c, old(m.mem), old(own), m.mem, own)
      ensures ok ==> Local(c, mem0, own0, m.mem, own)
      ensures ok ==> r.va / 4096 + j !in spc.pages && (old(m.free) == [] ==> m.free == [])
      ensures ok ==> GainedPage(r.seg.CodeSegment?, mem0, spp, m.mem, own, m.free, c, spc.pages, spc'.pages,
                                r.va / 4096 + j)
      ensures !ok ==> || old(m.free) == m.free == [] || r.va / 4096 + j in spc.pages
                      || (r.seg.DataSegment? && !Readable(mem0, spp, r.va / 4096 + j))
      ensures ok ==> |spc'.tables.Keys| + |m.free| + (if r.seg.DataSegment? then 1 else 0)
                     == |spc.tables.Keys| + |old(m.free)|
      ensures ok ==> IsSuffix(m.free, old(m.free)) && |old(m.free)| <= |m.free| + 3
    {
      hide Accounted, StaffIs, IsFreeList, Bounds, SpaceOk, TablesOnly, Backing, GainedPage, Local, Readable, IsSuffix;
      var va := r.va + j * 4096;
      assert va / 4096 == r.va / 4096 + j;
      CoveredInCode(rsp, r, r.va / 4096 + j);
      if r.seg.CodeSegment? {
        ok, spc' := ForkCodePage(p, c, root, va, proot, spc, spp, rsp, mem0, own0);
      } else {
        ok, spc' := ForkDataPage(p, c, root, va, proot, spc, spp, rsp, mem0, own0);
      }
      if ok {
        TablesOnlyLocal(c, old(m.mem), old(own), m.mem, own);
        LocalTrans(c, mem0, own0, old(m.mem), old(own), m.mem, own);
      }
    }

    /** do_fork's page loop over one code or data region r of the parent. */
    method ForkRegion(ghost p: nat, ghost c: nat, root: nat, r: Region, proot: nat, ghost spc: Space, ghost spp: Space,
                      ghost rsp: seq<Region>, ghost mem0: Mem, ghost own0: Owners)
      returns (ok: bool, ghost spc': Space)
      requires p != c && RegionOk(r) && r in rsp && (r.seg.CodeSegment? || r.seg.DataSegment?)
      requires Counted() && SpaceOk(m.mem, m.free, own, c, spc) && spc.tables[Root] == root
      requires SpaceOk(m.mem, m.free, own, p, spp) && spp.tables[Root] == proot
      requires Local(c, mem0, own0, m.mem, own) && Backing(own0, p, rsp, spp.pages) && 0 !in own0
      modifies this`own, m`mem, m`head, m`free
      ensures ok ==> Counted() && SpaceOk(m.mem, m.free, own, c, spc') && spc'.tables[Root] == root
      ensures ok ==> SpaceOk(m.mem, m.free, own, p, spp) && TablesOnly(c, old(m.mem), old(own), m.mem, own)
      ensures ok ==> (old(m.free) == [] ==> m.free == [])
      ensures ok ==> RangeForked(r.seg.CodeSegment?, mem0, spp, m.mem, own, m.free, c, spc.pages, spc'.pages,
                                 r.va / 4096, r.npages)
      ensures !ok ==> (m.free == [] && |old(m.free)| < 3 * r.npages) || ForkStuck(mem0, spp, r, spc.pages)
      ensures ok ==> |spc'.tables.Keys| + |m.free| + (if r.seg.DataSegment? then r.npages else 0)
                     == |spc.tables.Keys| + |old(m.free)|
      ensures ok ==> IsSuffix(m.free, old(m.free)) && |old(m.free)| <= |m.free| + 3 * r.npages
    {
      hide Accounted, StaffIs, IsFreeList, Bounds, SpaceOk, TablesOnly, Backing, RangeForked, GainedPage, Local,
           ForkStuck, Readable, IsSuffix;
      ok, spc' := false, spc;
      ghost var code, v := r.seg.CodeSegment?, r.va / 4096;
      HasRoot(m.mem, m.free, own, c, spc);
      TablesOnlyRefl(c, m.mem, own);
      SuffixRefl(m.free);
      RangeForkedNone(code, mem0, spp, m.mem, own, m.free, c, spc.pages, v);
      var j := 0;
      while j < r.npages
        invariant 0 <= j <= r.npages
        invariant Counted() && SpaceOk(m.mem, m.free, own, c, spc') && Root in spc'.tables && spc'.tables[Root] == root
        invariant SpaceOk(m.mem, m.free, own, p, spp) && TablesOnly(c, old(m.mem), old(own), m.mem, own)
        invariant Local(c, mem0, own0, m.mem, own)
        invariant IsSuffix(m.free, old(m.free)) && (old(m.free) == [] ==> m.free == [])
        invariant |old(m.free)| <= |m.free| + 3 * j
        invariant |spc'.tables.Keys| + |m.free| + (if r.seg.DataSegment? then j else 0)
                  == |spc.tables.Keys| + |old(m.free)|
        invariant RangeForked(code, mem0, spp, m.mem, own, m.free, c, spc.pages, spc'.pages, v, j)
      {
        ghost var m1, f1, o1, sp1 := m.mem, m.free, own, spc';
        var done;
        done, spc' := ForkPage(p, c, root, r, j, proot, sp1, spp, rsp, mem0, own0);
        if !done {
          StuckInRegion(r, mem0, spp, m1, o1, f1, c, spc.pages, sp1.pages, j);
          return;
        }
        HasRoot(m.mem, m.free, own, c, spc');
        OwnedExist(m1, f1, o1, m.start, m.end);
        TablesOnlyTrans(c, old(m.mem), old(own), m1, o1, m.mem, own);
        SuffixTrans(old(m.free), f1, m.free);
        RangeForkedKept(code, mem0, spp, m1, o1, f1, m.mem, own, m.free, c, spc.pages, sp1.pages, v, j);
        RangeForkedStep(code, mem0, spp, m.mem, own, m.free, c, spc.pages, sp1.pages, spc'.pages, v, j);
        j := j + 1;
      }
      ok := true;
    }

    /** do_fork up to the region loop's fourth turn: alloc_process, then the copies of the user stack
        and of the saved context, which are the first two regions of every list. */
    method ForkFixed(ghost p: nat, ghost c: nat, imgp: Image, ghost spp: Space)
      returns (ok: bool, img: Image, ghost spc: Space)
      requires p != c && Counted() && Layout()
      requires SlotOk(m.mem, m.free, own, p, imgp, spp)
      modifies this`own, this`staff, m`mem, m`head, m`free
      ensures ok ==> Counted() && ForkInv(p, c, old(m.mem), old(own), imgp, spp, 3, m.mem, own, m.free, img, spc)
      ensures ok ==> staff == Hired(old(staff), c, img.kstack, img.info)
      ensures ok ==> HighPages(spc.pages) && |old(m.free)| == |m.free| + 5 + |spc.tables.Keys|
      ensures ok ==> HasFixed(spc.pages, img.trapframe, trapSec)
      ensures !ok ==> (m.free == [] && |old(m.free)| < 12) || !Readable(old(m.mem), spp, USER_STACK_PAGE / 4096)
      ensures ok ==> IsSuffix(m.free, old(m.free)) && |old(m.free)| <= |m.free| + 12
    {
      hide Accounted, StaffIs, Hired, IsFreeList, Bounds, SlotOk, TablesOnly, AllListedMapped, StackMapped, ForkInv,
           HighPages, HasFixed, Readable, IsSuffix;
      NoFrameZero(m.mem, m.free, own, m.start, m.end);
      ok, img, spc := AllocImage(c);
      if !ok { return; }
      ok := CopyFixed(p, c, imgp, spp, img, spc, old(m.mem), old(m.free), old(own));
    }

    method CopyFixed(ghost p: nat, ghost c: nat, imgp: Image, ghost spp: Space, img: Image, ghost spc: Space,
                     ghost m0: Mem, ghost f0: seq<nat>, ghost o0: Owners)
      returns (ok: bool)
      requires Counted() && ForkReady(p, c, m0, f0, o0, imgp, spp, m.start, m.end, m.mem, m.free, own, img, spc)
      modifies m`mem, m`head, m`free
      ensures m.free == old(m.free)
      ensures ok ==> Counted() && ForkInv(p, c, m0, o0, imgp, spp, 3, m.mem, own, m.free, img, spc)
      ensures !ok ==> !Readable(m0, spp, USER_STACK_PAGE / 4096)
    {
      hide Accounted, StaffIs, IsFreeList, Bounds, ForkReady, Lookup, FrameOf, ForkInv, Holds;
      ok := false;
      ghost var v := USER_STACK_PAGE / 4096;
      ReadyFacts(p, c, m0, f0, o0, imgp, spp, m.start, m.end, m.mem, m.free, own, img, spc);
      var dst := m.LookupPa(img.pagetable, USER_STACK_PAGE, spc);
      var src := m.LookupPa(imgp.pagetable, USER_STACK_PAGE, spp);
      assert v * 4096 == USER_STACK_PAGE;
      ReadyKeys(p, c, m0, f0, o0, imgp, spp, m.start, m.end, m.mem, m.free, own, img, spc);
      if src == 0 || src / 4096 !in m.mem { return; }
      ghost var m1 := m.mem;
      InUse(m.mem, m.free, own, m.start, m.end, dst / 4096);
      m.WritePage(dst / 4096, m.mem[src / 4096]);
      AccountedFrame(m1, m.free, own, m.start, m.end, m.mem);
      ghost var m2 := m.mem;
      InUse(m.mem, m.free, own, m.start, m.end, img.trapframe);
      m.WritePage(img.trapframe, m.mem[imgp.trapframe][..35] + m.mem[img.trapframe][35..]);
      AccountedFrame(m2, m.free, own, m.start, m.end, m.mem);
      ForkBegun(p, c, m0, f0, o0, imgp, spp, m.start, m.end, m1, m.free, own, img, spc, v, m2, m.mem);
      ok := true;
    }

    /** do_fork's loop over the parent's code and data regions. */
    method ForkRegions(ghost p: nat, ghost c: nat, imgp: Image, ghost spp: Space, img: Image, ghost spc: Space,
                       ghost m0: Mem, ghost o0: Owners)
      returns (ok: bool, img': Image, ghost spc': Space)
      requires Counted() && ForkInv(p, c, m0, o0, imgp, spp, 3, m.mem, own, m.free, img, spc) && HighPages(spc.pages)
      modifies this`own, m`mem, m`head, m`free
      ensures ok ==> Counted() && ForkInv(p, c, m0, o0, imgp, spp, |imgp.regions|, m.mem, own, m.free, img', spc')
      ensures ok ==> Submap(spc.pages, spc'.pages) && img'.trapframe == img.trapframe
      ensures ok ==> img'.kstack == img.kstack && img'.info == img.info
      ensures !ok ==> (m.free == [] && |old(m.free)| + 12 < ForkCost(imgp.regions, |imgp.regions|))
                      || !Forkable(m0, spp, imgp.regions)
      ensures ok ==> IsSuffix(m.free, old(m.free))
      ensures ok ==> |spc'.tables.Keys| + |m.free| + DataPages(imgp.regions, |imgp.regions|)
                     == |spc.tables.Keys| + |old(m.free)|
    {
      hide Accounted, StaffIs, IsFreeList, Bounds, Local, ForkInv, RangeForked, TablesOnly, SpaceOk, HighPages,
           HighOrForked, Forkable, ForkStuck, Submap, IsSuffix;
      ok, img', spc' := false, img, spc;
      ForkBounds(p, c, m0, o0, imgp, spp, 3, m.mem, own, m.free, img, spc);
      SuffixRefl(m.free);
      NoneForked(imgp.regions, spc.pages);
      NoneRemoved(imgp.regions, spc.pages);
      NoDataYet(p, c, m0, o0, imgp, spp, m.mem, own, m.free, img, spc);
      var i := 3;
      while i < |imgp.regions|
        invariant 3 <= i <= |imgp.regions|
        invariant Counted() && ForkInv(p, c, m0, o0, imgp, spp, i, m.mem, own, m.free, img', spc')
        invariant HighOrForked(spc'.pages, imgp.regions, i) && Submap(spc.pages, spc'.pages)
        invariant img'.trapframe == img.trapframe && img'.kstack == img.kstack && img'.info == img.info
        invariant |spc'.tables.Keys| + |m.free| + DataPages(imgp.regions, i) == |spc.tables.Keys| + |old(m.free)|
        invariant IsSuffix(m.free, old(m.free)) && |old(m.free)| + 12 <= |m.free| + ForkCost(imgp.regions, i)
      {
        ghost var m1, f1, o1, sp1 := m.mem, m.free, own, spc';
        ForkBounds(p, c, m0, o0, imgp, spp, i, m.mem, own, m.free, img', spc');
        var done;
        done, spc' := ForkRegion(p, c, img'.pagetable, imgp.regions[i], imgp.pagetable, sp1, spp, imgp.regions, m0, o0);
        ForkCostGrows(imgp.regions, i + 1, |imgp.regions|);
        if !done {
          NotForkable(m0, spp, imgp.regions, i, sp1.pages);
          return;
        }
        SuffixTrans(old(m.free), f1, m.free);
        ForkedPages(imgp.regions, i, m0, spp, m.mem, own, m.free, c, sp1.pages, spc'.pages);
        SubmapForked(spc.pages, imgp.regions[i], m0, spp, m.mem, own, m.free, c, sp1.pages, spc'.pages);
        ForkStep(p, c, m0, o0, imgp, spp, i, m1, o1, f1, img', sp1, m.start, m.end, m.mem, own, m.free, spc');
        img' := img'.(regions := img'.regions + [imgp.regions[i]]);
        i := i + 1;
      }
      ok := true;
    }

    /** The child's image: fixed part, regions, and the 0 in a0. */
    method ForkImage(ghost p: nat, ghost c: nat, imgp: Image, ghost spp: Space)
      returns (ok: bool, img: Image, ghost spc: Space)
      requires p != c && Counted() && Layout() && SlotOk(m.mem, m.free, own, p, imgp, spp)
      modifies this`own, this`staff, m`mem, m`head, m`free
      ensures ok ==> Counted() && SlotOk(m.mem, m.free, own, c, img, spc) && Local(c, old(m.mem), old(own), m.mem, own)
      ensures ok ==> Forked(old(m.mem), imgp, spp, m.mem, own, m.free, c, img, spc)
      ensures ok ==> HasFixed(spc.pages, img.trapframe, trapSec)
      ensures ok ==> staff == Hired(old(staff), c, img.kstack, img.info)
      ensures !ok ==> (m.free == [] && |old(m.free)| < ForkCost(imgp.regions, |imgp.regions|))
                      || !Forkable(old(m.mem), spp, imgp.regions)
      ensures ok ==> IsSuffix(m.free, old(m.free))
      ensures ok ==> |old(m.free)| == |m.free| + 5 + DataPages(imgp.regions, |imgp.regions|) + |spc.tables.Keys|
    {
      hide Accounted, StaffIs, Hired, IsFreeList, Bounds, SlotOk, Local, ForkInv, Forked, Forkable, HighPages,
           Readable, HasFixed, Submap, IsSuffix;
      ok, img, spc := ForkFixed(p, c, imgp, spp);
      if !ok {
        StackNeeded(old(m.mem), spp, imgp.regions);
        return;
      }
      ghost var f1, sp1 := m.free, spc;
      ok, img, spc := ForkRegions(p, c, imgp, spp, img, spc, old(m.mem), old(own));
      if !ok { return; }
      SuffixTrans(old(m.free), f1, m.free);
      FixedKept(sp1.pages, spc.pages, img.trapframe, trapSec);
      FinishFork(p, c, imgp, spp, img, spc, old(m.mem), old(own));
    }

    /** The 0 that fork returns to the child. */
    method FinishFork(ghost p: nat, ghost c: nat, ghost imgp: Image, ghost spp: Space, img: Image, ghost spc: Space,
                      ghost m0: Mem, ghost o0: Owners)
      requires Counted() && ForkInv(p, c, m0, o0, imgp, spp, |imgp.regions|, m.mem, own, m.free, img, spc)
      modifies m`mem
      ensures Counted() && SlotOk(m.mem, m.free, own, c, img, spc) && Local(c, m0, o0, m.mem, own)
      ensures Forked(m0, imgp, spp, m.mem, own, m.free, c, img, spc)
    {
      hide Accounted, StaffIs, IsFreeList, Bounds, SlotOk, Local, ForkInv, Forked;
      ghost var m2 := m.mem;
      ForkDone(p, c, m0, o0, imgp, spp, m.mem, own, m.free, img, spc, m.start, m.end);
      ForkTrapframe(p, c, m0, o0, imgp, spp, m.mem, own, m.free, img, spc);
      InUse(m.mem, m.free, own, m.start, m.end, img.trapframe);
      m.WritePage(img.trapframe, m.mem[img.trapframe][9 := 0]);
      AccountedFrame(m2, m.free, own, m.start, m.end, m.mem);
    }

    /** do_fork of slot p into the vacant slot c. */
    method Fork(p: nat, c: nat) returns (ok: bool)
      requires Valid() && p < NPROC && c < NPROC && slots[p].Occupied? && slots[c].Vacant?
      modifies this, m`mem, m`head, m`free
      ensures ok ==> Valid() && heapNext == old(heapNext)
      ensures ok ==>
                ForkedMemory(old(m.mem), old(own), old(slots), old(spaces), m.mem, own, m.free, slots, spaces, p, c)
      ensures ok ==> HasFixed(spaces[c].pages, slots[c].img.trapframe, trapSec)
      ensures !ok ==> (m.free == [] && ForkShort(old(m.free), old(slots), p))
                      || !CanFork(old(m.mem), old(slots), old(spaces), p)
      ensures ok ==> IsSuffix(m.free, old(m.free))
      ensures ok ==> ForkTaken(old(m.free), old(slots)[p].img.regions, m.free, spaces[c])
    {
      hide Accounted, StaffIs, Hired, IsFreeList, Bounds, SlotOk, SlotsBut, Local, Forked, Forkable, HasFixed,
           IsSuffix, Staffed;
      SlotFacts(m.mem, m.free, own, p, slots, spaces);
      SlotsAll(c, m.mem, m.free, own, slots, spaces);
      var img;
      ghost var spc;
      ok, img, spc := ForkImage(p, c, slots[p].img, spaces[p]);
      if ok {
        StaffHired(old(staff), slots, c, img);
        SetSlot(c, img, spc, old(m.mem), old(m.free), old(own));
      }
    }

    /** A store by the program in slot p: a page that user mode may not write, or that no memory backs, faults and
        nothing changes. The write keeps every slot in order, and outside p's code regions no other process can
        see it. */
    method UserStore(p: nat, va: u64, x: u64)
      requires Valid() && p < NPROC && slots[p].Occupied?
      modifies m`mem, m`head, m`free
      ensures Valid() && m.free == old(m.free)
      ensures m.mem == Stored(old(m.mem), spaces[p], va, x) && KernelKept(old(m.mem), own, m.mem, own)
      ensures !InCode(slots[p].img.regions, va / 4096) && Lookup(spaces[p], va) / 4096 in own ==>
                Unseen(p, slots, spaces, old(m.mem), m.mem)
    {
      hide Accounted, StaffIs, IsFreeList, Bounds, SlotsBut, SpaceOk, Backing, RegionsOk, FixedRegions, FrameOf,
           UserRead, InCode, Lookup, KernelKept, Unseen, ImageOk, PteU, PteW;
      SlotFacts(m.mem, m.free, own, p, slots, spaces);
      HasRoot(m.mem, m.free, own, p, spaces[p]);
      KernelRefl(m.mem, own);
      NothingUnseen(p, slots, spaces, m.mem);
      var pte := m.Entry(slots[p].img.pagetable, va, spaces[p]);
      NullEntry();
      if !PteU(pte) || !PteW(pte) || FrameOf(pte) !in m.mem { return; }
      ReadableLookup(p, own, slots[p].img.regions, spaces[p], va);
      StoreInto(p, va / 4096, FrameOf(pte), m.mem[FrameOf(pte)][va % 4096 / 8 := x]);
    }

    /** A write to frame f, which page v of slot p has. */
    method StoreInto(ghost p: nat, ghost v: nat, f: nat, page: Page)
      requires Valid() && Maps(slots, spaces, p, v, f) && f in m.mem
      modifies m`mem
      ensures m.mem == old(m.mem)[f := page]
      ensures OffCodeAt(slots, p, v) && f in own ==> Unseen(p, slots, spaces, old(m.mem), m.mem)
      ensures Valid() && KernelKept(old(m.mem), own, m.mem, own)
    {
      hide Accounted, StaffIs, IsFreeList, Bounds, SlotsBut, SpaceOk, Backing, FrameOf, InCode, KernelKept, Unseen,
           ImageOk;
      ghost var m0 := m.mem;
      SlotFacts(m.mem, m.free, own, p, slots, spaces);
      StoreTarget(p, m.mem, m.free, own, m.start, m.end, slots[p].img.regions, spaces[p].pages, v);
      m.WritePage(f, page);
      AccountedFrame(m0, m.free, own, m.start, m.end, m.mem);
      StoreKeepsSlots(m0, m.free, own, m.start, m.end, f, page, slots, spaces);
      if OffCodeAt(slots, p, v) && f in own { StoreIsolated(p, m0, m.free, own, slots, spaces, v, page); }
    }

    /** The copy of do_read into page v of slot p, from byte pa on. */
    method CopyIn(ghost p: nat, ghost v: nat, pa: nat, bytes: seq<byte>)
      requires Valid() && Target(slots, spaces, p, v, pa, m.start, m.end) && pa % 4096 + |bytes| <= 4096
      modifies m`mem
      ensures m.mem == PutAll(old(m.mem), Run(pa, |bytes|), bytes)
      ensures OffCodeAt(slots, p, v) ==> Unseen(p, slots, spaces, old(m.mem), m.mem)
      ensures Valid() && KernelKept(old(m.mem), own, m.mem, own)
    {
      hide Accounted, StaffIs, IsFreeList, Bounds, SlotsBut, SpaceOk, Backing, FrameOf, InCode, KernelKept, Unseen,
           ImageOk, PutAll, Managed;
      ghost var m0, f := m.mem, pa / 4096;
      SlotFacts(m.mem, m.free, own, p, slots, spaces);
      StoreTarget(p, m.mem, m.free, own, m.start, m.end, slots[p].img.regions, spaces[p].pages, v);
      ManagedOwned(m.mem, m.free, own, m.start, m.end, f);
      OwnedExist(m.mem, m.free, own, m.start, m.end);
      Copy(m, pa, bytes);
      AccountedFrame(m0, m.free, own, m.start, m.end, m.mem);
      StoreKeepsSlots(m0, m.free, own, m.start, m.end, f, m.mem[f], slots, spaces);
      if !InCode(slots[p].img.regions, v) { StoreIsolated(p, m0, m.free, own, slots, spaces, v, m.mem[f]); }
    }

    /** One turn of the loop of sys_user_read that moves bytes, at byte va of the user's space. */
    method ReadPiece(p: nat, va: nat, bytes: seq<byte>) returns (ok: bool)
      requires Valid() && p < NPROC && slots[p].Occupied? && bytes != [] && U.Offset(va) + |bytes| <= 4096
      modifies m`mem, m`head, m`free
      ensures ok <==> m.start <= U.Home(spaces[p], va) < m.end
      ensures ok ==> Valid() && m.free == old(m.free) && KernelKept(old(m.mem), own, m.mem, own)
      ensures ok ==> m.mem == PutAll(old(m.mem), Run(U.PhysOf(spaces[p], va), |bytes|), bytes)
      ensures ok && !CodeByte(slots[p].img.regions, va) ==> Unseen(p, slots, spaces, old(m.mem), m.mem)
    {
      hide Accounted, StaffIs, IsFreeList, Bounds, SlotsBut, SpaceOk, Backing, FrameOf, KernelKept, Unseen, ImageOk,
           PutAll, Lookup, InCode;
      SlotFacts(m.mem, m.free, own, p, slots, spaces);
      HasRoot(m.mem, m.free, own, p, spaces[p]);
      var addr := va % TWO64;
      var pa := m.LookupPa(slots[p].img.pagetable, addr, spaces[p]);
      ok := m.start <= pa < m.end;
      if !ok { return; }
      Backer(p, own, slots[p].img.regions, spaces[p], addr);
      CopyIn(p, addr / 4096, pa + addr % 4096, bytes);
    }

    /** sys_user_read on a buffer of less than 2^31 bytes, for the process in slot p. The bytes that arrive are
        stored at the addresses of the buffer one by one, whatever pages back it; it fails exactly if one of
        them has no memory behind it. The invariant is kept, and off p's code no other process sees a thing. */
    method ReadInto(p: nat, bufva: u64, count: nat, supply: seq<seq<byte>>) returns (ok: bool, ret: nat)
      requires Valid() && p < NPROC && slots[p].Occupied? && count < 0x8000_0000
      modifies m`mem, m`head, m`free
      ensures ok <==> AllLand(spaces[p], bufva, |Delivered(bufva, 0, count, supply)|, m.start, m.end)
      ensures ok ==> Valid() && m.free == old(m.free) && KernelKept(old(m.mem), own, m.mem, own)
      ensures ok ==> ret == |Delivered(bufva, 0, count, supply)|
      ensures ok ==> m.mem == PutAll(old(m.mem), Addresses(spaces[p], bufva, ret), Delivered(bufva, 0, count, supply))
      ensures ok && OffCode(slots[p].img.regions, bufva, ret) ==> Unseen(p, slots, spaces, old(m.mem), m.mem)
    {
      hide Accounted, StaffIs, IsFreeList, Bounds, SlotsBut, KernelKept, Unseen, PutAll, InCode, Delivered, AllLand,
           OffCode, Run, U.Room, U.PhysOf, U.Home, U.Offset, Given, Addresses, CodeByte;
      ghost var sp, m0, d := spaces[p], m.mem, Delivered(bufva, 0, count, supply);
      KernelRefl(m0, own);
      NothingUnseen(p, slots, spaces, m0);
      NothingRead(m0, sp, bufva, m.start, m.end);
      var rest := supply;
      ghost var got: seq<byte> := [];
      ok, ret := true, 0;
      while ret < count
        invariant ok && ret == |got| <= count && d == got + Delivered(bufva, ret, count, rest)
        invariant Valid() && m.free == old(m.free) && KernelKept(m0, own, m.mem, own)
        invariant AllLand(sp, bufva, ret, m.start, m.end) && m.mem == PutAll(m0, Addresses(sp, bufva, ret), got)
        invariant OffCode(slots[p].img.regions, bufva, ret) ==> Unseen(p, slots, spaces, m0, m.mem)
        decreases count - ret
      {
        var len := U.Room(bufva, ret, count);
        var bytes := Given(rest, len);
        PieceFits(bufva, ret, count);
        DeliveredStep(bufva, ret, count, rest);
        NextRun(sp, bufva, ret, |bytes|, m.start, m.end);
        if bytes == [] {
          assert d == got;
          return;
        }
        ghost var m1 := m.mem;
        ok := ReadPiece(p, bufva + ret, bytes);
        if !ok {
          Unbacked(sp, bufva, ret + |bytes|, |d|, m.start, m.end);
          return;
        }
        PutMore(m0, Addresses(sp, bufva, ret), got, Run(U.PhysOf(sp, bufva + ret), |bytes|), bytes);
        KernelTrans(m0, own, m1, own, m.mem, own);
        if OffCode(slots[p].img.regions, bufva, ret + |bytes|) {
          OffCodeParts(slots[p].img.regions, bufva, ret, |bytes|);
          UnseenTrans(p, slots, spaces, m0, m1, m.mem);
        }
        ret, got := ret + |bytes|, got + bytes;
        if |bytes| < len { return; }
        rest := if rest == [] then [] else rest[1..];
        assert d == got + Delivered(bufva, ret, count, rest);
      }
      assert d == got;
    }
  }
}
