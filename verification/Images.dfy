/** Process images as values: region lists, slots, and the facts about them that the operations of
    kernel/process.c rely on. */
module Images {
  import opened Sv39
  import opened PageTable
  import opened Lists
  import opened Memory
  import opened Ownership
  import Scheduler

  const NPROC: nat := Scheduler.NPROC

  /** A loadable ELF segment: where it goes, its kind, and the page it fills. */
  datatype ElfSegment = ElfSegment(va: u64, code: bool, page: Page) {
    function Region(): Region { Ownership.Region(va, 1, if code then CodeSegment else DataSegment) }
  }

  /** What elf_load takes for granted: aligned pages, none at address 0, which would mark a free entry of the
      region list, and no more of them than the list's page has entries. */
  predicate Plain(segs: seq<ElfSegment>)
  {
    |segs| <= 253 && forall i :: 0 <= i < |segs| ==> segs[i].va % 4096 == 0 && segs[i].va != 0
  }

  function Listed(segs: seq<ElfSegment>): seq<Region> { seq(|segs|, i requires 0 <= i < |segs| => segs[i].Region()) }

  lemma ListedStep(segs: seq<ElfSegment>, k: nat)
    requires k < |segs|
    ensures Listed(segs[..k + 1]) == Listed(segs[..k]) + [segs[k].Region()]
  {
  }

  datatype Slot = Vacant | Occupied(img: Image)

  /** Every occupied slot other than p is in order. */
  ghost predicate SlotsBut(p: nat, mem: Mem, free: seq<nat>, own: Owners, slots: seq<Slot>, spaces: seq<Space>)
    requires |slots| == |spaces|
  {
    forall q :: 0 <= q < |slots| && q != p && slots[q].Occupied? ==> SlotOk(mem, free, own, q, slots[q].img, spaces[q])
  }

  lemma SlotsKept(p: nat, mem: Mem, free: seq<nat>, own: Owners, mem': Mem, free': seq<nat>, own': Owners, start: nat,
                  end: nat, slots: seq<Slot>, spaces: seq<Space>)
    requires |slots| == |spaces| && SlotsBut(p, mem, free, own, slots, spaces)
    requires Accounted(mem, free, own, start, end) && Accounted(mem', free', own', start, end)
    requires Local(p, mem, own, mem', own')
    ensures SlotsBut(p, mem', free', own', slots, spaces)
  {
    hide SlotOk, Accounted, Local;
    forall q | 0 <= q < |slots| && q != p && slots[q].Occupied?
      ensures SlotOk(mem', free', own', q, slots[q].img, spaces[q])
    {
      OtherSlotKept(p, q, mem, free, own, mem', free', own', start, end, slots[q].img, spaces[q]);
    }
  }

  lemma HasRoot(mem: Mem, free: seq<nat>, own: Owners, p: nat, sp: Space)
    requires SpaceOk(mem, free, own, p, sp)
    ensures Holds(mem, free, sp) && Root in sp.tables
  {
  }

  lemma FirstUnmapped(pages: map<nat, u64>, v: nat)
    requires Unmapped(pages, v, 1)
    ensures v < NVPN && v !in pages
  {
  }

  lemma {:induction false} OnePage(va: u64, pages: map<nat, u64>, pa: u64, perm: Perm)
    requires va % 4096 == 0
    ensures Span(va, 4096) == 1
    ensures Mapped(pages, va / 4096, 0, pa, perm) == pages
    ensures Mapped(pages, va / 4096, 1, pa, perm) == pages[va / 4096 := MakePte(pa, perm)]
  {
    hide MakePte;
    OneStep(va);
    assert PteFor(pa, 0, perm) == MakePte(pa, perm);
  }

  lemma OneStep(va: u64)
    requires va % 4096 == 0
    ensures Span(va, 4096) == 1
  {
  }

  lemma WholePages(va: u64, npages: nat)
    requires va % 4096 == 0 && va + npages * 4096 <= MAXVA
    ensures UnmapSpan(va, npages * 4096) == npages
  {
  }

  /** Every kernel stack and every region list belongs to a process there is, and is the one it has. */
  ghost predicate Staffed(staff: map<nat, Use>, slots: seq<Slot>)
  {
    forall f :: f in staff && IsStaff(staff[f]) ==> Serves(staff[f], f, slots)
  }

  ghost predicate Serves(u: Use, f: nat, slots: seq<Slot>)
    requires IsStaff(u)
  {
    u.p < |slots| && slots[u.p].Occupied? && f == if u.KstackOf? then slots[u.p].img.kstack else slots[u.p].img.info
  }

  /** The two frames of a new process added, or those of a reaped one taken away. */
  ghost function Hired(staff: map<nat, Use>, p: nat, ks: nat, info: nat): map<nat, Use>
  {
    staff[ks := KstackOf(p)][info := InfoOf(p)]
  }

  ghost function Dismissed(staff: map<nat, Use>, ks: nat, info: nat): map<nat, Use> { staff - {ks} - {info} }

  /** A vacant slot has none; a new process brings its two. */
  lemma StaffHired(staff: map<nat, Use>, slots: seq<Slot>, p: nat, img: Image)
    requires Staffed(staff, slots) && p < |slots| && slots[p].Vacant?
    ensures Staffed(Hired(staff, p, img.kstack, img.info), slots[p := Occupied(img)])
  {
    var staff', slots' := Hired(staff, p, img.kstack, img.info), slots[p := Occupied(img)];
    forall f | f in staff' && IsStaff(staff'[f]) ensures Serves(staff'[f], f, slots') {
      if f != img.kstack && f != img.info { assert Serves(staff[f], f, slots); }
    }
  }

  lemma StaffKept(staff: map<nat, Use>, slots: seq<Slot>, p: nat, img: Image)
    requires Staffed(staff, slots) && p < |slots| && slots[p].Occupied?
    requires img.kstack == slots[p].img.kstack && img.info == slots[p].img.info
    ensures Staffed(staff, slots[p := Occupied(img)])
  {
    forall f | f in staff && IsStaff(staff[f]) ensures Serves(staff[f], f, slots[p := Occupied(img)]) {
      assert Serves(staff[f], f, slots);
    }
  }

  lemma StaffDismissed(staff: map<nat, Use>, slots: seq<Slot>, p: nat)
    requires Staffed(staff, slots) && p < |slots| && slots[p].Occupied?
    ensures Staffed(Dismissed(staff, slots[p].img.kstack, slots[p].img.info), slots[p := Vacant])
  {
    var staff' := Dismissed(staff, slots[p].img.kstack, slots[p].img.info);
    forall f | f in staff' && IsStaff(staff'[f]) ensures Serves(staff'[f], f, slots[p := Vacant]) {
      assert Serves(staff[f], f, slots);
    }
  }

  /** In terms of uses: no frame is the kernel stack or region list of anyone else, nor a second one. */
  ghost predicate StaffOnce(own: Owners, slots: seq<Slot>)
  {
    forall f :: f in own && IsStaff(own[f]) ==> Serves(own[f], f, slots)
  }

  /** No frame is a kernel stack or region list of p. */
  ghost predicate Unstaffed(p: nat, own: Owners)
  {
    forall f :: f in own ==> own[f] != KstackOf(p) && own[f] != InfoOf(p)
  }

  lemma VacantUnstaffed(own: Owners, staff: map<nat, Use>, slots: seq<Slot>, p: nat)
    requires StaffIs(own, staff) && Staffed(staff, slots) && p < |slots| && slots[p].Vacant?
    ensures Unstaffed(p, own)
  {
    StaffUses(own, staff, slots);
  }

  lemma StaffUses(own: Owners, staff: map<nat, Use>, slots: seq<Slot>)
    requires StaffIs(own, staff) && Staffed(staff, slots)
    ensures StaffOnce(own, slots)
  {
    hide Serves;
    forall f | f in own && IsStaff(own[f]) ensures Serves(own[f], f, slots) { assert f in staff; }
  }

  lemma RegionFacts(rs: seq<Region>, j: nat)
    requires RegionsOk(rs) && j < |rs|
    ensures RegionOk(rs[j]) && rs[j].va / 4096 + rs[j].npages <= NVPN
    ensures Reclaimed(rs[j].seg) ==> NoCode(rs, rs[j].va / 4096, rs[j].npages)
  {
    if Reclaimed(rs[j].seg) {
      forall w | rs[j].va / 4096 <= w < rs[j].va / 4096 + rs[j].npages ensures !InCode(rs, w) {
        assert Covers(rs[j], w);
        forall i | 0 <= i < |rs| && rs[i].seg.CodeSegment? ensures !Covers(rs[i], w) {
          assert if i < j then Disjoint(rs[i], rs[j]) else Disjoint(rs[j], rs[i]);
        }
      }
    }
  }

  /** Every page of a listed region is mapped. */
  ghost predicate AllListedMapped(rs: seq<Region>, pages: map<nat, u64>)
  {
    forall i, v :: 0 <= i < |rs| && Covers(rs[i], v) ==> v in pages
  }

  /** The regions of a new process. */
  function FixedThree(tf: u64, trapSec: u64): seq<Region>
  {
    [Region(USER_STACK_PAGE, 1, StackSegment), Region(tf, 1, ContextSegment), Region(trapSec, 1, SystemSegment)]
  }

  lemma FixedList(rs: seq<Region>, tf: u64, trapSec: u64, pages: map<nat, u64>)
    requires tf % 4096 == 0 && tf < MAXVA && trapSec % 4096 == 0 && trapSec < MAXVA
    requires rs == FixedThree(tf, trapSec)
    requires pages.Keys == {USER_STACK_PAGE / 4096, tf / 4096, trapSec / 4096}
    requires tf / 4096 !in {USER_STACK_PAGE / 4096, trapSec / 4096} && trapSec / 4096 != USER_STACK_PAGE / 4096
    ensures RegionsOk(rs) && FixedRegions(rs, tf / 4096) && AllListedMapped(rs, pages)
  {
  }

  lemma FixedBacking(p: nat, mem: Mem, own: Owners, mem': Mem, own': Owners, rs: seq<Region>, tf: u64, stack: u64,
                     trapSec: u64)
    requires TablesOnly(p, mem, own, mem', own') && (forall f :: f in own ==> f in mem)
    requires IsUse(own, tf / 4096, PageOf(p, tf / 4096)) && IsUse(own, stack / 4096, PageOf(p, USER_STACK_PAGE / 4096))
    requires trapSec / 4096 !in own
    requires rs == FixedThree(tf, trapSec)
    ensures Backing(own', p, rs, map[USER_STACK_PAGE / 4096 := MakePte(stack, ProtToType(3, true))]
                                 [tf / 4096 := MakePte(tf, ProtToType(3, false))]
                                 [trapSec / 4096 := MakePte(trapSec, ProtToType(5, false))])
    ensures FrameOf(MakePte(stack, ProtToType(3, true))) == stack / 4096
  {
    hide TablesOnly, RegionsOk, FrameOf, MakePte, ProtToType;
    TablesOnlyUse(p, mem, own, mem', own', tf / 4096);
    TablesOnlyUse(p, mem, own, mem', own', stack / 4096);
    SameKeys(p, mem, own, mem', own');
    EntryFacts(stack, 3, true);
    EntryFacts(tf, 3, false);
    EntryFacts(trapSec, 5, false);
  }

  lemma AboveStack(mem: Mem, free: seq<nat>, own: Owners, start: nat, end: nat, pa: u64)
    requires Accounted(mem, free, own, start, end) && pa / 4096 in own && USER_STACK_PAGE < start
    ensures pa / 4096 != USER_STACK_PAGE / 4096
  {
  }

  lemma StuckAt(sp: Space, v: nat, total: nat, n: nat, reclaim: bool, start: nat, end: nat)
    requires n < total && !CanUnmap(sp, v + n, reclaim, start, end)
    ensures !AllUnmappable(sp, v, total, reclaim, start, end)
  {
  }

  lemma SameKeys(p: nat, mem: Mem, own: Owners, mem': Mem, own': Owners)
    requires TablesOnly(p, mem, own, mem', own')
    ensures own'.Keys == own.Keys && mem'.Keys == mem.Keys
  {
  }

  lemma FirstOwned(mem: Mem, free: seq<nat>, own: Owners, start: nat, end: nat)
    requires Accounted(mem, free, own, start, end) && free != []
    ensures free[0] in own
  {
  }

  lemma OwnedExist(mem: Mem, free: seq<nat>, own: Owners, start: nat, end: nat)
    requires Accounted(mem, free, own, start, end)
    ensures forall f :: f in own ==> f in mem
  {
  }

  lemma InUse(mem: Mem, free: seq<nat>, own: Owners, start: nat, end: nat, f: nat)
    requires Accounted(mem, free, own, start, end) && f in own && own[f] != FreeUse
    ensures f !in free && f in mem
  {
  }

  lemma AccountedFrame(mem: Mem, free: seq<nat>, own: Owners, start: nat, end: nat, mem': Mem)
    requires Accounted(mem, free, own, start, end) && mem'.Keys == mem.Keys
    ensures Accounted(mem', free, own, start, end)
  {
  }

  /** memset of the 35 trapframe words, then regs.sp (word 1) set to USER_STACK_TOP. */
  function NewTrapframe(): (t: seq<u64>)
    ensures |t| == 35 && forall i :: 0 <= i < 35 ==> t[i] == if i == 1 then 0x7fff_f000 else 0
  {
    seq(35, i => if i == 1 then 0x7fff_f000 else 0)
  }

  /** The saved context in frame tf is that of a process that never ran. */
  ghost predicate NewContext(mem: Mem, tf: nat) { tf in mem && mem[tf][..35] == NewTrapframe() }

  /** The trapframe is mapped at its own physical address. */
  ghost function TrapframeUse(p: nat, free: seq<nat>): Use { PageOf(p, if free == [] then 0 else free[0]) }

  ghost predicate IsTrapframe(mem: Mem, own: Owners, p: nat, tf: u64)
  {
    && tf % 4096 == 0 && tf < MAXVA && tf / 4096 in mem && mem[tf / 4096][..35] == NewTrapframe()
    && Held(mem, own, tf / 4096, PageOf(p, tf / 4096), mem[tf / 4096])
  }

  ghost predicate IsDirectory(mem: Mem, own: Owners, p: nat, pt: u64)
  {
    pt % 4096 == 0 && Held(mem, own, pt / 4096, TableOf(p), ZeroPage())
  }

  lemma KeptUses(own: Owners, own0: Owners, p: nat, ks: nat, info: nat, tf: nat, stack: nat)
    requires Keeps(own0, own)
    requires IsUse(own0, ks, KstackOf(p)) && IsUse(own0, info, InfoOf(p)) && IsUse(own0, tf, PageOf(p, tf))
    requires IsUse(own0, stack, PageOf(p, USER_STACK_PAGE / 4096))
    ensures IsUse(own, ks, KstackOf(p)) && IsUse(own, info, InfoOf(p)) && IsUse(own, tf, PageOf(p, tf))
    ensures IsUse(own, stack, PageOf(p, USER_STACK_PAGE / 4096))
  {
  }

  /** The stack page is mapped to a frame private to slot p. */
  ghost predicate StackMapped(own: Owners, p: nat, pages: map<nat, u64>)
  {
    && USER_STACK_PAGE / 4096 in pages
    && IsUse(own, FrameOf(pages[USER_STACK_PAGE / 4096]), PageOf(p, USER_STACK_PAGE / 4096))
  }

  lemma GainedNone(mem: Mem, free: seq<nat>, own: Owners, start: nat, end: nat, rs: seq<Region>, pages: map<nat, u64>)
    requires Accounted(mem, free, own, start, end)
    ensures GainedRegions(free, free, rs, pages, 0) && own == Release(own, free)
  {
  }

  lemma GainedSystem(free: seq<nat>, free': seq<nat>, rs: seq<Region>, pages: map<nat, u64>, j: nat)
    requires j < |rs| && rs[j].seg.SystemSegment? && GainedRegions(free, free', rs, pages, j)
    ensures GainedRegions(free, free', rs, pages, j + 1)
  {
    hide FrameOf;
    forall f ensures Returned(rs, pages, j + 1, f) <==> Returned(rs, pages, j, f) { }
  }

  lemma {:induction false} FreedGrows(pages: map<nat, u64>, v: nat, n: nat, free: seq<nat>, reclaim: bool,
                                      free': seq<nat>)
    requires AllMapped(pages, v, n) && free' == if reclaim then Freed(pages, v, n, free) else free
    ensures forall f :: f in free ==> f in free'
  {
    forall f | f in free ensures f in free' {
      if reclaim { InFreed(pages, v, n, free, f); }
    }
  }

  lemma SlotFacts(mem: Mem, free: seq<nat>, own: Owners, p: nat, slots: seq<Slot>, spaces: seq<Space>)
    requires |slots| == |spaces| && p < |slots| && slots[p].Occupied?
    requires SlotsBut(|slots|, mem, free, own, slots, spaces)
    ensures SlotOk(mem, free, own, p, slots[p].img, spaces[p])
    ensures IsUse(own, slots[p].img.pagetable, TableOf(p))
  {
  }

  lemma SlotsAll(p: nat, mem: Mem, free: seq<nat>, own: Owners, slots: seq<Slot>, spaces: seq<Space>)
    requires |slots| == |spaces| && SlotsBut(|slots|, mem, free, own, slots, spaces)
    ensures SlotsBut(p, mem, free, own, slots, spaces)
  {
  }

  lemma SlotsVacate(p: nat, mem: Mem, free: seq<nat>, own: Owners, slots: seq<Slot>, spaces: seq<Space>)
    requires |slots| == |spaces| && p < |slots| && SlotsBut(p, mem, free, own, slots, spaces)
    ensures SlotsBut(|slots|, mem, free, own, slots[p := Vacant], spaces)
  {
    hide SlotOk;
  }

  /** What handing back one frame of slot p means for the account. */
  lemma GiveFacts(p: nat, mem: Mem, free: seq<nat>, own: Owners, start: nat, end: nat, f: nat, mem': Mem,
                  free': seq<nat>, own': Owners)
    requires Accounted(mem, free, own, start, end) && f in own && HeldBy(own[f], p)
    requires own' == own[f := FreeUse] && free' == [f] + free && mem'.Keys == mem.Keys
    requires forall g :: g in mem' && g != f ==> mem'[g] == mem[g]
    ensures Local(p, mem, own, mem', own') && own' == Release(own, free')
  {
    OneFrameLocal(p, mem, own, f, FreeUse, mem');
  }

  lemma GiveSpace(p: nat, mem: Mem, free: seq<nat>, own: Owners, start: nat, end: nat, f: nat, img: Image, sp: Space,
                  mem': Mem, free': seq<nat>, own': Owners)
    requires Accounted(mem, free, own, start, end) && Accounted(mem', free', own', start, end)
    requires f in own && own[f] == KstackOf(p)
    requires own' == own[f := FreeUse] && mem'.Keys == mem.Keys && forall g :: g in mem' && g != f ==> mem'[g] == mem[g]
    requires SlotOk(mem, free, own, p, img, sp)
    ensures SpaceOk(mem', free', own', p, sp) && Backing(own', p, img.regions, sp.pages)
    ensures IsUse(own', img.info, InfoOf(p)) && IsUse(own', img.pagetable, TableOf(p))
  {
    hide Backing, Holds, RegionsOk, Managed;
    HasRoot(mem, free, own, p, sp);
    SpaceKept(p, mem, free, own, mem', free', own', sp);
    BackingKept(p, own, own', img.regions, sp.pages);
  }

  lemma TrimmedUse(p: nat, mem: Mem, own: Owners, mem': Mem, own': Owners, f: nat, u: Use)
    requires Trimmed(p, 0, NVPN, mem, own, mem', own') && IsUse(own, f, u) && !u.PageOf?
    ensures IsUse(own', f, u)
  {
  }

  lemma ReapedFree(f0: seq<nat>, f1: seq<nat>, f2: seq<nat>, f4: seq<nat>, img: Image, pages: map<nat, u64>)
    requires f1 == [img.kstack] + f0 && f4 == [img.pagetable] + ([img.info] + f2)
    requires GainedRegions(f1, f2, img.regions, pages, |img.regions|)
    ensures forall f :: f in f1 ==> f in f2
    ensures GivenBack(f0, f4, {img.kstack, img.info, img.pagetable}, img.regions, pages)
  {
    hide Returned;
  }

  /** The free list gained exactly these frames and the pages of the reclaimed regions. */
  ghost predicate GivenBack(free: seq<nat>, free': seq<nat>, fs: set<nat>, rs: seq<Region>, pages: map<nat, u64>)
  {
    forall f :: f in free' <==> f in free || f in fs || Returned(rs, pages, |rs|, f)
  }

  lemma ReleaseChain(own: Owners, f1: seq<nat>, f2: seq<nat>, f3: seq<nat>, f4: seq<nat>)
    requires forall f :: f in f1 ==> f in f2
    requires forall f :: f in f2 ==> f in f3
    requires forall f :: f in f3 ==> f in f4
    ensures Release(Release(Release(Release(own, f1), f2), f3), f4) == Release(own, f4)
  {
  }

  lemma TablesOnlyRefl(p: nat, mem: Mem, own: Owners)
    ensures TablesOnly(p, mem, own, mem, own)
  {
  }

  /** Mapping and listing a segment at a page that was not mapped keeps the slot in order. */
  lemma SegmentAdded(p: nat, mem: Mem, own: Owners, mem': Mem, own': Owners, img: Image, sp: Space, seg: ElfSegment,
                     pa: u64)
    requires Backing(own, p, img.regions, sp.pages) && ImageOk(own, p, img) && AllListedMapped(img.regions, sp.pages)
    requires TablesOnly(p, mem, own, mem', own') && Keeps(own, own') && (forall f :: f in own ==> f in mem)
    requires IsUse(own, pa / 4096, if seg.code then CodeUse else PageOf(p, seg.va / 4096))
    requires seg.va / 4096 !in sp.pages && seg.va % 4096 == 0 && seg.va < MAXVA
    ensures var img' := img.(regions := img.regions + [seg.Region()]);
            var pages' := sp.pages[seg.va / 4096 := MakePte(pa, ProtToType(7, true))];
            Backing(own', p, img'.regions, pages') && ImageOk(own', p, img') && AllListedMapped(img'.regions, pages')
  {
    hide TablesOnly, Backing, MakePte, ProtToType;
    var rs, rs', v := img.regions, img.regions + [seg.Region()], seg.va / 4096;
    TablesOnlyBacking(p, mem, own, mem', own', rs, sp.pages);
    RegionAppended(rs, sp.pages, seg, MakePte(pa, ProtToType(7, true)));
    EntryFacts(pa, 7, true);
    BackingAdd(own', p, rs, rs', sp.pages, v, MakePte(pa, ProtToType(7, true)));
  }

  lemma RegionAppended(rs: seq<Region>, pages: map<nat, u64>, seg: ElfSegment, pte: u64)
    requires RegionsOk(rs) && AllListedMapped(rs, pages)
    requires seg.va / 4096 !in pages && seg.va % 4096 == 0 && seg.va < MAXVA
    ensures var rs' := rs + [seg.Region()];
            && RegionsOk(rs')
            && AllListedMapped(rs', pages[seg.va / 4096 := pte])
            && (forall w :: w in pages ==> (InCode(rs, w) <==> InCode(rs', w)))
            && (InCode(rs', seg.va / 4096) <==> seg.code)
  {
    hide InCode;
    var rs', v := rs + [seg.Region()], seg.va / 4096;
    forall w ensures InCode(rs', w) <==> InCode(rs, w) || (seg.code && w == v) {
      InCodeAppend(rs, seg.Region(), w);
    }
    NotListedNotCode(rs, pages, v);
    RegionsAppend(rs, seg.Region());
  }

  lemma NotListedNotCode(rs: seq<Region>, pages: map<nat, u64>, v: nat)
    requires AllListedMapped(rs, pages) && v !in pages
    ensures !InCode(rs, v)
  {
  }

  lemma RegionsAppend(rs: seq<Region>, r: Region)
    requires RegionsOk(rs) && RegionOk(r) && forall i :: 0 <= i < |rs| ==> Disjoint(rs[i], r)
    ensures RegionsOk(rs + [r])
  {
    hide Disjoint;
  }

  lemma InCodeAppend(rs: seq<Region>, r: Region, w: nat)
    ensures InCode(rs + [r], w) <==> InCode(rs, w) || (r.seg.CodeSegment? && Covers(r, w))
  {
    var rs' := rs + [r];
    if InCode(rs, w) {
      var i :| 0 <= i < |rs| && rs[i].seg.CodeSegment? && Covers(rs[i], w);
      assert rs'[i] == rs[i];
    }
    assert rs'[|rs|] == r;
  }

  lemma RootUse(mem: Mem, free: seq<nat>, own: Owners, p: nat, sp: Space)
    requires SpaceOk(mem, free, own, p, sp)
    ensures Root in sp.tables && IsUse(own, sp.tables[Root], TableOf(p))
  {
  }

  lemma DroppedFree(f0: seq<nat>, f1: seq<nat>, f2: seq<nat>, img: Image, pages: map<nat, u64>)
    requires f2 == [img.pagetable] + f1 && GainedRegions(f0, f1, img.regions, pages, |img.regions|)
    ensures GivenBack(f0, f2, {img.pagetable}, img.regions, pages)
  {
    hide Returned;
  }

  lemma KeptUses2(own: Owners, own0: Owners, p: nat, ks: nat, info: nat)
    requires Keeps(own0, own) && IsUse(own0, ks, KstackOf(p)) && IsUse(own0, info, InfoOf(p))
    ensures IsUse(own, ks, KstackOf(p)) && IsUse(own, info, InfoOf(p))
  {
  }

  lemma WriteLocal(p: nat, mem: Mem, own: Owners, f: nat, page: Page)
    requires f in own && HeldBy(own[f], p) && f in mem
    ensures Local(p, mem, own, mem[f := page], own)
  {
  }

  lemma LocalKeys(p: nat, mem: Mem, own: Owners, mem': Mem, own': Owners)
    requires Local(p, mem, own, mem', own')
    ensures own'.Keys == own.Keys && mem'.Keys == mem.Keys
  {
  }

  /** Frame number alloc_page will hand out, 0 for none. */
  ghost function FirstFree(free: seq<nat>): nat { if free == [] then 0 else free[0] }

  /** Page v mapped readable and writable to the first free frame. */
  ghost function WithFresh(pages: map<nat, u64>, v: nat, free: seq<nat>): map<nat, u64>
  {
    pages[v := MakePte(FirstFree(free) * 4096 % TWO64, ProtToType(3, true))]
  }

  lemma TakeAdds(mem: Mem, free: seq<nat>, own: Owners, start: nat, end: nat, pa: u64, u: Use, own': Owners)
    requires Accounted(mem, free, own, start, end)
    requires if pa == 0 then own' == own
             else pa / 4096 in own && own[pa / 4096] == FreeUse && own' == own[pa / 4096 := u]
    ensures Adds(mem, own, mem, own')
  {
  }

  lemma NoFrameZero(mem: Mem, free: seq<nat>, own: Owners, start: nat, end: nat)
    requires Accounted(mem, free, own, start, end) && Bounds(mem, free, start, end)
    ensures 0 !in own
  {
  }

  lemma PageAdded(p: nat, mem: Mem, own: Owners, mem': Mem, own': Owners, img: Image, sp: Space, v: nat, pa: u64)
    requires Backing(own, p, img.regions, sp.pages) && ImageOk(own, p, img)
    requires TablesOnly(p, mem, own, mem', own') && Keeps(own, own') && forall f :: f in own ==> f in mem
    requires v !in sp.pages && 0 !in own
    requires pa == 0 || IsUse(own, pa / 4096, if InCode(img.regions, v) then CodeUse else PageOf(p, v))
    ensures Backing(own', p, img.regions, sp.pages[v := MakePte(pa, ProtToType(3, true))]) && ImageOk(own', p, img)
  {
    hide TablesOnly, Backing, MakePte, ProtToType, InCode;
    TablesOnlyBacking(p, mem, own, mem', own', img.regions, sp.pages);
    SameKeys(p, mem, own, mem', own');
    EntryFacts(pa, 3, true);
    BackingAdd(own', p, img.regions, img.regions, sp.pages, v, MakePte(pa, ProtToType(3, true)));
  }

  lemma SlotRoot(p: nat, mem: Mem, free: seq<nat>, own: Owners, img: Image, sp: Space)
    requires SlotOk(mem, free, own, p, img, sp)
    ensures SpaceOk(mem, free, own, p, sp) && Root in sp.tables && sp.tables[Root] == img.pagetable
  {
    hide SpaceOk, Backing, ImageOk;
    HasRoot(mem, free, own, p, sp);
  }

  lemma FreshSlot(p: nat, mem: Mem, free: seq<nat>, own: Owners, start: nat, end: nat, mem': Mem, free': seq<nat>,
                  own': Owners, img: Image, sp: Space, sp': Space, v: nat, pa: u64)
    requires Accounted(mem, free, own, start, end) && Bounds(mem, free, start, end)
    requires SlotOk(mem, free, own, p, img, sp) && TablesOnly(p, mem, own, mem', own')
    requires SpaceOk(mem', free', own', p, sp') && sp'.tables[Root] == img.pagetable
    requires v !in sp.pages && sp'.pages == sp.pages[v := MakePte(pa, ProtToType(3, true))]
    requires pa == 0 || IsUse(own, pa / 4096, if InCode(img.regions, v) then CodeUse else PageOf(p, v))
    ensures SlotOk(mem', free', own', p, img, sp')
  {
    hide Accounted, Bounds, SpaceOk, TablesOnly, Backing, ImageOk, MakePte, ProtToType, InCode, Keeps;
    TablesOnlyKeeps(p, mem, free, own, start, end, mem', own');
    OwnedExist(mem, free, own, start, end);
    NoFrameZero(mem, free, own, start, end);
    PageAdded(p, mem, own, mem', own', img, sp, v, pa);
  }

  lemma AddsRoot(mem: Mem, own: Owners, mem': Mem, own': Owners, p: nat, tf: u64, pt: u64)
    requires Adds(mem, own, mem', own') && IsTrapframe(mem, own, p, tf) && IsDirectory(mem, own, p, pt)
    ensures IsTrapframe(mem', own', p, tf) && IsDirectory(mem', own', p, pt)
  {
    hide Adds;
    AddsHeld(mem, own, mem', own', tf / 4096, PageOf(p, tf / 4096), mem[tf / 4096]);
    AddsHeld(mem, own, mem', own', pt / 4096, TableOf(p), ZeroPage());
  }

  lemma CoveredInCode(rs: seq<Region>, r: Region, v: nat)
    requires r in rs && Covers(r, v)
    ensures r.seg.CodeSegment? ==> InCode(rs, v)
  {
  }

  /** A frame that a process maps is neither free nor a page table. */
  lemma StoreTarget(p: nat, mem: Mem, free: seq<nat>, own: Owners, start: nat, end: nat, rs: seq<Region>,
                    pages: map<nat, u64>, v: nat)
    requires Accounted(mem, free, own, start, end) && Backing(own, p, rs, pages) && v in pages
    ensures var f := FrameOf(pages[v]); f !in free && (f in own ==> own[f] == CodeUse || own[f].PageOf?)
  {
    hide FrameOf, InCode, Managed;
    assert Backed(own, p, rs, v, pages[v]);
  }

  lemma StoreKeepsSlots(mem: Mem, free: seq<nat>, own: Owners, start: nat, end: nat, f: nat, page: Page,
                        slots: seq<Slot>, spaces: seq<Space>)
    requires |slots| == |spaces| && SlotsBut(|slots|, mem, free, own, slots, spaces)
    requires Accounted(mem, free, own, start, end)
    requires f in mem && (f in own ==> own[f] == CodeUse || own[f].PageOf?)
    ensures SlotsBut(|slots|, mem[f := page], free, own, slots, spaces) && KernelKept(mem, own, mem[f := page], own)
  {
    hide Backing, ImageOk, Managed, Holds;
    forall q | 0 <= q < |slots| && slots[q].Occupied?
      ensures SlotOk(mem[f := page], free, own, q, slots[q].img, spaces[q])
    {
      assert SlotOk(mem, free, own, q, slots[q].img, spaces[q]);
      SpaceKept(q, mem, free, own, mem[f := page], free, own, spaces[q]);
    }
  }

  /** Frame f belongs to the process: kernel stack, saved context, region list, page table or mapped page. */
  ghost predicate Reaches(img: Image, sp: Space, f: nat)
  {
    || f in {img.kstack, img.trapframe, img.info} || f in sp.tables.Values
    || exists v :: v in sp.pages && FrameOf(sp.pages[v]) == f
  }

  lemma ReachedUse(mem: Mem, free: seq<nat>, own: Owners, q: nat, img: Image, sp: Space, f: nat)
    requires SlotOk(mem, free, own, q, img, sp) && f in own && Reaches(img, sp, f)
    ensures own[f] == CodeUse || HeldBy(own[f], q)
  {
    hide FrameOf, InCode, Holds, RegionsOk, FixedRegions;
    if v :| v in sp.pages && FrameOf(sp.pages[v]) == f { assert Backed(own, q, img.regions, v, sp.pages[v]); }
  }

  lemma NotReached(mem: Mem, free: seq<nat>, own: Owners, q: nat, img: Image, sp: Space, f: nat)
    requires SlotOk(mem, free, own, q, img, sp) && f in own && own[f] in {FreeUse, KernelUse}
    ensures !Reaches(img, sp, f)
  {
    if Reaches(img, sp, f) { ReachedUse(mem, free, own, q, img, sp, f); }
  }

  lemma FreeFacts(mem: Mem, head: nat, free: seq<nat>, own: Owners, start: nat, end: nat, f: nat)
    requires IsFreeList(mem, head, free) && Accounted(mem, free, own, start, end) && f in free
    ensures NoDup(free) && Managed(f, start, end) && f in own && own[f] == FreeUse
  {
  }

  /** No page below the user stack. */
  ghost predicate HighPages(pages: map<nat, u64>) { forall w :: w in pages ==> w * 4096 >= USER_STACK_PAGE }

  lemma FixedHigh(mem: Mem, free: seq<nat>, own: Owners, start: nat, end: nat, tf: u64, trapSec: u64,
                  pages: map<nat, u64>)
    requires Accounted(mem, free, own, start, end) && tf / 4096 in own && USER_STACK_PAGE < start
    requires USER_STACK_PAGE < trapSec
    requires pages.Keys == {USER_STACK_PAGE / 4096, tf / 4096, trapSec / 4096}
    ensures HighPages(pages)
  {
  }

  /** A program whose pages lie below the user stack, no two of them the same. */
  ghost predicate ProgramOk(segs: seq<ElfSegment>)
  {
    && (forall i :: 0 <= i < |segs| ==> segs[i].va < USER_STACK_PAGE)
    && (forall i, j :: 0 <= i < j < |segs| ==> segs[i].va / 4096 != segs[j].va / 4096)
  }

  /** The page of seg is mapped as the loader maps it and holds what the file has. */
  ghost predicate Loaded(mem: Mem, pages: map<nat, u64>, seg: ElfSegment)
  {
    && seg.va / 4096 in pages
    && var pte := pages[seg.va / 4096];
       && FrameOf(pte) in mem && mem[FrameOf(pte)] == seg.page
       && pte == MakePte(FrameOf(pte) * 4096 % TWO64, ProtToType(7, true))
  }

  ghost predicate AllLoaded(mem: Mem, pages: map<nat, u64>, segs: seq<ElfSegment>)
  {
    forall i :: 0 <= i < |segs| ==> Loaded(mem, pages, segs[i])
  }

  ghost predicate AddsPage(pages: map<nat, u64>, pages': map<nat, u64>, v: nat)
  {
    && (forall w :: w in pages' <==> w in pages || w == v)
    && (forall w :: w in pages && w != v ==> w in pages' && pages'[w] == pages[w])
  }

  /** Every page is above the stack's bottom or one of the first k segments. */
  ghost predicate HighOrLoaded(pages: map<nat, u64>, segs: seq<ElfSegment>, k: nat)
    requires k <= |segs|
  {
    forall w :: w in pages ==> w * 4096 >= USER_STACK_PAGE || exists j :: 0 <= j < k && segs[j].va / 4096 == w
  }

  lemma NoneLoaded(mem: Mem, pages: map<nat, u64>, segs: seq<ElfSegment>)
    requires HighPages(pages)
    ensures AllLoaded(mem, pages, segs[..0]) && HighOrLoaded(pages, segs, 0)
  {
  }

  lemma DoesNotFit(pages: map<nat, u64>, segs: seq<ElfSegment>, k: nat)
    requires k < |segs| && HighOrLoaded(pages, segs, k)
    ensures segs[k].va >= MAXVA || segs[k].va / 4096 in pages ==> !ProgramOk(segs)
  {
  }

  lemma LoadedStep(p: nat, mem: Mem, free: seq<nat>, own: Owners, mem': Mem, own': Owners, img: Image, sp: Space,
                   pages': map<nat, u64>, segs: seq<ElfSegment>, k: nat)
    requires k < |segs| && AllLoaded(mem, sp.pages, segs[..k]) && HighOrLoaded(sp.pages, segs, k)
    requires SlotOk(mem, free, own, p, img, sp) && TablesOnly(p, mem, own, mem', own')
    requires segs[k].va / 4096 !in sp.pages && AddsPage(sp.pages, pages', segs[k].va / 4096)
    requires Loaded(mem', pages', segs[k])
    ensures AllLoaded(mem', pages', segs[..k + 1]) && HighOrLoaded(pages', segs, k + 1)
  {
    hide MakePte, ProtToType, FrameOf, SpaceOk, ImageOk, InCode, TablesOnly;
    forall i | 0 <= i < k ensures Loaded(mem', pages', segs[i]) {
      assert Loaded(mem, sp.pages, segs[..k][i]);
      var v := segs[i].va / 4096;
      assert Backed(own, p, img.regions, v, sp.pages[v]);
      PageKept(p, mem, own, mem', own', FrameOf(sp.pages[v]));
    }
  }

  lemma SubmapStep(a: map<nat, u64>, b: map<nat, u64>, b': map<nat, u64>, v: nat)
    requires Submap(a, b) && AddsPage(b, b', v) && v !in b
    ensures Submap(a, b')
  {
  }

  lemma PageKept(p: nat, mem: Mem, own: Owners, mem': Mem, own': Owners, f: nat)
    requires TablesOnly(p, mem, own, mem', own') && f in mem && (f in own ==> own[f] == CodeUse || own[f].PageOf?)
    ensures f in mem' && mem'[f] == mem[f]
  {
  }

  lemma SegmentLoaded(p: nat, mem: Mem, own: Owners, mem': Mem, own': Owners, pages: map<nat, u64>, seg: ElfSegment,
                      u: Use, pa: u64)
    requires TablesOnly(p, mem, own, mem', own') && IsUse(own, pa / 4096, u) && (u == CodeUse || u.PageOf?)
    requires pa % 4096 == 0 && pa / 4096 in mem && mem[pa / 4096] == seg.page
    ensures Loaded(mem', pages[seg.va / 4096 := MakePte(pa, ProtToType(7, true))], seg)
  {
    hide TablesOnly, ProtToType;
    PageKept(p, mem, own, mem', own', pa / 4096);
    MakePteFields(pa, ProtToType(7, true));
  }

  /** Every region but the system page can be unmapped, and its frames handed back where that is due. */
  ghost predicate Removable(sp: Space, rs: seq<Region>, start: nat, end: nat) { RemovableTo(sp, rs, |rs|, start, end) }

  ghost predicate RemovableTo(sp: Space, rs: seq<Region>, k: nat, start: nat, end: nat)
    requires k <= |rs|
  {
    forall j :: 0 <= j < k && !rs[j].seg.SystemSegment? ==>
      AllUnmappable(sp, rs[j].va / 4096, rs[j].npages, Reclaimed(rs[j].seg), start, end)
  }

  lemma RemovableStep(sp: Space, sp': Space, rs: seq<Region>, k: nat, start: nat, end: nat)
    requires k < |rs| && RemovableTo(sp, rs, k, start, end) && Submap(sp'.pages, sp.pages)
    requires || rs[k].seg.SystemSegment?
             || AllUnmappable(sp', rs[k].va / 4096, rs[k].npages, Reclaimed(rs[k].seg), start, end)
    ensures RemovableTo(sp, rs, k + 1, start, end)
  {
    hide FrameOf, PteFlags;
    if !rs[k].seg.SystemSegment? {
      forall w | rs[k].va / 4096 <= w < rs[k].va / 4096 + rs[k].npages
        ensures CanUnmap(sp, w, Reclaimed(rs[k].seg), start, end)
      {
        assert CanUnmap(sp', w, Reclaimed(rs[k].seg), start, end);
      }
    }
  }

  lemma RemovableAll(sp: Space, rs: seq<Region>, start: nat, end: nat)
    ensures Removable(sp, rs, start, end) ==>
              forall i :: 0 <= i < |rs| && rs[i].seg.DataSegment? ==> AllMapped(sp.pages, rs[i].va / 4096, rs[i].npages)
  {
    hide FrameOf, PteFlags;
    if Removable(sp, rs, start, end) {
      forall i | 0 <= i < |rs| && rs[i].seg.DataSegment? ensures AllMapped(sp.pages, rs[i].va / 4096, rs[i].npages) {
        forall w | rs[i].va / 4096 <= w < rs[i].va / 4096 + rs[i].npages ensures w in sp.pages {
          assert CanUnmap(sp, w, Reclaimed(rs[i].seg), start, end);
        }
      }
    }
  }

  /** The listed pages whose frames are handed back have frames that can be. */
  ghost predicate Handable(own: Owners, rs: seq<Region>, pages: map<nat, u64>)
  {
    forall i, w :: 0 <= i < |rs| && Covers(rs[i], w) && Reclaimed(rs[i].seg) && w in pages ==> FrameOf(pages[w]) in own
  }

  /** So a process with all listed pages in place can be taken down. */
  lemma HandableRemovable(p: nat, mem: Mem, free: seq<nat>, own: Owners, start: nat, end: nat, img: Image, sp: Space)
    requires SlotOk(mem, free, own, p, img, sp) && Accounted(mem, free, own, start, end)
    requires AllListedMapped(img.regions, sp.pages) && Handable(own, img.regions, sp.pages)
    ensures Removable(sp, img.regions, start, end)
  {
    hide FrameOf, InCode, Managed, RegionsOk, FixedRegions, PteFlags, PteR;
    var rs := img.regions;
    forall j, w | 0 <= j < |rs| && Covers(rs[j], w) ensures CanUnmap(sp, w, Reclaimed(rs[j].seg), start, end) {
      assert Backed(own, p, rs, w, sp.pages[w]);
      ReadableFlags(sp.pages[w]);
    }
  }

  lemma FixedHandable(p: nat, mem: Mem, free: seq<nat>, own: Owners, img: Image, sp: Space)
    requires SlotOk(mem, free, own, p, img, sp) && |img.regions| == 3 && StackMapped(own, p, sp.pages)
    ensures Handable(own, img.regions, sp.pages)
  {
    hide FrameOf, RegionsOk, Backing, SpaceOk;
  }

  lemma MoreHandable(own: Owners, own': Owners, rs: seq<Region>, pages: map<nat, u64>, pages': map<nat, u64>, r: Region)
    requires AllListedMapped(rs, pages) && own'.Keys == own.Keys && r.npages == 1 && r.va / 4096 !in pages
    requires AddsPage(pages, pages', r.va / 4096) && FrameOf(pages'[r.va / 4096]) in own'
    ensures Handable(own, rs, pages) ==> Handable(own', rs + [r], pages')
  {
    hide FrameOf;
  }

  /** The pages of regions j on are as they were. */
  ghost predicate StillMapped(rs: seq<Region>, j: nat, pages: map<nat, u64>, pages': map<nat, u64>)
  {
    forall i, w :: j <= i < |rs| && Covers(rs[i], w) && w in pages ==> w in pages'
  }

  lemma NoneRemoved(rs: seq<Region>, pages: map<nat, u64>)
    ensures StillMapped(rs, 0, pages, pages) && Submap(pages, pages)
  {
  }

  lemma SkippedRegion(rs: seq<Region>, j: nat, pages: map<nat, u64>, pages': map<nat, u64>)
    requires StillMapped(rs, j, pages, pages')
    ensures StillMapped(rs, j + 1, pages, pages')
  {
  }

  lemma RemovedRegion(rs: seq<Region>, j: nat, pages: map<nat, u64>, pages': map<nat, u64>)
    requires RegionsOk(rs) && j < |rs| && StillMapped(rs, j, pages, pages') && Submap(pages', pages)
    ensures var pages2 := Without(pages', rs[j].va / 4096, rs[j].npages);
            StillMapped(rs, j + 1, pages, pages2) && Submap(pages2, pages)
  {
    forall i, w | j < i < |rs| && Covers(rs[i], w) ensures !Covers(rs[j], w) { assert Disjoint(rs[j], rs[i]); }
  }

  lemma NotRemovable(sp: Space, sp': Space, rs: seq<Region>, j: nat, start: nat, end: nat)
    requires j < |rs| && StillMapped(rs, j, sp.pages, sp'.pages) && Submap(sp'.pages, sp.pages)
    requires !rs[j].seg.SystemSegment?
    requires !AllUnmappable(sp', rs[j].va / 4096, rs[j].npages, Reclaimed(rs[j].seg), start, end)
    ensures !Removable(sp, rs, start, end)
  {
    hide FrameOf, PteFlags;
    var w :| rs[j].va / 4096 <= w < rs[j].va / 4096 + rs[j].npages
             && !CanUnmap(sp', w, Reclaimed(rs[j].seg), start, end);
    assert Covers(rs[j], w);
    assert !CanUnmap(sp, w, Reclaimed(rs[j].seg), start, end);
  }

  /** Stack, trapframe and trap vector are mapped as alloc_process maps them, the last two for the kernel only. */
  ghost predicate HasFixed(pages: map<nat, u64>, tf: nat, trapSec: u64)
  {
    && USER_STACK_PAGE / 4096 in pages && tf in pages && trapSec / 4096 in pages
    && var stack := pages[USER_STACK_PAGE / 4096];
    && stack == MakePte(FrameOf(stack) * 4096 % TWO64, ProtToType(3, true))
    && pages[tf] == MakePte(tf * 4096 % TWO64, ProtToType(3, false))
    && pages[trapSec / 4096] == MakePte(trapSec, ProtToType(5, false))
  }

  lemma FixedEntries(tf: u64, stack: u64, trapSec: u64, pages: map<nat, u64>)
    requires tf % 4096 == 0 && stack % 4096 == 0 && tf < MAXVA
    requires tf / 4096 != USER_STACK_PAGE / 4096 && trapSec / 4096 !in {USER_STACK_PAGE / 4096, tf / 4096}
    requires pages == map[USER_STACK_PAGE / 4096 := MakePte(stack, ProtToType(3, true))]
                         [tf / 4096 := MakePte(tf, ProtToType(3, false))]
                         [trapSec / 4096 := MakePte(trapSec, ProtToType(5, false))]
    ensures HasFixed(pages, tf / 4096, trapSec) && Homed(pages, tf / 4096)
  {
    hide ProtToType, MakePte, FrameOf;
    EntryFacts(stack, 3, true);
    EntryFacts(tf, 3, false);
    WholePage(stack);
    WholePage(tf);
  }

  lemma WholePage(x: u64)
    requires x % 4096 == 0
    ensures x / 4096 * 4096 % TWO64 == x
  {
  }

  lemma FixedKept(pages: map<nat, u64>, pages': map<nat, u64>, tf: nat, trapSec: u64)
    requires HasFixed(pages, tf, trapSec) && Submap(pages, pages')
    ensures HasFixed(pages', tf, trapSec)
  {
    hide ProtToType, MakePte, FrameOf;
  }

  /** The three fixed mappings, made in the empty directory of slot p. */
  lemma FixedMapped(p: nat, mem: Mem, free: seq<nat>, own: Owners, start: nat, end: nat, mem': Mem, own': Owners,
                    rs: seq<Region>, tf: u64, stack: u64, trapSec: u64, pages: map<nat, u64>)
    requires Accounted(mem, free, own, start, end) && TablesOnly(p, mem, own, mem', own')
    requires tf % 4096 == 0 && stack % 4096 == 0 && tf < MAXVA && trapSec % 4096 == 0 && trapSec / 4096 !in own
    requires USER_STACK_PAGE < trapSec < MAXVA && USER_STACK_PAGE < start
    requires IsUse(own, tf / 4096, PageOf(p, tf / 4096)) && IsUse(own, stack / 4096, PageOf(p, USER_STACK_PAGE / 4096))
    requires rs == FixedThree(tf, trapSec)
    requires pages == map[USER_STACK_PAGE / 4096 := MakePte(stack, ProtToType(3, true))]
                         [tf / 4096 := MakePte(tf, ProtToType(3, false))]
                         [trapSec / 4096 := MakePte(trapSec, ProtToType(5, false))]
    ensures Backing(own', p, rs, pages) && RegionsOk(rs) && FixedRegions(rs, tf / 4096) && Keeps(own, own')
    ensures AllListedMapped(rs, pages) && HighPages(pages) && HasFixed(pages, tf / 4096, trapSec)
    ensures Homed(pages, tf / 4096)
    ensures USER_STACK_PAGE / 4096 in pages && FrameOf(pages[USER_STACK_PAGE / 4096]) == stack / 4096
  {
    hide Accounted, TablesOnly, Backing, MakePte, ProtToType, FrameOf, RegionsOk, FixedRegions, AllListedMapped,
         HighPages, HasFixed, Keeps, Homed;
    AboveStack(mem, free, own, start, end, tf);
    OwnedExist(mem, free, own, start, end);
    FixedBacking(p, mem, own, mem', own', rs, tf, stack, trapSec);
    FixedList(rs, tf, trapSec, pages);
    FixedHigh(mem, free, own, start, end, tf, trapSec, pages);
    FixedEntries(tf, stack, trapSec, pages);
    TablesOnlyKeeps(p, mem, free, own, start, end, mem', own');
  }

  /** What exec does to the free list: directory and reclaimed pages go on it, then frames are taken off. */
  ghost predicate Exchanged(free: seq<nat>, free': seq<nat>, root: nat, rs: seq<Region>, pages: map<nat, u64>)
  {
    exists f1 :: GivenBack(free, f1, {root}, rs, pages) && IsSuffix(free', f1)
  }

  lemma ExchangedBy(free: seq<nat>, f1: seq<nat>, free': seq<nat>, root: nat, rs: seq<Region>, pages: map<nat, u64>)
    requires GivenBack(free, f1, {root}, rs, pages) && IsSuffix(free', f1)
    ensures Exchanged(free, free', root, rs, pages)
  {
    hide GivenBack, IsSuffix;
  }

  lemma ExchangedMore(free: seq<nat>, f2: seq<nat>, free': seq<nat>, root: nat, rs: seq<Region>, pages: map<nat, u64>)
    requires Exchanged(free, f2, root, rs, pages) && IsSuffix(free', f2)
    ensures Exchanged(free, free', root, rs, pages)
  {
    hide GivenBack, IsSuffix;
    var f1 :| GivenBack(free, f1, {root}, rs, pages) && IsSuffix(f2, f1);
    SuffixTrans(f1, f2, free');
  }
}
