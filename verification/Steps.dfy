/** What each trap does to memory, and when it may bring the machine to a halt, on values. */
module Steps {
  import opened Lists
  import opened Sv39
  import opened PageTable
  import opened Memory
  import opened Ownership
  import opened Images
  import opened Forking
  import opened Placement
  import opened Reaping
  import opened Freeing
  import opened Bytes
  import opened Arguments
  import S = Scheduler
  import U = UserBuffer

  /** What may happen while a process runs. */
  datatype Trap =
    | Timer
    | StorePageFault(stval: u64)
    | LoadPageFault
    | SysYield
    | SysExit
    | SysFork
    | SysWait(pid: int)
    | SysExec(args: seq<seq<byte>>, segs: seq<ElfSegment>)
    | SysAllocatePage
    | SysFreePage(va: u64)
    | SysRead(bufva: u64, count: nat, supply: seq<seq<byte>>)
    | UserStore(va: u64, x: u64)

  /** Memory, free list, uses of frames, and the memory side of the process table. */
  datatype MemState =
    MemState(mem: Mem, free: seq<nat>, own: Owners, slots: seq<Slot>, spaces: seq<Space>, heapNext: u64)

  /** The invariant of ProcessMemory on values: the free list, the account of frames and every process. */
  ghost predicate InOrder(a: MemState, start: nat, end: nat)
  {
    && |a.slots| == |a.spaces| == NPROC
    && IsFreeList(a.mem, NodeAddr(a.free, 0), a.free) && Bounds(a.mem, a.free, start, end)
    && Accounted(a.mem, a.free, a.own, start, end) && SlotsBut(NPROC, a.mem, a.free, a.own, a.slots, a.spaces)
    && StaffOnce(a.own, a.slots)
  }

  ghost predicate IsSlot(a: MemState, p: int) { 0 <= p < |a.slots| == |a.spaces| && a.slots[p].Occupied? }

  /** Only slot p of the table differs. */
  ghost predicate OnlySlot(p: nat, a: MemState, b: MemState)
  {
    && p < |a.slots| == |a.spaces| == |b.slots| == |b.spaces|
    && b.slots == a.slots[p := b.slots[p]] && b.spaces == a.spaces[p := b.spaces[p]]
  }

  /** Slot p gained the page at va, backed by the first free frame; frames only came off the free list. */
  ghost predicate GotPage(p: int, va: u64, a: MemState, b: MemState)
  {
    && IsSlot(a, p) && OnlySlot(p, a, b) && b.slots == a.slots
    && va / 4096 !in a.spaces[p].pages && b.spaces[p].pages == WithFresh(a.spaces[p].pages, va / 4096, a.free)
    && TablesOnly(p, a.mem, a.own, b.mem, b.own) && IsSuffix(b.free, a.free)
    && OnePageTaken(a.free, a.spaces[p], b.free, b.spaces[p])
  }

  /** Slot p lost the page at va, and its frame is free again, whoever else uses it. At the last page of the
      address space nothing happens. */
  ghost predicate LostPage(p: int, va: u64, a: MemState, b: MemState)
  {
    && IsSlot(a, p) && va % 4096 == 0
    && if va + 4096 == TWO64 then b == a else
         && FreedPage(p, va / 4096, a.mem, a.free, a.own, a.spaces, b.mem, b.free, b.own, b.spaces)
         && b.slots == a.slots && b.heapNext == a.heapNext
  }

  /** The frames of an image that reaping always hands back. */
  function Fixed(img: Image): set<nat> { {img.kstack, img.info, img.pagetable} }

  /** Slot q was vacated: exactly these of its frames are free again. */
  ghost predicate Reaped(q: int, a: MemState, b: MemState)
  {
    && IsSlot(a, q) && b.slots == a.slots[q := Vacant] && b.spaces == a.spaces
    && GivenBack(a.free, b.free, Fixed(a.slots[q].img), a.slots[q].img.regions, a.spaces[q].pages)
    && Refunded(a.free, b.free, Fixed(a.slots[q].img), a.slots[q].img, a.spaces[q].pages)
    && |b.free| == |a.free| + 5 + DataPages(a.slots[q].img.regions, |a.slots[q].img.regions|)
    && LeftBehind(q, a.own, a.slots[q].img, a.spaces[q], b.own) && Unstaffed(q, b.own)
    && b.own == Release(a.own, b.free) && Local(q, a.mem, a.own, b.mem, b.own)
  }

  /** Slot p has the image of segs and is called with args, with its old kernel stack and region page; the rest of
      its old image went to the free list first. Memory is as the loader left it, but for word 9 of the old
      trapframe, where the result was stored; so the program is intact exactly if that store does not spoil it. */
  ghost predicate Replaced(p: int, args: seq<seq<byte>>, segs: seq<ElfSegment>, trapSec: u64, a: MemState, b: MemState)
  {
    && IsSlot(a, p) && OnlySlot(p, a, b) && b.slots[p].Occupied?
    && b.slots[p].img.kstack == a.slots[p].img.kstack && b.slots[p].img.info == a.slots[p].img.info
    && |b.slots[p].img.regions| >= 3 && b.slots[p].img.regions[3..] == Listed(segs)
    && HasFixed(b.spaces[p].pages, b.slots[p].img.trapframe, trapSec)
    && CalledWith(b.mem, b.spaces[p].pages, b.slots[p].img.trapframe, args)
    && (exists built :: LoadedThenCleared(p, segs, a, b, built))
    && Exchanged(a.free, b.free, a.slots[p].img.pagetable, a.slots[p].img.regions, a.spaces[p].pages)
    && Local(p, a.mem, a.own, b.mem, b.own)
    && (AllLoaded(b.mem, b.spaces[p].pages, segs) <==> !Spoilt(p, segs, trapSec, a))
    && ExecTaken(a.free, a.slots[p].img.regions, segs, b.free, b.spaces[p])
  }

  ghost predicate LoadedThenCleared(p: int, segs: seq<ElfSegment>, a: MemState, b: MemState, built: Mem)
  {
    && IsSlot(a, p) && p < |b.spaces| && AllLoaded(built, b.spaces[p].pages, segs)
    && Local(p, a.mem, a.own, built, b.own) && b.mem == Cleared(built, a.slots[p].img.trapframe)
  }

  /** The result of exec lands in the new program. */
  ghost predicate Spoilt(p: int, segs: seq<ElfSegment>, trapSec: u64, a: MemState)
  {
    && IsSlot(a, p)
    && Spoils(a.slots[p].img.pagetable, trapSec / 4096, segs, ResultAt(a.slots[p].img.regions))
  }

  /** The trap leaves memory out of order although it is answered: exec stores its result into a table of the
      new image, or a page is freed whose frame is still in use. */
  ghost predicate Breaks(t: Trap, p: int, trapSec: u64, start: nat, end: nat, a: MemState)
  {
    IsSlot(a, p) &&
    match t
    case SysExec(_, segs) => Cuts(a.slots[p].img.pagetable, trapSec / 4096, segs, ResultAt(a.slots[p].img.regions))
    case SysFreePage(va) =>
      CanUnmap(a.spaces[p], va / 4096, true, start, end) && StillUsed(a.slots, a.spaces, p, va / 4096)
    case _ => false
  }

  /** The bytes d are in the buffer of slot p at bufva, each at its own address, and nothing else changed. */
  ghost predicate Filled(p: int, bufva: u64, d: seq<byte>, ret: int, a: MemState, b: MemState)
  {
    IsSlot(a, p) && ret == |d| && b == a.(mem := PutAll(a.mem, Addresses(a.spaces[p], bufva, |d|), d))
  }

  /** The effect on memory of a trap of process p that was answered with ret. */
  ghost predicate Effect(t: Trap, p: int, ret: int, trapSec: u64, a: MemState, b: MemState)
  {
    match t
    case SysFork =>
      && 0 <= p && 0 <= ret
      && ForkedMemory(a.mem, a.own, a.slots, a.spaces, b.mem, b.own, b.free, b.slots, b.spaces, p, ret)
      && IsSuffix(b.free, a.free) && b.heapNext == a.heapNext
      && ForkTaken(a.free, b.slots[p].img.regions, b.free, b.spaces[ret])
    case SysWait(_) => if ret < 0 then b == a else Reaped(ret, a, b) && b.heapNext == a.heapNext
    case SysExec(args, segs) => Replaced(p, args, segs, trapSec, a, b) && b.heapNext == a.heapNext
    case SysAllocatePage =>
      ret == a.heapNext && GotPage(p, a.heapNext, a, b) && b.heapNext == (a.heapNext + 4096) % TWO64
    case SysFreePage(va) => LostPage(p, va, a, b)
    case SysRead(bufva, count, supply) => Filled(p, bufva, Delivered(bufva, 0, count, supply), ret, a, b)
    case StorePageFault(stval) => GotPage(p, stval, a, b) && b.heapNext == a.heapNext
    case UserStore(va, x) => IsSlot(a, p) && b == a.(mem := Stored(a.mem, a.spaces[p], va, x))
    case _ => b == a
  }

  /** What a store of process p at va promises the others: off p's code, and where va is backed by a managed
      frame, none of them reads anything else. */
  ghost predicate Isolated(p: int, va: u64, a: MemState, b: MemState)
  {
    && IsSlot(a, p)
    && (!InCode(a.slots[p].img.regions, va / 4096) && Lookup(a.spaces[p], va) / 4096 in a.own ==>
          Unseen(p, a.slots, a.spaces, a.mem, b.mem))
  }

  /** The page at va cannot be mapped in slot p: it is, or it is beyond MAXVA. */
  ghost predicate Unmappable(a: MemState, p: int, va: u64)
  {
    IsSlot(a, p) ==> va >= MAXVA || va / 4096 in a.spaces[p].pages
  }

  /** The regions of slot p cannot all be unmapped: a listed page is missing, or not backed by a managed frame. */
  ghost predicate Stuck(a: MemState, p: int, start: nat, end: nat)
  {
    IsSlot(a, p) ==> !Removable(a.spaces[p], a.slots[p].img.regions, start, end)
  }

  /** The request that makes the kernel panic or fault although frames are left. */
  ghost predicate Refused(t: Trap, p: int, procs: seq<S.Proc>, a: MemState, start: nat, end: nat)
  {
    match t
    case SysFork => NoneFree(procs) || p < 0 || !CanFork(a.mem, a.slots, a.spaces, p)
    case SysWait(pid) => exists i :: 0 <= i < |procs| && S.Reapable(procs, p, pid, i) && Stuck(a, i, start, end)
    case SysExec(_, segs) => !ProgramOk(segs) || Stuck(a, p, start, end)
    case SysAllocatePage => Unmappable(a, p, a.heapNext)
    case SysFreePage(va) =>
      va % 4096 != 0 || (va + 4096 != TWO64 && (IsSlot(a, p) ==> !CanUnmap(a.spaces[p], va / 4096, true, start, end)))
    case SysRead(bufva, count, supply) =>
      IsSlot(a, p) ==> !AllLand(a.spaces[p], bufva, |Delivered(bufva, 0, count, supply)|, start, end)
    case StorePageFault(stval) => Unmappable(a, p, stval)
    case _ => false
  }

  /** Frames run short: the free list before the trap is not as long as the trap may need. */
  ghost predicate Short(t: Trap, p: int, trapSec: u64, a: MemState)
  {
    match t
    case SysFork => ForkShort(a.free, a.slots, p)
    case SysExec(_, segs) => IsSlot(a, p) && TooFew(a.free, a.slots[p].img, a.spaces[p].pages, trapSec / 4096, segs)
    case SysAllocatePage => |a.free| < 3
    case StorePageFault(_) => |a.free| < 3
    case _ => false
  }

  ghost predicate NoneFree(procs: seq<S.Proc>) { forall j :: 0 <= j < |procs| ==> procs[j].status != S.Free }

  /** sys_user_free_page is not safe after fork: whichever of parent and child frees a page of the code, the other
      still maps the frame. */
  lemma FreeAfterFork(p: nat, c: nat, trapSec: u64, a: MemState, b: MemState, i: nat, v: nat, start: nat, end: nat)
    requires Effect(SysFork, p, c, trapSec, a, b) && IsSlot(a, p) && v * 4096 < MAXVA
    requires 3 <= i < |a.slots[p].img.regions| && a.slots[p].img.regions[i].seg.CodeSegment?
    requires Covers(a.slots[p].img.regions[i], v)
    requires v in a.spaces[p].pages && PteR(a.spaces[p].pages[v]) && Managed(FrameOf(a.spaces[p].pages[v]), start, end)
    requires v in b.spaces[c].pages
    ensures Breaks(SysFreePage(v * 4096), p, trapSec, start, end, b)
    ensures Breaks(SysFreePage(v * 4096), c, trapSec, start, end, b)
  {
    hide StackForked, TrapframeForked, Local, MakePte, ProtToType, IsSuffix;
    var x, y := a.spaces[p].pages[v], b.spaces[c].pages[v];
    assert PageForked(true, a.mem, b.spaces[p], b.mem, b.own, c, v, y);
    SameFrame(x, y);
    assert Maps(b.slots, b.spaces, p, v, FrameOf(x)) && Maps(b.slots, b.spaces, c, v, FrameOf(x));
  }

  lemma SameFrame(x: u64, y: u64)
    requires PteR(x) && y == MakePte(Pte2Pa(x), ProtToType(7, true))
    ensures FrameOf(y) == FrameOf(x) && PteFlags(x) != 1 && PteFlags(y) != 1
  {
    hide MakePte, ProtToType, FrameOf, Pte2Pa, PteR, PteFlags;
    EntryFacts(Pte2Pa(x), 7, true);
    FrameIs(x);
    ReadableFlags(x);
    ReadableFlags(y);
  }

  lemma FrameIs(pte: u64)
    ensures FrameOf(pte) == Pte2Pa(pte) / 4096
  {
  }

  /** The regions of a program with one code page and five data pages, loaded at 64 KB. */
  function FiveDataRegions(): seq<Region>
  {
    FixedThree(0x8050_0000, 0x8000_1000)
    + seq(6, i requires 0 <= i < 6 => Region(0x1_0000 + i * 4096, 1, if i == 0 then CodeSegment else DataSegment))
  }

  lemma {:induction false} FiveData(k: nat)
    requires k <= 5
    ensures DataPages(FiveDataRegions(), 4 + k) == k
  {
    var rs := FiveDataRegions();
    if k == 0 {
      assert DataPages(rs, 3) == DataPages(rs, 2) == DataPages(rs, 1) == DataPages(rs, 0) == 0;
    } else {
      FiveData(k - 1);
    }
  }

  /** Its image, with frame 0x80409 for page directory. */
  function FiveDataImage(): Image { Image(0x80600, 0x80409, 0x80500, 0x80601, FiveDataRegions()) }

  lemma FiveDataAt(i: nat)
    requires i < 9
    ensures var r := FiveDataRegions()[i];
            && RegionOk(r) && r.npages == 1
            && r.va / 4096 == (if i >= 3 then 0x0d + i else if i == 0 then 0x7fffe else if i == 1 then 0x80500
                               else 0x80001)
            && (i >= 3 ==> r.seg.CodeSegment? || r.seg.DataSegment?)
  {
  }

  lemma FiveDataOk()
    ensures RegionsOk(FiveDataRegions()) && FixedRegions(FiveDataRegions(), 0x80500)
  {
    hide RegionOk, Disjoint;
    var rs := FiveDataRegions();
    forall i | 0 <= i < |rs| ensures RegionOk(rs[i]) && (i >= 3 ==> rs[i].seg.CodeSegment? || rs[i].seg.DataSegment?) {
      FiveDataAt(i);
    }
    forall i, j | 0 <= i < j < |rs| ensures Disjoint(rs[i], rs[j]) {
      FiveDataAt(i);
      FiveDataAt(j);
      OnePageEach(rs[i], rs[j]);
    }
  }

  lemma OnePageEach(r: Region, s: Region)
    requires r.npages == s.npages == 1 && r.va / 4096 != s.va / 4096
    ensures Disjoint(r, s)
  {
  }

  /** An exec that breaks the invariant, whatever program it loads: the trap vector is at 0x8000_1000, the new
      trapframe is the old page directory, and the result erases its mapping. */
  lemma ExecFailingInput(args: seq<seq<byte>>, segs: seq<ElfSegment>, p: nat, a: MemState, start: nat, end: nat)
    requires p < |a.slots| == |a.spaces| && a.slots[p] == Occupied(FiveDataImage())
    ensures RegionsOk(FiveDataImage().regions) && FixedRegions(FiveDataImage().regions, FiveDataImage().trapframe)
    ensures Breaks(SysExec(args, segs), p, 0x8000_1000, start, end, a)
  {
    hide Cuts, RegionsOk, FixedRegions, DataPages;
    FiveDataOk();
    FiveData(5);
    FiveDataPages(0x80409, 0x80001, segs, FiveDataRegions());
  }

  /** A store to a page whose frame the process maps nowhere else is read back, and every other word of the process
      is what it was. */
  lemma ReadsBack(mem: Mem, sp: Space, va: u64, x: u64, w: u64)
    requires Writable(sp, va) && PteR(sp.pages[va / 4096])
    requires var f := FrameOf(sp.pages[va / 4096]);
             f in mem && f != 0 && forall v :: v in sp.pages && v != va / 4096 ==> FrameOf(sp.pages[v]) != f
    ensures var mem' := Stored(mem, sp, va, x);
            UserRead(mem', sp, va) == Word(x) && (w / 8 != va / 8 ==> UserRead(mem', sp, w) == UserRead(mem, sp, w))
  {
    hide FrameOf, PteU, PteW, PteR, Pte2Pa;
    PteAddress(sp.pages[va / 4096]);
    Unique(Lookup(sp, va), 4096, FrameOf(sp.pages[va / 4096]), 0);
    if w < MAXVA && w / 4096 in sp.pages {
      PteAddress(sp.pages[w / 4096]);
      Unique(Pte2Pa(sp.pages[w / 4096]), 4096, FrameOf(sp.pages[w / 4096]), 0);
    }
    if w / 8 != va / 8 && w / 4096 == va / 4096 { OtherWord(va, w); }
  }

  lemma OtherWord(va: u64, w: u64)
    requires w / 8 != va / 8 && w / 4096 == va / 4096
    ensures w % 4096 / 8 != va % 4096 / 8
  {
    WordAndByte(va);
    WordAndByte(w);
  }

  /** A page of its own outside code regions: what a process stores there it reads back. */
  lemma OwnPageReadsBack(p: nat, a: MemState, start: nat, end: nat, va: u64, x: u64, w: u64)
    requires InOrder(a, start, end) && IsSlot(a, p) && Writable(a.spaces[p], va)
    requires !InCode(a.slots[p].img.regions, va / 4096) && FrameOf(a.spaces[p].pages[va / 4096]) in a.own
    ensures var mem' := Stored(a.mem, a.spaces[p], va, x);
            && UserRead(mem', a.spaces[p], va) == Word(x)
            && (w / 8 != va / 8 ==> UserRead(mem', a.spaces[p], w) == UserRead(a.mem, a.spaces[p], w))
  {
    hide FrameOf, IsFreeList, SpaceOk, RegionsOk, InCode, UserRead, Stored, ImageOk, Managed, PteU, PteW, PteR;
    SlotFacts(a.mem, a.free, a.own, p, a.slots, a.spaces);
    var sp, rs := a.spaces[p], a.slots[p].img.regions;
    assert Backed(a.own, p, rs, va / 4096, sp.pages[va / 4096]);
    forall v | v in sp.pages && v != va / 4096 ensures FrameOf(sp.pages[v]) != FrameOf(sp.pages[va / 4096]) {
      assert Backed(a.own, p, rs, v, sp.pages[v]);
    }
    ReadsBack(a.mem, sp, va, x, w);
  }

  /** A page just allocated or faulted in, wherever in it and whatever is stored. */
  lemma FreshPageReadsBack(p: nat, va: u64, a: MemState, b: MemState, start: nat, end: nat, y: u64, x: u64, w: u64)
    requires InOrder(a, start, end) && GotPage(p, va, a, b) && a.free != [] && y < MAXVA && y / 4096 == va / 4096
    ensures var mem' := Stored(b.mem, b.spaces[p], y, x);
            && UserRead(mem', b.spaces[p], y) == Word(x)
            && (w / 8 != y / 8 ==> UserRead(mem', b.spaces[p], w) == UserRead(b.mem, b.spaces[p], w))
  {
    hide FrameOf, IsFreeList, SpaceOk, RegionsOk, InCode, UserRead, Stored, ImageOk, Managed, MakePte, ProtToType, PteU,
         PteW, PteR;
    SlotFacts(a.mem, a.free, a.own, p, a.slots, a.spaces);
    var sp, f, v := b.spaces[p], a.free[0], va / 4096;
    assert f in a.free;
    FreshEntry(f);
    forall u | u in a.spaces[p].pages ensures FrameOf(a.spaces[p].pages[u]) != f {
      assert Backed(a.own, p, a.slots[p].img.regions, u, a.spaces[p].pages[u]);
    }
    ReadsBack(b.mem, sp, y, x, w);
  }

  lemma FreshEntry(f: nat)
    requires f < NVPN
    ensures var pte := MakePte(f * 4096 % TWO64, ProtToType(3, true));
            FrameOf(pte) == f && PteU(pte) && PteW(pte) && PteR(pte)
  {
    Unique(f * 4096, 4096, f, 0);
    ProtFlags(3, true);
    MakePteFields(f * 4096, ProtToType(3, true));
  }

  /** The new program finds its arguments: word k of the table in a1 and sp is the address of string k. */
  lemma ArgvReads(mem: Mem, sp: Space, tf: nat, trapSec: u64, args: seq<seq<byte>>, k: nat)
    requires CalledWith(mem, sp.pages, tf, args) && HasFixed(sp.pages, tf, trapSec) && 0 !in mem && k <= |args|
    ensures tf in mem && mem[tf][9] == |args| && mem[tf][1] == mem[tf][10] == TableVa(|args|)
    ensures UserRead(mem, sp, TableVa(|args|) + 8 * k) == Word(StringVa(k))
  {
    hide Copied, MakePte, ProtToType, FrameOf, Lookup, TableVa, StringVa;
    var pte, va := sp.pages[USER_STACK_PAGE / 4096], TableVa(|args|) + 8 * k;
    EntryFacts(FrameOf(pte) * 4096 % TWO64, 3, true);
    TableWord(|args|, k);
    StackLookup(sp, va);
    Unique(Lookup(sp, va), 4096, FrameOf(pte), 0);
    assert mem[FrameOf(pte)][510 - 2 * |args| + k] == StringVa(k);
  }

  /** The process finds the C string t from virtual address x on, each byte through its own page table entry. */
  ghost predicate ReadsText(mem: Mem, sp: Space, x: nat, t: seq<byte>)
  {
    forall j :: 0 <= j <= |t| ==> ByteIs(mem, U.PhysOf(sp, x + j), (t + [0])[j])
  }

  /** argv[k]: what the new program reads as word k of the table in a1 is an address from which it reads string k, as
      far as that was not run over. */
  lemma {:induction false} ArgvText(mem: Mem, sp: Space, tf: nat, trapSec: u64, args: seq<seq<byte>>, k: nat)
    requires CalledWith(mem, sp.pages, tf, args) && HasFixed(sp.pages, tf, trapSec) && 0 !in mem && Fit(args)
    requires k < |args|
    ensures tf in mem && mem[tf][10] + 8 * k < TWO64
    ensures var argv := UserRead(mem, sp, mem[tf][10] + 8 * k);
            argv.Word? && ReadsText(mem, sp, argv.x, Seen(args, k, |args|))
  {
    hide Copied, MakePte, ProtToType, FrameOf, Lookup, Seen, U.PhysOf, ByteIs, HasFixed, UserRead;
    ArgvReads(mem, sp, tf, trapSec, args, k);
    var f, t := FrameOf(sp.pages[USER_STACK_PAGE / 4096]), Seen(args, k, |args|);
    StackEntry(sp, tf, trapSec);
    SeenFits(args, k, |args|);
    CopiedAt(mem, f, args, k);
    forall j | 0 <= j <= |t| ensures ByteIs(mem, U.PhysOf(sp, StringVa(k) + j), (t + [0])[j]) {
      StackByte(sp, StringVa(k) + j);
      assert ByteIs(mem, f * 4096 + StringAt(k) + j, (t + [0])[j]);
    }
  }

  lemma {:induction false} CopiedAt(mem: Mem, f: nat, args: seq<seq<byte>>, k: nat)
    requires Copied(mem, f * 4096, args, |args|) && k < |args|
    ensures BytesAt(mem, f * 4096 + StringAt(k), Seen(args, k, |args|) + [0])
  {
    hide BytesAt, Seen;
    assert TextAt(mem, f * 4096 + StringAt(k), Seen(args, k, |args|));
  }

  lemma StackEntry(sp: Space, tf: nat, trapSec: u64)
    requires HasFixed(sp.pages, tf, trapSec)
    ensures USER_STACK_PAGE / 4096 in sp.pages && PteR(sp.pages[USER_STACK_PAGE / 4096])
  {
    hide MakePte, ProtToType, FrameOf;
    EntryFacts(FrameOf(sp.pages[USER_STACK_PAGE / 4096]) * 4096 % TWO64, 3, true);
  }

  lemma StackByte(sp: Space, x: nat)
    requires USER_STACK_PAGE <= x < USER_STACK_PAGE + 4096 && USER_STACK_PAGE / 4096 in sp.pages
    requires PteR(sp.pages[USER_STACK_PAGE / 4096])
    ensures U.PhysOf(sp, x) == FrameOf(sp.pages[USER_STACK_PAGE / 4096]) * 4096 + (x - USER_STACK_PAGE)
  {
    hide FrameOf, Lookup;
    StackLookup(sp, x);
    Unique(x, 4096, USER_STACK_PAGE / 4096, x - USER_STACK_PAGE);
  }

  /** Short arguments: argv[k] is args[k]. */
  lemma ArgvIsArgument(mem: Mem, sp: Space, tf: nat, trapSec: u64, args: seq<seq<byte>>, k: nat)
    requires CalledWith(mem, sp.pages, tf, args) && HasFixed(sp.pages, tf, trapSec) && 0 !in mem && Fit(args)
    requires k < |args| && forall j :: 0 <= j < |args| ==> |args[j]| <= 7
    ensures tf in mem && mem[tf][10] + 8 * k < TWO64
    ensures var argv := UserRead(mem, sp, mem[tf][10] + 8 * k); argv.Word? && ReadsText(mem, sp, argv.x, args[k])
  {
    hide CalledWith, HasFixed, UserRead, ReadsText, Fit;
    ArgvText(mem, sp, tf, trapSec, args, k);
    ShortArrive(args, k, |args|);
  }

  /** The table ends with a pointer to a word 0. */
  lemma ArgvEnds(mem: Mem, sp: Space, tf: nat, trapSec: u64, args: seq<seq<byte>>)
    requires CalledWith(mem, sp.pages, tf, args) && HasFixed(sp.pages, tf, trapSec) && 0 !in mem
    ensures tf in mem && mem[tf][9] == |args| && mem[tf][1] == mem[tf][10] && mem[tf][10] + 8 * |args| < TWO64
    ensures forall j :: 0 <= j < 31 && j !in {1, 9, 10} ==> mem[tf][j] == 0
    ensures var end := UserRead(mem, sp, mem[tf][10] + 8 * |args|);
            end.Word? && UserRead(mem, sp, end.x) == Word(0)
  {
    hide Copied, MakePte, ProtToType, FrameOf, Lookup, HasFixed;
    var n := |args|;
    ArgvReads(mem, sp, tf, trapSec, args, n);
    StackEntry(sp, tf, trapSec);
    StackLookup(sp, StringVa(n));
    Unique(Lookup(sp, StringVa(n)), 4096, FrameOf(sp.pages[USER_STACK_PAGE / 4096]), 0);
    Unique(StringVa(n), 4096, USER_STACK_PAGE / 4096, 4088 - 8 * n);
    Unique(4088 - 8 * n, 8, 511 - n, 0);
  }

  lemma TableWord(n: nat, k: nat)
    requires n <= MAXARGS && k <= n
    ensures var va := TableVa(n) + 8 * k;
            USER_STACK_PAGE <= va < USER_STACK_PAGE + 4096 && va % 4096 / 8 == 510 - 2 * n + k
  {
    Unique(TableVa(n) + 8 * k, 4096, USER_STACK_PAGE / 4096, 4080 - 16 * n + 8 * k);
    Unique(4080 - 16 * n + 8 * k, 8, 510 - 2 * n + k, 0);
  }

  lemma StackLookup(sp: Space, va: u64)
    requires USER_STACK_PAGE <= va < USER_STACK_PAGE + 4096 && USER_STACK_PAGE / 4096 in sp.pages
    requires PteR(sp.pages[USER_STACK_PAGE / 4096])
    ensures Lookup(sp, va) == FrameOf(sp.pages[USER_STACK_PAGE / 4096]) * 4096
  {
    Unique(va, 4096, USER_STACK_PAGE / 4096, va - USER_STACK_PAGE);
    PteAddress(sp.pages[USER_STACK_PAGE / 4096]);
  }
}
