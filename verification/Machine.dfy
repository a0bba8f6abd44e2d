/** The machine from power-on: s_start of kernel/kernel.c, then any run of traps. */
module Machine {
  import opened Lists
  import opened Sv39
  import opened PageTable
  import opened Memory
  import opened Ownership
  import opened Images
  import opened Placement
  import opened Reaping
  import opened Arguments
  import opened Bytes
  import opened Boot
  import K = Kernel
  import S = Scheduler
  import opened Steps
  import opened Runs

  /** Frame f is a block of the disk, or a table of the kernel. */
  ghost predicate Reserved(base: u64, sp: Space, f: nat)
  {
    base / 4096 <= f < base / 4096 + RAMDISK0_BLOCK || f in sp.tables.Values
  }

  /** No process can reach a reserved frame. */
  ghost predicate OutOfReach(slots: seq<Slot>, spaces: seq<Space>, base: u64, sp: Space)
  {
    && |slots| == |spaces|
    && forall q, f :: 0 <= q < |slots| && slots[q].Occupied? && Reserved(base, sp, f) ==>
         !Reaches(slots[q].img, spaces[q], f)
  }

  /** Reserved frames are the kernel's. */
  ghost predicate Held(own: Owners, base: u64, sp: Space)
  {
    forall f :: Reserved(base, sp, f) ==> f in own && own[f] == KernelUse
  }

  lemma HeldAtBoot(mem: Mem, free: seq<nat>, start: nat, end: nat, base: u64, sp: Space)
    requires Bounds(mem, free, start, end) && DiskAt(mem, free, base) && Holds(mem, free, sp)
    requires start <= base && base + RAMDISK0_BLOCK * 4096 < end
    requires forall id :: id in sp.tables ==> Managed(sp.tables[id], start, end)
    ensures Held(InitialOwners(mem, free, start, end), base, sp)
  {
    hide Shape;
    forall f | Reserved(base, sp, f) ensures f in mem && Managed(f, start, end) && f !in free {
      if f in sp.tables.Values {
        var id :| id in sp.tables && sp.tables[id] == f;
      }
    }
  }

  lemma HeldKept(mem: Mem, own: Owners, mem': Mem, own': Owners, base: u64, sp: Space)
    requires Held(own, base, sp) && KernelKept(mem, own, mem', own')
    requires forall f :: Reserved(base, sp, f) ==> f in mem
    ensures Held(own', base, sp)
    ensures forall f :: Reserved(base, sp, f) ==> f in mem' && mem'[f] == mem[f]
  {
  }

  /** The disk holds image, the kernel's page table is in place, and no process gets at either. */
  ghost predicate Safe(a: MemState, base: u64, image: seq<Page>, sp: Space)
  {
    && DiskAt(a.mem, a.free, base) && Blocks(a.mem, base) == image && Holds(a.mem, a.free, sp)
    && OutOfReach(a.slots, a.spaces, base, sp)
  }

  /** So it is in every state in order in which the kernel's frames are what they were. */
  lemma StillSafe(mem: Mem, free: seq<nat>, own: Owners, start: nat, end: nat, a: MemState, base: u64, sp: Space)
    requires DiskAt(mem, free, base) && Holds(mem, free, sp) && Held(own, base, sp)
    requires KernelKept(mem, own, a.mem, a.own) && InOrder(a, start, end)
    ensures Safe(a, base, Blocks(mem, base), sp)
  {
    hide DiskAt, Holds, Held, KernelKept, Reserved, IsFreeList, Bounds, Accounted, SlotsBut, Blocks, OutOfReach;
    InMemory(mem, free, base, sp);
    HeldKept(mem, own, a.mem, a.own, base, sp);
    DiskKept(mem, free, a.own, start, end, a.mem, a.free, base, sp);
    HeldUnreachable(a, base, sp);
  }

  lemma HeldUnreachable(a: MemState, base: u64, sp: Space)
    requires |a.slots| == |a.spaces| == NPROC && SlotsBut(NPROC, a.mem, a.free, a.own, a.slots, a.spaces)
    requires Held(a.own, base, sp)
    ensures OutOfReach(a.slots, a.spaces, base, sp)
  {
    hide SlotsBut, Reserved, Reaches, SlotOk;
    forall q, f | 0 <= q < NPROC && a.slots[q].Occupied? && Reserved(base, sp, f)
      ensures !Reaches(a.slots[q].img, a.spaces[q], f)
    {
      SlotFacts(a.mem, a.free, a.own, q, a.slots, a.spaces);
      NotReached(a.mem, a.free, a.own, q, a.slots[q].img, a.spaces[q], f);
    }
  }

  lemma DiskKept(mem: Mem, free: seq<nat>, own: Owners, start: nat, end: nat, mem': Mem, free': seq<nat>, base: u64,
                 sp: Space)
    requires DiskAt(mem, free, base) && Holds(mem, free, sp) && Held(own, base, sp)
    requires Accounted(mem', free', own, start, end)
    requires forall f :: Reserved(base, sp, f) ==> f in mem' && f in mem && mem'[f] == mem[f]
    ensures DiskAt(mem', free', base) && Holds(mem', free', sp)
    ensures Blocks(mem', base) == Blocks(mem, base)
  {
    hide Shape;
    forall f | Reserved(base, sp, f) ensures f !in free' { }
    HoldsFrame(mem, free, mem', free', sp);
  }

  lemma InMemory(mem: Mem, free: seq<nat>, base: u64, sp: Space)
    requires DiskAt(mem, free, base) && Holds(mem, free, sp)
    ensures forall f :: Reserved(base, sp, f) ==> f in mem
  {
    hide Shape;
  }

  /** The first moment: the program of segs is loaded in slot 0 and runs, alone. */
  ghost predicate Started(a: Moment, trapSec: u64, segs: seq<ElfSegment>)
  {
    && a.view.current == 0 && a.view.queue == [] && a.memory.heapNext == 0x40_0000
    && |a.memory.slots| == |a.memory.spaces| == NPROC && a.memory.slots[0].Occupied?
    && (forall q :: 0 < q < NPROC ==> a.memory.slots[q].Vacant?)
    && AllLoaded(a.memory.mem, a.memory.spaces[0].pages, segs)
    && HasFixed(a.memory.spaces[0].pages, a.memory.slots[0].img.trapframe, trapSec)
    && NewContext(a.memory.mem, a.memory.slots[0].img.trapframe)
  }

  /** From init_proc_pool on: whatever the programs do, at every moment of the run the disk's blocks and the kernel's
      page table have their contents, and no process gets at them. */
  method StartAndRun(m: Memory, base: u64, ghost sp: Space, trapSec: u64, segs: seq<ElfSegment>, traps: seq<Trap>)
    returns (k: K.Kernel?, r: Result, n: nat, ghost rets: seq<int>, ghost trace: seq<Moment>)
    requires m.Valid() && trapSec % 4096 == 0 && !Managed(trapSec / 4096, m.start, m.end)
    requires USER_STACK_PAGE < trapSec < MAXVA && USER_STACK_PAGE < m.start && Plain(segs)
    requires DiskAt(m.mem, m.free, base) && m.start <= base && base + RAMDISK0_BLOCK * 4096 < m.end
    requires Holds(m.mem, m.free, sp) && forall id :: id in sp.tables ==> Managed(sp.tables[id], m.start, m.end)
    modifies m`mem, m`head, m`free
    ensures k == null ==> !ProgramOk(segs) || (m.free == [] && |old(m.free)| < 12 + 3 * |segs|)
    ensures k != null ==> k.pm.m == m && IsRunOf(traps, n, r, rets, trace, Site(trapSec, m.start, m.end), m.free)
    ensures k != null ==> Started(trace[0], trapSec, segs)
    ensures k != null ==> forall i :: 0 <= i <= n ==> Safe(trace[i].memory, base, old(Blocks(m.mem, base)), sp)
    ensures k != null && !r.Stopped? ==> k.Valid() && k.Now() == trace[n]
  {
    hide IsFreeList, Bounds, Holds, KernelKept, InitialOwners, Reserved, Held, AllLoaded, HasFixed, ProgramOk,
         Accounted, SlotsBut, Managed, S.Scheduler.Valid, Blocks, Safe, Linked, InOrder, EndsFor, Beyond, NeverRuns;
    ghost var m0, f0 := m.mem, m.free;
    ghost var o0 := InitialOwners(m0, f0, m.start, m.end);
    HeldAtBoot(m0, f0, m.start, m.end, base, sp);
    r, n, rets, trace := Stopped(S.Halted), 0, [], [];
    k := K.Start(m, trapSec, segs);
    if k == null { return; }
    k.NowGood();
    r, n, rets, trace := k.Run(traps);
    RunLength(traps, n, r, rets, trace, k.Place(), m.free);
    forall i | 0 <= i <= n ensures Safe(trace[i].memory, base, Blocks(m0, base), sp) {
      AllAlong(traps[..n], rets, trace, k.Place(), i);
      KernelTrans(m0, o0, trace[0].memory.mem, trace[0].memory.own, trace[i].memory.mem, trace[i].memory.own);
      StillSafe(m0, f0, o0, m.start, m.end, trace[i].memory, base, sp);
    }
  }

  lemma {:induction false} RunLength(traps: seq<Trap>, n: nat, r: Result, rets: seq<int>, trace: seq<Moment>, s: Site,
                                     free: seq<nat>)
    requires IsRunOf(traps, n, r, rets, trace, s, free)
    ensures n <= |traps| && Linked(traps[..n], rets, trace, s) && |trace| == n + 1
  {
    hide EndsFor, Beyond, Good, Follows, BreaksAt;
  }

  lemma {:induction false} FiveDataCut(a: Moment, args: seq<seq<byte>>, segs: seq<ElfSegment>, segs': seq<ElfSegment>,
                                       s: Site)
    requires Good(s, a) && a.view.current == 0 && a.memory.slots[0].Occupied? && DataSegments(segs, |segs|) == 5
    requires |a.memory.slots[0].img.regions| >= 3 && a.memory.slots[0].img.regions[3..] == Listed(segs)
    requires var f := a.memory.slots[0].img.pagetable; f % 512 == 9 && f / 512 / 512 == 2
    requires s.trapSec / 4096 / 512 / 512 == 2
    ensures BreaksAt(SysExec(args, segs'), s, a)
  {
    hide IsFreeList, Bounds, Accounted, Cuts, SpaceOk, Backing, RegionsOk, Homed, DataPages;
    var img := a.memory.slots[0].img;
    SlotFacts(a.memory.mem, a.memory.free, a.memory.own, 0, a.memory.slots, a.memory.spaces);
    DataListed(img.regions, img.trapframe, segs, |segs|);
    FiveDataPages(img.pagetable, s.trapSec / 4096, segs', img.regions);
  }

  /** A machine on which exec breaks the invariant: its first program has five data pages, and the second frame of
      the free list it starts with, which becomes the program's page directory, is 9 modulo 512. If the program
      calls exec, the machine runs out of frames, or refuses the new program, or goes on out of order; the last for
      certain if both programs fit and there are frames for them. */
  method ExecAfterStart(m: Memory, trapSec: u64, segs: seq<ElfSegment>, args: seq<seq<byte>>, segs': seq<ElfSegment>)
    returns (k: K.Kernel?, r: Result)
    requires m.Valid() && trapSec % 4096 == 0 && !Managed(trapSec / 4096, m.start, m.end)
    requires USER_STACK_PAGE < trapSec < MAXVA && USER_STACK_PAGE < m.start && Plain(segs) && Fit(args) && Plain(segs')
    requires DataSegments(segs, |segs|) == 5 && trapSec / 4096 / 512 / 512 == 2
    requires |m.free| >= 2 && m.free[1] % 512 == 9 && m.free[1] / 512 / 512 == 2
    modifies m`mem, m`head, m`free
    ensures k == null ==> !ProgramOk(segs) || (m.free == [] && |old(m.free)| < 12 + 3 * |segs|)
    ensures k != null ==> (r.Continue? && !k.Valid()) || (r == Stopped(S.Halted) && (m.free == [] || !ProgramOk(segs')))
    ensures ProgramOk(segs) && ProgramOk(segs') && |old(m.free)| >= 21 + 3 * |segs| + 3 * |segs'| ==>
              k != null && r.Continue? && !k.Valid()
  {
    hide K.Kernel.Valid, K.Kernel.Sound, InOrder, ProgramOk, AllLoaded, HasFixed, KernelKept, Removable, Listed,
         Managed, Follows, BreaksAt, EndsFor, S.ViewOk, InitialOwners, Regular;
    r := Stopped(S.Halted);
    k := K.Start(m, trapSec, segs);
    if k == null { return; }
    k.NowGood();
    ghost var a, s := k.Now(), k.Place();
    FiveDataCut(a, args, segs, segs', s);
    RegularExec(args, segs');
    r := k.Step(SysExec(args, segs'));
    if r.Stopped? { ExecEnds(r.why, args, segs', s, a, m.free); }
  }

  lemma RegularExec(args: seq<seq<byte>>, segs: seq<ElfSegment>)
    requires Fit(args) && Plain(segs)
    ensures Regular(SysExec(args, segs))
  {
  }

  lemma ExecEnds(why: S.Outcome, args: seq<seq<byte>>, segs: seq<ElfSegment>, s: Site, a: Moment, free: seq<nat>)
    requires EndsFor(why, SysExec(args, segs), s, a, free) && a.view.current == 0 && IsSlot(a.memory, 0)
    requires Removable(a.memory.spaces[0], a.memory.slots[0].img.regions, s.start, s.end)
    ensures why == S.Halted && (free == [] || !ProgramOk(segs))
    ensures ProgramOk(segs) ==> |a.memory.free| < 9 + 3 * |segs|
  {
    hide Removable, ProgramOk, TooFew;
    if |a.memory.free| >= 9 + 3 * |segs| {
      Enough(a.memory.free, a.memory.slots[0].img, a.memory.spaces[0].pages, s.trapSec / 4096, segs);
    }
  }

  /** What fs_init puts on the disk, block by block. */
  method FillDisk(m: Memory, base: u64, image: seq<Page>, ghost sp: Space)
    requires m.Valid() && DiskAt(m.mem, m.free, base) && |image| == RAMDISK0_BLOCK
    requires Holds(m.mem, m.free, sp) && Apart(sp, base)
    modifies m`mem
    ensures m.Valid() && DiskAt(m.mem, m.free, base) && Blocks(m.mem, base) == image && Holds(m.mem, m.free, sp)
  {
    hide IsFreeList, Bounds, Holds, Blocks;
    for b := 0 to RAMDISK0_BLOCK
      invariant m.Valid() && DiskAt(m.mem, m.free, base)
      invariant Blocks(m.mem, base)[..b] == image[..b]
      invariant Holds(m.mem, m.free, sp)
    {
      ghost var m1 := m.mem;
      var ok := DiskWrite(m, base, image[b], b);
      ApartKept(m1, m.free, sp, base, m.mem);
    }
    assert Blocks(m.mem, base)[..RAMDISK0_BLOCK] == Blocks(m.mem, base) && image[..RAMDISK0_BLOCK] == image;
  }

  lemma ApartKept(mem: Mem, free: seq<nat>, sp: Space, base: u64, mem': Mem)
    requires Holds(mem, free, sp) && Apart(sp, base) && mem'.Keys == mem.Keys
    requires forall f :: f in mem' && !(base / 4096 <= f < base / 4096 + RAMDISK0_BLOCK) ==> mem'[f] == mem[f]
    ensures Holds(mem', free, sp)
  {
    hide Shape;
    forall id | id in sp.tables ensures mem'[sp.tables[id]] == mem[sp.tables[id]] {
      assert sp.tables[id] in sp.tables.Values;
    }
    HoldsFrame(mem, free, mem', free, sp);
  }

  /** The first n pages are in the first frames of the list, in order, and no other frame was written. */
  ghost predicate Recorded(mem: Mem, free: seq<nat>, mem': Mem, pages: seq<Page>, n: nat)
  {
    && n <= |pages| && n <= |free|
    && (forall k :: 0 <= k < n ==> free[k] in mem' && mem'[free[k]] == pages[k])
    && (forall f :: f in mem && f !in free[..n] ==> f in mem' && mem'[f] == mem[f])
  }

  lemma NothingRecorded(mem: Mem, free: seq<nat>, pages: seq<Page>)
    ensures Recorded(mem, free, mem, pages, 0)
  {
  }

  lemma RecordedStep(mem: Mem, free: seq<nat>, mem1: Mem, pages: seq<Page>, n: nat)
    requires NoDup(free) && n < |pages| && n < |free| && Recorded(mem, free, mem1, pages, n)
    ensures Recorded(mem, free, mem1[free[n] := pages[n]], pages, n + 1)
  {
    assert free[..n + 1] == free[..n] + [free[n]];
  }

  /** The pages fs_init takes for its own records, with what it writes there; it does not check for null, and
      faults without a frame. */
  method TakePages(m: Memory, pages: seq<Page>, base: u64, ghost sp: Space) returns (ok: bool)
    requires m.Valid() && DiskAt(m.mem, m.free, base) && Holds(m.mem, m.free, sp)
    modifies m`mem, m`head, m`free
    ensures m.Valid() && DiskAt(m.mem, m.free, base) && Holds(m.mem, m.free, sp)
    ensures ok <==> |pages| <= |old(m.free)|
    ensures m.free == if ok then old(m.free)[|pages|..] else []
    ensures ok ==> m.mem.Keys == old(m.mem).Keys && Recorded(old(m.mem), old(m.free), m.mem, pages, |pages|)
  {
    hide IsFreeList, Bounds, Holds, DiskAt, Recorded, NoDup;
    ListDistinct(m.mem, m.head, m.free);
    NothingRecorded(m.mem, m.free, pages);
    for i := 0 to |pages|
      invariant m.Valid() && DiskAt(m.mem, m.free, base) && Holds(m.mem, m.free, sp)
      invariant i <= |old(m.free)| && m.free == old(m.free)[i..] && m.mem.Keys == old(m.mem).Keys
      invariant Recorded(old(m.mem), old(m.free), m.mem, pages, i)
    {
      ghost var m1, f1 := m.mem, m.free;
      AllocFacts(m.mem, m.head, m.free, m.start, m.end);
      var pa := m.AllocPage();
      if pa == 0 { return false; }
      m.WritePage(pa / 4096, pages[i]);
      TakenKeeps(m1, f1, base, sp, pages[i]);
      RecordedStep(old(m.mem), old(m.free), m1, pages, i);
    }
    ok := true;
  }

  lemma TakenKeeps(mem: Mem, free: seq<nat>, base: u64, sp: Space, page: Page)
    requires free != [] && free[0] in mem && DiskAt(mem, free, base) && Holds(mem, free, sp)
    ensures var mem' := mem[free[0] := page]; DiskAt(mem', free[1..], base) && Holds(mem', free[1..], sp)
  {
    hide Shape;
    assert free[0] in free && forall f :: f in free[1..] ==> f in free;
    HoldsFrame(mem, free, mem[free[0] := page], free[1..], sp);
  }

  /** From power-on: a machine with enough memory boots, and whatever is then put on the disk is there at every
      moment of any run, block by block; so is the kernel's page table, and no process reaches either. */
  method BootAndRun(m: Memory, kernelEnd: u64, memSize: u64, etext: u64, image: seq<Page>, records: seq<Page>,
                    trapSec: u64, segs: seq<ElfSegment>, traps: seq<Trap>)
    returns (k: K.Kernel?, r: Result, n: nat, base: u64, ghost sp: Space, ghost rets: seq<int>,
             ghost trace: seq<Moment>)
    requires KERN_BASE < kernelEnd <= PHYS_TOP && etext % 4096 == 0 && KERN_BASE <= etext <= PHYS_TOP
    requires forall f :: f in m.mem ==> 0 < f < NVPN
    requires forall f :: DRAM_BASE <= f * 4096 < DRAM_BASE + memSize ==> f in m.mem
    requires trapSec % 4096 == 0 && KERN_BASE <= trapSec < kernelEnd && |image| == RAMDISK0_BLOCK && Plain(segs)
    modifies m
    ensures k == null ==> UsableRam(memSize) < kernelEnd - KERN_BASE || m.free == [] || !ProgramOk(segs)
                          || FramesAt(kernelEnd, memSize) < KERNEL_TABLES + RAMDISK0_BLOCK
    ensures k == null ==>
              || UsableRam(memSize) < kernelEnd - KERN_BASE || !ProgramOk(segs)
              || FramesAt(kernelEnd, memSize) < KERNEL_TABLES + RAMDISK0_BLOCK + |records| + 12 + 3 * |segs|
    ensures k != null ==> FramesAt(kernelEnd, memSize) >= KERNEL_TABLES + RAMDISK0_BLOCK && IsKernelMap(sp.pages, etext)
    ensures k != null ==> k.pm.m == m && IsRunOf(traps, n, r, rets, trace, Site(trapSec, m.start, m.end), m.free)
    ensures k != null ==> m.start == RoundUp(kernelEnd) && m.end == DRAM_BASE + UsableRam(memSize)
    ensures k != null ==> Started(trace[0], trapSec, segs)
    ensures k != null ==> forall i :: 0 <= i <= n ==> Safe(trace[i].memory, base, image, sp)
    ensures k != null && !r.Stopped? ==> k.Valid() && k.Now() == trace[n]
  {
    hide IsFreeList, Bounds, Holds, IsKernelMap, DiskAt, UsableRam, ListLength, Apart, ProgramOk, Blocks, RoundUp, Safe,
         Started, Linked, EndsFor, Beyond;
    k, r, n, rets, trace := null, Stopped(S.Halted), 0, [], [];
    var ok, root;
    ok, base, root, sp := BootMemory(m, kernelEnd, memSize, etext);
    if !ok || base == 0 { return; }
    ok := TakePages(m, records, base, sp);
    if !ok { return; }
    FillDisk(m, base, image, sp);
    TextBelow(kernelEnd, trapSec, m.start, m.end);
    k, r, n, rets, trace := StartAndRun(m, base, sp, trapSec, segs, traps);
  }

  lemma TextBelow(kernelEnd: u64, trapSec: u64, start: nat, end: nat)
    requires KERN_BASE <= trapSec < kernelEnd <= PHYS_TOP && start == RoundUp(kernelEnd)
    ensures !Managed(trapSec / 4096, start, end) && USER_STACK_PAGE < trapSec < MAXVA && USER_STACK_PAGE < start
  {
  }
}
