/** Boot, in the order of s_start: the free list of kernel/pmm.c, the kernel page table of
    kernel/vmm.c and the RAM disk of kernel/dev.c. */
module Boot {
  import opened Lists
  import opened Sv39
  import opened PageTable
  import opened Memory

  const DRAM_BASE: nat := 0x8000_0000
  const KERN_BASE: nat := 0x8000_0000
  const PKE_MAX_ALLOWABLE_RAM: nat := 0x800_0000
  const PHYS_TOP: nat := DRAM_BASE + PKE_MAX_ALLOWABLE_RAM
  const RAMDISK0_BLOCK: nat := 128

  function RoundUp(a: u64): (r: nat)
    requires a > 0
    ensures r % 4096 == 0 && a <= r < a + 4096
  {
    ((a - 1) / 4096 + 1) * 4096
  }

  /** The n frames from lo, highest first. */
  function Down(lo: nat, n: nat): (s: seq<nat>)
    ensures |s| == n && forall i :: 0 <= i < n ==> s[i] == lo + n - 1 - i
  {
    if n == 0 then [] else [lo + n - 1] + Down(lo, n - 1)
  }

  lemma {:induction false} DownSuffix(lo: nat, n: nat, k: nat)
    requires k <= n
    ensures Down(lo, n)[k..] == Down(lo, n - k)
  {
  }

  /** Number of pages create_freepage_list frees from the page-aligned start: those that end before end. */
  function ListLength(start: nat, end: nat): nat { if end <= start then 0 else (end - start - 1) / 4096 }

  /** create_freepage_list(start, end) over memory that holds all of [start, end): the pages go on the list
      in ascending order, so the list comes out descending. */
  method CreateFreepageList(m: Memory)
    requires m.start % 4096 == 0 && m.end < MAXVA
    requires m.IsRam()
    modifies m`head, m`free, m`mem
    ensures m.Valid() && m.free == Down(m.start / 4096, ListLength(m.start, m.end))
    ensures OnlyListed(old(m.mem), m.mem, m.free)
  {
    hide IsFreeList, Bounds, ListLength, Managed, OnlyListed, Down;
    m.head, m.free := 0, [];
    EmptyList(m.mem, m.start, m.end);
    NothingListed(m.mem, m.start / 4096);
    var p := m.start;
    ghost var k := 0;
    while p + 4096 < m.end
      invariant p == m.start + 4096 * k && k <= ListLength(m.start, m.end)
      invariant m.Valid() && m.free == Down(m.start / 4096, k)
      invariant OnlyListed(old(m.mem), m.mem, m.free)
      decreases m.end - p
    {
      ListTurn(m.start, m.end, k);
      ghost var m1, f1, h1 := m.mem, m.free, m.head;
      var ok := m.FreePage(p);
      ListedOne(old(m.mem), m1, f1, m.start / 4096, k, m1[p / 4096][0 := h1]);
      p, k := p + 4096, k + 1;
    }
    ListTurn(m.start, m.end, k);
  }

  /** No frame was written but those on the list. */
  ghost predicate OnlyListed(mem: Mem, mem': Mem, free: seq<nat>)
  {
    mem'.Keys == mem.Keys && forall f :: f in mem' && f !in free ==> mem'[f] == mem[f]
  }

  lemma {:induction false} NothingListed(mem: Mem, lo: nat)
    ensures OnlyListed(mem, mem, []) && Down(lo, 0) == []
  {
  }

  lemma ListedOne(mem0: Mem, mem: Mem, free: seq<nat>, lo: nat, k: nat, page: Page)
    requires OnlyListed(mem0, mem, free) && free == Down(lo, k) && lo + k in mem
    ensures OnlyListed(mem0, mem[lo + k := page], [lo + k] + free) && [lo + k] + free == Down(lo, k + 1)
  {
  }

  lemma ListTurn(start: nat, end: nat, k: nat)
    requires start % 4096 == 0
    ensures start + 4096 * k + 4096 < end <==> k < ListLength(start, end)
    ensures k < ListLength(start, end) ==> Managed((start + 4096 * k) / 4096, start, end)
    ensures (start + 4096 * k) / 4096 == start / 4096 + k && (start + 4096 * k) % 4096 == 0
  {
  }

  lemma EmptyList(mem: Mem, start: nat, end: nat)
    requires (forall f :: f in mem ==> 0 < f < NVPN) && forall f :: Managed(f, start, end) ==> f in mem
    ensures IsFreeList(mem, 0, []) && Bounds(mem, [], start, end)
  {
  }

  /** pmm_init for a kernel that ends at kernelEnd, on a machine that reports memSize bytes of memory. */
  method PmmInit(m: Memory, kernelEnd: u64, memSize: u64) returns (ok: bool)
    requires KERN_BASE < kernelEnd <= PHYS_TOP
    requires (forall f :: f in m.mem ==> 0 < f < NVPN) && forall f :: DRAM_BASE <= f * 4096 < DRAM_BASE + memSize ==>
              f in m.mem
    modifies m
    ensures ok <==> kernelEnd - KERN_BASE <= UsableRam(memSize)
    ensures ok ==> m.Valid() && m.start == RoundUp(kernelEnd) && m.end == DRAM_BASE + UsableRam(memSize)
    ensures ok ==> m.free == Down(m.start / 4096, ListLength(m.start, m.end))
    ensures ok ==> OnlyListed(old(m.mem), m.mem, m.free)
  {
    hide IsFreeList, Bounds, ListLength;
    var size := if PKE_MAX_ALLOWABLE_RAM < memSize then PKE_MAX_ALLOWABLE_RAM else memSize;
    if size < kernelEnd - KERN_BASE { return false; }
    m.start, m.end := RoundUp(kernelEnd), size + DRAM_BASE;
    CreateFreepageList(m);
    ok := true;
  }

  function UsableRam(memSize: nat): nat { if PKE_MAX_ALLOWABLE_RAM < memSize then PKE_MAX_ALLOWABLE_RAM else memSize }

  /** The kernel's translations: identity on [KERN_BASE, PHYS_TOP), text readable and executable, the
      rest readable and writable, nothing for user mode. */
  ghost predicate IsKernelMap(pages: map<nat, u64>, etext: u64)
  {
    && (forall v :: v in pages <==> KERN_BASE / 4096 <= v < PHYS_TOP / 4096)
    && (forall v :: v in pages ==> KernelEntry(v, pages[v], etext))
  }

  ghost predicate KernelEntry(v: nat, pte: u64, etext: u64)
  {
    && Pte2Pa(pte) == v * 4096 && PteV(pte) && PteR(pte)
    && (PteW(pte) <==> v * 4096 >= etext) && (PteX(pte) <==> v * 4096 < etext) && !PteU(pte)
  }

  /** kern_vm_map on pages that are not mapped yet. */
  method KernVmMap(m: Memory, root: nat, va: u64, pa: u64, size: u64, perm: Perm, ghost sp: Space)
    returns (r: MapResult, ghost sp': Space)
    requires m.Valid() && Holds(m.mem, m.free, sp) && sp.tables[Root] == root
    requires va % 4096 == 0 && size % 4096 == 0 && 0 < va && va + size <= PHYS_TOP
    requires Unmapped(sp.pages, va / 4096, size / 4096)
    modifies m`mem, m`head, m`free
    ensures m.Valid() && IsSuffix(m.free, old(m.free))
    ensures r == if |Paths(sp.tables.Keys, va / 4096, size / 4096)| <= |old(m.free)| then Done else NoFrame
    ensures r.NoFrame? ==> m.free == []
    ensures r.Done? ==> Holds(m.mem, m.free, sp') && sp'.tables[Root] == root
                        && sp'.pages == Mapped(sp.pages, va / 4096, size / 4096, pa, perm)
                        && Took(Paths(sp.tables.Keys, va / 4096, size / 4096), old(m.free), m.free, sp, sp')
  {
    hide IsFreeList, Bounds, Grown, Span, Mapped, Holds, Paths;
    HoldsRoot(m.mem, m.free, sp);
    WholeSpan(va, size);
    ghost var n;
    r, sp', n := m.MapPages(root, va, size, pa, perm, sp);
    if r.NoFrame? { PathsAdd(sp.tables.Keys, va / 4096, n + 1, size / 4096 - n - 1); }
    GrownIsSuffix(old(m.mem), old(m.free), sp, m.mem, m.free, sp');
    GrownKeeps(old(m.mem), old(m.free), sp, m.mem, m.free, sp', Root);
  }

  lemma HoldsRoot(mem: Mem, free: seq<nat>, sp: Space)
    requires Holds(mem, free, sp)
    ensures Root in sp.tables
  {
  }

  /** The directory, the middle table and the 64 leaf tables of 128 MB from KERN_BASE. */
  const KERNEL_TABLES: nat := 66

  function Leaves(lo: nat, n: nat): seq<TableId> { seq(n, i requires 0 <= i < n => Leaf(lo + i)) }

  /** The tables map_pages adds to an empty directory for the first n pages of the kernel. */
  function KernelPath(n: nat): seq<TableId> { if n == 0 then [] else [Mid(2)] + Leaves(1024, (n + 511) / 512) }

  lemma {:induction false} KernelPaths(n: nat)
    requires n <= 0x8000
    ensures Paths({Root}, KERN_BASE / 4096, n) == KernelPath(n)
  {
    hide KernelPath, Missing;
    if n == 0 {
      KernelPathEnds();
    } else {
      KernelPaths(n - 1);
      KernelPathStep(n - 1);
    }
  }

  lemma KernelPathStep(n: nat)
    requires n < 0x8000
    ensures KernelPath(n + 1) == KernelPath(n) + Missing({Root} + Ids(KernelPath(n)), KERN_BASE / 4096 + n, 0)
  {
    hide KernelPath, Missing, Leaves;
    var q, r := n / 512, n % 512;
    assert n == 512 * q + r && q < 64;
    KernelPathIs(n, q, r);
    LeafListed(n, q, r);
    KernelMissing({Root} + Ids(KernelPath(n)), n, q, r);
    LeavesGrow(1024, q);
  }

  lemma LeavesGrow(lo: nat, q: nat)
    ensures Leaves(lo, q + 1) == Leaves(lo, q) + [Leaf(lo + q)] && Leaves(lo, 0) == []
  {
  }

  lemma KernelPathIs(n: nat, q: nat, r: nat)
    requires n == 512 * q + r && r < 512
    ensures KernelPath(n) == if n == 0 then [] else [Mid(2)] + Leaves(1024, if r == 0 then q else q + 1)
    ensures KernelPath(n + 1) == [Mid(2)] + Leaves(1024, q + 1)
  {
    LeafCount(n, q, r);
  }

  lemma KernelMissing(ids: set<TableId>, n: nat, q: nat, r: nat)
    requires n == 512 * q + r && r < 512 && q < 64
    ensures Missing(ids, KERN_BASE / 4096 + n, 0)
         == (if Mid(2) in ids then [] else [Mid(2)]) + (if Leaf(1024 + q) in ids then [] else [Leaf(1024 + q)])
  {
    Unique(KERN_BASE / 4096 + n, 512, 1024 + q, r);
    Unique(1024 + q, 512, 2, q);
  }

  /** Leaf tables begun by n and by n + 1 pages. */
  lemma LeafCount(n: nat, q: nat, r: nat)
    requires n == 512 * q + r && r < 512
    ensures (n + 511) / 512 == (if r == 0 then q else q + 1) && (n + 512) / 512 == q + 1
  {
    Unique(n + 512, 512, q + 1, r);
    if r == 0 { Unique(n + 511, 512, q, 511); } else { Unique(n + 511, 512, q + 1, r - 1); }
  }

  /** The leaf table of page n is there exactly if it is not the first page of its table. */
  lemma LeafListed(n: nat, q: nat, r: nat)
    requires n == 512 * q + r && r < 512
    ensures Leaf(1024 + q) in KernelPath(n) <==> r != 0
    ensures Mid(2) in KernelPath(n) <==> n != 0
  {
    LeafCount(n, q, r);
    if n > 0 { assert KernelPath(n)[0] == Mid(2); }
    if r != 0 { assert KernelPath(n)[1 + q] == Leaf(1024 + q); }
  }

  /** kern_vm_init. It never meets a page that is already mapped: it takes exactly its 66 tables off the list, or
      runs out of frames. */
  method KernVmInit(m: Memory, etext: u64) returns (r: MapResult, root: nat, ghost sp: Space)
    requires m.Valid() && etext % 4096 == 0 && KERN_BASE <= etext <= PHYS_TOP
    modifies m`mem, m`head, m`free
    ensures m.Valid() && r == if |old(m.free)| >= KERNEL_TABLES then Done else NoFrame
    ensures r.Done? ==> Holds(m.mem, m.free, sp) && sp.tables[Root] == root && IsKernelMap(sp.pages, etext)
    ensures r.Done? ==> m.free == old(m.free)[KERNEL_TABLES..] && root == old(m.free)[0]
    ensures r.Done? ==> forall id :: id in sp.tables ==> sp.tables[id] in old(m.free)[..KERNEL_TABLES]
    ensures r.NoFrame? ==> m.free == []
  {
    hide IsFreeList, Bounds, Holds, IsKernelMap, Mapped, IsSuffix, Unmapped, Paths, Took, KernelPath, Ids;
    r, root, sp := NewDirectory(m);
    if r != Done { return; }
    ghost var f1, sp1, n := m.free, sp, (etext - KERN_BASE) / 4096;
    assert sp1.tables.Keys == {Root};
    KernelPaths(0x8000);
    KernelPathEnds();
    assert n + (PHYS_TOP - etext) / 4096 == 0x8000 && etext / 4096 == KERN_BASE / 4096 + n;
    PathsAdd({Root}, KERN_BASE / 4096, n, (PHYS_TOP - etext) / 4096);
    TextFree(etext);
    r, sp := KernVmMap(m, root, KERN_BASE, DRAM_BASE, etext - KERN_BASE, ProtToType(5, false), sp);
    if r != Done { return; }
    ghost var f2, sp2 := m.free, sp;
    TookLength(Paths({Root}, KERN_BASE / 4096, n), f1, f2, sp1, sp2);
    RestFree(etext);
    r, sp := KernVmMap(m, root, etext, etext, PHYS_TOP - etext, ProtToType(3, false), sp);
    if r == Done {
      KernelMapped(sp.pages, etext);
      TookMore(Paths({Root}, KERN_BASE / 4096, n), Paths(sp2.tables.Keys, etext / 4096, (PHYS_TOP - etext) / 4096),
               f1, f2, m.free, sp1, sp2, sp);
      KernelTook(old(m.free), f1, m.free, sp1, sp);
    }
  }

  lemma KernelTook(f0: seq<nat>, f1: seq<nat>, f2: seq<nat>, sp1: Space, sp: Space)
    requires f0 != [] && f1 == f0[1..] && sp1.tables == map[Root := f0[0]] && Took(KernelPath(0x8000), f1, f2, sp1, sp)
    ensures |f0| >= KERNEL_TABLES && f2 == f0[KERNEL_TABLES..]
    ensures forall id :: id in sp.tables ==> sp.tables[id] in f0[..KERNEL_TABLES]
  {
    hide KernelPath;
    var ms := KernelPath(0x8000);
    assert |ms| == 65 by { KernelPathEnds(); }
    forall id | id in sp.tables ensures sp.tables[id] in f0[..KERNEL_TABLES] {
      assert id in sp.tables.Keys;
      if id == Root {
        assert f0[..KERNEL_TABLES][0] == f0[0];
      } else {
        var i :| 0 <= i < |ms| && ms[i] == id;
        assert f0[..KERNEL_TABLES][i + 1] == f1[i];
      }
    }
  }

  lemma KernelPathEnds()
    ensures KernelPath(0) == [] && |KernelPath(0x8000)| == 65
  {
  }

  lemma TextFree(etext: u64)
    requires etext % 4096 == 0 && KERN_BASE <= etext <= PHYS_TOP
    ensures Unmapped(map[], KERN_BASE / 4096, (etext - KERN_BASE) / 4096)
  {
  }

  lemma RestFree(etext: u64)
    requires etext % 4096 == 0 && KERN_BASE <= etext <= PHYS_TOP
    ensures Unmapped(Mapped(map[], KERN_BASE / 4096, (etext - KERN_BASE) / 4096, DRAM_BASE, ProtToType(5, false)),
                     etext / 4096, (PHYS_TOP - etext) / 4096)
  {
  }

  /** A zeroed frame as an empty page directory; without a frame the kernel faults. */
  method NewDirectory(m: Memory) returns (r: MapResult, root: nat, ghost sp: Space)
    requires m.Valid()
    modifies m`mem, m`head, m`free
    ensures m.Valid() && r == if old(m.free) == [] then NoFrame else Done
    ensures r.NoFrame? ==> m.free == []
    ensures r.Done? ==> Holds(m.mem, m.free, sp) && sp.pages == map[]
    ensures r.Done? ==> m.free == old(m.free)[1..] && root == old(m.free)[0] && sp.tables == map[Root := root]
  {
    hide IsFreeList, Bounds;
    root, sp := 0, Space(map[], map[]);
    AllocFacts(m.mem, m.head, m.free, m.start, m.end);
    var pa := m.AllocPage();
    if pa == 0 { return NoFrame, root, sp; }
    root := pa / 4096;
    m.WritePage(root, ZeroPage());
    sp := Space(map[Root := root], map[]);
    RootOnly(m.mem, m.free, root);
    r := Done;
  }

  lemma WholeSpan(va: u64, size: u64)
    requires va % 4096 == 0 && size % 4096 == 0 && 0 < va && va + size <= PHYS_TOP
    ensures Span(va, size) == size / 4096
  {
    assert (va + size + TWO64 - 1) % TWO64 == va + size - 1;
  }

  lemma {:induction false} KernelMapped(pages: map<nat, u64>, etext: u64)
    requires etext % 4096 == 0 && KERN_BASE <= etext <= PHYS_TOP
    requires pages == Mapped(Mapped(map[], KERN_BASE / 4096, (etext - KERN_BASE) / 4096, DRAM_BASE,
                                    ProtToType(5, false)),
                             etext / 4096, (PHYS_TOP - etext) / 4096, etext, ProtToType(3, false))
    ensures IsKernelMap(pages, etext)
  {
    hide PteFor, KernelEntry, ProtToType, Mapped;
    var text := Mapped(map[], KERN_BASE / 4096, (etext - KERN_BASE) / 4096, DRAM_BASE, ProtToType(5, false));
    forall v | KERN_BASE / 4096 <= v < PHYS_TOP / 4096 ensures v in pages && KernelEntry(v, pages[v], etext) {
      if v < etext / 4096 {
        assert pages[v] == text[v];
        EntryOf(DRAM_BASE, v - KERN_BASE / 4096, 5, v, etext);
      } else {
        EntryOf(etext, v - etext / 4096, 3, v, etext);
      }
    }
  }

  lemma EntryOf(pa: u64, i: nat, prot: bv8, v: nat, etext: u64)
    requires pa % 4096 == 0 && v == pa / 4096 + i && v < NVPN && etext % 4096 == 0
    requires prot == if v * 4096 < etext then 5 else 3
    ensures KernelEntry(v, PteFor(pa, i, ProtToType(prot, false)), etext)
  {
    hide MakePte, ProtToType, PaAt, PteV, PteR, PteW, PteX, PteU, Pte2Pa;
    FrameAddress(pa, i, v);
    MakePteFields(v * 4096, ProtToType(prot, false));
    ProtFlags(prot, false);
  }

  lemma FrameAddress(pa: u64, i: nat, v: nat)
    requires pa % 4096 == 0 && v == pa / 4096 + i && v < NVPN
    ensures PaAt(pa, i) == v * 4096
  {
  }

  lemma RootOnly(mem: Mem, free: seq<nat>, root: nat)
    requires root in mem && root !in free && mem[root] == ZeroPage()
    ensures Holds(mem, free, Space(map[Root := root], map[]))
  {
  }

  /** init_ramdisk0: as many allocations as the disk has blocks, the last address kept. On a descending
      list the frames taken are one region that starts there. */
  method InitRamdisk(m: Memory, ghost lo: nat) returns (base: u64)
    requires m.Valid() && m.free == Down(lo, |m.free|)
    modifies m`head, m`free
    ensures m.Valid()
    ensures base % 4096 == 0 && (|old(m.free)| < RAMDISK0_BLOCK ==> base == 0 && m.free == [])
    ensures forall f :: f in m.free ==> f in old(m.free)
    ensures |old(m.free)| >= RAMDISK0_BLOCK ==>
              && m.free == Down(lo, |old(m.free)| - RAMDISK0_BLOCK)
              && base / 4096 == lo + |m.free| && DiskAt(m.mem, m.free, base)
  {
    hide IsFreeList, Bounds;
    base := 0;
    ghost var n := |m.free|;
    for i := 0 to RAMDISK0_BLOCK
      invariant m.Valid() && (if i <= n then m.free == Down(lo, n - i) else m.free == [] && base == 0)
      invariant 0 < i <= n ==> base == (lo + n - i) * 4096
      invariant forall f :: f in m.free ==> f in old(m.free)
    {
      if m.free != [] { DownSuffix(lo, n - i, 1); }
      base := m.AllocPage();
    }
    if n >= RAMDISK0_BLOCK { DiskInMemory(m.mem, old(m.free), m.start, m.end, lo); }
  }

  /** The frames of the disk's blocks exist and are not on the free list. */
  ghost predicate DiskAt(mem: Mem, free: seq<nat>, base: u64)
  {
    base % 4096 == 0 && forall f :: base / 4096 <= f < base / 4096 + RAMDISK0_BLOCK ==> f in mem && f !in free
  }

  lemma {:induction false} DiskInMemory(mem: Mem, free: seq<nat>, start: nat, end: nat, lo: nat)
    requires Bounds(mem, free, start, end) && free == Down(lo, |free|) && |free| >= RAMDISK0_BLOCK
    ensures var n := |free| - RAMDISK0_BLOCK;
            DiskAt(mem, Down(lo, n), (lo + n) * 4096 % TWO64) && (lo + n) * 4096 < TWO64
  {
    var n := |free| - RAMDISK0_BLOCK;
    assert free[0] in free;
    forall f | lo + n <= f < lo + n + RAMDISK0_BLOCK ensures f in mem && f !in Down(lo, n) {
      assert free[lo + |free| - 1 - f] == f;
    }
  }

  /** The disk's contents, block by block. */
  function Blocks(mem: Mem, base: u64): (d: seq<Page>)
    requires forall f :: base / 4096 <= f < base / 4096 + RAMDISK0_BLOCK ==> f in mem
    ensures |d| == RAMDISK0_BLOCK == 128
  {
    seq(RAMDISK0_BLOCK, b requires 0 <= b < RAMDISK0_BLOCK => mem[base / 4096 + b])
  }

  /** ramdisk0_input: one block is replaced and no other frame is written; panics out of range. */
  method DiskWrite(m: Memory, base: u64, buffer: Page, blkno: int) returns (ok: bool)
    requires m.Valid() && DiskAt(m.mem, m.free, base)
    modifies m`mem
    ensures m.Valid() && DiskAt(m.mem, m.free, base) && (ok <==> 0 <= blkno < RAMDISK0_BLOCK)
    ensures Blocks(m.mem, base) == if ok then old(Blocks(m.mem, base))[blkno := buffer] else old(Blocks(m.mem, base))
    ensures m.mem.Keys == old(m.mem).Keys
    ensures forall f :: f in m.mem && !(base / 4096 <= f < base / 4096 + RAMDISK0_BLOCK) ==> m.mem[f] == old(m.mem)[f]
  {
    hide IsFreeList, Bounds;
    ok := 0 <= blkno < RAMDISK0_BLOCK;
    if ok { m.WritePage((base + blkno * 4096) / 4096, buffer); }
  }

  /** ramdisk0_output. */
  method DiskRead(m: Memory, base: u64, blkno: int) returns (ok: bool, buffer: Page)
    requires m.Valid() && DiskAt(m.mem, m.free, base)
    ensures ok <==> 0 <= blkno < RAMDISK0_BLOCK
    ensures ok ==> buffer == Blocks(m.mem, base)[blkno]
  {
    ok, buffer := 0 <= blkno < RAMDISK0_BLOCK, ZeroPage();
    if ok { buffer := m.mem[(base + blkno * 4096) / 4096]; }
  }

  /** Number of free frames after pmm_init. */
  function FramesAt(kernelEnd: u64, memSize: u64): nat
    requires kernelEnd > 0
  {
    ListLength(RoundUp(kernelEnd), DRAM_BASE + UsableRam(memSize))
  }

  /** s_start up to fs_init: the free list, the kernel page table, the RAM disk. Everything before the
      disk only takes frames off a descending list, so the disk is one region whatever came before, and
      apart from the page table. It all succeeds exactly if there is memory enough. */
  method BootMemory(m: Memory, kernelEnd: u64, memSize: u64, etext: u64)
    returns (ok: bool, base: u64, root: nat, ghost sp: Space)
    requires KERN_BASE < kernelEnd <= PHYS_TOP && etext % 4096 == 0 && KERN_BASE <= etext <= PHYS_TOP
    requires (forall f :: f in m.mem ==> 0 < f < NVPN) && forall f :: DRAM_BASE <= f * 4096 < DRAM_BASE + memSize ==>
              f in m.mem
    modifies m
    ensures ok <==> kernelEnd - KERN_BASE <= UsableRam(memSize) && FramesAt(kernelEnd, memSize) >= KERNEL_TABLES
    ensures ok ==> m.Valid() && m.start == RoundUp(kernelEnd) && m.end == DRAM_BASE + UsableRam(memSize)
    ensures ok ==> Holds(m.mem, m.free, sp) && sp.tables[Root] == root && IsKernelMap(sp.pages, etext)
    ensures ok ==> forall id :: id in sp.tables ==> Managed(sp.tables[id], m.start, m.end)
    ensures ok ==> (base != 0 <==> FramesAt(kernelEnd, memSize) >= KERNEL_TABLES + RAMDISK0_BLOCK)
    ensures ok && base != 0 ==> DiskAt(m.mem, m.free, base) && m.start <= base && base + RAMDISK0_BLOCK * 4096 < m.end
    ensures ok && base != 0 ==> Apart(sp, base)
    ensures ok && base != 0 ==>
              m.free == Down(m.start / 4096, FramesAt(kernelEnd, memSize) - KERNEL_TABLES - RAMDISK0_BLOCK)
    ensures ok && base == 0 ==> m.free == []
  {
    hide IsFreeList, Bounds, Holds, IsKernelMap, DiskAt, RoundUp, UsableRam, ListLength, Apart;
    base, root, sp := 0, 0, Space(map[], map[]);
    ok := PmmInit(m, kernelEnd, memSize);
    if !ok { return; }
    ghost var lo, n, f0, m0 := m.start / 4096, |m.free|, m.free, m.mem;
    var r;
    r, root, sp := KernVmInit(m, etext);
    if r != Done {
      ok := false;
      return;
    }
    TablesManaged(m0, f0, m.start, m.end, sp);
    DownSuffix(lo, n, KERNEL_TABLES);
    ghost var f1, taken := m.free, |m.free|;
    base := InitRamdisk(m, lo);
    FewerFree(m.mem, f1, m.free, sp);
    if taken >= RAMDISK0_BLOCK {
      DiskRange(m.start, m.end, taken - RAMDISK0_BLOCK, base);
      DiskApart(m.mem, f1, sp, base, lo);
    }
  }

  lemma TablesManaged(mem: Mem, free: seq<nat>, start: nat, end: nat, sp: Space)
    requires Bounds(mem, free, start, end) && |free| >= KERNEL_TABLES
    requires forall id :: id in sp.tables ==> sp.tables[id] in free[..KERNEL_TABLES]
    ensures forall id :: id in sp.tables ==> Managed(sp.tables[id], start, end)
  {
    hide Managed;
    forall id | id in sp.tables ensures Managed(sp.tables[id], start, end) {
      assert sp.tables[id] in free[..KERNEL_TABLES];
      assert sp.tables[id] in free;
    }
  }

  /** No block of the disk is a page table. */
  ghost predicate Apart(sp: Space, base: u64)
  {
    forall f :: base / 4096 <= f < base / 4096 + RAMDISK0_BLOCK ==> f !in sp.tables.Values
  }

  lemma FewerFree(mem: Mem, free: seq<nat>, free': seq<nat>, sp: Space)
    requires Holds(mem, free, sp) && forall f :: f in free' ==> f in free
    ensures Holds(mem, free', sp)
  {
    hide Shape;
    HoldsFrame(mem, free, mem, free', sp);
  }

  lemma {:induction false} DiskApart(mem: Mem, free: seq<nat>, sp: Space, base: u64, lo: nat)
    requires Holds(mem, free, sp) && free == Down(lo, |free|) && |free| >= RAMDISK0_BLOCK
    requires base / 4096 == lo + |free| - RAMDISK0_BLOCK
    ensures Apart(sp, base)
  {
    hide Shape;
    forall f | base / 4096 <= f < base / 4096 + RAMDISK0_BLOCK ensures f in free {
      assert free[lo + |free| - 1 - f] == f;
    }
  }

  lemma DiskRange(start: nat, end: nat, k: nat, base: u64)
    requires start % 4096 == 0 && base % 4096 == 0 && base / 4096 == start / 4096 + k
    requires k + RAMDISK0_BLOCK <= ListLength(start, end)
    ensures start <= base && base + RAMDISK0_BLOCK * 4096 < end
  {
    ListTurn(start, end, k + RAMDISK0_BLOCK - 1);
  }
}
