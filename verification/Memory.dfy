/** Physical frames, the intrusive free list of kernel/pmm.c and the page-table walks of kernel/vmm.c. */
module Memory {
  import opened Sv39
  import opened PageTable
  import opened Lists

  /** Address of the i-th free frame, 0 (the null link) past the end. */
  function NodeAddr(free: seq<nat>, i: nat): nat { if i < |free| then free[i] * 4096 else 0 }

  /** The links starting at head visit exactly the frames of free, in order, and stop. */
  ghost predicate IsFreeList(mem: Mem, head: nat, free: seq<nat>)
  {
    && NoDup(free)
    && head == NodeAddr(free, 0)
    && (forall i :: 0 <= i < |free| ==> free[i] in mem && mem[free[i]][0] == NodeAddr(free, i + 1))
  }

  /** Frames managed by the allocator exist, and every address in memory can be walked. */
  ghost predicate Bounds(mem: Mem, free: seq<nat>, start: nat, end: nat)
  {
    && (forall f :: f in mem ==> 0 < f < NVPN)
    && (forall f :: Managed(f, start, end) ==> f in mem)
    && (forall f :: f in free ==> Managed(f, start, end))
  }

  lemma PopFree(mem: Mem, head: nat, free: seq<nat>)
    requires IsFreeList(mem, head, free) && free != []
    ensures free[0] in mem && mem[free[0]][0] == NodeAddr(free[1..], 0)
    ensures IsFreeList(mem, NodeAddr(free[1..], 0), free[1..])
    ensures free[0] !in free[1..]
  {
    var rest := free[1..];
    forall i | 0 <= i < |rest| ensures rest[i] in mem && mem[rest[i]][0] == NodeAddr(rest, i + 1) {
      assert rest[i] == free[i + 1];
    }
  }

  lemma PushFree(mem: Mem, head: u64, free: seq<nat>, f: nat)
    requires IsFreeList(mem, head, free) && f !in free && f in mem
    ensures IsFreeList(mem[f := mem[f][0 := head]], f * 4096, [f] + free)
  {
    var free', mem' := [f] + free, mem[f := mem[f][0 := head]];
    forall i | 0 <= i < |free'| ensures free'[i] in mem' && mem'[free'[i]][0] == NodeAddr(free', i + 1) {
      if i > 0 { assert free'[i] == free[i - 1]; }
    }
  }

  /** Writes outside the free frames leave the list alone. */
  lemma FreeListFrame(mem: Mem, head: nat, free: seq<nat>, mem': Mem)
    requires IsFreeList(mem, head, free)
    requires forall f :: f in free ==> f in mem' && mem'[f] == mem[f]
    ensures IsFreeList(mem', head, free)
  {
  }

  lemma ListHead(mem: Mem, head: nat, free: seq<nat>)
    requires IsFreeList(mem, head, free)
    ensures head == NodeAddr(free, 0)
  {
  }

  lemma ListDistinct(mem: Mem, head: nat, free: seq<nat>)
    requires IsFreeList(mem, head, free)
    ensures NoDup(free)
  {
  }

  lemma AllocFacts(mem: Mem, head: nat, free: seq<nat>, start: nat, end: nat)
    requires IsFreeList(mem, head, free) && Bounds(mem, free, start, end)
    ensures free != [] ==> free[0] in mem && 0 < free[0] < NVPN && free[0] !in free[1..] && Managed(free[0], start, end)
  {
  }

  lemma AddTableFacts(mem: Mem, head: nat, free: seq<nat>, start: nat, end: nat, sp: Space, id: TableId, j: nat)
    requires IsFreeList(mem, head, free) && Bounds(mem, free, start, end) && Holds(mem, free, sp) && free != []
    requires id in sp.tables && !id.Leaf? && j < 512 && Child(id, j) !in sp.tables
    ensures free[0] in mem && sp.tables[id] in mem && 0 < free[0] < NVPN
    ensures var t, f := sp.tables[id], free[0];
            var mem' := mem[f := ZeroPage()][t := mem[t][j := Link(f)]];
            var sp' := Space(sp.tables[Child(id, j) := f], sp.pages);
            && t != f
            && IsFreeList(mem', NodeAddr(free[1..], 0), free[1..]) && Bounds(mem', free[1..], start, end)
            && Holds(mem', free[1..], sp') && Grown(mem, free, sp, mem', free[1..], sp')
  {
    hide Grown, Holds, IsFreeList, Bounds;
    AllocFacts(mem, head, free, start, end);
    PopFree(mem, head, free);
    HoldsTable(mem, free, sp, id);
    var t, f := sp.tables[id], free[0];
    var mem' := mem[f := ZeroPage()][t := mem[t][j := Link(f)]];
    assert forall g :: g in free[1..] ==> g in free;
    FreeFrameExists(mem, head, free);
    FreeListFrame(mem, mem[f][0], free[1..], mem');
    BoundsFrame(mem, free, start, end, mem', free[1..]);
    LinkTable(mem, free, free[1..], sp, id, j, f);
    GrownByOne(mem, free, sp, id, j);
  }

  lemma FreeFrameExists(mem: Mem, head: nat, free: seq<nat>)
    requires IsFreeList(mem, head, free)
    ensures forall f :: f in free ==> f in mem
  {
  }

  lemma BoundsFrame(mem: Mem, free: seq<nat>, start: nat, end: nat, mem': Mem, free': seq<nat>)
    requires Bounds(mem, free, start, end) && mem'.Keys == mem.Keys && forall f :: f in free' ==> f in free
    ensures Bounds(mem', free', start, end)
  {
  }

  /** Writing a leaf entry moves no list node and leaves every frame outside the tree alone. */
  lemma StoreFacts(mem: Mem, head: nat, free: seq<nat>, start: nat, end: nat, sp: Space, v: nat, pte: u64)
    requires IsFreeList(mem, head, free) && Bounds(mem, free, start, end) && Holds(mem, free, sp)
    requires v < NVPN && Leaf(v / 512) in sp.tables && (pte == 0 || PteV(pte))
    ensures var t := sp.tables[Leaf(v / 512)];
            && t in mem
            && var mem' := mem[t := mem[t][v % 512 := pte]];
            var sp' := Space(sp.tables, SetPage(sp.pages, v, pte));
            && IsFreeList(mem', head, free) && Bounds(mem', free, start, end)
            && Holds(mem', free, sp') && Grown(mem, free, sp, mem', free, sp')
  {
    hide Shape;
    var t := sp.tables[Leaf(v / 512)];
    assert t in sp.tables.Values;
    FreeListFrame(mem, head, free, mem[t := mem[t][v % 512 := pte]]);
    StoreLeaf(mem, free, sp, v, pte);
  }

  /** The physical page address lookup_pa returns; 0 when the page is not mapped or neither
      readable nor writable. */
  ghost function Lookup(sp: Space, va: u64): (pa: u64)
    ensures pa % 4096 == 0
  {
    if va >= MAXVA || va / 4096 !in sp.pages then 0
    else
      var pte := sp.pages[va / 4096];
      if !PteR(pte) && !PteW(pte) then 0 else Pte2Pa(pte)
  }

  lemma PteAddress(pte: u64)
    ensures Pte2Pa(pte) % 4096 == 0 && FrameOf(pte) * 4096 == Pte2Pa(pte)
  {
  }

  lemma ReclaimFacts(mem: Mem, head: u64, free: seq<nat>, start: nat, end: nat, sp: Space, v: nat)
    requires IsFreeList(mem, head, free) && Bounds(mem, free, start, end) && Holds(mem, free, sp)
    requires v in sp.pages && Reclaimable(sp, free, v, 1, start, end)
    requires FrameOf(sp.pages[v]) in mem && Managed(FrameOf(sp.pages[v]), start, end)
    ensures var f := FrameOf(sp.pages[v]);
            Holds(mem[f := mem[f][0 := head]], [f] + free, sp)
  {
    hide FrameOf, Shape;
    var f := FrameOf(sp.pages[v]);
    forall id | id in sp.tables ensures sp.tables[id] != f {
      assert sp.tables[id] in sp.tables.Values;
    }
    HoldsFrame(mem, free, mem[f := mem[f][0 := head]], [f] + free, sp);
  }

  lemma StillRemovable(sp: Space, v: nat, total: nat, n: nat, reclaim: bool, start: nat, end: nat)
    requires AllUnmappable(sp, v, total, reclaim, start, end) && n < total
    ensures CanUnmap(sp, v + n, reclaim, start, end)
  {
  }

  lemma NoneMissing(ids: set<TableId>, v: nat)
    ensures Missing(ids, v, 2) == []
  {
  }

  /** When nothing is left, all there was is in the tables added. */
  lemma TookAll(ms: seq<TableId>, free: seq<nat>, sp: Space, sp': Space)
    requires Took(ms, free, [], sp, sp')
    ensures |free| == |ms|
  {
  }

  lemma TookTables(ms: seq<TableId>, free: seq<nat>, free': seq<nat>, sp: Space, sp': Space, sp2: Space)
    requires Took(ms, free, free', sp, sp') && sp2.tables == sp'.tables
    ensures Took(ms, free, free', sp, sp2)
  {
  }

  /** The tables the next page of a range needs. */
  lemma TookPage(ids: set<TableId>, v: nat, n: nat, free: seq<nat>, free': seq<nat>, sp: Space, sp': Space)
    requires Took(Paths(ids, v, n), free, free', sp, sp') && ids == sp.tables.Keys
    ensures Paths(ids, v, n + 1) == Paths(ids, v, n) + Missing(sp'.tables.Keys, v + n, 0)
    ensures |free| == |Paths(ids, v, n)| + |free'|
  {
    hide Missing;
  }

  lemma {:induction false} MappedNone(pages: map<nat, u64>, v: nat, pa: u64, perm: Perm)
    ensures Mapped(pages, v, 0, pa, perm) == pages
  {
  }

  lemma MappedStep(pages: map<nat, u64>, v: nat, n: nat, pa: u64, perm: Perm)
    ensures Mapped(pages, v, n + 1, pa, perm) == Mapped(pages, v, n, pa, perm)[v + n := MakePte(PaAt(pa, n), perm)]
  {
  }

  datatype MapResult = Done | NoFrame | Panic

  /** The pointer page_walk returns: halted, null, or word idx of a frame. */
  datatype Walk = Halted | Null | At(frame: nat, idx: nat)

  class Memory {
    var mem: Mem
    var head: u64
    var start: u64
    var end: u64
    ghost var free: seq<nat>

    ghost predicate Valid()
      reads this
    {
      IsFreeList(mem, head, free) && Bounds(mem, free, start, end)
    }

    /** Every managed frame exists and can be reached by a page walk, whatever the list says. */
    ghost predicate IsRam()
      reads this
    {
      (forall f :: f in mem ==> 0 < f < NVPN) && forall f :: Managed(f, start, end) ==> f in mem
    }

    method AllocPage() returns (pa: u64)
      requires Valid()
      modifies this`head, this`free
      ensures Valid() && head == NodeAddr(free, 0)
      ensures old(free) == [] ==> pa == 0 && free == []
      ensures old(free) != [] ==> pa == old(free)[0] * 4096 && free == old(free)[1..]
    {
      pa := head;
      if pa != 0 {
        PopFree(mem, head, free);
        assert free[0] in mem && pa / 4096 == free[0];
        head := mem[pa / 4096][0];
        free := free[1..];
      }
    }

    method FreePage(pa: u64) returns (ok: bool)
      requires Valid()
      requires Managed(pa / 4096, start, end) ==> pa / 4096 !in free
      modifies this`head, this`free, this`mem
      ensures ok <==> pa % 4096 == 0 && start <= pa < end
      ensures !ok ==> mem == old(mem) && free == old(free) && head == old(head)
      ensures ok ==> Valid() && pa / 4096 in old(mem) && free == [pa / 4096] + old(free)
                     && mem == old(mem)[pa / 4096 := old(mem)[pa / 4096][0 := old(head)]]
    {
      ok := pa % 4096 == 0 && start <= pa < end;
      if ok {
        var f := pa / 4096;
        assert Managed(f, start, end) && f in mem;
        PushFree(mem, head, free, f);
        mem := mem[f := mem[f][0 := head]];
        head := pa;
        free := [f] + free;
      }
    }

    /** memset or memcpy over a whole frame that is in use. */
    method WritePage(f: nat, page: Page)
      requires Valid() && f in mem && f !in free
      modifies this`mem
      ensures Valid() && mem == old(mem)[f := page]
    {
      mem := mem[f := page];
      FreeListFrame(old(mem), head, free, mem);
    }

    /** A store of 0 to a word that is not a link of the free list. */
    method ClearWord(f: nat, i: nat)
      requires Valid() && f in mem && 0 < i < 512
      modifies this`mem
      ensures Valid() && mem == old(mem)[f := old(mem)[f][i := 0]]
    {
      mem := mem[f := mem[f][i := 0]];
    }

    /** The allocating branch of page_walk: a zeroed frame linked below entry j of table pt. */
    method AddTable(pt: nat, j: nat, ghost sp: Space, ghost id: TableId) returns (next: nat, ghost sp': Space)
      requires Valid() && Holds(mem, free, sp)
      requires id in sp.tables && sp.tables[id] == pt && !id.Leaf? && j < 512 && Child(id, j) !in sp.tables
      modifies this`mem, this`head, this`free
      ensures Valid() && Holds(mem, free, sp') && sp'.pages == sp.pages
      ensures Grown(old(mem), old(free), sp, mem, free, sp')
      ensures next == 0 ==> free == old(free) == [] && sp' == sp && mem == old(mem)
      ensures next != 0 ==> old(free) != [] && next == old(free)[0] && free == old(free)[1..]
                            && sp' == Space(sp.tables[Child(id, j) := next], sp.pages)
    {
      hide Holds, Grown, IsFreeList, Bounds;
      sp' := sp;
      var pa := AllocPage();
      if pa == 0 {
        AllocFacts(mem, old(head), old(free), start, end);
        GrownRefl(mem, free, sp);
        return 0, sp';
      }
      next := pa / 4096;
      AddTableFacts(mem, old(head), old(free), start, end, sp, id, j);
      mem := mem[next := ZeroPage()];
      mem := mem[pt := mem[pt][j := Pa2Pte(pa) + 1]];
      sp' := Space(sp.tables[Child(id, j) := next], sp.pages);
    }

    /** One turn of the page_walk loop; free0 and sp0 are the list and the tree at loop entry. */
    method WalkLevel(pt: nat, va: u64, level: nat, alloc: bool, ghost sp: Space, ghost free0: seq<nat>,
                     ghost sp0: Space)
      returns (found: bool, next: nat, ghost sp': Space)
      requires Valid() && Holds(mem, free, sp) && va < MAXVA && 0 < level <= 2
      requires TableAt(level, va / 4096) in sp.tables && sp.tables[TableAt(level, va / 4096)] == pt
      requires alloc ==> Took(Missing(sp0.tables.Keys, va / 4096, level), free0, free, sp0, sp)
      modifies this`mem, this`head, this`free
      ensures Valid() && Holds(mem, free, sp') && sp'.pages == sp.pages
      ensures Grown(old(mem), old(free), sp, mem, free, sp')
      ensures !alloc ==> sp' == sp && mem == old(mem) && free == old(free) && head == old(head)
      ensures found ==> TableAt(level - 1, va / 4096) in sp'.tables && sp'.tables[TableAt(level - 1, va / 4096)] == next
      ensures found && alloc ==> Took(Missing(sp0.tables.Keys, va / 4096, level - 1), free0, free, sp0, sp')
      ensures !found ==> Leaf(va / 4096 / 512) !in sp'.tables
      ensures !found && alloc ==> free == [] && |free0| < |Missing(sp0.tables.Keys, va / 4096, 0)|
    {
      hide Grown, Holds, IsFreeList, Bounds, Took, Missing;
      PxDigits(va);
      ghost var v, id := va / 4096, TableAt(level, va / 4096);
      var j := Px(level, va);
      found, next, sp' := true, 0, sp;
      assert Child(id, j) == TableAt(level - 1, v);
      WalkStep(mem, free, sp, id, j);
      GrownRefl(mem, free, sp);
      if alloc { TookLevel(free0, free, sp0, sp, v, level); }
      var pte := mem[pt][j];
      if PteV(pte) {
        next := pte / 1024;
      } else if !alloc {
        NoLeafBelow(mem, free, sp, level, v);
        found := false;
      } else {
        next, sp' := AddTable(pt, j, sp, id);
        if next == 0 {
          NoLeafBelow(mem, free, sp, level, v);
          TookAll(Missing(sp0.tables.Keys, v, level), free0, sp0, sp);
          found := false;
        } else {
          TookOne(Missing(sp0.tables.Keys, v, level), free0, old(free), sp0, sp, TableAt(level - 1, v));
        }
      }
    }

    method PageWalk(root: nat, va: u64, alloc: bool, ghost sp: Space) returns (r: Walk, ghost sp': Space)
      requires Valid() && Holds(mem, free, sp) && Root in sp.tables && sp.tables[Root] == root
      modifies this`mem, this`head, this`free
      ensures Valid() && Holds(mem, free, sp') && sp'.pages == sp.pages
      ensures Grown(old(mem), old(free), sp, mem, free, sp')
      ensures !alloc || r.Halted? ==> sp' == sp && mem == old(mem) && free == old(free) && head == old(head)
      ensures r.Halted? <==> va >= MAXVA
      ensures r.At? ==> && Leaf(va / 4096 / 512) in sp'.tables
                        && r == At(sp'.tables[Leaf(va / 4096 / 512)], va / 4096 % 512)
      ensures r.Null? ==> Leaf(va / 4096 / 512) !in sp'.tables && (alloc ==> free == [])
      ensures alloc && r.At? ==> Took(Missing(sp.tables.Keys, va / 4096, 0), old(free), free, sp, sp')
      ensures alloc && r.Null? ==> |old(free)| < |Missing(sp.tables.Keys, va / 4096, 0)|
    {
      hide Grown, Holds, IsFreeList, Bounds, Took, Missing;
      sp' := sp;
      GrownRefl(mem, free, sp);
      TookNone(free, sp);
      NoneMissing(sp.tables.Keys, va / 4096);
      if va >= MAXVA { return Halted, sp'; }
      ghost var v := va / 4096;
      PxDigits(va);
      var pt, level := root, 2;
      while level > 0
        invariant 0 <= level <= 2
        invariant Valid() && Holds(mem, free, sp') && sp'.pages == sp.pages
        invariant Grown(old(mem), old(free), sp, mem, free, sp')
        invariant !alloc ==> sp' == sp && mem == old(mem) && free == old(free) && head == old(head)
        invariant TableAt(level, v) in sp'.tables && sp'.tables[TableAt(level, v)] == pt
        invariant alloc ==> Took(Missing(sp.tables.Keys, v, level), old(free), free, sp, sp')
      {
        ghost var mem1, free1, sp1 := mem, free, sp';
        var found;
        found, pt, sp' := WalkLevel(pt, va, level, alloc, sp1, old(free), sp);
        GrownTrans(old(mem), old(free), sp, mem1, free1, sp1, mem, free, sp');
        if !found { return Null, sp'; }
        level := level - 1;
      }
      r := At(pt, Px(0, va));
    }

    /** One turn of the map_pages loop; sp0 is the tree at loop entry. */
    method MapOne(root: nat, va: u64, pa: u64, perm: Perm, ghost sp: Space, ghost mem0: Mem, ghost free0: seq<nat>,
                  ghost sp0: Space)
      returns (r: MapResult, ghost sp': Space)
      requires Valid() && Holds(mem, free, sp) && Root in sp.tables && sp.tables[Root] == root
      requires Grown(mem0, free0, sp0, mem, free, sp) && va % 4096 == 0
      modifies this`mem, this`head, this`free
      ensures Valid() && Holds(mem, free, sp') && Root in sp'.tables && sp'.tables[Root] == root
      ensures Grown(mem0, free0, sp0, mem, free, sp')
      ensures r.Done? ==> && va < MAXVA && va / 4096 !in sp.pages
                          && sp'.pages == sp.pages[va / 4096 := MakePte(pa, perm)]
      ensures !r.Done? ==> sp'.pages == sp.pages
      ensures r.Panic? ==> va >= MAXVA || va / 4096 in sp.pages
      ensures r.NoFrame? ==> va < MAXVA && va / 4096 !in sp.pages && free == []
      ensures r.Done? ==> Took(Missing(sp.tables.Keys, va / 4096, 0), old(free), free, sp, sp')
      ensures r.NoFrame? ==> |old(free)| < |Missing(sp.tables.Keys, va / 4096, 0)|
    {
      hide Grown, Holds, IsFreeList, Bounds, Took, Missing;
      var w;
      w, sp' := PageWalk(root, va, true, sp);
      GrownTrans(mem0, free0, sp0, old(mem), old(free), sp, mem, free, sp');
      GrownKeeps(old(mem), old(free), sp, mem, free, sp', Root);
      if w.Halted? { return Panic, sp'; }
      if w.Null? {
        if va / 4096 in sp.pages { MappedHasLeaf(mem, free, sp', va / 4096); }
        return NoFrame, sp';
      }
      ghost var v := va / 4096;
      LeafWord(mem, free, sp', v);
      if PteV(mem[w.frame][w.idx]) { return Panic, sp'; }
      MakePteFields(pa, perm);
      StoreFacts(mem, head, free, start, end, sp', v, MakePte(pa, perm));
      ghost var mem1, sp1 := mem, sp';
      mem := mem[w.frame := mem[w.frame][w.idx := MakePte(pa, perm)]];
      sp' := Space(sp1.tables, SetPage(sp1.pages, v, MakePte(pa, perm)));
      GrownTrans(mem0, free0, sp0, mem1, free, sp1, mem, free, sp');
      TookTables(Missing(sp.tables.Keys, v, 0), old(free), free, sp, sp1, sp');
      r := Done;
    }

    method MapPages(root: nat, va: u64, size: u64, pa: u64, perm: Perm, ghost sp: Space)
      returns (r: MapResult, ghost sp': Space, ghost n: nat)
      requires Valid() && Holds(mem, free, sp) && Root in sp.tables && sp.tables[Root] == root
      modifies this`mem, this`head, this`free
      ensures Valid() && Holds(mem, free, sp') && Grown(old(mem), old(free), sp, mem, free, sp')
      ensures sp'.pages == Mapped(sp.pages, va / 4096, n, pa, perm)
      ensures n <= Span(va, size)
      ensures Unmapped(sp.pages, va / 4096, n)
      ensures r.Done? <==> n == Span(va, size)
      ensures r.Panic? ==> va / 4096 + n >= NVPN || va / 4096 + n in sp.pages
      ensures r.NoFrame? ==> va / 4096 + n < NVPN && va / 4096 + n !in sp.pages && free == []
      ensures r.Done? ==> Took(Paths(sp.tables.Keys, va / 4096, n), old(free), free, sp, sp')
      ensures r.NoFrame? ==> |old(free)| < |Paths(sp.tables.Keys, va / 4096, n + 1)|
    {
      hide Grown, Holds, IsFreeList, Bounds, LastPage, PaAt, MakePte, Took, Missing, Mapped;
      sp', n := sp, 0;
      TookNone(free, sp);
      MappedNone(sp.pages, va / 4096, pa, perm);
      GrownRefl(mem, free, sp);
      PaStep(pa, 0);
      var first, last, p := va / 4096 * 4096, LastPage(va, size) * 4096, pa;
      while first <= last
        invariant first == (va / 4096 + n) * 4096 && p == PaAt(pa, n)
        invariant n <= Span(va, size)
        invariant Valid() && Holds(mem, free, sp') && Grown(old(mem), old(free), sp, mem, free, sp')
        invariant Root in sp'.tables && sp'.tables[Root] == root
        invariant sp'.pages == Mapped(sp.pages, va / 4096, n, pa, perm)
        invariant Unmapped(sp.pages, va / 4096, n)
        invariant Took(Paths(sp.tables.Keys, va / 4096, n), old(free), free, sp, sp')
        decreases last - first
      {
        var res;
        ghost var free1, sp1 := free, sp';
        res, sp' := MapOne(root, first, p, perm, sp1, old(mem), old(free), sp);
        TookPage(sp.tables.Keys, va / 4096, n, old(free), free1, sp, sp1);
        if res != Done { return res, sp', n; }
        TookMore(Paths(sp.tables.Keys, va / 4096, n), Missing(sp1.tables.Keys, va / 4096 + n, 0), old(free), free1,
                 free, sp, sp1, sp');
        MappedStep(sp.pages, va / 4096, n, pa, perm);
        PaStep(pa, n);
        n := n + 1;
        first, p := first + 4096, (p + 4096) % TWO64;
      }
      r := Done;
    }

    method LookupPa(root: nat, va: u64, ghost sp: Space) returns (pa: u64)
      requires Valid() && Holds(mem, free, sp) && Root in sp.tables && sp.tables[Root] == root
      modifies this`mem, this`head, this`free
      ensures mem == old(mem) && head == old(head) && free == old(free)
      ensures pa == Lookup(sp, va)
    {
      hide Holds, Grown, Bounds;
      if va >= MAXVA { return 0; }
      var w;
      ghost var sp';
      w, sp' := PageWalk(root, va, false, sp);
      if w.Null? {
        if va / 4096 in sp.pages { MappedHasLeaf(mem, free, sp, va / 4096); }
        return 0;
      }
      LeafWord(mem, free, sp, va / 4096);
      var pte := mem[w.frame][w.idx];
      if !PteV(pte) || (!PteR(pte) && !PteW(pte)) { return 0; }
      pa := Pte2Pa(pte);
    }

    /** The entry of the page at va, as the hardware fetches it; 0 if there is none. */
    method Entry(root: nat, va: u64, ghost sp: Space) returns (pte: u64)
      requires Valid() && Holds(mem, free, sp) && Root in sp.tables && sp.tables[Root] == root
      modifies this`mem, this`head, this`free
      ensures mem == old(mem) && head == old(head) && free == old(free)
      ensures pte == if va < MAXVA && va / 4096 in sp.pages then sp.pages[va / 4096] else 0
    {
      hide Holds, Grown, Bounds;
      if va >= MAXVA { return 0; }
      var w;
      ghost var sp';
      w, sp' := PageWalk(root, va, false, sp);
      if w.Null? {
        if va / 4096 in sp.pages { MappedHasLeaf(mem, free, sp, va / 4096); }
        return 0;
      }
      LeafWord(mem, free, sp, va / 4096);
      pte := mem[w.frame][w.idx];
    }

    method UserVaToPa(root: nat, va: u64, ghost sp: Space) returns (pa: u64)
      requires Valid() && Holds(mem, free, sp) && Root in sp.tables && sp.tables[Root] == root
      modifies this`mem, this`head, this`free
      ensures mem == old(mem) && head == old(head) && free == old(free)
      ensures pa == if Lookup(sp, va) == 0 then 0 else Lookup(sp, va) + va % 4096
    {
      hide Holds, Bounds;
      var page := LookupPa(root, va, sp);
      if page == 0 { return 0; }
      pa := page + va % 4096;
    }

    /** One turn of the user_vm_unmap loop. */
    method UnmapOne(root: nat, va: u64, reclaim: bool, ghost sp: Space) returns (ok: bool, ghost sp': Space)
      requires Valid() && Holds(mem, free, sp) && Root in sp.tables && sp.tables[Root] == root
      requires reclaim ==> Reclaimable(sp, free, va / 4096, 1, start, end)
      modifies this`mem, this`head, this`free
      ensures ok <==> && va < MAXVA && va / 4096 in sp.pages && PteFlags(sp.pages[va / 4096]) != 1
                      && (reclaim ==> Managed(FrameOf(sp.pages[va / 4096]), start, end))
      ensures !ok ==> sp' == sp && mem == old(mem) && free == old(free) && head == old(head)
      ensures ok ==> Valid() && Holds(mem, free, sp') && sp' == Space(sp.tables, SetPage(sp.pages, va / 4096, 0))
      ensures ok ==> free == if reclaim then [FrameOf(sp.pages[va / 4096])] + old(free) else old(free)
      ensures ok ==> Spares(old(mem), old(free), sp, mem, free)
    {
      hide Holds, Grown, IsFreeList, Bounds, FrameOf;
      ok, sp' := false, sp;
      var w;
      ghost var v := va / 4096;
      w, sp' := PageWalk(root, va, false, sp);
      if v in sp.pages { MappedHasLeaf(mem, free, sp, v); }
      if !w.At? { return; }
      LeafWord(mem, free, sp, v);
      var pte := mem[w.frame][w.idx];
      if !PteV(pte) || PteFlags(pte) == 1 { return; }
      if reclaim {
        var pa := Pte2Pa(pte);
        PteAddress(pte);
        var done := FreePage(pa);
        if !done { return; }
        ReclaimFacts(old(mem), old(head), old(free), start, end, sp, v);
      }
      StoreFacts(mem, head, free, start, end, sp, v, 0);
      assert w.frame in sp.tables.Values;
      mem := mem[w.frame := mem[w.frame][w.idx := 0]];
      sp' := Space(sp.tables, SetPage(sp.pages, v, 0));
      ok := true;
    }

    method UserVmUnmap(root: nat, va: u64, size: u64, reclaim: bool, ghost sp: Space)
      returns (ok: bool, ghost sp': Space, ghost n: nat)
      requires Valid() && Holds(mem, free, sp) && Root in sp.tables && sp.tables[Root] == root
      requires reclaim ==> Reclaimable(sp, free, va / 4096, UnmapSpan(va, size), start, end)
      modifies this`mem, this`head, this`free
      ensures va % 4096 != 0 ==> !ok && n == 0
      ensures va % 4096 == 0 ==> (ok <==> n == UnmapSpan(va, size))
      ensures !ok && va % 4096 == 0 ==> n < UnmapSpan(va, size) && !CanUnmap(sp, va / 4096 + n, reclaim, start, end)
      ensures AllMapped(sp.pages, va / 4096, n) && AllUnmappable(sp, va / 4096, n, reclaim, start, end)
      ensures Valid() && Holds(mem, free, sp') && sp' == Space(sp.tables, Without(sp.pages, va / 4096, n))
      ensures free == if reclaim then Freed(sp.pages, va / 4096, n, old(free)) else old(free)
      ensures Spares(old(mem), old(free), sp, mem, free)
    {
      hide Holds, Grown, IsFreeList, Bounds, FrameOf, Spares, Reclaimable, UnmapSpan, SetPage, AllUnmappable, AllMapped;
      ok, sp', n := false, sp, 0;
      SparesRefl(mem, free, sp);
      NoneUnmapped(sp, va / 4096, reclaim, start, end);
      if va % 4096 != 0 { return; }
      var a := va;
      ghost var v := va / 4096;
      while a < (va + size) % TWO64
        invariant a == va + 4096 * n && n <= UnmapSpan(va, size)
        invariant Valid() && Holds(mem, free, sp') && sp' == Space(sp.tables, Without(sp.pages, v, n))
        invariant AllMapped(sp.pages, v, n) && AllUnmappable(sp, v, n, reclaim, start, end)
        invariant free == if reclaim then Freed(sp.pages, v, n, old(free)) else old(free)
        invariant Spares(old(mem), old(free), sp, mem, free)
        decreases (va + size) % TWO64 - a
      {
        UnmapTurns(va, size, n);
        if reclaim { ReclaimRest(sp, old(free), v, n, UnmapSpan(va, size), start, end); }
        ghost var mem1, free1, sp1 := mem, free, sp';
        var done;
        done, sp' := UnmapOne(root, a, reclaim, sp1);
        if !done { return; }
        SparesTrans(old(mem), old(free), sp, mem1, free1, sp1, mem, free);
        WithoutStep(sp.pages, v, n);
        UnmappableStep(sp, v, n, reclaim, start, end);
        FreedStep(sp.pages, v, n, old(free));
        n, a := n + 1, a + 4096;
      }
      UnmapTurns(va, size, n);
      ok := true;
    }

    /** map_pages and then user_vm_unmap over the same range: every translation is as before, and the free
        list is what the walk left of it, below the range's frames, each once, if they were handed back. */
    method MapThenUnmap(root: nat, va: u64, size: u64, pa: u64, perm: Perm, reclaim: bool, ghost sp: Space)
      returns (r: MapResult, ghost sp': Space, ghost taken: nat)
      requires Valid() && Holds(mem, free, sp) && Root in sp.tables && sp.tables[Root] == root
      requires va % 4096 == 0 && 0 < size && va + size < TWO64 && pa / 4096 * 4096 + size <= TWO64 && perm >= 2
      requires reclaim ==> Lent(sp, free, pa / 4096, Span(va, size), start, end)
      modifies this`mem, this`head, this`free
      ensures r.Done? ==> Valid() && Holds(mem, free, sp') && sp'.pages == sp.pages
      ensures r.Done? ==> taken <= |old(free)|
      ensures r.Done? && !reclaim ==> free == old(free)[taken..]
      ensures r.Done? && reclaim ==>
                var n := Span(va, size);
                && n <= |free| && free[n..] == old(free)[taken..]
                && forall i :: 0 <= i < n ==> free[i] == pa / 4096 + (n - 1 - i)
    {
      hide Holds, Grown, IsFreeList, Bounds, Span, UnmapSpan, Mapped, Without, Freed, Unmapped, AllMapped,
           AllUnmappable, Reclaimable, Spares, Lent, Took, Paths;
      ghost var n;
      r, sp', n := MapPages(root, va, size, pa, perm, sp);
      taken := 0;
      if r != Done { return; }
      GrownIsSuffix(old(mem), old(free), sp, mem, free, sp');
      GrownKeeps(old(mem), old(free), sp, mem, free, sp', Root);
      taken := |old(free)| - |free|;
      MappedIsRemovable(old(mem), old(free), sp, mem, free, sp', va, size, pa, perm, reclaim, start, end);
      UnmapUndoesMap(sp.pages, va, size, pa, perm, free);
      ghost var sp1 := sp';
      var ok;
      ok, sp', n := UserVmUnmap(root, va, size, reclaim, sp1);
      if !ok { StillRemovable(sp1, va / 4096, Span(va, size), n, reclaim, start, end); }
    }
  }
}
