/** What a process gives back when it is reaped or replaced, frame by frame and in number. */
module Reaping {
  import opened Sv39
  import opened PageTable
  import opened Memory
  import opened Ownership
  import opened Images
  import opened Placement

  /** Page v lies in a data region. */
  ghost predicate InData(rs: seq<Region>, v: nat)
  {
    exists i :: 0 <= i < |rs| && rs[i].seg.DataSegment? && Covers(rs[i], v)
  }

  /** Page v lies in a region of the list that is not the trap vector's. */
  ghost predicate OnList(rs: seq<Region>, v: nat)
  {
    exists i :: 0 <= i < |rs| && !rs[i].seg.SystemSegment? && Covers(rs[i], v)
  }

  /** The frames no other process uses: the user stack's, the trapframe, and those of the data regions. */
  ghost predicate Private(img: Image, pages: map<nat, u64>, f: nat)
  {
    || (STACK in pages && f == FrameOf(pages[STACK]))
    || f == img.trapframe
    || exists v :: v in pages && InData(img.regions, v) && FrameOf(pages[v]) == f
  }

  /** The free list gained exactly fs and the private frames. */
  ghost predicate Refunded(free: seq<nat>, free': seq<nat>, fs: set<nat>, img: Image, pages: map<nat, u64>)
  {
    forall f :: f in free' <==> f in free || f in fs || Private(img, pages, f)
  }

  lemma RefundedBy(free: seq<nat>, free': seq<nat>, fs: set<nat>, img: Image, sp: Space, start: nat, end: nat)
    requires GivenBack(free, free', fs, img.regions, sp.pages) && FixedRegions(img.regions, img.trapframe)
    requires Homed(sp.pages, img.trapframe) && Removable(sp, img.regions, start, end)
    ensures Refunded(free, free', fs, img, sp.pages)
  {
    hide FrameOf, Returned, Private, FixedRegions, Homed, Removable;
    forall f ensures Returned(img.regions, sp.pages, |img.regions|, f) <==> Private(img, sp.pages, f) {
      ReturnedAre(img, sp, start, end, f);
    }
  }

  lemma ReturnedAre(img: Image, sp: Space, start: nat, end: nat, f: nat)
    requires FixedRegions(img.regions, img.trapframe) && Homed(sp.pages, img.trapframe)
    requires Removable(sp, img.regions, start, end)
    ensures Returned(img.regions, sp.pages, |img.regions|, f) <==> Private(img, sp.pages, f)
  {
    hide FrameOf, CanUnmap;
    var rs, pages := img.regions, sp.pages;
    StackThere(img, sp, start, end);
    FixedCovers(rs, img.trapframe);
    if Returned(rs, pages, |rs|, f) {
      var j, v: nat :| && 0 <= j < |rs| && Reclaimed(rs[j].seg) && Covers(rs[j], v)
                       && v in pages && FrameOf(pages[v]) == f;
      if j >= 2 { assert InData(rs, v); }
    }
    if f == FrameOf(pages[STACK]) { assert Reclaimed(rs[0].seg) && Covers(rs[0], STACK); }
    if f == img.trapframe { assert Reclaimed(rs[1].seg) && Covers(rs[1], f); }
    if exists v :: v in pages && InData(rs, v) && FrameOf(pages[v]) == f {
      var v :| v in pages && InData(rs, v) && FrameOf(pages[v]) == f;
      var i :| 0 <= i < |rs| && rs[i].seg.DataSegment? && Covers(rs[i], v);
      assert Reclaimed(rs[i].seg);
    }
  }

  lemma FixedCovers(rs: seq<Region>, tf: nat)
    requires FixedRegions(rs, tf)
    ensures forall v :: Covers(rs[0], v) <==> v == STACK
    ensures forall v :: Covers(rs[1], v) <==> v == tf
  {
  }

  lemma StackThere(img: Image, sp: Space, start: nat, end: nat)
    requires FixedRegions(img.regions, img.trapframe) && Removable(sp, img.regions, start, end)
    ensures STACK in sp.pages
  {
    hide FrameOf;
    var r := img.regions[0];
    assert AllUnmappable(sp, r.va / 4096, r.npages, Reclaimed(r.seg), start, end);
    assert CanUnmap(sp, STACK, Reclaimed(r.seg), start, end);
  }

  lemma {:induction false} RegionsMapped(sp: Space, rs: seq<Region>, start: nat, end: nat, j: nat)
    requires Removable(sp, rs, start, end) && j < |rs| && !rs[j].seg.SystemSegment?
    ensures AllMapped(sp.pages, rs[j].va / 4096, rs[j].npages)
  {
    hide FrameOf;
    var v, n := rs[j].va / 4096, rs[j].npages;
    assert AllUnmappable(sp, v, n, Reclaimed(rs[j].seg), start, end);
    forall w | v <= w < v + n ensures w in sp.pages { assert CanUnmap(sp, w, Reclaimed(rs[j].seg), start, end); }
  }

  /** Stack, trapframe and one frame for each data page: that many come back from the regions. */
  lemma {:induction false} PushedCount(img: Image, sp: Space, start: nat, end: nat, k: nat, free: seq<nat>)
    requires 2 <= k <= |img.regions| && FixedRegions(img.regions, img.trapframe)
    requires Removable(sp, img.regions, start, end)
    ensures |Pushed(img.regions, sp.pages, k, free)| == |free| + 2 + DataPages(img.regions, k)
  {
    hide FrameOf, Freed, AllMapped, Removable;
    var rs, pages := img.regions, sp.pages;
    if k == 2 {
      FirstPushed(img, sp, start, end, free);
    } else {
      PushedCount(img, sp, start, end, k - 1, free);
      var r := rs[k - 1];
      if !r.seg.SystemSegment? {
        RegionsMapped(sp, rs, start, end, k - 1);
        FreedLonger(pages, r.va / 4096, r.npages, Pushed(rs, pages, k - 1, free));
      }
    }
  }

  lemma {:induction false} PushedTwo(img: Image, sp: Space, start: nat, end: nat, free: seq<nat>)
    requires FixedRegions(img.regions, img.trapframe) && Removable(sp, img.regions, start, end)
    ensures |Pushed(img.regions, sp.pages, |img.regions|, free)|
            == |free| + 2 + DataPages(img.regions, |img.regions|)
  {
    hide Removable, Pushed, DataPages;
    PushedCount(img, sp, start, end, |img.regions|, free);
  }

  lemma {:induction false} FirstPushed(img: Image, sp: Space, start: nat, end: nat, free: seq<nat>)
    requires FixedRegions(img.regions, img.trapframe) && Removable(sp, img.regions, start, end)
    ensures |Pushed(img.regions, sp.pages, 2, free)| == |free| + 2 && DataPages(img.regions, 2) == 0
  {
    hide FrameOf, Freed, AllMapped, Removable;
    var rs, pages := img.regions, sp.pages;
    RegionsMapped(sp, rs, start, end, 0);
    RegionsMapped(sp, rs, start, end, 1);
    FreedLonger(pages, rs[0].va / 4096, 1, free);
    assert Pushed(rs, pages, 1, free) == Freed(pages, rs[0].va / 4096, 1, Pushed(rs, pages, 0, free));
    FreedLonger(pages, rs[1].va / 4096, 1, Pushed(rs, pages, 1, free));
    assert DataPages(rs, 1) == DataPages(rs, 0) == 0;
  }

  /** What the table of frames still has for p when it is reaped: of its tree, the tables but the directory; of the
      pages it had mapped, those on no region list. Nothing new, and no page of a listed region. */
  ghost predicate LeftBehind(p: nat, own: Owners, img: Image, sp: Space, own': Owners)
  {
    && own'.Keys == own.Keys
    && (forall f :: f in own && HeldBy(own'[f], p) ==> own'[f] == own[f] && f !in {img.kstack, img.info, img.pagetable})
    && (forall id :: id in sp.tables && id != Root ==> IsUse(own', sp.tables[id], TableOf(p)))
    && (forall v :: v in sp.pages && IsUse(own', FrameOf(sp.pages[v]), PageOf(p, v)) ==> !OnList(img.regions, v))
    && (forall v :: v in sp.pages && !OnList(img.regions, v) && FrameOf(sp.pages[v]) in own ==>
          IsUse(own', FrameOf(sp.pages[v]), PageOf(p, v)))
  }

  /** A private frame that is managed is the process's page, at a page of its list, and at no other. */
  lemma PrivateUse(p: nat, mem: Mem, free: seq<nat>, own: Owners, img: Image, sp: Space, f: nat)
    requires SlotOk(mem, free, own, p, img, sp) && STACK in sp.pages && Private(img, sp.pages, f) && f in own
    ensures own[f].PageOf? && own[f].p == p && own[f].v in sp.pages && OnList(img.regions, own[f].v)
  {
    hide FrameOf, SpaceOk, Holds;
    var rs, pages := img.regions, sp.pages;
    FixedCovers(rs, img.trapframe);
    if f == FrameOf(pages[STACK]) {
      NotCode(rs, 0, STACK);
      assert OnList(rs, STACK);
    } else if f == img.trapframe {
      assert Covers(rs[1], f) && OnList(rs, f);
    } else {
      var v :| v in pages && InData(rs, v) && FrameOf(pages[v]) == f;
      var i :| 0 <= i < |rs| && rs[i].seg.DataSegment? && Covers(rs[i], v);
      NotCode(rs, i, v);
      assert OnList(rs, v);
    }
  }

  lemma NotCode(rs: seq<Region>, j: nat, v: nat)
    requires RegionsOk(rs) && j < |rs| && !rs[j].seg.CodeSegment? && Covers(rs[j], v)
    ensures !InCode(rs, v)
  {
    hide RegionOk;
    forall i | 0 <= i < |rs| && rs[i].seg.CodeSegment? ensures !Covers(rs[i], v) {
      assert if i < j then Disjoint(rs[i], rs[j]) else Disjoint(rs[j], rs[i]);
    }
  }

  /** A page of the list whose frame is the process's own is given back. */
  lemma ListedPrivate(p: nat, mem: Mem, free: seq<nat>, own: Owners, img: Image, sp: Space, v: nat)
    requires SlotOk(mem, free, own, p, img, sp) && v in sp.pages && OnList(img.regions, v)
    requires IsUse(own, FrameOf(sp.pages[v]), PageOf(p, v))
    ensures Private(img, sp.pages, FrameOf(sp.pages[v]))
  {
    hide FrameOf, SpaceOk, Holds, RegionsOk;
    var rs, pages := img.regions, sp.pages;
    FixedCovers(rs, img.trapframe);
    var i :| 0 <= i < |rs| && !rs[i].seg.SystemSegment? && Covers(rs[i], v);
    assert Backed(own, p, rs, v, pages[v]);
    if i >= 3 { assert InCode(rs, v) || InData(rs, v); }
  }

  lemma WhatIsLeft(p: nat, mem: Mem, free: seq<nat>, own: Owners, start: nat, end: nat, img: Image, sp: Space,
                   free': seq<nat>, own': Owners)
    requires Accounted(mem, free, own, start, end) && SlotOk(mem, free, own, p, img, sp)
    requires Removable(sp, img.regions, start, end)
    requires Refunded(free, free', {img.kstack, img.info, img.pagetable}, img, sp.pages) && own' == Release(own, free')
    ensures LeftBehind(p, own, img, sp, own')
  {
    hide FrameOf, Private, Holds, RegionsOk, FixedRegions, Removable, OnList, Backing, Managed;
    StackThere(img, sp, start, end);
    forall id | id in sp.tables && id != Root ensures IsUse(own', sp.tables[id], TableOf(p)) {
      TableStays(p, mem, free, own, start, end, img, sp, id);
    }
    forall v | v in sp.pages && FrameOf(sp.pages[v]) in own
      ensures IsUse(own', FrameOf(sp.pages[v]), PageOf(p, v)) ==> !OnList(img.regions, v)
      ensures !OnList(img.regions, v) ==> IsUse(own', FrameOf(sp.pages[v]), PageOf(p, v))
    {
      PageLeft(p, mem, free, own, start, end, img, sp, v, free');
    }
  }

  lemma TableStays(p: nat, mem: Mem, free: seq<nat>, own: Owners, start: nat, end: nat, img: Image, sp: Space,
                   id: TableId)
    requires Accounted(mem, free, own, start, end) && SlotOk(mem, free, own, p, img, sp)
    requires Removable(sp, img.regions, start, end) && id in sp.tables && id != Root
    ensures IsUse(own, sp.tables[id], TableOf(p)) && sp.tables[id] !in free
    ensures sp.tables[id] !in {img.kstack, img.info, img.pagetable} && !Private(img, sp.pages, sp.tables[id])
  {
    hide FrameOf, Private, RegionsOk, FixedRegions, Removable, OnList, Backing, Managed;
    StackThere(img, sp, start, end);
    var f := sp.tables[id];
    if Private(img, sp.pages, f) { PrivateUse(p, mem, free, own, img, sp, f); }
  }

  lemma PageLeft(p: nat, mem: Mem, free: seq<nat>, own: Owners, start: nat, end: nat, img: Image, sp: Space, v: nat,
                 free': seq<nat>)
    requires Accounted(mem, free, own, start, end) && SlotOk(mem, free, own, p, img, sp)
    requires Removable(sp, img.regions, start, end) && v in sp.pages && FrameOf(sp.pages[v]) in own
    requires Refunded(free, free', {img.kstack, img.info, img.pagetable}, img, sp.pages)
    ensures IsUse(Release(own, free'), FrameOf(sp.pages[v]), PageOf(p, v)) <==> !OnList(img.regions, v)
  {
    hide FrameOf, Private, Holds, RegionsOk, FixedRegions, Removable, OnList, Managed, SpaceOk;
    StackThere(img, sp, start, end);
    RootUse(mem, free, own, p, sp);
    var f := FrameOf(sp.pages[v]);
    assert Backed(own, p, img.regions, v, sp.pages[v]);
    if InCode(img.regions, v) {
      CodeOnList(img.regions, v);
    } else {
      if Private(img, sp.pages, f) { PrivateUse(p, mem, free, own, img, sp, f); }
      if OnList(img.regions, v) { ListedPrivate(p, mem, free, own, img, sp, v); }
    }
  }

  lemma CodeOnList(rs: seq<Region>, v: nat)
    requires InCode(rs, v)
    ensures OnList(rs, v)
  {
  }

  /** Frames of a fork: kernel stack, region list, trapframe, user stack and open files, one for each page of data,
      and the child's tables. */
  ghost predicate ForkTaken(free: seq<nat>, rs: seq<Region>, free': seq<nat>, sp: Space)
  {
    |free| == |free'| + 5 + DataPages(rs, |rs|) + |sp.tables.Keys|
  }

  /** Frames of an exec: old directory, stack, trapframe and data pages come back, the new stack and trapframe, the
      program's pages and the new tables are taken. */
  ghost predicate ExecTaken(free: seq<nat>, rs: seq<Region>, segs: seq<ElfSegment>, free': seq<nat>, sp: Space)
  {
    |free| + 3 + DataPages(rs, |rs|) == |free'| + 2 + |segs| + |sp.tables.Keys|
  }

  /** A page was mapped: one frame for it, if there was one, and one for each new table. */
  ghost predicate OnePageTaken(free: seq<nat>, sp: Space, free': seq<nat>, sp': Space)
  {
    |sp'.tables.Keys| + |free'| + (if free == [] then 0 else 1) == |sp.tables.Keys| + |free|
  }

  /** Data pages of a program. */
  function DataSegments(segs: seq<ElfSegment>, n: nat): nat
    requires n <= |segs|
  {
    if n == 0 then 0 else DataSegments(segs, n - 1) + if segs[n - 1].code then 0 else 1
  }

  lemma {:induction false} DataListed(rs: seq<Region>, tf: nat, segs: seq<ElfSegment>, n: nat)
    requires FixedRegions(rs, tf) && rs[3..] == Listed(segs) && n <= |segs|
    ensures DataPages(rs, 3 + n) == DataSegments(segs, n)
  {
    if n == 0 {
      assert DataPages(rs, 2) == DataPages(rs, 1) == DataPages(rs, 0) == 0;
    } else {
      DataListed(rs, tf, segs, n - 1);
      assert rs[3 + n - 1] == rs[3..][n - 1] == segs[n - 1].Region();
    }
  }
}
