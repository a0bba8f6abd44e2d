/** What do_fork promises about a child's memory, and the steps that build it up. */
module Forking {
  import opened Lists
  import opened Sv39
  import opened PageTable
  import opened Memory
  import opened Ownership
  import opened Images

  /** Frame that page v of a space reads from, 0 if it is not mapped. */
  ghost function Source(sp: Space, v: nat): nat
    requires v * 4096 < MAXVA
  {
    Lookup(sp, v * 4096) / 4096
  }

  /** Page v can be read, from memory that exists. */
  ghost predicate Readable(mem: Mem, sp: Space, v: nat)
  {
    v * 4096 < MAXVA && Source(sp, v) != 0 && Source(sp, v) in mem
  }

  /** The frames do_fork can take for the three fixed regions and for the others among the first n: a page of
      code may need two tables, a page of data a frame as well. */
  function ForkCost(rs: seq<Region>, n: nat): (c: nat)
    requires n <= |rs|
    ensures c >= 12
  {
    if n <= 3 then 12 else ForkCost(rs, n - 1) + 3 * rs[n - 1].npages
  }

  ghost predicate ForkShort(free: seq<nat>, slots: seq<Slot>, p: int)
  {
    0 <= p < |slots| && slots[p].Occupied? &&
    var rs := slots[p].img.regions;
    |free| < ForkCost(rs, |rs|)
  }

  lemma {:induction false} ForkCostGrows(rs: seq<Region>, i: nat, n: nat)
    requires 3 <= i <= n <= |rs|
    ensures ForkCost(rs, i) <= ForkCost(rs, n)
  {
    if i < n { ForkCostGrows(rs, i, n - 1); }
  }

  /** What do_fork needs of the parent, frames aside: stack and data pages it can read, and regions below
      the stack, where the child maps none of its own pages. */
  ghost predicate Forkable(mem: Mem, sp: Space, rs: seq<Region>)
  {
    && Readable(mem, sp, USER_STACK_PAGE / 4096)
    && forall i, w: nat {:trigger Covers(rs[i], w)} :: 3 <= i < |rs| && Covers(rs[i], w) ==>
         w * 4096 < USER_STACK_PAGE && (rs[i].seg.DataSegment? ==> Readable(mem, sp, w))
  }

  /** A page of region r cannot be forked into a child that maps pages. */
  ghost predicate ForkStuck(mem: Mem, sp: Space, r: Region, pages: map<nat, u64>)
  {
    exists w: nat :: Covers(r, w) && (w in pages || (r.seg.DataSegment? && !Readable(mem, sp, w)))
  }

  /** Every page is above the stack's bottom or in one of the regions 3 .. i. */
  ghost predicate HighOrForked(pages: map<nat, u64>, rs: seq<Region>, i: nat)
    requires i <= |rs|
  {
    forall w :: w in pages ==> w * 4096 >= USER_STACK_PAGE || exists k :: 3 <= k < i && Covers(rs[k], w)
  }

  lemma SameReadable(c: nat, mem0: Mem, own0: Owners, mem: Mem, own: Owners, sp: Space, v: nat)
    requires Local(c, mem0, own0, mem, own)
    ensures Readable(mem, sp, v) <==> Readable(mem0, sp, v)
  {
  }

  lemma StuckInRegion(r: Region, mem0: Mem, sp: Space, mem: Mem, own: Owners, free: seq<nat>, c: nat,
                      pages: map<nat, u64>, pages': map<nat, u64>, j: nat)
    requires RangeForked(r.seg.CodeSegment?, mem0, sp, mem, own, free, c, pages, pages', r.va / 4096, j) && j < r.npages
    ensures r.va / 4096 + j in pages' || (r.seg.DataSegment? && !Readable(mem0, sp, r.va / 4096 + j)) ==>
              ForkStuck(mem0, sp, r, pages)
  {
    hide PageForked, Readable;
    assert Covers(r, r.va / 4096 + j);
  }

  lemma NoneForked(rs: seq<Region>, pages: map<nat, u64>)
    requires HighPages(pages) && 3 <= |rs|
    ensures HighOrForked(pages, rs, 3)
  {
  }

  lemma ForkedPages(rs: seq<Region>, i: nat, mem0: Mem, sp: Space, mem: Mem, own: Owners, free: seq<nat>, c: nat,
                    pages: map<nat, u64>, pages': map<nat, u64>)
    requires 3 <= i < |rs| && HighOrForked(pages, rs, i)
    requires RangeForked(rs[i].seg.CodeSegment?, mem0, sp, mem, own, free, c, pages, pages', rs[i].va / 4096,
                         rs[i].npages)
    ensures HighOrForked(pages', rs, i + 1)
  {
    hide PageForked;
    forall w | w in pages' ensures w * 4096 >= USER_STACK_PAGE || exists k :: 3 <= k < i + 1 && Covers(rs[k], w) {
      if w !in pages { assert Covers(rs[i], w); }
    }
  }

  lemma SubmapForked(pages0: map<nat, u64>, r: Region, mem0: Mem, sp: Space, mem: Mem, own: Owners, free: seq<nat>,
                     c: nat, pages: map<nat, u64>, pages': map<nat, u64>)
    requires Submap(pages0, pages)
    requires RangeForked(r.seg.CodeSegment?, mem0, sp, mem, own, free, c, pages, pages', r.va / 4096, r.npages)
    ensures Submap(pages0, pages')
  {
    hide PageForked;
  }

  lemma NotForkable(mem: Mem, sp: Space, rs: seq<Region>, i: nat, pages: map<nat, u64>)
    requires RegionsOk(rs) && 3 <= i < |rs| && HighOrForked(pages, rs, i)
    ensures ForkStuck(mem, sp, rs[i], pages) ==> !Forkable(mem, sp, rs)
  {
    hide Readable, Forkable;
    forall w: nat | Covers(rs[i], w) && (w in pages || (rs[i].seg.DataSegment? && !Readable(mem, sp, w)))
      ensures !Forkable(mem, sp, rs)
    {
      StuckPage(mem, sp, rs, i, pages, w);
    }
  }

  lemma StuckPage(mem: Mem, sp: Space, rs: seq<Region>, i: nat, pages: map<nat, u64>, w: nat)
    requires RegionsOk(rs) && 3 <= i < |rs| && HighOrForked(pages, rs, i)
    requires Covers(rs[i], w) && (w in pages || (rs[i].seg.DataSegment? && !Readable(mem, sp, w)))
    ensures !Forkable(mem, sp, rs)
  {
    hide Readable;
    if w * 4096 < USER_STACK_PAGE { OwnPage(rs, i, pages, w); }
  }

  lemma OwnPage(rs: seq<Region>, i: nat, pages: map<nat, u64>, w: nat)
    requires RegionsOk(rs) && 3 <= i < |rs| && HighOrForked(pages, rs, i) && Covers(rs[i], w)
    requires w * 4096 < USER_STACK_PAGE
    ensures w !in pages
  {
    forall k | 3 <= k < i ensures !Covers(rs[k], w) { assert Disjoint(rs[k], rs[i]); }
  }

  lemma StackNeeded(mem: Mem, sp: Space, rs: seq<Region>)
    ensures Forkable(mem, sp, rs) ==> Readable(mem, sp, USER_STACK_PAGE / 4096)
  {
  }

  /** Entry pte of page v in child c: a code page is the parent's own frame; a data page is a frame
      private to c that holds what the parent's page held in mem0. */
  ghost predicate PageForked(code: bool, mem0: Mem, spp: Space, mem: Mem, own: Owners, c: nat, v: nat, pte: u64)
  {
    && v * 4096 < MAXVA
    && PteR(pte)
    && if code then
         && pte == MakePte(Lookup(spp, v * 4096), ProtToType(7, true))
         && (FrameOf(pte) in own ==> own[FrameOf(pte)] == CodeUse)
       else
         && pte == MakePte(FrameOf(pte) * 4096 % TWO64, ProtToType(3, true))
         && Source(spp, v) != 0 && Source(spp, v) in mem0
         && Held(mem, own, FrameOf(pte), PageOf(c, v), mem0[Source(spp, v)])
  }

  /** The child's map gained pages v .. v+n, forked, and nothing else; a page is missing only when
      the frames ran out. */
  ghost predicate RangeForked(code: bool, mem0: Mem, spp: Space, mem: Mem, own: Owners, free: seq<nat>, c: nat,
                              pages: map<nat, u64>, pages': map<nat, u64>, v: nat, n: nat)
  {
    && (forall w :: w in pages ==> w in pages' && pages'[w] == pages[w])
    && (forall w :: w in pages' && w !in pages ==> v <= w < v + n)
    && (forall w :: v <= w < v + n ==> w !in pages && (w !in pages' ==> free == []))
    && (forall w :: v <= w < v + n && w in pages' ==> PageForked(code, mem0, spp, mem, own, c, w, pages'[w]))
  }

  /** Every page of the parent's regions 3 .. k is forked, or missing because the frames ran out. */
  ghost predicate RegionsForked(rs: seq<Region>, k: nat, mem0: Mem, spp: Space, mem: Mem, own: Owners, free: seq<nat>,
                                c: nat, pages: map<nat, u64>)
    requires 3 <= k <= |rs|
  {
    forall i, w :: 3 <= i < k && Covers(rs[i], w) ==>
      && (w !in pages ==> free == [])
      && (w in pages ==> PageForked(rs[i].seg.CodeSegment?, mem0, spp, mem, own, c, w, pages[w]))
  }

  /** The child slot as do_fork leaves it. */
  ghost predicate Forked(mem0: Mem, imgp: Image, spp: Space, mem: Mem, own: Owners, free: seq<nat>, c: nat, imgc: Image,
                         spc: Space)
  {
    && |imgp.regions| >= 3 && |imgc.regions| == |imgp.regions| && imgc.regions[3..] == imgp.regions[3..]
    && RegionsForked(imgp.regions, |imgp.regions|, mem0, spp, mem, own, free, c, spc.pages)
    && StackForked(mem0, spp, mem, own, c, spc)
    && TrapframeForked(mem0, imgp, mem, imgc)
  }

  /** Slot c is a copy of slot p, and no other slot and no frame of another slot changed. */
  ghost predicate ForkedMemory(mem: Mem, own: Owners, slots: seq<Slot>, spaces: seq<Space>, mem': Mem, own': Owners,
                               free': seq<nat>, slots': seq<Slot>, spaces': seq<Space>, p: int, c: int)
  {
    && 0 <= p < |slots| && 0 <= c < |slots| == |spaces| == |slots'| == |spaces'|
    && slots[c].Vacant? && slots'[p].Occupied? && slots'[c].Occupied?
    && slots' == slots[c := slots'[c]] && spaces' == spaces[c := spaces'[c]]
    && Forked(mem, slots'[p].img, spaces'[p], mem', own', free', c, slots'[c].img, spaces'[c])
    && Local(c, mem, own, mem', own')
  }

  /** The parent in slot p can be forked, frames aside. */
  ghost predicate CanFork(mem: Mem, slots: seq<Slot>, spaces: seq<Space>, p: nat)
  {
    p < |slots| == |spaces| && slots[p].Occupied? && Forkable(mem, spaces[p], slots[p].img.regions)
  }

  ghost predicate StackForked(mem0: Mem, spp: Space, mem: Mem, own: Owners, c: nat, spc: Space)
  {
    var v := USER_STACK_PAGE / 4096;
    && v in spc.pages && Source(spp, v) != 0 && Source(spp, v) in mem0
    && Held(mem, own, FrameOf(spc.pages[v]), PageOf(c, v), mem0[Source(spp, v)])
  }

  /** The 35 saved words are equal but for a0, word 9, which is 0 in the child. */
  ghost predicate TrapframeForked(mem0: Mem, imgp: Image, mem: Mem, imgc: Image)
  {
    && imgp.trapframe in mem0 && imgc.trapframe in mem
    && mem[imgc.trapframe][..35] == mem0[imgp.trapframe][..35][9 := 0]
  }

  lemma PageForkedKept(code: bool, mem0: Mem, spp: Space, mem: Mem, own: Owners, mem': Mem, own': Owners, c: nat,
                       v: nat, pte: u64)
    requires PageForked(code, mem0, spp, mem, own, c, v, pte) && TablesOnly(c, mem, own, mem', own')
    requires forall f :: f in own ==> f in mem
    ensures PageForked(code, mem0, spp, mem', own', c, v, pte)
  {
    hide FrameOf, MakePte, ProtToType, Lookup;
  }

  lemma RangeForkedKept(code: bool, mem0: Mem, spp: Space, mem: Mem, own: Owners, free: seq<nat>, mem': Mem,
                        own': Owners, free': seq<nat>, c: nat, pages: map<nat, u64>, pages': map<nat, u64>, v: nat,
                        n: nat)
    requires RangeForked(code, mem0, spp, mem, own, free, c, pages, pages', v, n)
    requires TablesOnly(c, mem, own, mem', own') && (forall f :: f in own ==> f in mem) && (free == [] ==> free' == [])
    ensures RangeForked(code, mem0, spp, mem', own', free', c, pages, pages', v, n)
  {
    hide PageForked, TablesOnly;
    forall w | v <= w < v + n && w in pages' ensures PageForked(code, mem0, spp, mem', own', c, w, pages'[w]) {
      PageForkedKept(code, mem0, spp, mem, own, mem', own', c, w, pages'[w]);
    }
  }

  /** Page v was added and forked, or left out for want of frames. */
  ghost predicate GainedPage(code: bool, mem0: Mem, spp: Space, mem: Mem, own: Owners, free: seq<nat>, c: nat,
                             pages: map<nat, u64>, pages': map<nat, u64>, v: nat)
  {
    if v in pages' then pages' == pages[v := pages'[v]] && PageForked(code, mem0, spp, mem, own, c, v, pages'[v])
    else pages' == pages && free == []
  }

  /** One more page: mapped and forked, or not mapped for want of frames. */
  lemma RangeForkedStep(code: bool, mem0: Mem, spp: Space, mem: Mem, own: Owners, free: seq<nat>, c: nat,
                        pages: map<nat, u64>, pages1: map<nat, u64>, pages2: map<nat, u64>, v: nat, n: nat)
    requires RangeForked(code, mem0, spp, mem, own, free, c, pages, pages1, v, n)
    requires v + n !in pages1
    requires GainedPage(code, mem0, spp, mem, own, free, c, pages1, pages2, v + n)
    ensures RangeForked(code, mem0, spp, mem, own, free, c, pages, pages2, v, n + 1)
  {
    hide PageForked;
  }

  /** A source frame of the parent still holds what it held when the fork began. */
  lemma SourceStable(p: nat, c: nat, mem0: Mem, own0: Owners, mem: Mem, own: Owners, rs: seq<Region>, spp: Space,
                     v: nat)
    requires p != c && Local(c, mem0, own0, mem, own) && Backing(own0, p, rs, spp.pages) && v * 4096 < MAXVA
    requires Source(spp, v) != 0 && Source(spp, v) in mem
    ensures Source(spp, v) in mem0 && mem[Source(spp, v)] == mem0[Source(spp, v)]
  {
    hide InCode;
    assert v * 4096 / 4096 == v;
    assert Backed(own0, p, rs, v, spp.pages[v]);
  }

  lemma OtherSpaceKept(p: nat, c: nat, mem: Mem, free: seq<nat>, own: Owners, mem': Mem, free': seq<nat>, own': Owners,
                       start: nat, end: nat, sp: Space)
    requires p != c && TablesOnly(c, mem, own, mem', own') && SpaceOk(mem, free, own, p, sp)
    requires Accounted(mem, free, own, start, end) && Accounted(mem', free', own', start, end)
    ensures SpaceOk(mem', free', own', p, sp)
  {
    hide Managed, Holds;
    SpaceKept(p, mem, free, own, mem', free', own', sp);
  }

  /** Listing region i of the parent after its pages were forked: the list stays disjoint. */
  lemma ForkListed(rsp: seq<Region>, i: nat, rs: seq<Region>, tf: nat, code: bool, mem0: Mem, spp: Space, mem: Mem,
                   own: Owners, free: seq<nat>, c: nat, pages: map<nat, u64>, pages': map<nat, u64>)
    requires 3 <= i < |rsp| && RegionsOk(rsp) && RegionsOk(rs) && FixedRegions(rs, tf)
    requires rsp[i].seg.CodeSegment? || rsp[i].seg.DataSegment?
    requires |rs| == i && rs[3..] == rsp[3..i] && AllListedMapped(rs[..3], pages)
    requires RangeForked(code, mem0, spp, mem, own, free, c, pages, pages', rsp[i].va / 4096, rsp[i].npages)
    ensures var rs' := rs + [rsp[i]];
            RegionsOk(rs') && FixedRegions(rs', tf) && rs'[3..] == rsp[3..i + 1] && AllListedMapped(rs'[..3], pages')
  {
    hide PageForked;
    var r := rsp[i];
    forall k | 0 <= k < i ensures Disjoint(rs[k], r) {
      if k < 3 {
        assert forall w :: Covers(rs[..3][k], w) ==> w in pages;
      } else {
        assert rs[k] == rs[3..][k - 3] == rsp[3..i][k - 3] == rsp[k];
        assert Disjoint(rsp[k], r);
      }
    }
    RegionsAppend(rs, r);
    assert (rs + [r])[..3] == rs[..3];
    assert (rs + [r])[3..] == rs[3..] + [r];
    assert rsp[3..i + 1] == rsp[3..i] + [r];
  }

  lemma ForkBacking(rs: seq<Region>, r: Region, mem0: Mem, spp: Space, mem: Mem, own: Owners, mem': Mem, own': Owners,
                    free: seq<nat>, c: nat, pages: map<nat, u64>, pages': map<nat, u64>)
    requires RegionsOk(rs + [r]) && (r.seg.CodeSegment? || r.seg.DataSegment?)
    requires Backing(own, c, rs, pages)
    requires TablesOnly(c, mem, own, mem', own') && forall f :: f in own ==> f in mem
    requires RangeForked(r.seg.CodeSegment?, mem0, spp, mem', own', free, c, pages, pages', r.va / 4096, r.npages)
    ensures Backing(own', c, rs + [r], pages')
  {
    hide TablesOnly, FrameOf, MakePte, ProtToType, InCode, Lookup;
    TablesOnlyBacking(c, mem, own, mem', own', rs, pages);
    forall w | w in pages' ensures Backed(own', c, rs + [r], w, pages'[w]) {
      InCodeAppend(rs, r, w);
      if w in pages {
        assert Backed(own', c, rs, w, pages[w]);
        assert !Covers(r, w);
      } else {
        assert Covers(r, w) && PageForked(r.seg.CodeSegment?, mem0, spp, mem', own', c, w, pages'[w]);
        if !r.seg.CodeSegment? { LastNotInCode(rs, r, w); }
      }
    }
  }

  lemma LastNotInCode(rs: seq<Region>, r: Region, w: nat)
    requires RegionsOk(rs + [r]) && Covers(r, w)
    ensures !InCode(rs, w)
  {
    var rs' := rs + [r];
    forall k | 0 <= k < |rs| ensures !Covers(rs[k], w) {
      assert Disjoint(rs'[k], rs'[|rs|]);
    }
  }

  lemma ForkRegions(rsp: seq<Region>, i: nat, mem0: Mem, spp: Space, mem: Mem, own: Owners, free: seq<nat>, mem': Mem,
                    own': Owners, free': seq<nat>, c: nat, pages: map<nat, u64>, pages': map<nat, u64>)
    requires 3 <= i < |rsp| && RegionsOk(rsp)
    requires TablesOnly(c, mem, own, mem', own') && (forall f :: f in own ==> f in mem) && (free == [] ==> free' == [])
    requires RegionsForked(rsp, i, mem0, spp, mem, own, free, c, pages)
    requires RangeForked(rsp[i].seg.CodeSegment?, mem0, spp, mem', own', free', c, pages, pages', rsp[i].va / 4096,
                         rsp[i].npages)
    ensures RegionsForked(rsp, i + 1, mem0, spp, mem', own', free', c, pages')
  {
    hide PageForked, TablesOnly;
    forall k, w | 3 <= k < i + 1 && Covers(rsp[k], w)
      ensures w !in pages' ==> free' == []
      ensures w in pages' ==> PageForked(rsp[k].seg.CodeSegment?, mem0, spp, mem', own', c, w, pages'[w])
    {
      if k < i {
        assert Disjoint(rsp[k], rsp[i]);
        if w in pages' {
          assert !Covers(rsp[i], w);
          PageForkedKept(rsp[k].seg.CodeSegment?, mem0, spp, mem, own, mem', own', c, w, pages[w]);
        }
      }
    }
  }

  /** A code page of the parent is backed by a shared code frame, by none, or by frame 0. */
  lemma CodeSource(p: nat, c: nat, mem0: Mem, own0: Owners, mem: Mem, own: Owners, rs: seq<Region>, spp: Space, v: nat)
    requires p != c && Local(c, mem0, own0, mem, own) && Backing(own0, p, rs, spp.pages) && 0 !in own0
    requires v * 4096 < MAXVA && InCode(rs, v) && Source(spp, v) in own
    ensures own[Source(spp, v)] == CodeUse
  {
    hide InCode;
    assert v * 4096 / 4096 == v;
    assert Backed(own0, p, rs, v, spp.pages[v]);
  }

  lemma CodePageForked(mem0: Mem, spp: Space, mem: Mem, own: Owners, c: nat, v: nat)
    requires v * 4096 < MAXVA && (Source(spp, v) in own ==> own[Source(spp, v)] == CodeUse)
    ensures PageForked(true, mem0, spp, mem, own, c, v, MakePte(Lookup(spp, v * 4096), ProtToType(7, true)))
  {
    hide MakePte, ProtToType, FrameOf, Lookup;
    EntryFacts(Lookup(spp, v * 4096), 7, true);
  }

  lemma DataPageForked(mem0: Mem, spp: Space, mem: Mem, own: Owners, c: nat, v: nat, pa: u64)
    requires v * 4096 < MAXVA && pa % 4096 == 0 && Source(spp, v) != 0 && Source(spp, v) in mem0
    requires Held(mem, own, pa / 4096, PageOf(c, v), mem0[Source(spp, v)])
    ensures PageForked(false, mem0, spp, mem, own, c, v, MakePte(pa, ProtToType(3, true)))
  {
    hide MakePte, ProtToType, FrameOf, Lookup;
    EntryFacts(pa, 3, true);
    assert pa / 4096 * 4096 == pa;
  }

  /** Taking a free frame and writing it. */
  lemma FillAdds(mem: Mem, free: seq<nat>, own: Owners, start: nat, end: nat, f: nat, u: Use, page: Page)
    requires Accounted(mem, free, own, start, end) && f in own && own[f] == FreeUse
    ensures f in mem && Adds(mem, own, mem[f := page], own[f := u]) && Held(mem[f := page], own[f := u], f, u, page)
  {
  }

  lemma TablesOnlyHeld(c: nat, mem: Mem, own: Owners, mem': Mem, own': Owners, f: nat, u: Use, page: Page)
    requires TablesOnly(c, mem, own, mem', own') && Held(mem, own, f, u, page) && u != FreeUse && u != TableOf(c)
    ensures Held(mem', own', f, u, page)
  {
  }

  lemma OwnSpaceKept(p: nat, mem: Mem, free: seq<nat>, own: Owners, mem': Mem, free': seq<nat>, own': Owners,
                     start: nat, end: nat, sp: Space)
    requires Adds(mem, own, mem', own') && SpaceOk(mem, free, own, p, sp)
    requires Accounted(mem, free, own, start, end) && Accounted(mem', free', own', start, end)
    ensures SpaceOk(mem', free', own', p, sp)
  {
    hide SpaceOk, Accounted, Adds, TablesOnly;
    AddsTablesOnly(p + 1, mem, free, own, start, end, mem', own');
    OtherSpaceKept(p, p + 1, mem, free, own, mem', free', own', start, end, sp);
  }

  lemma RangeForkedNone(code: bool, mem0: Mem, spp: Space, mem: Mem, own: Owners, free: seq<nat>, c: nat,
                        pages: map<nat, u64>, v: nat)
    ensures RangeForked(code, mem0, spp, mem, own, free, c, pages, pages, v, 0)
  {
  }

  /** What do_fork's region loop keeps, with regions below i done. */
  ghost predicate ForkInv(p: nat, c: nat, mem0: Mem, own0: Owners, imgp: Image, spp: Space, i: nat, mem: Mem,
                          own: Owners, free: seq<nat>, img: Image, spc: Space)
  {
    && p != c && 3 <= i <= |imgp.regions| && FixedRegions(imgp.regions, imgp.trapframe) && RegionsOk(imgp.regions)
    && Backing(own0, p, imgp.regions, spp.pages) && 0 !in own0
    && Local(c, mem0, own0, mem, own)
    && SpaceOk(mem, free, own, p, spp) && spp.tables[Root] == imgp.pagetable
    && SlotOk(mem, free, own, c, img, spc)
    && |img.regions| == i && img.regions[3..] == imgp.regions[3..i] && AllListedMapped(img.regions[..3], spc.pages)
    && RegionsForked(imgp.regions, i, mem0, spp, mem, own, free, c, spc.pages)
    && StackForked(mem0, spp, mem, own, c, spc)
    && TrapframeCopied(mem0, imgp, mem, img)
  }

  ghost predicate TrapframeCopied(mem0: Mem, imgp: Image, mem: Mem, img: Image)
  {
    imgp.trapframe in mem0 && img.trapframe in mem && mem[img.trapframe][..35] == mem0[imgp.trapframe][..35]
  }

  lemma ForkStep(p: nat, c: nat, mem0: Mem, own0: Owners, imgp: Image, spp: Space, i: nat, mem: Mem, own: Owners,
                 free: seq<nat>, img: Image, spc: Space, start: nat, end: nat, mem': Mem, own': Owners, free': seq<nat>,
                 spc': Space)
    requires ForkInv(p, c, mem0, own0, imgp, spp, i, mem, own, free, img, spc) && i < |imgp.regions|
    requires Accounted(mem, free, own, start, end)
    requires SpaceOk(mem', free', own', c, spc') && spc'.tables[Root] == img.pagetable
    requires SpaceOk(mem', free', own', p, spp)
    requires TablesOnly(c, mem, own, mem', own') && (free == [] ==> free' == [])
    requires RangeForked(imgp.regions[i].seg.CodeSegment?, mem0, spp, mem', own', free', c, spc.pages, spc'.pages,
                         imgp.regions[i].va / 4096, imgp.regions[i].npages)
    ensures ForkInv(p, c, mem0, own0, imgp, spp, i + 1, mem', own', free',
                    img.(regions := img.regions + [imgp.regions[i]]), spc')
  {
    hide Accounted, SpaceOk, TablesOnly, Backing, RegionsOk, RangeForked, RegionsForked, AllListedMapped, Local,
         FrameOf, Held, Lookup;
    var r := imgp.regions[i];
    OwnedExist(mem, free, own, start, end);
    ForkListed(imgp.regions, i, img.regions, img.trapframe, r.seg.CodeSegment?, mem0, spp, mem', own', free', c,
               spc.pages, spc'.pages);
    ForkBacking(img.regions, r, mem0, spp, mem, own, mem', own', free', c, spc.pages, spc'.pages);
    ForkRegions(imgp.regions, i, mem0, spp, mem, own, free, mem', own', free', c, spc.pages, spc'.pages);
    TablesOnlyLocal(c, mem, own, mem', own');
    LocalTrans(c, mem0, own0, mem, own, mem', own');
    TablesOnlyKeeps(c, mem, free, own, start, end, mem', own');
    TablesOnlyUse(c, mem, own, mem', own', img.trapframe);
    var v := USER_STACK_PAGE / 4096;
    RangeKeeps(r.seg.CodeSegment?, mem0, spp, mem', own', free', c, spc.pages, spc'.pages, r.va / 4096, r.npages, v);
    RangeKeeps(r.seg.CodeSegment?, mem0, spp, mem', own', free', c, spc.pages, spc'.pages, r.va / 4096, r.npages,
               img.trapframe);
    TablesOnlyHeld(c, mem, own, mem', own', FrameOf(spc.pages[v]), PageOf(c, v), mem0[Source(spp, v)]);
  }

  lemma RangeKeeps(code: bool, mem0: Mem, spp: Space, mem: Mem, own: Owners, free: seq<nat>, c: nat,
                   pages: map<nat, u64>, pages': map<nat, u64>, v: nat, n: nat, w: nat)
    requires RangeForked(code, mem0, spp, mem, own, free, c, pages, pages', v, n) && w in pages
    ensures w in pages' && pages'[w] == pages[w]
  {
    hide PageForked;
  }

  /** Setting a0 in the child's trapframe disturbs nothing else that was forked. */
  lemma ForkDone(p: nat, c: nat, mem0: Mem, own0: Owners, imgp: Image, spp: Space, mem: Mem, own: Owners,
                 free: seq<nat>, img: Image, spc: Space, start: nat, end: nat)
    requires ForkInv(p, c, mem0, own0, imgp, spp, |imgp.regions|, mem, own, free, img, spc)
    requires Accounted(mem, free, own, start, end)
    ensures img.trapframe in mem
    ensures var mem' := mem[img.trapframe := mem[img.trapframe][9 := 0]];
            && Local(c, mem0, own0, mem', own) && SlotOk(mem', free, own, c, img, spc)
            && Forked(mem0, imgp, spp, mem', own, free, c, img, spc)
  {
    hide Accounted, SpaceOk, Backing, AllListedMapped, Local, FrameOf, Lookup, MakePte, ProtToType, InCode;
    var f := img.trapframe;
    var mem' := mem[f := mem[f][9 := 0]];
    WriteLocal(c, mem, own, f, mem[f][9 := 0]);
    LocalTrans(c, mem0, own0, mem, own, mem', own);
    WriteSpace(c, mem, free, own, start, end, f, mem[f][9 := 0], spc);
    assert Disjoint(img.regions[0], img.regions[1]) && Covers(img.regions[1], f);
    assert Covers(img.regions[0], USER_STACK_PAGE / 4096);
    forall i, w | 3 <= i < |imgp.regions| && Covers(imgp.regions[i], w) && w in spc.pages
      ensures PageForked(imgp.regions[i].seg.CodeSegment?, mem0, spp, mem', own, c, w, spc.pages[w])
    {
      assert img.regions[i] == img.regions[3..][i - 3] == imgp.regions[i];
      assert Disjoint(img.regions[1], img.regions[i]);
      assert PageForked(imgp.regions[i].seg.CodeSegment?, mem0, spp, mem, own, c, w, spc.pages[w]);
    }
    assert mem'[f][..35] == mem[f][..35][9 := 0];
  }

  lemma WriteSpace(q: nat, mem: Mem, free: seq<nat>, own: Owners, start: nat, end: nat, f: nat, page: Page, sp: Space)
    requires SpaceOk(mem, free, own, q, sp) && Accounted(mem, free, own, start, end) && f in own && own[f].PageOf?
    ensures SpaceOk(mem[f := page], free, own, q, sp)
  {
    hide Holds, Managed;
    SpaceKept(q, mem, free, own, mem[f := page], free, own, sp);
  }

  /** A private, readable page translates to its own frame. */
  lemma PrivateSource(p: nat, own: Owners, rs: seq<Region>, sp: Space, v: nat)
    requires Backing(own, p, rs, sp.pages) && v in sp.pages && v * 4096 < MAXVA && FrameOf(sp.pages[v]) in own
    requires 0 !in own
    ensures Source(sp, v) == FrameOf(sp.pages[v]) && Lookup(sp, v * 4096) != 0
  {
    hide InCode;
    assert v * 4096 / 4096 == v;
    assert Backed(own, p, rs, v, sp.pages[v]);
  }

  /** A fresh child and its parent, before anything is copied. */
  ghost predicate ForkReady(p: nat, c: nat, mem0: Mem, free0: seq<nat>, own0: Owners, imgp: Image, spp: Space,
                            start: nat, end: nat, mem: Mem, free: seq<nat>, own: Owners, img: Image, spc: Space)
  {
    && p != c && Accounted(mem0, free0, own0, start, end) && Accounted(mem, free, own, start, end) && 0 !in own0
    && SlotOk(mem0, free0, own0, p, imgp, spp) && TablesOnly(c, mem0, own0, mem, own)
    && SlotOk(mem, free, own, c, img, spc) && |img.regions| == 3
    && AllListedMapped(img.regions, spc.pages) && StackMapped(own, c, spc.pages)
  }

  lemma ReadyFacts(p: nat, c: nat, mem0: Mem, free0: seq<nat>, own0: Owners, imgp: Image, spp: Space, start: nat,
                   end: nat, mem: Mem, free: seq<nat>, own: Owners, img: Image, spc: Space)
    requires ForkReady(p, c, mem0, free0, own0, imgp, spp, start, end, mem, free, own, img, spc)
    ensures Root in spp.tables && spp.tables[Root] == imgp.pagetable && Holds(mem, free, spp)
    ensures Root in spc.tables && spc.tables[Root] == img.pagetable && Holds(mem, free, spc)
    ensures imgp.trapframe in mem && IsUse(own, img.trapframe, PageOf(c, img.trapframe)) && img.trapframe in mem
    ensures var v := USER_STACK_PAGE / 4096;
            && v in spc.pages && Source(spc, v) == FrameOf(spc.pages[v])
            && IsUse(own, Source(spc, v), PageOf(c, v)) && Source(spc, v) in mem
  {
    hide Accounted, SpaceOk, Backing, FrameOf, Lookup, TablesOnly, RegionsOk, AllListedMapped, Holds;
    OwnedExist(mem, free, own, start, end);
    OwnedExist(mem0, free0, own0, start, end);
    OtherSpaceKept(p, c, mem0, free0, own0, mem, free, own, start, end, spp);
    HasRoot(mem, free, own, p, spp);
    HasRoot(mem, free, own, c, spc);
    TablesOnlyUse(c, mem0, own0, mem, own, imgp.trapframe);
    SameKeys(c, mem0, own0, mem, own);
    PrivateSource(c, own, img.regions, spc, USER_STACK_PAGE / 4096);
  }

  lemma ReadyKeys(p: nat, c: nat, mem0: Mem, free0: seq<nat>, own0: Owners, imgp: Image, spp: Space, start: nat,
                  end: nat, mem: Mem, free: seq<nat>, own: Owners, img: Image, spc: Space)
    requires ForkReady(p, c, mem0, free0, own0, imgp, spp, start, end, mem, free, own, img, spc)
    ensures mem.Keys == mem0.Keys
  {
    hide TablesOnly, Accounted, SlotOk;
    SameKeys(c, mem0, own0, mem, own);
  }

  /** The child after the copies of stack (to mem1) and trapframe (to mem2). */
  lemma ForkBegun(p: nat, c: nat, mem0: Mem, free0: seq<nat>, own0: Owners, imgp: Image, spp: Space, start: nat,
                  end: nat, mem: Mem, free: seq<nat>, own: Owners, img: Image, spc: Space, v: nat, mem1: Mem, mem2: Mem)
    requires v == USER_STACK_PAGE / 4096 && Source(spp, v) != 0 && Source(spp, v) in mem
    requires mem1 == mem[Source(spc, v) := mem[Source(spp, v)]] && imgp.trapframe in mem1 && img.trapframe in mem1
    requires mem2 == mem1[img.trapframe := mem1[imgp.trapframe][..35] + mem1[img.trapframe][35..]]
    requires ForkReady(p, c, mem0, free0, own0, imgp, spp, start, end, mem, free, own, img, spc)
    ensures ForkInv(p, c, mem0, own0, imgp, spp, 3, mem2, own, free, img, spc)
  {
    hide Accounted, SpaceOk, Backing, Local, FrameOf, Lookup, TablesOnly, RegionsOk, AllListedMapped, Holds;
    ReadyFacts(p, c, mem0, free0, own0, imgp, spp, start, end, mem, free, own, img, spc);
    OwnedExist(mem0, free0, own0, start, end);
    TablesOnlyLocal(c, mem0, own0, mem, own);
    SourceStable(p, c, mem0, own0, mem, own, imgp.regions, spp, v);
    TablesOnlyUse(c, mem0, own0, mem, own, imgp.trapframe);
    OtherSpaceKept(p, c, mem0, free0, own0, mem, free, own, start, end, spp);
    WriteBoth(p, c, mem, free, own, start, end, Source(spc, v), mem[Source(spp, v)], spp, spc, mem0, own0);
    AccountedFrame(mem, free, own, start, end, mem1);
    var page := mem1[imgp.trapframe][..35] + mem1[img.trapframe][35..];
    WriteBoth(p, c, mem1, free, own, start, end, img.trapframe, page, spp, spc, mem0, own0);
    StackTrapframeApart(img.regions, img.trapframe);
    assert img.regions[..3] == img.regions && img.regions[3..] == [] == imgp.regions[3..3];
    assert page[..35] == mem1[imgp.trapframe][..35];
  }

  lemma StackTrapframeApart(rs: seq<Region>, tf: nat)
    requires RegionsOk(rs) && FixedRegions(rs, tf)
    ensures tf != USER_STACK_PAGE / 4096
  {
    assert Disjoint(rs[0], rs[1]) && Covers(rs[0], USER_STACK_PAGE / 4096);
  }

  lemma WriteBoth(p: nat, c: nat, mem: Mem, free: seq<nat>, own: Owners, start: nat, end: nat, f: nat, page: Page,
                  spp: Space, spc: Space, mem0: Mem, own0: Owners)
    requires SpaceOk(mem, free, own, p, spp) && SpaceOk(mem, free, own, c, spc) && Accounted(mem, free, own, start, end)
    requires f in own && own[f].PageOf? && own[f].p == c && f in mem && Local(c, mem0, own0, mem, own)
    ensures SpaceOk(mem[f := page], free, own, p, spp) && SpaceOk(mem[f := page], free, own, c, spc)
    ensures Local(c, mem0, own0, mem[f := page], own)
  {
    hide SpaceOk, Accounted, Local;
    WriteSpace(p, mem, free, own, start, end, f, page, spp);
    WriteSpace(c, mem, free, own, start, end, f, page, spc);
    WriteLocal(c, mem, own, f, page);
    LocalTrans(c, mem0, own0, mem, own, mem[f := page], own);
  }

  lemma ForkTrapframe(p: nat, c: nat, mem0: Mem, own0: Owners, imgp: Image, spp: Space, mem: Mem, own: Owners,
                      free: seq<nat>, img: Image, spc: Space)
    requires ForkInv(p, c, mem0, own0, imgp, spp, |imgp.regions|, mem, own, free, img, spc)
    ensures img.trapframe in own && own[img.trapframe].PageOf?
  {
    hide Local, SpaceOk, Backing, RegionsForked;
  }

  lemma ForkBounds(p: nat, c: nat, mem0: Mem, own0: Owners, imgp: Image, spp: Space, i: nat, mem: Mem, own: Owners,
                   free: seq<nat>, img: Image, spc: Space)
    requires ForkInv(p, c, mem0, own0, imgp, spp, i, mem, own, free, img, spc)
    ensures 3 <= |imgp.regions| && img.trapframe in own && own[img.trapframe].PageOf?
    ensures p != c && Local(c, mem0, own0, mem, own) && Backing(own0, p, imgp.regions, spp.pages) && 0 !in own0
    ensures Root in spp.tables && spp.tables[Root] == imgp.pagetable && Root in spc.tables
    ensures spc.tables[Root] == img.pagetable
    ensures SpaceOk(mem, free, own, p, spp) && SpaceOk(mem, free, own, c, spc)
    ensures RegionsOk(imgp.regions)
    ensures i < |imgp.regions| ==>
              RegionOk(imgp.regions[i]) && (imgp.regions[i].seg.CodeSegment? || imgp.regions[i].seg.DataSegment?)
  {
    HasRoot(mem, free, own, p, spp);
    HasRoot(mem, free, own, c, spc);
  }

  /** The word a process reads at va through its own page table; None where the access faults. */
  datatype Word = None | Word(x: u64)

  ghost function UserRead(mem: Mem, sp: Space, va: u64): Word
  {
    var pa := Lookup(sp, va);
    if pa == 0 || pa / 4096 !in mem then None else Word(mem[pa / 4096][va % 4096 / 8])
  }

  /** What fork means to the programs: in its data regions and on its stack the child reads the very words
      the parent read before, and its code pages are the parent's. */
  lemma ChildReadsParent(mem0: Mem, imgp: Image, spp: Space, mem: Mem, own: Owners, free: seq<nat>, c: nat, imgc: Image,
                         spc: Space, i: nat, va: u64)
    requires Forked(mem0, imgp, spp, mem, own, free, c, imgc, spc) && Backing(own, c, imgc.regions, spc.pages)
    requires 0 !in own
    requires va < MAXVA && va / 4096 in spc.pages
    ensures va / 4096 == USER_STACK_PAGE / 4096 ==> UserRead(mem, spc, va) == UserRead(mem0, spp, va) != None
    ensures 3 <= i < |imgp.regions| && Covers(imgp.regions[i], va / 4096) && imgp.regions[i].seg.DataSegment? ==>
              UserRead(mem, spc, va) == UserRead(mem0, spp, va) != None
    ensures 3 <= i < |imgp.regions| && Covers(imgp.regions[i], va / 4096) && imgp.regions[i].seg.CodeSegment? ==>
              Lookup(spc, va) == Lookup(spp, va)
  {
    hide Backing, InCode, MakePte, ProtToType, Lookup, Held, UserRead, PageForked;
    var v := va / 4096;
    SamePageLookup(spp, va);
    SamePageLookup(spc, va);
    if v == USER_STACK_PAGE / 4096 { CopyReads(mem0, spp, mem, own, c, imgc.regions, spc, va); }
    if 3 <= i < |imgp.regions| && Covers(imgp.regions[i], v) {
      assert PageForked(imgp.regions[i].seg.CodeSegment?, mem0, spp, mem, own, c, v, spc.pages[v]);
      if imgp.regions[i].seg.CodeSegment? {
        SharedLookup(mem0, spp, mem, own, c, spc, va);
      } else {
        ForkedHeld(mem0, spp, mem, own, c, v, spc.pages[v]);
        CopyReads(mem0, spp, mem, own, c, imgc.regions, spc, va);
      }
    }
  }

  lemma SamePageLookup(sp: Space, va: u64)
    requires va < MAXVA
    ensures Lookup(sp, va) == Lookup(sp, va / 4096 * 4096)
  {
  }

  lemma ForkedHeld(mem0: Mem, spp: Space, mem: Mem, own: Owners, c: nat, v: nat, pte: u64)
    requires PageForked(false, mem0, spp, mem, own, c, v, pte)
    ensures v * 4096 < MAXVA && Source(spp, v) != 0 && Source(spp, v) in mem0
    ensures Held(mem, own, FrameOf(pte), PageOf(c, v), mem0[Source(spp, v)])
  {
  }

  lemma CopyReads(mem0: Mem, spp: Space, mem: Mem, own: Owners, c: nat, rs: seq<Region>, spc: Space, va: u64)
    requires va < MAXVA && va / 4096 in spc.pages && Source(spp, va / 4096) != 0 && Source(spp, va / 4096) in mem0
    requires Held(mem, own, FrameOf(spc.pages[va / 4096]), PageOf(c, va / 4096), mem0[Source(spp, va / 4096)])
    requires Backing(own, c, rs, spc.pages) && 0 !in own
    ensures UserRead(mem, spc, va) == UserRead(mem0, spp, va) != None
  {
    hide Backing, FrameOf, Lookup;
    SamePageLookup(spp, va);
    SamePageLookup(spc, va);
    PrivateSource(c, own, rs, spc, va / 4096);
  }

  lemma SharedLookup(mem0: Mem, spp: Space, mem: Mem, own: Owners, c: nat, spc: Space, va: u64)
    requires va < MAXVA && va / 4096 in spc.pages
    requires PageForked(true, mem0, spp, mem, own, c, va / 4096, spc.pages[va / 4096])
    ensures Lookup(spc, va) == Lookup(spp, va)
  {
    hide ProtToType, MakePte;
    SamePageLookup(spp, va);
    MakePteFields(Lookup(spp, va / 4096 * 4096), ProtToType(7, true));
  }

  /** A page outside p's code regions that is backed at all is backed by a frame no other process maps. */
  lemma PrivateFrame(p: nat, q: nat, own: Owners, rsp: seq<Region>, spp: Space, rsq: seq<Region>, spq: Space, v: nat,
                     w: nat)
    requires p != q && Backing(own, p, rsp, spp.pages) && Backing(own, q, rsq, spq.pages)
    requires v in spp.pages && !InCode(rsp, v) && FrameOf(spp.pages[v]) in own && w in spq.pages
    ensures FrameOf(spp.pages[v]) != FrameOf(spq.pages[w])
  {
    hide FrameOf, InCode;
    assert Backed(own, p, rsp, v, spp.pages[v]) && Backed(own, q, rsq, w, spq.pages[w]);
  }

  /** So what p stores there, q cannot read. */
  lemma StoreInvisible(p: nat, q: nat, own: Owners, rsp: seq<Region>, spp: Space, rsq: seq<Region>, spq: Space,
                       mem: Mem, v: nat, page: Page, va: u64)
    requires p != q && Backing(own, p, rsp, spp.pages) && Backing(own, q, rsq, spq.pages)
    requires v in spp.pages && !InCode(rsp, v) && FrameOf(spp.pages[v]) in own && FrameOf(spp.pages[v]) in mem
    ensures UserRead(mem[FrameOf(spp.pages[v]) := page], spq, va) == UserRead(mem, spq, va)
  {
    hide InCode, Backing;
    if va / 4096 in spq.pages { PrivateFrame(p, q, own, rsp, spp, rsq, spq, v, va / 4096); }
  }

  /** Every page a process has is readable, so lookup_pa finds its frame. */
  lemma ReadableLookup(p: nat, own: Owners, rs: seq<Region>, sp: Space, va: u64)
    requires Backing(own, p, rs, sp.pages) && va / 4096 in sp.pages && va < MAXVA
    ensures Lookup(sp, va) / 4096 == FrameOf(sp.pages[va / 4096])
  {
    hide InCode;
    assert Backed(own, p, rs, va / 4096, sp.pages[va / 4096]);
  }

  /** User mode may write the page at va. */
  ghost predicate Writable(sp: Space, va: u64)
  {
    va < MAXVA && va / 4096 in sp.pages && PteU(sp.pages[va / 4096]) && PteW(sp.pages[va / 4096])
  }

  lemma NullEntry()
    ensures !PteU(0) && !PteW(0)
  {
  }

  /** Memory after a store in user mode through the page table. */
  ghost function Stored(mem: Mem, sp: Space, va: u64, x: u64): Mem
  {
    if !Writable(sp, va) then mem else
    var f := FrameOf(sp.pages[va / 4096]);
    if f !in mem then mem else mem[f := mem[f][va % 4096 / 8 := x]]
  }

  /** No process but p reads anything else after the change. */
  ghost predicate Unseen(p: nat, slots: seq<Slot>, spaces: seq<Space>, mem: Mem, mem': Mem)
  {
    && |slots| == |spaces|
    && forall q, va: u64 :: 0 <= q < |slots| && q != p && slots[q].Occupied? ==>
         UserRead(mem', spaces[q], va) == UserRead(mem, spaces[q], va)
  }

  lemma UnseenTrans(p: nat, slots: seq<Slot>, spaces: seq<Space>, m0: Mem, m1: Mem, m2: Mem)
    requires Unseen(p, slots, spaces, m0, m1) && Unseen(p, slots, spaces, m1, m2)
    ensures Unseen(p, slots, spaces, m0, m2)
  {
    hide UserRead;
  }

  lemma NothingUnseen(p: nat, slots: seq<Slot>, spaces: seq<Space>, mem: Mem)
    requires |slots| == |spaces|
    ensures Unseen(p, slots, spaces, mem, mem)
  {
  }

  lemma StoreIsolated(p: nat, mem: Mem, free: seq<nat>, own: Owners, slots: seq<Slot>, spaces: seq<Space>, v: nat,
                      page: Page)
    requires |slots| == |spaces| && p < |slots| && slots[p].Occupied?
    requires SlotsBut(|slots|, mem, free, own, slots, spaces)
    requires v in spaces[p].pages && !InCode(slots[p].img.regions, v)
    requires FrameOf(spaces[p].pages[v]) in own && FrameOf(spaces[p].pages[v]) in mem
    ensures Unseen(p, slots, spaces, mem, mem[FrameOf(spaces[p].pages[v]) := page])
  {
    hide SlotsBut, FrameOf, UserRead, InCode, SpaceOk, Backing, ImageOk;
    SlotFacts(mem, free, own, p, slots, spaces);
    forall q, va: u64 | 0 <= q < |slots| && q != p && slots[q].Occupied?
      ensures UserRead(mem[FrameOf(spaces[p].pages[v]) := page], spaces[q], va) == UserRead(mem, spaces[q], va)
    {
      SlotFacts(mem, free, own, q, slots, spaces);
      StoreInvisible(p, q, own, slots[p].img.regions, spaces[p], slots[q].img.regions, spaces[q], mem, v, page, va);
    }
  }
}
