/** sys_user_free_page hands back the frame behind any page, whoever else uses it: what that leaves intact. */
module Freeing {
  import opened Sv39
  import opened PageTable
  import opened Memory
  import opened Ownership
  import opened Images

  /** Process q maps frame f at page w. */
  ghost predicate Maps(slots: seq<Slot>, spaces: seq<Space>, q: int, w: nat, f: nat)
  {
    && 0 <= q < |slots| == |spaces| && slots[q].Occupied?
    && w in spaces[q].pages && FrameOf(spaces[q].pages[w]) == f
  }

  /** Page v of process p is its trapframe, or its frame is also behind another page. */
  ghost predicate StillUsed(slots: seq<Slot>, spaces: seq<Space>, p: nat, v: nat)
  {
    && p < |slots| == |spaces| && slots[p].Occupied? && v in spaces[p].pages
    && (v == slots[p].img.trapframe
        || exists q, w :: Maps(slots, spaces, q, w, FrameOf(spaces[p].pages[v])) && (q != p || w != v))
  }

  /** Only frame f and tables of p were written. */
  ghost predicate OnlyTablesAnd(p: nat, f: nat, mem: Mem, own: Owners, mem': Mem)
  {
    && mem'.Keys == mem.Keys
    && forall g :: g in mem && g != f && (g in own ==> own[g] != TableOf(p)) ==> mem'[g] == mem[g]
  }

  lemma SparesTables(p: nat, f: nat, mem: Mem, free: seq<nat>, own: Owners, sp: Space, mem': Mem)
    requires SpaceOk(mem, free, own, p, sp) && Spares(mem, free, sp, mem', [f] + free)
    ensures OnlyTablesAnd(p, f, mem, own, mem')
  {
    hide Holds;
  }

  /** One page may be handed back as far as its own tree goes. */
  lemma PageReclaimable(p: nat, mem: Mem, free: seq<nat>, own: Owners, start: nat, end: nat, rs: seq<Region>, sp: Space,
                        v: nat)
    requires Accounted(mem, free, own, start, end) && SpaceOk(mem, free, own, p, sp) && Backing(own, p, rs, sp.pages)
    ensures Reclaimable(sp, free, v, 1, start, end)
  {
    hide FrameOf, Managed, InCode, Holds;
    if v in sp.pages { assert Backed(own, p, rs, v, sp.pages[v]); }
  }

  lemma FreedAccount(mem: Mem, free: seq<nat>, own: Owners, start: nat, end: nat, f: nat, mem': Mem)
    requires Accounted(mem, free, own, start, end) && f in own && mem'.Keys == mem.Keys
    ensures Accounted(mem', [f] + free, own[f := FreeUse], start, end)
  {
    hide Managed;
  }

  lemma OtherSlotFreed(p: nat, q: nat, f: nat, mem: Mem, free: seq<nat>, own: Owners, start: nat, end: nat, mem': Mem,
                       img: Image, sp: Space)
    requires p != q && Accounted(mem, free, own, start, end) && SlotOk(mem, free, own, q, img, sp)
    requires f in own && (own[f] == CodeUse || own[f].PageOf?) && f != img.trapframe
    requires OnlyTablesAnd(p, f, mem, own, mem')
    requires forall w :: w in sp.pages ==> FrameOf(sp.pages[w]) != f
    ensures SlotOk(mem', [f] + free, own[f := FreeUse], q, img, sp)
  {
    hide FrameOf, Managed, InCode, RegionsOk, FixedRegions, Holds;
    var own' := own[f := FreeUse];
    SpaceKept(q, mem, free, own, mem', [f] + free, own', sp);
    forall w | w in sp.pages ensures Backed(own', q, img.regions, w, sp.pages[w]) {
      assert Backed(own, q, img.regions, w, sp.pages[w]);
    }
  }

  lemma OwnSlotFreed(p: nat, v: nat, mem: Mem, free: seq<nat>, own: Owners, mem': Mem, img: Image, sp: Space)
    requires SlotOk(mem, free, own, p, img, sp) && v in sp.pages && FrameOf(sp.pages[v]) in own && v != img.trapframe
    requires var f := FrameOf(sp.pages[v]); Holds(mem', [f] + free, Space(sp.tables, Without(sp.pages, v, 1)))
    requires forall w :: w in sp.pages && w != v ==> FrameOf(sp.pages[w]) != FrameOf(sp.pages[v])
    ensures var f := FrameOf(sp.pages[v]);
            SlotOk(mem', [f] + free, own[f := FreeUse], p, img, Space(sp.tables, Without(sp.pages, v, 1)))
  {
    hide FrameOf, InCode, RegionsOk, FixedRegions, Holds, Without;
    var f := FrameOf(sp.pages[v]);
    var own' := own[f := FreeUse];
    assert Backed(own, p, img.regions, v, sp.pages[v]);
    HasRoot(mem, free, own, p, sp);
    forall w | w in Without(sp.pages, v, 1) ensures Backed(own', p, img.regions, w, Without(sp.pages, v, 1)[w]) {
      assert Backed(own, p, img.regions, w, sp.pages[w]);
    }
  }

  /** No slot is in order whose trapframe, or a page of which, lies in a free frame. */
  lemma FreeBreaks(q: nat, f: nat, mem: Mem, free: seq<nat>, own: Owners, img: Image, sp: Space)
    requires f in own && own[f] == FreeUse && SlotOk(mem, free, own, q, img, sp)
    ensures img.trapframe != f && forall w :: w in sp.pages ==> FrameOf(sp.pages[w]) != f
  {
    hide FrameOf, InCode, RegionsOk, FixedRegions, Holds;
    forall w | w in sp.pages ensures FrameOf(sp.pages[w]) != f { assert Backed(own, q, img.regions, w, sp.pages[w]); }
  }

  /** Handing back the frame of page v keeps every slot in order exactly if the frame has no other use. */
  lemma FreedIff(p: nat, v: nat, mem: Mem, free: seq<nat>, own: Owners, start: nat, end: nat, mem': Mem,
                 slots: seq<Slot>, spaces: seq<Space>)
    requires |slots| == |spaces| && p < |slots| && slots[p].Occupied?
    requires SlotsBut(|slots|, mem, free, own, slots, spaces)
    requires Accounted(mem, free, own, start, end) && v in spaces[p].pages && FrameOf(spaces[p].pages[v]) in own
    requires var f := FrameOf(spaces[p].pages[v]);
             && Holds(mem', [f] + free, Space(spaces[p].tables, Without(spaces[p].pages, v, 1)))
             && OnlyTablesAnd(p, f, mem, own, mem')
    ensures var f := FrameOf(spaces[p].pages[v]);
            SlotsBut(|slots|, mem', [f] + free, own[f := FreeUse], slots,
                     spaces[p := Space(spaces[p].tables, Without(spaces[p].pages, v, 1))])
            <==> !StillUsed(slots, spaces, p, v)
  {
    hide FrameOf, SlotOk, Holds, Without, Accounted, OnlyTablesAnd;
    var f, sp' := FrameOf(spaces[p].pages[v]), Space(spaces[p].tables, Without(spaces[p].pages, v, 1));
    var own', spaces' := own[f := FreeUse], spaces[p := sp'];
    SlotFacts(mem, free, own, p, slots, spaces);
    PageUse(p, v, mem, free, own, slots[p].img, spaces[p]);
    if StillUsed(slots, spaces, p, v) {
      SomeSlotBroken(p, v, mem', [f] + free, own', slots, spaces);
    } else {
      forall q | 0 <= q < |slots| && slots[q].Occupied?
        ensures SlotOk(mem', [f] + free, own', q, slots[q].img, spaces'[q])
      {
        SlotFacts(mem, free, own, q, slots, spaces);
        forall w | w in spaces[q].pages && (q != p || w != v) ensures FrameOf(spaces[q].pages[w]) != f {
          assert Maps(slots, spaces, q, w, FrameOf(spaces[q].pages[w]));
        }
        if q == p {
          OwnSlotFreed(p, v, mem, free, own, mem', slots[p].img, spaces[p]);
        } else {
          NotItsTrapframe(p, q, f, mem, free, own, slots[q].img, spaces[q]);
          OtherSlotFreed(p, q, f, mem, free, own, start, end, mem', slots[q].img, spaces[q]);
        }
      }
    }
  }

  lemma PageUse(p: nat, v: nat, mem: Mem, free: seq<nat>, own: Owners, img: Image, sp: Space)
    requires SlotOk(mem, free, own, p, img, sp) && v in sp.pages && FrameOf(sp.pages[v]) in own
    ensures own[FrameOf(sp.pages[v])] == CodeUse || own[FrameOf(sp.pages[v])] == PageOf(p, v)
  {
    hide FrameOf, InCode, Holds, RegionsOk, FixedRegions;
    assert Backed(own, p, img.regions, v, sp.pages[v]);
  }

  lemma NotItsTrapframe(p: nat, q: nat, f: nat, mem: Mem, free: seq<nat>, own: Owners, img: Image, sp: Space)
    requires p != q && f in own && (own[f] == CodeUse || (own[f].PageOf? && own[f].p == p))
    requires SlotOk(mem, free, own, q, img, sp)
    ensures f != img.trapframe
  {
    hide Holds, RegionsOk, FixedRegions, Backing;
  }

  lemma SomeSlotBroken(p: nat, v: nat, mem: Mem, free: seq<nat>, own: Owners, slots: seq<Slot>, spaces: seq<Space>)
    requires StillUsed(slots, spaces, p, v) && FrameOf(spaces[p].pages[v]) in own
    requires own[FrameOf(spaces[p].pages[v])] == FreeUse
    requires Homed(spaces[p].pages, slots[p].img.trapframe)
    ensures !SlotsBut(|slots|, mem, free, own, slots,
                      spaces[p := Space(spaces[p].tables, Without(spaces[p].pages, v, 1))])
  {
    hide FrameOf, SlotOk;
    var f, sp' := FrameOf(spaces[p].pages[v]), Space(spaces[p].tables, Without(spaces[p].pages, v, 1));
    var spaces' := spaces[p := sp'];
    if SlotsBut(|slots|, mem, free, own, slots, spaces') {
      if v == slots[p].img.trapframe {
        FreeBreaks(p, f, mem, free, own, slots[p].img, sp');
      } else {
        var q, w :| Maps(slots, spaces, q, w, f) && (q != p || w != v);
        FreeBreaks(q, f, mem, free, own, slots[q].img, spaces'[q]);
      }
    }
  }

  /** The effect of the call: page v of p gone, its frame first on the list, nothing else written but tables of p. */
  ghost predicate FreedPage(p: nat, v: nat, mem: Mem, free: seq<nat>, own: Owners, spaces: seq<Space>, mem': Mem,
                            free': seq<nat>, own': Owners, spaces': seq<Space>)
  {
    && p < |spaces| && v in spaces[p].pages
    && var f := FrameOf(spaces[p].pages[v]);
    && f in own && own' == own[f := FreeUse] && free' == [f] + free && OnlyTablesAnd(p, f, mem, own, mem')
    && spaces' == spaces[p := Space(spaces[p].tables, Without(spaces[p].pages, v, 1))]
  }

  /** Whatever else breaks, frames of the kernel do not. */
  lemma FreedKernel(p: nat, v: nat, mem: Mem, free: seq<nat>, own: Owners, slots: seq<Slot>, spaces: seq<Space>,
                    mem': Mem, free': seq<nat>, own': Owners, spaces': seq<Space>)
    requires |slots| == |spaces| && p < |slots| && slots[p].Occupied?
    requires SlotsBut(|slots|, mem, free, own, slots, spaces)
    requires FreedPage(p, v, mem, free, own, spaces, mem', free', own', spaces')
    ensures KernelKept(mem, own, mem', own')
  {
    hide InCode, Holds, RegionsOk, FixedRegions, FrameOf;
    assert SlotOk(mem, free, own, p, slots[p].img, spaces[p]);
    assert Backed(own, p, slots[p].img.regions, v, spaces[p].pages[v]);
  }

  lemma OneTurn(va: u64)
    ensures UnmapSpan(va, 4096) == if va + 4096 >= TWO64 then 0 else 1
    ensures va % 4096 == 0 ==> (va + 4096 >= TWO64 <==> va + 4096 == TWO64)
  {
  }

  lemma NoneReclaimed(sp: Space, free: seq<nat>, v: nat, start: nat, end: nat)
    ensures Reclaimable(sp, free, v, 0, start, end)
  {
  }

  /** What unmapping no page or one page means. */
  lemma {:induction false} OnePageOrNone(sp: Space, v: nat, n: nat, free: seq<nat>, start: nat, end: nat)
    ensures n == 0 ==>
              Without(sp.pages, v, n) == sp.pages && (AllMapped(sp.pages, v, n) ==> Freed(sp.pages, v, n, free) == free)
    ensures n == 1 && AllMapped(sp.pages, v, n) ==>
              v in sp.pages && Freed(sp.pages, v, n, free) == [FrameOf(sp.pages[v])] + free
    ensures n == 1 ==> (AllUnmappable(sp, v, n, true, start, end) <==> CanUnmap(sp, v, true, start, end))
  {
    hide FrameOf, CanUnmap;
    if n == 1 && AllMapped(sp.pages, v, n) { assert v in sp.pages; }
  }

  /** A call that frees nothing writes nothing. */
  lemma UnmappedNone(mem: Mem, free: seq<nat>, sp: Space, mem': Mem, v: nat)
    requires Holds(mem, free, sp) && Holds(mem', free, sp) && Spares(mem, free, sp, mem', free)
    ensures mem' == mem
  {
    hide Shape, Entry;
    forall f | f in mem ensures mem'[f] == mem[f] {
      if f in sp.tables.Values {
        var id :| id in sp.tables && sp.tables[id] == f;
        forall j | 0 <= j < 512 ensures mem'[f][j] == mem[f][j] { assert mem'[sp.tables[id]][j] == Entry(sp, id, j); }
        assert mem'[f] == mem[f];
      }
    }
  }

  lemma NotMapped(slots: seq<Slot>, spaces: seq<Space>, p: nat, v: nat, mem: Mem, free: seq<nat>)
    requires p < |spaces| && Holds(mem, free, spaces[p]) && v >= NVPN
    ensures !StillUsed(slots, spaces, p, v)
  {
  }

  lemma ManagedOwned(mem: Mem, free: seq<nat>, own: Owners, start: nat, end: nat, f: nat)
    requires Accounted(mem, free, own, start, end) && Managed(f, start, end)
    ensures f in own
  {
  }

  lemma OnlyKeys(p: nat, f: nat, mem: Mem, own: Owners, mem': Mem)
    requires OnlyTablesAnd(p, f, mem, own, mem')
    ensures mem'.Keys == mem.Keys
  {
  }

  /** The frame that was handed back is then on the free list and in reach of a process. */
  lemma ReachableYetFree(slots: seq<Slot>, spaces: seq<Space>, p: nat, v: nat)
    requires StillUsed(slots, spaces, p, v) && Homed(spaces[p].pages, slots[p].img.trapframe)
    ensures var spaces' := spaces[p := Space(spaces[p].tables, Without(spaces[p].pages, v, 1))];
            exists q :: 0 <= q < |slots| && slots[q].Occupied?
                        && Reaches(slots[q].img, spaces'[q], FrameOf(spaces[p].pages[v]))
  {
    hide FrameOf;
    var f, spaces' := FrameOf(spaces[p].pages[v]), spaces[p := Space(spaces[p].tables, Without(spaces[p].pages, v, 1))];
    if v == slots[p].img.trapframe {
      assert Reaches(slots[p].img, spaces'[p], f);
    } else {
      var q, w :| Maps(slots, spaces, q, w, f) && (q != p || w != v);
      assert w in spaces'[q].pages && FrameOf(spaces'[q].pages[w]) == f;
      assert Reaches(slots[q].img, spaces'[q], f);
    }
  }

  /** No page of slot q has frame f, page v of slot p aside. */
  ghost predicate NoOther(slots: seq<Slot>, spaces: seq<Space>, q: int, p: nat, v: nat, f: nat)
  {
    forall w :: Maps(slots, spaces, q, w, f) ==> q == p && w == v
  }

  ghost predicate Alone(slots: seq<Slot>, spaces: seq<Space>, p: nat, v: nat, f: nat)
  {
    forall q :: 0 <= q < |slots| ==> NoOther(slots, spaces, q, p, v, f)
  }

  lemma ElsewhereIff(slots: seq<Slot>, spaces: seq<Space>, p: nat, v: nat)
    requires p < |slots| == |spaces| && slots[p].Occupied? && v in spaces[p].pages && v != slots[p].img.trapframe
    ensures Alone(slots, spaces, p, v, FrameOf(spaces[p].pages[v])) <==> !StillUsed(slots, spaces, p, v)
  {
    hide FrameOf;
    var f := FrameOf(spaces[p].pages[v]);
    if Alone(slots, spaces, p, v, f) {
      forall q, w | Maps(slots, spaces, q, w, f) ensures q == p && w == v {
        assert NoOther(slots, spaces, q, p, v, f);
      }
    }
  }

  /** A private page has no other user. */
  lemma PrivateAlone(p: nat, q: nat, v: nat, f: nat, mem: Mem, free: seq<nat>, own: Owners, slots: seq<Slot>,
                     spaces: seq<Space>)
    requires |slots| == |spaces| && q < |slots| && SlotsBut(|slots|, mem, free, own, slots, spaces)
    requires f in own && own[f] == PageOf(p, v)
    ensures NoOther(slots, spaces, q, p, v, f)
  {
    hide FrameOf, InCode, Holds, RegionsOk, FixedRegions;
    forall w | Maps(slots, spaces, q, w, f) ensures q == p && w == v {
      assert SlotOk(mem, free, own, q, slots[q].img, spaces[q]);
      assert Backed(own, q, slots[q].img.regions, w, spaces[q].pages[w]);
    }
  }

  /** The pages of slot q's first k code regions that have frame f are page v of slot p. */
  ghost predicate NoOtherIn(slots: seq<Slot>, spaces: seq<Space>, q: int, p: nat, v: nat, f: nat, k: nat)
  {
    0 <= q < |slots| && slots[q].Occupied? &&
    forall i, w {:trigger Covers(slots[q].img.regions[i], w)} ::
      0 <= i < k && i < |slots[q].img.regions| && Covers(slots[q].img.regions[i], w) ==>
        slots[q].img.regions[i].seg.CodeSegment? && Maps(slots, spaces, q, w, f) ==> q == p && w == v
  }

  /** Of pages lo .. hi of slot q only page v of slot p has frame f. */
  ghost predicate Scanned(slots: seq<Slot>, spaces: seq<Space>, q: int, p: nat, v: nat, f: nat, lo: nat, hi: nat)
  {
    forall x :: lo <= x < hi && Maps(slots, spaces, q, x, f) ==> q == p && x == v
  }

  lemma ScanStart(slots: seq<Slot>, spaces: seq<Space>, q: nat, p: nat, v: nat, f: nat, k: nat)
    requires NoOtherIn(slots, spaces, q, p, v, f, k) && k < |slots[q].img.regions|
    ensures var lo := slots[q].img.regions[k].va / 4096; Scanned(slots, spaces, q, p, v, f, lo, lo)
  {
  }

  lemma ScannedOne(slots: seq<Slot>, spaces: seq<Space>, q: nat, p: nat, v: nat, f: nat, lo: nat, hi: nat)
    requires Scanned(slots, spaces, q, p, v, f, lo, hi)
    ensures Maps(slots, spaces, q, hi, f) && (q != p || hi != v) ==> !NoOther(slots, spaces, q, p, v, f)
    ensures !(Maps(slots, spaces, q, hi, f) && (q != p || hi != v)) ==> Scanned(slots, spaces, q, p, v, f, lo, hi + 1)
  {
    hide Maps;
  }

  lemma ScannedAll(slots: seq<Slot>, spaces: seq<Space>, q: nat, p: nat, v: nat, f: nat, k: nat)
    requires NoOtherIn(slots, spaces, q, p, v, f, k) && k < |slots[q].img.regions|
    requires var r := slots[q].img.regions[k]; Scanned(slots, spaces, q, p, v, f, r.va / 4096, r.va / 4096 + r.npages)
    ensures NoOtherIn(slots, spaces, q, p, v, f, k + 1)
  {
    hide Maps;
  }

  /** A code frame is mapped in code regions alone, so looking there is enough. */
  lemma CodeOnly(q: nat, p: nat, v: nat, f: nat, mem: Mem, free: seq<nat>, own: Owners, slots: seq<Slot>,
                 spaces: seq<Space>)
    requires |slots| == |spaces| && q < |slots| && SlotsBut(|slots|, mem, free, own, slots, spaces)
    requires f in own && own[f] == CodeUse && slots[q].Occupied?
    requires NoOtherIn(slots, spaces, q, p, v, f, |slots[q].img.regions|)
    ensures NoOther(slots, spaces, q, p, v, f)
  {
    hide FrameOf, Holds, RegionsOk, FixedRegions;
    forall w | Maps(slots, spaces, q, w, f) ensures q == p && w == v {
      assert SlotOk(mem, free, own, q, slots[q].img, spaces[q]);
      assert Backed(own, q, slots[q].img.regions, w, spaces[q].pages[w]);
    }
  }

  /** Some process reaches the frame. */
  ghost predicate FreeInReach(f: nat, slots: seq<Slot>, spaces: seq<Space>)
  {
    |slots| == |spaces| && exists q :: 0 <= q < |slots| && slots[q].Occupied? && Reaches(slots[q].img, spaces[q], f)
  }

  lemma OwnTrapframe(p: nat, mem: Mem, free: seq<nat>, own: Owners, start: nat, end: nat, slots: seq<Slot>,
                     spaces: seq<Space>)
    requires p < |slots| == |spaces| && slots[p].Occupied? && SlotOk(mem, free, own, p, slots[p].img, spaces[p])
    requires Accounted(mem, free, own, start, end)
    ensures var tf := slots[p].img.trapframe;
            CanUnmap(spaces[p], tf, true, start, end) && StillUsed(slots, spaces, p, tf)
  {
    hide InCode, RegionsOk, FixedRegions;
    var tf := slots[p].img.trapframe;
    assert Backed(own, p, slots[p].img.regions, tf, spaces[p].pages[tf]);
  }

  lemma InReachOfWalk(sp: Space, v: nat, start: nat, end: nat)
    ensures CanUnmap(sp, v, true, start, end) ==> v < NVPN && v in sp.pages
  {
  }

  /** At the last page of the address space there is nothing to free. */
  lemma TopPage(slots: seq<Slot>, spaces: seq<Space>, p: nat, va: u64, start: nat, end: nat)
    requires p < |slots| == |spaces|
    ensures va + 4096 == TWO64 ==> !CanUnmap(spaces[p], va / 4096, true, start, end)
  {
  }

  lemma VacantMaps(slots: seq<Slot>, spaces: seq<Space>, q: nat, p: nat, v: nat, f: nat)
    requires q < |slots| && slots[q].Vacant?
    ensures NoOther(slots, spaces, q, p, v, f)
  {
  }

  /** What a lookup of a process's own page says about its frame. */
  lemma ReadBack(p: nat, v: nat, mem: Mem, free: seq<nat>, own: Owners, start: nat, end: nat, img: Image, sp: Space)
    requires SlotOk(mem, free, own, p, img, sp) && Accounted(mem, free, own, start, end)
    requires Bounds(mem, free, start, end)
    requires v * 4096 < MAXVA
    ensures v !in sp.pages ==> Lookup(sp, v * 4096) == 0
    ensures v in sp.pages ==> Lookup(sp, v * 4096) / 4096 == FrameOf(sp.pages[v])
    ensures CanUnmap(sp, v, true, start, end) <==> Lookup(sp, v * 4096) != 0 && start <= Lookup(sp, v * 4096) < end
    ensures CanUnmap(sp, v, true, start, end) ==>
              var f := FrameOf(sp.pages[v]); f in own && f > 0 && (own[f] == CodeUse || own[f] == PageOf(p, v))
  {
    hide InCode, Holds, RegionsOk, FixedRegions;
    if v in sp.pages {
      assert Backed(own, p, img.regions, v, sp.pages[v]);
      PteAddress(sp.pages[v]);
    }
  }

  lemma LookupMaps(q: nat, w: nat, f: nat, mem: Mem, free: seq<nat>, own: Owners, slots: seq<Slot>, spaces: seq<Space>)
    requires |slots| == |spaces| && q < |slots| && slots[q].Occupied?
    requires SlotsBut(|slots|, mem, free, own, slots, spaces)
    requires f > 0 && w * 4096 < MAXVA
    ensures Lookup(spaces[q], w * 4096) / 4096 == f <==> Maps(slots, spaces, q, w, f)
  {
    hide InCode, Holds, RegionsOk, FixedRegions;
    assert SlotOk(mem, free, own, q, slots[q].img, spaces[q]);
    if w in spaces[q].pages { assert Backed(own, q, slots[q].img.regions, w, spaces[q].pages[w]); }
  }
}
