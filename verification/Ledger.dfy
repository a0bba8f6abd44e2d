/** Conservation of frames over whole runs: every frame is free, or a process's, or lost to a named cause. */
module Ledger {
  import opened Sv39
  import opened PageTable
  import opened Memory
  import opened Ownership
  import opened Images
  import opened Forking
  import opened Placement
  import opened Freeing
  import opened Reaping
  import opened Bytes
  import opened Arguments
  import opened Steps
  import opened Runs
  import S = Scheduler

  /** The frames of a process that its image accounts for: kernel stack, region list, trapframe and user stack, the
      pages of its data regions, and its page tables. */
  ghost function Share(slot: Slot, sp: Space): nat
  {
    match slot
    case Vacant => 0
    case Occupied(img) => 4 + DataPages(img.regions, |img.regions|) + |sp.tables.Keys|
  }

  ghost function Shares(slots: seq<Slot>, spaces: seq<Space>): nat
    requires |slots| == |spaces|
  {
    if slots == [] then 0
    else Shares(slots[..|slots| - 1], spaces[..|slots| - 1]) + Share(slots[|slots| - 1], spaces[|slots| - 1])
  }

  /** Free frames and those of all processes. */
  ghost function Total(a: MemState): nat
    requires |a.slots| == |a.spaces|
  {
    |a.free| + Shares(a.slots, a.spaces)
  }

  /** Frames that a trap takes out of the account: fork an open-file page, wait and exec the tables of the old tree but
      the directory, exec the pages of the new program's code, an allocation or a fault the page that no region lists.
      sys_user_free_page puts one back. */
  ghost function Lost(t: Trap, ret: int, p: int, a: MemState): int
  {
    match t
    case SysFork => 1
    case SysWait(_) => if 0 <= ret < |a.spaces| then |a.spaces[ret].tables.Keys| - 1 else 0
    case SysExec(_, segs) =>
      (if 0 <= p < |a.spaces| then |a.spaces[p].tables.Keys| - 1 else 0) + |segs| - DataSegments(segs, |segs|)
    case SysAllocatePage => if a.free == [] then 0 else 1
    case StorePageFault(_) => if a.free == [] then 0 else 1
    case SysFreePage(va) => if va + 4096 == TWO64 then 0 else -1
    case _ => 0
  }

  /** Changing one slot changes the sum by the difference. */
  lemma {:induction false} OneShare(slots: seq<Slot>, spaces: seq<Space>, p: nat, slot: Slot, sp: Space)
    requires p < |slots| == |spaces|
    ensures Shares(slots[p := slot], spaces[p := sp]) + Share(slots[p], spaces[p])
            == Shares(slots, spaces) + Share(slot, sp)
  {
    hide Share;
    var n := |slots| - 1;
    if p < n {
      OneShare(slots[..n], spaces[..n], p, slot, sp);
      assert slots[p := slot][..n] == slots[..n][p := slot] && spaces[p := sp][..n] == spaces[..n][p := sp];
    } else {
      assert slots[p := slot][..n] == slots[..n] && spaces[p := sp][..n] == spaces[..n];
    }
  }

  /** Data pages of a list with the fixed regions in front. */
  lemma {:induction false} SameData(rs: seq<Region>, tf: nat, rs': seq<Region>, tf': nat, n: nat)
    requires FixedRegions(rs, tf) && FixedRegions(rs', tf') && rs[3..] == rs'[3..] && 3 <= n <= |rs|
    ensures |rs'| == |rs| && DataPages(rs, n) == DataPages(rs', n)
  {
    assert |rs[3..]| == |rs'[3..]|;
    if n == 3 {
      assert DataPages(rs, 2) == DataPages(rs, 1) == DataPages(rs, 0) == 0;
      assert DataPages(rs', 2) == DataPages(rs', 1) == DataPages(rs', 0) == 0;
    } else {
      SameData(rs, tf, rs', tf', n - 1);
      assert rs[n - 1] == rs[3..][n - 4] == rs'[n - 1];
    }
  }

  lemma SlotFixed(s: Site, a: Moment, p: nat)
    requires Good(s, a) && p < NPROC && a.memory.slots[p].Occupied?
    ensures FixedRegions(a.memory.slots[p].img.regions, a.memory.slots[p].img.trapframe)
  {
    hide IsFreeList, Bounds, Accounted, SpaceOk, Backing, RegionsOk, Homed, FixedRegions;
    SlotFacts(a.memory.mem, a.memory.free, a.memory.own, p, a.memory.slots, a.memory.spaces);
  }

  lemma Sizes(s: Site, a: Moment)
    requires Good(s, a)
    ensures |a.memory.slots| == |a.memory.spaces| == NPROC
  {
  }

  /** One slot was replaced and the free list changed in length: what that does to the total. */
  lemma {:induction false} OneSlot(a: MemState, b: MemState, p: nat)
    requires OnlySlot(p, a, b)
    ensures Total(b) - |b.free| + Share(a.slots[p], a.spaces[p]) == Total(a) - |a.free| + Share(b.slots[p], b.spaces[p])
  {
    hide Share;
    OneShare(a.slots, a.spaces, p, b.slots[p], b.spaces[p]);
  }

  lemma {:induction false} ForkBalance(s: Site, a: Moment, b: Moment, p: nat, c: nat)
    requires Good(s, a) && Good(s, b) && p < NPROC && c < NPROC
    requires OnlySlot(c, a.memory, b.memory) && a.memory.slots[c].Vacant? && b.memory.slots[c].Occupied?
    requires b.memory.slots[p].Occupied? && 3 <= |b.memory.slots[p].img.regions|
    requires 3 <= |b.memory.slots[c].img.regions|
    requires b.memory.slots[c].img.regions[3..] == b.memory.slots[p].img.regions[3..]
    requires ForkTaken(a.memory.free, b.memory.slots[p].img.regions, b.memory.free, b.memory.spaces[c])
    ensures |a.memory.slots| == |a.memory.spaces| && |b.memory.slots| == |b.memory.spaces|
    ensures Total(b.memory) + 1 == Total(a.memory)
  {
    hide Good, DataPages, Total;
    Sizes(s, a);
    Sizes(s, b);
    OneSlot(a.memory, b.memory, c);
    SlotFixed(s, b, p);
    SlotFixed(s, b, c);
    var imgp, imgc := b.memory.slots[p].img, b.memory.slots[c].img;
    SameData(imgp.regions, imgp.trapframe, imgc.regions, imgc.trapframe, |imgp.regions|);
  }

  lemma {:induction false} ReapBalance(a: MemState, b: MemState, q: nat)
    requires Reaped(q, a, b)
    ensures |a.slots| == |a.spaces| && |b.slots| == |b.spaces|
    ensures Total(b) + |a.spaces[q].tables.Keys| - 1 == Total(a)
  {
    hide GivenBack, Refunded, LeftBehind, Unstaffed, Release, Local, DataPages, Total;
    assert b.spaces == a.spaces[q := b.spaces[q]];
    OneSlot(a, b, q);
  }

  lemma {:induction false} ExecBalance(s: Site, a: Moment, b: Moment, p: nat, segs: seq<ElfSegment>)
    requires Good(s, a) && Good(s, b) && p < NPROC && OnlySlot(p, a.memory, b.memory)
    requires a.memory.slots[p].Occupied? && b.memory.slots[p].Occupied?
    requires |b.memory.slots[p].img.regions| >= 3 && b.memory.slots[p].img.regions[3..] == Listed(segs)
    requires ExecTaken(a.memory.free, a.memory.slots[p].img.regions, segs, b.memory.free, b.memory.spaces[p])
    ensures |a.memory.slots| == |a.memory.spaces| && |b.memory.slots| == |b.memory.spaces|
    ensures Total(b.memory) + |a.memory.spaces[p].tables.Keys| - 1 + |segs| - DataSegments(segs, |segs|)
            == Total(a.memory)
  {
    hide Good, DataPages, Total, DataSegments;
    Sizes(s, a);
    Sizes(s, b);
    OneSlot(a.memory, b.memory, p);
    SlotFixed(s, b, p);
    var img := b.memory.slots[p].img;
    DataListed(img.regions, img.trapframe, segs, |segs|);
    assert |img.regions[3..]| == |segs|;
  }

  lemma {:induction false} PageBalance(a: MemState, b: MemState, p: nat, va: u64)
    requires GotPage(p, va, a, b)
    ensures |a.slots| == |a.spaces| && |b.slots| == |b.spaces|
    ensures Total(b) + (if a.free == [] then 0 else 1) == Total(a)
  {
    hide TablesOnly, WithFresh, DataPages, Total;
    assert b.slots == a.slots[p := b.slots[p]];
    OneSlot(a, b, p);
  }

  lemma {:induction false} FreeBalance(a: MemState, b: MemState, p: nat, va: u64)
    requires LostPage(p, va, a, b)
    ensures |a.slots| == |a.spaces| && |b.slots| == |b.spaces|
    ensures Total(b) == Total(a) + if va + 4096 == TWO64 then 0 else 1
  {
    hide OnlyTablesAnd, FrameOf, DataPages, Total, Without;
    if va + 4096 != TWO64 {
      assert b.slots == a.slots[p := b.slots[p]] && b.spaces == a.spaces[p := b.spaces[p]];
      OneSlot(a, b, p);
    }
  }

  /** Every trap: what is free and what processes have, before, is what is free and what they have after, and what the
      trap lost. */
  lemma {:induction false} Balance(t: Trap, ret: int, s: Site, a: Moment, b: Moment)
    requires Good(s, a) && Good(s, b) && Follows(t, ret, s, a, b)
    ensures |a.memory.slots| == |a.memory.spaces| && |b.memory.slots| == |b.memory.spaces|
    ensures Total(b.memory) + Lost(t, ret, a.view.current, a.memory) == Total(a.memory)
  {
    hide Good, S.Next, Answered, KernelKept, Total, DataSegments, GotPage, LostPage, Reaped, Forked, Local, PutAll,
         Addresses, Delivered, Stored, HasFixed, CalledWith, LoadedThenCleared, Exchanged, AllLoaded, Spoilt, ForkTaken,
         ExecTaken;
    Sizes(s, a);
    Sizes(s, b);
    var p := a.view.current;
    match t
    case SysFork =>
      ForkedRegions(a.memory, b.memory, p, ret);
      ForkBalance(s, a, b, p, ret);
    case SysWait(_) => if ret >= 0 { ReapedSlot(a.memory, b.memory, ret); ReapBalance(a.memory, b.memory, ret); }
    case SysExec(_, segs) => ExecBalance(s, a, b, p, segs);
    case SysAllocatePage => PageBalance(a.memory, b.memory, p, a.memory.heapNext);
    case StorePageFault(stval) => PageBalance(a.memory, b.memory, p, stval);
    case SysFreePage(va) => FreeBalance(a.memory, b.memory, p, va);
    case SysRead(_, _, _) => SameShares(a.memory, b.memory);
    case UserStore(_, _) => SameShares(a.memory, b.memory);
    case _ =>
  }

  lemma SameShares(a: MemState, b: MemState)
    requires |a.slots| == |a.spaces| && b == a.(mem := b.mem)
    ensures |b.slots| == |b.spaces| && Total(b) == Total(a)
  {
  }

  lemma ForkedRegions(a: MemState, b: MemState, p: int, c: int)
    requires ForkedMemory(a.mem, a.own, a.slots, a.spaces, b.mem, b.own, b.free, b.slots, b.spaces, p, c)
    ensures 0 <= p < |b.slots| && 0 <= c < |b.slots| && OnlySlot(c, a, b) && a.slots[c].Vacant?
    ensures b.slots[p].Occupied? && b.slots[c].Occupied? && |b.slots[p].img.regions| >= 3
    ensures |b.slots[c].img.regions| >= 3 && b.slots[c].img.regions[3..] == b.slots[p].img.regions[3..]
  {
    hide Local, RegionsForked, StackForked, TrapframeForked;
  }

  lemma ReapedSlot(a: MemState, b: MemState, q: int)
    requires Reaped(q, a, b)
    ensures 0 <= q < |a.slots| == |a.spaces|
  {
    hide GivenBack, Refunded, LeftBehind, Unstaffed, Release, Local, DataPages;
  }

  ghost function AllLost(traps: seq<Trap>, rets: seq<int>, trace: seq<Moment>): int
    requires |traps| == |rets| == |trace|
  {
    if traps == [] then 0
    else Lost(traps[0], rets[0], trace[0].view.current, trace[0].memory) + AllLost(traps[1..], rets[1..], trace[1..])
  }

  /** Over any run: the frames that are free or a process's at the start are those that are at moment j, and those the
      traps until then lost, one cause each. No trap modelled here loses a frame in any other way. */
  lemma {:induction false} Conserved(traps: seq<Trap>, rets: seq<int>, trace: seq<Moment>, s: Site, j: nat)
    requires Linked(traps, rets, trace, s) && j < |trace|
    ensures |trace[0].memory.slots| == |trace[0].memory.spaces| && |trace[j].memory.slots| == |trace[j].memory.spaces|
    ensures Total(trace[j].memory) + AllLost(traps[..j], rets[..j], trace[..j]) == Total(trace[0].memory)
  {
    hide Good, Follows, BreaksAt, Total, Lost;
    Sizes(s, trace[0]);
    if j > 0 {
      assert traps[..j][1..] == traps[1..][..j - 1] && rets[..j][1..] == rets[1..][..j - 1];
      assert trace[..j][1..] == trace[1..][..j - 1];
      Balance(traps[0], rets[0], s, trace[0], trace[1]);
      Conserved(traps[1..], rets[1..], trace[1..], s, j - 1);
    }
  }
}
