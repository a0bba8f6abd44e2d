/** Which frame exec gives to what. realloc_process and elf_load take frames off the free list in a fixed
    order, so the place of a frame on the list decides what it becomes. */
module Placement {
  import opened Lists
  import opened Sv39
  import opened PageTable
  import opened Memory
  import opened Ownership
  import opened Images

  /** The free list after the first k regions were unmapped. */
  ghost function Pushed(rs: seq<Region>, pages: map<nat, u64>, k: nat, free: seq<nat>): seq<nat>
    requires k <= |rs|
  {
    if k == 0 then free else
    var f, r := Pushed(rs, pages, k - 1, free), rs[k - 1];
    if Reclaimed(r.seg) && AllMapped(pages, r.va / 4096, r.npages) then Freed(pages, r.va / 4096, r.npages, f) else f
  }

  /** The free list after realloc_process let go of the old image. */
  ghost function Dropped(free: seq<nat>, root: nat, rs: seq<Region>, pages: map<nat, u64>): seq<nat>
  {
    [root] + Pushed(rs, pages, |rs|, free)
  }

  lemma DroppedFirst(free: seq<nat>, root: nat, rs: seq<Region>, pages: map<nat, u64>)
    ensures Dropped(free, root, rs, pages) != [] && Dropped(free, root, rs, pages)[0] == root
  {
  }

  lemma {:induction false} FreedLonger(pages: map<nat, u64>, v: nat, n: nat, free: seq<nat>)
    requires AllMapped(pages, v, n)
    ensures |Freed(pages, v, n, free)| == |free| + n
  {
    hide FrameOf;
    if n > 0 { FreedLonger(pages, v, n - 1, free); }
  }

  lemma {:induction false} PushedLonger(rs: seq<Region>, pages: map<nat, u64>, k: nat, free: seq<nat>)
    requires k <= |rs|
    ensures |Pushed(rs, pages, k, free)| >= |free|
  {
    hide AllMapped, Freed;
    if k > 0 {
      PushedLonger(rs, pages, k - 1, free);
      var r := rs[k - 1];
      if AllMapped(pages, r.va / 4096, r.npages) {
        FreedLonger(pages, r.va / 4096, r.npages, Pushed(rs, pages, k - 1, free));
      }
    }
  }

  /** Pages of the data regions among the first k. */
  function DataPages(rs: seq<Region>, k: nat): nat
    requires k <= |rs|
  {
    if k == 0 then 0 else DataPages(rs, k - 1) + if rs[k - 1].seg.DataSegment? then rs[k - 1].npages else 0
  }

  lemma PushedStep(rs: seq<Region>, pages: map<nat, u64>, pages': map<nat, u64>, k: nat, free: seq<nat>)
    requires k < |rs| && Submap(pages', pages) && AllMapped(pages', rs[k].va / 4096, rs[k].npages)
    ensures var f := Pushed(rs, pages, k, free);
            Pushed(rs, pages, k + 1, free)
            == if Reclaimed(rs[k].seg) then Freed(pages', rs[k].va / 4096, rs[k].npages, f) else f
  {
    hide FrameOf;
    if Reclaimed(rs[k].seg) { FreedSame(pages, pages', rs[k].va / 4096, rs[k].npages, Pushed(rs, pages, k, free)); }
  }

  lemma {:induction false} FreedSame(pages: map<nat, u64>, pages': map<nat, u64>, v: nat, n: nat, free: seq<nat>)
    requires Submap(pages', pages) && AllMapped(pages', v, n)
    ensures AllMapped(pages, v, n) && Freed(pages, v, n, free) == Freed(pages', v, n, free)
  {
    hide FrameOf;
    if n > 0 { FreedSame(pages, pages', v, n - 1, free); }
  }

  lemma PushedSkip(rs: seq<Region>, pages: map<nat, u64>, k: nat, free: seq<nat>)
    requires k < |rs| && rs[k].seg.SystemSegment?
    ensures Pushed(rs, pages, k + 1, free) == Pushed(rs, pages, k, free)
  {
  }

  /** The old trapframe lies on the list behind the directory and the data pages. */
  lemma {:induction false} TrapframeAt(rs: seq<Region>, pages: map<nat, u64>, tf: nat, k: nat, free: seq<nat>)
    requires 2 <= k <= |rs| && FixedRegions(rs, tf) && Homed(pages, tf)
    requires forall i :: 0 <= i < k && rs[i].seg.DataSegment? ==> AllMapped(pages, rs[i].va / 4096, rs[i].npages)
    ensures var f := Pushed(rs, pages, k, free); DataPages(rs, k) < |f| && f[DataPages(rs, k)] == tf
  {
    hide FrameOf, Pushed, DataPages;
    if k == 2 {
      FirstTwo(rs, pages, tf, free);
    } else {
      TrapframeAt(rs, pages, tf, k - 1, free);
      PushedFront(rs, pages, k - 1, free);
    }
  }

  lemma {:induction false} FirstTwo(rs: seq<Region>, pages: map<nat, u64>, tf: nat, free: seq<nat>)
    requires FixedRegions(rs, tf) && Homed(pages, tf)
    ensures DataPages(rs, 2) == 0
    ensures var f := Pushed(rs, pages, 2, free); |f| > 0 && f[0] == tf
  {
    hide FrameOf;
    assert DataPages(rs, 1) == 0;
    assert AllMapped(pages, rs[1].va / 4096, 1);
    assert Pushed(rs, pages, 2, free) == Freed(pages, tf, 1, Pushed(rs, pages, 1, free));
  }

  /** A region behind the first two pushes as many frames as it has data pages. */
  lemma PushedFront(rs: seq<Region>, pages: map<nat, u64>, k: nat, free: seq<nat>)
    requires 2 <= k < |rs| && (rs[k].seg.DataSegment? || rs[k].seg.CodeSegment? || rs[k].seg.SystemSegment?)
    requires rs[k].seg.DataSegment? ==> AllMapped(pages, rs[k].va / 4096, rs[k].npages)
    ensures var f, f' := Pushed(rs, pages, k, free), Pushed(rs, pages, k + 1, free);
            var n := DataPages(rs, k + 1) - DataPages(rs, k);
            0 <= n <= |f'| && f'[n..] == f
  {
    hide FrameOf;
  }

  lemma {:induction false} NothingDone(sp: Space, rs: seq<Region>, start: nat, end: nat, free: seq<nat>)
    ensures RemovableTo(sp, rs, 0, start, end) && Pushed(rs, sp.pages, 0, free) == free
  {
  }

  lemma AllRemovable(sp: Space, rs: seq<Region>, start: nat, end: nat)
    requires RemovableTo(sp, rs, |rs|, start, end)
    ensures Removable(sp, rs, start, end)
  {
  }

  const STACK: nat := USER_STACK_PAGE / 4096

  /** What a frame becomes: a page table, or the frame behind a page. */
  datatype Role = TableRole(id: TableId) | PageRole(v: nat)

  ghost predicate Plays(r: Role, f: nat, sp: Space)
  {
    match r
    case TableRole(id) => id in sp.tables && sp.tables[id] == f
    case PageRole(v) => v in sp.pages && FrameOf(sp.pages[v]) == f
  }

  /** The frames that came off the list play these roles, in this order. */
  ghost predicate Traced(roles: seq<Role>, free: seq<nat>, free': seq<nat>, sp: Space)
  {
    && |roles| <= |free| && free' == free[|roles|..]
    && forall i :: 0 <= i < |roles| ==> Plays(roles[i], free[i], sp)
  }

  ghost predicate Extends(sp: Space, sp': Space)
  {
    && (forall id :: id in sp.tables ==> id in sp'.tables && sp'.tables[id] == sp.tables[id])
    && Submap(sp.pages, sp'.pages)
  }

  lemma ExtendsTrans(s0: Space, s1: Space, s2: Space)
    requires Extends(s0, s1) && Extends(s1, s2)
    ensures Extends(s0, s2)
  {
  }

  lemma TracedMore(a: seq<Role>, b: seq<Role>, f0: seq<nat>, f1: seq<nat>, f2: seq<nat>, s1: Space, s2: Space)
    requires Traced(a, f0, f1, s1) && Traced(b, f1, f2, s2) && Extends(s1, s2)
    ensures Traced(a + b, f0, f2, s2)
  {
    hide FrameOf;
    var all := a + b;
    forall i | 0 <= i < |all| ensures Plays(all[i], f0[i], s2) {
      if i < |a| {
        assert Plays(a[i], f0[i], s1);
      } else {
        assert Plays(b[i - |a|], f1[i - |a|], s2) && f1[i - |a|] == f0[i];
      }
    }
  }

  function Tables(ms: seq<TableId>): (roles: seq<Role>)
    ensures |roles| == |ms| && forall i :: 0 <= i < |ms| ==> roles[i] == TableRole(ms[i])
  {
    seq(|ms|, i requires 0 <= i < |ms| => TableRole(ms[i]))
  }

  lemma TookTraced(ms: seq<TableId>, free: seq<nat>, free': seq<nat>, sp: Space, sp': Space)
    requires Took(ms, free, free', sp, sp')
    ensures Traced(Tables(ms), free, free', sp')
  {
    hide FrameOf;
  }

  /** The tables for stack, trapframe and trap vector, mapped in this order into an empty directory. */
  function FixedTables(tf: nat, trap: nat): seq<TableId>
  {
    var a := Missing({Root}, STACK, 0);
    var b := Missing({Root} + Ids(a), tf, 0);
    a + b + Missing({Root} + Ids(a) + Ids(b), trap, 0)
  }

  lemma FixedFew(tf: nat, trap: nat)
    ensures |FixedTables(tf, trap)| <= 6 && |HeadPlan(tf, trap)| == 3 + |FixedTables(tf, trap)|
  {
    hide Missing;
    var a := Missing({Root}, STACK, 0);
    var b := Missing({Root} + Ids(a), tf, 0);
    MissingFew({Root}, STACK);
    MissingFew({Root} + Ids(a), tf);
    MissingFew({Root} + Ids(a) + Ids(b), trap);
  }

  lemma {:induction false} SegPlanGrows(ids: set<TableId>, segs: seq<ElfSegment>, k: nat, n: nat)
    requires k <= n <= |segs|
    ensures |SegPlan(ids, segs, k)| <= |SegPlan(ids, segs, n)| <= |SegPlan(ids, segs, k)| + 3 * (n - k)
  {
    hide Missing;
    if k < n {
      SegPlanGrows(ids, segs, k, n - 1);
      MissingFew(SegIds(ids, segs, n - 1), segs[n - 1].va / 4096);
    }
  }

  /** Not enough frames for a page at v and the tables it lacks, or for all segments. */
  ghost predicate SegShort(free: seq<nat>, sp: Space, v: nat) { |free| < 1 + |Missing(sp.tables.Keys, v, 0)| }

  ghost predicate SegsShort(free: seq<nat>, sp: Space, segs: seq<ElfSegment>)
  {
    |free| < |SegPlan(sp.tables.Keys, segs, |segs|)|
  }

  lemma {:induction false} ShortBound(free: seq<nat>, sp: Space, segs: seq<ElfSegment>)
    requires SegsShort(free, sp, segs)
    ensures |free| < 3 * |segs|
  {
    hide SegIds;
    SegPlanGrows(sp.tables.Keys, segs, 0, |segs|);
  }

  lemma SegsTaken(segs: seq<ElfSegment>, f0: seq<nat>, f1: seq<nat>, s0: Space, s1: Space)
    requires SegsLoaded(segs, |segs|, f0, f1, s0, s1)
    ensures |f0| <= |f1| + 3 * |segs|
  {
    hide Extends, SegIds;
    SegPlanGrows(s0.tables.Keys, segs, 0, |segs|);
  }

  /** Too few frames at segment k are too few for the program. */
  lemma {:induction false} TooFewFor(segs: seq<ElfSegment>, k: nat, f0: seq<nat>, f1: seq<nat>, s0: Space, s1: Space)
    requires k < |segs| && SegsLoaded(segs, k, f0, f1, s0, s1)
    requires SegShort(f1, s1, segs[k].va / 4096)
    ensures SegsShort(f0, s0, segs)
  {
    hide Missing, Extends;
    SegPlanGrows(s0.tables.Keys, segs, k + 1, |segs|);
  }

  function FixedIds(tf: nat, trap: nat): set<TableId> { {Root} + Ids(FixedTables(tf, trap)) }

  function HeadPlan(tf: nat, trap: nat): seq<Role>
  {
    [PageRole(tf), TableRole(Root), PageRole(STACK)] + Tables(FixedTables(tf, trap))
  }

  /** The tables there are after the first k segments, and the roles handed out for them. */
  function SegIds(ids: set<TableId>, segs: seq<ElfSegment>, k: nat): set<TableId>
    requires k <= |segs|
  {
    if k == 0 then ids else
    var before := SegIds(ids, segs, k - 1);
    before + Ids(Missing(before, segs[k - 1].va / 4096, 0))
  }

  function SegPlan(ids: set<TableId>, segs: seq<ElfSegment>, k: nat): seq<Role>
    requires k <= |segs|
  {
    if k == 0 then [] else
    var v := segs[k - 1].va / 4096;
    SegPlan(ids, segs, k - 1) + ([PageRole(v)] + Tables(Missing(SegIds(ids, segs, k - 1), v, 0)))
  }

  /** All roles of an exec, in the order their frames are taken. */
  function Plan(tf: nat, trap: nat, segs: seq<ElfSegment>): seq<Role>
  {
    HeadPlan(tf, trap) + SegPlan(FixedIds(tf, trap), segs, |segs|)
  }

  /** The free list, with the old image handed back, is shorter than the exec needs. */
  ghost predicate TooFew(free: seq<nat>, img: Image, pages: map<nat, u64>, trap: nat, segs: seq<ElfSegment>)
  {
    |Dropped(free, img.pagetable, img.regions, pages)| < |Plan(img.pagetable, trap, segs)|
  }

  /** Nine frames and three for each segment are enough for any exec. */
  lemma Enough(free: seq<nat>, img: Image, pages: map<nat, u64>, trap: nat, segs: seq<ElfSegment>)
    requires |free| >= 9 + 3 * |segs|
    ensures !TooFew(free, img, pages, trap, segs)
  {
    hide FixedTables, HeadPlan, SegIds, Missing, FixedIds, Pushed;
    PushedLonger(img.regions, pages, |img.regions|, free);
    FixedFew(img.pagetable, trap);
    SegPlanGrows(FixedIds(img.pagetable, trap), segs, 0, |segs|);
  }

  function PlanIds(tf: nat, trap: nat, segs: seq<ElfSegment>): set<TableId> { SegIds(FixedIds(tf, trap), segs, |segs|) }

  function SegPages(segs: seq<ElfSegment>, k: nat): set<nat>
    requires k <= |segs|
  {
    set i | 0 <= i < k :: segs[i].va / 4096
  }

  function NewPages(tf: nat, trap: nat, segs: seq<ElfSegment>): set<nat> { {STACK, tf, trap} + SegPages(segs, |segs|) }

  lemma FixedTook(f0: seq<nat>, f1: seq<nat>, f2: seq<nat>, f3: seq<nat>, s0: Space, s1: Space, s2: Space, s3: Space,
                  tf: nat, trap: nat)
    requires s0.tables.Keys == {Root}
    requires Took(Missing(s0.tables.Keys, STACK, 0), f0, f1, s0, s1)
    requires Took(Missing(s1.tables.Keys, tf, 0), f1, f2, s1, s2)
    requires Took(Missing(s2.tables.Keys, trap, 0), f2, f3, s2, s3)
    ensures Took(FixedTables(tf, trap), f0, f3, s0, s3)
  {
    hide Missing;
    var a, b := Missing(s0.tables.Keys, STACK, 0), Missing(s1.tables.Keys, tf, 0);
    TookMore(a, b, f0, f1, f2, s0, s1, s2);
    TookMore(a + b, Missing(s2.tables.Keys, trap, 0), f0, f2, f3, s0, s2, s3);
  }

  /** Frames that run out at one of the three mappings are fewer than the tables they need. */
  lemma FixedShort(f0: seq<nat>, ids: set<TableId>, tf: nat, trap: nat)
    requires ids == {Root} && |f0| < |Missing(ids, STACK, 0)|
    ensures |f0| < |FixedTables(tf, trap)|
  {
    hide Missing;
  }

  lemma FixedShortNext(f0: seq<nat>, f1: seq<nat>, s0: Space, s1: Space, tf: nat, trap: nat)
    requires s0.tables.Keys == {Root} && Took(Missing(s0.tables.Keys, STACK, 0), f0, f1, s0, s1)
    requires |f1| < |Missing(s1.tables.Keys, tf, 0)|
    ensures |f0| < |FixedTables(tf, trap)|
  {
    hide Missing;
  }

  lemma FixedShortLast(f0: seq<nat>, f1: seq<nat>, f2: seq<nat>, s0: Space, s1: Space, s2: Space, tf: nat, trap: nat)
    requires s0.tables.Keys == {Root} && Took(Missing(s0.tables.Keys, STACK, 0), f0, f1, s0, s1)
    requires Took(Missing(s1.tables.Keys, tf, 0), f1, f2, s1, s2) && |f2| < |Missing(s2.tables.Keys, trap, 0)|
    ensures |f0| < |FixedTables(tf, trap)|
  {
    hide Missing;
  }

  /** One segment: a frame for its page, then frames for the tables it lacks. */
  ghost predicate LoadedAt(v: nat, free: seq<nat>, free': seq<nat>, sp: Space, sp': Space)
  {
    && Traced([PageRole(v)] + Tables(Missing(sp.tables.Keys, v, 0)), free, free', sp')
    && sp'.tables.Keys == sp.tables.Keys + Ids(Missing(sp.tables.Keys, v, 0))
    && sp'.pages.Keys == sp.pages.Keys + {v} && Extends(sp, sp')
  }

  lemma LoadedBy(v: nat, pa: u64, perm: Perm, free: seq<nat>, free': seq<nat>, sp: Space, sp': Space)
    requires free != [] && pa / 4096 == free[0] && v !in sp.pages && sp'.pages == sp.pages[v := MakePte(pa, perm)]
    requires Took(Missing(sp.tables.Keys, v, 0), free[1..], free', sp, sp')
    ensures LoadedAt(v, free, free', sp, sp')
  {
    hide Missing, MakePte;
    MakePteFields(pa, perm);
    TookTraced(Missing(sp.tables.Keys, v, 0), free[1..], free', sp, sp');
    assert Plays(PageRole(v), free[0], sp');
    TracedMore([PageRole(v)], Tables(Missing(sp.tables.Keys, v, 0)), free, free[1..], free', sp', sp');
  }

  lemma LoadedHome(v: nat, free: seq<nat>, free': seq<nat>, sp: Space, sp': Space)
    requires LoadedAt(v, free, free', sp, sp')
    ensures free != [] && v in sp'.pages && FrameOf(sp'.pages[v]) == free[0]
  {
    hide Missing, FrameOf;
    var ms := [PageRole(v)] + Tables(Missing(sp.tables.Keys, v, 0));
    assert ms[0] == PageRole(v);
  }

  ghost predicate SegsLoaded(segs: seq<ElfSegment>, k: nat, free: seq<nat>, free': seq<nat>, sp: Space, sp': Space)
    requires k <= |segs|
  {
    && Traced(SegPlan(sp.tables.Keys, segs, k), free, free', sp')
    && sp'.tables.Keys == SegIds(sp.tables.Keys, segs, k)
    && sp'.pages.Keys == sp.pages.Keys + SegPages(segs, k) && Extends(sp, sp')
  }

  lemma NoSegs(segs: seq<ElfSegment>, free: seq<nat>, sp: Space)
    ensures SegsLoaded(segs, 0, free, free, sp, sp)
  {
  }

  lemma OneMoreSeg(segs: seq<ElfSegment>, k: nat, f0: seq<nat>, f1: seq<nat>, f2: seq<nat>, s0: Space, s1: Space,
                   s2: Space)
    requires k < |segs| && SegsLoaded(segs, k, f0, f1, s0, s1) && LoadedAt(segs[k].va / 4096, f1, f2, s1, s2)
    ensures SegsLoaded(segs, k + 1, f0, f2, s0, s2)
  {
    hide Missing, Traced, Extends;
    var v := segs[k].va / 4096;
    TracedMore(SegPlan(s0.tables.Keys, segs, k), [PageRole(v)] + Tables(Missing(s1.tables.Keys, v, 0)), f0, f1, f2, s1,
               s2);
    ExtendsTrans(s0, s1, s2);
    assert SegPages(segs, k + 1) == SegPages(segs, k) + {v};
  }

  /** realloc_process: the frames of the new image off the list f1. */
  ghost predicate Rebuilt(f1: seq<nat>, free: seq<nat>, img: Image, sp: Space, trap: nat)
  {
    && |f1| > 0 && NoDup(f1) && img.trapframe == f1[0]
    && Traced(HeadPlan(f1[0], trap), f1, free, sp)
    && sp.tables.Keys == FixedIds(f1[0], trap) && sp.pages.Keys == {STACK, f1[0], trap}
  }

  lemma RebuiltBy(f1: seq<nat>, free: seq<nat>, img: Image, sp0: Space, sp: Space, trap: nat)
    requires |f1| >= 3 && NoDup(f1) && img.trapframe == f1[0] && Homed(sp.pages, f1[0])
    requires sp0.tables == map[Root := f1[1]]
    requires STACK in sp.pages && FrameOf(sp.pages[STACK]) == f1[2] && sp.pages.Keys == {STACK, f1[0], trap}
    requires Took(FixedTables(f1[0], trap), f1[3..], free, sp0, sp)
    ensures Rebuilt(f1, free, img, sp, trap)
  {
    hide FrameOf, FixedTables;
    var head := [PageRole(f1[0]), TableRole(Root), PageRole(STACK)];
    TookTraced(FixedTables(f1[0], trap), f1[3..], free, sp0, sp);
    assert forall i :: 0 <= i < 3 ==> Plays(head[i], f1[i], sp);
    TracedMore(head, Tables(FixedTables(f1[0], trap)), f1, f1[3..], free, sp, sp);
  }

  lemma FirstThree(f: seq<nat>, a: nat, b: nat, c: nat)
    requires |f| >= 3 && f[..3] == [a, b, c]
    ensures f[0] == a && f[1] == b && f[2] == c
  {
    assert f[..3][0] == f[0] && f[..3][1] == f[1] && f[..3][2] == f[2];
  }

  /** Frames that run out while the segments are loaded are too few for the exec. */
  lemma {:induction false} TooFewForPlan(f1: seq<nat>, f2: seq<nat>, img: Image, sp: Space, trap: nat,
                                         segs: seq<ElfSegment>)
    requires Rebuilt(f1, f2, img, sp, trap) && SegsShort(f2, sp, segs)
    ensures |f1| < |Plan(f1[0], trap, segs)|
  {
    hide HeadPlan, SegPlan, FixedIds;
  }

  /** An exec: the new image is built off the list f1, every frame where the plan puts it. */
  ghost predicate Placed(f1: seq<nat>, free: seq<nat>, img: Image, sp: Space, trap: nat, segs: seq<ElfSegment>)
  {
    && |f1| > 0 && NoDup(f1) && img.trapframe == f1[0]
    && Traced(Plan(f1[0], trap, segs), f1, free, sp)
    && sp.tables.Keys == PlanIds(f1[0], trap, segs) && sp.pages.Keys == NewPages(f1[0], trap, segs)
  }

  lemma PlacedBy(f1: seq<nat>, f2: seq<nat>, free: seq<nat>, img: Image, img': Image, sp: Space, sp': Space, trap: nat,
                 segs: seq<ElfSegment>)
    requires Rebuilt(f1, f2, img, sp, trap) && SegsLoaded(segs, |segs|, f2, free, sp, sp')
    requires img'.trapframe == img.trapframe
    ensures Placed(f1, free, img', sp', trap, segs)
  {
    hide Traced, Extends, HeadPlan, SegPlan, FixedIds;
    TracedMore(HeadPlan(f1[0], trap), SegPlan(sp.tables.Keys, segs, |segs|), f1, f2, free, sp, sp');
  }

  /** handle_syscall stores the result of exec, which is 0, as a0 in the trapframe it was called with. By then
      that frame is free, or has a role in the new image. */
  ghost function Cleared(mem: Mem, f: nat): (mem': Mem)
    ensures mem'.Keys == mem.Keys && forall g :: g in mem && g != f ==> mem'[g] == mem[g]
  {
    if f in mem then mem[f := mem[f][9 := 0]] else mem
  }

  /** The store erases a mapping: the n-th frame becomes a table whose entry 9 is in use. */
  predicate Cuts(tf: nat, trap: nat, segs: seq<ElfSegment>, n: nat)
  {
    var plan := Plan(tf, trap, segs);
    n < |plan| && plan[n].TableRole? &&
    match plan[n].id
    case Leaf(k) => k * 512 + 9 in NewPages(tf, trap, segs)
    case id => Child(id, 9) in PlanIds(tf, trap, segs)
  }

  /** The store changes the program: the n-th frame becomes a page of it whose word 9 is not 0. */
  predicate Spoils(tf: nat, trap: nat, segs: seq<ElfSegment>, n: nat)
  {
    var plan := Plan(tf, trap, segs);
    n < |plan| && exists i :: 0 <= i < |segs| && plan[n] == PageRole(segs[i].va / 4096) && segs[i].page[9] != 0
  }

  /** The new image survives the store exactly if it does not cut. */
  lemma SurvivesIff(p: nat, mem: Mem, free: seq<nat>, own: Owners, start: nat, end: nat, img: Image, sp: Space,
                    f1: seq<nat>, trap: nat, segs: seq<ElfSegment>, n: nat)
    requires Accounted(mem, free, own, start, end) && SlotOk(mem, free, own, p, img, sp)
    requires Placed(f1, free, img, sp, trap, segs) && n < |f1| && f1[n] in own
    ensures SlotOk(Cleared(mem, f1[n]), free, own, p, img, sp) <==> !Cuts(f1[0], trap, segs, n)
  {
    hide Accounted, Backing, ImageOk, Homed, Plan, PlanIds, NewPages, Cleared, Cuts, SpaceOk;
    var plan, f := Plan(f1[0], trap, segs), f1[n];
    if n < |plan| && plan[n].TableRole? {
      assert Plays(plan[n], f, sp);
      TableCleared(p, mem, free, own, sp, plan[n].id, f);
      EntryInUse(mem, free, own, p, sp, f1, img, trap, segs, n);
    } else {
      NoTable(p, mem, free, own, start, end, img, sp, f1, trap, segs, n);
      OtherCleared(p, mem, free, own, start, end, sp, f);
      NoCut(f1[0], trap, segs, n);
    }
  }

  lemma NoCut(tf: nat, trap: nat, segs: seq<ElfSegment>, n: nat)
    requires var plan := Plan(tf, trap, segs); n >= |plan| || plan[n].PageRole?
    ensures !Cuts(tf, trap, segs, n)
  {
  }

  /** A frame that is free, or behind a page, is no table. */
  lemma NoTable(p: nat, mem: Mem, free: seq<nat>, own: Owners, start: nat, end: nat, img: Image, sp: Space,
                f1: seq<nat>, trap: nat, segs: seq<ElfSegment>, n: nat)
    requires Accounted(mem, free, own, start, end) && SlotOk(mem, free, own, p, img, sp)
    requires Placed(f1, free, img, sp, trap, segs) && n < |f1| && f1[n] in own
    requires var plan := Plan(f1[0], trap, segs); n >= |plan| || plan[n].PageRole?
    ensures own[f1[n]] != TableOf(p)
  {
    hide FrameOf, InCode, ImageOk, Homed, Plan, PlanIds, NewPages, SpaceOk;
    var plan := Plan(f1[0], trap, segs);
    if n < |plan| {
      assert Plays(plan[n], f1[n], sp);
      assert Backed(own, p, img.regions, plan[n].v, sp.pages[plan[n].v]);
    } else {
      assert free[n - |plan|] == f1[n];
    }
  }

  lemma OtherCleared(p: nat, mem: Mem, free: seq<nat>, own: Owners, start: nat, end: nat, sp: Space, f: nat)
    requires Accounted(mem, free, own, start, end) && SpaceOk(mem, free, own, p, sp) && f in own && own[f] != TableOf(p)
    ensures SpaceOk(Cleared(mem, f), free, own, p, sp)
  {
    hide SpaceOk, Cleared;
    SpaceKept(p, mem, free, own, Cleared(mem, f), free, own, sp);
  }

  lemma TableCleared(p: nat, mem: Mem, free: seq<nat>, own: Owners, sp: Space, id: TableId, f: nat)
    requires SpaceOk(mem, free, own, p, sp) && id in sp.tables && sp.tables[id] == f
    ensures SpaceOk(Cleared(mem, f), free, own, p, sp) <==> Entry(sp, id, 9) == 0
  {
    hide Shape, Entry;
    assert mem[f][9] == Entry(sp, id, 9);
    if mem[f][9] == 0 {
      assert mem[f][9 := 0] == mem[f];
      assert Cleared(mem, f) == mem;
    } else {
      assert Cleared(mem, f)[sp.tables[id]][9] == 0;
    }
  }

  lemma EntryInUse(mem: Mem, free: seq<nat>, own: Owners, p: nat, sp: Space, f1: seq<nat>, img: Image, trap: nat,
                   segs: seq<ElfSegment>, n: nat)
    requires SpaceOk(mem, free, own, p, sp) && Placed(f1, free, img, sp, trap, segs)
    requires var plan := Plan(f1[0], trap, segs); n < |plan| && plan[n].TableRole?
    ensures Cuts(f1[0], trap, segs, n) <==> Entry(sp, Plan(f1[0], trap, segs)[n].id, 9) != 0
  {
    hide Plan, PlanIds, NewPages, Traced;
    var id := Plan(f1[0], trap, segs)[n].id;
    match id
    case Leaf(k) =>
      assert k * 512 + 9 in sp.pages <==> k * 512 + 9 in sp.pages.Keys;
    case _ =>
      assert Child(id, 9) in sp.tables <==> Child(id, 9) in sp.tables.Keys;
  }

  lemma {:induction false} SegInPlan(ids: set<TableId>, segs: seq<ElfSegment>, k: nat, i: nat)
    requires i < k <= |segs|
    ensures PageRole(segs[i].va / 4096) in SegPlan(ids, segs, k)
  {
    hide Missing, SegIds;
    if i < k - 1 {
      SegInPlan(ids, segs, k - 1, i);
    } else {
      assert ([PageRole(segs[i].va / 4096)] + Tables(Missing(SegIds(ids, segs, k - 1), segs[i].va / 4096, 0)))[0]
          == PageRole(segs[i].va / 4096);
    }
  }

  lemma SegmentRole(tf: nat, trap: nat, segs: seq<ElfSegment>, i: nat) returns (j: nat)
    requires i < |segs|
    ensures j < |Plan(tf, trap, segs)| && Plan(tf, trap, segs)[j] == PageRole(segs[i].va / 4096)
  {
    hide HeadPlan, SegPlan, FixedIds;
    var head, tail := HeadPlan(tf, trap), SegPlan(FixedIds(tf, trap), segs, |segs|);
    SegInPlan(FixedIds(tf, trap), segs, |segs|, i);
    var k :| 0 <= k < |tail| && tail[k] == PageRole(segs[i].va / 4096);
    j := |head| + k;
  }

  /** The frame behind a segment's page is the one its role names. */
  lemma SegmentFrame(f1: seq<nat>, free: seq<nat>, img: Image, sp: Space, trap: nat, segs: seq<ElfSegment>, n: nat,
                     i: nat)
    requires Placed(f1, free, img, sp, trap, segs) && n < |f1| && i < |segs| && segs[i].va / 4096 in sp.pages
    ensures var plan, v := Plan(f1[0], trap, segs), segs[i].va / 4096;
            FrameOf(sp.pages[v]) == f1[n] <==> n < |plan| && plan[n] == PageRole(v)
  {
    hide FrameOf, Plan, PlanIds, NewPages;
    var plan, v := Plan(f1[0], trap, segs), segs[i].va / 4096;
    var j := SegmentRole(f1[0], trap, segs, i);
    assert Plays(plan[j], f1[j], sp);
    if n < |plan| { assert Plays(plan[n], f1[n], sp); }
  }

  /** The program is intact after the store exactly if it does not spoil it. */
  lemma IntactIff(mem: Mem, f1: seq<nat>, free: seq<nat>, img: Image, sp: Space, trap: nat, segs: seq<ElfSegment>,
                  n: nat)
    requires Placed(f1, free, img, sp, trap, segs) && n < |f1| && AllLoaded(mem, sp.pages, segs)
    ensures AllLoaded(Cleared(mem, f1[n]), sp.pages, segs) <==> !Spoils(f1[0], trap, segs, n)
  {
    hide Placed, Plan, Loaded, Cleared;
    forall i | 0 <= i < |segs|
      ensures Loaded(Cleared(mem, f1[n]), sp.pages, segs[i]) <==>
                !(n < |Plan(f1[0], trap, segs)| && segs[i].page[9] != 0
                  && Plan(f1[0], trap, segs)[n] == PageRole(segs[i].va / 4096))
    {
      assert Loaded(mem, sp.pages, segs[i]);
      LoadedMapped(mem, sp.pages, segs[i]);
      SegmentFrame(f1, free, img, sp, trap, segs, n, i);
      LoadedCleared(mem, sp.pages, segs[i], f1[n]);
    }
  }

  lemma LoadedMapped(mem: Mem, pages: map<nat, u64>, seg: ElfSegment)
    requires Loaded(mem, pages, seg)
    ensures seg.va / 4096 in pages
  {
  }

  lemma LoadedCleared(mem: Mem, pages: map<nat, u64>, seg: ElfSegment, f: nat)
    requires Loaded(mem, pages, seg)
    ensures Loaded(Cleared(mem, f), pages, seg) <==> FrameOf(pages[seg.va / 4096]) != f || seg.page[9] == 0
  {
    hide MakePte, ProtToType, FrameOf;
    var g := FrameOf(pages[seg.va / 4096]);
    if g == f {
      assert Cleared(mem, f)[g] == seg.page[9 := 0];
      assert seg.page[9 := 0] == seg.page <==> seg.page[9] == 0;
    }
  }

  /** The first frames of an exec on a machine whose memory and trap vector lie in the third gigabyte. */
  lemma HeadRoles(tf: nat, trap: nat, segs: seq<ElfSegment>)
    requires tf / 512 / 512 == 2 && trap / 512 / 512 == 2
    ensures var plan := Plan(tf, trap, segs);
            && |plan| >= 7
            && plan[..7] == [PageRole(tf), TableRole(Root), PageRole(STACK), TableRole(Mid(1)), TableRole(Leaf(1023)),
                             TableRole(Mid(2)), TableRole(Leaf(tf / 512))]
            && (trap / 512 != tf / 512 && segs != [] ==>
                  |plan| >= 9 && plan[7] == TableRole(Leaf(trap / 512)) && plan[8] == PageRole(segs[0].va / 4096))
  {
    hide SegPlan, SegIds, FixedTables, FixedIds;
    FixedTablesAre(tf, trap);
    if segs != [] { FirstSegment(FixedIds(tf, trap), segs, |segs|); }
  }

  lemma FixedTablesAre(tf: nat, trap: nat)
    requires tf / 512 / 512 == 2 && trap / 512 / 512 == 2
    ensures FixedTables(tf, trap)
         == [Mid(1), Leaf(1023), Mid(2), Leaf(tf / 512)] + if trap / 512 == tf / 512 then [] else [Leaf(trap / 512)]
  {
    assert Missing({Root}, STACK, 0) == [Mid(1), Leaf(1023)];
    var ids := {Root} + Ids([Mid(1), Leaf(1023)]);
    assert Missing(ids, tf, 0) == [Mid(2), Leaf(tf / 512)];
    var more := ids + Ids([Mid(2), Leaf(tf / 512)]);
    assert Mid(2) in more && (Leaf(trap / 512) in more <==> trap / 512 == tf / 512) by {
      assert Leaf(1023) != Leaf(trap / 512);
      assert [Mid(2), Leaf(tf / 512)][0] == Mid(2) && [Mid(2), Leaf(tf / 512)][1] == Leaf(tf / 512);
    }
  }

  lemma {:induction false} FirstSegment(ids: set<TableId>, segs: seq<ElfSegment>, k: nat)
    requires 0 < k <= |segs|
    ensures var plan := SegPlan(ids, segs, k); |plan| > 0 && plan[0] == PageRole(segs[0].va / 4096)
  {
    hide Missing, SegIds;
    if k > 1 {
      FirstSegment(ids, segs, k - 1);
    } else {
      assert SegPlan(ids, segs, 0) == [];
    }
  }

  /** Where on the list realloc_process leaves the old trapframe: behind the directory and the data pages. */
  function ResultAt(rs: seq<Region>): nat { 1 + DataPages(rs, |rs|) }

  lemma OldTrapframe(p: nat, mem: Mem, free: seq<nat>, own: Owners, start: nat, end: nat, img: Image, sp: Space)
    requires SlotOk(mem, free, own, p, img, sp) && Removable(sp, img.regions, start, end)
    ensures var f1 := Dropped(free, img.pagetable, img.regions, sp.pages);
            f1[0] == img.pagetable && ResultAt(img.regions) < |f1| && f1[ResultAt(img.regions)] == img.trapframe
  {
    hide SpaceOk, Backing, RegionsOk, Removable, Pushed, DataPages, Homed;
    RemovableAll(sp, img.regions, start, end);
    TrapframeAt(img.regions, sp.pages, img.trapframe, |img.regions|, free);
  }

  /** What the store through the old trapframe does to the image exec built. */
  lemma AfterExec(p: nat, mem0: Mem, free0: seq<nat>, own0: Owners, img0: Image, sp0: Space, start: nat, end: nat,
                  mem: Mem, free: seq<nat>, own: Owners, img: Image, sp: Space, trap: nat, segs: seq<ElfSegment>)
    requires SlotOk(mem0, free0, own0, p, img0, sp0) && Removable(sp0, img0.regions, start, end)
    requires Accounted(mem, free, own, start, end) && SlotOk(mem, free, own, p, img, sp) && own.Keys == own0.Keys
    requires Placed(Dropped(free0, img0.pagetable, img0.regions, sp0.pages), free, img, sp, trap, segs)
    requires AllLoaded(mem, sp.pages, segs)
    ensures img0.trapframe in own0 && own0[img0.trapframe] == PageOf(p, img0.trapframe)
    ensures SlotOk(Cleared(mem, img0.trapframe), free, own, p, img, sp) <==>
              !Cuts(img0.pagetable, trap, segs, ResultAt(img0.regions))
    ensures AllLoaded(Cleared(mem, img0.trapframe), sp.pages, segs) <==>
              !Spoils(img0.pagetable, trap, segs, ResultAt(img0.regions))
  {
    var f1, n := Dropped(free0, img0.pagetable, img0.regions, sp0.pages), ResultAt(img0.regions);
    OldTrapframe(p, mem0, free0, own0, start, end, img0, sp0);
    hide SpaceOk, Backing, RegionsOk, Homed, Accounted, Removable, Dropped, ResultAt, Placed, AllLoaded, Cuts, Spoils,
         Cleared;
    assert img0.trapframe in own0.Keys;
    SurvivesIff(p, mem, free, own, start, end, img, sp, f1, trap, segs, n);
    IntactIff(mem, f1, free, img, sp, trap, segs, n);
  }

  /** The new trapframe is the old directory. */
  lemma NewTrapframeElsewhere(p: nat, mem0: Mem, free0: seq<nat>, own0: Owners, img0: Image, sp0: Space, start: nat,
                              end: nat, free: seq<nat>, img: Image, sp: Space, trap: nat, segs: seq<ElfSegment>)
    requires SlotOk(mem0, free0, own0, p, img0, sp0) && Removable(sp0, img0.regions, start, end)
    requires Placed(Dropped(free0, img0.pagetable, img0.regions, sp0.pages), free, img, sp, trap, segs)
    ensures img.trapframe == img0.pagetable != img0.trapframe
  {
    hide Holds, Backing, RegionsOk, FixedRegions, Homed, Removable, Dropped, Plan, PlanIds, NewPages, Traced;
    OldTrapframe(p, mem0, free0, own0, start, end, img0, sp0);
  }

  lemma ClearedLocal(p: nat, mem0: Mem, own0: Owners, mem: Mem, own: Owners, f: nat)
    requires Local(p, mem0, own0, mem, own) && f in own0 && HeldBy(own0[f], p)
    ensures Local(p, mem0, own0, Cleared(mem, f), own)
  {
    hide Cleared;
  }

  /** With all other slots in order, the table is in order exactly if slot p is. */
  lemma SlotsReplaced(p: nat, mem: Mem, free: seq<nat>, own: Owners, slots: seq<Slot>, spaces: seq<Space>,
                      slots': seq<Slot>, spaces': seq<Space>)
    requires p < |slots| == |spaces| == |slots'| == |spaces'| && SlotsBut(p, mem, free, own, slots, spaces)
    requires slots' == slots[p := slots'[p]] && spaces' == spaces[p := spaces'[p]] && slots'[p].Occupied?
    ensures SlotsBut(p, mem, free, own, slots', spaces')
    ensures SlotsBut(|slots|, mem, free, own, slots', spaces') <==> SlotOk(mem, free, own, p, slots'[p].img, spaces'[p])
  {
    hide SlotOk;
  }

  /** The usual case, one data page: the old trapframe becomes the new stack, and nothing is lost. */
  lemma {:induction false} OneDataPage(tf: nat, trap: nat, segs: seq<ElfSegment>, rs: seq<Region>)
    requires DataPages(rs, |rs|) == 1 && ProgramOk(segs)
    ensures !Cuts(tf, trap, segs, ResultAt(rs)) && !Spoils(tf, trap, segs, ResultAt(rs))
  {
    hide FixedTables, SegPlan, FixedIds;
    assert Plan(tf, trap, segs)[2] == PageRole(STACK);
  }

  /** Five data pages: the old trapframe becomes the leaf table of the new one, and the new trapframe loses its
      mapping if it is page 9 of that table. */
  lemma {:induction false} FiveDataPages(tf: nat, trap: nat, segs: seq<ElfSegment>, rs: seq<Region>)
    requires DataPages(rs, |rs|) == 5 && tf / 512 / 512 == 2 && trap / 512 / 512 == 2
    ensures Cuts(tf, trap, segs, ResultAt(rs)) <==> tf / 512 * 512 + 9 in NewPages(tf, trap, segs)
    ensures tf % 512 == 9 ==> Cuts(tf, trap, segs, ResultAt(rs))
  {
    hide NewPages, Plan, PlanIds;
    HeadRoles(tf, trap, segs);
    assert Plan(tf, trap, segs)[6] == Plan(tf, trap, segs)[..7][6];
    if tf % 512 == 9 { OwnPage(tf, trap, segs); }
  }

  lemma OwnPage(tf: nat, trap: nat, segs: seq<ElfSegment>)
    ensures tf in NewPages(tf, trap, segs)
  {
  }

  /** Seven data pages and a trap vector with a table of its own: the old trapframe becomes the first page of
      the program, and a word of it is lost. */
  lemma {:induction false} SevenDataPages(tf: nat, trap: nat, segs: seq<ElfSegment>, rs: seq<Region>)
    requires DataPages(rs, |rs|) == 7 && tf / 512 / 512 == 2 && trap / 512 / 512 == 2 && trap / 512 != tf / 512
    requires segs != [] && segs[0].page[9] != 0
    ensures Spoils(tf, trap, segs, ResultAt(rs))
  {
    hide Plan;
    HeadRoles(tf, trap, segs);
  }
}
