/** The kernel as one state machine: its steps are the traps of kernel/strap.c and kernel/syscall.c that are
    modelled here, and a store by the running program. */
module Kernel {
  import opened Lists
  import opened Sv39
  import opened PageTable
  import M = Memory
  import opened Ownership
  import opened Images
  import opened Forking
  import opened Placement
  import opened Reaping
  import opened Freeing
  import opened Bytes
  import opened Arguments
  import opened Steps
  import opened Runs
  import P = ProcessMemory
  import S = Scheduler

  class Kernel {
    const pm: P.ProcessMemory
    const sch: S.Scheduler

    constructor (pm: P.ProcessMemory, sch: S.Scheduler)
      ensures this.pm == pm && this.sch == sch
    {
      this.pm, this.sch := pm, sch;
    }

    /** Memory and process table are in order, and agree on which slots are in use. */
    ghost predicate Valid()
      reads this, pm, pm.m, sch
    {
      pm.Valid() && sch.Valid() && Agree(pm.slots, sch.procs)
    }

    ghost function Now(): Moment
      reads this, pm, pm.m, sch
    {
      Moment(pm.State(), sch.procs, sch.Shown())
    }

    ghost function Place(): Site
      reads this, pm, pm.m
    {
      Site(pm.trapSec, pm.m.start, pm.m.end)
    }

    lemma NowGood()
      requires Valid()
      ensures Good(Place(), Now()) && Now().view.current == sch.current && Now().view.queue == sch.queue
    {
      hide P.ProcessMemory.Valid, S.Scheduler.Valid, Agree, S.ViewOk, InOrder, S.TableOk, S.StatusOk;
      sch.Facts();
      sch.ShownOk();
      pm.NowInOrder();
    }

    /** What no trap modelled here can break: the free list, the account of all frames and the process table. */
    ghost predicate Sound()
      reads this, pm, pm.m, sch
    {
      pm.Counted() && sch.Valid() && Agree(pm.slots, sch.procs)
    }

    /** The timer interrupt. */
    method DoTimer() returns (r: Result)
      requires Valid()
      modifies sch
      ensures r.Continue? && Valid() && S.Next(old(sch.Shown()), S.Tick, sch.Shown())
      ensures S.SameTable(old(sch.procs), sch.procs)
    {
      hide P.ProcessMemory.Valid, S.Scheduler.Valid, S.Next;
      var o := sch.RrSched();
      r := Continue(0);
    }

    method DoYield() returns (r: Result)
      requires Valid()
      modifies sch
      ensures r.Continue? && Valid() && S.Next(old(sch.Shown()), S.Yield, sch.Shown())
      ensures S.SameTable(old(sch.procs), sch.procs)
    {
      hide P.ProcessMemory.Valid, S.Scheduler.Valid, S.Next;
      var o := sch.DoYield();
      r := Continue(0);
    }

    /** The last process to exit shuts the machine down; the unhandled case is never reached. */
    method DoExit() returns (r: Result)
      requires Valid()
      modifies sch
      ensures r == if old(sch.queue) == [] then Stopped(S.Shutdown) else Continue(0)
      ensures r.Continue? ==> Valid() && S.Next(old(sch.Shown()), S.Exit, sch.Shown())
      ensures r.Continue? ==> ExitedTable(old(sch.procs), old(sch.current), sch.procs)
    {
      hide P.ProcessMemory.Valid, S.Next;
      var o := sch.DoExit();
      r := if o == S.Dispatched then Continue(0) else Stopped(o);
    }

    /** fork: the caller gets the child's pid, which is positive; the child runs from a copy. */
    method DoFork() returns (r: Result)
      requires Valid()
      modifies pm, pm.m`mem, pm.m`head, pm.m`free, sch
      ensures r.Continue? || r == Stopped(S.Halted)
      ensures r.Continue? ==> Valid() && sch.current == old(sch.current) && 0 < r.ret < NPROC
      ensures r.Continue? ==> S.Next(old(sch.Shown()), S.Fork(r.ret), sch.Shown())
      ensures r.Continue? ==> ForkedChild(old(sch.procs), sch.procs, sch.current, r.ret)
      ensures r.Continue? ==> Effect(SysFork, sch.current, r.ret, pm.trapSec, old(pm.State()), pm.State())
      ensures r.Stopped? ==>
                || (pm.m.free == [] && Short(SysFork, old(sch.current), pm.trapSec, old(pm.State())))
                || Refused(SysFork, old(sch.current), old(sch.procs), old(pm.State()), pm.m.start, pm.m.end)
      ensures r.Continue? ==> KernelKept(old(pm.m.mem), old(pm.own), pm.m.mem, pm.own)
    {
      hide P.ProcessMemory.Valid, S.Scheduler.Valid, Forked, Local, KernelKept, S.Next, S.SameTable, S.Scheduler.Shown,
           Agree, Forkable, ForkTaken;
      sch.Facts();
      pm.Sizes();
      AgreeAt(pm.slots, sch.procs, sch.current);
      var c := sch.FindFree();
      if c == -1 { return Stopped(S.Halted); }
      AgreeAt(pm.slots, sch.procs, c);
      var ok := pm.Fork(sch.current, c);
      if !ok { return Stopped(S.Halted); }
      LocalKernel(c, old(pm.m.mem), old(pm.own), pm.m.mem, pm.own);
      var pid := sch.AddChild(c);
      sch.Facts();
      AgreeSet(old(pm.slots), old(sch.procs), c, pm.slots, sch.procs);
      r := Continue(pid);
    }

    /** wait: reaps the first zombie child asked for and returns its pid; -1 exactly if no child asked for
        is recorded, -2 if one is but none has exited. */
    method DoWait(pid: int) returns (r: Result)
      requires Valid()
      modifies pm, pm.m`mem, pm.m`head, pm.m`free, sch
      ensures r.Continue? || r == Stopped(S.Halted)
      ensures r.Continue? ==> Valid() && sch.current == old(sch.current) && |old(sch.procs)| == NPROC
      ensures r.Continue? ==> WaitAnswer(old(sch.procs), sch.current, pid, r.ret)
      ensures r.Continue? ==> Effect(SysWait(pid), sch.current, r.ret, pm.trapSec, old(pm.State()), pm.State())
      ensures r.Stopped? ==>
                Refused(SysWait(pid), old(sch.current), old(sch.procs), old(pm.State()), pm.m.start, pm.m.end)
      ensures r.Continue? && r.ret < 0 ==> sch.Shown() == old(sch.Shown()) && sch.procs == old(sch.procs)
      ensures r.Continue? && r.ret >= 0 ==>
                && r.ret < NPROC
                && sch.procs == old(sch.procs)[r.ret := S.Proc(r.ret, S.Free, S.NULL, S.NULL, 0)]
                && S.Next(old(sch.Shown()), S.Reap(r.ret), sch.Shown())
      ensures r.Continue? ==> KernelKept(old(pm.m.mem), old(pm.own), pm.m.mem, pm.own)
    {
      hide P.ProcessMemory.Valid, S.Scheduler.Valid, KernelKept, Local, Release, GivenBack, Removable, S.Next, Refunded,
           LeftBehind, Unstaffed, DataPages,
           S.Scheduler.Shown, Agree, S.HasKid;
      sch.Facts();
      pm.Sizes();
      var i := sch.FindZombie(pid);
      if i < 0 {
        KernelRefl(pm.m.mem, pm.own);
        NoneReapable(sch.procs, sch.current, pid, i);
        return Continue(i);
      }
      OneReapable(sch.procs, sch.current, pid, i);
      AgreeAt(pm.slots, sch.procs, i);
      var ok := pm.Reap(i);
      if !ok { return Stopped(S.Halted); }
      LocalKernel(i, old(pm.m.mem), old(pm.own), pm.m.mem, pm.own);
      sch.FreeSlot(i);
      AgreeSet(old(pm.slots), old(sch.procs), i, pm.slots, sch.procs);
      r := Continue(i);
    }

    /** exec: the image of the running process is replaced, and its time slice starts again. The result goes to
        word 9 of the trapframe the process had before, a frame freed since and perhaps taken again: the
        invariant survives exactly if that does not cut the new image. Every other slot survives. */
    method DoExec(args: seq<seq<byte>>, segs: seq<ElfSegment>) returns (r: Result)
      requires Valid() && Fit(args) && Plain(segs)
      modifies pm, pm.m`mem, pm.m`head, pm.m`free, sch
      ensures r == Stopped(S.Halted) || (r == Continue(0) && Sound() && S.Next(old(sch.Shown()), S.Exec, sch.Shown()))
      ensures r.Continue? ==> sch.current == old(sch.current) && 0 <= sch.current < NPROC && pm.ValidBut(sch.current)
      ensures r.Continue? ==> S.SameTable(old(sch.procs), sch.procs)
      ensures r.Continue? ==> Effect(SysExec(args, segs), sch.current, r.ret, pm.trapSec, old(pm.State()), pm.State())
      ensures r.Continue? ==>
                (Valid() <==>
                   !Breaks(SysExec(args, segs), sch.current, pm.trapSec, pm.m.start, pm.m.end, old(pm.State())))
      ensures r.Stopped? ==>
                || (pm.m.free == [] && Short(SysExec(args, segs), old(sch.current), pm.trapSec, old(pm.State())))
                || Refused(SysExec(args, segs), old(sch.current), old(sch.procs), old(pm.State()), pm.m.start, pm.m.end)
      ensures r.Continue? ==> KernelKept(old(pm.m.mem), old(pm.own), pm.m.mem, pm.own)
    {
      hide P.ProcessMemory.Valid, S.Scheduler.Valid, KernelKept, Local, S.Next, S.Scheduler.Shown, Agree, AllLoaded,
           ProgramOk, Removable, Exchanged, Cuts, Spoils, ResultAt, HasFixed, Cleared, P.ProcessMemory.Counted,
           SlotsBut, Fit, CalledWith, ExecTaken;
      sch.Facts();
      pm.Sizes();
      AgreeAt(pm.slots, sch.procs, sch.current);
      var p := sch.current;
      ghost var a := pm.State();
      var ok;
      ghost var built;
      ok, built := pm.ExecTrap(p, args, segs);
      if !ok { return Stopped(S.Halted); }
      LocalKernel(p, old(pm.m.mem), old(pm.own), pm.m.mem, pm.own);
      assert LoadedThenCleared(p, segs, a, pm.State(), built);
      sch.ResetSlice();
      AgreeOne(old(pm.slots), old(sch.procs), p, pm.slots, sch.procs);
      r := Continue(0);
    }

    method DoAllocate() returns (r: Result)
      requires Valid()
      modifies pm, pm.m`mem, pm.m`head, pm.m`free
      ensures r == Stopped(S.Halted) || (r.Continue? && Valid())
      ensures r.Continue? ==> Effect(SysAllocatePage, sch.current, r.ret, pm.trapSec, old(pm.State()), pm.State())
      ensures r.Stopped? ==>
                || (pm.m.free == [] && Short(SysAllocatePage, sch.current, pm.trapSec, old(pm.State())))
                || Refused(SysAllocatePage, sch.current, sch.procs, old(pm.State()), pm.m.start, pm.m.end)
      ensures r.Continue? ==> KernelKept(old(pm.m.mem), old(pm.own), pm.m.mem, pm.own)
    {
      hide P.ProcessMemory.Valid, S.Scheduler.Valid, KernelKept, TablesOnly, WithFresh, Agree, OnePageTaken;
      sch.Facts();
      pm.Sizes();
      AgreeAt(pm.slots, sch.procs, sch.current);
      var ok, va := pm.AllocateHeapPage(sch.current);
      if ok {
        TablesOnlyLocal(sch.current, old(pm.m.mem), old(pm.own), pm.m.mem, pm.own);
        LocalKernel(sch.current, old(pm.m.mem), old(pm.own), pm.m.mem, pm.own);
      }
      r := if ok then Continue(va) else Stopped(S.Halted);
    }

    /** The kernel does not ask whether the page came from DoAllocate, nor who else uses its frame: the invariant
        survives exactly if nobody does. */
    method DoFree(va: u64) returns (r: Result)
      requires Valid()
      modifies pm, pm.m`mem, pm.m`head, pm.m`free
      ensures r == Stopped(S.Halted) || (r == Continue(0) && Sound())
      ensures r.Continue? ==> Effect(SysFreePage(va), sch.current, r.ret, pm.trapSec, old(pm.State()), pm.State())
      ensures r.Continue? ==>
                (Valid() <==> !Breaks(SysFreePage(va), sch.current, pm.trapSec, pm.m.start, pm.m.end, old(pm.State())))
      ensures r.Continue? && !Valid() ==> pm.m.free != [] && FreeInReach(pm.m.free[0], pm.slots, pm.spaces)
      ensures r.Stopped? <==> Refused(SysFreePage(va), sch.current, sch.procs, old(pm.State()), pm.m.start, pm.m.end)
      ensures r.Continue? ==> KernelKept(old(pm.m.mem), old(pm.own), pm.m.mem, pm.own)
    {
      hide P.ProcessMemory.Valid, S.Scheduler.Valid, KernelKept, Agree, FreedPage, StillUsed, FreeInReach, CanUnmap,
           P.ProcessMemory.Counted;
      sch.Facts();
      pm.Sizes();
      AgreeAt(pm.slots, sch.procs, sch.current);
      TopPage(pm.slots, pm.spaces, sch.current, va, pm.m.start, pm.m.end);
      var ok := pm.FreeUserPage(sch.current, va);
      r := if ok then Continue(0) else Stopped(S.Halted);
    }

    /** sys_user_read: the bytes that arrive are in the caller's buffer, however its pages are placed; off the
        caller's code no other process sees them. */
    method DoRead(bufva: u64, count: nat, supply: seq<seq<byte>>) returns (r: Result)
      requires Valid() && count < 0x8000_0000
      modifies pm.m`mem, pm.m`head, pm.m`free
      ensures r == Stopped(S.Halted) || (r.Continue? && Valid())
      ensures r.Continue? ==>
                Effect(SysRead(bufva, count, supply), sch.current, r.ret, pm.trapSec, old(pm.State()), pm.State())
      ensures r.Stopped? <==>
                Refused(SysRead(bufva, count, supply), sch.current, sch.procs, old(pm.State()), pm.m.start, pm.m.end)
      ensures r.Continue? ==> IsSlot(old(pm.State()), sch.current) && 0 <= r.ret
      ensures r.Continue? && OffCode(pm.slots[sch.current].img.regions, bufva, r.ret) ==>
                Unseen(sch.current, pm.slots, pm.spaces, old(pm.m.mem), pm.m.mem)
      ensures r.Continue? ==> KernelKept(old(pm.m.mem), old(pm.own), pm.m.mem, pm.own)
    {
      hide P.ProcessMemory.Valid, S.Scheduler.Valid, KernelKept, Agree, PutAll, Addresses, Delivered, AllLand, OffCode,
           Unseen;
      sch.Facts();
      pm.Sizes();
      AgreeAt(pm.slots, sch.procs, sch.current);
      var ok, ret := pm.ReadInto(sch.current, bufva, count, supply);
      r := if ok then Continue(ret) else Stopped(S.Halted);
    }

    method DoStoreFault(stval: u64) returns (r: Result)
      requires Valid()
      modifies pm, pm.m`mem, pm.m`head, pm.m`free
      ensures r == Stopped(S.Halted) || (r == Continue(0) && Valid())
      ensures r.Continue? ==> Effect(StorePageFault(stval), sch.current, r.ret, pm.trapSec, old(pm.State()), pm.State())
      ensures r.Stopped? ==>
                || (pm.m.free == [] && Short(StorePageFault(stval), sch.current, pm.trapSec, old(pm.State())))
                || Refused(StorePageFault(stval), sch.current, sch.procs, old(pm.State()), pm.m.start, pm.m.end)
      ensures r.Continue? ==> KernelKept(old(pm.m.mem), old(pm.own), pm.m.mem, pm.own)
    {
      hide P.ProcessMemory.Valid, S.Scheduler.Valid, KernelKept, TablesOnly, WithFresh, Agree, OnePageTaken;
      sch.Facts();
      pm.Sizes();
      AgreeAt(pm.slots, sch.procs, sch.current);
      var ok := pm.StoreFault(sch.current, stval);
      if ok {
        TablesOnlyLocal(sch.current, old(pm.m.mem), old(pm.own), pm.m.mem, pm.own);
        LocalKernel(sch.current, old(pm.m.mem), old(pm.own), pm.m.mem, pm.own);
      }
      r := if ok then Continue(0) else Stopped(S.Halted);
    }

    method DoUserStore(va: u64, x: u64) returns (r: Result)
      requires Valid()
      modifies pm.m`mem, pm.m`head, pm.m`free
      ensures r == Continue(0) && Valid()
      ensures Effect(UserStore(va, x), sch.current, r.ret, pm.trapSec, old(pm.State()), pm.State())
      ensures Isolated(sch.current, va, old(pm.State()), pm.State())
      ensures r.Continue? ==> KernelKept(old(pm.m.mem), old(pm.own), pm.m.mem, pm.own)
    {
      hide P.ProcessMemory.Valid, S.Scheduler.Valid, KernelKept, Agree, Stored, UserRead, InCode;
      sch.Facts();
      pm.Sizes();
      AgreeAt(pm.slots, sch.procs, sch.current);
      pm.UserStore(sch.current, va, x);
      r := Continue(0);
    }

    /** One step of the machine: smode_trap_handler and the syscall dispatch. A trap that is answered keeps the
        invariant exactly if it is not one that breaks it. */
    method Step(t: Trap) returns (r: Result)
      requires Valid()
      modifies pm, pm.m`mem, pm.m`head, pm.m`free, sch
      ensures r.Continue? ==> Sound() && Follows(t, r.ret, Place(), old(Now()), Now())
      ensures r.Continue? ==> (Valid() <==> !BreaksAt(t, Place(), old(Now())))
      ensures r.Stopped? ==> EndsFor(r.why, t, Place(), old(Now()), pm.m.free)
      ensures r == Outside <==> !Regular(t)
    {
      hide P.ProcessMemory.Valid, S.Scheduler.Valid, KernelKept, Agree, S.Next, S.ViewOk, ForkedChild, ForkedMemory,
           WaitAnswer, GotPage, LostPage, Reaped, Replaced, Stored, IsSlot, CanFork, Stuck, Unmappable, ProgramOk,
           CanUnmap, Cuts, StillUsed, ResultAt, P.ProcessMemory.Counted, P.ProcessMemory.ValidBut, FreeInReach, Filled,
           AllLand, Delivered, Unseen, OffCode, InOrder, Fit, ForkShort, TooFew, S.SameTable, ExitedTable, S.TableOk,
           S.StatusOk, ForkTaken;
      S.TableRefl(sch.procs);
      NowGood();
      StutterNext(sch.Shown());
      KernelRefl(pm.m.mem, pm.own);
      match t {
        case Timer => r := DoTimer();
        case SysYield => r := DoYield();
        case SysExit => r := DoExit();
        case SysFork => r := DoFork();
        case SysWait(pid) => r := DoWait(pid);
        case SysExec(args, segs) =>
          if !Regular(t) { return Outside; }
          r := DoExec(args, segs);
        case SysAllocatePage => r := DoAllocate();
        case SysFreePage(va) => r := DoFree(va);
        case SysRead(bufva, count, supply) =>
          if !Regular(t) { return Outside; }
          r := DoRead(bufva, count, supply);
        case StorePageFault(stval) => r := DoStoreFault(stval);
        case LoadPageFault => r := Continue(0);
        case UserStore(va, x) => r := DoUserStore(va, x);
      }
      if r.Continue? && Valid() { Implied(); }
    }

    lemma Implied()
      requires Valid()
      ensures Sound()
    {
    }

    /** Whether the next trap breaks the invariant: the questions the kernel would have to ask and does not. */
    method WouldBreak(t: Trap) returns (b: bool)
      requires Valid()
      modifies pm.m`mem, pm.m`head, pm.m`free
      ensures Valid() && Now() == old(Now())
      ensures b <==> BreaksAt(t, Place(), Now())
    {
      hide P.ProcessMemory.Valid, S.Scheduler.Valid, Agree, Cuts, StillUsed, ResultAt, CanUnmap;
      sch.Facts();
      pm.Sizes();
      AgreeAt(pm.slots, sch.procs, sch.current);
      var p := sch.current;
      var img := pm.slots[p].img;
      match t {
        case SysExec(_, segs) => b := Cuts(img.pagetable, pm.trapSec / 4096, segs, ResultAt(img.regions));
        case SysFreePage(va) => b := pm.InUseElsewhere(p, va / 4096);
        case _ => b := false;
      }
    }

    /** Any run of the machine: n traps are answered, each with its effect, and the invariant holds before each and
        after the last; then the list is done, or the machine stops for a reason there is in the state before trap
        n, or trap n would break the invariant or is outside the model. */
    method RunSteps(traps: seq<Trap>) returns (r: Result, n: nat, ghost rets: seq<int>, ghost trace: seq<Moment>)
      requires Valid()
      modifies pm, pm.m`mem, pm.m`head, pm.m`free, sch
      ensures IsRunOf(traps, n, r, rets, trace, Place(), pm.m.free) && trace[0] == old(Now())
      ensures !r.Stopped? ==> Valid() && Now() == trace[n]
      decreases |traps|
    {
      hide P.ProcessMemory.Valid, S.Scheduler.Valid, Agree, IsRunOf, Good, Follows, BreaksAt, EndsFor,
           P.ProcessMemory.Counted;
      NowGood();
      ghost var a := Now();
      r, n, rets, trace := Continue(0), 0, [], [a];
      if traps == [] {
        NoSteps(traps, r, a, Place(), pm.m.free);
        return;
      }
      var b := WouldBreak(traps[0]);
      if b || !Regular(traps[0]) {
        r := Outside;
        NoSteps(traps, r, a, Place(), pm.m.free);
        return;
      }
      r := Step(traps[0]);
      if r.Stopped? {
        NoSteps(traps, r, a, Place(), pm.m.free);
        return;
      }
      ghost var ret := r.ret;
      r, n, rets, trace := RunSteps(traps[1..]);
      OneMoreStep(traps, ret, a, n, r, rets, trace, Place(), pm.m.free);
      n, rets, trace := n + 1, [ret] + rets, [a] + trace;
    }

    /** The same, and a process that waits at position k of the ready queue all along sees fewer than 2 * (k + 1) of
        the run's timer interrupts, plus one for each exec call. */
    method Run(traps: seq<Trap>) returns (r: Result, n: nat, ghost rets: seq<int>, ghost trace: seq<Moment>)
      requires Valid()
      modifies pm, pm.m`mem, pm.m`head, pm.m`free, sch
      ensures IsRunOf(traps, n, r, rets, trace, Place(), pm.m.free) && trace[0] == old(Now())
      ensures !r.Stopped? ==> Valid() && Now() == trace[n]
      ensures forall k :: 0 <= k < |trace[0].view.queue| && NeverRuns(trace, trace[0].view.queue[k]) ==>
                Ticks(traps[..n]) < 2 * (k + 1) + Execs(traps[..n])
    {
      hide P.ProcessMemory.Valid, S.Scheduler.Valid, Agree, Good, Follows, BreaksAt, EndsFor, NeverRuns;
      r, n, rets, trace := RunSteps(traps);
      forall k | 0 <= k < |trace[0].view.queue| && NeverRuns(trace, trace[0].view.queue[k])
        ensures Ticks(traps[..n]) < 2 * (k + 1) + Execs(traps[..n])
      {
        Waits(traps[..n], rets, trace, Place(), k);
      }
    }
  }

  /** s_start from init_proc_pool on: the first program is loaded into slot 0 and dispatched. It fails only for
      want of frames or for what the program is, and takes no frame the kernel had. */
  method Start(m: M.Memory, trapSec: u64, segs: seq<ElfSegment>) returns (k: Kernel?)
    requires m.Valid() && trapSec % 4096 == 0 && !Managed(trapSec / 4096, m.start, m.end)
    requires USER_STACK_PAGE < trapSec < MAXVA && USER_STACK_PAGE < m.start
    requires Plain(segs)
    modifies m`mem, m`head, m`free
    ensures k == null ==> !ProgramOk(segs) || (m.free == [] && |old(m.free)| < 12 + 3 * |segs|)
    ensures k != null ==> |old(m.free)| <= |m.free| + 12 + 3 * |segs| && k.pm.heapNext == 0x40_0000
    ensures k != null ==> fresh(k) && fresh(k.pm) && fresh(k.sch) && k.pm.m == m && k.pm.trapSec == trapSec
    ensures k != null ==> k.Valid() && k.sch.current == 0 && k.sch.queue == [] && |k.pm.slots| == |k.pm.spaces| == NPROC
    ensures k != null ==> k.pm.slots[0].Occupied? && forall q :: 0 < q < NPROC ==> k.pm.slots[q].Vacant?
    ensures k != null ==> AllLoaded(m.mem, k.pm.spaces[0].pages, segs) && IsSuffix(m.free, old(m.free))
                          && HasFixed(k.pm.spaces[0].pages, k.pm.slots[0].img.trapframe, trapSec)
    ensures k != null ==> |k.pm.slots[0].img.regions| >= 3 && k.pm.slots[0].img.regions[3..] == Listed(segs)
    ensures k != null ==> |old(m.free)| >= 2 && old(m.free)[1] == k.pm.slots[0].img.pagetable
    ensures k != null ==> Removable(k.pm.spaces[0], k.pm.slots[0].img.regions, m.start, m.end)
    ensures k != null ==> NewContext(m.mem, k.pm.slots[0].img.trapframe)
    ensures k != null ==>
              KernelKept(old(m.mem), InitialOwners(old(m.mem), old(m.free), m.start, m.end), m.mem, k.pm.own)
  {
    hide SlotsBut, TablesOnly, P.ProcessMemory.Counted, KernelKept, InitialOwners, AllLoaded, HasFixed, ProgramOk,
         IsSuffix, Removable, Listed, Managed, Local, Agree, P.ProcessMemory.Valid, S.Scheduler.Valid, NewContext;
    var pm := new P.ProcessMemory(m, trapSec);
    ghost var m0, o0 := m.mem, pm.own;
    var ok := pm.Spawn(0, segs);
    if !ok { return null; }
    TablesOnlyLocal(0, m0, o0, m.mem, pm.own);
    LocalKernel(0, m0, o0, m.mem, pm.own);
    pm.Sizes();
    var sch := new S.Scheduler();
    sch.Facts();
    OneAgrees(pm.slots, sch.procs);
    k := new Kernel(pm, sch);
  }

  lemma StutterNext(a: S.View)
    requires S.ViewOk(a)
    ensures S.Next(a, S.Other, a)
  {
    hide S.ViewOk;
  }

  lemma AgreeOne(slots: seq<Slot>, procs: seq<S.Proc>, p: int, slots': seq<Slot>, procs': seq<S.Proc>)
    requires Agree(slots, procs) && 0 <= p < NPROC && |slots'| == NPROC && slots' == slots[p := slots'[p]]
    requires slots'[p].Occupied?
    requires |procs| == NPROC && procs[p].status != S.Free && procs' == procs[p := procs[p].(tick := 0)]
    ensures Agree(slots', procs')
  {
  }

  lemma NoneReapable(procs: seq<S.Proc>, current: int, pid: int, i: int)
    requires |procs| == NPROC && forall j :: 0 <= j < NPROC ==> !S.Reapable(procs, current, pid, j)
    requires i == if S.HasKid(procs, current, pid, NPROC) then -2 else -1
    ensures WaitAnswer(procs, current, pid, i)
  {
    hide S.HasKid, S.Reapable;
  }

  lemma OneReapable(procs: seq<S.Proc>, current: int, pid: int, i: int)
    requires |procs| == NPROC && 0 <= i < NPROC && S.Reapable(procs, current, pid, i)
    requires forall j :: 0 <= j < i ==> !S.Reapable(procs, current, pid, j)
    ensures i != 0 ==> WaitAnswer(procs, current, pid, i)
  {
    hide S.Wanted;
  }

  lemma OneAgrees(slots: seq<Slot>, procs: seq<S.Proc>)
    requires |slots| == |procs| == NPROC && slots[0].Occupied? && procs[0].status != S.Free
    requires forall i :: 0 < i < NPROC ==> slots[i].Vacant? && procs[i].status == S.Free
    ensures Agree(slots, procs)
  {
  }

  lemma AgreeAt(slots: seq<Slot>, procs: seq<S.Proc>, i: int)
    requires Agree(slots, procs) && 0 <= i < NPROC
    ensures |slots| == |procs| == NPROC && (slots[i].Occupied? <==> procs[i].status != S.Free)
  {
  }

  lemma AgreeSet(slots: seq<Slot>, procs: seq<S.Proc>, c: int, slots': seq<Slot>, procs': seq<S.Proc>)
    requires Agree(slots, procs) && 0 <= c < NPROC == |slots'| == |procs'| && slots' == slots[c := slots'[c]]
    requires S.SameTable(procs[c := procs'[c]], procs') && (slots'[c].Occupied? <==> procs'[c].status != S.Free)
    ensures Agree(slots', procs')
  {
  }
}
