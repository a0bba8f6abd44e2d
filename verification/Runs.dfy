/** Runs of the machine on values: what holds of every state on the way, what each trap does, and why a run ends. */
module Runs {
  import opened Sv39
  import opened PageTable
  import opened Memory
  import opened Ownership
  import opened Images
  import opened Arguments
  import opened Forking
  import opened Freeing
  import opened Bytes
  import opened Steps
  import S = Scheduler
  import opened Fairness

  /** The machine goes on (with the syscall's result), it stops, or the program asked for something that is
      outside this model. */
  datatype Result = Continue(ret: int) | Stopped(why: S.Outcome) | Outside

  /** Memory, process table and what the scheduler shows, between two traps. */
  datatype Moment = Moment(memory: MemState, procs: seq<S.Proc>, view: S.View)

  /** The trap vector and the range of managed memory. */
  datatype Site = Site(trapSec: u64, start: nat, end: nat)

  /** What a trap means to the scheduler. */
  function EventOf(t: Trap, ret: int): S.Event
  {
    match t
    case Timer => S.Tick
    case SysYield => S.Yield
    case SysExit => S.Exit
    case SysFork => if ret >= 0 then S.Fork(ret) else S.Other
    case SysWait(_) => if ret >= 0 then S.Reap(ret) else S.Other
    case SysExec(_, _) => S.Exec
    case _ => S.Other
  }

  /** What do_wait answers, from the process table alone. */
  ghost predicate WaitAnswer(procs: seq<S.Proc>, current: int, pid: int, ret: int)
  {
    && |procs| == NPROC && ret < NPROC
    && (ret == -1 <==> !S.HasKid(procs, current, pid, NPROC))
    && (ret < 0 <==> forall j :: 0 <= j < NPROC ==> !S.Reapable(procs, current, pid, j))
    && ret >= -2 && ret != 0
    && (ret > 0 ==> S.Reapable(procs, current, pid, ret))
    && (forall j :: 0 <= j < ret ==> !S.Reapable(procs, current, pid, j))
  }

  ghost predicate ForkedChild(procs: seq<S.Proc>, procs': seq<S.Proc>, current: int, c: int)
  {
    && 0 < c < |procs| == |procs'| && procs[c].status == S.Free
    && procs'[c].status == S.Ready && procs'[c].parent == current && procs'[c].pid == c
    && (forall i :: 0 <= i < c ==> procs[i].status != S.Free)
    && S.SameTable(procs[c := procs'[c]], procs')
  }

  /** The process that ran is a zombie; nothing else about the processes changes. */
  ghost predicate ExitedTable(procs: seq<S.Proc>, current: int, procs': seq<S.Proc>)
  {
    0 <= current < |procs| && procs' == procs[current := procs[current].(status := S.Zombie)]
  }

  /** Slots in memory are in use where the table has a process. */
  ghost predicate Agree(slots: seq<Slot>, procs: seq<S.Proc>)
  {
    && |slots| == |procs| == NPROC
    && forall i :: 0 <= i < NPROC ==> (slots[i].Occupied? <==> procs[i].status != S.Free)
  }

  /** The process table after the trap, and the answers that depend on it. */
  ghost predicate Answered(t: Trap, ret: int, current: int, procs: seq<S.Proc>, procs': seq<S.Proc>)
  {
    match t
    case SysFork => ForkedChild(procs, procs', current, ret)
    case SysWait(pid) =>
      && WaitAnswer(procs, current, pid, ret)
      && procs' == if ret < 0 then procs else procs[ret := S.Proc(ret, S.Free, S.NULL, S.NULL, 0)]
    case SysExit => ExitedTable(procs, current, procs')
    case _ => S.SameTable(procs, procs')
  }

  /** The trap t, answered with ret, took the machine from a to b. */
  ghost predicate Follows(t: Trap, ret: int, s: Site, a: Moment, b: Moment)
  {
    && S.Next(a.view, EventOf(t, ret), b.view)
    && Effect(t, a.view.current, ret, s.trapSec, a.memory, b.memory)
    && Answered(t, ret, a.view.current, a.procs, b.procs)
    && KernelKept(a.memory.mem, a.memory.own, b.memory.mem, b.memory.own)
  }

  ghost predicate BreaksAt(t: Trap, s: Site, a: Moment)
  {
    Breaks(t, a.view.current, s.trapSec, s.start, s.end, a.memory)
  }

  /** Why the machine stops in a at t: the last process exits, or the frames in a are too few and were all taken, or
      the request is refused. */
  ghost predicate EndsFor(why: S.Outcome, t: Trap, s: Site, a: Moment, free: seq<nat>)
  {
    match why
    case Shutdown => t == SysExit && a.view.queue == []
    case Halted =>
      && t != SysExit
      && (|| (free == [] && Short(t, a.view.current, s.trapSec, a.memory))
          || Refused(t, a.view.current, a.procs, a.memory, s.start, s.end))
    case Dispatched => false
  }

  /** Arguments that fit, a program the loader is made for, a count its caller's int can hold. */
  predicate Regular(t: Trap)
  {
    (t.SysExec? ==> Fit(t.args) && Plain(t.segs)) && (t.SysRead? ==> t.count < 0x8000_0000)
  }

  /** Every trap is answered but an exec whose arguments do not fit or whose program is not plain, and a read of 2^31
      bytes or more. */
  lemma RegularIff(t: Trap)
    ensures !t.SysExec? && !t.SysRead? ==> Regular(t)
    ensures t.SysExec? ==> (Regular(t) <==> Fit(t.args) && Plain(t.segs))
    ensures t.SysRead? ==> (Regular(t) <==> t.count < 0x8000_0000)
  {
    hide Fit, Plain;
  }

  /** What a run stops before: a request outside the model, or a trap that breaks the invariant. */
  ghost predicate Beyond(t: Trap, s: Site, a: Moment) { !Regular(t) || BreaksAt(t, s, a) }

  /** Queue, memory and process table are in order, and agree on which slots are in use. */
  ghost predicate Good(s: Site, a: Moment)
  {
    && S.ViewOk(a.view) && InOrder(a.memory, s.start, s.end) && Agree(a.memory.slots, a.procs)
    && S.TableOk(a.procs) && S.StatusOk(a.procs, a.view.queue, a.view.current)
  }

  /** The moments of a run: the invariant holds at each, and each follows from the one before. */
  ghost predicate Linked(traps: seq<Trap>, rets: seq<int>, trace: seq<Moment>, s: Site)
  {
    && |trace| == |traps| + 1 == |rets| + 1 && Good(s, trace[0])
    && (traps != [] ==>
          && Follows(traps[0], rets[0], s, trace[0], trace[1]) && !BreaksAt(traps[0], s, trace[0])
          && Linked(traps[1..], rets[1..], trace[1..], s))
  }

  /** A run over traps that got n traps far and ended with r; free is the free list it left. */
  ghost predicate IsRunOf(traps: seq<Trap>, n: nat, r: Result, rets: seq<int>, trace: seq<Moment>, s: Site,
                          free: seq<nat>)
  {
    && n <= |traps| && Linked(traps[..n], rets, trace, s)
    && match r
       case Continue(_) => n == |traps|
       case Stopped(why) => n < |traps| && EndsFor(why, traps[n], s, trace[n], free)
       case Outside => n < |traps| && Beyond(traps[n], s, trace[n])
  }

  lemma {:induction false} NoSteps(traps: seq<Trap>, r: Result, a: Moment, s: Site, free: seq<nat>)
    requires Good(s, a)
    requires match r case Continue(_) => traps == []
                     case Stopped(why) => traps != [] && EndsFor(why, traps[0], s, a, free)
                     case Outside => traps != [] && Beyond(traps[0], s, a)
    ensures IsRunOf(traps, 0, r, [], [a], s, free)
  {
    hide EndsFor, Beyond, Good;
  }

  lemma {:induction false} OneMoreStep(traps: seq<Trap>, ret: int, a: Moment, n: nat, r: Result, rets: seq<int>,
                                       trace: seq<Moment>, s: Site, free: seq<nat>)
    requires traps != [] && IsRunOf(traps[1..], n, r, rets, trace, s, free) && Good(s, a)
    requires Follows(traps[0], ret, s, a, trace[0]) && !BreaksAt(traps[0], s, a)
    ensures IsRunOf(traps, n + 1, r, [ret] + rets, [a] + trace, s, free)
  {
    hide EndsFor, Beyond, Good, Follows, BreaksAt;
    assert traps[..n + 1][1..] == traps[1..][..n] && ([ret] + rets)[1..] == rets && ([a] + trace)[1..] == trace;
  }

  /** Every moment of a run is in order, and the kernel's frames are then what they were at the start. */
  lemma {:induction false} AllAlong(traps: seq<Trap>, rets: seq<int>, trace: seq<Moment>, s: Site, i: nat)
    requires Linked(traps, rets, trace, s) && i < |trace|
    ensures Good(s, trace[i])
    ensures KernelKept(trace[0].memory.mem, trace[0].memory.own, trace[i].memory.mem, trace[i].memory.own)
  {
    hide Good, KernelKept, S.Next, Effect, Answered;
    KernelRefl(trace[0].memory.mem, trace[0].memory.own);
    if i > 0 {
      AllAlong(traps[1..], rets[1..], trace[1..], s, i - 1);
      KernelTrans(trace[0].memory.mem, trace[0].memory.own, trace[1].memory.mem, trace[1].memory.own,
                  trace[i].memory.mem, trace[i].memory.own);
    }
  }

  function Ticks(traps: seq<Trap>): nat
  {
    if traps == [] then 0 else (if traps[0].Timer? then 1 else 0) + Ticks(traps[1..])
  }

  function Execs(traps: seq<Trap>): nat
  {
    if traps == [] then 0 else (if traps[0].SysExec? then 1 else 0) + Execs(traps[1..])
  }

  function Events(traps: seq<Trap>, rets: seq<int>): (es: seq<S.Event>)
    requires |traps| == |rets|
    ensures |es| == |traps| && TickCount(es) == Ticks(traps) && ExecCount(es) == Execs(traps)
  {
    if traps == [] then [] else
    var es := Events(traps[1..], rets[1..]);
    assert ([EventOf(traps[0], rets[0])] + es)[1..] == es;
    [EventOf(traps[0], rets[0])] + es
  }

  function Views(trace: seq<Moment>): (vs: seq<S.View>)
    ensures |vs| == |trace| && forall i :: 0 <= i < |trace| ==> vs[i] == trace[i].view
  {
    if trace == [] then [] else [trace[0].view] + Views(trace[1..])
  }

  /** The scheduler's part of a run is a run of its events. */
  lemma {:induction false} SchedulerRun(traps: seq<Trap>, rets: seq<int>, trace: seq<Moment>, s: Site)
    requires Linked(traps, rets, trace, s)
    ensures IsRun(Views(trace), Events(traps, rets))
  {
    hide S.ViewOk, S.Next, Effect, InOrder, BreaksAt, Answered, KernelKept;
    if traps != [] {
      SchedulerRun(traps[1..], rets[1..], trace[1..], s);
      assert Views(trace)[1..] == Views(trace[1..]) && Events(traps, rets)[1..] == Events(traps[1..], rets[1..]);
    }
  }

  ghost predicate NeverRuns(trace: seq<Moment>, p: nat) { forall i :: 1 <= i < |trace| ==> trace[i].view.current != p }

  /** Over any run, a process that waits at position k of the ready queue all along sees fewer than 2 * (k + 1)
      timer interrupts, plus one for each exec call, and waits on. */
  lemma {:induction false} Waits(traps: seq<Trap>, rets: seq<int>, trace: seq<Moment>, s: Site, k: nat)
    requires Linked(traps, rets, trace, s) && k < |trace[0].view.queue| && NeverRuns(trace, trace[0].view.queue[k])
    ensures Ticks(traps) < 2 * (k + 1) + Execs(traps)
    ensures trace[0].view.queue[k] in trace[|traps|].view.queue
  {
    hide IsRun, Good, Follows;
    SchedulerRun(traps, rets, trace, s);
    BoundedWaiting(Views(trace), Events(traps, rets), trace[0].view.queue[k], k);
  }

  function Allocs(traps: seq<Trap>): nat
  {
    if traps == [] then 0 else (if traps[0].SysAllocatePage? then 1 else 0) + Allocs(traps[1..])
  }

  /** All processes share one heap pointer: an allocation is answered with its start plus one page for each allocation
      before, whoever asked, and never goes back. */
  lemma {:induction false} HeapGrows(traps: seq<Trap>, rets: seq<int>, trace: seq<Moment>, s: Site, j: nat)
    requires Linked(traps, rets, trace, s) && j < |trace|
    ensures var h := (trace[0].memory.heapNext + 4096 * Allocs(traps[..j])) % TWO64;
            trace[j].memory.heapNext == h && (j < |traps| && traps[j].SysAllocatePage? ==> rets[j] == h)
  {
    hide Good, KernelKept, S.Next, BreaksAt, Answered, Effect;
    var h := trace[0].memory.heapNext;
    if j == 0 {
      Unique(h, TWO64, 0, h);
      if traps != [] { HeapStep(traps[0], rets[0], s, trace[0], trace[1]); }
    } else {
      assert traps[..j][1..] == traps[1..][..j - 1];
      HeapStep(traps[0], rets[0], s, trace[0], trace[1]);
      HeapGrows(traps[1..], rets[1..], trace[1..], s, j - 1);
      if traps[0].SysAllocatePage? { Wrapped(h, 4096, 4096 * Allocs(traps[1..][..j - 1])); }
    }
  }

  lemma HeapStep(t: Trap, ret: int, s: Site, a: Moment, b: Moment)
    requires Follows(t, ret, s, a, b)
    ensures t.SysAllocatePage? ==> ret == a.memory.heapNext && b.memory.heapNext == (a.memory.heapNext + 4096) % TWO64
    ensures !t.SysAllocatePage? ==> b.memory.heapNext == a.memory.heapNext
  {
    hide KernelKept, S.Next, Answered, ForkedMemory, Reaped, Replaced, GotPage, FreedPage, Filled, Stored;
    if t.SysRead? {
      var d := Delivered(t.bufva, 0, t.count, t.supply);
      FilledKeeps(a.view.current, t.bufva, d, ret, a.memory, b.memory);
    }
  }

  lemma FilledKeeps(p: int, bufva: u64, d: seq<byte>, ret: int, a: MemState, b: MemState)
    requires Filled(p, bufva, d, ret, a, b)
    ensures b.heapNext == a.heapNext
  {
    hide PutAll, Addresses;
  }

  lemma Wrapped(h: nat, x: nat, y: nat)
    ensures ((h + x) % TWO64 + y) % TWO64 == (h + (x + y)) % TWO64
  {
    var q, r := (h + x) / TWO64, (h + x) % TWO64;
    Unique(h + (x + y), TWO64, q + (r + y) / TWO64, (r + y) % TWO64);
  }

  /** A child that is not reaped stays its parent's, and has exited exactly if it called exit. */
  lemma {:induction false} ChildStays(traps: seq<Trap>, rets: seq<int>, trace: seq<Moment>, s: Site, c: nat, j: nat)
    requires Linked(traps, rets, trace, s) && j < |trace| && c < NPROC && |trace[0].procs| == NPROC
    requires trace[0].procs[c].status in {S.Ready, S.Zombie} && NotReaped(traps[..j], rets[..j], c)
    ensures |trace[j].procs| == NPROC && trace[j].procs[c].parent == trace[0].procs[c].parent
    ensures trace[j].procs[c].pid == trace[0].procs[c].pid && trace[j].procs[c].status in {S.Ready, S.Zombie}
    ensures trace[j].procs[c].status == S.Zombie <==>
              trace[0].procs[c].status == S.Zombie || CalledExit(traps[..j], trace[..j], c)
  {
    hide Good, KernelKept, S.Next, Effect, BreaksAt;
    if j > 0 {
      assert traps[..j][1..] == traps[1..][..j - 1] && rets[..j][1..] == rets[1..][..j - 1];
      assert trace[..j][1..] == trace[1..][..j - 1];
      OneStepLater(traps[0], rets[0], s, trace[0], trace[1], c);
      ChildStays(traps[1..], rets[1..], trace[1..], s, c, j - 1);
    }
  }

  lemma OneStepLater(t: Trap, ret: int, s: Site, a: Moment, b: Moment, c: nat)
    requires Good(s, a) && Follows(t, ret, s, a, b) && c < NPROC && a.procs[c].status in {S.Ready, S.Zombie}
    requires !(t.SysWait? && ret == c)
    ensures |b.procs| == NPROC && b.procs[c].parent == a.procs[c].parent && b.procs[c].pid == a.procs[c].pid
    ensures b.procs[c].status == if t == SysExit && a.view.current == c then S.Zombie else a.procs[c].status
  {
    hide InOrder, S.ViewOk, KernelKept, S.Next, Effect, S.HasKid, S.Reapable, S.StatusOk;
  }

  /** No wait was answered with c. */
  ghost predicate NotReaped(traps: seq<Trap>, rets: seq<int>, c: nat)
    requires |traps| == |rets|
  {
    traps != [] ==> !(traps[0].SysWait? && rets[0] == c) && NotReaped(traps[1..], rets[1..], c)
  }

  /** Process c called exit. */
  ghost predicate CalledExit(traps: seq<Trap>, trace: seq<Moment>, c: nat)
    requires |traps| == |trace|
  {
    traps != [] && ((traps[0] == SysExit && trace[0].view.current == c) || CalledExit(traps[1..], trace[1..], c))
  }

  /** Trap i is a fork answered c, and at trap j the same process asks for c; no wait in between was answered c. */
  ghost predicate ForkThenWait(traps: seq<Trap>, rets: seq<int>, trace: seq<Moment>, i: nat, j: nat, c: nat)
  {
    && i < j < |traps| == |rets| < |trace| && traps[i] == SysFork && rets[i] == c && traps[j] == SysWait(c)
    && trace[j].view.current == trace[i].view.current && NotReaped(traps[i + 1..j], rets[i + 1..j], c)
  }

  /** fork and wait: whatever happens in between, a process that asks for the child it forked, and that was not reaped
      yet, is told that it has one; it gets the child exactly if the child has called exit. */
  lemma {:induction false} WaitFindsChild(traps: seq<Trap>, rets: seq<int>, trace: seq<Moment>, s: Site, i: nat, j: nat,
                                          c: nat)
    requires ForkThenWait(traps, rets, trace, i, j, c) && Linked(traps, rets, trace, s)
    ensures rets[j] == if CalledExit(traps[i + 1..j], trace[i + 1..j], c) then c else -2
  {
    hide Good, KernelKept, S.Next, Effect, BreaksAt, S.SameTable, Linked;
    LinkedAt(traps, rets, trace, s, i);
    LinkedAt(traps, rets, trace, s, j);
    LinkedTail(traps, rets, trace, s, i + 1);
    TableSized(s, trace[i + 1]);
    TableSized(s, trace[j]);
    ChildFrom(traps, rets, trace, s, i + 1, j, c);
    AskedFor(trace[j].procs, trace[j].view.current, c, rets[j]);
  }

  ghost predicate StartsReady(traps: seq<Trap>, rets: seq<int>, trace: seq<Moment>, i: nat, j: nat, c: nat)
  {
    && i <= j <= |traps| == |rets| < |trace| && c < NPROC == |trace[i].procs| && trace[i].procs[c].status == S.Ready
    && NotReaped(traps[i..j], rets[i..j], c)
  }

  lemma {:induction false} ChildFrom(traps: seq<Trap>, rets: seq<int>, trace: seq<Moment>, s: Site, i: nat, j: nat,
                                     c: nat)
    requires StartsReady(traps, rets, trace, i, j, c) && Linked(traps[i..], rets[i..], trace[i..], s)
    ensures |trace[j].procs| == NPROC && trace[j].procs[c].parent == trace[i].procs[c].parent
    ensures trace[j].procs[c].status == if CalledExit(traps[i..j], trace[i..j], c) then S.Zombie else S.Ready
  {
    hide Linked, NotReaped, CalledExit;
    assert traps[i..][..j - i] == traps[i..j] && rets[i..][..j - i] == rets[i..j] && trace[i..][..j - i] == trace[i..j];
    ChildStays(traps[i..], rets[i..], trace[i..], s, c, j - i);
  }

  lemma {:induction false} LinkedTail(traps: seq<Trap>, rets: seq<int>, trace: seq<Moment>, s: Site, i: nat)
    requires Linked(traps, rets, trace, s) && i <= |traps|
    ensures Linked(traps[i..], rets[i..], trace[i..], s)
  {
    hide Good, Follows, BreaksAt;
    if i == 0 {
      assert traps[0..] == traps && rets[0..] == rets && trace[0..] == trace;
    } else {
      LinkedTail(traps[1..], rets[1..], trace[1..], s, i - 1);
      assert traps[1..][i - 1..] == traps[i..] && rets[1..][i - 1..] == rets[i..] && trace[1..][i - 1..] == trace[i..];
    }
  }

  lemma TableSized(s: Site, a: Moment)
    requires Good(s, a)
    ensures |a.procs| == NPROC && forall i :: 0 <= i < NPROC ==> a.procs[i].pid == i
  {
    hide InOrder, S.ViewOk;
  }

  /** Each trap of a run follows. */
  lemma {:induction false} LinkedAt(traps: seq<Trap>, rets: seq<int>, trace: seq<Moment>, s: Site, j: nat)
    requires Linked(traps, rets, trace, s) && j < |traps|
    ensures Good(s, trace[j]) && Good(s, trace[j + 1]) && Follows(traps[j], rets[j], s, trace[j], trace[j + 1])
  {
    hide Good, Follows, BreaksAt;
    if j > 0 { LinkedAt(traps[1..], rets[1..], trace[1..], s, j - 1); }
  }

  /** wait for one given child. */
  lemma AskedFor(procs: seq<S.Proc>, current: int, c: nat, ret: int)
    requires WaitAnswer(procs, current, c, ret) && 0 < c < NPROC && forall i :: 0 <= i < NPROC ==> procs[i].pid == i
    requires procs[c].parent == current && procs[c].status in {S.Ready, S.Zombie}
    ensures ret == if procs[c].status == S.Zombie then c else -2
  {
    assert S.Wanted(procs, current, c, c);
    if procs[c].status == S.Zombie {
      assert S.Reapable(procs, current, c, c);
    } else {
      forall j | 0 <= j < NPROC ensures !S.Reapable(procs, current, c, j) { }
    }
  }
}
