/** The process table and the ready queue of kernel/process.c and kernel/sched.c. Pointers into
    procs[] are slot numbers, -1 for null. */
module Scheduler {
  import opened Lists

  const NPROC: nat := 32
  const TIME_SLICE_LEN: nat := 2
  const NULL: int := -1

  datatype Status = Free | Ready | Running | Blocked | Zombie

  datatype Proc = Proc(pid: nat, status: Status, parent: int, next: int, tick: int)

  datatype Outcome = Dispatched | Shutdown | Halted

  /** The i-th slot of the queue, null past the end. */
  function Link(queue: seq<nat>, i: nat): int { if i < |queue| then queue[i] else NULL }

  /** Following queue_next from head visits exactly the slots of queue, in order, and ends in null. */
  ghost predicate IsQueue(procs: seq<Proc>, head: int, queue: seq<nat>)
  {
    && NoDup(queue)
    && head == Link(queue, 0)
    && forall i :: 0 <= i < |queue| ==> queue[i] < |procs| && procs[queue[i]].next == Link(queue, i + 1)
  }

  /** READY means queued or running; RUNNING and BLOCKED are never used. */
  ghost predicate StatusOk(procs: seq<Proc>, queue: seq<nat>, current: int)
  {
    forall i :: 0 <= i < |procs| ==>
      && (procs[i].status == Ready <==> i in queue || i == current)
      && procs[i].status in {Free, Ready, Zombie}
  }

  /** pid is the slot number, a free slot has no parent, and slot 0 is taken and has none. */
  ghost predicate TableOk(procs: seq<Proc>)
  {
    && |procs| == NPROC
    && procs[0].parent == NULL && procs[0].status != Free
    && forall i :: 0 <= i < NPROC ==>
         && procs[i].pid == i
         && (procs[i].status == Free ==> procs[i].parent == NULL)
         && NULL <= procs[i].parent < NPROC
         && 0 <= procs[i].tick < TIME_SLICE_LEN
  }

  lemma QueuePop(procs: seq<Proc>, head: int, queue: seq<nat>)
    requires IsQueue(procs, head, queue) && queue != []
    ensures IsQueue(procs, procs[queue[0]].next, queue[1..])
    ensures queue[0] !in queue[1..]
  {
    var rest := queue[1..];
    forall i | 0 <= i < |rest| ensures rest[i] < |procs| && procs[rest[i]].next == Link(rest, i + 1) {
      assert rest[i] == queue[i + 1];
    }
  }

  lemma QueueOne(procs: seq<Proc>, p: nat)
    requires p < |procs| && procs[p].next == NULL
    ensures IsQueue(procs, p, [p])
  {
  }

  lemma TableSize(procs: seq<Proc>)
    requires TableOk(procs)
    ensures |procs| == NPROC
  {
  }

  lemma QueueHead(procs: seq<Proc>, head: int, queue: seq<nat>)
    requires IsQueue(procs, head, queue)
    ensures head == NULL <==> queue == []
    ensures queue != [] ==> queue[0] < |procs|
  {
  }

  /** procs with p linked behind slot at, READY and last. */
  function Appended(procs: seq<Proc>, at: nat, p: nat): seq<Proc>
    requires at < |procs| && p < |procs|
  {
    var procs1 := procs[at := procs[at].(next := p)];
    procs1[p := procs1[p].(status := Ready, next := NULL)]
  }

  lemma QueuePush(procs: seq<Proc>, head: int, queue: seq<nat>, p: nat)
    requires IsQueue(procs, head, queue) && p !in queue && p < |procs| && queue != []
    ensures var at := queue[|queue| - 1];
            && at < |procs| && IsQueue(Appended(procs, at, p), head, queue + [p])
            && SameRecords(procs, Appended(procs, at, p))
            && forall i :: 0 <= i < |procs| ==>
                 Appended(procs, at, p)[i].status == if i == p then Ready else procs[i].status
  {
    var at, queue' := queue[|queue| - 1], queue + [p];
    var procs' := Appended(procs, at, p);
    forall i | 0 <= i < |queue'| ensures queue'[i] < |procs'| && procs'[queue'[i]].next == Link(queue', i + 1) {
      if i < |queue| { assert queue'[i] == queue[i] != p; }
    }
  }

  /** Fields of slots outside the queue do not matter to it, nor do the other fields of its members. */
  lemma QueueFrame(procs: seq<Proc>, head: int, queue: seq<nat>, procs': seq<Proc>)
    requires IsQueue(procs, head, queue) && |procs'| == |procs|
    requires forall i :: 0 <= i < |procs| && i in queue ==> procs'[i].next == procs[i].next
    ensures IsQueue(procs', head, queue)
  {
  }

  /** Everything but status and link is unchanged. */
  ghost predicate SameRecords(procs: seq<Proc>, procs': seq<Proc>)
  {
    && |procs'| == |procs|
    && forall i :: 0 <= i < |procs| ==>
         procs'[i].pid == procs[i].pid && procs'[i].parent == procs[i].parent && procs'[i].tick == procs[i].tick
  }

  predicate Reapable(procs: seq<Proc>, current: int, pid: int, i: nat)
    requires i < |procs|
  {
    Wanted(procs, current, pid, i) && procs[i].status == Zombie
  }

  /** One of the first n slots is a child asked for. */
  ghost predicate HasKid(procs: seq<Proc>, current: int, pid: int, n: nat)
    requires n <= |procs|
  {
    exists j :: 0 <= j < n && Wanted(procs, current, pid, j)
  }

  lemma NoKids(procs: seq<Proc>, current: int, pid: int)
    ensures !HasKid(procs, current, pid, 0)
  {
  }

  lemma KidStep(procs: seq<Proc>, current: int, pid: int, i: nat)
    requires i < |procs|
    ensures HasKid(procs, current, pid, i + 1) <==> HasKid(procs, current, pid, i) || Wanted(procs, current, pid, i)
    ensures Wanted(procs, current, pid, i) <==> procs[i].parent == current && !(pid > 0 && pid != procs[i].pid)
    ensures Reapable(procs, current, pid, i) <==> Wanted(procs, current, pid, i) && procs[i].status == Zombie
  {
    if HasKid(procs, current, pid, i) {
      var j :| 0 <= j < i && Wanted(procs, current, pid, j);
      assert j < i + 1;
    }
  }

  /** The same processes, in the same state, with the same parents: only links and used slices may differ. */
  ghost predicate SameTable(procs: seq<Proc>, procs': seq<Proc>)
  {
    && |procs'| == |procs|
    && forall i :: 0 <= i < |procs| ==>
         procs'[i].status == procs[i].status && procs'[i].pid == procs[i].pid && procs'[i].parent == procs[i].parent
  }

  function Ticks(procs: seq<Proc>): seq<int> { seq(|procs|, i requires 0 <= i < |procs| => procs[i].tick) }

  /** The running process goes to the rear and the front of the queue runs: READY still means queued
      or running. */
  lemma Rotated(procs: seq<Proc>, queue: seq<nat>, current: nat, procs': seq<Proc>)
    requires TableOk(procs) && StatusOk(procs, queue, current) && current < NPROC && current !in queue
    requires queue != [] ==> queue[0] < NPROC
    requires SameRecords(procs, procs')
    requires forall i :: 0 <= i < |procs'| ==> procs'[i].status == if i == current then Ready else procs[i].status
    ensures TableOk(procs') && Ticks(procs') == Ticks(procs) && SameTable(procs, procs')
    ensures var q := queue + [current];
            StatusOk(procs', q[1..], q[0]) && q[0] < NPROC && procs'[q[0]].status == Ready
  {
    var q := queue + [current];
    assert procs[current].status == Ready;
    forall i | 0 <= i < |procs| ensures i in queue || i == current <==> i in q[1..] || i == q[0] {
      assert i in q <==> i in q[1..] || i == q[0];
    }
  }

  lemma NotQueued(procs: seq<Proc>, queue: seq<nat>, current: int, c: nat)
    requires StatusOk(procs, queue, current) && c < |procs| && procs[c].status != Ready
    ensures c !in queue && c != current
  {
  }

  lemma SliceBounds(procs: seq<Proc>, current: nat)
    requires TableOk(procs) && current < NPROC
    ensures |procs| == NPROC && 0 <= procs[current].tick < TIME_SLICE_LEN
    ensures |Ticks(procs)| == NPROC && Ticks(procs)[current] == procs[current].tick
  {
  }

  lemma SliceSet(procs: seq<Proc>, head: int, queue: seq<nat>, current: nat, t: nat)
    requires TableOk(procs) && StatusOk(procs, queue, current) && IsQueue(procs, head, queue)
    requires current < NPROC && t < TIME_SLICE_LEN
    ensures var procs' := procs[current := procs[current].(tick := t)];
            && TableOk(procs') && StatusOk(procs', queue, current) && IsQueue(procs', head, queue)
            && Ticks(procs') == Ticks(procs)[current := t] && SameTable(procs, procs')
  {
  }

  lemma TableRefl(procs: seq<Proc>)
    ensures SameTable(procs, procs)
  {
  }

  lemma SameTableTrans(a: seq<Proc>, b: seq<Proc>, c: seq<Proc>)
    requires SameTable(a, b) && SameTable(b, c)
    ensures SameTable(a, c)
  {
  }

  /** A new child at the rear of the queue. */
  lemma ChildAdded(procs: seq<Proc>, queue: seq<nat>, current: nat, c: nat, procs': seq<Proc>)
    requires TableOk(procs) && StatusOk(procs, queue, current) && current < NPROC && c < NPROC
    requires procs[c].status == Free
    requires SameRecords(procs[c := procs[c].(status := Ready, parent := current, tick := 0)], procs')
    requires forall i :: 0 <= i < |procs'| ==> procs'[i].status == if i == c then Ready else procs[i].status
    ensures c > 0 && c !in queue && c != current && procs'[c].pid == c && procs'[c].parent == current
    ensures TableOk(procs') && StatusOk(procs', queue + [c], current) && Ticks(procs') == Ticks(procs)[c := 0]
    ensures SameTable(procs[c := procs'[c]], procs')
  {
  }

  /** Slot i is a child of current that wait(pid) asks for. */
  predicate Wanted(procs: seq<Proc>, current: int, pid: int, i: nat)
    requires i < |procs|
  {
    procs[i].parent == current && (pid <= 0 || pid == procs[i].pid)
  }

  /** What scheduling depends on: who waits, who runs, and the ticks each slot has used of its slice. */
  datatype View = View(queue: seq<nat>, current: nat, tick: seq<int>)

  datatype Event = Tick | Yield | Exit | Fork(child: nat) | Reap(child: nat) | Exec | Other

  ghost predicate ViewOk(a: View)
  {
    && |a.tick| == NPROC && a.current < NPROC && a.current !in a.queue && NoDup(a.queue)
    && (forall i :: 0 <= i < |a.queue| ==> a.queue[i] < NPROC)
    && (forall i :: 0 <= i < NPROC ==> 0 <= a.tick[i] < TIME_SLICE_LEN)
  }

  /** The head of the queue runs. */
  ghost predicate Dispatches(queue: seq<nat>, b: View) { queue != [] && b.current == queue[0] && b.queue == queue[1..] }

  ghost predicate Next(a: View, e: Event, b: View)
  {
    ViewOk(a) && match e
    case Tick =>
      var t := a.tick[a.current] + 1;
      if t < TIME_SLICE_LEN then b == a.(tick := a.tick[a.current := t])
      else Dispatches(a.queue + [a.current], b) && b.tick == a.tick[a.current := 0]
    case Yield => Dispatches(a.queue + [a.current], b) && b.tick == a.tick
    case Exit => Dispatches(a.queue, b) && b.tick == a.tick
    case Fork(c) =>
      c < NPROC && c !in a.queue && c != a.current && b == a.(queue := a.queue + [c], tick := a.tick[c := 0])
    case Reap(c) => c < NPROC && c !in a.queue && c != a.current && b == a.(tick := a.tick[c := 0])
    case Exec => b == a.(tick := a.tick[a.current := 0])
    case Other => b == a
  }

  lemma TickNext(a: View, b: View, m: View)
    requires ViewOk(a) && a.current < |a.tick|
    requires if a.tick[a.current] + 1 < TIME_SLICE_LEN then b == a.(tick := a.tick[a.current := a.tick[a.current] + 1])
             else m == a.(tick := a.tick[a.current := 0]) && Next(m, Yield, b)
    ensures Next(a, Tick, b)
  {
    hide ViewOk;
  }

  lemma YieldNext(a: View, b: View)
    requires ViewOk(a) && Dispatches(a.queue + [a.current], b) && b.tick == a.tick
    ensures Next(a, Yield, b)
  {
    hide ViewOk;
  }

  lemma ExitNext(a: View, b: View)
    requires ViewOk(a) && Dispatches(a.queue, b) && b.tick == a.tick
    ensures Next(a, Exit, b)
  {
    hide ViewOk;
  }

  lemma ForkNext(a: View, c: nat, b: View)
    requires ViewOk(a) && c < NPROC == |a.tick| && c !in a.queue && c != a.current
    requires b == a.(queue := a.queue + [c], tick := a.tick[c := 0])
    ensures Next(a, Fork(c), b)
  {
    hide ViewOk;
  }

  lemma ReapNext(a: View, c: nat, b: View)
    requires ViewOk(a) && c < NPROC == |a.tick| && c !in a.queue && c != a.current && b == a.(tick := a.tick[c := 0])
    ensures Next(a, Reap(c), b)
  {
    hide ViewOk;
  }

  lemma ExecNext(a: View, b: View)
    requires ViewOk(a) && a.current < |a.tick| && b == a.(tick := a.tick[a.current := 0])
    ensures Next(a, Exec, b)
  {
    hide ViewOk;
  }

  /** A zombie slot freed. */
  lemma SlotFreed(procs: seq<Proc>, head: int, queue: seq<nat>, current: nat, c: nat)
    requires TableOk(procs) && StatusOk(procs, queue, current) && IsQueue(procs, head, queue) && current < NPROC
    requires c < NPROC && procs[c].status == Zombie && procs[c].parent == current
    ensures c > 0 && c !in queue && c != current && procs[c].pid == c
    ensures var procs' := procs[c := Proc(c, Free, NULL, NULL, 0)];
            && TableOk(procs') && StatusOk(procs', queue, current) && IsQueue(procs', head, queue)
            && Ticks(procs') == Ticks(procs)[c := 0]
  {
  }

  /** The running process exited. */
  lemma Exited(procs: seq<Proc>, head: int, queue: seq<nat>, current: nat)
    requires TableOk(procs) && StatusOk(procs, queue, current) && IsQueue(procs, head, queue)
    requires current < NPROC && current !in queue
    ensures var procs' := procs[current := procs[current].(status := Zombie)];
            && TableOk(procs') && IsQueue(procs', head, queue) && Ticks(procs') == Ticks(procs)
            && (queue != [] ==> queue[0] < NPROC && procs'[queue[0]].status == Ready)
            && (queue != [] ==> StatusOk(procs', queue[1..], queue[0]))
            && (queue == [] ==> forall i :: 0 <= i < NPROC ==> procs'[i].status in {Free, Zombie})
  {
    if queue != [] { assert forall i :: i in queue <==> i == queue[0] || i in queue[1..]; }
  }

  class Scheduler {
    var procs: seq<Proc>
    var head: int
    var current: int
    ghost var queue: seq<nat>

    ghost predicate QueueOk()
      reads this
    {
      IsQueue(procs, head, queue)
    }

    ghost predicate Valid()
      reads this
    {
      && QueueOk() && TableOk(procs) && StatusOk(procs, queue, current)
      && 0 <= current < NPROC && current !in queue
    }

    /** The walk of insert_to_ready_queue: looks for p, and ends at the last element if it is not there. */
    method Walk(p: nat) returns (found: bool, at: nat)
      requires QueueOk() && head != NULL
      ensures found <==> p in queue
      ensures !found ==> at == queue[|queue| - 1]
    {
      at := head;
      ghost var k := 0;
      while procs[at].next != NULL
        invariant 0 <= k < |queue| && at == queue[k] && p !in queue[..k]
        decreases |queue| - k
      {
        if at == p { return true, at; }
        assert procs[queue[k]].next == Link(queue, k + 1);
        at, k := procs[at].next, k + 1;
      }
      assert procs[queue[k]].next == Link(queue, k + 1);
      assert queue == queue[..k] + [queue[k]];
      found := at == p;
    }

    /** insert_to_ready_queue: appends p unless it is already there. */
    method Insert(p: nat)
      requires QueueOk() && p < |procs|
      modifies this`procs, this`head, this`queue
      ensures QueueOk() && SameRecords(old(procs), procs) && |procs| == |old(procs)|
      ensures queue == if p in old(queue) then old(queue) else old(queue) + [p]
      ensures forall i :: 0 <= i < |procs| ==>
                procs[i].status == if i == p && p !in old(queue) then Ready else old(procs)[i].status
    {
      QueueHead(procs, head, queue);
      hide IsQueue, Appended;
      if head == NULL {
        procs := procs[p := procs[p].(status := Ready, next := NULL)];
        head, queue := p, [p];
        QueueOne(procs, p);
        return;
      }
      var found, at := Walk(p);
      if found { return; }
      QueuePush(procs, head, queue, p);
      procs := procs[at := procs[at].(next := p)];
      procs := procs[p := procs[p].(status := Ready, next := NULL)];
      assert procs == Appended(old(procs), at, p);
      queue := queue + [p];
    }

    ghost function Shown(): View
      reads this
    {
      View(queue, if current < 0 then 0 else current, Ticks(procs))
    }

    lemma ShownOk()
      requires Valid()
      ensures ViewOk(Shown()) && TableOk(procs) && StatusOk(procs, Shown().queue, Shown().current)
    {
    }

    lemma Facts()
      requires Valid()
      ensures |procs| == NPROC && 0 <= current < NPROC && procs[current].status == Ready
    {
    }

    /** schedule. An empty queue shuts the machine down if nobody is left, and is not handled otherwise. */
    method Schedule() returns (r: Outcome)
      requires QueueOk() && |procs| == NPROC
      modifies this`head, this`current, this`queue
      ensures queue == old(queue) == [] || old(queue) != []
      ensures old(queue) == [] ==>
                unchanged(this) && (r == Shutdown <==> forall i :: 0 <= i < NPROC ==> procs[i].status in {Free, Zombie})
                                   && r != Dispatched
      ensures old(queue) != [] ==>
                current == old(queue)[0] && (r == Dispatched <==> procs[current].status == Ready) && r != Shutdown
      ensures r == Dispatched ==> QueueOk() && queue == old(queue)[1..] && current !in queue
    {
      if head == NULL {
        var shouldShutdown := true;
        for i := 0 to NPROC
          invariant shouldShutdown <==> forall j :: 0 <= j < i ==> procs[j].status in {Free, Zombie}
        {
          if procs[i].status != Free && procs[i].status != Zombie { shouldShutdown := false; }
        }
        return if shouldShutdown then Shutdown else Halted;
      }
      current := head;
      if procs[current].status != Ready { return Halted; }
      QueuePop(procs, head, queue);
      head, queue := procs[current].next, queue[1..];
      r := Dispatched;
    }

    method SetSlice(t: nat)
      requires Valid() && t < TIME_SLICE_LEN
      modifies this`procs
      ensures Valid() && procs == old(procs)[current := old(procs)[current].(tick := t)]
      ensures SameTable(old(procs), procs)
      ensures |old(Shown()).tick| == NPROC && Shown() == old(Shown()).(tick := old(Shown()).tick[current := t])
    {
      hide IsQueue, TableOk, StatusOk, Ticks, SameTable;
      SliceBounds(procs, current);
      SliceSet(procs, head, queue, current, t);
      procs := procs[current := procs[current].(tick := t)];
    }

    /** rrsched, on a timer tick. */
    method RrSched() returns (r: Outcome)
      requires Valid()
      modifies this
      ensures r == Dispatched && Valid() && Next(old(Shown()), Tick, Shown()) && SameTable(old(procs), procs)
    {
      hide IsQueue, TableOk, StatusOk, Ticks, ViewOk, Next, SameTable;
      SliceBounds(procs, current);
      if procs[current].tick + 1 >= TIME_SLICE_LEN {
        r := SliceOver();
      } else {
        ShownOk();
        ghost var a := Shown();
        SetSlice(procs[current].tick + 1);
        TickNext(a, Shown(), a);
        r := Dispatched;
      }
    }

    method SliceOver() returns (r: Outcome)
      requires Valid() && procs[current].tick + 1 >= TIME_SLICE_LEN
      modifies this
      ensures r == Dispatched && Valid() && Next(old(Shown()), Tick, Shown()) && SameTable(old(procs), procs)
    {
      hide IsQueue, TableOk, StatusOk, Ticks, ViewOk, Next, SameTable;
      SliceBounds(procs, current);
      ShownOk();
      ghost var a := Shown();
      SetSlice(0);
      ghost var mid, procs1 := Shown(), procs;
      r := Rotate();
      SameTableTrans(old(procs), procs1, procs);
      TickNext(a, Shown(), mid);
    }

    /** insert_to_ready_queue(current) and schedule. */
    method Rotate() returns (r: Outcome)
      requires Valid()
      modifies this
      ensures r == Dispatched && Valid() && Next(old(Shown()), Yield, Shown()) && SameTable(old(procs), procs)
    {
      ShownOk();
      QueueHead(procs, head, queue);
      hide IsQueue, TableOk, StatusOk, SameRecords, Ticks, ViewOk, Next;
      ghost var a := Shown();
      TableSize(procs);
      Insert(current);
      Rotated(old(procs), old(queue), old(current), procs);
      r := Schedule();
      YieldNext(a, Shown());
    }

    /** sys_user_yield. */
    method DoYield() returns (r: Outcome)
      requires Valid()
      modifies this
      ensures r == Dispatched && Valid() && Next(old(Shown()), Yield, Shown()) && SameTable(old(procs), procs)
    {
      r := Rotate();
    }

    /** sys_user_exit: free_process, then schedule. The unhandled case of schedule is not reached. */
    method DoExit() returns (r: Outcome)
      requires Valid()
      modifies this
      ensures r == if old(queue) == [] then Shutdown else Dispatched
      ensures procs == old(procs)[old(current) := old(procs)[old(current)].(status := Zombie)]
      ensures r == Dispatched ==> Valid() && Next(old(Shown()), Exit, Shown())
    {
      ShownOk();
      hide IsQueue, TableOk, StatusOk, SameRecords, Ticks, ViewOk, Next;
      ghost var a := Shown();
      TableSize(procs);
      Exited(procs, head, queue, current);
      procs := procs[current := procs[current].(status := Zombie)];
      r := Schedule();
      if r == Dispatched { ExitNext(a, Shown()); }
    }

    /** alloc_process's search: the first free slot, or -1 (the kernel panics). */
    method FindFree() returns (i: int)
      requires |procs| == NPROC
      ensures i == -1 ==> forall j :: 0 <= j < NPROC ==> procs[j].status != Free
      ensures i != -1 ==>
                0 <= i < NPROC && procs[i].status == Free && forall j :: 0 <= j < i ==> procs[j].status != Free
    {
      i := 0;
      while i < NPROC
        invariant 0 <= i <= NPROC && forall j :: 0 <= j < i ==> procs[j].status != Free
      {
        if procs[i].status == Free { return; }
        i := i + 1;
      }
      i := -1;
    }

    /** The end of do_fork: child c of the running process becomes READY and is queued. */
    method AddChild(c: nat) returns (pid: nat)
      requires Valid() && c < NPROC && procs[c].status == Free
      modifies this
      ensures Valid() && Next(old(Shown()), Fork(c), Shown()) && current == old(current)
      ensures pid == c > 0 && procs[c].status == Ready && procs[c].parent == current && procs[c].pid == c
      ensures SameTable(old(procs)[c := procs[c]], procs)
    {
      hide IsQueue, TableOk, StatusOk, SameRecords, SameTable, Ticks, ViewOk, Next;
      ShownOk();
      SliceBounds(procs, current);
      NotQueued(procs, queue, current, c);
      ghost var a := Shown();
      procs := procs[c := procs[c].(status := Ready, parent := current, tick := 0)];
      QueueFrame(old(procs), head, queue, procs);
      Insert(c);
      ChildAdded(old(procs), old(queue), old(current), c, procs);
      ForkNext(a, c, Shown());
      pid := procs[c].pid;
    }

    /** realloc_process's effect on the slot: the time slice starts again. */
    method ResetSlice()
      requires Valid()
      modifies this
      ensures Valid() && Next(old(Shown()), Exec, Shown()) && current == old(current)
      ensures procs == old(procs)[current := old(procs)[current].(tick := 0)]
    {
      ShownOk();
      hide ViewOk, Next, IsQueue, TableOk, StatusOk, Ticks, SameTable;
      ghost var a := Shown();
      SetSlice(0);
      ExecNext(a, Shown());
    }

    /** The search of do_wait: the first zombie child of the running process that pid asks for; without
        one, -1 if no child is asked for at all and -2 if one is but it has not exited. */
    method FindZombie(pid: int) returns (i: int)
      requires |procs| == NPROC
      ensures 0 <= i ==> i < NPROC && Reapable(procs, current, pid, i)
      ensures forall j :: 0 <= j < i ==> !Reapable(procs, current, pid, j)
      ensures i < 0 ==> forall j :: 0 <= j < NPROC ==> !Reapable(procs, current, pid, j)
      ensures i < 0 ==> i == if HasKid(procs, current, pid, NPROC) then -2 else -1
    {
      hide Wanted, HasKid, Reapable;
      var havekids := false;
      NoKids(procs, current, pid);
      i := 0;
      while i < NPROC
        invariant 0 <= i <= NPROC
        invariant forall j :: 0 <= j < i ==> !Reapable(procs, current, pid, j)
        invariant havekids == HasKid(procs, current, pid, i)
      {
        KidStep(procs, current, pid, i);
        if procs[i].parent == current && !(pid > 0 && pid != procs[i].pid) {
          havekids := true;
          if procs[i].status == Zombie { return; }
        }
        i := i + 1;
      }
      i := if havekids then -2 else -1;
    }

    /** The end of do_wait: slot c is free again. */
    method FreeSlot(c: nat)
      requires Valid() && c < NPROC && procs[c].status == Zombie && procs[c].parent == current
      modifies this
      ensures Valid() && Next(old(Shown()), Reap(c), Shown()) && current == old(current) && c > 0
      ensures procs == old(procs)[c := Proc(c, Free, NULL, NULL, 0)]
    {
      ShownOk();
      hide IsQueue, TableOk, StatusOk, SameRecords, Ticks, ViewOk, Next;
      ghost var a := Shown();
      SliceBounds(procs, current);
      SlotFreed(procs, head, queue, current, c);
      procs := procs[c := procs[c].(status := Free, parent := NULL, next := NULL, tick := 0)];
      ReapNext(a, c, Shown());
    }

    /** init_proc_pool, then insert_to_ready_queue and schedule of the first process, in slot 0. */
    constructor ()
      ensures Valid() && queue == [] && current == 0 && forall i :: 0 < i < NPROC ==> procs[i].status == Free
      ensures |procs| == 32
    {
      procs := seq(NPROC, i requires 0 <= i => Proc(i, Free, NULL, NULL, 0));
      head, current, queue := NULL, NULL, [];
      new;
      Insert(0);
      var r := Schedule();
    }
  }
}
