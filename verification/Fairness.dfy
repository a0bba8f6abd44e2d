/** Bounded waiting under the round-robin scheduler, over every interleaving of timer ticks, yields,
    exits, forks, reaped children and exec calls. */
module Fairness {
  import opened Scheduler

  /** A run: each view follows from the one before by its event. */
  ghost predicate IsRun(views: seq<View>, events: seq<Event>)
  {
    && |views| == |events| + 1 && ViewOk(views[0])
    && (events != [] ==> Next(views[0], events[0], views[1]) && IsRun(views[1..], events[1..]))
  }

  function TickCount(events: seq<Event>): nat
  {
    if events == [] then 0 else (if events[0].Tick? then 1 else 0) + TickCount(events[1..])
  }

  function ExecCount(events: seq<Event>): nat
  {
    if events == [] then 0 else (if events[0].Exec? then 1 else 0) + ExecCount(events[1..])
  }

  /** Every event keeps the scheduler's invariant. */
  lemma NextKeepsOk(a: View, e: Event, b: View)
    requires ViewOk(a) && Next(a, e, b)
    ensures ViewOk(b)
  {
    var q := a.queue + [a.current];
    assert forall i :: 0 <= i < |q| ==> q[i] < NPROC;
  }

  /** Ticks that may still pass before the process at position k runs, execs aside. */
  function Patience(a: View, k: nat): int
    requires ViewOk(a)
  {
    2 * k + (TIME_SLICE_LEN - a.tick[a.current])
  }

  /** One event either dispatches the process at position k or leaves it queued no further back, with
      at least one tick less to wait if the event was a tick, and at most one more if it was an exec. */
  lemma WaitStep(a: View, e: Event, b: View, k: nat) returns (k': nat)
    requires ViewOk(a) && ViewOk(b) && Next(a, e, b) && k < |a.queue| && b.current != a.queue[k]
    ensures k' <= k && k' < |b.queue| && b.queue[k'] == a.queue[k]
    ensures (if e.Tick? then 1 else 0) + Patience(b, k') <= Patience(a, k) + (if e.Exec? then 1 else 0)
  {
    var q := a.queue + [a.current];
    k' := if b.queue == a.queue || e.Fork? then k else k - 1;
  }

  /** The process at position k of the ready queue is dispatched within 2 * (k + 1) ticks plus one for
      each exec call made meanwhile: a run that does not dispatch it has fewer, and it still waits. */
  lemma {:induction false} BoundedWaiting(views: seq<View>, events: seq<Event>, p: nat, k: nat)
    requires IsRun(views, events) && k < |views[0].queue| && views[0].queue[k] == p
    requires forall i :: 1 <= i < |views| ==> views[i].current != p
    ensures TickCount(events) < 2 * (k + 1) + ExecCount(events)
    ensures p in views[|events|].queue
  {
    BoundedPatience(views, events, p, k);
  }

  lemma {:induction false} BoundedPatience(views: seq<View>, events: seq<Event>, p: nat, k: nat)
    requires IsRun(views, events) && k < |views[0].queue| && views[0].queue[k] == p
    requires forall i :: 1 <= i < |views| ==> views[i].current != p
    ensures TickCount(events) + 1 <= Patience(views[0], k) + ExecCount(events)
    ensures p in views[|events|].queue
  {
    if events != [] {
      var k' := WaitStep(views[0], events[0], views[1], k);
      forall i | 1 <= i < |views[1..]| ensures views[1..][i].current != p { assert views[1..][i] == views[i + 1]; }
      BoundedPatience(views[1..], events[1..], p, k');
      assert views[1..][|events[1..]|] == views[|events|];
    }
  }

  /** The state after n timer ticks and nothing else. */
  ghost function AfterTicks(a: View, n: nat): (b: View)
    requires ViewOk(a)
    ensures ViewOk(b)
    decreases n
  {
    if n == 0 then a else
    var q, t := a.queue + [a.current], a.tick[a.current] + 1;
    var b := if t < TIME_SLICE_LEN then a.(tick := a.tick[a.current := t])
             else View(q[1..], q[0], a.tick[a.current := 0]);
    NextKeepsOk(a, Tick, b);
    AfterTicks(b, n - 1)
  }

  /** The bound is exact: with fresh slices and ticks only, position k waits 2 * (k + 1) ticks, not fewer. */
  lemma {:induction false} BoundReached(a: View, p: nat, k: nat, n: nat)
    requires ViewOk(a) && k < |a.queue| && a.queue[k] == p && n <= 2 * (k + 1)
    requires forall i :: 0 <= i < NPROC ==> a.tick[i] == 0
    ensures AfterTicks(a, n).current == p <==> n == 2 * (k + 1)
    decreases k
  {
    var q := a.queue + [a.current];
    var a1 := a.(tick := a.tick[a.current := 1]);
    var a2 := View(q[1..], q[0], a.tick);
    if n >= 2 {
      assert a1.tick[a.current := 0] == a.tick;
      assert AfterTicks(a, n) == AfterTicks(a1, n - 1) == AfterTicks(a2, n - 2);
      if k > 0 {
        assert a2.queue[k - 1] == p;
        BoundReached(a2, p, k - 1, n - 2);
      }
    } else if n == 1 {
      assert AfterTicks(a, 1) == AfterTicks(a1, 0) == a1;
    }
  }
}
