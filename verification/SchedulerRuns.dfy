/** What every run of the scheduler keeps. */
module SchedulerRuns {
  import opened Sequences
  import opened Threads
  import opened Ring

  /** The longest wait a 32-bit `millis` can ask for when a timeslice has at least two milliseconds. */
  const MAX_TICKS := 0x8000_0000

  ghost predicate Distinct(r: seq<Tcb>) {
    forall i, j :: 0 <= i < j < |r| ==> r[i].id != r[j].id
  }

  ghost predicate IsOnlyMain(r: seq<Tcb>, m: nat) {
    m < |r| && forall i :: 0 <= i < |r| ==> (r[i].main <==> i == m)
  }

  ghost predicate WaitsFor(r: seq<Tcb>, i: nat, j: nat) {
    i < |r| && j < |r| && i != j && r[i].status == WaitingFor && r[i].target == r[j].id
  }

  /** Waiting exactly when there are ticks left; blocked only on another live thread.  Where counts may fill 32 bits,
      one may also have wrapped: a thread may be waiting with none left. */
  ghost predicate Sound(r: seq<Tcb>, i: nat, maxTicks: nat)
    requires i < |r|
  {
    && (r[i].waiting > 0 ==> r[i].status == Waiting)
    && (r[i].status == Waiting ==> r[i].waiting > 0 || maxTicks == UINT32_MAX)
    && r[i].waiting <= maxTicks
    && (r[i].status == WaitingFor ==> exists j: nat :: WaitsFor(r, i, j))
  }

  ghost predicate Well(r: seq<Tcb>, maxTicks: nat) {
    && Distinct(r)
    && (exists m: nat :: IsOnlyMain(r, m))
    && forall i: nat :: i < |r| ==> Sound(r, i, maxTicks)
  }

  /** Between scheduler calls: scheduling is off, or a well-formed ring whose running thread is awake.  Only main
      can run while blocked, which is what the deadlock fallback does. */
  ghost predicate Inv(r: seq<Tcb>, maxTicks: nat) {
    r == [] || (Well(r, maxTicks) && (r[0].status == Runnable || (r[0].status == WaitingFor && r[0].main)))
  }

  // ----- the pieces a step is made of keep the ring well formed

  lemma WellRotated(r: seq<Tcb>, k: nat, b: nat)
    requires Well(r, b) && k < |r|
    ensures Well(Rotate(r, k), b)
  {
    var q := Rotate(r, k);
    var n := |r|;
    var m: nat :| IsOnlyMain(r, m);
    assert IsOnlyMain(q, if m >= k then m - k else m - k + n);
    forall i: nat | i < n
      ensures Sound(q, i, b)
    {
      var i0 := if i + k < n then i + k else i + k - n;
      assert Sound(r, i0, b);
      if q[i].status == WaitingFor {
        var j: nat :| WaitsFor(r, i0, j);
        assert WaitsFor(q, i, if j >= k then j - k else j - k + n);
      }
    }
  }

  lemma WellElapsed(r: seq<Tcb>, ticks: nat, b: nat)
    requires Well(r, b)
    ensures Well(Elapse(r, ticks), b)
  {
    var q := Elapse(r, ticks);
    var m: nat :| IsOnlyMain(r, m);
    assert IsOnlyMain(q, m);
    forall i: nat | i < |r|
      ensures Sound(q, i, b)
    {
      assert Sound(r, i, b);
      if q[i].status == WaitingFor {
        var j: nat :| WaitsFor(r, i, j);
        assert WaitsFor(q, i, j);
      }
    }
  }

  /** Removing thread k, not main, and releasing those who waited for it. */
  lemma WellRemoved(r: seq<Tcb>, k: nat, b: nat)
    requires Well(r, b) && k < |r| && !r[k].main
    ensures Well(Release(Without(r, k), r[k].id), b)
  {
    var w := Without(r, k);
    var q := Release(w, r[k].id);
    var m: nat :| IsOnlyMain(r, m);
    assert IsOnlyMain(q, if m < k then m else m - 1);
    forall i: nat | i < |q|
      ensures Sound(q, i, b)
    {
      var i0 := if i < k then i else i + 1;
      assert w[i] == r[i0];
      assert Sound(r, i0, b);
      if q[i].status == WaitingFor {
        var j: nat :| WaitsFor(r, i0, j);
        assert j != k;
        assert WaitsFor(q, i, if j < k then j else j - 1);
      }
    }
  }

  lemma WellInserted(r: seq<Tcb>, t: SvcThread, b: nat)
    requires Well(r, b) && r != [] && PlaceOf(r, t) == |r|
    ensures Well(Insert(r, NewTcb(t)), b)
  {
    var q := Insert(r, NewTcb(t));
    var m: nat :| IsOnlyMain(r, m);
    assert IsOnlyMain(q, if m == 0 then 0 else m + 1);
    forall i: nat | i < |q|
      ensures Sound(q, i, b)
    {
      if i != 1 {
        var i0 := if i == 0 then 0 else i - 1;
        assert Sound(r, i0, b);
        if q[i].status == WaitingFor {
          var j: nat :| WaitsFor(r, i0, j);
          assert WaitsFor(q, i, if j == 0 then 0 else j + 1);
        }
      }
    }
  }

  /** The running thread goes to sleep. */
  lemma WellAsleep(r: seq<Tcb>, ticks: nat, b: nat)
    requires Well(r, b) && r != [] && ticks <= b && (ticks > 0 || b == UINT32_MAX)
    ensures Well(r[0 := Asleep(r[0], ticks)], b)
  {
    var q := r[0 := Asleep(r[0], ticks)];
    var m: nat :| IsOnlyMain(r, m);
    assert IsOnlyMain(q, m);
    forall i: nat | i < |q|
      ensures Sound(q, i, b)
    {
      assert Sound(r, i, b);
      if q[i].status == WaitingFor {
        var j: nat :| WaitsFor(r, i, j);
        assert WaitsFor(q, i, j);
      }
    }
  }

  /** The running thread blocks on another live thread. */
  lemma WellBlocked(r: seq<Tcb>, target: SvcThread, b: nat)
    requires Well(r, b) && r != [] && r[0].status != Waiting
    requires 0 < PlaceOf(r, target) < |r|
    ensures Well(r[0 := Blocked(r[0], target)], b)
  {
    var q := r[0 := Blocked(r[0], target)];
    var m: nat :| IsOnlyMain(r, m);
    assert IsOnlyMain(q, m);
    forall i: nat | i < |q|
      ensures Sound(q, i, b)
    {
      assert Sound(r, i, b);
      if i == 0 {
        assert WaitsFor(q, 0, PlaceOf(r, target));
      } else if q[i].status == WaitingFor {
        var j: nat :| WaitsFor(r, i, j);
        assert WaitsFor(q, i, j);
      }
    }
  }

  // ----- the choice

  /** r[w] waits least, and nobody behind it waits as little. */
  ghost predicate IsLastLeast(r: seq<Tcb>, w: nat) {
    && w < |r| && r[w].status == Waiting
    && forall i :: 0 <= i < |r| && r[i].status == Waiting ==>
         r[w].waiting <= r[i].waiting && (i > w ==> r[w].waiting < r[i].waiting)
  }

  /** The scan misses only in one case: the running thread alone sleeps, for 0xffffffff ticks. */
  lemma {:induction false} LeastWaiterIs(r: seq<Tcb>)
    requires forall i :: 0 <= i < |r| ==> r[i].waiting <= UINT32_MAX
    ensures LeastWaiter(r) >= 0 ==> IsLastLeast(r, LeastWaiter(r))
    ensures LeastWaiter(r) == 0 ==> r[0].waiting < UINT32_MAX
    ensures LeastWaiter(r) < 0 ==> forall i :: 0 <= i < |r| && r[i].status == Waiting ==>
                                     i == 0 && r[i].waiting == UINT32_MAX
  {
    if r != [] {
      var n := |r| - 1;
      LeastWaiterIs(r[..n]);
      assert forall i :: 0 <= i < n ==> r[..n][i] == r[i];
    }
  }

  /** When the scheduler panics, whatever the ring. */
  lemma PanicsExactlyWhen(r: seq<Tcb>)
    requires forall i :: 0 <= i < |r| ==> r[i].waiting <= UINT32_MAX
    ensures Schedule(r).NoWaiter? <==>
              && r != [] && r[0].status == Waiting && r[0].waiting == UINT32_MAX
              && forall i :: 1 <= i < |r| ==> r[i].status == WaitingFor
    ensures Schedule(r).NoMain? <==> forall i :: 0 <= i < |r| ==> r[i].status == WaitingFor && !r[i].main
  {
    LeastWaiterIs(r);
    var k := FirstRunnable(r);
    if k == |r| {
      if SomeWaiting(r) {
        var i :| 0 <= i < |r| && r[i].status == Waiting;
        if LeastWaiter(r) < 0 {
          assert i == 0;
          assert forall j :: 1 <= j < |r| ==> r[j].status != Runnable && r[j].status != Waiting;
        }
      } else {
        var m := FirstMain(r);
        if m < |r| {
          assert r[m].main;
        }
      }
    } else {
      assert r[k].status == Runnable;
    }
  }

  /** Unless it panics, the scheduler resumes a thread and leaves the invariant. */
  lemma ScheduleKeeps(r: seq<Tcb>, b: nat)
    requires Well(r, b) && b <= UINT32_MAX && !Schedule(r).Panicked()
    ensures var o := Schedule(r); o.Resumed? && |o.ring| == |r| && Inv(o.ring, b)
  {
    assert forall i: nat :: i < |r| ==> Sound(r, i, b) && r[i].waiting <= b;
    PanicsExactlyWhen(r);
    var k := FirstRunnable(r);
    if k < |r| {
      WellRotated(r, k, b);
    } else if SomeWaiting(r) {
      var w := LeastWaiter(r);
      WellElapsed(r, r[w].waiting, b);
      WellRotated(Elapse(r, r[w].waiting), w, b);
    } else {
      var m: nat :| IsOnlyMain(r, m);
      assert r[m].main;
      WellRotated(r, m, b);
    }
  }

  lemma NeverPanics(r: seq<Tcb>, b: nat)
    requires Well(r, b) && b < UINT32_MAX
    ensures !Schedule(r).Panicked()
  {
    forall i | 0 <= i < |r| ensures r[i].waiting < UINT32_MAX {
      assert Sound(r, i, b);
    }
    var m: nat :| IsOnlyMain(r, m);
    assert r[m].main;
    PanicsExactlyWhen(r);
  }

  /** The scheduler's choice is total: on every well-formed ring it resumes a thread and leaves the invariant. */
  lemma ScheduleResumes(r: seq<Tcb>, b: nat)
    requires Well(r, b) && b < UINT32_MAX
    ensures var o := Schedule(r); o.Resumed? && |o.ring| == |r| && Inv(o.ring, b)
  {
    NeverPanics(r, b);
    ScheduleKeeps(r, b);
  }

  /** A runnable thread goes first, the nearest behind the running one. */
  lemma ChoosesNearestRunnable(r: seq<Tcb>, c: nat)
    requires c < |r| && r[c].status == Runnable && forall i :: 0 <= i < c ==> r[i].status != Runnable
    ensures Schedule(r) == Resumed(Rotate(r, c), 0)
  {
    var k := FirstRunnable(r);
    assert !(k < c) && !(c < k);
  }

  /** Next the shortest sleeper, the farthest one when several wait as little; all sleepers are charged its wait. */
  lemma ChoosesShortestSleeper(r: seq<Tcb>, c: nat)
    requires forall i :: 0 <= i < |r| ==> r[i].waiting < UINT32_MAX && r[i].status != Runnable
    requires IsLastLeast(r, c)
    ensures Schedule(r) == Resumed(Rotate(Elapse(r, r[c].waiting), c), r[c].waiting)
  {
    LeastWaiterIs(r);
    var w := LeastWaiter(r);
    assert IsLastLeast(r, w);
    assert !(w < c) && !(c < w);
  }

  /** With everybody blocked, main. */
  lemma FallsBackToMain(r: seq<Tcb>, c: nat)
    requires forall i :: 0 <= i < |r| ==> r[i].status == WaitingFor
    requires IsOnlyMain(r, c)
    ensures Schedule(r) == Resumed(Rotate(r, c), 0)
  {
    assert r[c].main;
  }

  // ----- deadlock

  /** A walk along the wait-for relation over distinct threads. */
  ghost predicate IsWalk(r: seq<Tcb>, p: seq<nat>) {
    && p != []
    && (forall a, b :: 0 <= a < b < |p| ==> p[a] != p[b])
    && (forall a :: 0 <= a < |p| ==> p[a] < |r|)
    && forall a :: 0 <= a < |p| - 1 ==> WaitsFor(r, p[a], p[a + 1])
  }

  /** From thread `start`, waiting leads into the cycle p[from..] of at least two threads. */
  ghost predicate LeadsToCycle(r: seq<Tcb>, start: nat, p: seq<nat>, from: nat) {
    && IsWalk(r, p) && p[0] == start
    && from + 2 <= |p|
    && WaitsFor(r, p[|p| - 1], p[from])
  }

  ghost predicate WaitsOnCycle(r: seq<Tcb>, start: nat) {
    exists p: seq<nat>, from: nat :: LeadsToCycle(r, start, p, from)
  }

  lemma {:induction false} Pigeons(p: seq<nat>, n: nat)
    requires forall a, b :: 0 <= a < b < |p| ==> p[a] != p[b]
    requires forall a :: 0 <= a < |p| ==> p[a] < n
    ensures |p| <= n
    decreases |p|
  {
    if p != [] {
      var x := p[|p| - 1];
      // rename n-1 to x, so that the shorter list lives below n-1
      var q := seq(|p| - 1, a requires 0 <= a < |p| - 1 => if p[a] == n - 1 then x else p[a]);
      Pigeons(q, n - 1);
    }
  }

  lemma WalkOn(r: seq<Tcb>, p: seq<nat>, b: nat) returns (q: seq<nat>, from: nat)
    requires Well(r, b) && IsWalk(r, p)
    requires forall i :: 0 <= i < |r| ==> r[i].status == WaitingFor
    ensures LeadsToCycle(r, p[0], q, from)
    decreases |r| - |p|
  {
    Pigeons(p, |r|);
    var last := p[|p| - 1];
    assert Sound(r, last, b);
    var j: nat :| WaitsFor(r, last, j);
    if a :| 0 <= a < |p| && p[a] == j {
      q, from := p, a;
    } else {
      Pigeons(p + [j], |r|);
      q, from := WalkOn(r, p + [j], b);
    }
  }

  /** A deadlock verdict is sound: when nobody is runnable and nobody sleeps, every thread waits, directly or
      through others, on a cycle of at least two threads waiting for each other. */
  lemma DeadlockIsReal(r: seq<Tcb>, b: nat)
    requires Well(r, b)
    requires FirstRunnable(r) == |r| && !SomeWaiting(r)
    ensures forall i: nat :: i < |r| ==> WaitsOnCycle(r, i)
  {
    forall i: nat | i < |r|
      ensures WaitsOnCycle(r, i)
    {
      var p, from := WalkOn(r, [i], b);
    }
  }

  // ----- steps and runs

  datatype Event =
    | Enable(t: SvcThread)
    | Create(t: SvcThread)
    | Wait(millis: nat)
    | WaitFor(target: SvcThread)
    | Delete(t: SvcThread)
    | Exit
    | Tick
    | Disable

  /** A created thread is not in the ring yet, times are 32-bit, and a thread waited for is alive.  Enabling a ring that
      runs makes no thread. */
  predicate Legal(r: seq<Tcb>, e: Event) {
    match e
    case Enable(_) => true
    case Create(t) => PlaceOf(r, t) == |r|
    case Wait(millis) => millis < UINT32_SIZE
    case WaitFor(t) => r == [] || PlaceOf(r, t) < |r|
    case _ => true
  }

  /** The system calls, issued by the running thread, and the timer interrupt. */
  ghost function Step(r: seq<Tcb>, e: Event, timeslice: nat): Outcome
    requires timeslice > 0
  {
    if r == [] then (if e.Enable? then Returned([NewTcb(e.t).(main := true)]) else Returned(r))
    else
      match e
      case Enable(_) => Returned(r)
      case Create(t) => Returned(Insert(r, NewTcb(t)))
      case Wait(millis) => WaitMillis(r, 0, millis, timeslice)
      case WaitFor(t) => WaitThread(r, 0, t)
      case Delete(t) => Remove(r, t)
      case Exit => ExitSelf(r)
      case Tick => Preempt(r)
      case Disable => Returned(if r[0].main then [] else r)
  }

  /** What a running thread that asks for `millis` is charged, in 32 bits. */
  function Ticks(millis: nat, timeslice: nat): nat
    requires timeslice > 0
  {
    (millis / timeslice + 1) % UINT32_SIZE
  }

  lemma TicksBound(millis: nat, timeslice: nat)
    requires millis < UINT32_SIZE && timeslice >= 2
    ensures Ticks(millis, timeslice) == millis / timeslice + 1 <= MAX_TICKS
  {
    var q := millis / timeslice;
    assert q * timeslice <= millis;
    assert q * timeslice == q * 2 + q * (timeslice - 2);
    assert q * (timeslice - 2) >= 0;
  }

  /** The ring a step hands to `Schedule`; a step that returns hands over nothing. */
  ghost function HandedOver(r: seq<Tcb>, e: Event, timeslice: nat): seq<Tcb>
    requires r != [] && timeslice > 0
  {
    match e
    case Wait(millis) =>
      if millis / timeslice == 0 || |r| == 1 then []
      else r[0 := Asleep(r[0], Ticks(millis, timeslice))]
    case WaitFor(t) => if t == r[0].id then [] else r[0 := Blocked(r[0], t)]
    case Delete(t) => if t != r[0].id || r[0].main || |r| == 1 then [] else Release(r[1..], t)
    case Exit => if r[0].main || |r| == 1 then [] else Release(r[1..], r[0].id)
    case Tick => if |r| == 1 then [] else r
    case _ => []
  }

  /** How far counts go: to 32 bits, or with a timeslice of two milliseconds half as far. */
  predicate Bounds(timeslice: nat, b: nat) {
    timeslice > 0 && (b == UINT32_MAX || (b == MAX_TICKS && timeslice >= 2))
  }

  lemma HandingOver(r: seq<Tcb>, e: Event, timeslice: nat, b: nat)
    requires Bounds(timeslice, b) && r != [] && Inv(r, b) && Legal(r, e)
    requires HandedOver(r, e, timeslice) != []
    ensures var q := HandedOver(r, e, timeslice); Well(q, b) && Step(r, e, timeslice) == Schedule(q)
  {
    match e
    case Wait(millis) =>
      if b == MAX_TICKS { TicksBound(millis, timeslice); }
      WellAsleep(r, Ticks(millis, timeslice), b);
    case WaitFor(t) =>
      assert Sound(r, 0, b);
      WellBlocked(r, t, b);
    case Delete(t) =>
      assert Without(r, 0) == r[1..];
      WellRemoved(r, 0, b);
    case Exit =>
      assert Without(r, 0) == r[1..];
      WellRemoved(r, 0, b);
    case Tick =>
  }

  lemma Returning(r: seq<Tcb>, e: Event, timeslice: nat, b: nat)
    requires Bounds(timeslice, b) && r != [] && Inv(r, b) && Legal(r, e)
    requires HandedOver(r, e, timeslice) == []
    ensures var o := Step(r, e, timeslice); o.Returned? && Inv(o.ring, b)
  {
    match e
    case Create(t) => WellInserted(r, t, b);
    case Delete(t) =>
      var k := PlaceOf(r, t);
      if 0 < k < |r| && !r[k].main {
        WellRemoved(r, k, b);
      }
    case _ =>
  }

  /** No legal step panics, and every legal step keeps the invariant. */
  lemma StepKeepsInv(r: seq<Tcb>, e: Event, timeslice: nat)
    requires Inv(r, MAX_TICKS) && Legal(r, e) && timeslice >= 2
    ensures var o := Step(r, e, timeslice); !o.Panicked() && Inv(o.ring, MAX_TICKS)
  {
    if r == [] {
      if e.Enable? {
        assert IsOnlyMain([NewTcb(e.t).(main := true)], 0);
      }
    } else if HandedOver(r, e, timeslice) == [] {
      Returning(r, e, timeslice, MAX_TICKS);
    } else {
      HandingOver(r, e, timeslice, MAX_TICKS);
      ScheduleResumes(HandedOver(r, e, timeslice), MAX_TICKS);
    }
  }

  /** `es` is a run of legal steps, without a panic, from ring r to ring z. */
  ghost predicate Run(r: seq<Tcb>, es: seq<Event>, timeslice: nat, z: seq<Tcb>)
    requires timeslice > 0
    decreases es
  {
    if es == [] then z == r
    else
      && Legal(r, es[0])
      && var o := Step(r, es[0], timeslice);
         !o.Panicked() && Run(o.ring, es[1..], timeslice, z)
  }

  lemma {:induction false} RunKeepsInv(r: seq<Tcb>, es: seq<Event>, timeslice: nat, z: seq<Tcb>)
    requires timeslice >= 2 && Inv(r, MAX_TICKS) && Run(r, es, timeslice, z)
    ensures Inv(z, MAX_TICKS)
    decreases es
  {
    if es != [] {
      StepKeepsInv(r, es[0], timeslice);
      RunKeepsInv(Step(r, es[0], timeslice).ring, es[1..], timeslice, z);
    }
  }

  /** In every state a run reaches from the start, the next legal step does not panic; and a step that resumes a
      blocked thread resumes main, in a genuine deadlock. */
  lemma EveryRunIsSafe(es: seq<Event>, timeslice: nat, z: seq<Tcb>, e: Event)
    requires timeslice >= 2 && Run([], es, timeslice, z) && Legal(z, e)
    ensures Inv(z, MAX_TICKS)
    ensures var o := Step(z, e, timeslice);
            && !o.Panicked()
            && Inv(o.ring, MAX_TICKS)
            && (o.Resumed? && o.ring != [] && o.ring[0].status != Runnable ==>
                  && o.ring[0].main
                  && forall i: nat :: i < |o.ring| ==> WaitsOnCycle(o.ring, i))
  {
    RunKeepsInv([], es, timeslice, z);
    StepKeepsInv(z, e, timeslice);
    var o := Step(z, e, timeslice);
    if o.Resumed? && o.ring != [] && o.ring[0].status != Runnable {
      StepResumesBlocked(z, e, timeslice);
      DeadlockIsReal(o.ring, MAX_TICKS);
    }
  }

  /** Only the deadlock fallback resumes a thread that is not runnable. */
  lemma ResumesBlocked(q: seq<Tcb>)
    requires Well(q, MAX_TICKS)
    requires var o := Schedule(q); o.Resumed? && |o.ring| > 0 && o.ring[0].status != Runnable
    ensures var z := Schedule(q).ring; FirstRunnable(z) == |z| && !SomeWaiting(z)
  {
    var k := FirstRunnable(q);
    assert k == |q|;
    if SomeWaiting(q) {
      assert false;
    }
    var m := FirstMain(q);
    assert forall i :: 0 <= i < |q| ==> Rotate(q, m)[i] in q;
  }

  lemma StepResumesBlocked(r: seq<Tcb>, e: Event, timeslice: nat)
    requires timeslice >= 2 && Inv(r, MAX_TICKS) && Legal(r, e)
    requires var o := Step(r, e, timeslice); o.Resumed? && |o.ring| > 0 && o.ring[0].status != Runnable
    ensures var z := Step(r, e, timeslice).ring; FirstRunnable(z) == |z| && !SomeWaiting(z)
  {
    if HandedOver(r, e, timeslice) == [] {
      Returning(r, e, timeslice, MAX_TICKS);
    } else {
      HandingOver(r, e, timeslice, MAX_TICKS);
      ResumesBlocked(HandedOver(r, e, timeslice));
    }
  }

  // ----- sleep accounting

  function SleptBy(o: Outcome): nat {
    if o.Resumed? then o.slept else 0
  }

  /** All the ticks slept during a run. */
  ghost function TotalSlept(r: seq<Tcb>, es: seq<Event>, timeslice: nat): nat
    requires timeslice > 0
    decreases es
  {
    if es == [] then 0
    else
      var o := Step(r, es[0], timeslice);
      SleptBy(o) + if o.Panicked() then 0 else TotalSlept(o.ring, es[1..], timeslice)
  }

  /** t is in the ring, asleep with `left` ticks to go, or just awake when there are none. */
  ghost predicate Owes(r: seq<Tcb>, t: SvcThread, left: nat) {
    exists i :: 0 <= i < |r| && r[i].id == t && r[i].waiting == left && r[i].status == if left > 0 then Waiting else Runnable
  }

  /** Every sleep is a real one, happens only when nobody can run, and wakes exactly the shortest sleepers. */
  lemma SleepWakes(q: seq<Tcb>)
    requires Well(q, MAX_TICKS) && FirstRunnable(q) == |q| && SomeWaiting(q)
    ensures var o := Schedule(q);
            && o.Resumed? && o.slept > 0 && |o.ring| == |q|
            && o.ring[0].status == Runnable
            && exists w: nat :: IsLastLeast(q, w) && o.slept == q[w].waiting && o.ring == Rotate(Elapse(q, o.slept), w)
  {
    ScheduleResumes(q, MAX_TICKS);
    assert forall j: nat :: j < |q| ==> Sound(q, j, MAX_TICKS) && q[j].waiting <= MAX_TICKS;
    LeastWaiterIs(q);
    var w: nat := LeastWaiter(q);
    assert IsLastLeast(q, w);
  }

  lemma OwesRotated(r: seq<Tcb>, k: nat, i: nat, left: nat)
    requires k < |r| && i < |r| && r[i].waiting == left && r[i].status == if left > 0 then Waiting else Runnable
    ensures Owes(Rotate(r, k), r[i].id, left)
  {
    assert Rotate(r, k)[if i >= k then i - k else i - k + |r|] == r[i];
  }

  lemma ScheduleCharges(q: seq<Tcb>, i: nat)
    requires Well(q, MAX_TICKS) && i < |q| && q[i].status == Waiting
    ensures var o := Schedule(q); o.Resumed? && o.slept <= q[i].waiting && Owes(o.ring, q[i].id, q[i].waiting - o.slept)
  {
    assert Sound(q, i, MAX_TICKS);
    var k := FirstRunnable(q);
    if k < |q| {
      OwesRotated(q, k, i, q[i].waiting);
    } else {
      assert SomeWaiting(q);
      SleepWakes(q);
      var w: nat :| IsLastLeast(q, w) && Schedule(q).ring == Rotate(Elapse(q, Schedule(q).slept), w)
                    && Schedule(q).slept == q[w].waiting;
      OwesRotated(Elapse(q, q[w].waiting), w, i, q[i].waiting - q[w].waiting);
    }
  }

  /** One step charges a sleeper exactly what the step slept. */
  lemma StepCharges(r: seq<Tcb>, e: Event, timeslice: nat, t: SvcThread, left: nat)
    requires timeslice >= 2 && Inv(r, MAX_TICKS) && Legal(r, e) && left > 0 && Owes(r, t, left)
    requires e != Delete(t) && e != Disable
    ensures var o := Step(r, e, timeslice);
            !o.Panicked() && SleptBy(o) <= left && Owes(o.ring, t, left - SleptBy(o))
  {
    var i :| 0 <= i < |r| && r[i].id == t && r[i].waiting == left && r[i].status == Waiting;
    assert i > 0;
    if HandedOver(r, e, timeslice) == [] {
      Returning(r, e, timeslice, MAX_TICKS);
      ReturningKeepsSleeper(r, e, timeslice, i);
    } else {
      HandingOver(r, e, timeslice, MAX_TICKS);
      var j := HandingOverKeepsSleeper(r, e, timeslice, i);
      ScheduleCharges(HandedOver(r, e, timeslice), j);
    }
  }

  lemma HandingOverKeepsSleeper(r: seq<Tcb>, e: Event, timeslice: nat, i: nat) returns (j: nat)
    requires timeslice > 0 && 0 < i < |r| && r[i].status == Waiting && HandedOver(r, e, timeslice) != []
    ensures var q := HandedOver(r, e, timeslice); j < |q| && q[j] == r[i]
  {
    j := if e.Delete? || e.Exit? then i - 1 else i;
  }

  lemma ReturningKeepsSleeper(r: seq<Tcb>, e: Event, timeslice: nat, i: nat)
    requires timeslice >= 2 && Inv(r, MAX_TICKS) && Legal(r, e) && 0 < i < |r| && r[i].status == Waiting
    requires HandedOver(r, e, timeslice) == [] && e != Delete(r[i].id) && e != Disable
    ensures var z := Step(r, e, timeslice).ring; exists j :: 0 <= j < |z| && z[j] == r[i]
  {
    var z := Step(r, e, timeslice).ring;
    if e.Create? {
      assert z[i + 1] == r[i];
    } else if e.Delete? && 0 < PlaceOf(r, e.t) < |r| && !r[PlaceOf(r, e.t)].main {
      assert z[if i < PlaceOf(r, e.t) then i else i - 1] == r[i];
    } else {
      assert z[i] == r[i];
    }
  }

  /** The books of a sleeper over a whole run: what is left is what was owed less everything slept since, and the
      thread turns runnable in exactly the step that brings the slept total to the amount owed. */
  lemma {:induction false} SleeperIsCharged(r: seq<Tcb>, es: seq<Event>, timeslice: nat, z: seq<Tcb>, t: SvcThread, left: nat)
    requires timeslice >= 2 && Inv(r, MAX_TICKS) && Run(r, es, timeslice, z)
    requires Owes(r, t, left) && left > 0
    requires forall e :: e in es ==> e != Delete(t) && e != Disable
    requires forall n :: 0 <= n < |es| ==> TotalSlept(r, es[..n], timeslice) < left
    ensures TotalSlept(r, es, timeslice) <= left
    ensures Owes(z, t, left - TotalSlept(r, es, timeslice))
    decreases es
  {
    if es != [] {
      var o := Step(r, es[0], timeslice);
      var s := SleptBy(o);
      StepKeepsInv(r, es[0], timeslice);
      assert es[0] in es && forall e :: e in es[1..] ==> e in es;
      StepCharges(r, es[0], timeslice, t, left);
      if |es| > 1 {
        assert es[..1][0] == es[0] && es[..1][1..] == [];
        assert TotalSlept(r, es[..1], timeslice) == s + TotalSlept(o.ring, [], timeslice);
        forall n | 0 <= n < |es[1..]|
          ensures TotalSlept(o.ring, es[1..][..n], timeslice) < left - s
        {
          assert es[..n + 1][0] == es[0] && es[..n + 1][1..] == es[1..][..n];
        }
        SleeperIsCharged(o.ring, es[1..], timeslice, z, t, left - s);
      }
    }
  }

  /** A running thread that asks for `millis` is owed millis/timeslice + 1 ticks, counted from the request itself. */
  lemma RequestIsCharged(r: seq<Tcb>, millis: nat, es: seq<Event>, timeslice: nat, z: seq<Tcb>)
    requires timeslice >= 2 && Inv(r, MAX_TICKS) && |r| > 1 && millis / timeslice > 0
    requires Run(r, [Wait(millis)] + es, timeslice, z)
    requires forall e :: e in es ==> e != Delete(r[0].id) && e != Disable
    requires forall n :: 0 <= n < |es| ==> TotalSlept(r, [Wait(millis)] + es[..n], timeslice) < millis / timeslice + 1
    ensures var owed := millis / timeslice + 1; var slept := TotalSlept(r, [Wait(millis)] + es, timeslice);
            slept <= owed && Owes(z, r[0].id, owed - slept)
  {
    var e, owed := Wait(millis), millis / timeslice + 1;
    TicksBound(millis, timeslice);
    HandingOver(r, e, timeslice, MAX_TICKS);
    ScheduleCharges(HandedOver(r, e, timeslice), 0);
    StepKeepsInv(r, e, timeslice);
    var o := Step(r, e, timeslice);
    assert ([e] + es)[1..] == es;
    forall n | 0 <= n < |es|
      ensures TotalSlept(o.ring, es[..n], timeslice) < owed - o.slept
    {
      assert ([e] + es[..n])[1..] == es[..n];
    }
    if es != [] {
      assert TotalSlept(o.ring, es[..0], timeslice) == 0;
      SleeperIsCharged(o.ring, es, timeslice, z, r[0].id, owed - o.slept);
    }
  }
}
