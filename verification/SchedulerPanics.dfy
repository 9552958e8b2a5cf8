/** When the scheduler panics, whatever the timeslice: in the steps of every run, and exactly then. */
module SchedulerPanics {
  import opened Sequences
  import opened Threads
  import opened Ring
  import opened SchedulerRuns

  // ----- one step

  lemma WaitTicksPanicsExactlyWhen(r: seq<Tcb>, ticks: nat)
    requires r != [] && Inv(r, UINT32_MAX) && ticks < UINT32_SIZE
    ensures WaitTicks(r, 0, ticks).Panicked() <==>
              ticks == UINT32_MAX - 1 && |r| > 1 && forall i :: 1 <= i < |r| ==> r[i].status == WaitingFor
  {
    assert forall i: nat :: i < |r| ==> Sound(r, i, UINT32_MAX) && r[i].waiting <= UINT32_MAX;
    if ticks > 0 && |r| > 1 {
      var q := r[0 := Asleep(r[0], (ticks + 1) % UINT32_SIZE)];
      PanicsExactlyWhen(q);
      assert forall i :: 1 <= i < |r| ==> q[i] == r[i];
    }
  }

  /** With any timeslice, and waits up to 32 bits: a timed wait panics exactly when the timeslice is a single
      millisecond, the request is 0xfffffffe milliseconds and everybody else is blocked. */
  lemma WaitPanicsExactlyWhen(r: seq<Tcb>, millis: nat, timeslice: nat)
    requires r != [] && Inv(r, UINT32_MAX) && millis < UINT32_SIZE && timeslice > 0
    ensures WaitMillis(r, 0, millis, timeslice).Panicked() <==>
              && timeslice == 1 && millis == 0xffff_fffe && |r| > 1
              && forall i :: 1 <= i < |r| ==> r[i].status == WaitingFor
  {
    if timeslice >= 2 {
      TicksBound(millis, timeslice);
    } else {
      assert millis / timeslice == millis;
    }
    WaitTicksPanicsExactlyWhen(r, millis / timeslice);
  }

  /** A thread that goes leaves the next one asleep for 2^32-1 ticks, and everybody else blocked, not on itself. */
  predicate StrandsSleeper(r: seq<Tcb>) {
    && |r| > 1 && !r[0].main
    && r[1].status == Waiting && r[1].waiting == UINT32_MAX
    && forall i :: 2 <= i < |r| ==> r[i].status == WaitingFor && r[i].target != r[0].id
  }

  lemma ExitPanicsExactlyWhen(r: seq<Tcb>)
    requires r != [] && Inv(r, UINT32_MAX)
    ensures ExitSelf(r).Panicked() <==> StrandsSleeper(r)
  {
    if !r[0].main && |r| > 1 {
      var q := Release(r[1..], r[0].id);
      assert forall i: nat :: i < |r| ==> Sound(r, i, UINT32_MAX) && r[i].waiting <= UINT32_MAX;
      assert forall i :: 1 <= i < |r| ==> q[i - 1] == ReleaseOne(r[i], r[0].id);
      var m: nat :| IsOnlyMain(r, m);
      assert q[m - 1].main;
      PanicsExactlyWhen(q);
      if StrandsSleeper(r) {
        assert forall i :: 1 <= i < |q| ==> q[i] == ReleaseOne(r[i + 1], r[0].id);
      } else if forall i :: 1 <= i < |q| ==> q[i].status == WaitingFor {
        forall i | 2 <= i < |r| ensures r[i].status == WaitingFor && r[i].target != r[0].id {
          assert q[i - 1].status == WaitingFor;
        }
      }
    }
  }

  /** The steps that panic: a wait whose count comes to 2^32-1, which takes a timeslice of 1, with everybody else
      blocked; and the going of a thread that leaves such a sleeper behind. */
  predicate Panics(r: seq<Tcb>, e: Event, timeslice: nat) {
    r != [] &&
    match e
    case Wait(millis) =>
      timeslice == 1 && millis == 0xffff_fffe && |r| > 1 && forall i :: 1 <= i < |r| ==> r[i].status == WaitingFor
    case Exit => StrandsSleeper(r)
    case Delete(t) => t == r[0].id && StrandsSleeper(r)
    case _ => false
  }

  lemma StepPanicsExactlyWhen(r: seq<Tcb>, e: Event, timeslice: nat)
    requires timeslice > 0 && Inv(r, UINT32_MAX) && Legal(r, e)
    ensures Step(r, e, timeslice).Panicked() <==> Panics(r, e, timeslice)
  {
    if r != [] {
      CountsFit(r);
      match e
      case Wait(millis) => WaitPanicsExactlyWhen(r, millis, timeslice);
      case Exit => ExitPanicsExactlyWhen(r);
      case Delete(t) => if t == r[0].id { ExitPanicsExactlyWhen(r); }
      case WaitFor(t) =>
        var m: nat :| m < |r| && r[m].main;
        assert r[0 := Blocked(r[0], t)][m].main;
        if t != r[0].id { AwakePanicsNever(r[0 := Blocked(r[0], t)]); }
      case Tick => if |r| > 1 { AwakePanicsNever(r); }
      case _ =>
    }
  }

  lemma CountsFit(r: seq<Tcb>)
    requires r != [] && Inv(r, UINT32_MAX)
    ensures forall i :: 0 <= i < |r| ==> r[i].waiting <= UINT32_MAX
    ensures exists m: nat :: m < |r| && r[m].main
  {
    forall i | 0 <= i < |r| ensures r[i].waiting <= UINT32_MAX {
      assert Sound(r, i, UINT32_MAX);
    }
    var m: nat :| IsOnlyMain(r, m);
    assert r[m].main;
  }

  /** With main there, and the running thread not asleep, scheduling does not panic. */
  lemma AwakePanicsNever(q: seq<Tcb>)
    requires q != [] && q[0].status != Waiting && exists m: nat :: m < |q| && q[m].main
    requires forall i :: 0 <= i < |q| ==> q[i].waiting <= UINT32_MAX
    ensures !Schedule(q).Panicked()
  {
    PanicsExactlyWhen(q);
  }

  // ----- runs

  /** Steps that do not panic keep the ring well formed with any timeslice, but for waits with no ticks left. */
  lemma StepKeepsAnyInv(r: seq<Tcb>, e: Event, timeslice: nat)
    requires timeslice > 0 && Inv(r, UINT32_MAX) && Legal(r, e) && !Step(r, e, timeslice).Panicked()
    ensures Inv(Step(r, e, timeslice).ring, UINT32_MAX)
  {
    if r == [] {
      if e.Enable? {
        assert IsOnlyMain([NewTcb(e.t).(main := true)], 0);
      }
    } else if HandedOver(r, e, timeslice) == [] {
      Returning(r, e, timeslice, UINT32_MAX);
    } else {
      HandingOver(r, e, timeslice, UINT32_MAX);
      ScheduleKeeps(HandedOver(r, e, timeslice), UINT32_MAX);
    }
  }

  lemma {:induction false} RunKeepsAnyInv(r: seq<Tcb>, es: seq<Event>, timeslice: nat, z: seq<Tcb>)
    requires timeslice > 0 && Inv(r, UINT32_MAX) && Run(r, es, timeslice, z)
    ensures Inv(z, UINT32_MAX)
    decreases |es|
  {
    if es != [] {
      StepKeepsAnyInv(r, es[0], timeslice);
      RunKeepsAnyInv(Step(r, es[0], timeslice).ring, es[1..], timeslice, z);
    }
  }

  /** After any run, with any timeslice, the next step panics exactly when it is one of these. */
  lemma EveryRunPanicsExactlyWhen(es: seq<Event>, timeslice: nat, z: seq<Tcb>, e: Event)
    requires timeslice > 0 && Run([], es, timeslice, z) && Legal(z, e)
    ensures Step(z, e, timeslice).Panicked() <==> Panics(z, e, timeslice)
  {
    RunKeepsAnyInv([], es, timeslice, z);
    StepPanicsExactlyWhen(z, e, timeslice);
  }

  // ----- counts that wrap

  /** Every waiting thread has ticks left. */
  predicate Counted(r: seq<Tcb>) {
    forall i :: 0 <= i < |r| ==> (r[i].status == Waiting ==> r[i].waiting > 0)
  }

  lemma ScheduleKeepsCounted(q: seq<Tcb>)
    requires Counted(q) && !Schedule(q).Panicked()
    ensures Counted(Schedule(q).ring)
  {
  }

  /** A timed wait leaves a thread waiting with no ticks exactly when its count wraps, for 0xffffffff milliseconds and a
      timeslice of one, while another thread can run. */
  lemma WaitLosesCountExactlyWhen(r: seq<Tcb>, millis: nat, timeslice: nat)
    requires r != [] && Inv(r, UINT32_MAX) && Counted(r) && timeslice > 0 && millis < UINT32_SIZE
    requires !Step(r, Wait(millis), timeslice).Panicked()
    ensures !Counted(Step(r, Wait(millis), timeslice).ring) <==>
              && timeslice == 1 && millis == 0xffff_ffff
              && exists i :: 1 <= i < |r| && r[i].status == Runnable
  {
    if millis / timeslice != 0 && |r| > 1 {
      var q := r[0 := Asleep(r[0], Ticks(millis, timeslice))];
      CountWrapsExactlyWhen(millis, timeslice);
      CountsFit(r);
      if q[0].waiting > 0 {
        ScheduleKeepsCounted(q);
      } else {
        WrappedWait(r, q);
      }
    }
  }

  lemma CountWrapsExactlyWhen(millis: nat, timeslice: nat)
    requires millis < UINT32_SIZE && timeslice > 0
    ensures Ticks(millis, timeslice) == 0 <==> timeslice == 1 && millis == 0xffff_ffff
  {
    if timeslice >= 2 {
      TicksBound(millis, timeslice);
    } else {
      assert millis / timeslice == millis;
    }
  }

  lemma WrappedWait(r: seq<Tcb>, q: seq<Tcb>)
    requires |r| > 1 && Counted(r) && q == r[0 := Asleep(r[0], 0)] && !Schedule(q).Panicked()
    requires forall i :: 0 <= i < |r| ==> r[i].waiting <= UINT32_MAX
    ensures !Counted(Schedule(q).ring) <==> exists i :: 1 <= i < |r| && r[i].status == Runnable
  {
    var k := FirstRunnable(q);
    if k < |q| {
      assert q[k] == r[k];
      assert Rotate(q, k)[|q| - k] == q[0];
    } else {
      LeastWaiterIs(q);
      assert forall i :: 1 <= i < |r| ==> q[i] == r[i];
      var w := LeastWaiter(q);
      assert Elapse(q, q[w].waiting)[0].status == Runnable;
      assert Counted(Elapse(q, q[w].waiting));
    }
  }
}
