/** The kernel-thread scheduler on the heap: a circular list of threads threaded through `next`, entered at the
    running thread.  Every entry point is proved to compute the corresponding function of module Ring. */
module Scheduler {
  import opened Sequences
  import opened Threads
  import R = Ring

  /** How a call ended; `Resume` stands for `resume_svc_thread`, which does not return. */
  datatype Exit = Back | Resume(slept: nat) | PanicNoWaiter | PanicNoMain

  ghost predicate Ends(o: R.Outcome, e: Exit, view: seq<Tcb>) {
    match o
    case Returned(r) => e == Back && view == r
    case Resumed(r, n) => e == Resume(n) && view == r
    case NoWaiter => e == PanicNoWaiter
    case NoMain => e == PanicNoMain
  }

  class KernelScheduler {
    var running: SvcThread?
    var timeslice: nat
    /** The live threads in `next` order from the running one. */
    ghost var ring: seq<SvcThread>
    /** What they hold. */
    ghost var view: seq<Tcb>
    /** The threads ever linked: what the methods may write to. */
    ghost var repr: set<SvcThread>
    /** Every `destroy_svc_thread` so far, in order. */
    ghost var freed: seq<SvcThread>

    /** The `next` pointers close one duplicate-free cycle through exactly the ring, starting at `running`. */
    ghost predicate Linked()
      reads this, repr
    {
      && (running == null <==> ring == [])
      && (ring != [] ==> ring[0] == running)
      && (forall i :: 0 <= i < |ring| ==> ring[i] in repr)
      && (forall i, j :: 0 <= i < j < |ring| ==> ring[i] != ring[j])
      && (forall i :: 0 <= i < |ring| - 1 ==> ring[i].next == ring[i + 1])
      && (ring != [] ==> ring[|ring| - 1].next == ring[0])
    }

    ghost predicate Valid()
      reads this, repr
    {
      Linked() && |view| == |ring| && forall i :: 0 <= i < |ring| ==> view[i] == Read(ring[i])
    }

    /** One step along the ring: `next` comes back to the running thread after exactly |ring| steps. */
    lemma Along(i: nat)
      requires Linked() && i < |ring|
      ensures ring[i].next == if i + 1 < |ring| then ring[i + 1] else running
      ensures ring[i].next == running <==> i + 1 == |ring|
    {
    }

    /** A walk that rewrites the ring has done its first n threads: they hold `goal`, the others still `view`. */
    ghost predicate Upto(n: nat, goal: seq<Tcb>)
      reads this, repr
    {
      && Linked() && |view| == |ring| == |goal|
      && forall i :: 0 <= i < |ring| ==> Read(ring[i]) == if i < n then goal[i] else view[i]
    }

    constructor (timeslice: nat)
      ensures Valid() && view == [] && freed == [] && repr == {} && this.timeslice == timeslice
    {
      running := null;
      this.timeslice := timeslice;
      ring, view, repr, freed := [], [], {}, [];
    }

    method Enable()
      requires Valid()
      modifies this`running, this`ring, this`view, this`repr
      ensures Valid()
      ensures old(running) != null ==> ring == old(ring) && view == old(view) && repr == old(repr)
      ensures old(running) == null ==> running != null && fresh(running) && view == [NewTcb(running).(main := true)]
      ensures old(running) == null ==> repr == old(repr) + {running}
    {
      if running != null {
        return;
      }
      var t := new SvcThread();
      t.main := true;
      t.next := t;
      running := t;
      ring, view, repr := [t], [Read(t)], repr + {t};
    }

    /** Frees each ring member exactly once, and only from the main thread. */
    method Disable()
      requires Valid()
      modifies this`running, this`ring, this`view, this`freed
      ensures Valid()
      ensures old(running) != null && old(running.main) ==> view == [] && freed == old(freed) + old(ring)
      ensures !(old(running) != null && old(running.main)) ==>
                ring == old(ring) && view == old(view) && freed == old(freed)
    {
      if running == null || !running.main {
        return;
      }
      var t := running;
      ghost var i := 0;
      while true
        invariant 0 <= i < |ring| && t == ring[i] && freed == old(freed) + ring[..i]
        invariant running == old(running) && ring == old(ring)
        decreases |ring| - i
      {
        Along(i);
        var tmp := t.next;
        freed := freed + [t];
        t := tmp;
        i := i + 1;
        if t == running {
          break;
        }
      }
      assert ring[..i] == ring;
      running := null;
      ring, view := [], [];
    }

    /** Resumes `t`, the k-th thread of the ring. */
    method ResumeAt(t: SvcThread, ghost k: nat)
      requires Valid() && k < |ring| && ring[k] == t
      modifies this`running, this`ring, this`view
      ensures Valid() && view == R.Rotate(old(view), k)
    {
      running := t;
      ring, view := R.Rotate(ring, k), R.Rotate(view, k);
      if k > 0 {
        assert ring[|ring| - 1] == old(ring)[k - 1];
        assert ring[|ring| - k] == old(ring)[0];
      }
    }

    /** The thread choice of a timeslice end: the first runnable thread, else main if nobody sleeps, else the
        shortest sleeper. */
    method ScheduleCurrentSaved() returns (e: Exit)
      requires Valid()
      modifies this`running, this`ring, this`view, repr
      ensures Valid()
      ensures old(running) == null ==> e == Back && view == old(view)
      ensures old(running) != null ==> Ends(R.Schedule(old(view)), e, view)
    {
      if running == null {
        return Back;
      }
      ghost var v := view;
      var next := FindRunnable();
      if next != null {
        ResumeAt(next, R.FirstRunnable(v));
        return Resume(0);
      }
      var allBlocked := AllBlocked();
      if allBlocked {
        e := ResumeMain();
      } else {
        e := SleepLeast();
      }
    }

    method FindRunnable() returns (t: SvcThread?)
      requires Valid() && running != null
      ensures var k := R.FirstRunnable(view); if k < |ring| then t == ring[k] else t == null
    {
      var next := running;
      ghost var i := 0;
      while true
        invariant 0 <= i < |ring| && next == ring[i]
        invariant forall j :: 0 <= j < i ==> view[j].status != Runnable
        decreases |ring| - i
      {
        if next.status == Runnable {
          assert view[i].status == Runnable;
          return next;
        }
        Along(i);
        next := next.next;
        i := i + 1;
        if next == running {
          break;
        }
      }
      return null;
    }

    method FindMain() returns (t: SvcThread?)
      requires Valid() && running != null
      ensures var k := R.FirstMain(view); if k < |ring| then t == ring[k] else t == null
    {
      var next := running;
      ghost var i := 0;
      while true
        invariant 0 <= i < |ring| && next == ring[i]
        invariant forall j :: 0 <= j < i ==> !view[j].main
        decreases |ring| - i
      {
        if next.main {
          assert view[i].main;
          return next;
        }
        Along(i);
        next := next.next;
        i := i + 1;
        if next == running {
          break;
        }
      }
      return null;
    }

    method AllBlocked() returns (b: bool)
      requires Valid() && running != null
      ensures b == !R.SomeWaiting(view)
    {
      if running.status == Waiting {
        assert view[0].status == Waiting;
        return false;
      }
      var next := running;
      ghost var i := 0;
      while true
        invariant 0 <= i < |ring| && next == ring[i]
        invariant forall j :: 0 <= j < i ==> view[j].status != Waiting
        decreases |ring| - i
      {
        if next.status == Waiting {
          assert view[i].status == Waiting;
          return false;
        }
        Along(i);
        next := next.next;
        i := i + 1;
        if next == running {
          break;
        }
      }
      return true;
    }

    /** The deadlock fallback. */
    method ResumeMain() returns (e: Exit)
      requires Valid() && running != null
      modifies this`running, this`ring, this`view
      ensures Valid() && Ends(R.Fallback(old(view)), e, view)
    {
      ghost var m := R.FirstMain(view);
      var next := FindMain();
      if next == null {
        return PanicNoMain;
      }
      ResumeAt(next, m);
      return Resume(0);
    }

    /** The scan for the least remaining wait. */
    method FindLeastWaiter() returns (t: SvcThread?, minWait: nat)
      requires Valid() && running != null
      ensures var w := R.LeastWaiter(view);
              if w < 0 then t == null else t == ring[w] && minWait == view[w].waiting
    {
      minWait, t := R.UINT32_MAX, null;
      var next := running;
      ghost var i := 0;
      while true
        invariant 0 <= i < |ring| && next == ring[i]
        invariant var w := R.LeastWaiter(view[..i]);
                  if w < 0 then t == null && minWait == R.UINT32_MAX else t == ring[w] && minWait == view[w].waiting
        decreases |ring| - i
      {
        assert view[..i + 1][..i] == view[..i];
        if next.status == Waiting {
          if next.waiting < minWait {
            minWait, t := next.waiting, next;
          } else if next.waiting == minWait && next != running {
            t := next;
          }
        }
        Along(i);
        next := next.next;
        i := i + 1;
        if next == running {
          break;
        }
      }
      assert view[..i] == view;
    }

    /** Charges the n-th thread of the ring. */
    method Charge(t: SvcThread, ticks: nat, ghost n: nat, ghost goal: seq<Tcb>)
      requires Upto(n, goal) && n < |ring| && t == ring[n] && goal[n] == R.ElapseOne(view[n], ticks)
      modifies t`status, t`waiting
      ensures Upto(n + 1, goal)
    {
      if t.status == Waiting {
        if t.waiting <= ticks {
          t.status := Runnable;
          t.waiting := 0;
        } else {
          t.waiting := t.waiting - ticks;
        }
      }
    }

    method ChargeAll(ticks: nat)
      requires Valid() && running != null
      modifies repr`status, repr`waiting, this`view
      ensures Valid() && view == R.Elapse(old(view), ticks)
    {
      ghost var goal := R.Elapse(view, ticks);
      var next := running;
      ghost var i := 0;
      while true
        invariant 0 <= i < |ring| && next == ring[i] && view == old(view) && Upto(i, goal)
        decreases |ring| - i
      {
        Charge(next, ticks, i, goal);
        Along(i);
        next := next.next;
        i := i + 1;
        if next == running {
          break;
        }
      }
      view := goal;
    }

    /** Sleeps for the least remaining wait, charges it to every waiter and resumes the chosen one. */
    method SleepLeast() returns (e: Exit)
      requires Valid() && running != null
      modifies this`running, this`ring, this`view, repr
      ensures Valid() && Ends(R.SleepLeast(old(view)), e, view)
    {
      ghost var w := R.LeastWaiter(view);
      var t, minWait := FindLeastWaiter();
      if t == null {
        return PanicNoWaiter;
      }
      ChargeAll(minWait);
      ResumeAt(t, w);
      return Resume(minWait);
    }

    /** The timer interrupt, taken in supervisor mode while the scheduler's own task is current.  Its tick loop
        starts where it stops, so it charges nobody. */
    method Preempt() returns (e: Exit)
      requires Valid()
      modifies this`running, this`ring, this`view, repr
      ensures Valid()
      ensures old(running) == null ==> e == Back && view == old(view)
      ensures old(running) != null ==> Ends(R.Preempt(old(view)), e, view)
    {
      if running == null {
        return Back;
      }
      Along(0);
      if running.next == running {
        return Back;
      }
      e := ScheduleCurrentSaved();
    }

    /** Puts t, the k-th thread of the ring, to sleep.  The running thread gives up the processor. */
    method Wait(t: SvcThread?, millis: nat, ghost k: nat) returns (e: Exit)
      requires Valid() && timeslice > 0
      requires t != null && running != null ==> k < |ring| && t == ring[k]
      modifies this`running, this`ring, this`view, repr
      ensures Valid()
      ensures t == null || old(running) == null ==> e == Back && view == old(view)
      ensures t != null && old(running) != null ==> Ends(R.WaitMillis(old(view), k, millis, timeslice), e, view)
    {
      if t == null || running == null {
        return Back;
      }
      e := WaitTicks(t, millis / timeslice, k);
    }

    method WaitTicks(t: SvcThread, ticks: nat, ghost k: nat) returns (e: Exit)
      requires Valid() && k < |ring| && t == ring[k]
      modifies this`running, this`ring, this`view, repr
      ensures Valid() && Ends(R.WaitTicks(old(view), k, ticks), e, view)
    {
      if ticks == 0 {
        return Back;
      }
      if t == running {
        Along(0);
        if running.next == running {
          return Back;
        }
        Sleep(running, (ticks + 1) % R.UINT32_SIZE, 0);
        e := ScheduleCurrentSaved();
      } else {
        Sleep(t, ticks, k);
        e := Back;
      }
    }

    method Sleep(t: SvcThread, ticks: nat, ghost k: nat)
      requires Valid() && k < |ring| && t == ring[k]
      modifies t`status, t`waiting, this`view
      ensures Valid() && view == old(view)[k := R.Asleep(old(view)[k], ticks)]
    {
      t.status := Waiting;
      t.waiting := ticks;
      view := view[k := Read(t)];
    }

    /** Blocks t, the k-th thread of the ring, until `waitFor` is gone. */
    method WaitThread(t: SvcThread?, waitFor: SvcThread?, ghost k: nat) returns (e: Exit)
      requires Valid()
      requires t != null && waitFor != null && running != null ==> k < |ring| && t == ring[k]
      modifies this`running, this`ring, this`view, repr
      ensures Valid()
      ensures t == null || waitFor == null || old(running) == null ==> e == Back && view == old(view)
      ensures t != null && waitFor != null && old(running) != null ==>
                Ends(R.WaitThread(old(view), k, waitFor), e, view)
    {
      if t == null || waitFor == null || running == null || t == waitFor {
        return Back;
      }
      Block(t, waitFor, k);
      if t == running {
        e := ScheduleCurrentSaved();
      } else {
        e := Back;
      }
    }

    method Block(t: SvcThread, waitFor: SvcThread, ghost k: nat)
      requires Valid() && k < |ring| && t == ring[k]
      modifies t`status, t`statusData, this`view
      ensures Valid() && view == old(view)[k := R.Blocked(old(view)[k], waitFor)]
    {
      t.status := WaitingFor;
      t.statusData := waitFor;
      view := view[k := Read(t)];
    }

    /** A new thread goes in right behind the running one. */
    method Add(t: SvcThread?)
      requires Valid() && (t != null ==> t !in ring)
      modifies this`ring, this`view, this`repr, repr, if t == null then {} else {t}
      ensures Valid()
      ensures t == null || running == null ==> view == old(view) && repr == old(repr)
      ensures t != null && running != null ==> view == R.Insert(old(view), old(Read(t))) && repr == old(repr) + {t}
    {
      if t == null || running == null {
        return;
      }
      t.next := running.next;
      running.next := t;
      ring, view, repr := R.Insert(ring, t), R.Insert(view, Read(t)), repr + {t};
    }

    /** Releases the n-th thread of the ring if it waits for `gone`. */
    method ReleaseIf(t: SvcThread, gone: SvcThread, ghost n: nat, ghost goal: seq<Tcb>)
      requires Upto(n, goal) && n < |ring| && t == ring[n] && goal[n] == R.ReleaseOne(view[n], gone)
      modifies t`status, t`statusData
      ensures Upto(n + 1, goal)
    {
      if t.status == WaitingFor && t.statusData == gone {
        t.status := Runnable;
        t.statusData := null;
      }
    }

    /** Releases everybody behind the running thread who waits for it; returns the last thread of the ring. */
    method ReleaseOthers() returns (last: SvcThread)
      requires Valid() && running != null
      modifies repr`status, repr`statusData, this`view
      ensures Valid() && last == ring[|ring| - 1] && |view| == |old(view)|
      ensures view[0] == old(view)[0]
      ensures forall i :: 1 <= i < |ring| ==> view[i] == R.ReleaseOne(old(view)[i], running)
    {
      ghost var goal := R.Release(view, running)[0 := view[0]];
      var next := running;
      ghost var i := 0;
      Along(0);
      while next.next != running
        invariant 0 <= i < |ring| && next == ring[i] && view == old(view) && Upto(i + 1, goal)
        decreases |ring| - i
      {
        Along(i);
        ReleaseIf(next.next, running, i + 1, goal);
        Along(i);
        next := next.next;
        i := i + 1;
      }
      Along(i);
      view := goal;
      return next;
    }

    /** Unlinks and frees the running thread; the next one becomes the running thread. */
    method DestroyRunning(last: SvcThread)
      requires Valid() && |ring| > 1 && last == ring[|ring| - 1]
      modifies this`running, this`ring, this`view, this`freed, last`next
      ensures Valid() && view == old(view)[1..] && freed == old(freed) + [old(running)]
    {
      Along(0);
      last.next := running.next;
      freed := freed + [running];
      running := running.next;
      ring, view := ring[1..], view[1..];
    }

    /** A thread ends itself.  The main thread and a lone thread stay. */
    method ExitSelf() returns (e: Exit)
      requires Valid()
      modifies this`running, this`ring, this`view, this`freed, repr
      ensures Valid()
      ensures old(running) == null ==> e == Back && view == old(view) && freed == old(freed)
      ensures old(running) != null ==> Ends(R.ExitSelf(old(view)), e, view)
      ensures old(running) != null ==> freed == old(freed) + R.Exiting(old(view))
    {
      if running == null {
        return Back;
      }
      Along(0);
      if running.main || running.next == running {
        return Back;
      }
      ghost var v := view;
      var last := ReleaseOthers();
      DestroyRunning(last);
      assert view == R.Release(v[1..], v[0].id);
      e := ScheduleCurrentSaved();
    }

    /** The thread before t in the ring, or null when t is not behind anybody. */
    method FindBefore(t: SvcThread) returns (p: SvcThread?)
      requires Valid() && running != null && t != running
      ensures var k := R.PlaceOf(view, t); if k < |ring| then k > 0 && t == ring[k] && p == ring[k - 1] else p == null
    {
      var next := running;
      ghost var i := 0;
      while true
        invariant 0 <= i < |ring| && next == ring[i]
        invariant forall j :: 0 <= j <= i ==> view[j].id != t
        decreases |ring| - i
      {
        Along(i);
        if next.next == t {
          assert view[i + 1].id == t;
          return next;
        }
        next := next.next;
        i := i + 1;
        if next == running {
          break;
        }
      }
      return null;
    }

    method ReleaseAll(gone: SvcThread)
      requires Valid() && running != null
      modifies repr`status, repr`statusData, this`view
      ensures Valid() && view == R.Release(old(view), gone)
    {
      ghost var goal := R.Release(view, gone);
      var next := running;
      ghost var i := 0;
      while true
        invariant 0 <= i < |ring| && next == ring[i] && view == old(view) && Upto(i, goal)
        decreases |ring| - i
      {
        ReleaseIf(next, gone, i, goal);
        Along(i);
        next := next.next;
        i := i + 1;
        if next == running {
          break;
        }
      }
      view := goal;
    }

    /** Unlinks and frees a thread other than the running one, given the thread before it. */
    method Destroy(p: SvcThread, t: SvcThread, ghost k: nat)
      requires Valid() && 0 < k < |ring| && t == ring[k] && p == ring[k - 1]
      modifies this`ring, this`view, this`freed, p`next
      ensures Valid() && view == Without(old(view), k) && freed == old(freed) + [t]
    {
      Along(k);
      p.next := t.next;
      freed := freed + [t];
      ring, view := Without(ring, k), Without(view, k);
    }

    method Remove(t: SvcThread?) returns (e: Exit)
      requires Valid()
      modifies this`running, this`ring, this`view, this`freed, repr
      ensures Valid()
      ensures t == null || old(running) == null ==> e == Back && view == old(view) && freed == old(freed)
      ensures t != null && old(running) != null ==> Ends(R.Remove(old(view), t), e, view)
      ensures t != null && old(running) != null ==> freed == old(freed) + R.Removing(old(view), t)
    {
      if t == null || running == null || t.main {
        return Back;
      }
      if t == running {
        e := ExitSelf();
      } else {
        R.RemovingAnother(view, t);
        RemoveOther(t);
        e := Back;
      }
    }

    method RemoveOther(t: SvcThread)
      requires Valid() && running != null && t != running && !t.main
      modifies this`ring, this`view, this`freed, repr
      ensures Valid()
      ensures R.PlaceOf(old(view), t) == |old(view)| ==> view == old(view) && freed == old(freed)
      ensures R.PlaceOf(old(view), t) < |old(view)| ==>
                && view == R.Release(Without(old(view), R.PlaceOf(old(view), t)), t)
                && freed == old(freed) + [t]
    {
      ghost var k := R.PlaceOf(view, t);
      var p := FindBefore(t);
      if p != null {
        Destroy(p, t, k);
        ReleaseAll(t);
      }
    }
  }
}
