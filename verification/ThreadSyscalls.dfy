/** The thread system calls: the steps a program can make the scheduler take.  A null argument changes nothing. */
module ThreadSyscalls {
  import opened Threads
  import opened Scheduler
  import R = Ring
  import Runs = SchedulerRuns

  method KernelThreadEnable(s: KernelScheduler) returns (ghost t: SvcThread)
    requires s.Valid() && s.timeslice > 0
    modifies s`running, s`ring, s`view, s`repr
    ensures s.Valid()
    ensures Ends(Runs.Step(old(s.view), Runs.Enable(t), s.timeslice), Back, s.view)
    ensures Runs.Legal(old(s.view), Runs.Enable(t)) && (old(s.running) == null ==> fresh(t))
    ensures fresh(s.repr - old(s.repr))
  {
    s.Enable();
    t := s.ring[0];
  }

  method KernelThreadDisable(s: KernelScheduler)
    requires s.Valid() && s.timeslice > 0
    modifies s`running, s`ring, s`view, s`freed
    ensures s.Valid()
    ensures Ends(Runs.Step(old(s.view), Runs.Disable, s.timeslice), Back, s.view)
    ensures s.freed == old(s.freed) + if old(s.running) != null && old(s.running.main) then old(s.ring) else []
  {
    s.Disable();
  }

  method KernelThreadWaitMillis(s: KernelScheduler, r0: nat) returns (e: Exit)
    requires s.Valid() && s.timeslice > 0
    modifies s`running, s`ring, s`view, s.repr
    ensures s.Valid() && Ends(Runs.Step(old(s.view), Runs.Wait(r0), s.timeslice), e, s.view)
  {
    if r0 == 0 {
      assert r0 / s.timeslice == 0;
      return Back;
    }
    e := s.Wait(s.running, r0, 0);
  }

  method KernelThreadWaitFor(s: KernelScheduler, r0: SvcThread?) returns (e: Exit)
    requires s.Valid() && s.timeslice > 0
    modifies s`running, s`ring, s`view, s.repr
    ensures s.Valid()
    ensures r0 == null ==> e == Back && s.view == old(s.view)
    ensures r0 != null ==> Ends(Runs.Step(old(s.view), Runs.WaitFor(r0), s.timeslice), e, s.view)
  {
    if r0 == null {
      return Back;
    }
    e := s.WaitThread(s.running, r0, 0);
  }

  /** `stack`, `size` and `entry` are only tested for being there: what they point at is no scheduling matter. */
  method KernelThreadCreate(s: KernelScheduler, stack: nat, size: nat, entry: nat) returns (t: SvcThread?)
    requires s.Valid() && s.timeslice > 0
    modifies s`ring, s`view, s`repr, s.repr
    ensures s.Valid()
    ensures t == null <==> stack == 0 || size == 0 || entry == 0
    ensures t == null ==> s.view == old(s.view)
    ensures fresh(s.repr - old(s.repr))
    ensures t != null ==> fresh(t) && Runs.Legal(old(s.view), Runs.Create(t))
    ensures t != null ==> Ends(Runs.Step(old(s.view), Runs.Create(t), s.timeslice), Back, s.view)
  {
    if stack == 0 || size == 0 || entry == 0 {
      return null;
    }
    t := new SvcThread();
    s.Add(t);
  }

  method KernelThreadDelete(s: KernelScheduler, r0: SvcThread?) returns (e: Exit)
    requires s.Valid() && s.timeslice > 0
    modifies s`running, s`ring, s`view, s`freed, s.repr
    ensures s.Valid()
    ensures r0 == null ==> e == Back && s.view == old(s.view) && s.freed == old(s.freed)
    ensures r0 != null ==> Ends(Runs.Step(old(s.view), Runs.Delete(r0), s.timeslice), e, s.view)
    ensures r0 != null && old(s.running) != null ==> s.freed == old(s.freed) + R.Removing(old(s.view), r0)
  {
    e := s.Remove(r0);
  }
}
