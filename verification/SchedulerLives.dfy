/** The lives of threads: over every run each thread made is in the ring, or was freed, or was lost, once. */
module SchedulerLives {
  import opened Sequences
  import opened Threads
  import opened Ring
  import opened SchedulerRuns

  function Ids(r: seq<Tcb>): (s: seq<SvcThread>)
    ensures |s| == |r| && forall i :: 0 <= i < |r| ==> s[i] == r[i].id
  {
    seq(|r|, i requires 0 <= i < |r| => r[i].id)
  }

  /** The thread a step makes. */
  function MadeBy(r: seq<Tcb>, e: Event): seq<SvcThread> {
    match e
    case Enable(t) => if r == [] then [t] else []
    case Create(t) => [t]
    case _ => []
  }

  /** The thread a step loses: one created while no ring runs is linked nowhere and freed by nobody. */
  function LostBy(r: seq<Tcb>, e: Event): seq<SvcThread> {
    match e
    case Create(t) => if r == [] then [t] else []
    case _ => []
  }

  /** The threads a step frees. */
  ghost function FreedBy(r: seq<Tcb>, e: Event): seq<SvcThread> {
    if r == [] then []
    else
      match e
      case Delete(t) => Removing(r, t)
      case Exit => Exiting(r)
      case Disable => if r[0].main then Ids(r) else []
      case _ => []
  }

  // ----- one step

  lemma SameIds(r: seq<Tcb>, q: seq<Tcb>)
    requires |r| == |q| && forall i :: 0 <= i < |r| ==> r[i].id == q[i].id
    ensures Ids(r) == Ids(q)
  {
  }

  lemma RotatedIds(r: seq<Tcb>, k: nat)
    requires k <= |r|
    ensures multiset(Ids(Rotate(r, k))) == multiset(Ids(r))
  {
    var s := Ids(r);
    assert Ids(Rotate(r, k)) == s[k..] + s[..k];
    assert s == s[..k] + s[k..];
  }

  lemma WithoutIds(r: seq<Tcb>, k: nat)
    requires k < |r|
    ensures multiset(Ids(Without(r, k))) + multiset{r[k].id} == multiset(Ids(r))
  {
    var s := Ids(r);
    assert Ids(Without(r, k)) == s[..k] + s[k + 1..];
    assert s == s[..k] + [s[k]] + s[k + 1..];
  }

  /** Scheduling turns the ring and changes what threads wait for, but makes and frees none. */
  lemma ScheduleKeepsIds(q: seq<Tcb>)
    requires !Schedule(q).Panicked()
    ensures multiset(Ids(Schedule(q).ring)) == multiset(Ids(q))
  {
    var k := FirstRunnable(q);
    if k < |q| {
      RotatedIds(q, k);
    } else if SomeWaiting(q) {
      var w := LeastWaiter(q);
      RotatedIds(Elapse(q, q[w].waiting), w);
      SameIds(Elapse(q, q[w].waiting), q);
    } else {
      RotatedIds(q, FirstMain(q));
    }
  }

  /** What a step makes joins the ring or is lost, what it frees leaves it, and nobody else comes or goes. */
  ghost predicate Conserves(r: seq<Tcb>, e: Event, z: seq<Tcb>) {
    multiset(Ids(r)) + multiset(MadeBy(r, e)) == multiset(Ids(z)) + multiset(FreedBy(r, e) + LostBy(r, e))
  }

  lemma ExitConserves(r: seq<Tcb>)
    requires r != [] && !ExitSelf(r).Panicked()
    ensures multiset(Ids(r)) == multiset(Ids(ExitSelf(r).ring)) + multiset(Exiting(r))
  {
    if !r[0].main && |r| > 1 {
      var q := Release(r[1..], r[0].id);
      ScheduleKeepsIds(q);
      SameIds(q, r[1..]);
      assert Without(r, 0) == r[1..];
      WithoutIds(r, 0);
    }
  }

  lemma RemoveConserves(r: seq<Tcb>, t: SvcThread)
    requires r != [] && !Remove(r, t).Panicked()
    ensures multiset(Ids(r)) == multiset(Ids(Remove(r, t).ring)) + multiset(Removing(r, t))
  {
    var k := PlaceOf(r, t);
    if k < |r| && !r[k].main {
      if k == 0 {
        ExitConserves(r);
      } else {
        SameIds(Release(Without(r, k), t), Without(r, k));
        WithoutIds(r, k);
      }
    }
  }

  lemma WaitConserves(r: seq<Tcb>, ticks: nat)
    requires r != [] && !WaitTicks(r, 0, ticks).Panicked()
    ensures multiset(Ids(WaitTicks(r, 0, ticks).ring)) == multiset(Ids(r))
  {
    if ticks != 0 && |r| > 1 {
      var q := r[0 := Asleep(r[0], (ticks + 1) % UINT32_SIZE)];
      ScheduleKeepsIds(q);
      SameIds(q, r);
    }
  }

  lemma BlockConserves(r: seq<Tcb>, t: SvcThread)
    requires r != [] && !WaitThread(r, 0, t).Panicked()
    ensures multiset(Ids(WaitThread(r, 0, t).ring)) == multiset(Ids(r))
  {
    if t != r[0].id {
      var q := r[0 := Blocked(r[0], t)];
      ScheduleKeepsIds(q);
      SameIds(q, r);
    }
  }

  lemma StepConserves(r: seq<Tcb>, e: Event, timeslice: nat)
    requires timeslice > 0 && !Step(r, e, timeslice).Panicked()
    ensures Conserves(r, e, Step(r, e, timeslice).ring)
  {
    if r == [] {
      assert Ids([]) == [];
    } else {
      RunningStepConserves(r, e, timeslice);
    }
  }

  lemma RunningStepConserves(r: seq<Tcb>, e: Event, timeslice: nat)
    requires r != [] && timeslice > 0 && !Step(r, e, timeslice).Panicked()
    ensures Conserves(r, e, Step(r, e, timeslice).ring)
  {
    match e
    case Enable(_) =>
    case Create(t) => InsertConserves(r, t);
    case Delete(t) => RemoveConserves(r, t);
    case Exit => ExitConserves(r);
    case Disable =>
    case _ => QuietStep(r, e, timeslice);
  }

  lemma QuietStep(r: seq<Tcb>, e: Event, timeslice: nat)
    requires r != [] && timeslice > 0 && !Step(r, e, timeslice).Panicked()
    requires e.Wait? || e.WaitFor? || e.Tick?
    ensures multiset(Ids(Step(r, e, timeslice).ring)) == multiset(Ids(r))
  {
    match e
    case Wait(millis) => WaitConserves(r, millis / timeslice);
    case WaitFor(t) => BlockConserves(r, t);
    case Tick => if |r| > 1 { ScheduleKeepsIds(r); }
  }

  lemma InsertConserves(r: seq<Tcb>, t: SvcThread)
    requires r != []
    ensures multiset(Ids(Insert(r, NewTcb(t)))) == multiset(Ids(r)) + multiset{t}
  {
    var s := Ids(r);
    assert Ids(Insert(r, NewTcb(t))) == [s[0], t] + s[1..];
    assert s == [s[0]] + s[1..];
  }

  // ----- runs

  ghost function TotalMade(r: seq<Tcb>, es: seq<Event>, timeslice: nat): seq<SvcThread>
    requires timeslice > 0
    decreases |es|
  {
    if es == [] || Step(r, es[0], timeslice).Panicked() then []
    else MadeBy(r, es[0]) + TotalMade(Step(r, es[0], timeslice).ring, es[1..], timeslice)
  }

  ghost function TotalFreed(r: seq<Tcb>, es: seq<Event>, timeslice: nat): seq<SvcThread>
    requires timeslice > 0
    decreases |es|
  {
    if es == [] || Step(r, es[0], timeslice).Panicked() then []
    else FreedBy(r, es[0]) + TotalFreed(Step(r, es[0], timeslice).ring, es[1..], timeslice)
  }

  ghost function TotalLost(r: seq<Tcb>, es: seq<Event>, timeslice: nat): seq<SvcThread>
    requires timeslice > 0
    decreases |es|
  {
    if es == [] || Step(r, es[0], timeslice).Panicked() then []
    else LostBy(r, es[0]) + TotalLost(Step(r, es[0], timeslice).ring, es[1..], timeslice)
  }

  /** Over a run, the threads that were there and those made are those still there, those freed and those lost. */
  lemma {:induction false} RunConserves(r: seq<Tcb>, es: seq<Event>, timeslice: nat, z: seq<Tcb>)
    requires timeslice > 0 && Run(r, es, timeslice, z)
    ensures multiset(Ids(r)) + multiset(TotalMade(r, es, timeslice))
         == multiset(Ids(z)) + multiset(TotalFreed(r, es, timeslice) + TotalLost(r, es, timeslice))
    decreases |es|
  {
    if es != [] {
      var m := Step(r, es[0], timeslice).ring;
      StepConserves(r, es[0], timeslice);
      RunConserves(m, es[1..], timeslice, z);
      MadeAndGone(r, es, timeslice);
      Chained(multiset(Ids(r)), multiset(Ids(m)), multiset(Ids(z)),
              multiset(MadeBy(r, es[0])), multiset(TotalMade(m, es[1..], timeslice)),
              multiset(FreedBy(r, es[0]) + LostBy(r, es[0])),
              multiset(TotalFreed(m, es[1..], timeslice) + TotalLost(m, es[1..], timeslice)));
    }
  }

  lemma Chained<T>(a: multiset<T>, b: multiset<T>, c: multiset<T>,
                   x: multiset<T>, y: multiset<T>, u: multiset<T>, v: multiset<T>)
    requires a + x == b + u && b + y == c + v
    ensures a + (x + y) == c + (u + v)
  {
    assert a + (x + y) == (a + x) + y;
    assert (b + u) + y == (b + y) + u;
    assert (c + v) + u == c + (u + v);
  }

  lemma MadeAndGone(r: seq<Tcb>, es: seq<Event>, timeslice: nat)
    requires timeslice > 0 && es != [] && !Step(r, es[0], timeslice).Panicked()
    ensures var m := Step(r, es[0], timeslice).ring;
      && multiset(TotalMade(r, es, timeslice)) == multiset(MadeBy(r, es[0])) + multiset(TotalMade(m, es[1..], timeslice))
      && multiset(TotalFreed(r, es, timeslice) + TotalLost(r, es, timeslice))
         == multiset(FreedBy(r, es[0]) + LostBy(r, es[0]))
            + multiset(TotalFreed(m, es[1..], timeslice) + TotalLost(m, es[1..], timeslice))
  {
  }

  ghost predicate NoRepetition(s: seq<SvcThread>) {
    forall t :: t in s ==> multiset(s)[t] == 1
  }

  /**
   * From no ring at all, when no thread is made twice: none is freed or lost twice, none of these is still in the
   * ring, and one that was made is in the ring, or was freed, or was lost.
   */
  lemma FreedOnce(es: seq<Event>, timeslice: nat, z: seq<Tcb>, t: SvcThread)
    requires timeslice > 0 && Run([], es, timeslice, z) && NoRepetition(TotalMade([], es, timeslice))
    ensures var gone := TotalFreed([], es, timeslice) + TotalLost([], es, timeslice);
      && multiset(gone)[t] <= 1
      && !(t in gone && t in Ids(z))
      && (t in TotalMade([], es, timeslice) <==> t in Ids(z) || t in gone)
  {
    RunConserves([], es, timeslice, z);
    var made, left := TotalMade([], es, timeslice), Ids(z);
    var gone := TotalFreed([], es, timeslice) + TotalLost([], es, timeslice);
    assert Ids([]) == [];
    var m: multiset<SvcThread>, l: multiset<SvcThread>, f: multiset<SvcThread> := multiset(made), multiset(left), multiset(gone);
    assert m == l + f;
    assert t in gone <==> t in multiset(gone);
    assert t in left <==> t in multiset(left);
    assert t in made <==> t in multiset(made);
  }

  /** A thread is lost exactly when it is created in a state of the run with no ring. */
  lemma {:induction false} LostExactlyWhen(r: seq<Tcb>, es: seq<Event>, timeslice: nat, z: seq<Tcb>, t: SvcThread)
    requires timeslice > 0 && Run(r, es, timeslice, z)
    ensures t in TotalLost(r, es, timeslice)
        <==> exists n :: 0 <= n < |es| && es[n] == Create(t) && Reached(r, es, timeslice, n) == []
    decreases |es|
  {
    if es != [] {
      var m := Step(r, es[0], timeslice).ring;
      LostExactlyWhen(m, es[1..], timeslice, z, t);
      if t in TotalLost(m, es[1..], timeslice) {
        var n :| 0 <= n < |es[1..]| && es[1..][n] == Create(t) && Reached(m, es[1..], timeslice, n) == [];
        assert es[n + 1] == Create(t) && Reached(r, es, timeslice, n + 1) == [];
      }
      if t in LostBy(r, es[0]) {
        assert es[0] == Create(t) && Reached(r, es, timeslice, 0) == [];
      }
      if n :| 0 <= n < |es| && es[n] == Create(t) && Reached(r, es, timeslice, n) == [] && n > 0 {
        assert es[1..][n - 1] == Create(t) && Reached(m, es[1..], timeslice, n - 1) == [];
      }
    }
  }

  /** The ring after n steps. */
  ghost function Reached(r: seq<Tcb>, es: seq<Event>, timeslice: nat, n: nat): seq<Tcb>
    requires timeslice > 0 && n <= |es|
    decreases n
  {
    if n == 0 || Step(r, es[0], timeslice).Panicked() then r
    else Reached(Step(r, es[0], timeslice).ring, es[1..], timeslice, n - 1)
  }
}
