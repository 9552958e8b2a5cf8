/** What becomes of each thread: in a step, whatever its status, and over a run when it is blocked. */
module SchedulerFates {
  import opened Sequences
  import opened Threads
  import opened Ring
  import opened SchedulerRuns
  import opened SchedulerLives

  // ----- scheduling, thread by thread

  lemma RotatedHas(q: seq<Tcb>, k: nat, c: Tcb)
    requires k <= |q|
    ensures c in Rotate(q, k) <==> c in q
  {
    assert q == q[..k] + q[k..];
  }

  /** A thread of a ring in which `s` ticks have been slept, told by what it was before. */
  ghost predicate Aged(q: seq<Tcb>, s: nat, c: Tcb) {
    match c.status
    case WaitingFor => c in q
    case Waiting => c.waiting > 0 && c.(waiting := c.waiting + s) in q
    case Runnable => c in q || exists p :: p in q && Wakes(p, s, c)
  }

  /** A sleeper that has no more than `s` ticks left, and what it is then. */
  predicate Wakes(p: Tcb, s: nat, c: Tcb) {
    p.status == Waiting && p.waiting <= s && c == p.(status := Runnable, waiting := 0)
  }

  lemma ElapsedIsAged(q: seq<Tcb>, s: nat, c: Tcb)
    ensures c in Elapse(q, s) <==> Aged(q, s, c)
  {
    if c in Elapse(q, s) {
      var i :| 0 <= i < |q| && Elapse(q, s)[i] == c;
      assert c == q[i] || c.(waiting := c.waiting + s) == q[i] || Wakes(q[i], s, c);
    }
    if Aged(q, s, c) {
      var p := if c.status == Waiting then c.(waiting := c.waiting + s)
               else if c in q then c else var w :| w in q && Wakes(w, s, c); w;
      var i :| 0 <= i < |q| && q[i] == p;
      assert Elapse(q, s)[i] == c;
    }
  }

  /** In a well-formed ring scheduling ages everybody by what it slept. */
  lemma ScheduledIsAged(q: seq<Tcb>, c: Tcb)
    requires Well(q, MAX_TICKS)
    ensures !Schedule(q).Panicked() && (c in Schedule(q).ring <==> Aged(q, SleptBy(Schedule(q)), c))
  {
    NeverPanics(q, MAX_TICKS);
    var k := FirstRunnable(q);
    if k < |q| {
      RotatedHas(q, k, c);
      NoneWakes(q);
    } else if SomeWaiting(q) {
      var w := LeastWaiter(q);
      RotatedHas(Elapse(q, q[w].waiting), w, c);
      ElapsedIsAged(q, q[w].waiting, c);
    } else {
      RotatedHas(q, FirstMain(q), c);
      NoneWakes(q);
    }
  }

  lemma NoneWakes(q: seq<Tcb>)
    requires Well(q, MAX_TICKS)
    ensures forall p :: p in q && p.status == Waiting ==> p.waiting > 0
  {
    forall p | p in q && p.status == Waiting ensures p.waiting > 0 {
      var i: nat :| i < |q| && q[i] == p;
      assert Sound(q, i, MAX_TICKS);
    }
  }

  // ----- one step, thread by thread

  /** The running thread is put to sleep, or blocked. */
  predicate Sleeps(r: seq<Tcb>, e: Event, timeslice: nat)
    requires timeslice > 0
  {
    e.Wait? && e.millis / timeslice != 0 && |r| > 1
  }

  predicate Blocks(r: seq<Tcb>, e: Event)
    requires r != []
  {
    e.WaitFor? && e.target != r[0].id
  }

  /** What a step makes of a thread it leaves alone otherwise: runnable, if it was blocked on one that goes. */
  predicate Kept(p: Tcb, gone: seq<SvcThread>, c: Tcb) {
    c == if p.status == WaitingFor && p.target in gone then p.(status := Runnable, target := null) else p
  }

  /** A thread before anything is slept. */
  ghost predicate Acted(r: seq<Tcb>, e: Event, timeslice: nat, c: Tcb)
    requires r != [] && timeslice > 0
  {
    || (e.Create? && c == Tcb(e.t, false, Runnable, 0, null))
    || (Sleeps(r, e, timeslice) && c == r[0].(status := Waiting, waiting := (e.millis / timeslice + 1) % UINT32_SIZE))
    || (Blocks(r, e) && c == r[0].(status := WaitingFor, target := e.target))
    || exists p :: p in r && Stays(r, e, timeslice, p) && Kept(p, FreedBy(r, e), c)
  }

  /** A thread that is neither freed nor the one that sleeps or blocks. */
  ghost predicate Stays(r: seq<Tcb>, e: Event, timeslice: nat, p: Tcb)
    requires r != [] && timeslice > 0
  {
    p.id !in FreedBy(r, e) && !(p == r[0] && (Sleeps(r, e, timeslice) || Blocks(r, e)))
  }

  lemma ReplacedHas(r: seq<Tcb>, x: Tcb, c: Tcb)
    requires r != [] && Distinct(r)
    ensures c in r[0 := x] <==> c == x || (c in r && c != r[0])
  {
    assert r == [r[0]] + r[1..] && r[0 := x] == [x] + r[1..];
  }

  lemma WithoutHas(r: seq<Tcb>, k: nat, p: Tcb)
    requires k < |r| && Distinct(r)
    ensures p in Without(r, k) <==> p in r && p.id != r[k].id
  {
    assert r == r[..k] + [r[k]] + r[k + 1..];
  }

  lemma ReleasedHas(w: seq<Tcb>, gone: SvcThread, c: Tcb)
    ensures c in Release(w, gone) <==> exists p :: p in w && Kept(p, [gone], c)
  {
    if c in Release(w, gone) {
      var i :| 0 <= i < |w| && Release(w, gone)[i] == c;
      assert w[i] in w && Kept(w[i], [gone], c);
    }
    if p :| p in w && Kept(p, [gone], c) {
      var i :| 0 <= i < |w| && w[i] == p;
      assert Release(w, gone)[i] == c;
    }
  }

  /** Thread k goes, and those blocked on it are released. */
  lemma GoneHas(r: seq<Tcb>, k: nat, c: Tcb)
    requires k < |r| && Distinct(r)
    ensures c in Release(Without(r, k), r[k].id) <==> exists p :: p in r && p.id !in [r[k].id] && Kept(p, [r[k].id], c)
  {
    ReleasedHas(Without(r, k), r[k].id, c);
    if p :| p in Without(r, k) && Kept(p, [r[k].id], c) {
      WithoutHas(r, k, p);
    }
    if p :| p in r && p.id !in [r[k].id] && Kept(p, [r[k].id], c) {
      WithoutHas(r, k, p);
    }
  }

  /** The ring a step leaves, or hands to the scheduler. */
  ghost function Worked(r: seq<Tcb>, e: Event, timeslice: nat): seq<Tcb>
    requires r != [] && timeslice > 0 && (HandedOver(r, e, timeslice) == [] ==> !Step(r, e, timeslice).Panicked())
  {
    if HandedOver(r, e, timeslice) == [] then Step(r, e, timeslice).ring else HandedOver(r, e, timeslice)
  }

  lemma KeptAlone(p: Tcb, c: Tcb)
    ensures Kept(p, [], c) <==> c == p
  {
  }

  /** Nothing is freed: all threads but the one that sleeps or blocks are what they were. */
  lemma NothingFreed(r: seq<Tcb>, e: Event, timeslice: nat, c: Tcb)
    requires r != [] && timeslice > 0 && FreedBy(r, e) == []
    ensures (exists p :: p in r && Stays(r, e, timeslice, p) && Kept(p, FreedBy(r, e), c))
        <==> c in r && !(c == r[0] && (Sleeps(r, e, timeslice) || Blocks(r, e)))
  {
    if c in r && !(c == r[0] && (Sleeps(r, e, timeslice) || Blocks(r, e))) {
      assert Stays(r, e, timeslice, c) && Kept(c, FreedBy(r, e), c);
    }
  }

  lemma GoingIsActed(r: seq<Tcb>, e: Event, timeslice: nat, k: nat, c: Tcb)
    requires r != [] && timeslice > 0 && k < |r| && Distinct(r) && FreedBy(r, e) == [r[k].id] && (e.Delete? || e.Exit?)
    ensures c in Release(Without(r, k), r[k].id) <==> Acted(r, e, timeslice, c)
  {
    GoneHas(r, k, c);
    if p :| p in r && p.id !in [r[k].id] && Kept(p, [r[k].id], c) {
      assert Stays(r, e, timeslice, p) && Kept(p, FreedBy(r, e), c);
    }
    if p :| p in r && Stays(r, e, timeslice, p) && Kept(p, FreedBy(r, e), c) {
      assert p.id !in [r[k].id] && Kept(p, [r[k].id], c);
    }
  }

  lemma WorkedIsActed(r: seq<Tcb>, e: Event, timeslice: nat, c: Tcb)
    requires r != [] && Inv(r, MAX_TICKS) && Legal(r, e) && timeslice >= 2
    ensures HandedOver(r, e, timeslice) == [] ==> !Step(r, e, timeslice).Panicked()
    ensures c in Worked(r, e, timeslice) <==> Acted(r, e, timeslice, c)
  {
    StepKeepsInv(r, e, timeslice);
    match e
    case Wait(millis) =>
      NothingFreed(r, e, timeslice, c);
      if Sleeps(r, e, timeslice) { ReplacedHas(r, Asleep(r[0], Ticks(millis, timeslice)), c); }
    case WaitFor(t) =>
      NothingFreed(r, e, timeslice, c);
      if Blocks(r, e) { ReplacedHas(r, Blocked(r[0], t), c); }
    case Create(t) =>
      NothingFreed(r, e, timeslice, c);
      CreatedHas(r, t, c);
    case Delete(t) => DeleteIsActed(r, t, timeslice, c);
    case Exit => ExitIsActed(r, e, timeslice, c);
    case Disable => DisableIsActed(r, timeslice, c);
    case _ => NothingFreed(r, e, timeslice, c);
  }

  lemma CreatedHas(r: seq<Tcb>, t: SvcThread, c: Tcb)
    requires r != []
    ensures c in Insert(r, NewTcb(t)) <==> c == Tcb(t, false, Runnable, 0, null) || c in r
  {
    assert r == [r[0]] + r[1..];
  }

  lemma DeleteIsActed(r: seq<Tcb>, t: SvcThread, timeslice: nat, c: Tcb)
    requires r != [] && Inv(r, MAX_TICKS) && timeslice >= 2 && !Step(r, Delete(t), timeslice).Panicked()
    ensures c in Worked(r, Delete(t), timeslice) <==> Acted(r, Delete(t), timeslice, c)
  {
    var k := PlaceOf(r, t);
    if k == |r| || r[k].main {
      NothingFreed(r, Delete(t), timeslice, c);
    } else if k == 0 {
      ExitIsActed(r, Delete(t), timeslice, c);
    } else {
      GoingIsActed(r, Delete(t), timeslice, k, c);
    }
  }

  lemma ExitIsActed(r: seq<Tcb>, e: Event, timeslice: nat, c: Tcb)
    requires r != [] && Inv(r, MAX_TICKS) && timeslice >= 2 && !Step(r, e, timeslice).Panicked()
    requires e == Exit || e == Delete(r[0].id)
    ensures c in Worked(r, e, timeslice) <==> Acted(r, e, timeslice, c)
  {
    if r[0].main || |r| == 1 {
      NothingFreed(r, e, timeslice, c);
    } else {
      assert Without(r, 0) == r[1..];
      GoingIsActed(r, e, timeslice, 0, c);
    }
  }

  lemma DisableIsActed(r: seq<Tcb>, timeslice: nat, c: Tcb)
    requires r != [] && timeslice >= 2
    ensures c in Worked(r, Disable, timeslice) <==> Acted(r, Disable, timeslice, c)
  {
    if r[0].main {
      assert forall p :: p in r ==> p.id in Ids(r);
    } else {
      NothingFreed(r, Disable, timeslice, c);
    }
  }

  lemma StepAges(r: seq<Tcb>, e: Event, timeslice: nat, c: Tcb)
    requires r != [] && Inv(r, MAX_TICKS) && Legal(r, e) && timeslice >= 2
    ensures HandedOver(r, e, timeslice) == [] ==> !Step(r, e, timeslice).Panicked()
    ensures var o := Step(r, e, timeslice);
            !o.Panicked() && (c in o.ring <==> Aged(Worked(r, e, timeslice), SleptBy(o), c))
  {
    StepKeepsInv(r, e, timeslice);
    var q := HandedOver(r, e, timeslice);
    if q == [] {
      Returning(r, e, timeslice, MAX_TICKS);
      if Step(r, e, timeslice).ring != [] { NoneWakes(Step(r, e, timeslice).ring); }
    } else {
      HandingOver(r, e, timeslice, MAX_TICKS);
      ScheduledIsAged(q, c);
    }
  }

  /** Who is blocked after a step: the running thread if it just asked for that, and everybody who was, except where the
      thread or the one it waits for is freed, or where main does something else, having run in a deadlock. */
  lemma StepBlocksExactly(r: seq<Tcb>, e: Event, timeslice: nat, c: Tcb)
    requires r != [] && Inv(r, MAX_TICKS) && Legal(r, e) && timeslice >= 2 && c.status == WaitingFor
    ensures var o := Step(r, e, timeslice); var freed := FreedBy(r, e);
            && !o.Panicked()
            && (c in o.ring <==>
                  || (Blocks(r, e) && c == r[0].(status := WaitingFor, target := e.target))
                  || (c in r && Stays(r, e, timeslice, c) && c.target !in freed))
  {
    StepAges(r, e, timeslice, c);
    WorkedIsActed(r, e, timeslice, c);
    ActedBlocked(r, e, timeslice, c);
  }

  lemma ActedBlocked(r: seq<Tcb>, e: Event, timeslice: nat, c: Tcb)
    requires r != [] && timeslice > 0 && c.status == WaitingFor
    ensures Acted(r, e, timeslice, c) <==>
              || (Blocks(r, e) && c == r[0].(status := WaitingFor, target := e.target))
              || (c in r && Stays(r, e, timeslice, c) && c.target !in FreedBy(r, e))
  {
    if c in r && Stays(r, e, timeslice, c) && c.target !in FreedBy(r, e) {
      assert Kept(c, FreedBy(r, e), c);
    }
  }

  lemma ActedAsleep(r: seq<Tcb>, e: Event, timeslice: nat, c: Tcb)
    requires r != [] && timeslice > 0 && c.status == Waiting
    ensures Acted(r, e, timeslice, c) <==>
              || (Sleeps(r, e, timeslice) && c == Asleep(r[0], Ticks(e.millis, timeslice)))
              || (c in r && Stays(r, e, timeslice, c))
  {
    if c in r && Stays(r, e, timeslice, c) {
      assert Kept(c, FreedBy(r, e), c);
    }
  }

  /** Who sleeps after a step: the running thread if it just asked for that, and everybody who did, each with as many
      ticks less as the step slept, until none are left. */
  lemma StepSleepsExactly(r: seq<Tcb>, e: Event, timeslice: nat, o: Outcome, c: Tcb, was: Tcb)
    requires r != [] && Inv(r, MAX_TICKS) && Legal(r, e) && timeslice >= 2 && o == Step(r, e, timeslice)
    requires c.status == Waiting && was == c.(waiting := c.waiting + SleptBy(o))
    ensures !o.Panicked() && (c in o.ring <==> c.waiting > 0 && SleptBefore(r, e, timeslice, was))
  {
    SleeperAges(r, e, timeslice, o, c, was);
    WorkedSlept(r, e, timeslice, was);
  }

  lemma SleeperAges(r: seq<Tcb>, e: Event, timeslice: nat, o: Outcome, c: Tcb, was: Tcb)
    requires r != [] && Inv(r, MAX_TICKS) && Legal(r, e) && timeslice >= 2 && o == Step(r, e, timeslice)
    requires c.status == Waiting && was == c.(waiting := c.waiting + SleptBy(o))
    ensures HandedOver(r, e, timeslice) == [] ==> !o.Panicked()
    ensures !o.Panicked() && (c in o.ring <==> c.waiting > 0 && was in Worked(r, e, timeslice))
  {
    StepAges(r, e, timeslice, c);
    AgedSleeper(Worked(r, e, timeslice), SleptBy(o), c, was);
  }

  lemma AgedSleeper(q: seq<Tcb>, s: nat, c: Tcb, was: Tcb)
    requires c.status == Waiting && was == c.(waiting := c.waiting + s)
    ensures Aged(q, s, c) <==> c.waiting > 0 && was in q
  {
  }

  lemma WorkedSlept(r: seq<Tcb>, e: Event, timeslice: nat, was: Tcb)
    requires r != [] && Inv(r, MAX_TICKS) && Legal(r, e) && timeslice >= 2 && was.status == Waiting
    ensures HandedOver(r, e, timeslice) == [] ==> !Step(r, e, timeslice).Panicked()
    ensures was in Worked(r, e, timeslice) <==> SleptBefore(r, e, timeslice, was)
  {
    WorkedIsActed(r, e, timeslice, was);
    ActedAsleep(r, e, timeslice, was);
    if e.Wait? { TicksBound(e.millis, timeslice); }
  }

  /** A thread that slept, or goes to sleep now. */
  ghost predicate SleptBefore(r: seq<Tcb>, e: Event, timeslice: nat, was: Tcb)
    requires r != [] && timeslice > 0
  {
    || (Sleeps(r, e, timeslice) && was == r[0].(status := Waiting, waiting := e.millis / timeslice + 1))
    || (was in r && was.id !in FreedBy(r, e))
  }

  /** Who can run after a step: a thread just made, everybody who could and did not give way, everybody whose target was
      freed, and everybody whose sleep is over. */
  lemma StepRunsExactly(r: seq<Tcb>, e: Event, timeslice: nat, c: Tcb)
    requires r != [] && Inv(r, MAX_TICKS) && Legal(r, e) && timeslice >= 2 && c.status == Runnable
    ensures var o := Step(r, e, timeslice);
            && !o.Panicked()
            && (c in o.ring <==>
                  || (e.Create? && c == Tcb(e.t, false, Runnable, 0, null))
                  || (c in r && Stays(r, e, timeslice, c))
                  || (exists p :: p in r && Freer(r, e, p, c))
                  || (exists p :: p in r && Woken(r, e, timeslice, SleptBy(o), p, c)))
  {
    StepAges(r, e, timeslice, c);
    var o, w := Step(r, e, timeslice), Worked(r, e, timeslice);
    WorkedIsActed(r, e, timeslice, c);
    forall p | p in w && Wakes(p, SleptBy(o), c)
      ensures exists x :: x in r && Woken(r, e, timeslice, SleptBy(o), x, c)
    {
      WakerIsWoken(r, e, timeslice, SleptBy(o), p, c);
    }
    forall x | x in r && Woken(r, e, timeslice, SleptBy(o), x, c)
      ensures exists p :: p in w && Wakes(p, SleptBy(o), c)
    {
      WokenIsWaker(r, e, timeslice, SleptBy(o), x, c);
    }
    if c in w {
      if p :| p in r && Stays(r, e, timeslice, p) && Kept(p, FreedBy(r, e), c) {
        assert p == c || Freer(r, e, p, c);
      }
    }
    if p :| p in r && Freer(r, e, p, c) {
      assert Stays(r, e, timeslice, p) && Kept(p, FreedBy(r, e), c);
    }
    if c in r && Stays(r, e, timeslice, c) {
      assert Kept(c, FreedBy(r, e), c);
    }
  }

  /** Thread p was blocked on one that is freed, and is not freed itself. */
  ghost predicate Freer(r: seq<Tcb>, e: Event, p: Tcb, c: Tcb) {
    && p.status == WaitingFor && p.target in FreedBy(r, e) && p.id !in FreedBy(r, e)
    && c == p.(status := Runnable, target := null)
  }

  /** Thread p slept, or goes to sleep now, for no more than what the step slept. */
  ghost predicate Woken(r: seq<Tcb>, e: Event, timeslice: nat, s: nat, p: Tcb, c: Tcb)
    requires r != [] && timeslice > 0
  {
    && c == p.(status := Runnable, waiting := 0)
    && if p.status == Waiting then p.waiting <= s && p.id !in FreedBy(r, e)
       else p == r[0] && Sleeps(r, e, timeslice) && e.millis / timeslice + 1 <= s
  }

  lemma WakerIsWoken(r: seq<Tcb>, e: Event, timeslice: nat, s: nat, p: Tcb, c: Tcb)
    requires r != [] && Inv(r, MAX_TICKS) && Legal(r, e) && timeslice >= 2
    requires HandedOver(r, e, timeslice) == [] ==> !Step(r, e, timeslice).Panicked()
    requires p in Worked(r, e, timeslice) && Wakes(p, s, c)
    ensures exists x :: x in r && Woken(r, e, timeslice, s, x, c)
  {
    WorkedIsActed(r, e, timeslice, p);
    if e.Wait? { TicksBound(e.millis, timeslice); }
    if x :| x in r && Stays(r, e, timeslice, x) && Kept(x, FreedBy(r, e), p) {
      assert x == p && Woken(r, e, timeslice, s, x, c);
    } else {
      assert Woken(r, e, timeslice, s, r[0], c);
    }
  }

  lemma WokenIsWaker(r: seq<Tcb>, e: Event, timeslice: nat, s: nat, x: Tcb, c: Tcb)
    requires r != [] && Inv(r, MAX_TICKS) && Legal(r, e) && timeslice >= 2
    requires HandedOver(r, e, timeslice) == [] ==> !Step(r, e, timeslice).Panicked()
    requires x in r && Woken(r, e, timeslice, s, x, c)
    ensures exists p :: p in Worked(r, e, timeslice) && Wakes(p, s, c)
  {
    var p := if x.status == Waiting then x else Asleep(x, Ticks(e.millis, timeslice));
    WorkedIsActed(r, e, timeslice, p);
    if e.Wait? { TicksBound(e.millis, timeslice); }
    if x.status == Waiting {
      assert Stays(r, e, timeslice, x) && Kept(x, FreedBy(r, e), x);
    }
    assert Wakes(p, s, c);
  }

  // ----- runs

  /** Over a run a blocked thread, not main, stays blocked on the same thread until one of them is freed. */
  lemma {:induction false} RunKeepsBlocked(r: seq<Tcb>, es: seq<Event>, timeslice: nat, z: seq<Tcb>, c: Tcb)
    requires timeslice >= 2 && Inv(r, MAX_TICKS) && Run(r, es, timeslice, z)
    requires c in r && c.status == WaitingFor && !c.main
    requires c.id !in TotalFreed(r, es, timeslice) && c.target !in TotalFreed(r, es, timeslice)
    ensures c in z && forall i :: 0 <= i < |z| && z[i].id == c.id ==> z[i].status == WaitingFor && z[i].target == c.target
    decreases |es|
  {
    if es == [] {
      assert Distinct(r);
    } else {
      StepBlocksExactly(r, es[0], timeslice, c);
      StepKeepsInv(r, es[0], timeslice);
      RunKeepsBlocked(Step(r, es[0], timeslice).ring, es[1..], timeslice, z, c);
    }
  }

  // ----- the order of the ring

  /** A step that makes and frees nobody only turns the ring. */
  lemma StepTurnsRing(r: seq<Tcb>, e: Event, timeslice: nat)
    requires r != [] && timeslice >= 2 && Inv(r, MAX_TICKS) && Legal(r, e)
    requires e.Wait? || e.WaitFor? || e.Tick? || e.Enable?
    ensures var o := Step(r, e, timeslice);
            !o.Panicked() && exists k :: 0 <= k <= |r| && Ids(o.ring) == Ids(r)[k..] + Ids(r)[..k]
  {
    var q := HandedOver(r, e, timeslice);
    if q == [] {
      Returning(r, e, timeslice, MAX_TICKS);
      assert Ids(r) == Ids(r)[0..] + Ids(r)[..0];
    } else {
      HandingOver(r, e, timeslice, MAX_TICKS);
      SameIds(q, r);
      ScheduleTurns(q);
    }
  }

  lemma ScheduleTurns(q: seq<Tcb>)
    requires Well(q, MAX_TICKS)
    ensures var o := Schedule(q);
            !o.Panicked() && exists k :: 0 <= k <= |q| && Ids(o.ring) == Ids(q)[k..] + Ids(q)[..k]
  {
    NeverPanics(q, MAX_TICKS);
    var k := FirstRunnable(q);
    if k < |q| {
      TurnedIds(q, k);
    } else if SomeWaiting(q) {
      var w := LeastWaiter(q);
      SameIds(Elapse(q, q[w].waiting), q);
      TurnedIds(Elapse(q, q[w].waiting), w);
    } else {
      TurnedIds(q, FirstMain(q));
    }
  }

  lemma TurnedIds(q: seq<Tcb>, k: nat)
    requires k <= |q|
    ensures Ids(Rotate(q, k)) == Ids(q)[k..] + Ids(q)[..k]
  {
  }

  /** A new thread comes right behind its maker, which runs on. */
  lemma CreatedIsNext(r: seq<Tcb>, t: SvcThread, timeslice: nat)
    requires r != [] && timeslice > 0
    ensures var o := Step(r, Create(t), timeslice);
            o.Returned? && |o.ring| == |r| + 1 && o.ring[0] == r[0] && o.ring[1].id == t && o.ring[2..] == r[1..]
  {
  }

  /** A tick changes nothing while the running thread can run; in a deadlock it finds a thread that can, if any. */
  lemma TickIs(r: seq<Tcb>, timeslice: nat, c: nat)
    requires r != [] && timeslice > 0 && c < |r| && r[c].status == Runnable
    requires forall i :: 0 <= i < c ==> r[i].status != Runnable
    ensures var o := Step(r, Tick, timeslice);
            !o.Panicked() && SleptBy(o) == 0 && o.ring[0] == r[c] && (c == 0 ==> o.ring == r)
  {
    ChoosesNearestRunnable(r, c);
  }

  // ----- calls about a thread that is not the running one

  /** Another thread put to sleep owes the ticks asked for, one less than the running thread would; nobody else changes. */
  lemma AnotherSleeps(r: seq<Tcb>, k: nat, millis: nat, timeslice: nat)
    requires 0 < k < |r| && timeslice > 0 && millis >= timeslice
    ensures var o := WaitMillis(r, k, millis, timeslice);
            && o.Returned? && |o.ring| == |r|
            && o.ring[k] == Tcb(r[k].id, r[k].main, Waiting, millis / timeslice, r[k].target)
            && forall i :: 0 <= i < |r| && i != k ==> o.ring[i] == r[i]
  {
    assert millis / timeslice >= 1;
  }

  /** Another thread blocked on a third waits for that one; nobody else changes. */
  lemma AnotherBlocks(r: seq<Tcb>, k: nat, t: SvcThread)
    requires 0 < k < |r| && t != r[k].id
    ensures var o := WaitThread(r, k, t);
            && o.Returned? && |o.ring| == |r|
            && o.ring[k] == Tcb(r[k].id, r[k].main, WaitingFor, r[k].waiting, t)
            && forall i :: 0 <= i < |r| && i != k ==> o.ring[i] == r[i]
  {
  }
}
