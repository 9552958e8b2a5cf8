/** Inputs at which the code falls short of its intent, each reached by a run from the start. */
module Shortcomings {
  import C = Calendar
  import D = Descriptors
  import G = PageTableGuards
  import M = PageTableMaps
  import N = NumberText
  import O = PageOwners
  import P = PageBlocks
  import R = Ring
  import S = SlabLayout
  import T = PageTables
  import V = PageTableRuns
  import B = PageBits
  import Runs = SchedulerRuns
  import Lives = SchedulerLives
  import Calls = ThreadSyscalls
  import opened Scheduler
  import Steps = PageTableSteps
  import Caches = SlabCaches
  import L = SlabLoop
  import Q = Sequences
  import Slabs
  import opened Threads

  // ----- the scheduler

  function Main(m: SvcThread): Tcb {
    NewTcb(m).(main := true)
  }

  /** The steps one after another lead through these rings. */
  ghost predicate Leads(rs: seq<seq<Tcb>>, es: seq<Runs.Event>) {
    && |rs| == |es| + 1
    && forall i :: 0 <= i < |es| ==> Goes(rs[i], es[i], rs[i + 1])
  }

  ghost predicate Goes(r: seq<Tcb>, e: Runs.Event, z: seq<Tcb>) {
    Runs.Legal(r, e) && !Runs.Step(r, e, 1).Panicked() && Runs.Step(r, e, 1).ring == z
  }

  lemma PlaceIs(r: seq<Tcb>, t: SvcThread, k: nat)
    requires k < |r| && r[k].id == t && forall j :: 0 <= j < k ==> r[j].id != t
    ensures R.PlaceOf(r, t) == k
  {
  }

  lemma {:induction false} LeadsIsRun(rs: seq<seq<Tcb>>, es: seq<Runs.Event>)
    requires Leads(rs, es)
    ensures Runs.Run(rs[0], es, 1, rs[|es|])
    decreases |es|
  {
    if es != [] {
      assert Leads(rs[1..], es[1..]);
      LeadsIsRun(rs[1..], es[1..]);
    }
  }

  /** Main waits for a thread: that thread runs. */
  lemma MainBlocks(m: SvcThread, t: SvcThread)
    requires m != t
    ensures Runs.Legal([Main(m), NewTcb(t)], Runs.WaitFor(t))
    ensures Runs.Step([Main(m), NewTcb(t)], Runs.WaitFor(t), 1) == R.Resumed([NewTcb(t), R.Blocked(Main(m), t)], 0)
  {
    var r := [Main(m), NewTcb(t)];
    assert R.PlaceOf(r, t) == 1;
    var q := r[0 := R.Blocked(r[0], t)];
    assert R.FirstRunnable(q) == 1;
    assert R.Rotate(q, 1) == [NewTcb(t), R.Blocked(Main(m), t)];
  }

  /** That thread waits for 0xfffffffe milliseconds of a timeslice of one. */
  lemma LongWaitStops(m: SvcThread, t: SvcThread)
    ensures Runs.Step([NewTcb(t), R.Blocked(Main(m), t)], Runs.Wait(0xffff_fffe), 1).NoWaiter?
  {
    var z := [NewTcb(t), R.Blocked(Main(m), t)];
    var q := z[0 := R.Asleep(z[0], 0xffff_ffff)];
    Runs.PanicsExactlyWhen(q);
    assert Runs.Step(z, Runs.Wait(0xffff_fffe), 1) == R.Schedule(q);
  }

  /** From a new scheduler with a timeslice of one, the four system calls stop the kernel. */
  method LongWaitPanics() returns (e: Exit)
    ensures e == PanicNoWaiter
  {
    var s := new KernelScheduler(1);
    ghost var m := Calls.KernelThreadEnable(s);
    var t := Calls.KernelThreadCreate(s, 1, 1, 1);
    MainBlocks(m, t);
    LongWaitStops(m, t);
    assert s.view == [Main(m), NewTcb(t)];
    e := Calls.KernelThreadWaitFor(s, t);
    e := Calls.KernelThreadWaitMillis(s, 0xffff_fffe);
  }

  /** A wait that does not panic, since another thread can run, and then that thread exits. */
  lemma ExitPanics(m: SvcThread, a: SvcThread, p: SvcThread, x: SvcThread)
    requires m != a && m != p && m != x && a != p && a != x && p != x
    ensures exists z :: Runs.Run([], ExitRun(m, a, p, x), 1, z)
                     && Runs.Legal(z, Runs.Exit) && Runs.Step(z, Runs.Exit, 1).NoWaiter?
  {
    var rs := ExitRings(m, a, p, x);
    ExitRunBegins(m, a, p, x);
    ExitRunEnds(m, a, p, x);
    LeadsIsRun(rs, ExitRun(m, a, p, x));
    ExitStops(rs[9], m, a, p);
  }

  function ExitRun(m: SvcThread, a: SvcThread, p: SvcThread, x: SvcThread): seq<Runs.Event> {
    [Runs.Enable(m), Runs.Create(a), Runs.Create(p), Runs.WaitFor(a), Runs.Create(x), Runs.WaitFor(x),
     Runs.WaitFor(m), Runs.Delete(x), Runs.Wait(0xffff_fffe)]
  }

  function ExitRings(m: SvcThread, a: SvcThread, p: SvcThread, x: SvcThread): seq<seq<Tcb>> {
    var main, mb, pb, xb := Main(m), R.Blocked(Main(m), a), R.Blocked(NewTcb(p), x), R.Blocked(NewTcb(x), m);
    [[], [main], [main, NewTcb(a)], [main, NewTcb(p), NewTcb(a)], [NewTcb(p), NewTcb(a), mb],
     [NewTcb(p), NewTcb(x), NewTcb(a), mb], [NewTcb(x), NewTcb(a), mb, pb], [NewTcb(a), mb, pb, xb],
     [NewTcb(a), mb, R.ReleaseOne(pb, x)], [R.ReleaseOne(pb, x), R.Asleep(NewTcb(a), 0xffff_ffff), mb]]
  }

  lemma ExitRunBegins(m: SvcThread, a: SvcThread, p: SvcThread, x: SvcThread)
    requires m != a && m != p && m != x && a != p && a != x && p != x
    ensures var rs, es := ExitRings(m, a, p, x), ExitRun(m, a, p, x);
            forall i :: 0 <= i < 5 ==> Goes(rs[i], es[i], rs[i + 1])
  {
    var rs, es := ExitRings(m, a, p, x), ExitRun(m, a, p, x);
    assert Goes(rs[0], es[0], rs[1]);
    assert Goes(rs[1], es[1], rs[2]);
    assert Goes(rs[2], es[2], rs[3]);
    PlaceIs(rs[3], a, 2);
    BlocksOn(rs[3], a);
    assert Goes(rs[3], es[3], rs[4]);
    assert Goes(rs[4], es[4], rs[5]);
  }

  /** The running thread waits for another, and the one behind it runs. */
  lemma BlocksOn(r: seq<Tcb>, t: SvcThread)
    requires |r| > 1 && r[0].id != t && r[1].status == Runnable
    ensures Runs.Step(r, Runs.WaitFor(t), 1) == R.Resumed(r[1..] + [R.Blocked(r[0], t)], 0)
  {
    var q := r[0 := R.Blocked(r[0], t)];
    assert R.FirstRunnable(q) == 1;
    assert R.Rotate(q, 1) == r[1..] + [R.Blocked(r[0], t)];
  }

  lemma ExitRunEnds(m: SvcThread, a: SvcThread, p: SvcThread, x: SvcThread)
    requires m != a && m != p && m != x && a != p && a != x && p != x
    ensures var rs, es := ExitRings(m, a, p, x), ExitRun(m, a, p, x);
            forall i :: 5 <= i < 9 ==> Goes(rs[i], es[i], rs[i + 1])
  {
    var rs, es := ExitRings(m, a, p, x), ExitRun(m, a, p, x);
    PlaceIs(rs[5], x, 1);
    BlocksOn(rs[5], x);
    assert Goes(rs[5], es[5], rs[6]);
    PlaceIs(rs[6], m, 2);
    BlocksOn(rs[6], m);
    assert Goes(rs[6], es[6], rs[7]);
    PlaceIs(rs[7], x, 3);
    assert Goes(rs[7], es[7], rs[8]);
    var q := rs[8][0 := R.Asleep(rs[8][0], 0xffff_ffff)];
    assert R.FirstRunnable(q) == 2;
    assert R.Rotate(q, 2) == rs[9];
    assert Goes(rs[8], es[8], rs[9]);
  }

  lemma ExitStops(z: seq<Tcb>, m: SvcThread, a: SvcThread, p: SvcThread)
    requires |z| == 3 && z[0].id == p && !z[0].main && a != p
    requires z[1] == R.Asleep(NewTcb(a), 0xffff_ffff) && z[2] == R.Blocked(Main(m), a)
    ensures Runs.Step(z, Runs.Exit, 1).NoWaiter?
  {
    var q := R.Release(z[1..], p);
    assert q == z[1..];
    Runs.PanicsExactlyWhen(q);
  }

  /** Main waits for 0xffffffff milliseconds of a timeslice of one while a thread can run: it is waiting, for nothing. */
  lemma WaitWraps(m: SvcThread, t: SvcThread)
    requires m != t
    ensures exists z: seq<Tcb> :: Runs.Run([], [Runs.Enable(m), Runs.Create(t), Runs.Wait(0xffff_ffff)], 1, z)
                     && |z| == 2 && z[1].status == Waiting && z[1].waiting == 0
  {
    var r := [Main(m), NewTcb(t)];
    var q := r[0 := R.Asleep(r[0], 0)];
    assert R.FirstRunnable(q) == 1;
    var z := R.Rotate(q, 1);
    assert z == [NewTcb(t), R.Asleep(Main(m), 0)];
    LeadsIsRun([[], [Main(m)], r, z], [Runs.Enable(m), Runs.Create(t), Runs.Wait(0xffff_ffff)]);
  }

  /** A thread created while no ring runs is lost. */
  lemma CreatedTooEarly(t: SvcThread)
    ensures Runs.Run([], [Runs.Create(t)], 2, []) && Lives.TotalLost([], [Runs.Create(t)], 2) == [t]
  {
    assert [Runs.Create(t)][1..] == [];
  }

  // ----- number printing

  /** 16 has one digit in base 17, and it is not printed. */
  lemma SixteenIsLost()
    ensures N.HasBigDigit(16, 17) && !N.Readable(N.Text(16, 17), 17)
  {
    N.BigDigitIsLost(16, 17);
  }

  /** The largest 64-bit number has more than 36 digits in base 3. */
  lemma BaseThreeOverruns()
    ensures |N.Backwards(0xffff_ffff_ffff_ffff, 3)| > 36
  {
    assert N.Power(3, 9) == 19683;
    N.PowerAdd(3, 9, 9);
    N.PowerAdd(3, 18, 18);
    N.FitsExactlyWhen(0xffff_ffff_ffff_ffff, 3, 36);
  }

  // ----- the calendar

  /** The first midnight is the sixtieth second of the last minute before it. */
  lemma MidnightIsLate()
    ensures C.IsMoment(86400, 0, C.Timestamp(1970, 1, 1, 23, 59, 60))
  {
  }

  /** The first second has the same date as one 2^32 years later. */
  lemma FirstSecondComesBack()
    ensures exists u :: u > 1 && C.IsMoment(u, C.UINT32_SIZE, C.Timestamp(1970, 1, 1, 0, 0, 1))
    ensures C.IsMoment(1, 0, C.Timestamp(1970, 1, 1, 0, 0, 1))
  {
    C.DatesComeBack(1, 0, C.Timestamp(1970, 1, 1, 0, 0, 1));
  }

  // ----- slabs

  /** With objects of four bytes off slab it reads behind the map. */
  lemma CheckReadsBehindMap()
    ensures var s := S.Shape(4096, 1, 4, true); s.Valid() && s.MapStart() + s.CheckedBytes() > s.MemoryBytes()
  {
    S.CheckInMemoryExactlyWhen(S.Shape(4096, 1, 4, true));
  }

  // ----- physical pages

  /** One block of two pages, at an address that needs no alignment. */
  function SmallBlock(): P.PageBlock {
    P.NewBlock(4096, 2)
  }

  /** Page 0 is taken, then pages 1 and 2, then page 0 is given back: it is free, but the block counts as full. */
  lemma FreePageIsNotFound()
    ensures exists t :: O.Run(O.State([], map[]),
                [O.Grow(4096, 2), O.TakePage(1), O.TakeRun(2, 0, 2), O.FreeRun(1, 4096, 1)], t)
              && |t.bs| == 1 && t.bs[0].size == 2 && !t.bs[0].used[0] && P.FirstRoom(t.bs) == |t.bs|
  {
    var s1, s2 := O.State([SmallBlock()], map[]), FirstTaken();
    var s3, s4 := SecondTaken(), FirstBack();
    GrowsSmall();
    TakesFirst();
    TakesSecond();
    GivesFirst();
    FourSteps(O.State([], map[]), O.Grow(4096, 2), s1, O.TakePage(1), s2, O.TakeRun(2, 0, 2), s3, O.FreeRun(1, 4096, 1), s4);
  }

  lemma GrowsSmall()
    ensures O.Step(O.State([], map[]), O.Grow(4096, 2), O.State([SmallBlock()], map[]))
    ensures O.Inv([SmallBlock()], map[])
  {
    assert [] + [SmallBlock()] == [SmallBlock()];
    O.GrowKeepsInv([], map[], 4096, 2);
  }

  function FirstTaken(): O.State {
    O.State(P.PutUsed([SmallBlock()], 0, 0, true), map[4096 := 1])
  }

  lemma TakesFirst()
    ensures O.Step(O.State([SmallBlock()], map[]), O.TakePage(1), FirstTaken())
    ensures O.Inv(FirstTaken().bs, FirstTaken().held)
  {
    var bs := [SmallBlock()];
    GrowsSmall();
    B.CountNone(bs[0].used);
    assert P.TakesPage(bs, 0, 0);
    assert O.TookPage(O.State(bs, map[]), 1, 0, 0, FirstTaken());
    O.TakingPage(bs, map[], 0, 0, 1);
  }

  ghost function SecondTaken(): O.State {
    O.State(P.SetRun(FirstTaken().bs, 8192, 2, true), FirstTaken().held + O.RunOf(8192, 2, 2))
  }

  lemma TakesSecond()
    ensures O.Step(FirstTaken(), O.TakeRun(2, 0, 2), SecondTaken())
    ensures O.Inv(SecondTaken().bs, SecondTaken().held)
  {
    var s := FirstTaken();
    TakesFirst();
    P.IsUsedAt(s.bs, 0, 0);
    P.IsUsedAt(s.bs, 0, 1);
    P.IsUsedAt(s.bs, 0, 2);
    assert P.RunFree(s.bs, 8192, 2) by {
      forall b: nat | b < 2 ensures !P.IsUsed(s.bs, 8192 + P.PAGE * b) {
        assert 8192 + P.PAGE * b == P.PageAt(s.bs[0], 1 + b);
      }
    }
    assert !P.RunFree(s.bs, 4096, 2) by {
      assert P.IsUsed(s.bs, 4096 + P.PAGE * 0);
    }
    assert P.PageAt(s.bs[0], 0) == 4096 && P.PageAt(s.bs[0], 1) == 8192;
    assert O.TookRun(s, 2, 0, 2, 0, 1, SecondTaken());
    O.TakingRun(s, 2, 0, 2, 0, 1, SecondTaken());
  }

  ghost function FirstBack(): O.State {
    O.State(P.SetRun(SecondTaken().bs, 4096, 1, false), O.GivenBack(SecondTaken().held, 4096, 1))
  }

  lemma GivesFirst()
    ensures O.Step(SecondTaken(), O.FreeRun(1, 4096, 1), FirstBack())
    ensures var b := FirstBack().bs; |b| == 1 && b[0].size == 2 && !b[0].used[0] && P.FirstRoom(b) == 1
  {
    FirstIsOwned();
    BitsAfter();
    var u := FirstBack().bs[0].used;
    assert B.OnlyClear(u, 2, 0);
    B.GivesUpTooEarly(u, 2);
  }

  lemma FirstIsOwned()
    ensures var s := SecondTaken(); O.Owns(s.held, 1, 4096, 1) && !O.Splits(s.bs, s.held, 4096, 1)
  {
    FirstStaysHeld();
    TakesSecond();
    SecondBlock();
    O.NothingSplits(SecondTaken().bs, SecondTaken().held, 4096, 1, 1);
  }

  lemma FirstStaysHeld()
    ensures O.Owns(SecondTaken().held, 1, 4096, 1)
  {
    assert 4096 !in O.RunOf(8192, 2, 2);
  }

  lemma SecondBlock()
    ensures SecondTaken().bs == P.RunIn(FirstTaken().bs, 0, 1, 2, true)
  {
    TakesFirst();
    assert P.PageAt(FirstTaken().bs[0], 1) == 8192;
    P.SetRunAt(FirstTaken().bs, 0, 1, 2, true);
  }

  lemma BitsAfter()
    ensures var b := FirstBack().bs; |b| == 1 && b[0].size == 2
    ensures var u := FirstBack().bs[0].used; !u[0] && u[1] && u[2] && forall k :: 2 < k < 128 ==> !u[k]
  {
    var s := SecondTaken();
    SecondBlock();
    TakesSecond();
    assert P.PageAt(s.bs[0], 0) == 4096;
    P.SetRunAt(s.bs, 0, 0, 1, false);
  }

  lemma FourSteps(s: O.State, e: O.Event, s1: O.State, f: O.Event, s2: O.State,
                  g: O.Event, s3: O.State, h: O.Event, s4: O.State)
    requires O.Step(s, e, s1) && O.Step(s1, f, s2) && O.Step(s2, g, s3) && O.Step(s3, h, s4)
    ensures O.Run(s, [e, f, g, h], s4)
  {
    assert O.Run(s4, [], s4);
    assert [h][1..] == [] && [g, h][1..] == [h] && [f, g, h][1..] == [g, h] && [e, f, g, h][1..] == [f, g, h];
    assert O.Run(s3, [h], s4);
    assert O.Run(s2, [g, h], s4);
    assert O.Run(s1, [f, g, h], s4);
  }

  /** A block of 128 pages taken whole, with the page behind it: given back alone, page 127 can be taken again
      together with page 128, which is still held. */
  lemma HeldPageIsFreeToTake()
    ensures exists s: O.State :: O.Run(O.State([], map[]), [O.Grow(4096, 128), O.TakeRun(129, 0, 1)], s)
              && |s.bs| == 1 && var page := P.PageAt(s.bs[0], 127);
                 && O.Owns(s.held, 1, page, 1) && O.Splits(s.bs, s.held, page, 1)
                 && P.RunFits(P.SetUsed(s.bs, page, false), 0, 127, 2, 0)
                 && P.PageAt(s.bs[0], 128) in O.GivenBack(s.held, page, 1)
  {
    var s := WholeTaken();
    TakesWhole();
    TwoSteps(O.State([], map[]), O.Grow(4096, 128), O.State([BigBlock()], map[]), O.TakeRun(129, 0, 1), s);
    LastIsSplit();
    O.SplitLeavesHeldPageFree(s.bs, s.held, 0);
  }

  lemma LastIsSplit()
    ensures var s := WholeTaken(); |s.bs| == 1 && s.bs[0].size == 128 && P.PageAt(s.bs[0], 128) in s.held
    ensures var s := WholeTaken(); var page := P.PageAt(s.bs[0], 127);
            O.Owns(s.held, 1, page, 1) && O.Splits(s.bs, s.held, page, 1)
  {
    var s := WholeTaken();
    WholeBlock();
    var page := P.PageAt(s.bs[0], 127);
    assert O.At(page, 4096, 127) && O.At(P.PageAt(s.bs[0], 128), 4096, 128);
    assert page in s.held && s.held[page] == 1 && P.PageAt(s.bs[0], 128) in s.held;
    assert O.At(page, page, 0);
    assert O.SplitsAt(s.bs[0], s.held, page, 1);
  }

  lemma WholeBlock()
    ensures WholeTaken().bs == P.RunIn([BigBlock()], 0, 0, 129, true)
  {
    assert [] + [BigBlock()] == [BigBlock()];
    O.GrowKeepsInv([], map[], 4096, 128);
    assert P.PageAt(BigBlock(), 0) == 4096;
    P.SetRunAt([BigBlock()], 0, 0, 129, true);
  }

  function BigBlock(): P.PageBlock {
    P.NewBlock(4096, 128)
  }

  ghost function WholeTaken(): O.State {
    O.State(P.SetRun([BigBlock()], 4096, 129, true), map[] + O.RunOf(4096, 129, 1))
  }

  lemma TakesWhole()
    ensures O.Step(O.State([], map[]), O.Grow(4096, 128), O.State([BigBlock()], map[]))
    ensures O.Step(O.State([BigBlock()], map[]), O.TakeRun(129, 0, 1), WholeTaken())
    ensures O.Inv(WholeTaken().bs, WholeTaken().held)
  {
    var bs := [BigBlock()];
    assert [] + bs == bs;
    O.GrowKeepsInv([], map[], 4096, 128);
    assert P.RunFree(bs, 4096, 129) by {
      forall b: nat | b < 129 ensures !P.IsUsed(bs, 4096 + P.PAGE * b) {
        P.IsUsedAt(bs, 0, b);
        assert 4096 + P.PAGE * b == P.PageAt(bs[0], b);
      }
    }
    assert P.PageAt(bs[0], 0) == 4096;
    assert O.TookRun(O.State(bs, map[]), 129, 0, 1, 0, 0, WholeTaken());
    O.TakingRun(O.State(bs, map[]), 129, 0, 1, 0, 0, WholeTaken());
  }

  lemma TwoSteps(s: O.State, e: O.Event, s1: O.State, f: O.Event, s2: O.State)
    requires O.Step(s, e, s1) && O.Step(s1, f, s2)
    ensures O.Run(s, [e, f], s2)
  {
    assert O.Run(s2, [], s2);
    assert [f][1..] == [] && [e, f][1..] == [f];
    assert O.Run(s1, [f], s2);
  }

  // ----- the allocation loop

  /** A cache of page-sized objects comes back from two allocations, and never from the third. */
  method ThirdAllocationHangs() returns (c: Caches.Cache)
    ensures c.Valid() && L.Hangs(c.partial, c.full, c.free, c.Roomy())
  {
    c := new Caches.Cache(4096, false);
    var obj := AllocOne(c, 4096);
    obj := AllocOne(c, 8192);
    c.HangsIs();
  }

  /** After two allocations the second object is given back: the slab of the first takes it for one of its own, and the
      object stays marked used. */
  method NeighbourTakesObject() returns (c: Caches.Cache, ok: bool)
    ensures c.Valid() && ok
    ensures exists s :: s in c.slabs && S.AddressOf(s.cut, 0) == 8192 && |s.bits| > 0 && s.bits[0]
  {
    ghost var first: Slabs.Slab, second: Slabs.Slab;
    c, first, second := TwoObjects();
    ok := GiveBack(c, 8192, first, second);
  }

  /** One slab is full, and the other, right behind it, is the only one on the partial list. */
  method TwoObjects() returns (c: Caches.Cache, ghost first: Slabs.Slab, ghost second: Slabs.Slab)
    ensures fresh(c) && c.slabs == {first, second} && fresh(first) && fresh(second)
    ensures fresh(first.memory) && fresh(second.memory)
    ensures c.Valid() && c.full == [first] && c.partial == [second] && first != second && second in c.slabs
    ensures S.Takes(first.cut, 8192) && S.AddressOf(second.cut, 0) == 8192
    ensures |second.bits| > 0 && second.bits[0]
  {
    c := new Caches.Cache(4096, false);
    var obj := AllocOne(c, 4096);
    first := c.partial[0];
    TakesNext(first.cut);
    obj := AllocOne(c, 8192);
    second := c.partial[0];
    StartsAt(second.cut);
  }

  lemma TakesNext(c: S.Cut)
    requires c.shape == S.Shape(4096, 1, 4096, false)
    ensures S.Takes(c, 8192)
  {
    OneObject(4096);
  }

  lemma StartsAt(c: S.Cut)
    requires c.shape == S.Shape(8192, 1, 4096, false)
    ensures S.AddressOf(c, 0) == 8192
  {
    OneObject(8192);
  }

  /** The only full slab accepts the address of an object of the only partial one. */
  method GiveBack(c: Caches.Cache, a: nat, ghost first: Slabs.Slab, ghost second: Slabs.Slab) returns (ok: bool)
    requires c.Valid() && c.full == [first] && c.partial == [second] && first != second && second in c.slabs
    requires S.Takes(first.cut, a)
    modifies c, c.slabs, c.Memories()
    ensures c.Valid() && ok && c.slabs == old(c.slabs) && second.bits == old(second.bits)
  {
    ghost var slab: Slabs.Slab?, k: nat, moved: bool;
    ghost var asked := c.full + c.partial;
    assert asked[0] == first;
    ok, slab, k, moved := c.FreeObject(a);
    FirstIsAsked(asked, a, k);
    assert slab == first;
  }

  lemma FirstIsAsked(asked: seq<Slabs.Slab>, a: nat, k: nat)
    requires asked != [] && S.Takes(asked[0].cut, a) && Caches.FirstTaker(asked, a, k)
    ensures k == 0 && Caches.Accepted(asked, a)
  {
  }

  /** With no room left anywhere the cache makes a slab for the object, which fills it. */
  method AllocOne(c: Caches.Cache, start: nat) returns (obj: Slabs.Object)
    requires c.Valid() && c.objSize == 4096 && !c.offSlab && c.full == [] && c.free == [] && |c.partial| <= 1
    requires c.partial != [] ==> !c.partial[0].HasRoom()
    requires start % 4096 == 0 && start + 4096 <= S.MEMORY_END
    modifies c, c.slabs, c.Memories()
    ensures c.Valid() && |c.partial| == 1 && !c.partial[0].HasRoom()
    ensures c.full == old(c.partial) && c.free == [] && fresh(c.partial[0]) && fresh(c.partial[0].memory)
    ensures c.partial[0] !in old(c.slabs) && c.slabs == old(c.slabs) + {c.partial[0]}
    ensures c.partial[0].cut.shape == S.Shape(start, 1, 4096, false)
    ensures |c.partial[0].bits| > 0 && c.partial[0].bits[0]
    ensures obj == Slabs.Object(start)
  {
    OneObject(start);
    c.HangsIs();
    ghost var slab: Slabs.Slab, i: nat, grown: Slabs.Slab;
    ghost var was, roomy := c.Lists(), c.Roomy();
    obj, slab, i, grown := c.AllocObject(S.Shape(start, 1, 4096, false));
    OneMore(was, roomy, grown);
    FullOfOne(slab);
  }

  lemma OneMore<X>(l: L.Lists<X>, roomy: set<X>, g: X)
    requires l.full == [] && l.free == [] && |l.partial| <= 1 && (l.partial != [] ==> l.partial[0] !in roomy)
    ensures L.Settled(l, roomy, g) == L.Lists([g], l.partial, [])
  {
  }

  lemma FullOfOne(s: Slabs.Slab)
    requires s.cut.objs == 1 && |s.bits| > 0 && s.bits[0]
    ensures !s.HasRoom()
  {
  }

  /** A slab of one page-sized object, which takes the address behind it for another. */
  lemma OneObject(start: nat)
    requires start % 4096 == 0 && start + 4096 <= S.MEMORY_END
    ensures var s := S.Shape(start, 1, 4096, false);
            s.Valid() && s.Objs() == 1 && s.ObjectAt(0) == start && s.Accepts(start + 4096)
  {
    S.DivIsDivision(4096, 4096);
  }

  // ----- the emptiness check

  function Page128(): S.Shape {
    S.Shape(4096, 1, 128, false)
  }

  /** Of 32 objects of 128 bytes the emptiness check looks at the first eight. */
  lemma CheckMissesObjects()
    ensures var s := Page128(); s.Valid() && s.Objs() == 32 && s.CheckedBytes() == 1 && s.MapBytes() == 5
  {
    S.DivIsDivision(4096, 128);
    S.DivIsDivision(32, 128);
  }

  /** A cache of one such slab, on the partial list, with the objects from a to b in use. */
  ghost predicate Uses(c: Caches.Cache, g: Slabs.Slab, a: nat, b: nat)
    reads c, c.slabs`bits, c.Memories(), c.full`next, c.partial`next, c.free`next
  {
    && c.Valid() && c.slabs == {g} && g.cut.shape == Page128()
    && c.full == [] && c.partial == [g] && c.free == [] && InUse(g.bits, a, b)
  }

  ghost predicate InUse(bits: seq<bool>, a: nat, b: nat) {
    forall j :: 0 <= j < |bits| ==> (bits[j] <==> a <= j < b)
  }

  /** Nine objects are allocated and the first eight given back. The slab counts as empty, and the ninth is refused. */
  method NinthIsRefused() returns (c: Caches.Cache, ok: bool)
    ensures c.Valid() && !ok
    ensures exists s :: s in c.free && |s.bits| > 8 && s.bits[8]
  {
    c := new Caches.Cache(128, false);
    ghost var g := TakeFirst(c);
    for n := 1 to 9
      invariant fresh(c) && fresh(g) && fresh(g.memory) && Uses(c, g, 0, n)
    {
      TakeNext(c, g, n);
    }
    for n := 0 to 7
      invariant fresh(c) && fresh(g) && fresh(g.memory) && Uses(c, g, n, 9)
    {
      GiveNext(c, g, n);
    }
    GiveEighth(c, g);
    ok := Refuse(c, g);
  }

  lemma NumbersOf(c: S.Cut)
    requires c.shape == Page128()
    ensures c.objs == 32 && c.checkedBytes == 1 && c.mapBytes == 5 && S.ChecksMap(c)
  {
    CheckMissesObjects();
  }

  method TakeFirst(c: Caches.Cache) returns (ghost g: Slabs.Slab)
    requires c.Valid() && c.objSize == 128 && !c.offSlab && c.slabs == {}
    requires c.full == [] && c.partial == [] && c.free == []
    modifies c
    ensures fresh(g) && fresh(g.memory) && Uses(c, g, 0, 1)
  {
    CheckMissesObjects();
    c.HangsIs();
    ghost var slab: Slabs.Slab, i: nat;
    ghost var was, roomy := c.Lists(), c.Roomy();
    var obj: Slabs.Object;
    obj, slab, i, g := c.AllocObject(Page128());
    OneMore(was, roomy, g);
  }

  method TakeNext(c: Caches.Cache, ghost g: Slabs.Slab, n: nat)
    requires Uses(c, g, 0, n) && n < 32
    modifies c, c.slabs, c.Memories()
    ensures Uses(c, g, 0, n + 1)
  {
    NumbersOf(g.cut);
    CheckMissesObjects();
    assert !g.bits[n];
    assert g.HasRoom();
    c.HangsIs();
    ghost var slab: Slabs.Slab, i: nat, grown: Slabs.Slab;
    ghost var was, roomy := c.Lists(), c.Roomy();
    var obj: Slabs.Object;
    obj, slab, i, grown := c.AllocObject(Page128());
    StillFirst(was, roomy, grown);
  }

  lemma StillFirst<X>(l: L.Lists<X>, roomy: set<X>, g: X)
    requires l.partial != [] && l.partial[0] in roomy
    ensures L.Settled(l, roomy, g) == l
  {
  }

  method GiveNext(c: Caches.Cache, ghost g: Slabs.Slab, n: nat)
    requires Uses(c, g, n, 9) && n < 7
    modifies c, c.slabs, c.Memories()
    ensures Uses(c, g, n + 1, 9)
  {
    ghost var moved := Give(c, g, n);
    assert g.bits[n + 1];
  }

  method GiveEighth(c: Caches.Cache, ghost g: Slabs.Slab)
    requires Uses(c, g, 7, 9)
    modifies c, c.slabs, c.Memories()
    ensures c.Valid() && c.slabs == {g} && g.cut.shape == Page128()
    ensures c.full == [] && c.partial == [] && c.free == [g] && InUse(g.bits, 8, 9)
  {
    ghost var moved := Give(c, g, 7);
  }

  /** Gives back object n, and says what became of the slab. */
  method Give(c: Caches.Cache, ghost g: Slabs.Slab, n: nat) returns (ghost moved: bool)
    requires c.Valid() && c.slabs == {g} && g.cut.shape == Page128() && n < 9
    requires c.full == [] && c.partial == [g] && c.free == []
    modifies c, c.slabs, c.Memories()
    ensures c.Valid() && c.slabs == {g} && c.full == [] && n < |old(g.bits)| && g.bits == old(g.bits)[n := false]
    ensures moved <==> S.ClearBelow(g.bits, 8)
    ensures if moved then c.partial == [] && c.free == [g] else c.partial == [g] && c.free == []
  {
    NumbersOf(g.cut);
    AddressIs(g.cut, n);
    assert g.Valid();
    moved := GiveSole(c, g, Address(n));
  }

  /** An object of the only slab. */
  method GiveSole(c: Caches.Cache, ghost g: Slabs.Slab, a: nat) returns (ghost moved: bool)
    requires c.Valid() && c.slabs == {g} && S.Takes(g.cut, a) && S.ChecksMap(g.cut)
    requires c.full == [] && c.partial == [g] && c.free == []
    modifies c, c.slabs, c.Memories()
    ensures c.Valid() && c.slabs == {g} && c.full == [] && g.bits == g.BitsWithout(old(g.bits), a)
    ensures moved <==> S.ClearBelow(g.bits, 8 * g.cut.checkedBytes)
    ensures if moved then c.partial == [] && c.free == [g] else c.partial == [g] && c.free == []
  {
    ghost var asked := c.full + c.partial;
    assert asked == [g] && Q.Without(c.partial, 0) == [];
    var ok: bool;
    ghost var slab: Slabs.Slab?, k: nat;
    ok, slab, k, moved := c.FreeObject(a);
    FirstIsAsked(asked, a, k);
  }

  /** The ninth object comes back to a cache that has its slab on the free list. */
  method Refuse(c: Caches.Cache, ghost g: Slabs.Slab) returns (ok: bool)
    requires c.Valid() && c.slabs == {g} && g.cut.shape == Page128()
    requires c.full == [] && c.partial == [] && c.free == [g] && InUse(g.bits, 8, 9)
    modifies c, c.slabs, c.Memories()
    ensures c.Valid() && !ok && c.free == [g] && |g.bits| > 8 && g.bits[8]
  {
    NumbersOf(g.cut);
    ghost var slab: Slabs.Slab?, k: nat, moved: bool;
    ok, slab, k, moved := c.FreeObject(Address(8));
  }

  function Address(n: nat): nat {
    4096 + 128 * n
  }

  lemma AddressIs(c: S.Cut, n: nat)
    requires c.shape == Page128() && n < 32
    ensures Address(n) == S.AddressOf(c, n) && S.Takes(c, Address(n)) && S.IndexIn(c, Address(n)) == n
  {
    CheckMissesObjects();
    S.ObjectComesBack(c.shape, n);
  }

  // ----- page tables

  /** The kernel's space as it starts, over the table found in place. */
  function Start(found: T.Table): T.Vm {
    T.Vm(T.Space(T.Windows(found, 0), [], []), [], map[])
  }

  function KernelThenSpace(): seq<M.Event> {
    [M.KernelMap(0x1000_0000, 0xe010_0000, true, 0x400), M.MakeSpace]
  }

  /** A page mapped for the kernel, then a space made. */
  lemma KernelThenSpaceIsLegal()
    ensures V.LegalRun(Start(map[]), KernelThenSpace())
    ensures var vm := V.Run(Start(map[]), KernelThenSpace());
            M.Inv(vm) && |vm.users| == 1 && D.SectionOf(0xe010_0000) in vm.kernel.cptds && M.IsBlank(0x800, vm.ram)
  {
    var e := M.KernelMap(0x1000_0000, 0xe010_0000, true, 0x400);
    KernelFirst(e);
    var vm1 := M.Step(Start(map[]), e).vm;
    V.StepKeepsInv(vm1, M.MakeSpace);
    TwoEvents(Start(map[]), e, vm1, M.MakeSpace);
    SpaceAfter(vm1);
  }

  lemma KernelFirst(e: M.Event)
    requires e == M.KernelMap(0x1000_0000, 0xe010_0000, true, 0x400)
    ensures M.Legal(Start(map[]), e) && M.Step(Start(map[]), e).Done?
    ensures var vm := M.Step(Start(map[]), e).vm;
            M.Inv(vm) && vm.users == [] && D.SectionOf(0xe010_0000) in vm.kernel.cptds && M.IsBlank(0x800, vm.ram)
  {
    V.StartIsOk(map[], map[]);
    V.StepKeepsInv(Start(map[]), e);
  }

  lemma SpaceAfter(vm: T.Vm)
    ensures M.Step(vm, M.MakeSpace).Done?
    ensures var vm' := M.Step(vm, M.MakeSpace).vm;
            |vm'.users| == |vm.users| + 1 && vm'.kernel == vm.kernel && vm'.ram == vm.ram
  {
  }

  /** A user page in the kernel's section, or in the window on RAM, takes that section out of sharing. */
  lemma UserMapUnshares(vm: T.Vm, va: D.Word, vm': T.Vm)
    requires V.LegalRun(Start(map[]), KernelThenSpace()) && vm == V.Run(Start(map[]), KernelThenSpace())
    requires |vm.users| == 1 && va in {0xe010_1000, 0xec00_0000}
    requires T.MapUser(vm, 0, 0x1000_1000, va, 0x800) == T.Done(vm')
    ensures G.Shares(vm) && !G.Shares(vm')
  {
    KernelThenSpaceIsLegal();
    G.InvShares(vm);
    SameSection();
    G.UserMapSharesExactlyWhen(vm, 0, va, T.UserPage(0x1000_1000), 0x800, vm');
  }

  lemma SameSection()
    ensures D.SectionOf(0xe010_1000) == D.SectionOf(0xe010_0000)
  {
  }

  /** So does migrating the kernel's section, unless its own table is handed out again. */
  lemma MigrateUnshares(vm: T.Vm, vm': T.Vm)
    requires V.LegalRun(Start(map[]), KernelThenSpace()) && vm == V.Run(Start(map[]), KernelThenSpace())
    requires T.Migrate(vm, 0xe010_0000, map[], 0, 0x800) == T.Done(vm')
    ensures G.Shares(vm) && !G.Shares(vm')
  {
    KernelThenSpaceIsLegal();
    G.InvShares(vm);
    assert M.IsBlank(0x800, T.Freed(vm, 0xe010_0000));
    NotCameBack(vm);
    G.MigrateSharesExactlyWhen(vm, 0xe010_0000, map[], 0, 0x800, vm');
  }

  lemma NotCameBack(vm: T.Vm)
    requires M.Inv(vm) && M.IsBlank(0x800, vm.ram)
    ensures !M.CameBack(vm, 0xe010_0000, 0x800)
  {
    V.TablesAreThere(vm, M.Kernel, vm.kernel);
  }

  function SpaceThenUser(): seq<M.Event> {
    [M.MakeSpace, M.UserMap(0, 0x1000_0000, 0x4000_0000, 0x400)]
  }

  /** A space made, then a page mapped in it. */
  lemma SpaceThenUserIsLegal()
    ensures V.LegalRun(Start(map[]), SpaceThenUser())
    ensures var vm := V.Run(Start(map[]), SpaceThenUser());
            && M.Inv(vm) && |vm.users| == 1 && M.IsBlank(0x800, vm.ram)
            && D.SectionOf(0x4000_0000) in vm.users[0].cptds && vm.kernel.cptds == []
            && M.Seen(vm, M.User(0), 0x4000_0000) == D.At(0x1000_0000)
  {
    var e := M.UserMap(0, 0x1000_0000, 0x4000_0000, 0x400);
    V.StartIsOk(map[], map[]);
    V.StepKeepsInv(Start(map[]), M.MakeSpace);
    var vm1 := M.Step(Start(map[]), M.MakeSpace).vm;
    UserThenIs(vm1, e);
    TwoEvents(Start(map[]), M.MakeSpace, vm1, e);
  }

  lemma TwoEvents(vm: T.Vm, e: M.Event, vm1: T.Vm, f: M.Event)
    requires M.Legal(vm, e) && M.Step(vm, e) == T.Done(vm1) && M.Legal(vm1, f) && M.Step(vm1, f).Done?
    ensures V.LegalRun(vm, [e, f]) && V.Run(vm, [e, f]) == M.Step(vm1, f).vm
  {
    assert [e, f][1..] == [f] && [f][1..] == [];
    assert V.LegalRun(M.Step(vm1, f).vm, []);
    assert V.LegalRun(vm1, [f]) && V.Run(vm1, [f]) == M.Step(vm1, f).vm;
  }

  lemma UserThenIs(vm1: T.Vm, e: M.Event)
    requires M.Inv(vm1) && vm1.kernel.cptds == [] && |vm1.users| == 1 && vm1.users[0].cptds == [] && vm1.ram == map[]
    requires e == M.UserMap(0, 0x1000_0000, 0x4000_0000, 0x400)
    ensures M.Legal(vm1, e) && M.Step(vm1, e).Done?
    ensures var vm := M.Step(vm1, e).vm;
            && M.Inv(vm) && |vm.users| == 1 && M.IsBlank(0x800, vm.ram)
            && D.SectionOf(0x4000_0000) in vm.users[0].cptds && vm.kernel.cptds == []
            && M.Seen(vm, M.User(0), 0x4000_0000) == D.At(0x1000_0000)
  {
    V.StepKeepsInv(vm1, e);
    M.UserMapTranslates(vm1, 0, 0x1000_0000, 0x4000_0000, 0x400, M.Step(vm1, e).vm, M.User(0), 0x4000_0000);
  }

  /** A kernel page in a section the space lists breaks the invariant, and the space loses its page. */
  lemma KernelMapTakesOver(vm: T.Vm, vm': T.Vm)
    requires V.LegalRun(Start(map[]), SpaceThenUser()) && vm == V.Run(Start(map[]), SpaceThenUser())
    requires T.MapKernel(vm, 0x1000_1000, 0x4000_1000, true, 0x800) == T.Done(vm')
    ensures M.Inv(vm) && !M.Inv(vm')
    ensures M.Exists(vm', M.User(0)) && M.Seen(vm', M.User(0), 0x4000_0000) == D.NULL
  {
    SpaceThenUserIsLegal();
    OtherSection();
    G.KernelMapKeepsInvExactlyWhen(vm, 0x4000_1000, T.KernelPage(true, 0x1000_1000), 0x800, vm');
    M.KernelMapTranslates(vm, 0x1000_1000, 0x4000_1000, true, 0x800, vm', M.User(0), 0x4000_0000);
  }

  lemma OtherSection()
    ensures D.SectionOf(0x4000_1000) == D.SectionOf(0x4000_0000) && !D.SamePage(0x4000_0000, 0x4000_1000)
  {
  }

  /** Over a table found with a section mapped, the first kernel page in that section unmaps the rest of it. */
  lemma KernelMapUnmaps(found: T.Table, vm': T.Vm)
    requires found == T.SetSlot(map[], 0x4000_0000, D.NewSD(0, 0, 0, 1, 0x4000_0000))
    requires T.MapKernel(Start(found), 0x1000_0000, 0x4000_1000, true, 0x400) == T.Done(vm')
    ensures M.Inv(Start(found)) && M.Inv(vm')
    ensures M.Seen(Start(found), M.Kernel, 0x4000_0000) == D.At(0x4000_0000)
    ensures M.Seen(vm', M.Kernel, 0x4000_0000) == D.NULL
  {
    OneSection(found);
    OtherSection();
    V.StartIsOk(found, map[]);
    V.StepKeepsInv(Start(found), M.KernelMap(0x1000_0000, 0x4000_1000, true, 0x400));
    M.KernelMapTranslates(Start(found), 0x1000_0000, 0x4000_1000, true, 0x400, vm', M.Kernel, 0x4000_0000);
  }

  lemma OneSection(found: T.Table)
    requires found == T.SetSlot(map[], 0x4000_0000, D.NewSD(0, 0, 0, 1, 0x4000_0000))
    ensures M.Known(found, map[])
    ensures T.Translate(T.Windows(found, 0), map[], 0x4000_0000) == D.At(0x4000_0000)
  {
    var d := D.NewSD(0, 0, 0, 1, 0x4000_0000);
    D.ReadSD(0, 0, 0, 1, 0x4000_0000);
    Steps.CoarseIsNoSection(d);
    Steps.CoarseIsNoSection(0);
    forall a ensures !D.IsCoarse(T.Slot(found, a)) {
      T.SlotOfSetSlot(map[], 0x4000_0000, d, a);
    }
    T.SlotOfSetSlot(map[], 0x4000_0000, d, 0x4000_0000);
    Steps.WindowsSlot(found, 0, 0x4000_0000);
    V.WalkSection(d, 0x4000_0000, map[], 0x4000_0000);
  }
}
