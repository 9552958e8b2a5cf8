/** The thread ring as a value: element 0 is the running thread, the rest follow in `next` order.
    Every scheduler entry point is a function from rings to outcomes. */
module Ring {
  import opened Sequences
  import opened Threads

  const UINT32_MAX := 0xffff_ffff
  const UINT32_SIZE := 0x1_0000_0000

  /** What a scheduler call comes to.  `Returned`: it came back to its caller.  `Resumed`: it left through
      `resume_svc_thread`, having slept `slept` ticks first.  `NoWaiter` and `NoMain` are its panics. */
  datatype Outcome =
    | Returned(ring: seq<Tcb>)
    | Resumed(ring: seq<Tcb>, slept: nat)
    | NoWaiter
    | NoMain
  {
    predicate Panicked() {
      NoWaiter? || NoMain?
    }
  }

  function Rotate<T>(r: seq<T>, k: nat): seq<T>
    requires k <= |r|
  {
    r[k..] + r[..k]
  }

  // ----- choosing a thread

  /** Index of the first runnable thread, or |r|. */
  function FirstRunnable(r: seq<Tcb>): (k: nat)
    ensures k <= |r|
    ensures k < |r| ==> r[k].status == Runnable
    ensures forall j :: 0 <= j < k ==> r[j].status != Runnable
  {
    if r == [] then 0
    else if r[0].status == Runnable then 0
    else 1 + FirstRunnable(r[1..])
  }

  /** Index of the first main thread, or |r|. */
  function FirstMain(r: seq<Tcb>): (k: nat)
    ensures k <= |r|
    ensures k < |r| ==> r[k].main
    ensures forall j :: 0 <= j < k ==> !r[j].main
  {
    if r == [] then 0
    else if r[0].main then 0
    else 1 + FirstMain(r[1..])
  }

  /** The waiter a scan of r settles on, or -1: the last one with the least remaining wait.  The scan starts
      from the bound 0xffffffff, which the running thread must undercut and any other thread may equal. */
  function LeastWaiter(r: seq<Tcb>): (k: int)
    ensures -1 <= k < |r|
    ensures k >= 0 ==> r[k].status == Waiting
  {
    if r == [] then -1
    else
      var n := |r| - 1;
      var k := LeastWaiter(r[..n]);
      var bound := if k < 0 then UINT32_MAX else r[k].waiting;
      if r[n].status == Waiting && (r[n].waiting < bound || (r[n].waiting == bound && n != 0)) then n else k
  }

  ghost predicate SomeWaiting(r: seq<Tcb>) {
    exists i :: 0 <= i < |r| && r[i].status == Waiting
  }

  /** One thread after `ticks` slept ticks. */
  function ElapseOne(t: Tcb, ticks: nat): Tcb {
    if t.status != Waiting then t
    else if t.waiting <= ticks then t.(status := Runnable, waiting := 0)
    else t.(waiting := t.waiting - ticks)
  }

  function Elapse(r: seq<Tcb>, ticks: nat): (e: seq<Tcb>)
    ensures |e| == |r| && forall i :: 0 <= i < |r| ==> e[i] == ElapseOne(r[i], ticks)
  {
    seq(|r|, i requires 0 <= i < |r| => ElapseOne(r[i], ticks))
  }

  /** Everybody is blocked: main runs regardless. */
  function Fallback(r: seq<Tcb>): Outcome {
    var m := FirstMain(r);
    if m < |r| then Resumed(Rotate(r, m), 0) else NoMain
  }

  /** Nobody can run but somebody sleeps: sleep as long as the shortest sleeper, then resume it. */
  function SleepLeast(r: seq<Tcb>): Outcome {
    var w := LeastWaiter(r);
    if w < 0 then NoWaiter else Resumed(Rotate(Elapse(r, r[w].waiting), w), r[w].waiting)
  }

  ghost function Schedule(r: seq<Tcb>): Outcome {
    var k := FirstRunnable(r);
    if k < |r| then Resumed(Rotate(r, k), 0)
    else if SomeWaiting(r) then SleepLeast(r)
    else Fallback(r)
  }

  // ----- entry points, for a ring with a running thread

  function ReleaseOne(t: Tcb, gone: SvcThread): Tcb {
    if t.status == WaitingFor && t.target == gone then t.(status := Runnable, target := null) else t
  }

  /** Frees everybody who waited for `gone`. */
  function Release(r: seq<Tcb>, gone: SvcThread): (e: seq<Tcb>)
    ensures |e| == |r| && forall i :: 0 <= i < |r| ==> e[i] == ReleaseOne(r[i], gone)
  {
    seq(|r|, i requires 0 <= i < |r| => ReleaseOne(r[i], gone))
  }

  /** Index of a thread in the ring, or |r|. */
  function PlaceOf(r: seq<Tcb>, t: SvcThread): (k: nat)
    ensures k <= |r|
    ensures k < |r| ==> r[k].id == t
    ensures forall j :: 0 <= j < k ==> r[j].id != t
  {
    if r == [] then 0
    else if r[0].id == t then 0
    else 1 + PlaceOf(r[1..], t)
  }

  function Insert<T>(r: seq<T>, t: T): seq<T>
    requires r != []
  {
    [r[0], t] + r[1..]
  }

  /** Thread k is put to sleep for `ticks`.  Only the running thread (k == 0) gives up the processor; it waits one
      tick more, for the slice it is in, counted in 32 bits. */
  ghost function WaitTicks(r: seq<Tcb>, k: nat, ticks: nat): Outcome
    requires k < |r|
  {
    if ticks == 0 then Returned(r)
    else if k > 0 then Returned(r[k := Asleep(r[k], ticks)])
    else if |r| == 1 then Returned(r)
    else Schedule(r[0 := Asleep(r[0], (ticks + 1) % UINT32_SIZE)])
  }

  function Asleep(t: Tcb, ticks: nat): Tcb {
    t.(status := Waiting, waiting := ticks)
  }

  ghost function WaitMillis(r: seq<Tcb>, k: nat, millis: nat, timeslice: nat): Outcome
    requires k < |r| && timeslice > 0
  {
    WaitTicks(r, k, millis / timeslice)
  }

  function Blocked(t: Tcb, target: SvcThread): Tcb {
    t.(status := WaitingFor, target := target)
  }

  /** Thread k is blocked until `target` is gone; nobody waits for itself. */
  ghost function WaitThread(r: seq<Tcb>, k: nat, target: SvcThread): Outcome
    requires k < |r|
  {
    if target == r[k].id then Returned(r)
    else
      var b := r[k := Blocked(r[k], target)];
      if k > 0 then Returned(b) else Schedule(b)
  }

  ghost function ExitSelf(r: seq<Tcb>): Outcome
    requires r != []
  {
    if r[0].main || |r| == 1 then Returned(r)
    else Schedule(Release(r[1..], r[0].id))
  }

  /** The threads `ExitSelf` frees. */
  ghost function Exiting(r: seq<Tcb>): seq<SvcThread>
    requires r != []
  {
    if r[0].main || |r| == 1 then [] else [r[0].id]
  }

  ghost function Remove(r: seq<Tcb>, t: SvcThread): Outcome
    requires r != []
  {
    var k := PlaceOf(r, t);
    if k == |r| || r[k].main then Returned(r)
    else if k == 0 then ExitSelf(r)
    else Returned(Release(Without(r, k), t))
  }

  /** The threads `Remove` frees. */
  ghost function Removing(r: seq<Tcb>, t: SvcThread): seq<SvcThread>
    requires r != []
  {
    var k := PlaceOf(r, t);
    if k == |r| || r[k].main then []
    else if k == 0 then Exiting(r)
    else [t]
  }

  lemma RemovingAnother(r: seq<Tcb>, t: SvcThread)
    requires r != [] && r[0].id != t
    requires PlaceOf(r, t) < |r| ==> !r[PlaceOf(r, t)].main
    ensures var k := PlaceOf(r, t);
            && Remove(r, t) == Returned(if k == |r| then r else Release(Without(r, k), t))
            && Removing(r, t) == if k == |r| then [] else [t]
  {
  }

  /** The timer interrupt: nothing to switch to in a ring of one. */
  ghost function Preempt(r: seq<Tcb>): Outcome
    requires r != []
  {
    if |r| == 1 then Returned(r) else Schedule(r)
  }
}
