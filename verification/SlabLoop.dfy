/** The loop of `alloc_object_from_cache` as a machine over lists, and when it stops. */
module SlabLoop {

  /** What the loop looks at: the first partial slab, the second full one, or nothing any more. */
  datatype Cursor = AtPartial | AtFull | Out

  datatype Loop<T> = Loop(partial: seq<T>, full: seq<T>, at: Cursor)

  datatype Progress<T> = Running(loop: Loop<T>) | Found(slab: T) | Left(partial: seq<T>, full: seq<T>)

  /** One iteration: a slab with room ends the search; an exhausted one goes to the head of the full list, and the
      loop goes on behind it there. */
  function Step<T>(l: Loop<T>, roomy: set<T>): Progress<T> {
    match l.at
    case AtPartial =>
      if l.partial == [] then Left(l.partial, l.full)
      else if l.partial[0] in roomy then Found(l.partial[0])
      else Resume(l.partial[1..], [l.partial[0]] + l.full)
    case AtFull =>
      if |l.full| < 2 then Left(l.partial, l.full)
      else if l.full[1] in roomy then Found(l.full[1])
      else Resume(l.partial, [l.full[1], l.full[0]] + l.full[2..])
    case Out => Left(l.partial, l.full)
  }

  function Resume<T>(partial: seq<T>, full: seq<T>): Progress<T> {
    if |full| > 1 then Running(Loop(partial, full, AtFull)) else Left(partial, full)
  }

  /** n iterations. */
  function After<T>(l: Loop<T>, roomy: set<T>, n: nat): Progress<T>
    decreases n
  {
    if n == 0 then Running(l)
    else
      var s := Step(l, roomy);
      if s.Running? then After(s.loop, roomy, n - 1) else s
  }

  ghost predicate AllExhausted<T>(s: seq<T>, roomy: set<T>) {
    forall i :: 0 <= i < |s| ==> s[i] !in roomy
  }

  /** Inside the full list the loop never stops, though it loses no slab. */
  lemma {:induction false} NeverLeavesFull<T>(l: Loop<T>, roomy: set<T>, n: nat)
    requires l.at == AtFull && |l.full| > 1 && AllExhausted(l.full, roomy)
    ensures var e := After(l, roomy, n);
            && e.Running? && e.loop.at == AtFull && e.loop.partial == l.partial
            && multiset(e.loop.full) == multiset(l.full)
    decreases n
  {
    if n > 0 {
      var f := l.full;
      var m := Loop(l.partial, [f[1], f[0]] + f[2..], AtFull);
      assert f == [f[0], f[1]] + f[2..];
      assert forall i :: 0 <= i < |f| ==> m.full[i] == if i == 0 then f[1] else if i == 1 then f[0] else f[i];
      NeverLeavesFull(m, roomy, n - 1);
    }
  }

  /** A whole call, with growth and the call it makes again after growing by g. */
  ghost predicate CallReturns<T>(partial: seq<T>, full: seq<T>, free: seq<T>, roomy: set<T>, g: T)
    decreases |partial|
  {
    partial == [] || exists n: nat :: ReturnsAfter(partial, full, free, roomy, g, n)
  }

  ghost predicate ReturnsAfter<T>(partial: seq<T>, full: seq<T>, free: seq<T>, roomy: set<T>, g: T, n: nat)
    decreases |partial|, n
  {
    var e := After(Loop(partial, full, AtPartial), roomy, n);
    e.Found? || (e.Left? && (free != [] || (|e.partial| < |partial| && CallReturns(e.partial, e.full, [g], roomy, g))))
  }

  /** The states an allocation never returns from. */
  predicate Hangs<T(==)>(partial: seq<T>, full: seq<T>, free: seq<T>, roomy: set<T>) {
    && partial != [] && partial[0] !in roomy
    && (full != [] || (free == [] && |partial| > 1 && partial[1] !in roomy))
  }

  /** The three lists of a cache. */
  datatype Lists<T> = Lists(partial: seq<T>, full: seq<T>, free: seq<T>)

  /** Where an allocation that returns leaves the lists; `grown` is the slab it makes if it has to.  The object comes
      from the slab that is then first on the partial list. */
  function Settled<T(==)>(l: Lists<T>, roomy: set<T>, grown: T): Lists<T> {
    if l.partial == [] then Elsewhere(l, grown)
    else if l.partial[0] in roomy then l
    else Elsewhere(Lists(l.partial[1..], [l.partial[0]] + l.full, l.free), grown)
  }

  /** The end of a call that found nothing on the partial list: a free slab goes first there, made if need be; but the
      call that is made again after growing takes from a slab left on the partial list. */
  function Elsewhere<T>(l: Lists<T>, grown: T): Lists<T> {
    if l.free != [] then Lists([l.free[0]] + l.partial, l.full, l.free[1..])
    else if l.partial == [] then Lists([grown], l.full, [])
    else Lists(l.partial, l.full, [grown])
  }

  /** The call made again after growing ends as the call that grew does. */
  lemma GrownThenSettled<T>(l: Lists<T>, roomy: set<T>, grown: T, other: T)
    requires l.free == [] && (l.partial == [] || l.partial[0] in roomy)
    ensures Settled(l.(free := [grown]), roomy, other) == Elsewhere(l, grown)
  {
  }

  lemma FirstStep<T>(partial: seq<T>, full: seq<T>, roomy: set<T>, n: nat)
    requires partial != []
    ensures var l := Loop(partial, full, AtPartial); var e := After(l, roomy, n);
            if n == 0 then e == Running(l)
            else if partial[0] in roomy then e == Found(partial[0])
            else if full == [] then e == Left(partial[1..], [partial[0]])
            else e == After(Loop(partial[1..], [partial[0]] + full, AtFull), roomy, n - 1)
  {
  }

  lemma ReturnsAtOnce<T>(partial: seq<T>, full: seq<T>, free: seq<T>, roomy: set<T>, g: T)
    requires partial != [] && (partial[0] in roomy || (full == [] && free != []))
    ensures CallReturns(partial, full, free, roomy, g)
  {
    FirstStep(partial, full, roomy, 1);
    assert ReturnsAfter(partial, full, free, roomy, g, 1);
  }

  lemma NeverReturns<T>(partial: seq<T>, full: seq<T>, free: seq<T>, roomy: set<T>, g: T)
    requires partial != [] && partial[0] !in roomy && full != [] && AllExhausted(full, roomy)
    ensures !CallReturns(partial, full, free, roomy, g)
  {
    forall n: nat
      ensures !ReturnsAfter(partial, full, free, roomy, g, n)
    {
      FirstStep(partial, full, roomy, n);
      if n > 0 {
        NeverLeavesFull(Loop(partial[1..], [partial[0]] + full, AtFull), roomy, n - 1);
      }
    }
  }

  /** An allocation returns from every state but these: the first partial slab is exhausted, and either some slab is
      on the full list already, or nothing is free and the second partial slab is exhausted as well. */
  lemma HangsExactlyWhen<T>(partial: seq<T>, full: seq<T>, free: seq<T>, roomy: set<T>, g: T)
    requires AllExhausted(full, roomy)
    ensures CallReturns(partial, full, free, roomy, g) <==> !Hangs(partial, full, free, roomy)
  {
    if partial == [] {
    } else if partial[0] in roomy || (full == [] && free != []) {
      ReturnsAtOnce(partial, full, free, roomy, g);
    } else if full != [] {
      NeverReturns(partial, full, free, roomy, g);
    } else {
      GrowsFirst(partial, roomy, g);
    }
  }

  /** Nothing full, nothing free, the first slab exhausted: the call grows the cache and is made again. */
  lemma GrowsFirst<T>(partial: seq<T>, roomy: set<T>, g: T)
    requires partial != [] && partial[0] !in roomy
    ensures CallReturns(partial, [], [], roomy, g) <==> !(|partial| > 1 && partial[1] !in roomy)
  {
    var rest := partial[1..];
    if rest == [] || rest[0] in roomy {
      if rest != [] {
        ReturnsAtOnce(rest, [partial[0]], [g], roomy, g);
      }
      FirstStep(partial, [], roomy, 1);
      assert ReturnsAfter(partial, [], [], roomy, g, 1);
    } else {
      NeverReturns(rest, [partial[0]], [g], roomy, g);
      forall n: nat
        ensures !ReturnsAfter(partial, [], [], roomy, g, n)
      {
        FirstStep(partial, [], roomy, n);
      }
    }
  }
}
