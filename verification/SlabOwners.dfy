/** Over every run of growing, allocating and freeing, no object of any cache has two owners. */
module SlabOwners {
  import opened SlabLayout
  import opened Slabs
  import opened SlabCaches
  import B = PageBits

  /** A slab: how it is cut, and its used map. */
  datatype Piece = Piece(cut: Cut, bits: seq<bool>) {
    function Start(): nat {
      cut.shape.start
    }

    function End(): nat {
      cut.shape.start + cut.shape.Bytes()
    }

    function ObjSize(): nat {
      cut.shape.objSize
    }
  }

  /** Who holds the object at an address. */
  type Owners = map<nat, nat>

  /** The slabs of all caches, however many, and the owners. */
  datatype State = State(slabs: seq<Piece>, held: Owners)

  predicate Apart(s: Piece, t: Piece) {
    s.End() <= t.Start() || t.End() <= s.Start()
  }

  predicate Fits(s: Piece) {
    |s.bits| == 8 * s.cut.mapBytes && s.cut.shape.Bytes() <= MEMORY_END / 2
  }

  /** Slabs lie apart, none reaches over half the memory, and each map has its length. */
  ghost predicate Layout(slabs: seq<Piece>) {
    && (forall k :: 0 <= k < |slabs| ==> Fits(slabs[k]))
    && (forall k, l :: 0 <= k < |slabs| && 0 <= l < |slabs| && k != l ==> Apart(slabs[k], slabs[l]))
  }

  /** Address a is object i of slab k, and marked used. */
  predicate Marked(slabs: seq<Piece>, k: nat, i: nat, a: nat) {
    && k < |slabs| && i < slabs[k].cut.objs && i < |slabs[k].bits|
    && a == AddressOf(slabs[k].cut, i) && slabs[k].bits[i]
  }

  ghost predicate Inv(st: State) {
    && Layout(st.slabs)
    && forall a :: a in st.held ==> exists k: nat, i: nat :: Marked(st.slabs, k, i, a)
  }

  datatype Event = Grow(cut: Cut) | Take(owner: nat, k: nat, i: nat) | Give(a: nat, k: nat) | Refused

  /** Object i is the first of a slab that is not in use. */
  ghost predicate FirstClear(s: Piece, i: nat) {
    i < s.cut.objs && i < |s.bits| && !s.bits[i] && forall j :: 0 <= j < i ==> s.bits[j]
  }

  /** A slab after it took an address back. */
  function TookBack(s: Piece, a: nat): Piece {
    if Takes(s.cut, a) && IndexIn(s.cut, a) < |s.bits| then s.(bits := s.bits[IndexIn(s.cut, a) := false]) else s
  }

  /** An address is given back by its owner; any slab that accepts it may be the one that takes it. */
  ghost predicate Step(st: State, e: Event, st': State) {
    match e
    case Grow(cut) =>
      var s := Piece(cut, B.AllClear(8 * cut.mapBytes));
      && Fits(s) && (forall l :: 0 <= l < |st.slabs| ==> Apart(s, st.slabs[l]))
      && st' == State(st.slabs + [s], st.held)
    case Take(owner, k, i) =>
      && k < |st.slabs| && FirstClear(st.slabs[k], i)
      && st' == State(st.slabs[k := st.slabs[k].(bits := st.slabs[k].bits[i := true])],
                      st.held[AddressOf(st.slabs[k].cut, i) := owner])
    case Give(a, k) =>
      && a in st.held && a < MEMORY_END && k < |st.slabs| && Takes(st.slabs[k].cut, a)
      && st' == State(st.slabs[k := TookBack(st.slabs[k], a)], st.held - {a})
    case Refused => st' == st
  }

  // ----- where objects lie

  lemma ObjectInside(s: Piece, i: nat)
    requires i < s.cut.objs
    ensures s.Start() <= AddressOf(s.cut, i) && AddressOf(s.cut, i) + s.ObjSize() <= s.End()
  {
    var shape := s.cut.shape;
    ObjsAreCut(shape);
    RoomForObjects(shape);
    PieceEnd(Room(shape), shape.objSize, i);
  }

  lemma PieceEnd(room: nat, n: nat, i: nat)
    requires n > 0 && i < Div(room, n)
    ensures 0 <= i * n && i * n + n <= room
  {
    DivMul(room, n);
    MulOrder(i + 1, Div(room, n), n);
    MulOrder(0, i, n);
  }

  /** Different objects share no byte. */
  lemma ObjectsApart(slabs: seq<Piece>, k: nat, i: nat, l: nat, j: nat)
    requires Layout(slabs) && k < |slabs| && l < |slabs| && (k != l || i != j)
    requires i < slabs[k].cut.objs && j < slabs[l].cut.objs
    ensures var a := AddressOf(slabs[k].cut, i); var b := AddressOf(slabs[l].cut, j);
            a + slabs[k].ObjSize() <= b || b + slabs[l].ObjSize() <= a
  {
    ObjectInside(slabs[k], i);
    ObjectInside(slabs[l], j);
    if k == l {
      ObjectsAreSafe(slabs[k].cut.shape, i, j);
    } else {
      assert Apart(slabs[k], slabs[l]);
    }
  }

  /** An accepted address lies in the object of its index, unless that is the one index too many. */
  lemma AcceptedInside(s: Piece, a: nat)
    requires Takes(s.cut, a) && IndexIn(s.cut, a) < s.cut.objs && a < MEMORY_END
    ensures var at := AddressOf(s.cut, IndexIn(s.cut, a)); at <= a < at + s.ObjSize()
  {
    var shape := s.cut.shape;
    var i := IndexIn(s.cut, a);
    DivMul(shape.Offset(a), shape.objSize);
    ObjectInside(s, i);
    OffsetIsDistance(shape, a);
  }

  lemma OffsetIsDistance(shape: Shape, a: nat)
    requires shape.objSize > 0 && a < MEMORY_END
    requires 0 <= shape.Offset(a) && shape.ObjectsStart() + shape.Offset(a) < MEMORY_END
    ensures a == shape.ObjectsStart() + shape.Offset(a)
  {
  }

  // ----- steps

  lemma GrowKeepsInv(st: State, cut: Cut, st': State)
    requires Inv(st) && Step(st, Grow(cut), st')
    ensures Inv(st')
  {
    forall a | a in st'.held ensures exists k: nat, i: nat :: Marked(st'.slabs, k, i, a) {
      var k: nat, i: nat :| Marked(st.slabs, k, i, a);
      assert Marked(st'.slabs, k, i, a);
    }
  }

  /** An object handed out was held by nobody. */
  lemma TakenIsUnowned(st: State, owner: nat, k: nat, i: nat, st': State)
    requires Inv(st) && Step(st, Take(owner, k, i), st')
    ensures AddressOf(st.slabs[k].cut, i) !in st.held
  {
    var a := AddressOf(st.slabs[k].cut, i);
    if a in st.held {
      var l: nat, j: nat :| Marked(st.slabs, l, j, a);
      ObjectsApart(st.slabs, k, i, l, j);
      assert false;
    }
  }

  /** It shares no byte with any object that is held. */
  lemma TakenIsApart(st: State, owner: nat, k: nat, i: nat, st': State, b: nat) returns (l: nat, j: nat)
    requires Inv(st) && Step(st, Take(owner, k, i), st') && b in st.held
    ensures Marked(st.slabs, l, j, b)
    ensures var a := AddressOf(st.slabs[k].cut, i); a + st.slabs[k].ObjSize() <= b || b + st.slabs[l].ObjSize() <= a
  {
    l, j :| Marked(st.slabs, l, j, b);
    ObjectsApart(st.slabs, k, i, l, j);
  }

  lemma TakeKeepsInv(st: State, owner: nat, k: nat, i: nat, st': State)
    requires Inv(st) && Step(st, Take(owner, k, i), st')
    ensures Inv(st')
  {
    forall a | a in st'.held ensures exists l: nat, j: nat :: Marked(st'.slabs, l, j, a) {
      if a == AddressOf(st.slabs[k].cut, i) {
        assert Marked(st'.slabs, k, i, a);
      } else {
        var l: nat, j: nat :| Marked(st.slabs, l, j, a);
        assert Marked(st'.slabs, l, j, a);
      }
    }
  }

  /** Whichever slab takes an address back, no other owner loses an object. */
  lemma OthersStayMarked(st: State, a: nat, k: nat, st': State, b: nat, l: nat, j: nat)
    requires Inv(st) && Step(st, Give(a, k), st') && b in st.held && b != a && Marked(st.slabs, l, j, b)
    ensures Marked(st'.slabs, l, j, b)
  {
    if l == k {
      SharesNoByte(st, a, k, b, j);
      TookBackKeeps(st.slabs[k], a, j);
    }
  }

  lemma TookBackKeeps(s: Piece, a: nat, j: nat)
    requires j < |s.bits| && Takes(s.cut, a) && IndexIn(s.cut, a) != j
    ensures TookBack(s, a).cut == s.cut && |TookBack(s, a).bits| == |s.bits| && TookBack(s, a).bits[j] == s.bits[j]
  {
  }

  lemma SharesNoByte(st: State, a: nat, k: nat, b: nat, j: nat)
    requires Inv(st) && a in st.held && a < MEMORY_END && b != a && Marked(st.slabs, k, j, b)
    requires Takes(st.slabs[k].cut, a)
    ensures IndexIn(st.slabs[k].cut, a) != j
  {
    if IndexIn(st.slabs[k].cut, a) == j {
      AcceptedInside(st.slabs[k], a);
      var l: nat, i: nat :| Marked(st.slabs, l, i, a);
      ObjectsApart(st.slabs, l, i, k, j);
      assert false;
    }
  }

  lemma GiveKeepsInv(st: State, a: nat, k: nat, st': State)
    requires Inv(st) && Step(st, Give(a, k), st')
    ensures Inv(st')
  {
    forall b | b in st'.held ensures exists l: nat, j: nat :: Marked(st'.slabs, l, j, b) {
      var l: nat, j: nat :| Marked(st.slabs, l, j, b);
      OthersStayMarked(st, a, k, st', b, l, j);
    }
  }

  /** When the slab of the object is the one that takes it back, exactly its bit is clear again. */
  lemma GivenIsClear(st: State, a: nat, k: nat, i: nat, st': State)
    requires Inv(st) && Step(st, Give(a, k), st') && Marked(st.slabs, k, i, a)
    ensures st'.slabs == st.slabs[k := st.slabs[k].(bits := st.slabs[k].bits[i := false])]
  {
    assert Fits(st.slabs[k]);
    ObjectComesBack(st.slabs[k].cut.shape, i);
  }

  /** Another slab accepts the address only as the one index too many: the object lies right behind its own. */
  lemma OnlyNeighbourAccepts(slabs: seq<Piece>, a: nat, k: nat, l: nat, i: nat)
    requires Layout(slabs) && Marked(slabs, l, i, a) && k < |slabs| && k != l && a < MEMORY_END
    requires Takes(slabs[k].cut, a)
    ensures IndexIn(slabs[k].cut, a) == slabs[k].cut.objs
  {
    ObjectInside(slabs[l], i);
    assert Apart(slabs[k], slabs[l]);
    if IndexIn(slabs[k].cut, a) < slabs[k].cut.objs {
      AcceptedInside(slabs[k], a);
      ObjectInside(slabs[k], IndexIn(slabs[k].cut, a));
    }
  }

  /** An object given back is free again exactly when its own slab takes it. Taken by another, it stays marked used and
      nobody holds it any more. */
  lemma GivenIsClearExactlyWhen(st: State, a: nat, k: nat, st': State, l: nat, i: nat)
    requires Inv(st) && Step(st, Give(a, k), st') && Marked(st.slabs, l, i, a)
    ensures !st'.slabs[l].bits[i] <==> k == l
    ensures k != l ==> IndexIn(st.slabs[k].cut, a) == st.slabs[k].cut.objs
    ensures k != l ==> Marked(st'.slabs, l, i, a) && a !in st'.held
  {
    if k == l {
      GivenIsClear(st, a, k, i, st');
    } else {
      OnlyNeighbourAccepts(st.slabs, a, k, l, i);
    }
  }

  // ----- runs

  ghost predicate Run(st: State, es: seq<Event>, st': State)
    decreases |es|
  {
    if es == [] then st' == st else exists m :: Step(st, es[0], m) && Run(m, es[1..], st')
  }

  lemma StepKeepsInv(st: State, e: Event, st': State)
    requires Inv(st) && Step(st, e, st')
    ensures Inv(st')
  {
    match e
    case Grow(cut) => GrowKeepsInv(st, cut, st');
    case Take(owner, k, i) => TakeKeepsInv(st, owner, k, i, st');
    case Give(a, k) => GiveKeepsInv(st, a, k, st');
    case Refused =>
  }

  lemma {:induction false} RunKeepsInv(st: State, es: seq<Event>, st': State)
    requires Inv(st) && Run(st, es, st')
    ensures Inv(st')
    decreases |es|
  {
    if es != [] {
      var m :| Step(st, es[0], m) && Run(m, es[1..], st');
      StepKeepsInv(st, es[0], m);
      RunKeepsInv(m, es[1..], st');
    }
  }

  /** After any run from nothing, whatever is handed out next belongs to nobody yet. */
  lemma NoObjectTwice(es: seq<Event>, st: State, owner: nat, k: nat, i: nat, st': State)
    requires Run(State([], map[]), es, st) && Step(st, Take(owner, k, i), st')
    ensures AddressOf(st.slabs[k].cut, i) !in st.held
  {
    RunKeepsInv(State([], map[]), es, st);
    TakenIsUnowned(st, owner, k, i, st');
  }

  // ----- a cache takes these steps

  ghost function ViewOf(order: seq<Slab>): (v: seq<Piece>)
    reads order`bits
    ensures |v| == |order| && forall k :: 0 <= k < |order| ==> v[k] == Piece(order[k].cut, order[k].bits)
  {
    if order == [] then [] else [Piece(order[0].cut, order[0].bits)] + ViewOf(order[1..])
  }

  ghost predicate Enumerates(order: seq<Slab>, slabs: set<Slab>) {
    && (forall k :: 0 <= k < |order| ==> order[k] in slabs)
    && forall k, l :: 0 <= k < l < |order| ==> order[k] != order[l]
  }

  /** An object that a cache hands out of a slab it had is a step of the run. */
  twostate lemma AllocIsTake(cache: Cache, order: seq<Slab>, k: nat, i: nat, owner: nat, held: Owners)
    requires old(Enumerates(order, cache.slabs)) && k < |order| && cache.Got(order[k], i)
    ensures Step(State(old(ViewOf(order)), held), Take(owner, k, i),
                 State(ViewOf(order), held[AddressOf(order[k].cut, i) := owner]))
  {
    assert ViewOf(order) == old(ViewOf(order))[k := Piece(order[k].cut, order[k].bits)];
  }

  /** When the cache made a slab, that was a step before: g joins the slabs, and the object comes from one of them. */
  twostate lemma AllocIsGrowAndTake(cache: Cache, order: seq<Slab>, new g: Slab, k: nat, i: nat, owner: nat, held: Owners)
    returns (mid: State)
    requires old(Enumerates(order, cache.slabs)) && g !in old(cache.slabs) && cache.slabs == old(cache.slabs) + {g}
    requires k <= |order| && cache.Got((order + [g])[k], i)
    requires var s := Piece(g.cut, g.bits);
             Fits(s) && forall l :: 0 <= l < |order| ==> Apart(s, old(ViewOf(order))[l])
    ensures Step(State(old(ViewOf(order)), held), Grow(g.cut), mid)
    ensures Step(mid, Take(owner, k, i),
                 State(ViewOf(order + [g]), held[AddressOf((order + [g])[k].cut, i) := owner]))
  {
    var was, now := old(ViewOf(order)), ViewOf(order + [g]);
    var c := (order + [g])[k];
    var empty := Piece(g.cut, B.AllClear(8 * g.cut.mapBytes));
    mid := State(was + [empty], held);
    if k == |order| {
      assert g.bits == empty.bits[i := true];
    } else {
      assert g.bits == empty.bits;
    }
    forall l | 0 <= l < |order| && l != k ensures now[l] == was[l] {
      assert order[l] != c;
    }
    assert now == mid.slabs[k := mid.slabs[k].(bits := mid.slabs[k].bits[i := true])];
  }

  /** An object that a cache takes back is a step of the run, whichever slab took it. */
  twostate lemma FreeIsGive(cache: Cache, order: seq<Slab>, k: nat, a: nat, held: Owners)
    requires old(Enumerates(order, cache.slabs)) && k < |order| && cache.OnlyLost(order[k], a)
    requires Takes(order[k].cut, a) && a in held && a < MEMORY_END
    ensures Step(State(old(ViewOf(order)), held), Give(a, k), State(ViewOf(order), held - {a}))
  {
    assert ViewOf(order) == old(ViewOf(order))[k := Piece(order[k].cut, order[k].bits)];
  }
}
