/** Where a slab keeps its descriptor, its used map and its objects. */
module SlabLayout {
  const PAGE := 4096
  const DESCRIPTOR := 16
  const MEMORY_END := 0x1_0000_0000
  const OFF_SLAB_FROM := 128

  // ----- division

  /** x / n, by the property the layout rests on; `DivIsDivision` says that it is the division operator. */
  function Div(x: nat, n: nat): nat
    requires n > 0
  {
    if x < n then 0 else 1 + Div(x - n, n)
  }

  lemma {:induction false} DivMul(x: nat, n: nat)
    requires n > 0
    ensures Div(x, n) * n <= x < Div(x, n) * n + n
  {
    if x >= n {
      DivMul(x - n, n);
    }
  }

  lemma Quotient(x: nat, n: nat, q: nat, p: nat)
    requires n > 0 && q * n <= x < q * n + n && p * n <= x < p * n + n
    ensures p == q
  {
    if p < q {
      MulOrder(p + 1, q, n);
    } else if q < p {
      MulOrder(q + 1, p, n);
    }
  }

  lemma DivIsDivision(x: nat, n: nat)
    requires n > 0
    ensures Div(x, n) == x / n
  {
    assert x / n * n <= x < x / n * n + n;
    DivMul(x, n);
    Quotient(x, n, Div(x, n), x / n);
  }

  lemma MulOrder(i: nat, j: nat, n: nat)
    requires i <= j
    ensures i * n <= j * n
  {
    assert j * n == i * n + (j - i) * n;
  }

  lemma DivOrder(x: nat, y: nat, n: nat)
    requires n > 0 && x <= y
    ensures Div(x, n) <= Div(y, n)
  {
    DivMul(x, n);
    DivMul(y, n);
    if Div(y, n) < Div(x, n) {
      MulOrder(Div(y, n) + 1, Div(x, n), n);
    }
  }

  lemma DivOf(i: nat, n: nat)
    requires n > 0
    ensures Div(i * n, n) == i
  {
    MulOrder(0, i, n);
    DivMul(i * n, n);
    Quotient(i * n, n, Div(i * n, n), i);
  }

  /** Pieces of n bytes in a row: the i-th ends within `room`, and two of them do not overlap. */
  lemma Pieces(room: nat, n: nat, i: nat, j: nat)
    requires n > 0 && i < Div(room, n) && j < Div(room, n) && i != j
    ensures i * n + n <= room
    ensures i * n + n <= j * n || j * n + n <= i * n
  {
    DivMul(room, n);
    MulOrder(i + 1, Div(room, n), n);
    MulOrder(j + 1, Div(room, n), n);
    if i < j {
      MulOrder(i + 1, j, n);
    } else {
      MulOrder(j + 1, i, n);
    }
  }

  // ----- shapes

  /** Where a slab is and how a cache cuts it up. */
  datatype Shape = Shape(start: nat, pages: nat, objSize: nat, offSlab: bool) {

    /** Page-aligned, in memory, and with room for an object. */
    ghost predicate Valid() {
      && objSize > 0 && start % PAGE == 0 && start + Bytes() <= MEMORY_END
      && pages > 0
      && (!OnSlab() ==> objSize <= Bytes())
    }

    function Bytes(): nat {
      pages * PAGE
    }

    /** Small objects share the slab with the descriptor and the used map. */
    predicate OnSlab() {
      objSize < OFF_SLAB_FROM && !offSlab
    }

    /** Objects a slab would hold if it held nothing else. */
    function Raw(): nat
      requires objSize > 0
    {
      Div(Bytes(), objSize)
    }

    function ObjectsStart(): nat
      requires objSize > 0
    {
      if OnSlab() then Align4(start + DESCRIPTOR + Raw() / 8 + 1) else start
    }

    function Objs(): nat
      requires objSize > 0 && ObjectsStart() <= start + Bytes()
    {
      if OnSlab() then Div(start + Bytes() - ObjectsStart(), objSize) else Raw()
    }

    function ObjectAt(i: nat): nat
      requires objSize > 0
    {
      ObjectsStart() + i * objSize
    }

    /** Bytes in the used map. */
    function MapBytes(): nat
      requires objSize > 0
    {
      Raw() / 8 + 1
    }

    /** Where the used map lies in the memory that holds it: the slab itself, or an array of its own. */
    function MapStart(): nat {
      if OnSlab() then DESCRIPTOR else 0
    }

    function MemoryBytes(): nat
      requires objSize > 0
    {
      if OnSlab() then Bytes() else MapBytes()
    }

    /** How many bytes `isSlabFree` looks at. */
    function CheckedBytes(): nat
      requires objSize > 0 && ObjectsStart() <= start + Bytes()
    {
      Div(Objs(), objSize) + 1
    }

    /** The distance of an address from the first object: a signed difference on slab, an unsigned one off slab. */
    function Offset(obj: nat): int
      requires objSize > 0
    {
      if OnSlab() then
        var d := (obj - ObjectsStart()) % MEMORY_END;
        if d < MEMORY_END / 2 then d else d - MEMORY_END
      else
        obj - start
    }

    /** `free_object_from_slab` takes an address for one of its objects; one index too many passes the test. */
    predicate Accepts(obj: nat)
      requires objSize > 0 && ObjectsStart() <= start + Bytes()
    {
      Offset(obj) >= 0 && Div(Offset(obj), objSize) <= Objs()
    }

    function IndexOf(obj: nat): nat
      requires objSize > 0 && Offset(obj) >= 0
    {
      Div(Offset(obj), objSize)
    }
  }

  function Align4(p: nat): (a: nat)
    ensures a % 4 == 0 && p <= a < p + 4
  {
    if p % 4 == 0 then p else p - p % 4 + 4
  }

  // ----- the layout

  /** The bytes objects are cut from. */
  function Room(s: Shape): nat
    requires s.objSize > 0 && s.ObjectsStart() <= s.start + s.Bytes()
  {
    s.start + s.Bytes() - s.ObjectsStart()
  }

  /** Objects start behind the descriptor and the used map, and there is room for at least one. */
  lemma RoomForObjects(s: Shape)
    requires s.Valid()
    ensures s.ObjectsStart() <= s.start + s.Bytes()
    ensures 1 <= s.Objs() <= s.Raw()
    ensures s.OnSlab() ==> s.start + DESCRIPTOR + s.MapBytes() <= s.ObjectsStart()
    ensures s.ObjectsStart() % 4 == 0
  {
    if s.OnSlab() {
      RoomOnSlab(s);
    } else {
      AtLeastOne(s.Bytes(), s.objSize);
    }
  }

  lemma RoomOnSlab(s: Shape)
    requires s.Valid() && s.OnSlab()
    ensures s.start + DESCRIPTOR + s.MapBytes() <= s.ObjectsStart() <= s.start + s.Bytes()
    ensures s.ObjectsStart() % 4 == 0 && 1 <= s.Objs() <= s.Raw()
  {
    RawBound(s);
    Fits(s.Bytes(), s.Raw(), s.objSize);
    AtLeastOne(Room(s), s.objSize);
    DivOrder(Room(s), s.Bytes(), s.objSize);
  }

  /** A page holds the descriptor, the used map of its smallest objects and one small object. */
  lemma Fits(bytes: nat, raw: nat, n: nat)
    requires bytes >= PAGE && raw <= bytes && n < OFF_SLAB_FROM
    ensures DESCRIPTOR + raw / 8 + 1 + 3 + n <= bytes
  {
  }

  lemma AtLeastOne(room: nat, n: nat)
    requires 0 < n <= room
    ensures Div(room, n) >= 1
  {
    DivMul(room, n);
  }

  lemma RawBound(s: Shape)
    requires s.objSize > 0
    ensures s.Raw() <= s.Bytes()
  {
    DivMul(s.Bytes(), s.objSize);
    MulOrder(1, s.objSize, s.Raw());
  }

  lemma ObjsAreCut(s: Shape)
    requires s.Valid() && s.ObjectsStart() <= s.start + s.Bytes()
    ensures s.Objs() == Div(Room(s), s.objSize)
  {
  }

  /** Every object lies inside the slab, clear of descriptor and used map, and overlaps no other object. */
  lemma ObjectsAreSafe(s: Shape, i: nat, j: nat)
    requires s.Valid()
    requires s.ObjectsStart() <= s.start + s.Bytes() && i < s.Objs() && j < s.Objs() && i != j
    ensures s.start + (if s.OnSlab() then DESCRIPTOR + s.MapBytes() else 0) <= s.ObjectAt(i)
    ensures s.ObjectAt(i) + s.objSize <= s.start + s.Bytes()
    ensures s.ObjectAt(i) + s.objSize <= s.ObjectAt(j) || s.ObjectAt(j) + s.objSize <= s.ObjectAt(i)
  {
    RoomForObjects(s);
    ObjsAreCut(s);
    Pieces(Room(s), s.objSize, i, j);
    MulOrder(0, i, s.objSize);
  }

  /** Objects of less than 128 bytes share the slab with the descriptor, of 16 bytes, and the used map behind it; they
      start at most three bytes behind that. */
  lemma MapIsBetween(s: Shape)
    requires s.objSize > 0 && s.objSize < 128 && !s.offSlab
    ensures s.OnSlab() && s.MapStart() == 16
    ensures s.start + 16 + s.MapBytes() <= s.ObjectsStart() < s.start + 16 + s.MapBytes() + 4
  {
  }

  /** All others have the slab to themselves, and the used map lies elsewhere. */
  lemma MapIsElsewhere(s: Shape)
    requires s.objSize >= 128 || (s.objSize > 0 && s.offSlab)
    ensures !s.OnSlab() && s.ObjectsStart() == s.start && s.MapStart() == 0 && s.MemoryBytes() == s.MapBytes()
  {
  }

  /** The map has a bit for each object the slab would hold by itself, and less than two bytes more. */
  lemma MapIsEnough(s: Shape)
    requires s.objSize > 0
    ensures var raw := s.Bytes() / s.objSize; raw < 8 * s.MapBytes() <= raw + 8
  {
    DivIsDivision(s.Bytes(), s.objSize);
  }

  /** The index one too many passes for an object. */
  lemma OneTooManyPasses(s: Shape)
    requires s.Valid() && s.ObjectsStart() <= s.start + s.Bytes() && s.Bytes() < MEMORY_END / 2
    ensures s.Accepts(s.ObjectAt(s.Objs())) && s.IndexOf(s.ObjectAt(s.Objs())) == s.Objs()
  {
    SlabIsFilled(s);
    MulOrder(0, s.Objs(), s.objSize);
    OffsetOf(s, s.Objs() * s.objSize);
    DivOf(s.Objs(), s.objSize);
  }

  /** A slab is filled: another object would not fit. */
  lemma SlabIsFilled(s: Shape)
    requires s.Valid() && s.ObjectsStart() <= s.start + s.Bytes()
    ensures s.ObjectAt(s.Objs()) <= s.start + s.Bytes() < s.ObjectAt(s.Objs()) + s.objSize
  {
    ObjsAreCut(s);
    DivMul(Room(s), s.objSize);
  }

  /** The byte of the used map that stands for object i is no byte of the descriptor nor of any object. */
  lemma MapByteIsClear(s: Shape, i: nat, j: nat)
    requires s.Valid() && s.OnSlab() && s.ObjectsStart() <= s.start + s.Bytes() && i <= s.Objs() && j < s.Objs()
    ensures 16 <= s.MapStart() + i / 8 && s.start + s.MapStart() + i / 8 < s.ObjectAt(j)
  {
    MapIsBetween(s);
    IndexInMap(s, i);
    MulOrder(0, j, s.objSize);
  }

  /** Every used-map byte that allocating or freeing touches lies inside the map, the one index too many included. */
  lemma IndexInMap(s: Shape, i: nat)
    requires s.Valid()
    requires s.ObjectsStart() <= s.start + s.Bytes() && i <= s.Objs()
    ensures i / 8 < s.MapBytes() && i < 8 * s.MapBytes()
  {
    RoomForObjects(s);
  }

  /** An object handed out is recognised when it comes back. */
  lemma ObjectComesBack(s: Shape, i: nat)
    requires s.Valid()
    requires s.ObjectsStart() <= s.start + s.Bytes() && i < s.Objs()
    requires s.Bytes() <= MEMORY_END / 2
    ensures s.Accepts(s.ObjectAt(i)) && s.IndexOf(s.ObjectAt(i)) == i
  {
    ObjsAreCut(s);
    PieceStart(Room(s), s.objSize, i);
    OffsetOf(s, i * s.objSize);
    DivOf(i, s.objSize);
  }

  lemma PieceStart(room: nat, n: nat, i: nat)
    requires n > 0 && i < Div(room, n)
    ensures 0 <= i * n < room
  {
    DivMul(room, n);
    MulOrder(i + 1, Div(room, n), n);
    MulOrder(0, i, n);
  }

  lemma OffsetOf(s: Shape, d: nat)
    requires s.objSize > 0 && d < MEMORY_END / 2
    ensures s.Offset(s.ObjectsStart() + d) == d
  {
  }

  /** The used map lies in the memory that holds it. */
  lemma MapInMemory(s: Shape)
    requires s.Valid()
    ensures s.MapStart() + s.MapBytes() <= s.MemoryBytes()
  {
    RoomForObjects(s);
  }

  /** What `isSlabFree` looks at lies there too, except for objects of less than eight bytes off slab. */
  lemma CheckInMemoryExactlyWhen(s: Shape)
    requires s.Valid() && s.ObjectsStart() <= s.start + s.Bytes()
    ensures s.MapStart() + s.CheckedBytes() <= s.MemoryBytes() <==> s.OnSlab() || s.objSize >= 8
  {
    RoomForObjects(s);
    if s.OnSlab() {
      DivBound(Room(s), s.objSize);
      DivBound(s.Objs(), s.objSize);
    } else if s.objSize >= 8 {
      DivBySmaller(s.Objs(), 8, s.objSize);
      DivIsDivision(s.Objs(), 8);
    } else {
      ManySmallObjects(s);
      SmallDivisor(s.Objs(), s.objSize);
    }
  }

  /** It all lies in the used map, unless objects have less than eight bytes. */
  lemma CheckInMapExactlyWhen(s: Shape)
    requires s.Valid() && s.ObjectsStart() <= s.start + s.Bytes()
    ensures s.CheckedBytes() <= s.MapBytes() <==> s.objSize >= 8
  {
    RoomForObjects(s);
    if s.objSize >= 8 {
      DivBySmaller(s.Objs(), 8, s.objSize);
      DivIsDivision(s.Objs(), 8);
    } else if s.OnSlab() {
      ManySmallObjects(s);
      SmallObjectsOnSlab(s);
    } else {
      ManySmallObjects(s);
      SmallDivisor(s.Objs(), s.objSize);
    }
  }

  /** Small objects on a slab outnumber what the descriptor and the map take from them. */
  lemma SmallObjectsOnSlab(s: Shape)
    requires s.Valid() && s.OnSlab() && s.objSize < 8 && s.Raw() >= 512
    requires s.ObjectsStart() <= s.start + s.Bytes()
    ensures Div(s.Objs(), s.objSize) > s.Raw() / 8
  {
    var n, raw, room, objs := s.objSize, s.Raw(), Room(s), s.Objs();
    DivMul(s.Bytes(), n);
    DivMul(room, n);
    DivMul(objs, n);
    assert room >= s.Bytes() - DESCRIPTOR - raw / 8 - 4;
    SmallSizes(n, raw, room, objs, Div(objs, n), s.Bytes());
  }

  lemma SmallSizes(n: nat, raw: nat, room: int, objs: nat, q: nat, bytes: nat)
    requires 1 <= n < 8 && raw >= 512
    requires raw * n <= bytes && room >= bytes - DESCRIPTOR - raw / 8 - 4
    requires room < objs * n + n && objs < q * n + n
    ensures q > raw / 8
  {
    if n == 1 {
    } else if n == 2 {
    } else if n == 3 {
    } else if n == 4 {
    } else if n == 5 {
    } else if n == 6 {
    } else {
      assert n == 7;
    }
  }

  /** No bit of a map is set among its first n. */
  predicate ClearBelow(bits: seq<bool>, n: nat) {
    forall i :: 0 <= i < n && i < |bits| ==> !bits[i]
  }

  /** The check sees every object exactly when there are at most eight for each byte it looks at: only then do these
      bytes of a map tell that no object is in use. */
  lemma CheckSeesAllExactlyWhen(s: Shape)
    requires s.Valid() && s.ObjectsStart() <= s.start + s.Bytes()
    ensures (forall bits: seq<bool> ::
               |bits| == 8 * s.MapBytes() && ClearBelow(bits, 8 * s.CheckedBytes()) ==> ClearBelow(bits, s.Objs()))
        <==> s.Objs() <= 8 * s.CheckedBytes()
  {
    var n := 8 * s.CheckedBytes();
    IndexInMap(s, s.Objs());
    if n < s.Objs() {
      var bits := seq(8 * s.MapBytes(), i => i == n);
      assert ClearBelow(bits, n) && bits[n];
    }
  }

  lemma ManySmallObjects(s: Shape)
    requires s.Valid() && s.objSize < 8
    ensures s.Raw() >= 512
  {
    DivMul(s.Bytes(), s.objSize);
    if s.Raw() < 512 {
      MulOrder(s.Raw() + 1, 512, s.objSize);
      assert false;
    }
  }

  lemma SmallDivisor(x: nat, n: nat)
    requires 0 < n < 8 && x >= 64
    ensures Div(x, n) > x / 8
  {
    DivBySmaller(x, n, 7);
    DivIsDivision(x, 7);
  }

  lemma DivBound(x: nat, n: nat)
    requires n > 0
    ensures Div(x, n) <= x
  {
    DivMul(x, n);
    MulOrder(1, n, Div(x, n));
  }

  lemma DivBySmaller(x: nat, m: nat, n: nat)
    requires 0 < m <= n
    ensures Div(x, n) <= Div(x, m)
  {
    DivMul(x, m);
    DivMul(x, n);
    if Div(x, m) < Div(x, n) {
      var q := Div(x, n);
      MulOrder(m, n, q);
      assert q * m == m * q <= n * q == q * n;
      MulOrder(Div(x, m) + 1, Div(x, n), m);
    }
  }

  /** The numbers of a slab, worked out once. */
  datatype RawCut = RawCut(shape: Shape, objs: nat, mapStart: nat, mapBytes: nat, memoryBytes: nat, checkedBytes: nat)

  ghost predicate IsCut(c: RawCut) {
    && c.shape.Valid() && c.shape.ObjectsStart() <= c.shape.start + c.shape.Bytes()
    && c.objs == c.shape.Objs() && c.mapStart == c.shape.MapStart() && c.mapBytes == c.shape.MapBytes()
    && c.memoryBytes == c.shape.MemoryBytes() && c.checkedBytes == c.shape.CheckedBytes()
  }

  type Cut = c: RawCut | IsCut(c) ghost witness CutOf(Shape(PAGE, 1, 64, false))

  function CutOf(s: Shape): (c: RawCut)
    requires s.Valid()
    ensures IsCut(c) && c.shape == s
  {
    RoomForObjects(s);
    RawCut(s, s.Objs(), s.MapStart(), s.MapBytes(), s.MemoryBytes(), s.CheckedBytes())
  }

  /** What everybody may rely on. */
  lemma CutFacts(c: Cut)
    ensures 1 <= c.objs < 8 * c.mapBytes && c.checkedBytes >= 1
    ensures c.mapStart + c.mapBytes <= c.memoryBytes
  {
    RoomForObjects(c.shape);
    IndexInMap(c.shape, c.objs);
    MapInMemory(c.shape);
  }

  /** Everything `isSlabFree` looks at lies in the map. */
  predicate ChecksMap(c: Cut) {
    c.checkedBytes <= c.mapBytes
  }

  /** Everything `isSlabFree` looks at lies in the memory of the map. */
  predicate ChecksInside(c: Cut) {
    c.mapStart + c.checkedBytes <= c.memoryBytes
  }

  /** `free_object_from_slab` takes obj for an object of this slab. */
  predicate Takes(c: Cut, obj: nat) {
    c.shape.Accepts(obj)
  }

  function IndexIn(c: Cut, obj: nat): (i: nat)
    requires Takes(c, obj)
    ensures i <= c.objs < 8 * c.mapBytes
  {
    CutFacts(c);
    c.shape.IndexOf(obj)
  }

  function AddressOf(c: Cut, i: nat): nat {
    c.shape.ObjectAt(i)
  }
}
