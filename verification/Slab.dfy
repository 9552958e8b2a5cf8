/** One slab: its used map in memory, and allocating and freeing single objects. */
module Slabs {
  import opened SlabLayout
  import Y = ByteBits
  import B = PageBits

  datatype Object = NULL | Object(address: nat)

  /** A byte on the slab that is the descriptor's or an object's. Off slab the memory holds the used map only. */
  predicate IsOthers(s: Shape, c: nat)
    requires s.objSize > 0
  {
    s.OnSlab() && (c < 16 || s.ObjectsStart() <= s.start + c)
  }

  /** No byte but those of the used map changes. */
  ghost predicate KeepsOthers(s: Shape, was: seq<bv8>, now: seq<bv8>)
    requires s.objSize > 0
  {
    |was| == |now| && forall c :: 0 <= c < |was| && IsOthers(s, c) ==> now[c] == was[c]
  }

  class Slab {
    const cut: Cut
    /** The memory the used map lies in. */
    const memory: array<bv8>
    var next: Slab?
    /** What the used map says, a bit an object; the tail is slack. */
    ghost var bits: seq<bool>

    ghost predicate Valid()
      reads this`bits, memory
    {
      && memory.Length == cut.memoryBytes
      && |bits| == 8 * cut.mapBytes && cut.objs < |bits|
      && cut.mapStart + cut.mapBytes <= memory.Length
      && Mirrors(bits, memory[cut.mapStart..cut.mapStart + cut.mapBytes])
    }

    /** A grown slab: fresh memory, nothing used. */
    constructor (shape: Shape)
      requires shape.Valid()
      ensures Valid() && cut.shape == shape && next == null && fresh(memory)
      ensures forall i :: 0 <= i < |bits| ==> !bits[i]
    {
      var c: Cut := CutOf(shape);
      CutFacts(c);
      cut := c;
      var m := new bv8[c.memoryBytes](_ => 0);
      memory := m;
      next := null;
      bits := B.AllClear(8 * c.mapBytes);
      ZeroMirrors(m[c.mapStart..c.mapStart + c.mapBytes]);
    }

    /** Object i has bit i % 8 of byte i / 8 of the used map. */
    lemma BitOf(i: nat)
      requires Valid() && i < |bits|
      ensures i / 8 < cut.mapBytes && bits[i] == Y.Test(memory[cut.mapStart + i / 8], i % 8)
    {
    }

    method ReadBit(i: nat) returns (used: bool)
      requires Valid() && i < |bits|
      ensures used == bits[i]
    {
      return Y.Test(memory[cut.mapStart + i / 8], i % 8);
    }

    method WriteBit(i: nat, used: bool)
      requires Valid() && i < |bits|
      modifies this`bits, memory
      ensures Valid() && bits == old(bits)[i := used]
      ensures KeepsOthers(cut.shape, old(memory[..]), memory[..])
    {
      if cut.shape.OnSlab() { MapIsBetween(cut.shape); }
      ghost var start, end := cut.mapStart, cut.mapStart + cut.mapBytes;
      ghost var was := memory[start..end];
      PutMirrors(bits, was, i, used);
      memory[cut.mapStart + i / 8] := Y.Put(memory[cut.mapStart + i / 8], i % 8, used);
      bits := bits[i := used];
      assert memory[start..end] == was[i / 8 := Y.Put(was[i / 8], i % 8, used)];
    }

    /** Some object is not in use. */
    ghost predicate HasRoom()
      reads this`bits
    {
      exists i: nat :: i < |bits| && i < cut.objs && !bits[i]
    }

    /** Object i is the first that is not in use. */
    ghost predicate FirstFree(i: nat)
      reads this`bits
    {
      i < cut.objs && i < |bits| && !bits[i] && forall j :: 0 <= j < i ==> bits[j]
    }

    /** `alloc_object_from_slab`: the first object that is not in use, which is so no longer; nothing else changes. */
    method AllocObject() returns (obj: Object, ghost i: nat)
      requires Valid()
      modifies this`bits, memory
      ensures Valid()
      ensures obj == NULL <==> !old(HasRoom())
      ensures obj == NULL ==> bits == old(bits)
      ensures KeepsOthers(cut.shape, old(memory[..]), memory[..])
      ensures obj != NULL ==> i < |bits| && !old(bits)[i] && forall j :: 0 <= j < i ==> old(bits)[j]
      ensures obj != NULL ==> old(FirstFree(i)) && obj == Object(AddressOf(cut, i)) && bits == old(bits)[i := true]
    {
      i := 0;
      for k := 0 to cut.objs
        invariant Valid() && bits == old(bits) && memory[..] == old(memory[..])
        invariant forall j :: 0 <= j < k ==> bits[j]
      {
        var used := ReadBit(k);
        if !used {
          WriteBit(k, true);
          return Object(AddressOf(cut, k)), k;
        }
      }
      obj := NULL;
    }

    /** The used map after obj was given back, if it is one of this slab's objects. */
    ghost function BitsWithout(bits: seq<bool>, obj: nat): seq<bool> {
      if Takes(cut, obj) && IndexIn(cut, obj) < |bits| then bits[IndexIn(cut, obj) := false] else bits
    }

    /** `free_object_from_slab`: true if the address passes for an object of this slab, which then is not in use. */
    method FreeObject(obj: nat) returns (ok: bool)
      requires Valid()
      modifies this`bits, memory
      ensures Valid()
      ensures ok == Takes(cut, obj)
      ensures bits == BitsWithout(old(bits), obj)
      ensures KeepsOthers(cut.shape, old(memory[..]), memory[..])
    {
      if !Takes(cut, obj) {
        return false;
      }
      WriteBit(IndexIn(cut, obj), false);
      return true;
    }

    /** Every byte of the memory that `isSlabFree` looks at is zero. */
    ghost predicate LooksFree()
      reads memory
    {
      forall c :: cut.mapStart <= c < cut.mapStart + cut.checkedBytes && c < memory.Length ==> memory[c] == 0
    }

    /** A byte of the memory, or of whatever lies behind it. */
    method Look(c: nat) returns (b: bv8)
      ensures c < memory.Length ==> b == memory[c]
    {
      if c < memory.Length {
        b := memory[c];
      } else {
        b := *;
      }
    }

    /** `isSlabFree` looks at `checkedBytes` bytes, not at the whole map: what it does establish is that these bytes
        are zero, so the first objects are not in use.  Its answer is exact about them where they lie in memory. */
    method IsSlabFree() returns (free: bool)
      requires Valid()
      ensures free ==> LooksFree()
      ensures !free && ChecksInside(cut) ==> !LooksFree()
      ensures free ==> ClearBelow(bits, 8 * cut.checkedBytes)
      ensures ChecksMap(cut) ==> (free <==> ClearBelow(bits, 8 * cut.checkedBytes))
      ensures free ==> HasRoom()
    {
      CutFacts(cut);
      ghost var bytes := memory[cut.mapStart..cut.mapStart + cut.mapBytes];
      for c := cut.mapStart to cut.mapStart + cut.checkedBytes
        invariant forall d :: cut.mapStart <= d < c && d < memory.Length ==> memory[d] == 0
      {
        var b := Look(c);
        if b != 0 {
          if ChecksMap(cut) { SetByte(bits, bytes, c - cut.mapStart); }
          return false;
        }
      }
      assert forall i :: 0 <= i < |bytes| ==> bytes[i] == memory[cut.mapStart + i];
      ZeroBytes(bits, bytes, cut.checkedBytes);
      assert !bits[0];
      return true;
    }
  }

  lemma ZeroBytes(bits: seq<bool>, bytes: seq<bv8>, n: nat)
    requires Mirrors(bits, bytes) && forall i :: 0 <= i < n && i < |bytes| ==> bytes[i] == 0
    ensures forall i :: 0 <= i < |bits| && i < 8 * n ==> !bits[i]
  {
    forall i | 0 <= i < |bits| && i < 8 * n
      ensures !bits[i]
    {
      Y.ZeroByte(bytes[i / 8], i % 8);
    }
  }

  /** A byte that is not zero has a bit set. */
  lemma SetByte(bits: seq<bool>, bytes: seq<bv8>, k: nat)
    requires Mirrors(bits, bytes) && k < |bytes| && bytes[k] != 0
    ensures exists i :: 8 * k <= i < 8 * k + 8 && bits[i]
  {
    if forall i :: 8 * k <= i < 8 * k + 8 ==> !bits[i] {
      forall j: nat | j < 8 ensures !Y.Test(bytes[k], j) {
        assert !bits[8 * k + j] && (8 * k + j) / 8 == k && (8 * k + j) % 8 == j;
      }
      Y.NoBitIsZero(bytes[k]);
    }
  }

  ghost predicate Mirrors(bits: seq<bool>, bytes: seq<bv8>) {
    && |bits| == 8 * |bytes|
    && forall i :: 0 <= i < |bits| ==> bits[i] == Y.Test(bytes[i / 8], i % 8)
  }

  lemma ZeroMirrors(bytes: seq<bv8>)
    requires forall i :: 0 <= i < |bytes| ==> bytes[i] == 0
    ensures Mirrors(B.AllClear(8 * |bytes|), bytes)
  {
    forall i | 0 <= i < 8 * |bytes|
      ensures !Y.Test(bytes[i / 8], i % 8)
    {
      Y.ZeroByte(bytes[i / 8], i % 8);
    }
  }

  /** Writing one bit of one byte writes one bit of the map. */
  lemma PutMirrors(bits: seq<bool>, bytes: seq<bv8>, i: nat, value: bool)
    requires Mirrors(bits, bytes) && i < |bits|
    ensures Mirrors(bits[i := value], bytes[i / 8 := Y.Put(bytes[i / 8], i % 8, value)])
  {
    var bytes' := bytes[i / 8 := Y.Put(bytes[i / 8], i % 8, value)];
    forall j | 0 <= j < |bits|
      ensures bits[i := value][j] == Y.Test(bytes'[j / 8], j % 8)
    {
      if j / 8 == i / 8 {
        Y.PutAt(bytes[i / 8], i % 8, value, j % 8);
      }
    }
  }
}
