/** A cache of slabs: three lists by how full a slab is, linked through the slabs themselves. */
module SlabCaches {
  import opened Sequences
  import opened SlabLayout
  import opened Slabs
  import opened SlabLists
  import L = SlabLoop

  class Cache {
    const objSize: nat
    const offSlab: bool
    var firstFull: Slab?
    var firstPartial: Slab?
    var firstFree: Slab?
    /** The slabs on each list, in its order. */
    ghost var full: seq<Slab>
    ghost var partial: seq<Slab>
    ghost var free: seq<Slab>
    /** Every slab the cache ever grew by. */
    ghost var slabs: set<Slab>

    ghost function Memories(): set<array<bv8>>
      reads this`slabs
    {
      set s | s in slabs :: s.memory
    }

    /** The slabs are cut for this cache, and no two share memory. */
    ghost predicate Sound()
      reads this`slabs, slabs`bits, Memories()
    {
      && (forall s :: s in slabs ==> s.Valid() && s.cut.shape.objSize == objSize && s.cut.shape.offSlab == offSlab)
      && (forall s, t :: s in slabs && t in slabs && s != t ==> s.memory != t.memory)
    }

    ghost predicate Linked()
      reads this, full`next, partial`next, free`next
    {
      IsList(firstFull, full) && IsList(firstPartial, partial) && IsList(firstFree, free)
    }

    /** Each slab is in exactly one list, once; full slabs are full, and free ones have room.  All but c, that is. */
    ghost predicate ValidBut(c: Slab?)
      reads this, slabs`bits, Memories(), full`next, partial`next, free`next
    {
      && Sound() && Linked()
      && Partition(slabs, full, partial, free)
      && (forall s :: s in full ==> s in slabs && (s == c || !s.HasRoom()))
      && (forall s :: s in partial ==> s in slabs)
      && (forall s :: s in free ==> s in slabs && (s == c || s.HasRoom()))
    }

    ghost predicate Valid()
      reads this, slabs`bits, Memories(), full`next, partial`next, free`next
    {
      ValidBut(null)
    }

    constructor (objSize: nat, offSlab: bool)
      ensures Valid() && slabs == {} && this.objSize == objSize && this.offSlab == offSlab
      ensures full == [] && partial == [] && free == []
    {
      this.objSize, this.offSlab := objSize, offSlab;
      firstFull, firstPartial, firstFree := null, null, null;
      full, partial, free, slabs := [], [], [], {};
    }

    /** Asks one slab to take an object back. */
    method TryFree(c: Slab, obj: nat) returns (ok: bool)
      requires Sound() && c in slabs
      modifies c`bits, c.memory
      ensures Sound()
      ensures ok == Takes(c.cut, obj)
      ensures if ok then OnlyLost(c, obj) else NoBitsChanged()
    {
      ok := c.FreeObject(obj);
    }

    /** Only one slab changed, and that one lost obj. */
    twostate predicate OnlyLost(c: Slab, obj: nat)
      reads this`slabs, slabs`bits
    {
      && c in slabs && slabs == old(slabs)
      && c.bits == c.BitsWithout(old(c.bits), obj)
      && forall s :: s in slabs && s != c ==> s.bits == old(s.bits)
    }

    twostate predicate NoBitsChanged()
      reads this`slabs, slabs`bits
    {
      slabs == old(slabs) && forall s :: s in slabs ==> s.bits == old(s.bits)
    }

    /** The walk over a list: the first slab that takes the object loses it.  `prev` is the slab before it. */
    method FreeInList(first: Slab?, ghost list: seq<Slab>, obj: nat) returns (c: Slab?, prev: Slab?, ghost k: nat)
      requires Sound() && IsList(first, list) && forall s :: s in list ==> s in slabs
      modifies slabs`bits, Memories()
      ensures Sound() && FirstTaker(list, obj, k)
      ensures k < |list| ==> c == list[k] && prev == Before(list, k) && OnlyLost(list[k], obj)
      ensures k == |list| ==> c == null && NoBitsChanged()
    {
      c, prev, k := first, null, 0;
      while c != null
        invariant k <= |list| && c == (if k < |list| then list[k] else null) && prev == Before(list, k)
        invariant Sound() && NoBitsChanged()
        invariant forall j :: 0 <= j < k ==> !Takes(list[j].cut, obj)
        decreases |list| - k
      {
        var ok, next := AskInList(c, first, list, k, obj);
        if ok {
          return;
        }
        prev := c;
        c := next;
        k := k + 1;
      }
    }

    method AskInList(c: Slab, ghost first: Slab?, ghost list: seq<Slab>, ghost k: nat, obj: nat)
      returns (ok: bool, next: Slab?)
      requires Sound() && IsList(first, list) && k < |list| && c == list[k] && c in slabs
      modifies c`bits, c.memory
      ensures Sound() && ok == Takes(c.cut, obj)
      ensures if ok then OnlyLost(c, obj) else NoBitsChanged()
      ensures next == if k + 1 < |list| then list[k + 1] else null
    {
      ok := TryFree(c, obj);
      next := c.next;
    }

    twostate predicate Untouched()
      reads this`slabs, slabs`bits, Memories()
    {
      slabs == old(slabs) && forall s :: s in slabs ==> s.bits == old(s.bits) && unchanged(s.memory)
    }

    /** Relinking leaves the slabs as they are. */
    twostate lemma SoundKept()
      requires old(Sound()) && Untouched()
      ensures Sound() && forall s :: s in slabs ==> s.HasRoom() == old(s.HasRoom())
    {
    }

    method FullToPartial(c: Slab, prev: Slab?, ghost k: nat)
      requires k < |full| && ValidBut(full[k]) && c == full[k] && prev == Before(full, k)
      modifies this`firstFull, this`firstPartial, this`firstFree, this`full, this`partial, this`free, slabs`next
      ensures Valid() && Untouched()
      ensures full == Without(old(full), k) && partial == [old(full)[k]] + old(partial) && free == old(free)
    {
      Moved(slabs, full, partial, free, k);
      LinkFullToPartial(c, prev, k);
      SoundKept();
    }

    /** Storing the heads changes no link. */
    method Store(f: Slab?, p: Slab?, r: Slab?, ghost fs: seq<Slab>, ghost ps: seq<Slab>, ghost rs: seq<Slab>)
      requires IsList(f, fs) && IsList(p, ps) && IsList(r, rs)
      modifies this`firstFull, this`firstPartial, this`firstFree, this`full, this`partial, this`free
      ensures Linked() && full == fs && partial == ps && free == rs
      ensures firstFull == f && firstPartial == p && firstFree == r
    {
      firstFull, firstPartial, firstFree := f, p, r;
      full, partial, free := fs, ps, rs;
    }

    /** The relinking alone. */
    method LinkFullToPartial(c: Slab, prev: Slab?, ghost k: nat)
      requires Partition(slabs, full, partial, free) && Linked()
      requires k < |full| && c == full[k] && prev == Before(full, k)
      modifies this`firstFull, this`firstPartial, this`firstFree, this`full, this`partial, this`free, slabs`next
      ensures Partition(slabs, full, partial, free) && Linked() && Untouched()
      ensures full == Without(old(full), k) && partial == [old(full)[k]] + old(partial) && free == old(free)
    {
      PartitionIsApart(slabs, full, partial, free);
      var f, p;
      ghost var fs, ps;
      f, p, fs, ps := Move(firstFull, prev, c, firstPartial, firstFree, slabs, full, k, partial, free);
      Store(f, p, firstFree, fs, ps, free);
    }

    method PartialToFree(c: Slab, prev: Slab?, ghost k: nat)
      requires k < |partial| && Valid() && c == partial[k] && prev == Before(partial, k) && c.HasRoom()
      modifies this`firstFull, this`firstPartial, this`firstFree, this`full, this`partial, this`free, slabs`next
      ensures Valid() && Untouched()
      ensures partial == Without(old(partial), k) && free == [old(partial)[k]] + old(free) && full == old(full)
    {
      Moved(slabs, partial, free, full, k);
      LinkPartialToFree(c, prev, k);
      SoundKept();
    }

    method LinkPartialToFree(c: Slab, prev: Slab?, ghost k: nat)
      requires Partition(slabs, full, partial, free) && Linked()
      requires k < |partial| && c == partial[k] && prev == Before(partial, k)
      modifies this`firstFull, this`firstPartial, this`firstFree, this`full, this`partial, this`free, slabs`next
      ensures Partition(slabs, full, partial, free) && Linked() && Untouched()
      ensures partial == Without(old(partial), k) && free == [old(partial)[k]] + old(free) && full == old(full)
    {
      PartitionIsApart(slabs, full, partial, free);
      var p, r;
      ghost var ps, rs;
      p, r, ps, rs := Move(firstPartial, prev, c, firstFree, firstFull, slabs, partial, k, free, full);
      Store(firstFull, p, r, full, ps, rs);
    }

    /** A full slab that takes the object moves to the head of `partial`. */
    method FreeFromFull(obj: nat) returns (c: Slab?, ghost k: nat)
      requires Valid()
      modifies this`firstFull, this`firstPartial, this`firstFree, this`full, this`partial, this`free
      modifies slabs`bits, slabs`next, Memories()
      ensures Valid() && FirstTaker(old(full), obj, k) && free == old(free)
      ensures k == |old(full)| ==> c == null && NoBitsChanged() && full == old(full) && partial == old(partial)
      ensures k < |old(full)| ==> c == old(full)[k] && OnlyLost(c, obj)
      ensures k < |old(full)| ==> full == Without(old(full), k) && partial == [old(full)[k]] + old(partial)
    {
      var prev: Slab?;
      c, prev, k := FreeInFull(obj);
      if c != null {
        FullToPartial(c, prev, k);
      }
    }

    method FreeInFull(obj: nat) returns (c: Slab?, prev: Slab?, ghost k: nat)
      requires Valid()
      modifies slabs`bits, Memories()
      ensures FirstTaker(full, obj, k)
      ensures k < |full| ==> ValidBut(full[k]) && c == full[k] && prev == Before(full, k) && OnlyLost(c, obj)
      ensures k == |full| ==> Valid() && c == null && NoBitsChanged()
    {
      PartitionIsApart(slabs, full, partial, free);
      c, prev, k := FreeInList(firstFull, full, obj);
    }

    method FreeInPartial(obj: nat) returns (c: Slab?, prev: Slab?, ghost k: nat)
      requires Valid()
      modifies slabs`bits, Memories()
      ensures Valid() && FirstTaker(partial, obj, k)
      ensures k < |partial| ==> c == partial[k] && prev == Before(partial, k) && OnlyLost(c, obj)
      ensures k == |partial| ==> c == null && NoBitsChanged()
    {
      PartitionIsApart(slabs, full, partial, free);
      c, prev, k := FreeInList(firstPartial, partial, obj);
    }

    /** A partial slab that takes the object moves to the head of `free` exactly if it looks free then. */
    method FreeFromPartial(obj: nat) returns (c: Slab?, moved: bool, ghost k: nat)
      requires Valid()
      modifies this`firstFull, this`firstPartial, this`firstFree, this`full, this`partial, this`free
      modifies slabs`bits, slabs`next, Memories()
      ensures Valid() && FirstTaker(old(partial), obj, k) && full == old(full)
      ensures k == |old(partial)| ==> c == null && NoBitsChanged() && !moved
      ensures k < |old(partial)| ==> c == old(partial)[k] && OnlyLost(c, obj)
      ensures moved ==> c != null && c.LooksFree()
      ensures !moved && c != null && ChecksInside(c.cut) ==> !c.LooksFree()
      ensures c != null && ChecksMap(c.cut) ==> (moved <==> ClearBelow(c.bits, 8 * c.cut.checkedBytes))
      ensures !moved ==> partial == old(partial) && free == old(free)
      ensures moved ==> partial == Without(old(partial), k) && free == [old(partial)[k]] + old(free)
    {
      var prev: Slab?;
      c, prev, k := FreeInPartial(obj);
      moved := false;
      if c != null {
        moved := MoveIfFree(c, prev, k);
      }
    }

    method MoveIfFree(c: Slab, prev: Slab?, ghost k: nat) returns (moved: bool)
      requires Valid() && k < |partial| && c == partial[k] && prev == Before(partial, k)
      modifies this`firstFull, this`firstPartial, this`firstFree, this`full, this`partial, this`free, slabs`next
      ensures Valid() && Untouched() && full == old(full)
      ensures moved ==> c.LooksFree()
      ensures !moved && ChecksInside(c.cut) ==> !c.LooksFree()
      ensures ChecksMap(c.cut) ==> (moved <==> ClearBelow(c.bits, 8 * c.cut.checkedBytes))
      ensures !moved ==> partial == old(partial) && free == old(free)
      ensures moved ==> partial == Without(old(partial), k) && free == [old(partial)[k]] + old(free)
    {
      moved := c.IsSlabFree();
      if moved {
        PartialToFree(c, prev, k);
      }
    }

    /** `free_object_from_cache`: the full slabs are asked first, then the partial ones; the free ones never.  The
        first to accept the address is the one that loses it. */
    method FreeObject(obj: nat) returns (ok: bool, ghost c: Slab?, ghost k: nat, ghost moved: bool)
      requires Valid()
      modifies this`firstFull, this`firstPartial, this`firstFree, this`full, this`partial, this`free
      modifies slabs`bits, slabs`next, Memories()
      ensures Valid()
      ensures ok <==> Accepted(old(full) + old(partial), obj)
      ensures !ok ==> NoBitsChanged() && full == old(full) && partial == old(partial) && free == old(free)
      ensures ok ==> c != null && FirstTaker(old(full) + old(partial), obj, k) && c == (old(full) + old(partial))[k]
      ensures ok ==> OnlyLost(c, obj)
      ensures ok && k < |old(full)| ==>
        full == Without(old(full), k) && partial == [c] + old(partial) && free == old(free)
      ensures ok && k >= |old(full)| ==> full == old(full)
      ensures ok && k >= |old(full)| ==> if moved then
        partial == Without(old(partial), k - |old(full)|) && free == [c] + old(free)
        else partial == old(partial) && free == old(free)
      ensures ok && k >= |old(full)| && ChecksMap(c.cut) ==> (moved <==> ClearBelow(c.bits, 8 * c.cut.checkedBytes))
    {
      ghost var full0, partial0 := full, partial;
      var taker: Slab?;
      moved := false;
      taker, k := FreeFromFull(obj);
      TakersInFront(full0, partial0, obj, k);
      if taker != null {
        return true, taker, k, false;
      }
      var shifted: bool;
      ghost var l;
      taker, shifted, l := FreeFromPartial(obj);
      TakersBehind(full0, partial0, obj, l);
      return taker != null, taker, |full0| + l, shifted;
    }

    /** An object is refused when it comes back exactly when its slab is on the free list and no full or partial slab
        accepts its address. */
    lemma RefusedExactlyWhen(s: Slab, i: nat)
      requires Valid() && s in slabs && i < s.cut.objs && s.cut.shape.Bytes() <= MEMORY_END / 2
      ensures !Accepted(full + partial, AddressOf(s.cut, i))
          <==> s in free && forall t :: t in full + partial ==> !Takes(t.cut, AddressOf(s.cut, i))
    {
      var a := AddressOf(s.cut, i);
      ObjectComesBack(s.cut.shape, i);
      InSomeList(s);
      if t :| t in full + partial && Takes(t.cut, a) {
        var k :| 0 <= k < |full + partial| && (full + partial)[k] == t;
      }
    }

    lemma InSomeList(s: Slab)
      requires Valid() && s in slabs
      ensures s in full || s in partial || s in free
    {
      assert s in multiset(slabs);
      assert s in multiset(full) + multiset(partial) + multiset(free);
    }

    ghost function Roomy(): set<Slab>
      reads this`slabs, slabs`bits
    {
      set s | s in slabs && s.HasRoom()
    }

    /** Only c changed: its first free object i is in use now. */
    twostate predicate OnlyTook(c: Slab, i: nat)
      reads this`slabs, slabs`bits
    {
      && c in slabs && slabs == old(slabs)
      && old(c.FirstFree(i)) && c.bits == old(c.bits)[i := true]
      && forall s :: s in slabs && s != c ==> s.bits == old(s.bits)
    }

    /** Asks one slab for an object. */
    method TryAlloc(c: Slab) returns (obj: Object, ghost i: nat)
      requires Sound() && c in slabs
      modifies c`bits, c.memory
      ensures Sound()
      ensures obj == NULL <==> !old(c.HasRoom())
      ensures obj == NULL ==> NoBitsChanged()
      ensures obj != NULL ==> OnlyTook(c, i) && obj == Object(AddressOf(c.cut, i))
    {
      obj, i := c.AllocObject();
    }

    method FreeToPartial()
      requires Valid() && free != []
      modifies this`firstFull, this`firstPartial, this`firstFree, this`full, this`partial, this`free, slabs`next
      ensures Valid() && free == old(free)[1..] && partial == [old(free)[0]] + old(partial) && full == old(full)
    {
      MovedFirst(slabs, free, partial, full);
      LinkFreeToPartial();
      SoundKept();
    }

    method LinkFreeToPartial()
      requires Partition(slabs, full, partial, free) && Linked() && free != []
      modifies this`firstFull, this`firstPartial, this`firstFree, this`full, this`partial, this`free, slabs`next
      ensures Partition(slabs, full, partial, free) && Linked() && Untouched()
      ensures free == old(free)[1..] && partial == [old(free)[0]] + old(partial) && full == old(full)
    {
      PartitionIsApart(slabs, full, partial, free);
      var r, p;
      ghost var rs, ps;
      r, p, rs, ps := Move(firstFree, null, firstFree, firstPartial, firstFull, slabs, free, 0, partial, full);
      Store(firstFull, p, r, full, ps, rs);
    }

    /** An exhausted first partial slab goes to the full list; the loop goes on behind it there. */
    method PartialToFull() returns (prev: Slab, cursor: Slab?)
      requires Valid() && partial != [] && !partial[0].HasRoom()
      modifies this`firstFull, this`firstPartial, this`firstFree, this`full, this`partial, this`free, slabs`next
      ensures Valid() && partial == old(partial)[1..] && full == [old(partial)[0]] + old(full) && free == old(free)
      ensures prev == full[0] && cursor == if |full| > 1 then full[1] else null
    {
      MovedFirst(slabs, partial, full, free);
      prev, cursor := LinkPartialToFull();
      SoundKept();
    }

    method LinkPartialToFull() returns (prev: Slab, cursor: Slab?)
      requires Partition(slabs, full, partial, free) && Linked() && partial != []
      modifies this`firstFull, this`firstPartial, this`firstFree, this`full, this`partial, this`free, slabs`next
      ensures Partition(slabs, full, partial, free) && Linked() && Untouched()
      ensures partial == old(partial)[1..] && full == [old(partial)[0]] + old(full) && free == old(free)
      ensures prev == full[0] && cursor == if |full| > 1 then full[1] else null
    {
      PartitionIsApart(slabs, full, partial, free);
      var p, f;
      ghost var ps, fs;
      p, f, prev, cursor, ps, fs := RetireFirst(firstPartial, firstFull, firstFree, slabs, partial, full, free);
      Store(f, p, firstFree, fs, ps, free);
    }

    /** On the full list the first two slabs change places, and the loop goes on behind the new first. */
    method SwapFull(c: Slab, prev: Slab) returns (prev': Slab, cursor: Slab?)
      requires Valid() && |full| > 1 && prev == full[0] && c == full[1]
      modifies this`firstFull, this`full, slabs`next
      ensures Valid() && Untouched() && full == [old(full)[1], old(full)[0]] + old(full)[2..]
      ensures prev' == full[0] && cursor == full[1]
    {
      prev', cursor := LinkSwap(c, prev);
      SoundKept();
    }

    method LinkSwap(c: Slab, prev: Slab) returns (prev': Slab, cursor: Slab?)
      requires Partition(slabs, full, partial, free) && Linked()
      requires |full| > 1 && prev == full[0] && c == full[1]
      modifies this`firstFull, this`full, slabs`next
      ensures Partition(slabs, full, partial, free) && Linked() && Untouched()
      ensures full == [old(full)[1], old(full)[0]] + old(full)[2..]
      ensures prev' == full[0] && cursor == full[1]
    {
      PartitionIsApart(slabs, full, partial, free);
      assert full == [full[0], full[1]] + full[2..];
      firstFull, prev', cursor, full := RetireSecond(firstFull, prev, c, full);
    }

    /** `growCache`, as far as the lists go: a new slab, nothing used, at the head of the free list. */
    method Grow(shape: Shape)
      requires Valid() && shape.Valid() && shape.objSize == objSize && shape.offSlab == offSlab
      modifies this`firstFree, this`free, this`slabs
      ensures Valid() && |free| == |old(free)| + 1 && free[1..] == old(free) && fresh(free[0]) && fresh(free[0].memory)
      ensures slabs == old(slabs) + {free[0]}
      ensures OnlyUses(free[0].bits, -1) && free[0].cut.shape == shape
      ensures forall s :: s in old(slabs) ==> s.bits == old(s.bits)
    {
      var s := new Slab(shape);
      CutFacts(s.cut);
      assert !s.bits[0];
      AddFree(s);
    }

    /** A sound slab with memory of its own joins the rest. */
    twostate lemma SoundWith(s: Slab)
      requires old(Sound()) && s.Valid() && slabs == old(slabs) + {s}
      requires forall t :: t in old(slabs) ==> t.memory != s.memory && t.Valid()
      requires s.cut.shape.objSize == objSize && s.cut.shape.offSlab == offSlab
      ensures Sound()
    {
    }

    method AddFree(s: Slab)
      requires Valid() && s !in slabs && s.Valid() && s.HasRoom() && forall t :: t in slabs ==> t.memory != s.memory
      requires s.cut.shape.objSize == objSize && s.cut.shape.offSlab == offSlab
      modifies this`firstFree, this`free, this`slabs, s`next
      ensures Valid() && free == [s] + old(free) && slabs == old(slabs) + {s}
    {
      LinkFree(s);
      SoundWith(s);
    }

    method LinkFree(s: Slab)
      requires Partition(slabs, full, partial, free) && Linked() && s !in slabs
      modifies this`firstFree, this`free, this`slabs, s`next
      ensures Partition(slabs, full, partial, free) && Linked()
      ensures free == [s] + old(free) && slabs == old(slabs) + {s}
    {
      PartitionIsApart(slabs, full, partial, free);
      Grown(slabs, full, partial, free, s);
      Push(firstFree, s, free);
      firstFree := s;
      slabs := slabs + {s};
      free := [s] + free;
    }

    /** Asks the first partial slab. */
    method AllocInPartial() returns (obj: Object, ghost i: nat)
      requires Valid() && partial != []
      modifies slabs`bits, Memories()
      ensures Valid()
      ensures obj == NULL <==> !old(partial[0].HasRoom())
      ensures obj == NULL ==> NoBitsChanged()
      ensures obj != NULL ==> OnlyTook(partial[0], i) && obj == Object(AddressOf(partial[0].cut, i))
    {
      MovedFirst(slabs, partial, full, free);
      obj, i := TryAlloc(firstPartial);
    }

    /** The loop at the first partial slab: it has an object, or it goes to the full list. */
    method IteratePartial() returns (obj: Object, prev: Slab?, cursor: Slab?, ghost i: nat)
      requires Valid() && partial != []
      modifies this`firstFull, this`firstPartial, this`firstFree, this`full, this`partial, this`free
      modifies slabs`bits, slabs`next, Memories()
      ensures Valid()
      ensures obj == NULL <==> !old(partial[0].HasRoom())
      ensures obj != NULL ==> OnlyTook(old(partial)[0], i) && obj == Object(AddressOf(old(partial)[0].cut, i))
      ensures obj == NULL ==> NoBitsChanged()
      ensures free == old(free)
      ensures if obj == NULL then partial == old(partial)[1..] && full == [old(partial)[0]] + old(full)
              else partial == old(partial) && full == old(full)
      ensures obj == NULL ==> prev == full[0] && cursor == if |full| > 1 then full[1] else null
      ensures L.Step(L.Loop(old(partial), old(full), L.AtPartial), old(Roomy())) ==
                if obj != NULL then L.Found(partial[0])
                else if cursor == null then L.Left(partial, full)
                else L.Running(L.Loop(partial, full, L.AtFull))
    {
      assert partial[0] in Roomy() <==> partial[0].HasRoom();
      obj, i := AllocInPartial();
      prev, cursor := null, firstPartial;
      if obj == NULL {
        prev, cursor := PartialToFull();
      }
    }

    /** The loop at the second full slab, which never has an object. */
    method IterateFull(c: Slab, prev: Slab) returns (obj: Object, prev': Slab, cursor: Slab?)
      requires Valid() && |full| > 1 && prev == full[0] && c == full[1]
      modifies this`firstFull, this`full, slabs`bits, slabs`next, Memories()
      ensures Valid() && NoBitsChanged()
      ensures obj == NULL && full == [old(full)[1], old(full)[0]] + old(full)[2..]
      ensures prev' == full[0] && cursor == full[1]
      ensures L.Step(L.Loop(old(partial), old(full), L.AtFull), old(Roomy()))
           == L.Running(L.Loop(partial, full, L.AtFull))
    {
      assert full[1] in full && full[1] !in Roomy();
      obj := AskFull(c);
      prev', cursor := SwapFull(c, prev);
    }

    /** A slab of the full list has no object to give. */
    method AskFull(c: Slab) returns (obj: Object)
      requires Valid() && c in full
      modifies slabs`bits, Memories()
      ensures Valid() && NoBitsChanged() && obj == NULL
    {
      ghost var i;
      obj, i := TryAlloc(c);
    }

    /** Takes a free slab over to the partial list and an object from it.  It has room, so the panic for an empty slab
        is not reached. */
    method AllocFromFree() returns (obj: Object, ghost c: Slab, ghost i: nat)
      requires Valid() && free != []
      modifies this`firstFull, this`firstPartial, this`firstFree, this`full, this`partial, this`free
      modifies slabs`bits, slabs`next, Memories()
      ensures Valid() && c == old(free)[0] && OnlyTook(c, i) && obj == Object(AddressOf(c.cut, i))
      ensures free == old(free)[1..] && partial == [c] + old(partial) && full == old(full)
    {
      c := free[0];
      FreeToPartial();
      obj, i := AllocInPartial();
    }

    /** The loop itself, where it stops: the first partial slab has room, or nothing is on the full list yet. */
    method AllocLoop() returns (obj: Object, ghost i: nat)
      requires Valid() && partial != [] && (partial[0].HasRoom() || full == [])
      modifies this`firstFull, this`firstPartial, this`firstFree, this`full, this`partial, this`free
      modifies slabs`bits, slabs`next, Memories()
      ensures Valid()
      ensures obj == NULL <==> !old(partial[0].HasRoom())
      ensures obj != NULL ==> OnlyTook(old(partial)[0], i) && obj == Object(AddressOf(old(partial)[0].cut, i))
      ensures obj != NULL ==> partial == old(partial) && full == old(full)
      ensures obj == NULL ==> NoBitsChanged() && partial == old(partial)[1..] && full == [old(partial)[0]]
      ensures free == old(free)
    {
      var cslab := firstPartial;
      var prevslab: Slab? := null;
      obj, i := NULL, 0;
      while cslab != null
        invariant Valid() && obj == NULL && NoBitsChanged() && free == old(free)
        invariant cslab != null ==> partial == old(partial) && full == old(full)
        invariant cslab == null ==>
          !old(partial[0].HasRoom()) && partial == old(partial)[1..] && full == [old(partial)[0]]
        decreases cslab != null
      {
        obj, prevslab, cslab, i := IteratePartial();
        if obj != NULL {
          return;
        }
      }
    }

    /** An object i of slab c was handed out that was not in use before, the first of its slab; no other old slab
        changed, and a slab made since has nothing else in use. */
    twostate predicate Got(new c: Slab, i: nat)
      reads this`slabs, slabs`bits
    {
      && c in slabs && old(slabs) <= slabs
      && i < |c.bits| && c.bits[i] && i < c.cut.objs
      && (c in old(slabs) ==> old(c.FirstFree(i)) && c.bits == old(c.bits)[i := true])
      && (c !in old(slabs) ==> i == 0)
      && (forall s :: s in old(slabs) && s != c ==> s.bits == old(s.bits))
      && forall s :: s in slabs && s !in old(slabs) ==> OnlyUses(s.bits, if s == c then i else -1)
    }

    /** The call made at most one slab, of the given shape. */
    twostate predicate GrewBy(new g: Slab, shape: Shape)
      reads this`slabs
    {
      slabs == old(slabs) || (g !in old(slabs) && fresh(g) && fresh(g.memory) && g.cut.shape == shape && slabs == old(slabs) + {g})
    }

    lemma HangsIs()
      requires Valid()
      ensures L.Hangs(partial, full, free, Roomy()) <==>
                && partial != [] && !partial[0].HasRoom()
                && (full != [] || (free == [] && |partial| > 1 && !partial[1].HasRoom()))
    {
    }

    ghost function Lists(): L.Lists<Slab>
      reads this
    {
      L.Lists(partial, full, free)
    }

    /** `alloc_object_from_cache`, from every state in which it returns.  `shape` is the slab `growCache` would make,
        and `g` the slab it then makes.  The object comes from the slab that is then the first partial one. */
    method AllocObject(shape: Shape) returns (obj: Object, ghost c: Slab, ghost i: nat, ghost g: Slab)
      requires Valid() && shape.Valid() && shape.objSize == objSize && shape.offSlab == offSlab
      requires !L.Hangs(partial, full, free, Roomy())
      modifies this`firstFull, this`firstPartial, this`firstFree, this`full, this`partial, this`free, this`slabs
      modifies slabs`bits, slabs`next, Memories()
      ensures Valid() && Got(c, i) && GrewBy(g, shape) && obj == Object(AddressOf(c.cut, i))
      ensures Lists() == L.Settled(old(Lists()), old(Roomy()), g) && partial != [] && c == partial[0]
      ensures slabs == old(slabs) <==> old(free != [] || (partial != [] && partial[0].HasRoom()))
      decreases |partial|, free == [], 2
    {
      HangsIs();
      if firstPartial == null {
        obj, c, i, g := AllocElsewhere(shape);
      } else {
        c, g := partial[0], partial[0];
        obj, i := AllocLoop();
        if obj == NULL {
          obj, c, i, g := AllocElsewhere(shape);
        }
      }
    }

    /** No partial slab had an object: one comes from a free slab, or from one just made. */
    method AllocElsewhere(shape: Shape) returns (obj: Object, ghost c: Slab, ghost i: nat, ghost g: Slab)
      requires Valid() && shape.Valid() && shape.objSize == objSize && shape.offSlab == offSlab
      requires free != [] || partial == [] || partial[0].HasRoom()
      modifies this`firstFull, this`firstPartial, this`firstFree, this`full, this`partial, this`free, this`slabs
      modifies slabs`bits, slabs`next, Memories()
      ensures Valid() && Got(c, i) && GrewBy(g, shape) && obj == Object(AddressOf(c.cut, i))
      ensures Lists() == L.Elsewhere(old(Lists()), g) && partial != [] && c == partial[0]
      ensures slabs == old(slabs) <==> old(free) != []
      decreases |partial|, free == [], 1
    {
      if firstFree == null {
        obj, c, i, g := GrowAndRetry(shape);
      } else {
        obj, c, i := AllocFromFree();
        g := c;
      }
    }

    method GrowAndRetry(shape: Shape) returns (obj: Object, ghost c: Slab, ghost i: nat, ghost g: Slab)
      requires Valid() && shape.Valid() && shape.objSize == objSize && shape.offSlab == offSlab
      requires free == [] && (partial == [] || partial[0].HasRoom())
      modifies this`firstFull, this`firstPartial, this`firstFree, this`full, this`partial, this`free, this`slabs
      modifies slabs`bits, slabs`next, Memories()
      ensures Valid() && Got(c, i) && GrewBy(g, shape) && obj == Object(AddressOf(c.cut, i))
      ensures Lists() == L.Elsewhere(old(Lists()), g) && partial != [] && c == partial[0] && slabs != old(slabs)
      decreases |partial|, free == [], 0
    {
      ghost var was := Lists();
      Grow(shape);
      g := free[0];
      obj, c, i := AllocAgain(shape, was, g, old(slabs));
    }

    /** The same with one slab, g, that was made before with nothing in use. */
    twostate predicate GotBeside(base: set<Slab>, g: Slab, new c: Slab, i: nat)
      reads this`slabs, slabs`bits
    {
      && slabs == old(slabs) && c in slabs
      && i < |c.bits| && c.bits[i] && i < c.cut.objs
      && (c != g ==> old(c.FirstFree(i)) && c.bits == old(c.bits)[i := true])
      && (c == g ==> i == 0)
      && (forall s :: s in base && s in slabs && s != c ==> s.bits == old(s.bits))
      && (g in slabs ==> OnlyUses(g.bits, if g == c then i else -1))
    }

    /** The call made again after growing. */
    method AllocAgain(shape: Shape, ghost was: L.Lists<Slab>, ghost g: Slab, ghost base: set<Slab>)
      returns (obj: Object, ghost c: Slab, ghost i: nat)
      requires Valid() && shape.Valid() && shape.objSize == objSize && shape.offSlab == offSlab
      requires slabs == base + {g} && OnlyUses(g.bits, -1)
      requires was.free == [] && Lists() == was.(free := [g]) && (partial == [] || partial[0].HasRoom())
      modifies this`firstFull, this`firstPartial, this`firstFree, this`full, this`partial, this`free, this`slabs
      modifies slabs`bits, slabs`next, Memories()
      ensures Valid() && GotBeside(base, g, c, i) && obj == Object(AddressOf(c.cut, i))
      ensures Lists() == L.Elsewhere(was, g) && partial != [] && c == partial[0]
      decreases |partial|, free == [], 3
    {
      HangsIs();
      ghost var roomy, other, mid := Roomy(), g, g.bits;
      obj, c, i, other := AllocObject(shape);
      L.GrownThenSettled(was, roomy, g, other);
      if c == g {
        FirstUse(mid, i);
      }
    }
  }

  /** Some slab of a list accepts the address. */
  predicate Accepted(s: seq<Slab>, obj: nat) {
    exists k :: 0 <= k < |s| && Takes(s[k].cut, obj)
  }

  lemma TakersInFront(s: seq<Slab>, t: seq<Slab>, obj: nat, k: nat)
    requires FirstTaker(s, obj, k)
    ensures k < |s| ==> FirstTaker(s + t, obj, k) && Accepted(s + t, obj)
  {
  }

  lemma TakersBehind(s: seq<Slab>, t: seq<Slab>, obj: nat, l: nat)
    requires FirstTaker(s, obj, |s|) && FirstTaker(t, obj, l)
    ensures FirstTaker(s + t, obj, |s| + l) && (l < |t| <==> Accepted(s + t, obj))
  {
  }

  /** No bit is set but bit i. */
  predicate OnlyUses(bits: seq<bool>, i: int) {
    forall j :: 0 <= j < |bits| && j != i ==> !bits[j]
  }

  /** The first clear bit of a map with none set. */
  lemma FirstUse(bits: seq<bool>, i: nat)
    requires OnlyUses(bits, -1) && i < |bits| && forall j :: 0 <= j < i ==> bits[j]
    ensures i == 0 && OnlyUses(bits[i := true], i)
  {
    assert !bits[0];
  }

  function Before(s: seq<Slab>, k: nat): Slab?
    requires k <= |s|
  {
    if k == 0 then null else s[k - 1]
  }

  /** The k-th slab of a list is the first that takes obj; k == |s| if none does. */
  ghost predicate FirstTaker(s: seq<Slab>, obj: nat, k: nat) {
    && k <= |s|
    && (k < |s| ==> Takes(s[k].cut, obj))
    && forall j :: 0 <= j < k ==> !Takes(s[j].cut, obj)
  }
}
