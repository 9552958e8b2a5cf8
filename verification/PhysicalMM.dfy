/** The physical page allocator: a table of page blocks in an array, filled up to `blockindex`. */
module PhysicalMM {
  import opened PageBlocks
  import B = PageBits
  import W = Words

  const MAXPAGEBLOCKS := 200

  /** A table entry as it is stored. */
  datatype RawEntry = RawEntry(unaligned: nat, start: nat, size: nat, used: W.Words)

  type Entry = e: RawEntry | e.size <= 128 witness RawEntry(0, 0, 0, W.NONE)

  /** The page block an entry stands for. */
  function Block(e: Entry): PageBlock {
    RawBlock(e.unaligned, e.start, e.size, W.View(e.used))
  }

  datatype Page = NULL | Page(address: nat)

  class PageAllocator {
    const pages: array<Entry>
    var blockindex: nat
    /** The blocks the table stands for. */
    ghost var table: seq<PageBlock>
    /** Every `ti_free` so far, in order. */
    ghost var returned: seq<nat>

    ghost predicate Valid()
      reads this, pages
    {
      && pages.Length == MAXPAGEBLOCKS && blockindex <= MAX_BLOCKS
      && |table| == blockindex
      && forall i :: 0 <= i < blockindex ==> table[i] == Block(pages[i])
    }

    constructor ()
      ensures Valid() && fresh(pages) && table == [] && returned == []
    {
      pages := new Entry[MAXPAGEBLOCKS](_ => RawEntry(0, 0, 0, W.NONE));
      blockindex := 0;
      table, returned := [], [];
    }

    method AddPageBlock(e: Entry) returns (ok: bool)
      requires Valid()
      modifies this`blockindex, this`table, pages
      ensures Valid()
      ensures ok == (old(blockindex) < MAX_BLOCKS)
      ensures table == if ok then old(table) + [Block(e)] else old(table)
    {
      if blockindex >= MAXPAGEBLOCKS - 4 {
        return false;
      }
      pages[blockindex] := e;
      blockindex := blockindex + 1;
      table := table + [Block(e)];
      return true;
    }

    /** `chunk` is what `ti_malloc` answered, 0 for nothing. */
    method AllocPageblock(size: nat, chunk: nat) returns (ok: bool)
      requires Valid()
      modifies this, pages
      ensures Valid()
      ensures ok == (size <= 128 && chunk != 0 && old(blockindex) < MAX_BLOCKS)
      ensures ok ==> table == old(table) + [NewBlock(chunk, size)] && returned == old(returned)
      ensures !ok ==> table == old(table)
      ensures !ok ==> returned == old(returned) + if size <= 128 && chunk != 0 then [chunk] else []
    {
      if size > 128 {
        return false;
      }
      if chunk == 0 {
        return false;
      }
      var e := RawEntry(chunk, AlignUp(chunk), size, W.NONE);
      W.NoneView();
      ok := AddPageBlock(e);
      if !ok {
        returned := returned + [chunk];
      }
    }

    /** Removes the first block that starts where the given one does; those behind it move up. */
    method RemovePageblock(unaligned: nat)
      requires Valid()
      modifies this`blockindex, this`table, pages
      ensures Valid()
      ensures table == Removed(old(table), unaligned)
    {
      for i := 0 to blockindex
        invariant Valid() && table == old(table) && blockindex == old(blockindex)
        invariant forall j :: 0 <= j < i ==> table[j].unaligned != unaligned
      {
        if pages[i].unaligned == unaligned {
          RemovedAt(table, i, unaligned);
          CloseGap(i);
          return;
        }
      }
      NothingRemoved(table, unaligned);
    }

    method CloseGap(i: nat)
      requires Valid() && i < blockindex
      modifies this`blockindex, this`table, pages
      ensures Valid() && table == old(table)[..i] + old(table)[i + 1..]
    {
      for a := i to blockindex - 1
        invariant blockindex == old(blockindex) && table == old(table)
        invariant forall j :: 0 <= j < i ==> Block(pages[j]) == table[j]
        invariant forall j :: i <= j < a ==> Block(pages[j]) == table[j + 1]
        invariant forall j :: a <= j < blockindex ==> Block(pages[j]) == table[j]
      {
        pages[a] := pages[a + 1];
      }
      blockindex := blockindex - 1;
      table := table[..i] + table[i + 1..];
    }

    /** Gives every chunk back to the operating system, each of them once, by the address it came with. */
    method FreeAllPageblocks()
      requires Valid()
      modifies this, pages
      ensures Valid() && table == []
      ensures |returned| == |old(returned)| + |old(table)| && returned[..|old(returned)|] == old(returned)
      ensures forall i :: 0 <= i < |old(table)| ==> returned[|old(returned)| + i] == old(table)[i].unaligned
    {
      ghost var n := 0;
      while blockindex != 0
        invariant Valid() && n <= |old(table)| && table == old(table)[n..]
        invariant |returned| == |old(returned)| + n && returned[..|old(returned)|] == old(returned)
        invariant forall i :: 0 <= i < n ==> returned[|old(returned)| + i] == old(table)[i].unaligned
        decreases blockindex
      {
        var chunk := pages[0].unaligned;
        ghost var was := table;
        RemovedAt(table, 0, chunk);
        RemovePageblock(chunk);
        assert table == was[1..];
        returned := returned + [chunk];
        n := n + 1;
      }
    }

    /** Sets or clears bit k of entry i. */
    method WriteBit(i: nat, k: nat, used: bool)
      requires Valid() && i < blockindex && k <= table[i].size
      modifies this`table, pages
      ensures Valid() && table == PutUsed(old(table), i, k, used)
    {
      W.PutIsPut(pages[i].used, k, used);
      pages[i] := pages[i].(used := W.Put(pages[i].used, k, used));
      table := PutUsed(table, i, k, used);
    }

    method ReadBit(i: nat, k: nat) returns (used: bool)
      requires Valid() && i < blockindex && k <= table[i].size
      ensures used == B.Get(table[i].used, k)
    {
      W.GetIsGet(pages[i].used, k);
      return W.Get(pages[i].used, k);
    }

    method HasRoom(i: nat) returns (room: bool)
      requires Valid() && i < blockindex
      ensures room == !LooksFull(table[i])
    {
      W.PopCountIsCount(pages[i].used);
      return W.PopCount(pages[i].used.lo) + W.PopCount(pages[i].used.hi) < pages[i].size;
    }

    method UsePage() returns (page: Page)
      requires Valid()
      modifies this`table, pages
      ensures Valid()
      ensures page == NULL ==> FirstRoom(table) == |table| && table == old(table)
      ensures page != NULL ==> PageTaken(old(table), page.address, table)
    {
      for i := 0 to blockindex
        invariant Valid() && table == old(table)
        invariant forall j :: 0 <= j < i ==> LooksFull(table[j])
      {
        var room := HasRoom(i);
        if room {
          var a := FirstClear(i);
          WriteBit(i, a, true);
          assert TakesPage(old(table), i, a);
          return Page(pages[i].start + PAGE * a);
        }
      }
      return NULL;
    }

    /** The scan of a block with room; the population count vouches for its success. */
    method FirstClear(i: nat) returns (a: nat)
      requires Valid() && i < blockindex && !LooksFull(table[i])
      ensures a < table[i].size && !table[i].used[a] && forall j :: 0 <= j < a ==> table[i].used[j]
    {
      for k := 0 to pages[i].size
        invariant forall j :: 0 <= j < k ==> table[i].used[j]
      {
        var used := ReadBit(i, k);
        if !used {
          return k;
        }
      }
      B.FewOnesLeaveRoom(table[i].used, table[i].size);
      assert false;
    }

    method SetPageUsedBit(page: nat, used: bool)
      requires Valid()
      modifies this`table, pages
      ensures Valid() && table == SetUsed(old(table), page, used)
    {
      ghost var goal := SetUsed(table, page, used);
      for i := 0 to blockindex
        invariant Valid() && |table| == |goal|
        invariant forall j :: 0 <= j < i ==> table[j] == goal[j]
        invariant forall j :: i <= j < |table| ==> table[j] == old(table)[j]
      {
        SetInBlock(i, page, used);
      }
    }

    method SetInBlock(i: nat, page: nat, used: bool)
      requires Valid() && i < blockindex
      modifies this`table, pages
      ensures Valid() && table == old(table)[i := SetIn(old(table)[i], page, used)]
    {
      if pages[i].start <= page <= pages[i].start + PAGE * pages[i].size {
        WriteBit(i, (page - pages[i].start) / PAGE, used);
      }
    }

    method IsPageUsed(page: nat) returns (b: bool)
      requires Valid()
      ensures b == IsUsed(table, page)
    {
      for i := 0 to blockindex
        invariant forall j :: 0 <= j < i ==> !Covers(table[j], page)
      {
        if pages[i].start <= page <= pages[i].start + PAGE * pages[i].size {
          IsUsedSkips(table, page, i);
          b := ReadBit(i, (page - pages[i].start) / PAGE);
          return;
        }
      }
      IsUsedSkips(table, page, |table|);
      return true;
    }

    method IsRunFree(page: nat, size: nat) returns (free: bool)
      requires Valid()
      ensures free == RunFree(table, page, size)
    {
      for b := 0 to size
        invariant RunFree(table, page, b)
      {
        var used := IsPageUsed(page + PAGE * b);
        if used {
          return false;
        }
      }
      return true;
    }

    method UseConsecutivePages(size: nat, alignment: nat) returns (page: Page)
      requires Valid()
      modifies this`table, pages
      ensures Valid()
      ensures page == NULL ==> table == old(table) && forall i: nat, a: nat :: !RunFits(table, i, a, size, alignment)
      ensures page != NULL ==> RunTaken(old(table), size, alignment, page.address, table)
      ensures page != NULL && alignment > 0 ==> page.address % alignment == 0
    {
      for i := 0 to blockindex
        invariant Valid() && table == old(table)
        invariant forall i', a: nat :: 0 <= i' < i ==> !RunFits(table, i', a, size, alignment)
      {
        var p := pages[i].start;
        for a := 0 to pages[i].size
          invariant Valid() && table == old(table) && p == PageAt(table[i], a)
          invariant forall a' :: 0 <= a' < a ==> !RunFits(table, i, a', size, alignment)
        {
          if alignment == 0 || p % alignment == 0 {
            var free := IsRunFree(p, size);
            if free {
              assert TakesRun(table, i, a, size, alignment);
              SetRunBits(p, size, true);
              return Page(p);
            }
          }
          p := p + PAGE;
        }
      }
      return NULL;
    }

    method SetRunBits(page: nat, size: nat, used: bool)
      requires Valid()
      modifies this`table, pages
      ensures Valid() && table == SetRun(old(table), page, size, used)
    {
      for b := 0 to size
        invariant Valid() && table == SetRun(old(table), page, b, used)
      {
        SetPageUsedBit(page + PAGE * b, used);
      }
    }

    method FreeConsecutivePages(page: nat, size: nat)
      requires Valid()
      modifies this`table, pages
      ensures Valid() && table == SetRun(old(table), page, size, false)
    {
      SetRunBits(page, size, false);
    }
  }

  function Removed(bs: seq<PageBlock>, unaligned: nat): seq<PageBlock> {
    if bs == [] then []
    else if bs[0].unaligned == unaligned then bs[1..]
    else [bs[0]] + Removed(bs[1..], unaligned)
  }

  lemma {:induction false} RemovedAt(bs: seq<PageBlock>, i: nat, unaligned: nat)
    requires i < |bs| && bs[i].unaligned == unaligned
    requires forall j :: 0 <= j < i ==> bs[j].unaligned != unaligned
    ensures Removed(bs, unaligned) == bs[..i] + bs[i + 1..]
  {
    if i > 0 {
      RemovedAt(bs[1..], i - 1, unaligned);
      assert bs[..i] == [bs[0]] + bs[1..][..i - 1];
      assert bs[1..][i..] == bs[i + 1..];
    }
  }

  lemma {:induction false} NothingRemoved(bs: seq<PageBlock>, unaligned: nat)
    requires forall j :: 0 <= j < |bs| ==> bs[j].unaligned != unaligned
    ensures Removed(bs, unaligned) == bs
  {
    if bs != [] {
      NothingRemoved(bs[1..], unaligned);
    }
  }
}
