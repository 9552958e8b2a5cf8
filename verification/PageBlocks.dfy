/** The page allocator's table as a value, and what its operations do to it. */
module PageBlocks {
  import opened PageBits

  const PAGE := 4096
  const MAX_BLOCKS := 196
  const MEMORY_END := 0x1_0000_0000

  datatype RawBlock = RawBlock(unaligned: nat, start: nat, size: nat, used: Bits)

  /** `allocPageblock` refuses more than 128 pages. */
  type PageBlock = b: RawBlock | b.size <= 128 witness RawBlock(0, 0, 0, NoneUsed())

  /** `makeSmallPageAligned`. */
  function AlignUp(p: nat): (a: nat)
    ensures a % PAGE == 0 && p <= a < p + PAGE
  {
    if p - p % PAGE == p then p else p - p % PAGE + PAGE
  }

  function NewBlock(chunk: nat, size: nat): PageBlock
    requires size <= 128
  {
    RawBlock(chunk, AlignUp(chunk), size, NoneUsed())
  }

  function PageAt(b: PageBlock, k: nat): nat {
    b.start + PAGE * k
  }

  /** Closed at the top: the page behind the last one counts as the block's. */
  predicate Covers(b: PageBlock, page: nat) {
    b.start <= page <= b.start + PAGE * b.size
  }

  function Index(b: PageBlock, page: nat): (k: nat)
    requires Covers(b, page)
    ensures k <= b.size
  {
    (page - b.start) / PAGE
  }

  /** `isPageUsed`: the bit of the first block that covers the page; unknown pages count as used. */
  function IsUsed(bs: seq<PageBlock>, page: nat): bool {
    if bs == [] then true
    else if Covers(bs[0], page) then Get(bs[0].used, Index(bs[0], page))
    else IsUsed(bs[1..], page)
  }

  function SetIn(b: PageBlock, page: nat, used: bool): PageBlock {
    if Covers(b, page) then b.(used := Put(b.used, Index(b, page), used)) else b
  }

  /** `setPageUsedBit`: every block that covers the page. */
  function SetUsed(bs: seq<PageBlock>, page: nat, used: bool): (r: seq<PageBlock>)
    ensures |r| == |bs| && forall i :: 0 <= i < |bs| ==> r[i] == SetIn(bs[i], page, used)
  {
    seq(|bs|, i requires 0 <= i < |bs| => SetIn(bs[i], page, used))
  }

  /** n pages in a row, one after the other. */
  function SetRun(bs: seq<PageBlock>, page: nat, n: nat, used: bool): seq<PageBlock> {
    if n == 0 then bs else SetUsed(SetRun(bs, page, n - 1, used), page + PAGE * (n - 1), used)
  }

  predicate LooksFull(b: PageBlock) {
    Count(b.used) >= b.size
  }

  /** Index of the first block that does not look full to the population count, or |bs|. */
  function FirstRoom(bs: seq<PageBlock>): (i: nat)
    ensures i <= |bs|
    ensures i < |bs| ==> !LooksFull(bs[i])
    ensures forall j :: 0 <= j < i ==> LooksFull(bs[j])
  {
    if bs == [] || !LooksFull(bs[0]) then 0 else 1 + FirstRoom(bs[1..])
  }

  /** `usePage` takes page k of block i. */
  ghost predicate TakesPage(bs: seq<PageBlock>, i: nat, k: nat) {
    && i == FirstRoom(bs) < |bs|
    && k < bs[i].size && !Get(bs[i].used, k)
    && forall j :: 0 <= j < k ==> Get(bs[i].used, j)
  }

  /** `usePage` turns bs into cs and answers `page`. */
  ghost predicate PageTaken(bs: seq<PageBlock>, page: nat, cs: seq<PageBlock>) {
    exists i: nat, k: nat :: TakesPage(bs, i, k) && page == PageAt(bs[i], k) && cs == PutUsed(bs, i, k, true)
  }

  function PutUsed(bs: seq<PageBlock>, i: nat, k: nat, used: bool): seq<PageBlock>
    requires i < |bs| && k <= bs[i].size
  {
    bs[i := bs[i].(used := Put(bs[i].used, k, used))]
  }

  /** Alignment 0 asks for nothing. */
  predicate Aligned(page: nat, alignment: nat) {
    alignment == 0 || page % alignment == 0
  }

  ghost predicate RunFree(bs: seq<PageBlock>, page: nat, n: nat) {
    forall b: nat :: b < n ==> !IsUsed(bs, page + PAGE * b)
  }

  ghost predicate RunFits(bs: seq<PageBlock>, i: nat, a: nat, n: nat, alignment: nat) {
    && i < |bs| && a < bs[i].size
    && Aligned(PageAt(bs[i], a), alignment)
    && RunFree(bs, PageAt(bs[i], a), n)
  }

  /** `useConsecutivePages` takes n pages from page a of block i: the first place where they fit. */
  ghost predicate TakesRun(bs: seq<PageBlock>, i: nat, a: nat, n: nat, alignment: nat) {
    && RunFits(bs, i, a, n, alignment)
    && (forall a' :: 0 <= a' < a ==> !RunFits(bs, i, a', n, alignment))
    && forall i', a' :: 0 <= i' < i && 0 <= a' ==> !RunFits(bs, i', a', n, alignment)
  }

  /** `useConsecutivePages` turns bs into cs and answers `page`. */
  ghost predicate RunTaken(bs: seq<PageBlock>, n: nat, alignment: nat, page: nat, cs: seq<PageBlock>) {
    exists i: nat, a: nat :: TakesRun(bs, i, a, n, alignment) && page == PageAt(bs[i], a) && cs == SetRun(bs, page, n, true)
  }

  // ----- chunks

  function ChunkEnd(b: PageBlock): nat {
    b.unaligned + PAGE * (b.size + 3)
  }

  predicate Apart(b: PageBlock, c: PageBlock) {
    ChunkEnd(b) <= c.unaligned || ChunkEnd(c) <= b.unaligned
  }

  /** Blocks sit in disjoint chunks of memory, each with room for three pages more than it counts. */
  ghost predicate Layout(bs: seq<PageBlock>) {
    && (forall i :: 0 <= i < |bs| ==>
          0 < bs[i].unaligned && bs[i].start == AlignUp(bs[i].unaligned) && ChunkEnd(bs[i]) <= MEMORY_END)
    && forall i, j :: 0 <= i < j < |bs| ==> Apart(bs[i], bs[j])
  }

  /** Page k of a block lies in its chunk, up to two pages behind the last. */
  lemma InChunk(b: PageBlock, k: nat)
    requires b.start == AlignUp(b.unaligned) && k <= b.size + 1
    ensures b.unaligned <= PageAt(b, k) && PageAt(b, k) + PAGE <= ChunkEnd(b)
  {
  }

  lemma OneBlockCovers(bs: seq<PageBlock>, i: nat, k: nat, j: nat)
    requires Layout(bs) && i < |bs| && j < |bs| && k <= bs[i].size + 1
    ensures Covers(bs[j], PageAt(bs[i], k)) <==> i == j && k <= bs[i].size
  {
    InChunk(bs[i], k);
    if i < j {
      assert Apart(bs[i], bs[j]);
    } else if j < i {
      assert Apart(bs[j], bs[i]);
    }
  }

  lemma {:induction false} IsUsedSkips(bs: seq<PageBlock>, page: nat, i: nat)
    requires i <= |bs| && forall j :: 0 <= j < i ==> !Covers(bs[j], page)
    ensures IsUsed(bs, page) == IsUsed(bs[i..], page)
  {
    if i > 0 {
      IsUsedSkips(bs[1..], page, i - 1);
      assert bs[1..][i - 1..] == bs[i..];
    }
  }

  lemma IsUsedAt(bs: seq<PageBlock>, i: nat, k: nat)
    requires Layout(bs) && i < |bs| && k <= bs[i].size + 1
    ensures IsUsed(bs, PageAt(bs[i], k)) == if k <= bs[i].size then Get(bs[i].used, k) else true
  {
    var page := PageAt(bs[i], k);
    forall j | 0 <= j < |bs|
      ensures Covers(bs[j], page) <==> i == j && k <= bs[i].size
    {
      OneBlockCovers(bs, i, k, j);
    }
    if k <= bs[i].size {
      IsUsedSkips(bs, page, i);
      assert Index(bs[i], page) == k;
    } else {
      IsUsedSkips(bs, page, |bs|);
    }
  }

  /** The page taken was free, every page before it in its block was used, and the blocks before that counted full. */
  lemma TakesLowest(bs: seq<PageBlock>, i: nat, k: nat)
    requires Layout(bs) && TakesPage(bs, i, k)
    ensures !IsUsed(bs, PageAt(bs[i], k))
    ensures forall j :: 0 <= j < k ==> IsUsed(bs, PageAt(bs[i], j))
    ensures forall h :: 0 <= h < i ==> Count(bs[h].used) >= bs[h].size
  {
    IsUsedAt(bs, i, k);
    forall j | 0 <= j < k ensures IsUsed(bs, PageAt(bs[i], j)) {
      IsUsedAt(bs, i, j);
    }
  }

  /** The run taken fits, at an aligned page, and every other place where one fits comes later. */
  lemma TakesFirstFit(bs: seq<PageBlock>, i: nat, a: nat, n: nat, alignment: nat, j: nat, b: nat)
    requires TakesRun(bs, i, a, n, alignment) && RunFits(bs, j, b, n, alignment)
    ensures alignment > 0 ==> PageAt(bs[i], a) % alignment == 0
    ensures forall m :: 0 <= m < n ==> !IsUsed(bs, PageAt(bs[i], a) + 4096 * m)
    ensures i < j || (i == j && a <= b)
  {
  }

  lemma SetUsedAt(bs: seq<PageBlock>, i: nat, k: nat, used: bool)
    requires Layout(bs) && i < |bs| && k <= bs[i].size
    ensures SetUsed(bs, PageAt(bs[i], k), used) == PutUsed(bs, i, k, used)
    ensures Layout(PutUsed(bs, i, k, used))
  {
    var page := PageAt(bs[i], k);
    assert Index(bs[i], page) == k;
    forall j | 0 <= j < |bs|
      ensures SetIn(bs[j], page, used) == PutUsed(bs, i, k, used)[j]
    {
      OneBlockCovers(bs, i, k, j);
    }
    LayoutKept(bs, PutUsed(bs, i, k, used));
  }

  lemma LayoutKept(bs: seq<PageBlock>, cs: seq<PageBlock>)
    requires Layout(bs) && |bs| == |cs|
    requires forall i :: 0 <= i < |bs| ==>
               cs[i].unaligned == bs[i].unaligned && cs[i].start == bs[i].start && cs[i].size == bs[i].size
    ensures Layout(cs)
  {
    forall i, j | 0 <= i < j < |cs|
      ensures Apart(cs[i], cs[j])
    {
      assert Apart(bs[i], bs[j]);
    }
  }

  /** A free run never leaves the chunk it starts in: it may include the page behind the block, but the next one is
      known to nobody and counts as used. */
  lemma {:induction false} FreeRunStaysInside(bs: seq<PageBlock>, i: nat, a: nat, n: nat)
    requires Layout(bs) && i < |bs| && a < bs[i].size && RunFree(bs, PageAt(bs[i], a), n)
    ensures a + n <= bs[i].size + 1
    decreases n
  {
    if n > 0 {
      FreeRunStaysInside(bs, i, a, n - 1);
      var k := a + (n - 1);
      assert !IsUsed(bs, PageAt(bs[i], a) + PAGE * (n - 1));
      assert PageAt(bs[i], a) + PAGE * (n - 1) == PageAt(bs[i], k);
      IsUsedAt(bs, i, k);
    }
  }

  /** What a run of settings comes to inside one block. */
  function RunIn(bs: seq<PageBlock>, i: nat, a: nat, n: nat, used: bool): seq<PageBlock>
    requires i < |bs| && a + n <= bs[i].size + 1
  {
    bs[i := bs[i].(used := PutRange(bs[i].used, a, n, used))]
  }

  lemma {:induction false} SetRunAt(bs: seq<PageBlock>, i: nat, a: nat, n: nat, used: bool)
    requires Layout(bs) && i < |bs| && a + n <= bs[i].size + 1
    ensures SetRun(bs, PageAt(bs[i], a), n, used) == RunIn(bs, i, a, n, used)
    decreases n
  {
    if n > 0 {
      SetRunAt(bs, i, a, n - 1, used);
      var q := RunIn(bs, i, a, n - 1, used);
      var k := a + (n - 1);
      var page := PageAt(bs[i], a);
      calc {
        SetRun(bs, page, n, used);
        SetUsed(q, page + PAGE * (n - 1), used);
        { assert page + PAGE * (n - 1) == PageAt(q[i], k); }
        SetUsed(q, PageAt(q[i], k), used);
        { LayoutKept(bs, q); SetUsedAt(q, i, k, used); }
        PutUsed(q, i, k, used);
      }
      PutUsedOnTop(bs, i, PutRange(bs[i].used, a, n - 1, used), k, used);
    }
  }

  lemma PutUsedOnTop(bs: seq<PageBlock>, i: nat, u: Bits, k: nat, used: bool)
    requires i < |bs| && k <= bs[i].size
    ensures PutUsed(bs[i := bs[i].(used := u)], i, k, used) == bs[i := bs[i].(used := Put(u, k, used))]
  {
  }
}
