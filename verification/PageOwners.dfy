/** Who holds which page, over every run of the page allocator. */
module PageOwners {
  import opened PageBits
  import opened PageBlocks

  /** A page belongs to at most one owner: an allocation that has not been given back. */
  type Owners = map<nat, nat>

  ghost predicate Known(bs: seq<PageBlock>, page: nat) {
    exists i: nat, k: nat :: IsPage(bs, page, i, k)
  }

  ghost predicate IsPage(bs: seq<PageBlock>, page: nat, i: nat, k: nat) {
    i < |bs| && k <= bs[i].size && page == PageAt(bs[i], k)
  }

  /** A bit is set exactly when its page is held. */
  ghost predicate BitsMatch(bs: seq<PageBlock>, held: Owners) {
    forall i, k :: 0 <= i < |bs| && 0 <= k < 128 ==>
      (bs[i].used[k] <==> k <= bs[i].size && PageAt(bs[i], k) in held)
  }

  /** The page behind a block of 128 has no bit; it is only ever held together with the page before it. */
  ghost predicate LastGoesAlong(b: PageBlock, held: Owners) {
    b.size == 128 && PageAt(b, 128) in held ==>
      PageAt(b, 127) in held && held[PageAt(b, 127)] == held[PageAt(b, 128)]
  }

  ghost predicate Inv(bs: seq<PageBlock>, held: Owners) {
    && Layout(bs)
    && BitsMatch(bs, held)
    && (forall p :: p in held ==> Known(bs, p))
    && forall i :: 0 <= i < |bs| ==> LastGoesAlong(bs[i], held)
  }

  predicate At(p: nat, page: nat, b: nat) {
    p == page + PAGE * b
  }

  ghost predicate InRun(p: nat, page: nat, n: nat) {
    exists b: nat :: b < n && At(p, page, b)
  }

  ghost function RunOf(page: nat, n: nat, owner: nat): Owners {
    map p: nat | page <= p < page + PAGE * n && InRun(p, page, n) :: owner
  }

  /** `owner` holds the run of n pages at `page`, and perhaps more. */
  ghost predicate Owns(held: Owners, owner: nat, page: nat, n: nat) {
    forall p: nat :: InRun(p, page, n) ==> p in held && held[p] == owner
  }

  ghost function GivenBack(held: Owners, page: nat, n: nat): Owners {
    map p | p in held && !InRun(p, page, n) :: held[p]
  }

  /** The run has the last page with a bit of a block of 128, but not the page behind it, which is held. */
  ghost predicate Splits(bs: seq<PageBlock>, held: Owners, page: nat, n: nat) {
    exists i :: 0 <= i < |bs| && SplitsAt(bs[i], held, page, n)
  }

  ghost predicate SplitsAt(b: PageBlock, held: Owners, page: nat, n: nat) {
    && b.size == 128 && PageAt(b, 128) in held
    && InRun(PageAt(b, 127), page, n) && !InRun(PageAt(b, 128), page, n)
  }

  /** A free gives back pages of one owner: all it holds, or some, down to a single page. */
  datatype Event =
    | Grow(chunk: nat, size: nat)
    | TakePage(owner: nat)
    | TakeRun(n: nat, alignment: nat, owner: nat)
    | FreeRun(owner: nat, page: nat, n: nat)

  datatype State = State(bs: seq<PageBlock>, held: Owners)

  ghost predicate NewOwner(held: Owners, owner: nat) {
    forall p :: p in held ==> held[p] != owner
  }

  /** A chunk from `ti_malloc`: memory nobody has yet. */
  ghost predicate FreshChunk(bs: seq<PageBlock>, chunk: nat, size: nat) {
    && 0 < chunk && chunk + PAGE * (size + 3) <= MEMORY_END
    && forall i :: 0 <= i < |bs| ==> chunk + PAGE * (size + 3) <= bs[i].unaligned || ChunkEnd(bs[i]) <= chunk
  }

  ghost predicate Step(s: State, e: Event, t: State) {
    match e
    case Grow(chunk, size) =>
      && size <= 128 && FreshChunk(s.bs, chunk, size)
      && t == (if |s.bs| < MAX_BLOCKS then State(s.bs + [NewBlock(chunk, size)], s.held) else s)
    case TakePage(owner) =>
      && NewOwner(s.held, owner)
      && if FirstRoom(s.bs) == |s.bs| then t == s else exists i, k :: TookPage(s, owner, i, k, t)
    case TakeRun(n, alignment, owner) =>
      && NewOwner(s.held, owner)
      && ((t == s && forall i, a :: !RunFits(s.bs, i, a, n, alignment))
          || exists i, a :: TookRun(s, n, alignment, owner, i, a, t))
    case FreeRun(owner, page, n) =>
      && Owns(s.held, owner, page, n) && !Splits(s.bs, s.held, page, n)
      && t == State(SetRun(s.bs, page, n, false), GivenBack(s.held, page, n))
  }

  ghost predicate TookPage(s: State, owner: nat, i: nat, k: nat, t: State) {
    && TakesPage(s.bs, i, k)
    && t == State(PutUsed(s.bs, i, k, true), s.held[PageAt(s.bs[i], k) := owner])
  }

  ghost predicate TookRun(s: State, n: nat, alignment: nat, owner: nat, i: nat, a: nat, t: State) {
    && TakesRun(s.bs, i, a, n, alignment)
    && var page := PageAt(s.bs[i], a);
       t == State(SetRun(s.bs, page, n, true), s.held + RunOf(page, n, owner))
  }

  /** Pages have one address. */
  lemma OnePlace(bs: seq<PageBlock>, i: nat, k: nat, j: nat, l: nat)
    requires Layout(bs) && i < |bs| && j < |bs| && k <= bs[i].size + 1 && l <= bs[j].size
    requires PageAt(bs[i], k) == PageAt(bs[j], l)
    ensures i == j && k == l
  {
    OneBlockCovers(bs, i, k, j);
  }

  /** The page two behind a block is nobody's. */
  lemma BehindIsUnknown(bs: seq<PageBlock>, i: nat)
    requires Layout(bs) && i < |bs|
    ensures !Known(bs, PageAt(bs[i], bs[i].size + 1))
  {
    var page := PageAt(bs[i], bs[i].size + 1);
    if j: nat, l: nat :| IsPage(bs, page, j, l) {
      OnePlace(bs, i, bs[i].size + 1, j, l);
    }
  }

  lemma RunMember(bs: seq<PageBlock>, i: nat, a: nat, n: nat, j: nat, l: nat)
    requires Layout(bs) && i < |bs| && j < |bs| && a + n <= bs[i].size + 1 && l <= bs[j].size
    ensures InRun(PageAt(bs[j], l), PageAt(bs[i], a), n) <==> i == j && a <= l < a + n
  {
    var p, page := PageAt(bs[j], l), PageAt(bs[i], a);
    if b: nat :| b < n && At(p, page, b) {
      assert p == PageAt(bs[i], a + b);
      OnePlace(bs, j, l, i, a + b);
    }
    if i == j && a <= l < a + n {
      assert At(p, page, l - a);
    }
  }

  /** A free run holds only pages without an owner, and all of them lie in one chunk. */
  lemma RunIsUnowned(bs: seq<PageBlock>, held: Owners, i: nat, a: nat, n: nat, l: nat)
    requires Inv(bs, held) && i < |bs| && a < bs[i].size && RunFree(bs, PageAt(bs[i], a), n)
    requires a <= l < a + n
    ensures l <= bs[i].size
    ensures PageAt(bs[i], l) !in held
  {
    FreeRunStaysInside(bs, i, a, n);
    if l < 128 {
      FreeBitIsUnowned(bs, held, i, a, n, l);
    } else {
      FreeBitIsUnowned(bs, held, i, a, n, 127);
      assert LastGoesAlong(bs[i], held);
    }
  }

  lemma FreeBitIsUnowned(bs: seq<PageBlock>, held: Owners, i: nat, a: nat, n: nat, l: nat)
    requires Layout(bs) && BitsMatch(bs, held) && i < |bs| && RunFree(bs, PageAt(bs[i], a), n)
    requires a <= l < a + n && l < 128 && l <= bs[i].size
    ensures PageAt(bs[i], l) !in held
  {
    assert !IsUsed(bs, PageAt(bs[i], a) + PAGE * (l - a));
    assert PageAt(bs[i], a) + PAGE * (l - a) == PageAt(bs[i], l);
    IsUsedAt(bs, i, l);
  }

  // ----- every step keeps the invariant

  lemma GrowKeepsInv(bs: seq<PageBlock>, held: Owners, chunk: nat, size: nat)
    requires Inv(bs, held) && size <= 128 && FreshChunk(bs, chunk, size)
    ensures Inv(bs + [NewBlock(chunk, size)], held)
  {
    var b := NewBlock(chunk, size);
    var cs := bs + [b];
    assert Layout(cs);
    forall p | p in held
      ensures Known(cs, p) && forall k: nat :: k <= size ==> p != PageAt(b, k)
    {
      var i: nat, l: nat :| IsPage(bs, p, i, l);
      assert IsPage(cs, p, i, l);
      forall k: nat | k <= size
        ensures p != PageAt(b, k)
      {
        OneBlockCovers(cs, |bs|, k, i);
      }
    }
  }

  /** held' is held, except that the pages of the run are held exactly if `used`. */
  ghost predicate Changed(held: Owners, held': Owners, page: nat, n: nat, used: bool) {
    forall p: nat :: if InRun(p, page, n) then p in held' <==> used else
      (p in held' <==> p in held) && (p in held ==> held'[p] == held[p])
  }

  lemma BitsKept(bs: seq<PageBlock>, held: Owners, i: nat, a: nat, n: nat, used: bool, held': Owners)
    requires Layout(bs) && BitsMatch(bs, held) && i < |bs| && a + n <= bs[i].size + 1
    requires Changed(held, held', PageAt(bs[i], a), n, used)
    ensures BitsMatch(RunIn(bs, i, a, n, used), held')
  {
    var cs := RunIn(bs, i, a, n, used);
    forall j, l | 0 <= j < |cs| && 0 <= l < 128
      ensures cs[j].used[l] <==> l <= cs[j].size && PageAt(cs[j], l) in held'
    {
      assert bs[j].used[l] <==> l <= bs[j].size && PageAt(bs[j], l) in held;
      if l <= bs[j].size {
        RunMember(bs, i, a, n, j, l);
        assert PageAt(cs[j], l) == PageAt(bs[j], l);
      }
    }
  }

  lemma KnownKept(bs: seq<PageBlock>, held: Owners, i: nat, a: nat, n: nat, used: bool, held': Owners)
    requires i < |bs| && a + n <= bs[i].size + 1 && forall p :: p in held ==> Known(bs, p)
    requires Changed(held, held', PageAt(bs[i], a), n, used)
    ensures forall p :: p in held' ==> Known(RunIn(bs, i, a, n, used), p)
  {
    var cs, page := RunIn(bs, i, a, n, used), PageAt(bs[i], a);
    forall p | p in held'
      ensures Known(cs, p)
    {
      if InRun(p, page, n) {
        var b: nat :| b < n && At(p, page, b);
        assert IsPage(cs, p, i, a + b);
      } else {
        assert Known(bs, p);
        var j: nat, l: nat :| IsPage(bs, p, j, l);
        assert IsPage(cs, p, j, l);
      }
    }
  }

  lemma LastAfterTake(bs: seq<PageBlock>, held: Owners, i: nat, a: nat, n: nat, owner: nat, j: nat)
    requires Layout(bs) && i < |bs| && j < |bs| && a < bs[i].size && a + n <= bs[i].size + 1
    requires LastGoesAlong(bs[j], held)
    requires forall l :: a <= l < a + n ==> PageAt(bs[i], l) !in held
    ensures LastGoesAlong(bs[j], held + RunOf(PageAt(bs[i], a), n, owner))
  {
    if bs[j].size == 128 {
      RunMember(bs, i, a, n, j, 128);
      RunMember(bs, i, a, n, j, 127);
    }
  }

  lemma LastKept(b: PageBlock, c: PageBlock, held: Owners)
    requires LastGoesAlong(b, held) && b.start == c.start && b.size == c.size
    ensures LastGoesAlong(c, held)
  {
  }

  lemma TakeChanges(held: Owners, page: nat, n: nat, owner: nat)
    ensures Changed(held, held + RunOf(page, n, owner), page, n, true)
  {
  }

  /** Taking a run of pages in a row nobody holds. */
  lemma TakeKeepsInv(bs: seq<PageBlock>, held: Owners, i: nat, a: nat, n: nat, owner: nat)
    requires Inv(bs, held) && i < |bs| && a < bs[i].size && a + n <= bs[i].size + 1
    requires forall l :: a <= l < a + n ==> PageAt(bs[i], l) !in held
    ensures Inv(RunIn(bs, i, a, n, true), held + RunOf(PageAt(bs[i], a), n, owner))
  {
    var cs, held' := RunIn(bs, i, a, n, true), held + RunOf(PageAt(bs[i], a), n, owner);
    TakeChanges(held, PageAt(bs[i], a), n, owner);
    LayoutKept(bs, cs);
    BitsKept(bs, held, i, a, n, true, held');
    KnownKept(bs, held, i, a, n, true, held');
    forall j | 0 <= j < |cs|
      ensures LastGoesAlong(cs[j], held')
    {
      LastAfterTake(bs, held, i, a, n, owner, j);
      LastKept(bs[j], cs[j], held');
    }
  }

  lemma FreeChanges(held: Owners, page: nat, n: nat)
    ensures Changed(held, GivenBack(held, page, n), page, n, false)
  {
  }

  lemma FreeKeepsLast(bs: seq<PageBlock>, held: Owners, i: nat, a: nat, n: nat)
    requires Inv(bs, held) && i < |bs| && a + n <= bs[i].size + 1
    ensures var cs := RunIn(bs, i, a, n, false); var held' := GivenBack(held, PageAt(bs[i], a), n);
            (forall j :: 0 <= j < |cs| ==> LastGoesAlong(cs[j], held')) <==> !Splits(bs, held, PageAt(bs[i], a), n)
  {
    var cs, held' := RunIn(bs, i, a, n, false), GivenBack(held, PageAt(bs[i], a), n);
    forall j | 0 <= j < |bs|
      ensures LastGoesAlong(cs[j], held') <==> !SplitsAt(bs[j], held, PageAt(bs[i], a), n)
    {
      assert LastGoesAlong(bs[j], held);
      assert PageAt(cs[j], 127) == PageAt(bs[j], 127) && PageAt(cs[j], 128) == PageAt(bs[j], 128);
    }
  }

  /** Giving back pages keeps the invariant exactly when the page behind a block is not left behind on its own. */
  lemma FreeKeepsInvExactlyWhen(bs: seq<PageBlock>, held: Owners, page: nat, n: nat, owner: nat)
    requires Inv(bs, held) && Owns(held, owner, page, n)
    ensures Inv(SetRun(bs, page, n, false), GivenBack(held, page, n)) <==> !Splits(bs, held, page, n)
  {
    if n == 0 {
      assert GivenBack(held, page, 0) == held;
    } else {
      var i, a := OwnedRunIsPlaced(bs, held, page, n, owner);
      var cs, held' := RunIn(bs, i, a, n, false), GivenBack(held, page, n);
      SetRunAt(bs, i, a, n, false);
      FreeChanges(held, page, n);
      LayoutKept(bs, cs);
      BitsKept(bs, held, i, a, n, false, held');
      KnownKept(bs, held, i, a, n, false, held');
      FreeKeepsLast(bs, held, i, a, n);
    }
  }

  /** Blocks of fewer than 128 pages have nothing to split, and a whole allocation never splits anything. */
  lemma NothingSplits(bs: seq<PageBlock>, held: Owners, page: nat, n: nat, owner: nat)
    requires Inv(bs, held) && Owns(held, owner, page, n)
    requires (forall i :: 0 <= i < |bs| ==> bs[i].size < 128)
          || (forall p :: p in held && held[p] == owner ==> InRun(p, page, n))
    ensures !Splits(bs, held, page, n)
  {
    forall i | 0 <= i < |bs| ensures !SplitsAt(bs[i], held, page, n) {
      assert LastGoesAlong(bs[i], held);
    }
  }

  /** What happens otherwise: a run is free to take that has a page still held. */
  lemma SplitLeavesHeldPageFree(bs: seq<PageBlock>, held: Owners, i: nat)
    requires Inv(bs, held) && i < |bs| && bs[i].size == 128 && PageAt(bs[i], 128) in held
    ensures PageAt(bs[i], 128) in GivenBack(held, PageAt(bs[i], 127), 1)
    ensures RunFits(SetUsed(bs, PageAt(bs[i], 127), false), i, 127, 2, 0)
  {
    SetUsedAt(bs, i, 127, false);
    ClearLastFits(PutUsed(bs, i, 127, false), i);
  }

  lemma ClearLastFits(bs: seq<PageBlock>, i: nat)
    requires Layout(bs) && i < |bs| && bs[i].size == 128 && !bs[i].used[127]
    ensures RunFits(bs, i, 127, 2, 0)
  {
    IsUsedAt(bs, i, 127);
    IsUsedAt(bs, i, 128);
    forall b: nat | b < 2 ensures !IsUsed(bs, PageAt(bs[i], 127) + PAGE * b) {
      assert PageAt(bs[i], 127) + PAGE * b == PageAt(bs[i], 127 + b);
    }
  }

  /** What an owner holds is a run inside one block, the page behind it included. */
  lemma OwnedRunIsPlaced(bs: seq<PageBlock>, held: Owners, page: nat, n: nat, owner: nat) returns (i: nat, a: nat)
    requires Inv(bs, held) && n > 0 && Owns(held, owner, page, n)
    ensures i < |bs| && page == PageAt(bs[i], a) && a + n <= bs[i].size + 1
  {
    assert At(page, page, 0) && InRun(page, page, n);
    var i0: nat, a0: nat :| IsPage(bs, page, i0, a0);
    i, a := i0, a0;
    OwnedRunStaysInside(bs, held, i, a, n, n);
  }

  lemma {:induction false} OwnedRunStaysInside(bs: seq<PageBlock>, held: Owners, i: nat, a: nat, n: nat, m: nat)
    requires Inv(bs, held) && i < |bs| && a <= bs[i].size && m <= n
    requires forall p: nat :: InRun(p, PageAt(bs[i], a), n) ==> p in held
    ensures a + m <= bs[i].size + 1
  {
    if m > 0 {
      OwnedRunStaysInside(bs, held, i, a, n, m - 1);
      var page := PageAt(bs[i], a);
      if a + m == bs[i].size + 2 {
        var p := PageAt(bs[i], bs[i].size + 1);
        assert At(p, page, m - 1) && InRun(p, page, n);
        BehindIsUnknown(bs, i);
      }
    }
  }

  /** Every step of the allocator keeps one owner per page, and the invariant that makes the next step do so. */
  lemma StepKeepsInv(s: State, e: Event, t: State)
    requires Inv(s.bs, s.held) && Step(s, e, t)
    ensures Inv(t.bs, t.held)
  {
    match e
    case Grow(chunk, size) =>
      if |s.bs| < MAX_BLOCKS {
        GrowKeepsInv(s.bs, s.held, chunk, size);
      }
    case TakePage(owner) =>
      if i, k :| TookPage(s, owner, i, k, t) {
        TakingPage(s.bs, s.held, i, k, owner);
      }
    case TakeRun(n, alignment, owner) =>
      if i, a :| TookRun(s, n, alignment, owner, i, a, t) {
        TakingRun(s, n, alignment, owner, i, a, t);
      }
    case FreeRun(owner, page, n) =>
      FreeKeepsInvExactlyWhen(s.bs, s.held, page, n, owner);
  }

  lemma RunOfOne(page: nat, owner: nat)
    ensures RunOf(page, 1, owner) == map[page := owner]
  {
    assert At(page, page, 0);
  }

  lemma PutIsRunOfOne(bs: seq<PageBlock>, i: nat, k: nat)
    requires i < |bs| && k <= bs[i].size
    ensures RunIn(bs, i, k, 1, true) == PutUsed(bs, i, k, true)
  {
    var u := bs[i].used;
    assert PutRange(u, k, 0, true) == u;
    assert PutRange(u, k, 1, true) == Put(u, k, true);
  }

  /** A page handed out belonged to nobody, and lies inside the chunk of its block. */
  lemma PageIsUnowned(bs: seq<PageBlock>, held: Owners, i: nat, k: nat)
    requires Inv(bs, held) && TakesPage(bs, i, k)
    ensures PageAt(bs[i], k) !in held
    ensures bs[i].unaligned <= PageAt(bs[i], k) && PageAt(bs[i], k) + PAGE <= ChunkEnd(bs[i])
  {
    assert !bs[i].used[k];
    InChunk(bs[i], k);
  }

  lemma TakingPage(bs: seq<PageBlock>, held: Owners, i: nat, k: nat, owner: nat)
    requires Inv(bs, held) && TakesPage(bs, i, k)
    ensures Inv(PutUsed(bs, i, k, true), held[PageAt(bs[i], k) := owner])
  {
    PageIsUnowned(bs, held, i, k);
    forall l | k <= l < k + 1
      ensures PageAt(bs[i], l) !in held
    {
    }
    TakeKeepsInv(bs, held, i, k, 1, owner);
    PutIsRunOfOne(bs, i, k);
    RunOfOne(PageAt(bs[i], k), owner);
    assert held + map[PageAt(bs[i], k) := owner] == held[PageAt(bs[i], k) := owner];
  }

  /** None of the pages of a run belonged to anybody, and the whole run lies inside one chunk, even when it includes
      the page behind the block. */
  lemma TakingRun(s: State, n: nat, alignment: nat, owner: nat, i: nat, a: nat, t: State)
    requires Inv(s.bs, s.held) && TookRun(s, n, alignment, owner, i, a, t)
    ensures var b := s.bs[i]; var page := PageAt(b, a);
            && (forall p: nat :: InRun(p, page, n) ==> p !in s.held && p in t.held && t.held[p] == owner)
            && b.unaligned <= page && page + PAGE * n <= ChunkEnd(b)
    ensures Inv(t.bs, t.held)
  {
    var page := PageAt(s.bs[i], a);
    FreeRunStaysInside(s.bs, i, a, n);
    forall l | a <= l < a + n
      ensures PageAt(s.bs[i], l) !in s.held
    {
      RunIsUnowned(s.bs, s.held, i, a, n, l);
    }
    forall p: nat | InRun(p, page, n)
      ensures p !in s.held
    {
      var b: nat :| b < n && At(p, page, b);
      assert p == PageAt(s.bs[i], a + b);
    }
    InChunk(s.bs[i], a);
    SetRunAt(s.bs, i, a, n, true);
    TakeKeepsInv(s.bs, s.held, i, a, n, owner);
  }

  ghost predicate Run(s: State, es: seq<Event>, t: State)
    decreases es
  {
    if es == [] then s == t else exists m :: Step(s, es[0], m) && Run(m, es[1..], t)
  }

  /** Over every run pages stay with one owner, and a bit is set exactly when its page is held. */
  lemma {:induction false} RunKeepsInv(s: State, es: seq<Event>, t: State)
    requires Inv(s.bs, s.held) && Run(s, es, t)
    ensures Inv(t.bs, t.held)
    decreases es
  {
    if es != [] {
      var m :| Step(s, es[0], m) && Run(m, es[1..], t);
      StepKeepsInv(s, es[0], m);
      RunKeepsInv(m, es[1..], t);
    }
  }

  /** From an empty allocator, whatever run came before, a run of pages handed out next belongs to nobody yet. */
  lemma NoPageTwice(es: seq<Event>, s: State, n: nat, alignment: nat, owner: nat, i: nat, a: nat, t: State)
    requires Run(State([], map[]), es, s) && TookRun(s, n, alignment, owner, i, a, t)
    ensures forall p: nat :: InRun(p, PageAt(s.bs[i], a), n) ==> p !in s.held && p in t.held && t.held[p] == owner
    ensures forall p: nat :: !InRun(p, PageAt(s.bs[i], a), n) && p in s.held ==> p in t.held && t.held[p] == s.held[p]
  {
    RunKeepsInv(State([], map[]), es, s);
    TakingRun(s, n, alignment, owner, i, a, t);
  }

  /** Nor does a single page. */
  lemma NoSinglePageTwice(es: seq<Event>, s: State, owner: nat, i: nat, k: nat, t: State)
    requires Run(State([], map[]), es, s) && TookPage(s, owner, i, k, t)
    ensures PageAt(s.bs[i], k) !in s.held && t.held == s.held[PageAt(s.bs[i], k) := owner]
  {
    RunKeepsInv(State([], map[]), es, s);
    PageIsUnowned(s.bs, s.held, i, k);
  }

  /** `usePage` fails only when every block has as many ones as it has pages; while it takes a page whenever a block
      has fewer, even if the page behind that block is in use. */
  lemma PageOrFull(bs: seq<PageBlock>)
    ensures FirstRoom(bs) == |bs| <==> forall i :: 0 <= i < |bs| ==> LooksFull(bs[i])
    ensures FirstRoom(bs) < |bs| <==> exists i, k :: TakesPage(bs, i, k)
  {
    var i := FirstRoom(bs);
    if i < |bs| {
      FewOnesLeaveRoom(bs[i].used, bs[i].size);
      var k :| 0 <= k < bs[i].size && !bs[i].used[k];
      var l := LeastClear(bs[i].used, k);
      assert TakesPage(bs, i, l);
    }
  }

  lemma {:induction false} LeastClear(b: Bits, k: nat) returns (l: nat)
    requires k < 128 && !b[k]
    ensures l <= k && !b[l] && forall j :: 0 <= j < l ==> b[j]
  {
    if j: nat :| j < k && !b[j] {
      l := LeastClear(b, j);
    } else {
      l := k;
    }
  }

  // ----- chunks

  /** What the operating system gave during a run, in order. */
  function Given(es: seq<Event>): seq<nat> {
    if es == [] then [] else (if es[0].Grow? then [es[0].chunk] else []) + Given(es[1..])
  }

  /** Blocks of the same places, whatever is used in them. */
  ghost predicate SamePlaces(bs: seq<PageBlock>, cs: seq<PageBlock>) {
    |bs| == |cs| && forall i :: 0 <= i < |bs| ==> cs[i].unaligned == bs[i].unaligned
  }

  lemma {:induction false} SetRunKeepsPlaces(bs: seq<PageBlock>, page: nat, n: nat, used: bool)
    ensures SamePlaces(bs, SetRun(bs, page, n, used))
  {
    if n > 0 {
      SetRunKeepsPlaces(bs, page, n - 1, used);
    }
  }

  lemma StepKeepsPlaces(s: State, e: Event, t: State)
    requires Step(s, e, t)
    ensures if e.Grow? && |s.bs| < MAX_BLOCKS
            then |t.bs| == |s.bs| + 1 && t.bs[..|s.bs|] == s.bs && t.bs[|s.bs|].unaligned == e.chunk
            else SamePlaces(s.bs, t.bs)
  {
    match e
    case TakeRun(n, alignment, owner) =>
      if i: nat, a: nat :| TookRun(s, n, alignment, owner, i, a, t) {
        SetRunKeepsPlaces(s.bs, PageAt(s.bs[i], a), n, true);
      }
    case FreeRun(owner, page, n) => SetRunKeepsPlaces(s.bs, page, n, false);
    case _ =>
  }

  /**
   * Over every run the table has a block for each chunk given, in order and by the address it came with, up to the most
   * it can hold; the chunks behind those went back at once.
   */
  lemma {:induction false} ChunksAreKept(s: State, es: seq<Event>, t: State)
    requires Run(s, es, t) && |s.bs| <= 196
    ensures |t.bs| == if |s.bs| + |Given(es)| < 196 then |s.bs| + |Given(es)| else 196
    ensures forall i :: 0 <= i < |s.bs| ==> t.bs[i].unaligned == s.bs[i].unaligned
    ensures forall i :: |s.bs| <= i < |t.bs| ==> t.bs[i].unaligned == Given(es)[i - |s.bs|]
    decreases es
  {
    if es != [] {
      var m :| Step(s, es[0], m) && Run(m, es[1..], t);
      StepKeepsPlaces(s, es[0], m);
      ChunksAreKept(m, es[1..], t);
    }
  }
}
