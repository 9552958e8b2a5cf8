/**
 * Over whole runs the two-level page tables refine a plain map, one for each space: from pages to pages, with whole
 * sections copied from tables below.
 */
module PlainMap {
  import opened Descriptors
  import opened PageTables
  import opened PageTableMaps
  import opened PageTableSteps
  import opened PageTableRuns

  /** The words a section was copied from, and how many of them count. */
  datatype Source = Source(words: Table, pages: Word)

  /** What was mapped, page by page, and what was copied, section by section, before. */
  datatype Pages = Pages(pages: map<Key, Word>, copied: map<Key, Source>)

  /** The kernel's map, and those of each space with the newest first. */
  datatype Plain = Plain(kernel: Pages, users: seq<Pages>)

  function PageOf(a: Word): Key {
    K(PageStart(a))
  }

  function PutPage(m: Pages, va: Word, page: Word): Pages {
    m.(pages := m.pages[PageOf(va) := page])
  }

  /** A copied section replaces all that was mapped in it. */
  function PutSection(m: Pages, adr: Word, source: Source): Pages {
    Pages(map k | k in m.pages && SectionOf(k.word) != SectionOf(adr) :: m.pages[k],
          m.copied[K(SectionOf(adr)) := source])
  }

  function PlainStep(p: Plain, e: Event): Plain {
    match e
    case MakeSpace => Plain(p.kernel, [p.kernel] + p.users)
    case KernelMap(page, va, _, _) =>
      Plain(PutPage(p.kernel, va, page),
            seq(|p.users|, u requires 0 <= u < |p.users| => PutPage(p.users[u], va, page)))
    case UserMap(u, page, va, _) =>
      if u < |p.users| then p.(users := p.users[u := PutPage(p.users[u], va, page)]) else p
    case Copy(adr, words, pages, _) =>
      Plain(PutSection(p.kernel, adr, Source(words, pages)),
            seq(|p.users|, u requires 0 <= u < |p.users| => PutSection(p.users[u], adr, Source(words, pages))))
  }

  function PlainRun(p: Plain, es: seq<Event>): Plain
    decreases |es|
  {
    if es == [] then p else PlainRun(PlainStep(p, es[0]), es[1..])
  }

  /** An address in a plain map, with what lies below the map. */
  function Shown(m: Pages, a: Word, below: Physical): Physical {
    match Find(m.pages, PageOf(a))
    case NULL => Under(m, a, below)
    case At(page) => OnPage(page, a)
  }

  /** An address off every page mapped: in a copied section, the word of its page there. */
  function Under(m: Pages, a: Word, below: Physical): Physical {
    if K(SectionOf(a)) in m.copied then Copied(m.copied[K(SectionOf(a))], a) else below
  }

  function Copied(source: Source, a: Word): Physical {
    if ReadIndex(a) < source.pages then ReadPage(Entry(source.words, ReadIndex(a)), a) else NULL
  }

  /** The map says something of the section of an address. */
  predicate Covers(m: Pages, a: Word) {
    PageOf(a) in m.pages || K(SectionOf(a)) in m.copied
  }

  function Find(m: map<Key, Word>, k: Key): Physical {
    if k in m then At(m[k]) else NULL
  }

  /** Below the kernel's map: what it started with, except in sections it has listed since. */
  function BelowKernel(start: Vm, vm: Vm, a: Word): Physical {
    if SectionOf(a) in vm.kernel.cptds && SectionOf(a) !in start.kernel.cptds then NULL else Seen(start, Kernel, a)
  }

  /** Below a space's map: the sections the kernel started with. */
  function BelowUser(start: Vm, a: Word): Physical {
    if SectionOf(a) in start.kernel.cptds then Seen(start, Kernel, a) else NULL
  }

  ghost predicate Lies(start: Vm, p: Plain, vm: Vm) {
    && |p.users| == |vm.users|
    && (forall s :: s in start.kernel.cptds ==> s in vm.kernel.cptds)
    && (forall a :: Covers(p.kernel, a) ==> SectionOf(a) in vm.kernel.cptds)
  }

  ghost predicate KernelRefines(start: Vm, p: Plain, vm: Vm) {
    forall a :: Seen(vm, Kernel, a) == Shown(p.kernel, a, BelowKernel(start, vm, a))
  }

  ghost predicate UserRefines(start: Vm, m: Pages, vm: Vm, u: nat)
    requires u < |vm.users|
  {
    forall a :: !IsFixed(a) ==> Seen(vm, User(u), a) == Shown(m, a, BelowUser(start, a))
  }

  /** The plain map tells what every address is in every space. */
  ghost predicate Refines(start: Vm, p: Plain, vm: Vm) {
    && Lies(start, p, vm)
    && KernelRefines(start, p, vm)
    && (forall u :: 0 <= u < |vm.users| ==> UserRefines(start, p.users[u], vm, u))
  }

  // ----- a new space

  lemma CreateRefines(start: Vm, p: Plain, vm: Vm)
    requires Inv(vm) && Refines(start, p, vm)
    ensures Refines(start, PlainStep(p, MakeSpace), CreateSpace(vm))
  {
    var vm' := CreateSpace(vm);
    var p' := PlainStep(p, MakeSpace);
    CreateKeepsInv(vm);
    forall a ensures Seen(vm', Kernel, a) == Shown(p'.kernel, a, BelowKernel(start, vm', a)) {
      assert Seen(vm, Kernel, a) == Shown(p.kernel, a, BelowKernel(start, vm, a));
    }
    forall u | 0 <= u < |vm'.users| ensures UserRefines(start, p'.users[u], vm', u) {
      if u == 0 { NewestRefines(start, p, vm, vm'); } else { OlderRefines(start, p, vm, vm', u); }
    }
  }

  lemma OlderRefines(start: Vm, p: Plain, vm: Vm, vm': Vm, u: nat)
    requires Refines(start, p, vm) && vm' == CreateSpace(vm) && 0 < u < |vm'.users|
    ensures UserRefines(start, p.users[u - 1], vm', u)
  {
    assert UserRefines(start, p.users[u - 1], vm, u - 1);
    forall a ensures !IsFixed(a) ==> Seen(vm', User(u), a) == Shown(p.users[u - 1], a, BelowUser(start, a)) {
      assert Seen(vm', User(u), a) == Seen(vm, User(u - 1), a);
    }
  }

  lemma NewestRefines(start: Vm, p: Plain, vm: Vm, vm': Vm)
    requires Refines(start, p, vm) && vm' == CreateSpace(vm) && Inv(vm')
    ensures UserRefines(start, p.kernel, vm', 0)
  {
    forall a ensures !IsFixed(a) ==> Seen(vm', User(0), a) == Shown(p.kernel, a, BelowUser(start, a)) {
      if !IsFixed(a) { NewestShows(start, p, vm, vm', a); }
    }
  }

  lemma NewestShows(start: Vm, p: Plain, vm: Vm, vm': Vm, a: Word)
    requires Refines(start, p, vm) && vm' == CreateSpace(vm) && Inv(vm') && !IsFixed(a)
    ensures Seen(vm', User(0), a) == Shown(p.kernel, a, BelowUser(start, a))
  {
    if SectionOf(a) in vm.kernel.cptds {
      KernelIsShared(vm', 0, a);
      assert Seen(vm, Kernel, a) == Shown(p.kernel, a, BelowKernel(start, vm, a));
    } else {
      NothingElseIsMapped(vm', 0, a);
    }
  }

  // ----- a mapping, address by address

  /** A map with one more page, at an address. */
  lemma ShownAfter(m: Pages, va: Word, page: Word, a: Word, below: Physical)
    ensures Shown(PutPage(m, va, page), a, below)
         == if SamePage(a, va) then OnPage(page, a) else Shown(m, a, below)
  {
    SameKey(a, va);
    FindPut(m.pages, PageOf(va), page, PageOf(a));
    ShownIs(PutPage(m, va, page), a, below);
    ShownIs(m, a, below);
  }

  lemma ShownIs(m: Pages, a: Word, below: Physical)
    ensures Shown(m, a, below) == match Find(m.pages, PageOf(a)) case NULL => Under(m, a, below) case At(p) => OnPage(p, a)
  {
  }

  /** Every address of a page mapped is as far behind the frame as it is behind the start of the page. */
  lemma PageIsShown(m: Pages, a: Word, below: Physical, page: Word, off: Word)
    requires Find(m.pages, PageOf(a)) == At(page) && off == a - PageStart(a)
    ensures Shown(m, a, below) == At(page + off)
  {
    PageIsFirst(m, a, below, page);
    OffsetOnPage(page, a, off);
  }

  lemma PageIsFirst(m: Pages, a: Word, below: Physical, page: Word)
    requires Find(m.pages, PageOf(a)) == At(page)
    ensures Shown(m, a, below) == OnPage(page, a)
  {
  }

  /** A copied section shows the words it was copied from, and no other section changes. */
  lemma ShownAfterCopy(m: Pages, adr: Word, source: Source, a: Word, below: Physical)
    ensures Shown(PutSection(m, adr, source), a, below)
         == if SectionOf(a) == SectionOf(adr) then Copied(source, a) else Shown(m, a, below)
  {
    SectionOfPage(a);
    FindAfterCopy(m, adr, source, PageOf(a));
    KeyOf(SectionOf(a), SectionOf(adr));
    UnderAfterCopy(m, adr, source, a, below);
    ShownIs(PutSection(m, adr, source), a, below);
    ShownIs(m, a, below);
  }

  lemma SectionOfPage(a: Word)
    ensures SectionOf(PageStart(a)) == SectionOf(a)
  {
  }

  lemma FindAfterCopy(m: Pages, adr: Word, source: Source, k: Key)
    ensures Find(PutSection(m, adr, source).pages, k)
         == if SectionOf(k.word) == SectionOf(adr) then NULL else Find(m.pages, k)
  {
  }

  lemma UnderAfterCopy(m: Pages, adr: Word, source: Source, a: Word, below: Physical)
    ensures Under(PutSection(m, adr, source), a, below)
         == if K(SectionOf(a)) == K(SectionOf(adr)) then Copied(source, a) else Under(m, a, below)
  {
  }

  lemma SameKey(a: Word, b: Word)
    ensures PageOf(a) == PageOf(b) <==> SamePage(a, b)
  {
    KeyOf(PageStart(a), PageStart(b));
  }

  lemma KeyOf(x: Word, y: Word)
    ensures K(x) == K(y) <==> x == y
  {
  }

  lemma FindPut(m: map<Key, Word>, k: Key, page: Word, j: Key)
    ensures Find(m[k := page], j) == if j == k then At(page) else Find(m, j)
  {
  }

  lemma KernelAfterKernelMap(
    start: Vm, p: Plain, vm: Vm, page: Word, va: Word, cached: bool, blank: Word, vm': Vm, a: Word)
    requires Inv(vm) && Refines(start, p, vm) && Legal(vm, KernelMap(page, va, cached, blank))
    requires MapKernel(vm, page, va, cached, blank) == Done(vm')
    ensures Seen(vm', Kernel, a) == Shown(PutPage(p.kernel, va, page), a, BelowKernel(start, vm', a))
  {
    KernelMapTranslates(vm, page, va, cached, blank, vm', Kernel, a);
    ShownAfter(p.kernel, va, page, a, BelowKernel(start, vm', a));
    KernelSections(vm, va, KernelPage(cached, page), blank, vm');
    KernelShowsAfter(start, p, vm, va, vm', a);
  }

  lemma KernelShowsAfter(start: Vm, p: Plain, vm: Vm, va: Word, vm': Vm, a: Word)
    requires Refines(start, p, vm)
    requires forall s :: s in vm'.kernel.cptds <==> s in vm.kernel.cptds || s == SectionOf(va)
    ensures Shown(p.kernel, a, BelowKernel(start, vm', a))
         == if SectionOf(va) !in vm.kernel.cptds && SectionOf(a) == SectionOf(va) then NULL else Seen(vm, Kernel, a)
  {
    if SectionOf(va) !in vm.kernel.cptds && SectionOf(a) == SectionOf(va) {
      assert !Covers(p.kernel, a);
    } else {
      BelowStays(start, vm, va, vm', a);
      assert Seen(vm, Kernel, a) == Shown(p.kernel, a, BelowKernel(start, vm, a));
    }
  }

  lemma BelowStays(start: Vm, vm: Vm, va: Word, vm': Vm, a: Word)
    requires forall s :: s in vm'.kernel.cptds <==> s in vm.kernel.cptds || s == SectionOf(va)
    requires SectionOf(va) in vm.kernel.cptds || SectionOf(a) != SectionOf(va)
    ensures BelowKernel(start, vm', a) == BelowKernel(start, vm, a)
  {
    assert SectionOf(a) in vm'.kernel.cptds <==> SectionOf(a) in vm.kernel.cptds;
  }

  lemma KernelSections(vm: Vm, va: Word, d: Word, blank: Word, vm': Vm)
    requires PutKernel(vm, va, d, blank) == Done(vm')
    ensures forall s :: s in vm'.kernel.cptds <==> s in vm.kernel.cptds || s == SectionOf(va)
    ensures |vm'.users| == |vm.users|
  {
  }

  /** A page placed over a map is one more page of the map, when a section just taken had nothing. */
  lemma PlacedShown(m: Pages, a: Word, va: Word, page: Word, taken: bool, below: Physical)
    requires taken && SectionOf(a) == SectionOf(va) ==> Shown(m, a, below) == NULL
    ensures Placed(Shown(m, a, below), a, va, page, taken) == Shown(PutPage(m, va, page), a, below)
  {
    ShownAfter(m, va, page, a, below);
  }

  lemma UserAfterKernelMap(
    start: Vm, p: Plain, vm: Vm, page: Word, va: Word, cached: bool, blank: Word, vm': Vm, u: nat, a: Word)
    requires Inv(vm) && Refines(start, p, vm) && Legal(vm, KernelMap(page, va, cached, blank))
    requires MapKernel(vm, page, va, cached, blank) == Done(vm') && u < |vm.users| && !IsFixed(a)
    ensures Exists(vm', User(u))
    ensures Seen(vm', User(u), a) == Shown(PutPage(p.users[u], va, page), a, BelowUser(start, a))
  {
    KernelMapTranslates(vm, page, va, cached, blank, vm', User(u), a);
    UserShows(start, p, vm, u, a);
    if SectionOf(va) !in vm.kernel.cptds && SectionOf(a) == SectionOf(va) {
      NothingElseIsMapped(vm, u, a);
    }
    PlacedShown(p.users[u], a, va, page, SectionOf(va) !in vm.kernel.cptds, BelowUser(start, a));
  }

  lemma UserShows(start: Vm, p: Plain, vm: Vm, u: nat, a: Word)
    requires Refines(start, p, vm) && u < |vm.users| && !IsFixed(a)
    ensures Seen(vm, User(u), a) == Shown(p.users[u], a, BelowUser(start, a))
  {
    assert UserRefines(start, p.users[u], vm, u);
  }

  lemma UserAfterUserMap(start: Vm, p: Plain, vm: Vm, u: nat, page: Word, va: Word, blank: Word, vm': Vm, a: Word)
    requires Inv(vm) && Refines(start, p, vm) && Legal(vm, UserMap(u, page, va, blank))
    requires MapUser(vm, u, page, va, blank) == Done(vm') && !IsFixed(a)
    ensures Exists(vm', User(u))
    ensures Seen(vm', User(u), a) == Shown(PutPage(p.users[u], va, page), a, BelowUser(start, a))
  {
    UserMapTranslates(vm, u, page, va, blank, vm', User(u), a);
    UserShows(start, p, vm, u, a);
    if SectionOf(va) !in vm.users[u].cptds && SectionOf(a) == SectionOf(va) {
      NothingElseIsMapped(vm, u, a);
    }
    PlacedShown(p.users[u], a, va, page, SectionOf(va) !in vm.users[u].cptds, BelowUser(start, a));
  }

  lemma OtherAfterUserMap(
    start: Vm, p: Plain, vm: Vm, u: nat, page: Word, va: Word, blank: Word, vm': Vm, v: nat, a: Word)
    requires Inv(vm) && Refines(start, p, vm) && Legal(vm, UserMap(u, page, va, blank))
    requires MapUser(vm, u, page, va, blank) == Done(vm') && v < |vm.users| && v != u && !IsFixed(a)
    ensures Exists(vm', User(v))
    ensures Seen(vm', User(v), a) == Shown(p.users[v], a, BelowUser(start, a))
  {
    UserMapTranslates(vm, u, page, va, blank, vm', User(v), a);
    UserShows(start, p, vm, v, a);
  }

  // ----- a mapping, as a whole

  lemma KernelMapRefines(start: Vm, p: Plain, vm: Vm, page: Word, va: Word, cached: bool, blank: Word, vm': Vm)
    requires Inv(vm) && Refines(start, p, vm) && Legal(vm, KernelMap(page, va, cached, blank))
    requires MapKernel(vm, page, va, cached, blank) == Done(vm')
    ensures Refines(start, PlainStep(p, KernelMap(page, va, cached, blank)), vm')
  {
    var p' := PlainStep(p, KernelMap(page, va, cached, blank));
    KernelSections(vm, va, KernelPage(cached, page), blank, vm');
    LiesAfter(start, p, vm, va, page, vm');
    forall a ensures Seen(vm', Kernel, a) == Shown(p'.kernel, a, BelowKernel(start, vm', a)) {
      KernelAfterKernelMap(start, p, vm, page, va, cached, blank, vm', a);
    }
    forall u | 0 <= u < |vm'.users| ensures UserRefines(start, p'.users[u], vm', u) {
      forall a ensures !IsFixed(a) ==> Seen(vm', User(u), a) == Shown(p'.users[u], a, BelowUser(start, a)) {
        if !IsFixed(a) { UserAfterKernelMap(start, p, vm, page, va, cached, blank, vm', u, a); }
      }
    }
  }

  lemma LiesAfter(start: Vm, p: Plain, vm: Vm, va: Word, page: Word, vm': Vm)
    requires Lies(start, p, vm) && |vm'.users| == |vm.users|
    requires forall s :: s in vm'.kernel.cptds <==> s in vm.kernel.cptds || s == SectionOf(va)
    ensures Lies(start, Plain(PutPage(p.kernel, va, page), p.users), vm')
  {
    forall a | Covers(PutPage(p.kernel, va, page), a) ensures SectionOf(a) in vm'.kernel.cptds {
      if PageOf(a) == PageOf(va) { SameWord(a, va); } else { assert Covers(p.kernel, a); }
    }
  }

  lemma UserMapRefines(start: Vm, p: Plain, vm: Vm, u: nat, page: Word, va: Word, blank: Word, vm': Vm)
    requires Inv(vm) && Refines(start, p, vm) && Legal(vm, UserMap(u, page, va, blank))
    requires MapUser(vm, u, page, va, blank) == Done(vm')
    ensures Refines(start, PlainStep(p, UserMap(u, page, va, blank)), vm')
  {
    var p' := PlainStep(p, UserMap(u, page, va, blank));
    UserLeavesKernel(vm, u, va, UserPage(page), blank, vm');
    assert Lies(start, p', vm');
    forall a ensures Seen(vm', Kernel, a) == Shown(p'.kernel, a, BelowKernel(start, vm', a)) {
      UserMapTranslates(vm, u, page, va, blank, vm', Kernel, a);
      assert Seen(vm, Kernel, a) == Shown(p.kernel, a, BelowKernel(start, vm, a));
    }
    forall v | 0 <= v < |vm'.users| ensures UserRefines(start, p'.users[v], vm', v) {
      forall a ensures !IsFixed(a) ==> Seen(vm', User(v), a) == Shown(p'.users[v], a, BelowUser(start, a)) {
        if !IsFixed(a) {
          if v == u {
            UserAfterUserMap(start, p, vm, u, page, va, blank, vm', a);
          } else {
            OtherAfterUserMap(start, p, vm, u, page, va, blank, vm', v, a);
          }
        }
      }
    }
  }

  lemma UserLeavesKernel(vm: Vm, u: nat, va: Word, d: Word, blank: Word, vm': Vm)
    requires u < |vm.users| && PutUser(vm, u, va, d, blank) == Done(vm')
    ensures vm'.kernel == vm.kernel && |vm'.users| == |vm.users|
  {
  }

  // ----- a copied section

  lemma CopyRefines(start: Vm, p: Plain, vm: Vm, adr: Word, words: Table, pages: Word, blank: Word, vm': Vm)
    requires Inv(vm) && Refines(start, p, vm) && Legal(vm, Copy(adr, words, pages, blank))
    requires Migrate(vm, adr, words, pages, blank) == Done(vm')
    ensures Refines(start, PlainStep(p, Copy(adr, words, pages, blank)), vm')
  {
    var p' := PlainStep(p, Copy(adr, words, pages, blank));
    CopySections(vm, adr, words, pages, blank, vm');
    LiesAfterCopy(start, p, vm, adr, Source(words, pages), vm');
    forall a ensures Seen(vm', Kernel, a) == Shown(p'.kernel, a, BelowKernel(start, vm', a)) {
      KernelAfterCopy(start, p, vm, adr, words, pages, blank, vm', a);
    }
    forall u | 0 <= u < |vm'.users| ensures UserRefines(start, p'.users[u], vm', u) {
      forall a ensures !IsFixed(a) ==> Seen(vm', User(u), a) == Shown(p'.users[u], a, BelowUser(start, a)) {
        if !IsFixed(a) { UserAfterCopy(start, p, vm, adr, words, pages, blank, vm', u, a); }
      }
    }
  }

  /** The section is listed afterwards, and the others are listed as before. */
  lemma CopySections(vm: Vm, adr: Word, words: Table, pages: Word, blank: Word, vm': Vm)
    requires Inv(vm) && Migrate(vm, adr, words, pages, blank) == Done(vm')
    ensures vm'.users == vm.users
    ensures forall s :: s in vm'.kernel.cptds <==> s in vm.kernel.cptds || s == SectionOf(adr)
  {
    var i := IndexOf(vm.kernel.cptds, SectionOf(adr));
    if i < |vm.kernel.cptds| {
      MovedFirst(vm.kernel.cptds, vm'.kernel.cptds, i);
      forall s ensures s in vm'.kernel.cptds <==> s in vm.kernel.cptds {
        if s in vm'.kernel.cptds {
          var j :| 0 <= j < |vm'.kernel.cptds| && vm'.kernel.cptds[j] == s;
          assert s == vm.kernel.cptds[Origin(i, j)];
        }
      }
    }
  }

  lemma LiesAfterCopy(start: Vm, p: Plain, vm: Vm, adr: Word, source: Source, vm': Vm)
    requires Lies(start, p, vm) && |vm'.users| == |vm.users|
    requires forall s :: s in vm'.kernel.cptds <==> s in vm.kernel.cptds || s == SectionOf(adr)
    ensures Lies(start, Plain(PutSection(p.kernel, adr, source), p.users), vm')
  {
    forall a | Covers(PutSection(p.kernel, adr, source), a) ensures SectionOf(a) in vm'.kernel.cptds {
      KeyOf(SectionOf(a), SectionOf(adr));
      if SectionOf(a) != SectionOf(adr) { assert Covers(p.kernel, a); }
    }
  }

  lemma KernelAfterCopy(start: Vm, p: Plain, vm: Vm, adr: Word, words: Table, pages: Word, blank: Word, vm': Vm, a: Word)
    requires Inv(vm) && Refines(start, p, vm) && Legal(vm, Copy(adr, words, pages, blank))
    requires Migrate(vm, adr, words, pages, blank) == Done(vm')
    ensures Seen(vm', Kernel, a)
         == Shown(PutSection(p.kernel, adr, Source(words, pages)), a, BelowKernel(start, vm', a))
  {
    MigrateTranslates(vm, adr, words, pages, blank, vm', a);
    ShownAfterCopy(p.kernel, adr, Source(words, pages), a, BelowKernel(start, vm', a));
    if SectionOf(a) != SectionOf(adr) {
      CopySections(vm, adr, words, pages, blank, vm');
      BelowStays(start, vm, adr, vm', a);
      assert Seen(vm, Kernel, a) == Shown(p.kernel, a, BelowKernel(start, vm, a));
    }
  }

  lemma UserAfterCopy(
    start: Vm, p: Plain, vm: Vm, adr: Word, words: Table, pages: Word, blank: Word, vm': Vm, u: nat, a: Word)
    requires Inv(vm) && Refines(start, p, vm) && Legal(vm, Copy(adr, words, pages, blank))
    requires Migrate(vm, adr, words, pages, blank) == Done(vm') && u < |vm.users| && !IsFixed(a)
    ensures Exists(vm', User(u))
    ensures Seen(vm', User(u), a) == Shown(PutSection(p.users[u], adr, Source(words, pages)), a, BelowUser(start, a))
  {
    MigrateTranslatesShared(vm, adr, words, pages, blank, vm', u, a);
    ShownAfterCopy(p.users[u], adr, Source(words, pages), a, BelowUser(start, a));
    UserShows(start, p, vm, u, a);
  }

  // ----- runs

  /** A step of the page tables is a step of the plain map. */
  lemma StepRefines(start: Vm, p: Plain, vm: Vm, e: Event)
    requires Inv(vm) && Refines(start, p, vm) && Legal(vm, e)
    requires Step(vm, e).Done?
    ensures Refines(start, PlainStep(p, e), Step(vm, e).vm)
  {
    match e
    case MakeSpace => CreateRefines(start, p, vm);
    case KernelMap(page, va, cached, blank) =>
      KernelMapRefines(start, p, vm, page, va, cached, blank, Step(vm, e).vm);
    case UserMap(u, page, va, blank) =>
      UserMapRefines(start, p, vm, u, page, va, blank, Step(vm, e).vm);
    case Copy(adr, words, pages, blank) =>
      CopyRefines(start, p, vm, adr, words, pages, blank, Step(vm, e).vm);
  }

  lemma {:induction false} RunRefines(start: Vm, p: Plain, vm: Vm, es: seq<Event>)
    requires Inv(vm) && Refines(start, p, vm) && LegalRun(vm, es)
    ensures Refines(start, PlainRun(p, es), Run(vm, es))
    decreases |es|
  {
    if es != [] {
      StepKeepsInv(vm, es[0]);
      StepRefines(start, p, vm, es[0]);
      RunRefines(start, PlainStep(p, es[0]), Step(vm, es[0]).vm, es[1..]);
    }
  }

  /** From a kernel space with no other space yet, whatever it already maps, every run is a run of the plain map. */
  lemma EveryRunIsPlain(start: Vm, es: seq<Event>)
    requires Inv(start) && start.users == [] && LegalRun(start, es)
    ensures Refines(start, PlainRun(Plain(Pages(map[], map[]), []), es), Run(start, es))
  {
    RunRefines(start, Plain(Pages(map[], map[]), []), start, es);
  }
  /** What a space has in the plain map. */
  function PagesOf(p: Plain, w: Who): Pages
    requires w.User? ==> w.u < |p.users|
  {
    match w
    case Kernel => p.kernel
    case User(u) => p.users[u]
  }

  /** After every run each address of each page mapped resolves to its place on the frame. */
  lemma EveryPageResolves(start: Vm, es: seq<Event>, w: Who, a: Word, page: Word, off: Word)
    requires Inv(start) && start.users == [] && LegalRun(start, es) && Exists(Run(start, es), w) && !IsFixed(a)
    requires var p := PlainRun(Plain(Pages(map[], map[]), []), es);
      (w.User? ==> w.u < |p.users|) && Find(PagesOf(p, w).pages, PageOf(a)) == At(page)
    requires off == a - PageStart(a)
    ensures Seen(Run(start, es), w, a) == At(page + off)
  {
    EveryRunIsPlain(start, es);
    PageResolves(start, PlainRun(Plain(Pages(map[], map[]), []), es), Run(start, es), w, a, page, off);
  }

  lemma PageResolves(start: Vm, p: Plain, vm: Vm, w: Who, a: Word, page: Word, off: Word)
    requires Refines(start, p, vm) && Exists(vm, w) && !IsFixed(a)
    requires Find(PagesOf(p, w).pages, PageOf(a)) == At(page) && off == a - PageStart(a)
    ensures Seen(vm, w, a) == At(page + off)
  {
    SeenOnPage(start, p, vm, w, a, page);
    OffsetOnPage(page, a, off);
  }

  lemma SeenOnPage(start: Vm, p: Plain, vm: Vm, w: Who, a: Word, page: Word)
    requires Refines(start, p, vm) && Exists(vm, w) && !IsFixed(a)
    requires Find(PagesOf(p, w).pages, PageOf(a)) == At(page)
    ensures Seen(vm, w, a) == OnPage(page, a)
  {
    if w.User? { assert UserRefines(start, p.users[w.u], vm, w.u); }
  }
}
