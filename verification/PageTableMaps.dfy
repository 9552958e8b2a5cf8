/** The invariant of the spaces, and what one mapping does to translation in each of them. */
module PageTableMaps {
  import opened Descriptors
  import opened PageTables

  // ----- the invariant

  predicate IsBase(b: Word) {
    b & 0x3ff == 0
  }

  /** Sections every space maps the same way without a coarse table: the RAM window and the devices. */
  predicate IsFixed(a: Word) {
    0xec00_0000 <= a < 0xf000_0000 || 0xe900_0000 <= a < 0xe950_0000
  }

  function FixedBase(a: Word): Word {
    if 0xec00_0000 <= a then SectionOf(a) - 0xec00_0000 + 0x1000_0000
    else if a < 0xe910_0000 then 0x9000_0000
    else if a < 0xe920_0000 then 0xb000_0000
    else if a < 0xe930_0000 then 0xc000_0000
    else if a < 0xe940_0000 then 0xdc00_0000
    else 0xc400_0000
  }

  /** A section of domain 0 that the kernel alone may use. */
  predicate SectionAt(d: Word, base: Word) {
    IsSection(d) && SectionBase(d) == base && Domain(d) == 0 && Access(d) == 1
  }

  ghost predicate Fixed(tt: Table) {
    forall a :: IsFixed(a) ==> SectionAt(Slot(tt, a), FixedBase(a))
  }

  /** The two lists are aligned: distinct sections, each entry the descriptor of the table at its index. */
  predicate Lists(s: Space, ram: Memory) {
    && |s.cptds| == |s.cpts|
    && (forall i, j :: 0 <= i < j < |s.cptds| ==> s.cptds[i] != s.cptds[j])
    && (forall i :: 0 <= i < |s.cptds| ==> Listed(s, i, ram))
  }

  predicate Listed(s: Space, i: nat, ram: Memory)
    requires i < |s.cptds| == |s.cpts|
  {
    && SectionOf(s.cptds[i]) == s.cptds[i]
    && Slot(s.tt, s.cptds[i]) == NewCPTD(0, s.cpts[i])
    && IsBase(s.cpts[i])
    && K(s.cpts[i]) in ram
  }

  ghost predicate OnlyAt(tt: Table, base: Word, section: Word) {
    forall a :: Refers(tt, a, base) ==> SectionOf(a) == section
  }

  ghost predicate Never(tt: Table, base: Word) {
    forall a :: !Refers(tt, a, base)
  }

  ghost predicate Known(tt: Table, ram: Memory) {
    forall a :: IsCoarse(Slot(tt, a)) ==> K(CoarseBase(Slot(tt, a))) in ram
  }

  /** The tables `s` lists are reached through their own sections only. */
  ghost predicate Owns(s: Space, tt: Table)
    requires |s.cptds| == |s.cpts|
  {
    forall i :: 0 <= i < |s.cpts| ==> OnlyAt(tt, s.cpts[i], s.cptds[i])
  }

  /** The tables `s` lists are not reached at all. */
  ghost predicate Foreign(s: Space, tt: Table) {
    forall i :: 0 <= i < |s.cpts| ==> Never(tt, s.cpts[i])
  }

  predicate Inherits(kernel: Space, tt: Table) {
    forall i :: 0 <= i < |kernel.cptds| ==> Slot(tt, kernel.cptds[i]) == Slot(kernel.tt, kernel.cptds[i])
  }

  predicate Apart(kernel: Space, s: Space) {
    forall i :: 0 <= i < |kernel.cptds| ==> kernel.cptds[i] !in s.cptds
  }

  /** Nothing else is mapped. */
  ghost predicate Bare(kernel: Space, s: Space) {
    forall a :: !IsInvalid(Slot(s.tt, a)) ==> IsFixed(a) || SectionOf(a) in s.cptds || SectionOf(a) in kernel.cptds
  }

  ghost predicate KernelOk(k: Space, ram: Memory) {
    Lists(k, ram) && Known(k.tt, ram) && Owns(k, k.tt) && Fixed(k.tt)
  }

  ghost predicate UserOk(k: Space, s: Space, ram: Memory)
    requires |k.cptds| == |k.cpts|
  {
    && Lists(s, ram) && Known(s.tt, ram) && Owns(s, s.tt) && Fixed(s.tt)
    && Owns(k, s.tt) && Foreign(s, k.tt) && Inherits(k, s.tt) && Apart(k, s) && Bare(k, s)
  }

  ghost predicate Inv(vm: Vm) {
    && KernelOk(vm.kernel, vm.ram)
    && (forall u :: 0 <= u < |vm.users| ==> UserOk(vm.kernel, vm.users[u], vm.ram))
    && (forall u, v :: 0 <= u < |vm.users| && 0 <= v < |vm.users| && u != v ==> Foreign(vm.users[u], vm.users[v].tt))
  }

  // ----- the steps

  datatype Event =
    | MakeSpace
    | KernelMap(page: Word, va: Word, cached: bool, blank: Word)
    | UserMap(u: nat, page: Word, va: Word, blank: Word)
    | Copy(adr: Word, words: Table, pages: Word, blank: Word)

  /** A table as the allocator of tables hands it out: 1K-aligned and in use nowhere. */
  predicate IsBlank(blank: Word, ram: Memory) {
    IsBase(blank) && K(blank) !in ram
  }

  /** The section is listed, or a table is at hand to list it with. */
  predicate Ready(s: Space, va: Word, blank: Word, ram: Memory) {
    SectionOf(va) in s.cptds || IsBlank(blank, ram)
  }

  /** A kernel section, or one that is free to become so. */
  predicate KernelMay(vm: Vm, va: Word) {
    SectionOf(va) in vm.kernel.cptds
    || (!IsFixed(va) && forall u :: 0 <= u < |vm.users| ==> SectionOf(va) !in vm.users[u].cptds)
  }

  /** A section that a space may have to itself. */
  predicate UserMay(vm: Vm, va: Word) {
    !IsFixed(va) && SectionOf(va) !in vm.kernel.cptds
  }

  /** The table the kernel lists a section with is the one handed out again for it. */
  predicate CameBack(vm: Vm, adr: Word, blank: Word) {
    var i := IndexOf(vm.kernel.cptds, SectionOf(adr));
    i < |vm.kernel.cptds| && i < |vm.kernel.cpts| && vm.kernel.cpts[i] == blank
  }

  /** A section to migrate: not a fixed one, and shared with nobody or keeping its table. */
  predicate MigrateMay(vm: Vm, adr: Word, blank: Word) {
    !IsFixed(adr) && (vm.users == [] || CameBack(vm, adr, blank))
  }

  predicate Legal(vm: Vm, e: Event) {
    match e
    case MakeSpace => true
    case KernelMap(page, va, _, blank) =>
      page & 0xfff == 0 && Ready(vm.kernel, va, blank, vm.ram) && KernelMay(vm, va)
    case UserMap(u, page, va, blank) =>
      page & 0xfff == 0 && u < |vm.users| && Ready(vm.users[u], va, blank, vm.ram) && UserMay(vm, va)
    case Copy(adr, _, _, blank) =>
      IsBlank(blank, Freed(vm, adr)) && MigrateMay(vm, adr, blank)
  }

  function Step(vm: Vm, e: Event): Outcome {
    match e
    case MakeSpace => Done(CreateSpace(vm))
    case KernelMap(page, va, cached, blank) => MapKernel(vm, page, va, cached, blank)
    case UserMap(u, page, va, blank) => if u < |vm.users| then MapUser(vm, u, page, va, blank) else Panic
    case Copy(adr, words, pages, blank) => Migrate(vm, adr, words, pages, blank)
  }

  // ----- single facts

  lemma BlankIsUnused(tt: Table, ram: Memory, blank: Word)
    requires Known(tt, ram) && K(blank) !in ram
    ensures Never(tt, blank)
  {
    forall a ensures !Refers(tt, a, blank) {
      assert IsCoarse(Slot(tt, a)) ==> K(CoarseBase(Slot(tt, a))) in ram;
    }
  }

  lemma OfBase(b: Word)
    requires IsBase(b)
    ensures IsCoarse(NewCPTD(0, b)) && CoarseBase(NewCPTD(0, b)) == b
  {
    ReadCPTD(0, b);
    BaseBits(b);
  }

  lemma BaseBits(b: Word)
    requires IsBase(b)
    ensures b & 0xffff_fc00 == b
  {
  }

  /** The slot of a section serves every address in it. */
  lemma SameSlot(tt: Table, a: Word, b: Word)
    requires SectionOf(a) == SectionOf(b)
    ensures Slot(tt, a) == Slot(tt, b)
  {
    SectionUp(a, b);
  }

  lemma ListedRefers(s: Space, ram: Memory, i: nat, a: Word)
    requires Lists(s, ram) && i < |s.cptds| && SectionOf(a) == s.cptds[i]
    ensures Slot(s.tt, a) == NewCPTD(0, s.cpts[i]) && Refers(s.tt, a, s.cpts[i])
  {
    assert Listed(s, i, ram);
    SameSlot(s.tt, a, s.cptds[i]);
    OfBase(s.cpts[i]);
  }

  lemma WalkElsewhere(d: Word, ram: Memory, base: Word, t: Table, a: Word)
    requires IsCoarse(d) ==> CoarseBase(d) != base
    ensures Walk(d, ram[K(base) := t], a) == Walk(d, ram, a)
  {
  }

  /** A page written into a table that one section alone reaches. */
  lemma PageWritten(tt: Table, ram: Memory, base: Word, va: Word, d: Word, a: Word)
    requires forall x :: Refers(tt, x, base) <==> SectionOf(x) == SectionOf(va)
    ensures Translate(tt, SetPage(ram, base, TableIndex(va), d), a)
         == if SamePage(a, va) then ReadPage(d, a) else Translate(tt, ram, a)
  {
    WriteShows(tt, ram, base, va, d, a);
    SameWord(a, va);
    assert Refers(tt, a, base) <==> SectionOf(a) == SectionOf(va);
  }

  /** A page written into the table of a section just taken. */
  lemma PageWrittenFresh(tt: Table, ram: Memory, blank: Word, va: Word, d: Word, a: Word)
    requires IsBlank(blank, ram) && Known(tt, ram)
    ensures Translate(SetSlot(tt, SectionOf(va), NewCPTD(0, blank)),
                      SetPage(ram[K(blank) := map[]], blank, TableIndex(va), d), a)
         == if SamePage(a, va) then ReadPage(d, a)
            else if SectionOf(a) == SectionOf(va) then NULL
            else Translate(tt, ram, a)
  {
    var tt' := SetSlot(tt, SectionOf(va), NewCPTD(0, blank));
    var mem := ram[K(blank) := map[]];
    SectionTwice(va);
    OfBase(blank);
    BlankIsUnused(tt, ram, blank);
    forall x ensures Refers(tt', x, blank) <==> SectionOf(x) == SectionOf(va) {
      SlotOfSetSlot(tt, SectionOf(va), NewCPTD(0, blank), x);
      assert !Refers(tt, x, blank);
    }
    PageWritten(tt', mem, blank, va, d, a);
    SlotOfSetSlot(tt, SectionOf(va), NewCPTD(0, blank), a);
    SameWord(a, va);
    if SectionOf(a) == SectionOf(va) {
      BlankWalk(ram, blank, a);
    } else {
      assert !Refers(tt, a, blank);
      WalkElsewhere(Slot(tt, a), ram, blank, map[], a);
    }
  }

  lemma BlankWalk(ram: Memory, blank: Word, a: Word)
    requires IsBase(blank)
    ensures Walk(NewCPTD(0, blank), ram[K(blank) := map[]], a) == NULL
  {
    OfBase(blank);
  }

  // ----- what one mapping does to translation, in every space

  datatype Who = Kernel | User(u: nat)

  predicate Exists(vm: Vm, w: Who) {
    w.User? ==> w.u < |vm.users|
  }

  function TableOf(vm: Vm, w: Who): Table
    requires Exists(vm, w)
  {
    match w
    case Kernel => vm.kernel.tt
    case User(u) => vm.users[u].tt
  }

  /** What an address is in a space. */
  function Seen(vm: Vm, w: Who, a: Word): Physical
    requires Exists(vm, w)
  {
    Translate(TableOf(vm, w), vm.ram, a)
  }

  /** In every space the kernel's tables are reached from the kernel's sections and from nowhere else. */
  lemma KernelReached(vm: Vm, w: Who, i: nat, a: Word)
    requires Inv(vm) && Exists(vm, w) && i < |vm.kernel.cptds|
    ensures Refers(TableOf(vm, w), a, vm.kernel.cpts[i]) <==> SectionOf(a) == vm.kernel.cptds[i]
  {
    var tt := TableOf(vm, w);
    assert OnlyAt(tt, vm.kernel.cpts[i], vm.kernel.cptds[i]) by {
      if w.User? { assert UserOk(vm.kernel, vm.users[w.u], vm.ram); }
    }
    if SectionOf(a) == vm.kernel.cptds[i] {
      ListedRefers(vm.kernel, vm.ram, i, a);
      InheritsSlot(vm, w, i, a);
    }
  }

  lemma InheritsSlot(vm: Vm, w: Who, i: nat, a: Word)
    requires Inv(vm) && Exists(vm, w) && i < |vm.kernel.cptds| && SectionOf(a) == vm.kernel.cptds[i]
    ensures Slot(TableOf(vm, w), a) == Slot(vm.kernel.tt, a)
  {
    assert Listed(vm.kernel, i, vm.ram);
    SameSlot(vm.kernel.tt, a, vm.kernel.cptds[i]);
    SameSlot(TableOf(vm, w), a, vm.kernel.cptds[i]);
    if w.User? { assert Inherits(vm.kernel, vm.users[w.u].tt); }
  }

  lemma KernelPageReads(cached: bool, page: Word, a: Word)
    requires page & 0xfff == 0
    ensures ReadPage(KernelPage(cached, page), a) == OnPage(page, a)
  {
    if cached { ReadSPD(1, 1, 0x55, page, a); } else { ReadSPD(0, 0, 0x55, page, a); }
  }

  lemma UserPageReads(page: Word, a: Word)
    requires page & 0xfff == 0
    ensures ReadPage(UserPage(page), a) == OnPage(page, a)
  {
    ReadSPD(1, 1, 0xff, page, a);
  }

  /** What a page descriptor leaves an address at: `was` unless it is on the page or in a section just taken. */
  function Put(was: Physical, a: Word, va: Word, d: Word, taken: bool): Physical {
    if SamePage(a, va) then ReadPage(d, a)
    else if taken && SectionOf(a) == SectionOf(va) then NULL
    else was
  }

  lemma PutKernelListed(vm: Vm, va: Word, d: Word, blank: Word, vm': Vm, w: Who, a: Word)
    requires Inv(vm) && Ready(vm.kernel, va, blank, vm.ram) && Exists(vm, w) && SectionOf(va) in vm.kernel.cptds
    requires PutKernel(vm, va, d, blank) == Done(vm')
    ensures Exists(vm', w)
    ensures Seen(vm', w, a) == Put(Seen(vm, w, a), a, va, d, false)
  {
    var i := IndexOf(vm.kernel.cptds, SectionOf(va));
    KernelListedIs(vm, va, d, blank, vm', i, w);
    KernelReachedAll(vm, w, i, va);
    PageWritten(TableOf(vm, w), vm.ram, vm.kernel.cpts[i], va, d, a);
  }

  lemma KernelListedIs(vm: Vm, va: Word, d: Word, blank: Word, vm': Vm, i: nat, w: Who)
    requires |vm.kernel.cptds| == |vm.kernel.cpts|
    requires i == IndexOf(vm.kernel.cptds, SectionOf(va)) && SectionOf(va) in vm.kernel.cptds && Exists(vm, w)
    requires PutKernel(vm, va, d, blank) == Done(vm')
    ensures i < |vm.kernel.cpts| && Exists(vm', w) && TableOf(vm', w) == TableOf(vm, w)
    ensures vm' == vm.(ram := SetPage(vm.ram, vm.kernel.cpts[i], TableIndex(va), d))
  {
  }

  lemma KernelReachedAll(vm: Vm, w: Who, i: nat, va: Word)
    requires Inv(vm) && Exists(vm, w) && i < |vm.kernel.cptds| && vm.kernel.cptds[i] == SectionOf(va)
    ensures forall x :: Refers(TableOf(vm, w), x, vm.kernel.cpts[i]) <==> SectionOf(x) == SectionOf(va)
  {
    forall x ensures Refers(TableOf(vm, w), x, vm.kernel.cpts[i]) <==> SectionOf(x) == SectionOf(va) {
      KernelReached(vm, w, i, x);
    }
  }

  lemma PutKernelTaken(vm: Vm, va: Word, d: Word, blank: Word, vm': Vm, w: Who, a: Word)
    requires Inv(vm) && Ready(vm.kernel, va, blank, vm.ram) && Exists(vm, w) && SectionOf(va) !in vm.kernel.cptds
    requires PutKernel(vm, va, d, blank) == Done(vm')
    ensures Exists(vm', w)
    ensures Seen(vm', w, a) == Put(Seen(vm, w, a), a, va, d, true)
  {
    KernelTakenIs(vm, va, d, blank, vm', w);
    KnownIn(vm, w);
    PageWrittenFresh(TableOf(vm, w), vm.ram, blank, va, d, a);
  }

  lemma KernelTakenIs(vm: Vm, va: Word, d: Word, blank: Word, vm': Vm, w: Who)
    requires Exists(vm, w) && SectionOf(va) !in vm.kernel.cptds
    requires PutKernel(vm, va, d, blank) == Done(vm')
    ensures Exists(vm', w) && TableOf(vm', w) == SetSlot(TableOf(vm, w), SectionOf(va), NewCPTD(0, blank))
    ensures vm'.ram == SetPage(vm.ram[K(blank) := map[]], blank, TableIndex(va), d)
  {
    SlotOfSetSlot(vm.kernel.tt, SectionOf(va), NewCPTD(0, blank), SectionOf(va));
  }

  lemma PutUserListed(vm: Vm, u: nat, va: Word, d: Word, blank: Word, vm': Vm, w: Who, a: Word)
    requires Inv(vm) && u < |vm.users| && Ready(vm.users[u], va, blank, vm.ram) && Exists(vm, w) && SectionOf(va) in vm.users[u].cptds
    requires PutUser(vm, u, va, d, blank) == Done(vm')
    ensures Exists(vm', w)
    ensures Seen(vm', w, a)
         == if w == User(u) then Put(Seen(vm, w, a), a, va, d, false) else Seen(vm, w, a)
  {
    var s := vm.users[u];
    var i := IndexOf(s.cptds, SectionOf(va));
    assert UserOk(vm.kernel, s, vm.ram);
    if w == User(u) {
      UserReached(vm, u, i, va);
      PageWritten(s.tt, vm.ram, s.cpts[i], va, d, a);
    } else {
      assert Foreign(s, TableOf(vm, w));
      WriteShows(TableOf(vm, w), vm.ram, s.cpts[i], va, d, a);
    }
  }

  /** A table a space lists is reached in that space from its own section and from nowhere else. */
  lemma UserReached(vm: Vm, u: nat, i: nat, va: Word)
    requires Inv(vm) && u < |vm.users| && i < |vm.users[u].cptds| && vm.users[u].cptds[i] == SectionOf(va)
    ensures i < |vm.users[u].cpts|
    ensures forall x :: Refers(vm.users[u].tt, x, vm.users[u].cpts[i]) <==> SectionOf(x) == SectionOf(va)
  {
    var s := vm.users[u];
    assert UserOk(vm.kernel, s, vm.ram);
    forall x ensures Refers(s.tt, x, s.cpts[i]) <==> SectionOf(x) == SectionOf(va) {
      assert OnlyAt(s.tt, s.cpts[i], s.cptds[i]);
      if SectionOf(x) == SectionOf(va) { ListedRefers(s, vm.ram, i, x); }
    }
  }

  lemma PutUserTaken(vm: Vm, u: nat, va: Word, d: Word, blank: Word, vm': Vm, w: Who, a: Word)
    requires Inv(vm) && u < |vm.users| && Ready(vm.users[u], va, blank, vm.ram) && Exists(vm, w) && SectionOf(va) !in vm.users[u].cptds
    requires PutUser(vm, u, va, d, blank) == Done(vm')
    ensures Exists(vm', w)
    ensures Seen(vm', w, a)
         == if w == User(u) then Put(Seen(vm, w, a), a, va, d, true) else Seen(vm, w, a)
  {
    KnownIn(vm, w);
    if w == User(u) {
      PageWrittenFresh(TableOf(vm, w), vm.ram, blank, va, d, a);
    } else {
      WrittenUnseen(TableOf(vm, w), vm.ram, blank, va, d, a);
    }
  }

  lemma KnownIn(vm: Vm, w: Who)
    requires Inv(vm) && Exists(vm, w)
    ensures Known(TableOf(vm, w), vm.ram)
  {
    if w.User? { assert UserOk(vm.kernel, vm.users[w.u], vm.ram); }
  }

  lemma WrittenUnseen(tt: Table, ram: Memory, blank: Word, va: Word, d: Word, a: Word)
    requires Known(tt, ram) && K(blank) !in ram
    ensures Translate(tt, SetPage(ram[K(blank) := map[]], blank, TableIndex(va), d), a) == Translate(tt, ram, a)
  {
    BlankIsUnused(tt, ram, blank);
    assert !Refers(tt, a, blank);
    WriteShows(tt, ram[K(blank) := map[]], blank, va, d, a);
    WalkElsewhere(Slot(tt, a), ram, blank, map[], a);
  }

  /** The same for a page: its addresses are on it, the rest of a section just taken has nothing. */
  function Placed(was: Physical, a: Word, va: Word, page: Word, taken: bool): Physical {
    if SamePage(a, va) then OnPage(page, a)
    else if taken && SectionOf(a) == SectionOf(va) then NULL
    else was
  }

  lemma PutIsPlaced(was: Physical, a: Word, va: Word, d: Word, page: Word, taken: bool)
    requires ReadPage(d, a) == OnPage(page, a)
    ensures Put(was, a, va, d, taken) == Placed(was, a, va, page, taken)
  {
  }

  /**
   * A kernel page is mapped in every space at once, over the whole page. An address elsewhere keeps what
   * it had, except that in a section the kernel had not listed it then has nothing.
   */
  lemma KernelMapTranslates(vm: Vm, page: Word, va: Word, cached: bool, blank: Word, vm': Vm, w: Who, a: Word)
    requires Inv(vm) && page & 0xfff == 0 && Ready(vm.kernel, va, blank, vm.ram) && Exists(vm, w)
    requires MapKernel(vm, page, va, cached, blank) == Done(vm')
    ensures Exists(vm', w)
    ensures Seen(vm', w, a) == Placed(Seen(vm, w, a), a, va, page, SectionOf(va) !in vm.kernel.cptds)
  {
    KernelPageReads(cached, page, a);
    PutIsPlaced(Seen(vm, w, a), a, va, KernelPage(cached, page), page, SectionOf(va) !in vm.kernel.cptds);
    if SectionOf(va) in vm.kernel.cptds {
      PutKernelListed(vm, va, KernelPage(cached, page), blank, vm', w, a);
    } else {
      PutKernelTaken(vm, va, KernelPage(cached, page), blank, vm', w, a);
    }
  }

  /** In every space each address of the page resolves to the one as far behind the frame. */
  lemma KernelPageResolves(
    vm: Vm, page: Word, va: Word, cached: bool, blank: Word, vm': Vm, w: Who, a: Word, off: Word)
    requires Inv(vm) && page & 0xfff == 0 && Ready(vm.kernel, va, blank, vm.ram) && Exists(vm, w)
    requires MapKernel(vm, page, va, cached, blank) == Done(vm')
    requires PageStart(a) == PageStart(va) && off == a - PageStart(va)
    ensures Exists(vm', w) && Seen(vm', w, a) == At(page + off)
  {
    KernelMapTranslates(vm, page, va, cached, blank, vm', w, a);
    OffsetOnPage(page, a, off);
  }

  /** A user page is mapped in its own space, and no other space sees any change. */
  lemma UserMapTranslates(vm: Vm, u: nat, page: Word, va: Word, blank: Word, vm': Vm, w: Who, a: Word)
    requires Inv(vm) && page & 0xfff == 0 && u < |vm.users| && Ready(vm.users[u], va, blank, vm.ram) && Exists(vm, w)
    requires MapUser(vm, u, page, va, blank) == Done(vm')
    ensures Exists(vm', w)
    ensures Seen(vm', w, a)
         == if w == User(u) then Placed(Seen(vm, w, a), a, va, page, SectionOf(va) !in vm.users[u].cptds)
            else Seen(vm, w, a)
  {
    UserPageReads(page, a);
    PutIsPlaced(Seen(vm, w, a), a, va, UserPage(page), page, SectionOf(va) !in vm.users[u].cptds);
    if SectionOf(va) in vm.users[u].cptds {
      PutUserListed(vm, u, va, UserPage(page), blank, vm', w, a);
    } else {
      PutUserTaken(vm, u, va, UserPage(page), blank, vm', w, a);
    }
  }

  lemma UserPageResolves(vm: Vm, u: nat, page: Word, va: Word, blank: Word, vm': Vm, a: Word, off: Word)
    requires Inv(vm) && page & 0xfff == 0 && u < |vm.users| && Ready(vm.users[u], va, blank, vm.ram)
    requires MapUser(vm, u, page, va, blank) == Done(vm')
    requires PageStart(a) == PageStart(va) && off == a - PageStart(va)
    ensures Exists(vm', User(u)) && Seen(vm', User(u), a) == At(page + off)
  {
    UserMapTranslates(vm, u, page, va, blank, vm', User(u), a);
    OffsetOnPage(page, a, off);
  }

  // ----- the flags of a mapped page

  /** The page descriptor an address is looked up with. */
  function Found(vm: Vm, w: Who, a: Word): Word
    requires Exists(vm, w)
  {
    PageWord(Slot(TableOf(vm, w), a), vm.ram, a)
  }

  lemma FoundAfterWrite(tt: Table, ram: Memory, base: Word, va: Word, d: Word, a: Word)
    requires Refers(tt, a, base) && SamePage(a, va)
    ensures PageWord(Slot(tt, a), SetPage(ram, base, TableIndex(va), d), a) == d
  {
    SameWord(a, va);
    IndicesAgree(va);
    EntryOfSetPage(ram, base, TableIndex(va), d, base, ReadIndex(a));
  }

  lemma TakenRefers(tt: Table, va: Word, blank: Word, a: Word)
    requires IsBase(blank) && SectionOf(a) == SectionOf(va)
    ensures Refers(SetSlot(tt, SectionOf(va), NewCPTD(0, blank)), a, blank)
  {
    SectionTwice(va);
    SlotOfSetSlot(tt, SectionOf(va), NewCPTD(0, blank), a);
    OfBase(blank);
  }

  /** The descriptor put for a kernel page is the one found for the whole page, in every space. */
  lemma PutKernelIsFound(vm: Vm, va: Word, d: Word, blank: Word, vm': Vm, w: Who, a: Word)
    requires Inv(vm) && Ready(vm.kernel, va, blank, vm.ram) && Exists(vm, w) && SamePage(a, va)
    requires PutKernel(vm, va, d, blank) == Done(vm')
    ensures Exists(vm', w) && Found(vm', w, a) == d
  {
    SameWord(a, va);
    if SectionOf(va) in vm.kernel.cptds {
      var i := IndexOf(vm.kernel.cptds, SectionOf(va));
      KernelListedIs(vm, va, d, blank, vm', i, w);
      KernelReached(vm, w, i, a);
      FoundAfterWrite(TableOf(vm, w), vm.ram, vm.kernel.cpts[i], va, d, a);
    } else {
      KernelTakenIs(vm, va, d, blank, vm', w);
      TakenRefers(TableOf(vm, w), va, blank, a);
      FoundAfterWrite(TableOf(vm', w), vm.ram[K(blank) := map[]], blank, va, d, a);
    }
  }

  /** The descriptor put for a page of a space is the one found there for the whole page. */
  lemma PutUserIsFound(vm: Vm, u: nat, va: Word, d: Word, blank: Word, vm': Vm, a: Word)
    requires Inv(vm) && u < |vm.users| && Ready(vm.users[u], va, blank, vm.ram) && SamePage(a, va)
    requires PutUser(vm, u, va, d, blank) == Done(vm')
    ensures Exists(vm', User(u)) && Found(vm', User(u), a) == d
  {
    UserPutIs(vm, u, va, d, blank, vm');
    if SectionOf(va) in vm.users[u].cptds {
      FoundInListed(vm, u, IndexOf(vm.users[u].cptds, SectionOf(va)), va, d, a);
    } else {
      FoundInTaken(vm.users[u].tt, vm.ram, blank, va, d, a);
    }
  }

  lemma FoundInListed(vm: Vm, u: nat, i: nat, va: Word, d: Word, a: Word)
    requires Inv(vm) && u < |vm.users| && i < |vm.users[u].cptds| && vm.users[u].cptds[i] == SectionOf(va)
    requires SamePage(a, va)
    ensures i < |vm.users[u].cpts|
    ensures PageWord(Slot(vm.users[u].tt, a), SetPage(vm.ram, vm.users[u].cpts[i], TableIndex(va), d), a) == d
  {
    SameWord(a, va);
    UserReached(vm, u, i, va);
    assert Refers(vm.users[u].tt, a, vm.users[u].cpts[i]) <==> SectionOf(a) == SectionOf(va);
    FoundAfterWrite(vm.users[u].tt, vm.ram, vm.users[u].cpts[i], va, d, a);
  }

  lemma FoundInTaken(tt: Table, ram: Memory, blank: Word, va: Word, d: Word, a: Word)
    requires IsBase(blank) && SamePage(a, va)
    ensures PageWord(Slot(SetSlot(tt, SectionOf(va), NewCPTD(0, blank)), a),
                     SetPage(ram[K(blank) := map[]], blank, TableIndex(va), d), a) == d
  {
    SameWord(a, va);
    TakenRefers(tt, va, blank, a);
    FoundAfterWrite(SetSlot(tt, SectionOf(va), NewCPTD(0, blank)), ram[K(blank) := map[]], blank, va, d, a);
  }

  lemma UserPutIs(vm: Vm, u: nat, va: Word, d: Word, blank: Word, vm': Vm)
    requires u < |vm.users| && PutUser(vm, u, va, d, blank) == Done(vm')
    ensures Exists(vm', User(u))
    ensures var s := vm.users[u]; var i := IndexOf(s.cptds, SectionOf(va));
      if i == |s.cptds| then
        && TableOf(vm', User(u)) == SetSlot(s.tt, SectionOf(va), NewCPTD(0, blank))
        && vm'.ram == SetPage(vm.ram[K(blank) := map[]], blank, TableIndex(va), d)
      else i < |s.cpts| && TableOf(vm', User(u)) == s.tt && vm'.ram == SetPage(vm.ram, s.cpts[i], TableIndex(va), d)
  {
  }

  /** A kernel page is closed to user mode in every space, and cached just when asked. */
  lemma KernelPageIsProtected(vm: Vm, page: Word, va: Word, cached: bool, blank: Word, vm': Vm, w: Who, a: Word)
    requires Inv(vm) && Ready(vm.kernel, va, blank, vm.ram) && Exists(vm, w) && SamePage(a, va)
    requires MapKernel(vm, page, va, cached, blank) == Done(vm')
    ensures Exists(vm', w) && Permissions(Found(vm', w, a)) == 0x55
    ensures Cacheable(Found(vm', w, a)) == Bufferable(Found(vm', w, a)) == if cached then 1 else 0
  {
    PutKernelIsFound(vm, va, KernelPage(cached, page), blank, vm', w, a);
    SPDFlags(1, 1, 0x55, page);
    SPDFlags(0, 0, 0x55, page);
  }

  /** A user page is open to user mode, and cached. */
  lemma UserPageIsOpen(vm: Vm, u: nat, page: Word, va: Word, blank: Word, vm': Vm, a: Word)
    requires Inv(vm) && u < |vm.users| && Ready(vm.users[u], va, blank, vm.ram) && SamePage(a, va)
    requires MapUser(vm, u, page, va, blank) == Done(vm')
    ensures Exists(vm', User(u)) && Permissions(Found(vm', User(u), a)) == 0xff
    ensures Cacheable(Found(vm', User(u), a)) == Bufferable(Found(vm', User(u), a)) == 1
  {
    PutUserIsFound(vm, u, va, UserPage(page), blank, vm', a);
    SPDFlags(1, 1, 0xff, page);
  }
}
