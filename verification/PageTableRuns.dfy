/** Runs of the virtual memory manager: what they keep, and the plain map they refine. */
module PageTableRuns {
  import opened Sequences
  import opened Descriptors
  import opened PageTables
  import opened PageTableMaps
  import opened PageTableSteps

  // ----- migrating a table

  /** A space that no longer lists or reaches the table at index `i`. */
  function Dropped(s: Space, i: nat): Space
    requires i < |s.cptds| == |s.cpts|
  {
    Space(SetSlot(s.tt, s.cptds[i], 0), Without(s.cptds, i), Without(s.cpts, i))
  }

  lemma TablesDiffer(k: Space, ram: Memory, i: nat, j: nat)
    requires Lists(k, ram) && Owns(k, k.tt) && i < |k.cptds| && j < |k.cptds| && i != j
    ensures k.cpts[i] != k.cpts[j]
  {
    assert Listed(k, j, ram);
    ListedRefers(k, ram, j, k.cptds[j]);
    assert OnlyAt(k.tt, k.cpts[i], k.cptds[i]);
  }

  lemma DroppedLists(k: Space, ram: Memory, i: nat)
    requires KernelOk(k, ram) && i < |k.cptds|
    ensures Lists(Dropped(k, i), ram - {K(k.cpts[i])})
  {
    var s := Dropped(k, i);
    forall j | 0 <= j < |s.cptds| ensures Listed(s, j, ram - {K(k.cpts[i])}) {
      DroppedListed(k, ram, i, if j < i then j else j + 1, j);
    }
  }

  lemma DroppedListed(k: Space, ram: Memory, i: nat, m: nat, j: nat)
    requires KernelOk(k, ram) && i < |k.cptds| && m < |k.cptds| && m != i
    requires j == if m < i then m else m - 1
    ensures Listed(Dropped(k, i), j, ram - {K(k.cpts[i])})
  {
    assert Listed(k, i, ram) && Listed(k, m, ram);
    TablesDiffer(k, ram, i, m);
    SlotOfSetSlot(k.tt, k.cptds[i], 0, k.cptds[m]);
  }

  lemma DroppedRefers(k: Space, ram: Memory, i: nat, a: Word, b: Word)
    requires KernelOk(k, ram) && i < |k.cptds|
    ensures Refers(Dropped(k, i).tt, a, b) <==> SectionOf(a) != k.cptds[i] && Refers(k.tt, a, b)
  {
    assert Listed(k, i, ram);
    SlotOfSetSlot(k.tt, k.cptds[i], 0, a);
  }

  lemma DroppedKnown(k: Space, ram: Memory, i: nat)
    requires KernelOk(k, ram) && i < |k.cptds|
    ensures Known(Dropped(k, i).tt, ram - {K(k.cpts[i])})
  {
    var tt := Dropped(k, i).tt;
    forall a ensures IsCoarse(Slot(tt, a)) ==> K(CoarseBase(Slot(tt, a))) in ram - {K(k.cpts[i])} {
      var b := CoarseBase(Slot(tt, a));
      DroppedRefers(k, ram, i, a, b);
      assert OnlyAt(k.tt, k.cpts[i], k.cptds[i]);
      assert Refers(k.tt, a, k.cpts[i]) ==> SectionOf(a) == k.cptds[i];
      assert IsCoarse(Slot(k.tt, a)) ==> K(CoarseBase(Slot(k.tt, a))) in ram;
    }
  }

  lemma DroppedOwns(k: Space, ram: Memory, i: nat)
    requires KernelOk(k, ram) && i < |k.cptds|
    ensures |Dropped(k, i).cptds| == |Dropped(k, i).cpts| && Owns(Dropped(k, i), Dropped(k, i).tt)
  {
    var s := Dropped(k, i);
    forall j | 0 <= j < |s.cpts| ensures OnlyAt(s.tt, s.cpts[j], s.cptds[j]) {
      var m := if j < i then j else j + 1;
      assert OnlyAt(k.tt, k.cpts[m], k.cptds[m]);
      forall a ensures Refers(s.tt, a, s.cpts[j]) ==> SectionOf(a) == s.cptds[j] {
        DroppedRefers(k, ram, i, a, s.cpts[j]);
        assert Refers(k.tt, a, k.cpts[m]) ==> SectionOf(a) == k.cptds[m];
      }
    }
  }

  lemma DroppedFixed(k: Space, ram: Memory, i: nat)
    requires KernelOk(k, ram) && i < |k.cptds|
    ensures Fixed(Dropped(k, i).tt)
  {
    assert Listed(k, i, ram);
    forall a ensures IsFixed(a) ==> SectionAt(Slot(Dropped(k, i).tt, a), FixedBase(a)) {
      SlotOfSetSlot(k.tt, k.cptds[i], 0, a);
      if SectionOf(a) == k.cptds[i] { ListedIsNotFixed(k, ram, a); }
    }
  }

  lemma DroppedOk(k: Space, ram: Memory, i: nat)
    requires KernelOk(k, ram) && i < |k.cptds|
    ensures KernelOk(Dropped(k, i), ram - {K(k.cpts[i])})
    ensures k.cptds[i] !in Dropped(k, i).cptds
  {
    DroppedLists(k, ram, i);
    DroppedKnown(k, ram, i);
    DroppedOwns(k, ram, i);
    DroppedFixed(k, ram, i);
  }

  /** The kernel's space with a section's table, if it has one, taken out. */
  function Emptied(k: Space, section: Word): Space {
    var i := IndexOf(k.cptds, section);
    if i < |k.cptds| && |k.cptds| == |k.cpts| then Dropped(k, i) else k
  }

  lemma MigrateShape(vm: Vm, adr: Word, words: Table, pages: Word, blank: Word, vm': Vm)
    requires Lists(vm.kernel, vm.ram) && Migrate(vm, adr, words, pages, blank) == Done(vm')
    ensures vm'.users == vm.users
    ensures vm'.kernel == TakeSection(Emptied(vm.kernel, SectionOf(adr)), SectionOf(adr), blank)
    ensures vm'.ram == Freed(vm, adr)[K(blank) := FirstWords(words, pages)]
  {
    var i := IndexOf(vm.kernel.cptds, SectionOf(adr));
    if i < |vm.kernel.cptds| {
      assert Listed(vm.kernel, i, vm.ram);
      PutTwice(vm.kernel.tt, SectionOf(adr), 0, NewCPTD(0, blank));
    }
  }

  lemma PutTwice(tt: Table, a: Word, d: Word, e: Word)
    ensures SetSlot(SetSlot(tt, a, d), a, e) == SetSlot(tt, a, e)
  {
  }

  lemma EmptiedOk(vm: Vm, adr: Word)
    requires KernelOk(vm.kernel, vm.ram)
    ensures KernelOk(Emptied(vm.kernel, SectionOf(adr)), Freed(vm, adr))
    ensures SectionOf(adr) !in Emptied(vm.kernel, SectionOf(adr)).cptds
  {
    var i := IndexOf(vm.kernel.cptds, SectionOf(adr));
    if i < |vm.kernel.cptds| { DroppedOk(vm.kernel, vm.ram, i); }
  }

  lemma MigrateKernelOk(vm: Vm, adr: Word, words: Table, pages: Word, blank: Word, vm': Vm)
    requires Inv(vm) && !IsFixed(adr) && IsBlank(blank, Freed(vm, adr))
    requires Migrate(vm, adr, words, pages, blank) == Done(vm')
    ensures vm'.users == vm.users && KernelOk(vm'.kernel, vm'.ram)
  {
    MigrateShape(vm, adr, words, pages, blank, vm');
    EmptiedOk(vm, adr);
    SectionIsPlain(adr);
    KernelTakesKernel(Emptied(vm.kernel, SectionOf(adr)), Freed(vm, adr), vm'.ram, SectionOf(adr), blank);
  }

  /** The same entries, the one at index m listed first. */
  ghost predicate Reorders(k: Space, k': Space, m: nat) {
    && |k.cptds| == |k.cpts| == |k'.cptds| == |k'.cpts|
    && (forall a :: Slot(k'.tt, a) == Slot(k.tt, a))
    && (forall j :: 0 <= j < |k'.cptds| ==> ComesFrom(k, k', j, Origin(m, j)))
    && (forall i :: 0 <= i < |k.cptds| ==> k.cptds[i] in k'.cptds)
  }

  predicate ComesFrom(k: Space, k': Space, j: nat, i: nat)
    requires j < |k'.cptds| == |k'.cpts| && |k.cptds| == |k.cpts|
  {
    i < |k.cptds| && k.cptds[i] == k'.cptds[j] && k.cpts[i] == k'.cpts[j]
  }

  function Origin(m: nat, j: nat): nat {
    if j == 0 then m else if j <= m then j - 1 else j
  }

  /** A table handed out again for the section it came from leaves every entry as it was. */
  lemma CameBackReorders(vm: Vm, adr: Word, words: Table, pages: Word, blank: Word, vm': Vm)
    requires Inv(vm) && CameBack(vm, adr, blank) && Migrate(vm, adr, words, pages, blank) == Done(vm')
    ensures Reorders(vm.kernel, vm'.kernel, IndexOf(vm.kernel.cptds, SectionOf(adr))) && Wider(vm.ram, vm'.ram)
  {
    var m := IndexOf(vm.kernel.cptds, SectionOf(adr));
    assert Listed(vm.kernel, m, vm.ram);
    MigratedLists(vm.kernel, vm'.kernel, m, SectionOf(adr), blank);
  }

  lemma MigratedLists(k: Space, k': Space, m: nat, section: Word, blank: Word)
    requires m < |k.cptds| == |k.cpts| && k.cptds[m] == section && k.cpts[m] == blank
    requires Slot(k.tt, section) == NewCPTD(0, blank)
    requires k' == TakeSection(Space(k.tt, Without(k.cptds, m), Without(k.cpts, m)), section, blank)
    ensures Reorders(k, k', m)
  {
    forall a ensures Slot(k'.tt, a) == Slot(k.tt, a) {
      SameEntry(k.tt, section, NewCPTD(0, blank), a);
    }
    MovedFirst(k.cptds, k'.cptds, m);
    MovedFirst(k.cpts, k'.cpts, m);
    forall j | 0 <= j < |k'.cptds| ensures ComesFrom(k, k', j, Origin(m, j)) {
      assert k'.cptds[j] == k.cptds[Origin(m, j)] && k'.cpts[j] == k.cpts[Origin(m, j)];
    }
  }

  lemma MovedFirst(s: seq<Word>, t: seq<Word>, m: nat)
    requires m < |s| && t == [s[m]] + Without(s, m)
    ensures |t| == |s| && forall j :: 0 <= j < |t| ==> Origin(m, j) < |s| && t[j] == s[Origin(m, j)]
    ensures forall i :: 0 <= i < |s| ==> s[i] in t
  {
    forall i | 0 <= i < |s| ensures s[i] in t {
      assert s[i] == t[if i == m then 0 else if i < m then i + 1 else i];
    }
  }

  lemma SameEntry(tt: Table, section: Word, d: Word, a: Word)
    requires Slot(tt, section) == d
    ensures Slot(SetSlot(tt, section, d), a) == Slot(tt, a)
  {
    SlotOfSetSlot(tt, section, d, a);
    if SectionOf(a) == SectionOf(section) { SameSlot(tt, a, section); }
  }

  lemma ReorderedUserOk(k: Space, k': Space, m: nat, s: Space, ram: Memory, ram': Memory)
    requires |k.cptds| == |k.cpts| && UserOk(k, s, ram) && Reorders(k, k', m) && Wider(ram, ram')
    ensures UserOk(k', s, ram')
  {
    ListsWider(s, ram, ram');
    KnownWider(s.tt, ram, ram');
    forall j | 0 <= j < |k'.cptds|
      ensures OnlyAt(s.tt, k'.cpts[j], k'.cptds[j])
      ensures Slot(s.tt, k'.cptds[j]) == Slot(k'.tt, k'.cptds[j]) && k'.cptds[j] !in s.cptds
    {
      assert ComesFrom(k, k', j, Origin(m, j));
      var i := Origin(m, j);
      assert OnlyAt(s.tt, k.cpts[i], k.cptds[i]);
      assert k.cptds[i] !in s.cptds && Slot(s.tt, k.cptds[i]) == Slot(k.tt, k.cptds[i]);
    }
    forall i | 0 <= i < |s.cpts| ensures Never(k'.tt, s.cpts[i]) {
      assert Never(k.tt, s.cpts[i]);
      forall a ensures !Refers(k'.tt, a, s.cpts[i]) {
        assert !Refers(k.tt, a, s.cpts[i]) && Slot(k'.tt, a) == Slot(k.tt, a);
      }
    }
    assert Bare(k', s);
  }

  lemma MigrateKeepsInv(vm: Vm, adr: Word, words: Table, pages: Word, blank: Word, vm': Vm)
    requires Inv(vm) && Legal(vm, Copy(adr, words, pages, blank))
    requires Migrate(vm, adr, words, pages, blank) == Done(vm')
    ensures Inv(vm')
  {
    MigrateKernelOk(vm, adr, words, pages, blank, vm');
    if vm.users != [] {
      CameBackReorders(vm, adr, words, pages, blank, vm');
      forall u | 0 <= u < |vm.users| ensures UserOk(vm'.kernel, vm.users[u], vm'.ram) {
        assert UserOk(vm.kernel, vm.users[u], vm.ram);
        ReorderedUserOk(vm.kernel, vm'.kernel, IndexOf(vm.kernel.cptds, SectionOf(adr)), vm.users[u], vm.ram, vm'.ram);
      }
    }
  }

  /** Below the migrated count the source table translates the section; the rest of it is unmapped. */
  lemma MigrateTranslates(vm: Vm, adr: Word, words: Table, pages: Word, blank: Word, vm': Vm, a: Word)
    requires Inv(vm) && IsBlank(blank, Freed(vm, adr))
    requires Migrate(vm, adr, words, pages, blank) == Done(vm')
    ensures Seen(vm', Kernel, a)
         == if SectionOf(a) != SectionOf(adr) then Seen(vm, Kernel, a)
            else if ReadIndex(a) < pages then ReadPage(Entry(words, ReadIndex(a)), a)
            else NULL
  {
    MigrateShape(vm, adr, words, pages, blank, vm');
    var k := Emptied(vm.kernel, SectionOf(adr));
    SectionTwice(adr);
    SlotOfSetSlot(k.tt, SectionOf(adr), NewCPTD(0, blank), a);
    if SectionOf(a) == SectionOf(adr) {
      MigratedWalk(Freed(vm, adr), words, pages, blank, a);
    } else {
      UnmigratedWalk(vm, adr, blank, FirstWords(words, pages), a);
    }
  }

  /** The tables in memory are those there were, without the one the section had and with the one it has now. */
  lemma MigrateFreesTable(vm: Vm, adr: Word, words: Table, pages: Word, blank: Word, vm': Vm)
    requires Migrate(vm, adr, words, pages, blank) == Done(vm')
    ensures vm'.ram.Keys == {K(blank)} + match KernelTable(vm, adr) case NULL => vm.ram.Keys case At(b) => vm.ram.Keys - {K(b)}
  {
  }

  /** A created space sees the same when the section keeps its table. */
  lemma MigrateTranslatesShared(vm: Vm, adr: Word, words: Table, pages: Word, blank: Word, vm': Vm, u: nat, a: Word)
    requires Inv(vm) && IsBlank(blank, Freed(vm, adr)) && CameBack(vm, adr, blank) && u < |vm.users|
    requires Migrate(vm, adr, words, pages, blank) == Done(vm')
    ensures Exists(vm', User(u))
    ensures Seen(vm', User(u), a)
         == if SectionOf(a) != SectionOf(adr) then Seen(vm, User(u), a)
            else if ReadIndex(a) < pages then ReadPage(Entry(words, ReadIndex(a)), a)
            else NULL
  {
    var i := IndexOf(vm.kernel.cptds, SectionOf(adr));
    KernelReached(vm, User(u), i, a);
    MigrateShape(vm, adr, words, pages, blank, vm');
    if SectionOf(a) == SectionOf(adr) {
      ListedRefers(vm.kernel, vm.ram, i, a);
      InheritsSlot(vm, User(u), i, a);
      MigratedWalk(Freed(vm, adr), words, pages, blank, a);
    } else {
      FreedAndBack(vm, adr, blank, FirstWords(words, pages));
      WalkElsewhere(Slot(vm.users[u].tt, a), vm.ram, blank, FirstWords(words, pages), a);
    }
  }

  lemma FreedAndBack(vm: Vm, adr: Word, blank: Word, t: Table)
    requires CameBack(vm, adr, blank)
    ensures Freed(vm, adr)[K(blank) := t] == vm.ram[K(blank) := t]
  {
  }

  lemma MigratedWalk(ram: Memory, words: Table, pages: Word, blank: Word, a: Word)
    requires IsBase(blank)
    ensures Walk(NewCPTD(0, blank), ram[K(blank) := FirstWords(words, pages)], a)
         == if ReadIndex(a) < pages then ReadPage(Entry(words, ReadIndex(a)), a) else NULL
  {
    OfBase(blank);
    ReadIndexIsSmall(a);
    FirstWordsEntry(words, pages, ReadIndex(a));
    CoarseOfPut(ram, blank, FirstWords(words, pages));
    NoPage(a);
  }

  lemma CoarseOfPut(ram: Memory, b: Word, t: Table)
    ensures Coarse(ram[K(b) := t], b) == t
  {
  }

  lemma NoPage(a: Word)
    ensures ReadPage(0, a) == NULL
  {
  }

  lemma ReadIndexIsSmall(a: Word)
    ensures ReadIndex(a) < 256
  {
  }

  lemma FirstWordsEntry(words: Table, pages: Word, k: Word)
    requires k < 256
    ensures Entry(FirstWords(words, pages), k) == if k < pages then Entry(words, k) else 0
  {
  }

  lemma UnmigratedWalk(vm: Vm, adr: Word, blank: Word, t: Table, a: Word)
    requires Inv(vm) && IsBlank(blank, Freed(vm, adr)) && SectionOf(a) != SectionOf(adr)
    ensures Slot(Emptied(vm.kernel, SectionOf(adr)).tt, a) == Slot(vm.kernel.tt, a)
    ensures Walk(Slot(vm.kernel.tt, a), Freed(vm, adr)[K(blank) := t], a) == Seen(vm, Kernel, a)
  {
    EmptiedSlot(vm, adr, a);
    EmptiedOk(vm, adr);
    KnownWalk(Emptied(vm.kernel, SectionOf(adr)).tt, Freed(vm, adr), blank, t, a);
    WalkFreed(Slot(vm.kernel.tt, a), vm, adr, a);
  }

  lemma EmptiedSlot(vm: Vm, adr: Word, a: Word)
    requires Inv(vm) && SectionOf(a) != SectionOf(adr)
    ensures Slot(Emptied(vm.kernel, SectionOf(adr)).tt, a) == Slot(vm.kernel.tt, a)
  {
    var i := IndexOf(vm.kernel.cptds, SectionOf(adr));
    if i < |vm.kernel.cptds| {
      assert Listed(vm.kernel, i, vm.ram);
      SlotOfSetSlot(vm.kernel.tt, vm.kernel.cptds[i], 0, a);
    }
  }

  lemma KnownWalk(tt: Table, ram: Memory, blank: Word, t: Table, a: Word)
    requires Known(tt, ram) && K(blank) !in ram
    ensures Walk(Slot(tt, a), ram[K(blank) := t], a) == Walk(Slot(tt, a), ram, a)
    ensures IsCoarse(Slot(tt, a)) ==> K(CoarseBase(Slot(tt, a))) in ram
  {
    BlankIsUnused(tt, ram, blank);
    assert !Refers(tt, a, blank);
    WalkElsewhere(Slot(tt, a), ram, blank, t, a);
  }

  lemma WalkFreed(d: Word, vm: Vm, adr: Word, a: Word)
    requires IsCoarse(d) ==> K(CoarseBase(d)) in Freed(vm, adr)
    ensures Walk(d, Freed(vm, adr), a) == Walk(d, vm.ram, a)
  {
  }

  // ----- runs

  lemma UserMapKeepsInv(vm: Vm, u: nat, page: Word, va: Word, blank: Word)
    requires Inv(vm) && Legal(vm, UserMap(u, page, va, blank))
    ensures MapUser(vm, u, page, va, blank).Done? && Inv(MapUser(vm, u, page, va, blank).vm)
  {
    assert UserOk(vm.kernel, vm.users[u], vm.ram);
    PutUserKeepsInv(vm, u, va, UserPage(page), blank, MapUser(vm, u, page, va, blank).vm);
  }

  /** No legal step panics, and every one keeps the invariant. */
  lemma StepKeepsInv(vm: Vm, e: Event)
    requires Inv(vm) && Legal(vm, e)
    ensures Step(vm, e).Done? && Inv(Step(vm, e).vm)
  {
    match e
    case MakeSpace => CreateKeepsInv(vm);
    case KernelMap(page, va, cached, blank) =>
      PutKernelKeepsInv(vm, va, KernelPage(cached, page), blank, Step(vm, e).vm);
    case UserMap(u, page, va, blank) =>
      UserMapKeepsInv(vm, u, page, va, blank);
    case Copy(adr, words, pages, blank) =>
      MigrateKeepsInv(vm, adr, words, pages, blank, Step(vm, e).vm);
  }

  predicate LegalRun(vm: Vm, es: seq<Event>)
    decreases |es|
  {
    es == [] || (Legal(vm, es[0]) && Step(vm, es[0]).Done? && LegalRun(Step(vm, es[0]).vm, es[1..]))
  }

  function Run(vm: Vm, es: seq<Event>): Vm
    requires LegalRun(vm, es)
    decreases |es|
  {
    if es == [] then vm else Run(Step(vm, es[0]).vm, es[1..])
  }

  lemma {:induction false} RunKeepsInv(vm: Vm, es: seq<Event>)
    requires Inv(vm) && LegalRun(vm, es)
    ensures Inv(Run(vm, es))
    decreases |es|
  {
    if es != [] {
      StepKeepsInv(vm, es[0]);
      RunKeepsInv(Step(vm, es[0]).vm, es[1..]);
    }
  }

  /** The kernel's space as it starts: the windows over the table found in place, and nothing listed. */
  lemma StartIsOk(found: Table, ram: Memory)
    requires Known(found, ram)
    ensures Inv(Vm(Space(Windows(found, 0), [], []), [], ram))
  {
    var tt := Windows(found, 0);
    forall a ensures IsCoarse(Slot(tt, a)) ==> K(CoarseBase(Slot(tt, a))) in ram {
      WindowsSlot(found, 0, a);
      CoarseIsNoSection(Slot(tt, a));
      assert IsCoarse(Slot(found, a)) ==> K(CoarseBase(Slot(found, a))) in ram;
    }
    forall a ensures IsFixed(a) ==> SectionAt(Slot(tt, a), FixedBase(a)) {
      WindowsSlot(found, 0, a);
    }
  }

  /** The kernel's space before the device sections are written: the window on RAM only. */
  function Boot(found: Table, ram: Memory): Vm {
    Vm(Space(RamWindow(found, 0, 64), [], []), [], ram)
  }

  /** What the kernel does to its own space before it maps the devices. */
  predicate Boots(es: seq<Event>) {
    forall i :: 0 <= i < |es| ==> es[i].KernelMap? || es[i].Copy?
  }

  /** The steps go through in turn. */
  predicate GoesThrough(vm: Vm, es: seq<Event>)
    decreases |es|
  {
    es == [] || (Step(vm, es[0]).Done? && GoesThrough(Step(vm, es[0]).vm, es[1..]))
  }

  function After(vm: Vm, es: seq<Event>): Vm
    requires GoesThrough(vm, es)
    decreases |es|
  {
    if es == [] then vm else After(Step(vm, es[0]).vm, es[1..])
  }

  /** Mapping the devices after the kernel's own sections comes to the same as mapping them first. */
  lemma DevicesComeLast(found: Table, ram: Memory, es: seq<Event>)
    requires Known(found, ram) && Boots(es) && LegalRun(MapDevices(Boot(found, ram)), es)
    ensures GoesThrough(Boot(found, ram), es)
    ensures MapDevices(After(Boot(found, ram), es)) == Run(MapDevices(Boot(found, ram)), es)
    ensures Inv(MapDevices(After(Boot(found, ram), es)))
  {
    StartIsOk(found, ram);
    DevicesCommute(Boot(found, ram), es);
    RunKeepsInv(MapDevices(Boot(found, ram)), es);
  }

  lemma {:induction false} DevicesCommute(vm: Vm, es: seq<Event>)
    requires vm.users == [] && Boots(es) && LegalRun(MapDevices(vm), es)
    ensures GoesThrough(vm, es) && MapDevices(After(vm, es)) == Run(MapDevices(vm), es)
    decreases |es|
  {
    if es != [] {
      StepCommutes(vm, es[0]);
      assert Boots(es[1..]);
      DevicesCommute(Step(vm, es[0]).vm, es[1..]);
    }
  }

  lemma StepCommutes(vm: Vm, e: Event)
    requires vm.users == [] && (e.KernelMap? || e.Copy?) && Legal(MapDevices(vm), e) && Step(MapDevices(vm), e).Done?
    ensures Step(vm, e).Done? && Step(vm, e).vm.users == []
    ensures Step(MapDevices(vm), e).vm == MapDevices(Step(vm, e).vm)
  {
    if e.KernelMap? {
      MapCommutes(vm, e.va, KernelPage(e.cached, e.page), e.blank);
    } else {
      CopyCommutes(vm, e.adr, e.words, e.pages, e.blank);
    }
  }

  lemma MapCommutes(vm: Vm, va: Word, d: Word, blank: Word)
    requires vm.users == [] && (SectionOf(va) in vm.kernel.cptds || !IsFixed(va))
    requires PutKernel(MapDevices(vm), va, d, blank).Done?
    ensures PutKernel(vm, va, d, blank).Done? && PutKernel(vm, va, d, blank).vm.users == []
    ensures PutKernel(MapDevices(vm), va, d, blank).vm == MapDevices(PutKernel(vm, va, d, blank).vm)
  {
    if SectionOf(va) !in vm.kernel.cptds { TakeCommutes(vm.kernel, va, blank); }
  }

  lemma CopyCommutes(vm: Vm, adr: Word, words: Table, pages: Word, blank: Word)
    requires vm.users == [] && !IsFixed(adr) && Migrate(MapDevices(vm), adr, words, pages, blank).Done?
    ensures Migrate(vm, adr, words, pages, blank).Done? && Migrate(vm, adr, words, pages, blank).vm.users == []
    ensures Migrate(MapDevices(vm), adr, words, pages, blank).vm == MapDevices(Migrate(vm, adr, words, pages, blank).vm)
  {
    TakeCommutes(Unlisted(vm.kernel, SectionOf(adr)), adr, blank);
  }

  lemma TakeCommutes(k: Space, a: Word, blank: Word)
    requires !IsFixed(a)
    ensures TakeSection(WithDevices(k), SectionOf(a), blank) == WithDevices(TakeSection(k, SectionOf(a), blank))
  {
    SetThenDevices(k.tt, a, NewCPTD(0, blank));
  }

  lemma SetThenDevices(tt: Table, a: Word, d: Word)
    requires !IsFixed(a)
    ensures IoWindow(SetSlot(tt, SectionOf(a), d)) == SetSlot(IoWindow(tt), SectionOf(a), d)
  {
    NotADevice(a);
  }

  lemma NotADevice(a: Word)
    requires !IsFixed(a)
    ensures SectionOf(a) >> 20 != 0xe900_0000 >> 20 && SectionOf(a) >> 20 != 0xe910_0000 >> 20
    ensures SectionOf(a) >> 20 != 0xe920_0000 >> 20 && SectionOf(a) >> 20 != 0xe930_0000 >> 20
    ensures SectionOf(a) >> 20 != 0xe940_0000 >> 20
  {
  }

  /** The tables a space lists are in memory, and so is every table its entries lead to. */
  lemma TablesAreThere(vm: Vm, w: Who, s: Space)
    requires Inv(vm) && Exists(vm, w) && s == (match w case Kernel => vm.kernel case User(u) => vm.users[u])
    ensures |s.cptds| == |s.cpts| && forall i :: 0 <= i < |s.cpts| ==> K(s.cpts[i]) in vm.ram
    ensures forall a :: IsCoarse(Slot(s.tt, a)) ==> K(CoarseBase(Slot(s.tt, a))) in vm.ram
  {
    if w.User? { assert UserOk(vm.kernel, s, vm.ram); }
    ListedInMemory(s, vm.ram);
    assert Known(s.tt, vm.ram);
  }

  // ----- sharing

  /** A fixed address is the same everywhere. */
  lemma FixedEverywhere(vm: Vm, w: Who, a: Word)
    requires Inv(vm) && Exists(vm, w) && IsFixed(a)
    ensures Seen(vm, w, a) == At(FixedBase(a) + WithinSection(a))
  {
    FixedIn(vm, w);
    FixedWalk(TableOf(vm, w), vm.ram, a);
  }

  lemma FixedIn(vm: Vm, w: Who)
    requires Inv(vm) && Exists(vm, w)
    ensures Fixed(TableOf(vm, w))
  {
    if w.User? { assert UserOk(vm.kernel, vm.users[w.u], vm.ram); }
  }

  lemma FixedWalk(tt: Table, ram: Memory, a: Word)
    requires Fixed(tt) && IsFixed(a)
    ensures Translate(tt, ram, a) == At(FixedBase(a) + WithinSection(a))
  {
    assert SectionAt(Slot(tt, a), FixedBase(a));
    WalkSection(Slot(tt, a), FixedBase(a), ram, a);
  }

  /** The window shows RAM, in every space and at every address. */
  lemma WindowShowsRam(vm: Vm, w: Who, a: Word)
    requires Inv(vm) && Exists(vm, w) && 0xec00_0000 <= a < 0xf000_0000
    ensures Seen(vm, w, a) == At(a - 0xec00_0000 + 0x1000_0000)
  {
    FixedEverywhere(vm, w, a);
    WindowAddress(a);
  }

  /** A fixed address is as far behind its base as it is behind the start of its section. */
  lemma FixedResolves(vm: Vm, w: Who, a: Word, base: Word, off: Word)
    requires Inv(vm) && Exists(vm, w) && IsFixed(a) && base == FixedBase(a) && off == a - SectionOf(a)
    ensures Seen(vm, w, a) == At(base + off)
  {
    FixedEverywhere(vm, w, a);
    OffsetInSection(a);
  }

  /** The five device sections show the devices, in every space. */
  lemma DevicesAreShown(vm: Vm, w: Who, n: nat, a: Word, off: Word)
    requires Inv(vm) && Exists(vm, w) && n < 5
    requires SectionOf(a) == [0xe900_0000, 0xe910_0000, 0xe920_0000, 0xe930_0000, 0xe940_0000][n]
    requires off == a - SectionOf(a)
    ensures Seen(vm, w, a) == At([0x9000_0000, 0xb000_0000, 0xc000_0000, 0xdc00_0000, 0xc400_0000][n] + off)
  {
    DeviceBase(n, a);
    FixedResolves(vm, w, a, [0x9000_0000, 0xb000_0000, 0xc000_0000, 0xdc00_0000, 0xc400_0000][n], off);
  }

  lemma DeviceBase(n: nat, a: Word)
    requires n < 5 && SectionOf(a) == [0xe900_0000, 0xe910_0000, 0xe920_0000, 0xe930_0000, 0xe940_0000][n]
    ensures IsFixed(a) && FixedBase(a) == [0x9000_0000, 0xb000_0000, 0xc000_0000, 0xdc00_0000, 0xc400_0000][n]
  {
    IoSections(a);
  }

  lemma OffsetInSection(a: Word)
    ensures a - SectionOf(a) == WithinSection(a)
  {
  }

  /** The fixed sections belong to domain 0 and to the kernel alone, in every space. */
  lemma FixedIsPrivileged(vm: Vm, w: Who, a: Word)
    requires Inv(vm) && Exists(vm, w) && IsFixed(a)
    ensures var d := Slot(TableOf(vm, w), a); IsSection(d) && Domain(d) == 0 && Access(d) == 1
  {
    FixedIn(vm, w);
    assert SectionAt(Slot(TableOf(vm, w), a), FixedBase(a));
  }

  lemma WalkSection(d: Word, base: Word, ram: Memory, a: Word)
    requires SectionAt(d, base)
    ensures Walk(d, ram, a) == At(base + WithinSection(a))
  {
  }

  lemma WindowAddress(a: Word)
    ensures SectionOf(a) - 0xec00_0000 + 0x1000_0000 + WithinSection(a) == a - 0xec00_0000 + 0x1000_0000
  {
  }

  /** Every address of a kernel section, and every fixed address, resolves alike in every space. */
  lemma KernelIsShared(vm: Vm, u: nat, a: Word)
    requires Inv(vm) && u < |vm.users| && (SectionOf(a) in vm.kernel.cptds || IsFixed(a))
    ensures Seen(vm, User(u), a) == Seen(vm, Kernel, a)
  {
    if IsFixed(a) {
      FixedEverywhere(vm, User(u), a);
      FixedEverywhere(vm, Kernel, a);
    } else {
      InheritsSlot(vm, User(u), IndexOf(vm.kernel.cptds, SectionOf(a)), a);
    }
  }

  /** A space sees its own sections, the kernel's and the fixed ones, and nothing else. */
  lemma NothingElseIsMapped(vm: Vm, u: nat, a: Word)
    requires Inv(vm) && u < |vm.users| && !IsFixed(a)
    requires SectionOf(a) !in vm.users[u].cptds && SectionOf(a) !in vm.kernel.cptds
    ensures Seen(vm, User(u), a) == NULL
  {
    assert UserOk(vm.kernel, vm.users[u], vm.ram);
    assert IsInvalid(Slot(vm.users[u].tt, a));
  }

  /** The kernel's coarse table of an address is found exactly in a listed section, and the entry leads to it. */
  lemma KernelTableIs(vm: Vm, a: Word)
    requires Inv(vm)
    ensures KernelTable(vm, a) == NULL <==> SectionOf(a) !in vm.kernel.cptds
    ensures forall b :: KernelTable(vm, a) == At(b) ==> Refers(vm.kernel.tt, a, b)
    ensures forall b, c :: KernelTable(vm, a) == At(b) && Refers(vm.kernel.tt, c, b) ==> SectionOf(c) == SectionOf(a)
  {
    var i := IndexOf(vm.kernel.cptds, SectionOf(a));
    if i < |vm.kernel.cptds| {
      ListedRefers(vm.kernel, vm.ram, i, a);
      assert OnlyAt(vm.kernel.tt, vm.kernel.cpts[i], vm.kernel.cptds[i]);
    }
  }
}
