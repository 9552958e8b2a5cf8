/** Every step keeps the invariant of the spaces. */
module PageTableSteps {
  import opened Descriptors
  import opened PageTables
  import opened PageTableMaps

  // ----- a section taken

  ghost predicate Wider(ram: Memory, ram': Memory) {
    forall k :: k in ram ==> k in ram'
  }

  /** A table in which a section has been given a coarse table. */
  function Took(tt: Table, section: Word, blank: Word): Table {
    SetSlot(tt, section, NewCPTD(0, blank))
  }

  lemma TookRefers(tt: Table, section: Word, blank: Word, a: Word, b: Word)
    requires IsBase(blank)
    ensures Refers(Took(tt, section, blank), a, b)
        <==> if SectionOf(a) == SectionOf(section) then b == blank else Refers(tt, a, b)
  {
    SlotOfSetSlot(tt, section, NewCPTD(0, blank), a);
    OfBase(blank);
  }

  lemma TookOnlyAt(tt: Table, section: Word, blank: Word, base: Word, at: Word)
    requires IsBase(blank) && base != blank && OnlyAt(tt, base, at)
    ensures OnlyAt(Took(tt, section, blank), base, at)
  {
    forall a ensures Refers(Took(tt, section, blank), a, base) ==> SectionOf(a) == at {
      TookRefers(tt, section, blank, a, base);
    }
  }

  lemma TookNever(tt: Table, section: Word, blank: Word, base: Word)
    requires IsBase(blank) && base != blank && Never(tt, base)
    ensures Never(Took(tt, section, blank), base)
  {
    forall a ensures !Refers(Took(tt, section, blank), a, base) {
      TookRefers(tt, section, blank, a, base);
    }
  }

  lemma TookItself(tt: Table, section: Word, blank: Word)
    requires IsBase(blank) && Never(tt, blank) && SectionOf(section) == section
    ensures OnlyAt(Took(tt, section, blank), blank, section)
  {
    forall a ensures Refers(Took(tt, section, blank), a, blank) ==> SectionOf(a) == section {
      TookRefers(tt, section, blank, a, blank);
    }
  }

  lemma TookKnown(tt: Table, section: Word, blank: Word, ram: Memory, ram': Memory)
    requires IsBase(blank) && Known(tt, ram) && Wider(ram, ram') && K(blank) in ram'
    ensures Known(Took(tt, section, blank), ram')
  {
    var tt' := Took(tt, section, blank);
    forall a ensures IsCoarse(Slot(tt', a)) ==> K(CoarseBase(Slot(tt', a))) in ram' {
      SlotOfSetSlot(tt, section, NewCPTD(0, blank), a);
      OfBase(blank);
      assert IsCoarse(Slot(tt, a)) ==> K(CoarseBase(Slot(tt, a))) in ram;
    }
  }

  lemma TookFixed(tt: Table, section: Word, blank: Word)
    requires Fixed(tt) && !IsFixed(section)
    ensures Fixed(Took(tt, section, blank))
  {
    forall a ensures IsFixed(a) ==> SectionAt(Slot(Took(tt, section, blank), a), FixedBase(a)) {
      if IsFixed(a) {
        SlotOfSetSlot(tt, section, NewCPTD(0, blank), a);
        if SectionOf(a) == SectionOf(section) { FixedBySection(a, section); }
      }
    }
  }

  /** Entries listed by a space survive while another section is taken. */
  lemma TookLists(s: Space, ram: Memory, ram': Memory, section: Word, blank: Word)
    requires Lists(s, ram) && Wider(ram, ram')
    requires SectionOf(section) == section && section !in s.cptds
    ensures Lists(s.(tt := Took(s.tt, section, blank)), ram')
  {
    var s' := s.(tt := Took(s.tt, section, blank));
    forall i | 0 <= i < |s.cptds| ensures Listed(s', i, ram') {
      assert Listed(s, i, ram);
      SlotOfSetSlot(s.tt, section, NewCPTD(0, blank), s.cptds[i]);
    }
  }

  lemma TakenLists(s: Space, ram: Memory, ram': Memory, section: Word, blank: Word)
    requires Lists(s, ram) && Wider(ram, ram') && K(blank) in ram' && IsBase(blank)
    requires SectionOf(section) == section && section !in s.cptds
    ensures Lists(TakeSection(s, section, blank), ram')
  {
    var t := s.(tt := Took(s.tt, section, blank));
    var s' := TakeSection(s, section, blank);
    TookLists(s, ram, ram', section, blank);
    SlotOfSetSlot(s.tt, section, NewCPTD(0, blank), section);
    forall i | 0 <= i < |s'.cptds| ensures Listed(s', i, ram') {
      if i > 0 { assert Listed(t, i - 1, ram'); }
    }
  }

  lemma ListsWider(s: Space, ram: Memory, ram': Memory)
    requires Lists(s, ram) && Wider(ram, ram')
    ensures Lists(s, ram')
  {
    forall i | 0 <= i < |s.cptds| ensures Listed(s, i, ram') {
      assert Listed(s, i, ram);
    }
  }

  lemma ListedInMemory(s: Space, ram: Memory)
    requires Lists(s, ram)
    ensures forall i :: 0 <= i < |s.cpts| ==> K(s.cpts[i]) in ram
  {
    forall i | 0 <= i < |s.cpts| ensures K(s.cpts[i]) in ram {
      assert Listed(s, i, ram);
    }
  }

  lemma TookOwns(s: Space, tt: Table, ram: Memory, section: Word, blank: Word)
    requires Lists(s, ram) && Owns(s, tt) && IsBlank(blank, ram)
    ensures Owns(s, Took(tt, section, blank))
  {
    ListedInMemory(s, ram);
    forall i | 0 <= i < |s.cpts| ensures OnlyAt(Took(tt, section, blank), s.cpts[i], s.cptds[i]) {
      TookOnlyAt(tt, section, blank, s.cpts[i], s.cptds[i]);
    }
  }

  lemma TakenOwns(s: Space, tt: Table, ram: Memory, section: Word, blank: Word)
    requires Lists(s, ram) && Owns(s, tt) && IsBlank(blank, ram) && Never(tt, blank) && SectionOf(section) == section
    ensures Owns(TakeSection(s, section, blank), Took(tt, section, blank))
  {
    var s' := TakeSection(s, section, blank);
    TookOwns(s, tt, ram, section, blank);
    TookItself(tt, section, blank);
    forall i | 0 <= i < |s'.cpts| ensures OnlyAt(Took(tt, section, blank), s'.cpts[i], s'.cptds[i]) {
      if i > 0 { assert OnlyAt(Took(tt, section, blank), s.cpts[i - 1], s.cptds[i - 1]); }
    }
  }

  lemma TookForeign(s: Space, tt: Table, ram: Memory, section: Word, blank: Word)
    requires Lists(s, ram) && Foreign(s, tt) && IsBlank(blank, ram)
    ensures Foreign(s, Took(tt, section, blank))
  {
    ListedInMemory(s, ram);
    forall i | 0 <= i < |s.cpts| ensures Never(Took(tt, section, blank), s.cpts[i]) {
      TookNever(tt, section, blank, s.cpts[i]);
    }
  }

  lemma ForeignTaken(s: Space, tt: Table, section: Word, blank: Word)
    requires Foreign(s, tt) && Never(tt, blank)
    ensures Foreign(TakeSection(s, section, blank), tt)
  {
    var s' := TakeSection(s, section, blank);
    forall i | 0 <= i < |s'.cpts| ensures Never(tt, s'.cpts[i]) {
      if i > 0 { assert Never(tt, s.cpts[i - 1]); }
    }
  }

  // ----- a page in a listed section

  lemma WiderKeepsInv(vm: Vm, ram': Memory)
    requires Inv(vm) && Wider(vm.ram, ram')
    ensures Inv(vm.(ram := ram'))
  {
    ListsWider(vm.kernel, vm.ram, ram');
    KnownWider(vm.kernel.tt, vm.ram, ram');
    forall u | 0 <= u < |vm.users| ensures UserOk(vm.kernel, vm.users[u], ram') {
      assert UserOk(vm.kernel, vm.users[u], vm.ram);
      ListsWider(vm.users[u], vm.ram, ram');
      KnownWider(vm.users[u].tt, vm.ram, ram');
    }
  }

  lemma KnownWider(tt: Table, ram: Memory, ram': Memory)
    requires Known(tt, ram) && Wider(ram, ram')
    ensures Known(tt, ram')
  {
    forall a ensures IsCoarse(Slot(tt, a)) ==> K(CoarseBase(Slot(tt, a))) in ram' {
      assert IsCoarse(Slot(tt, a)) ==> K(CoarseBase(Slot(tt, a))) in ram;
    }
  }

  // ----- the kernel takes a section

  /** A user space once the kernel has taken a section and shared its entry. */
  lemma KernelTakesUser(k: Space, s: Space, ram: Memory, ram': Memory, section: Word, blank: Word)
    requires KernelOk(k, ram) && UserOk(k, s, ram) && Wider(ram, ram') && K(blank) in ram' && IsBlank(blank, ram)
    requires SectionOf(section) == section && section !in k.cptds && section !in s.cptds && !IsFixed(section)
    ensures UserOk(TakeSection(k, section, blank), s.(tt := Took(s.tt, section, blank)), ram')
  {
    var k' := TakeSection(k, section, blank);
    var s' := s.(tt := Took(s.tt, section, blank));
    BlankIsUnused(s.tt, ram, blank);
    TookLists(s, ram, ram', section, blank);
    TookKnown(s.tt, section, blank, ram, ram');
    TookOwns(s, s.tt, ram, section, blank);
    TookFixed(s.tt, section, blank);
    TakenOwns(k, s.tt, ram, section, blank);
    TookForeign(s, k.tt, ram, section, blank);
    KernelTakesInherits(k, s, ram, section, blank);
    KernelTakesBare(k, s, section, blank);
    assert Apart(k', s') by {
      forall i | 0 <= i < |k'.cptds| ensures k'.cptds[i] !in s'.cptds {
        if i > 0 { assert k.cptds[i - 1] !in s.cptds; }
      }
    }
  }

  lemma KernelTakesInherits(k: Space, s: Space, ram: Memory, section: Word, blank: Word)
    requires Lists(k, ram) && Inherits(k, s.tt) && SectionOf(section) == section
    ensures Inherits(TakeSection(k, section, blank), Took(s.tt, section, blank))
  {
    var k' := TakeSection(k, section, blank);
    forall i | 0 <= i < |k'.cptds|
      ensures Slot(Took(s.tt, section, blank), k'.cptds[i]) == Slot(k'.tt, k'.cptds[i])
    {
      SlotOfSetSlot(s.tt, section, NewCPTD(0, blank), k'.cptds[i]);
      SlotOfSetSlot(k.tt, section, NewCPTD(0, blank), k'.cptds[i]);
      if i > 0 { assert Slot(s.tt, k.cptds[i - 1]) == Slot(k.tt, k.cptds[i - 1]); }
    }
  }

  lemma KernelTakesBare(k: Space, s: Space, section: Word, blank: Word)
    requires Bare(k, s) && SectionOf(section) == section
    ensures Bare(TakeSection(k, section, blank), s.(tt := Took(s.tt, section, blank)))
  {
    var tt' := Took(s.tt, section, blank);
    forall a | !IsInvalid(Slot(tt', a))
      ensures IsFixed(a) || SectionOf(a) in s.cptds || SectionOf(a) in [section] + k.cptds
    {
      SlotOfSetSlot(s.tt, section, NewCPTD(0, blank), a);
    }
  }

  lemma KernelTakesKernel(k: Space, ram: Memory, ram': Memory, section: Word, blank: Word)
    requires KernelOk(k, ram) && Wider(ram, ram') && K(blank) in ram' && IsBlank(blank, ram)
    requires SectionOf(section) == section && section !in k.cptds && !IsFixed(section)
    ensures KernelOk(TakeSection(k, section, blank), ram')
  {
    BlankIsUnused(k.tt, ram, blank);
    TakenLists(k, ram, ram', section, blank);
    TookKnown(k.tt, section, blank, ram, ram');
    TookFixed(k.tt, section, blank);
    TakenOwns(k, k.tt, ram, section, blank);
  }

  // ----- a user takes a section

  lemma UserTakes(k: Space, s: Space, ram: Memory, ram': Memory, section: Word, blank: Word)
    requires KernelOk(k, ram) && UserOk(k, s, ram) && Wider(ram, ram') && K(blank) in ram' && IsBlank(blank, ram)
    requires SectionOf(section) == section && section !in k.cptds && section !in s.cptds && !IsFixed(section)
    ensures UserOk(k, TakeSection(s, section, blank), ram')
  {
    var s' := TakeSection(s, section, blank);
    BlankIsUnused(s.tt, ram, blank);
    BlankIsUnused(k.tt, ram, blank);
    TakenLists(s, ram, ram', section, blank);
    TookKnown(s.tt, section, blank, ram, ram');
    TakenOwns(s, s.tt, ram, section, blank);
    TookFixed(s.tt, section, blank);
    TookOwns(k, s.tt, ram, section, blank);
    ForeignTaken(s, k.tt, section, blank);
    UserTakesInherits(k, s, ram, section, blank);
    UserTakesBare(k, s, section, blank);
    assert Apart(k, s') by {
      forall i | 0 <= i < |k.cptds| ensures k.cptds[i] !in s'.cptds {
        assert k.cptds[i] !in s.cptds && k.cptds[i] in k.cptds;
      }
    }
  }

  lemma UserTakesInherits(k: Space, s: Space, ram: Memory, section: Word, blank: Word)
    requires Lists(k, ram) && Inherits(k, s.tt) && SectionOf(section) == section && section !in k.cptds
    ensures Inherits(k, Took(s.tt, section, blank))
  {
    forall i | 0 <= i < |k.cptds| ensures Slot(Took(s.tt, section, blank), k.cptds[i]) == Slot(k.tt, k.cptds[i]) {
      assert Listed(k, i, ram);
      SlotOfSetSlot(s.tt, section, NewCPTD(0, blank), k.cptds[i]);
    }
  }

  lemma UserTakesBare(k: Space, s: Space, section: Word, blank: Word)
    requires Bare(k, s) && SectionOf(section) == section
    ensures Bare(k, TakeSection(s, section, blank))
  {
    var tt' := Took(s.tt, section, blank);
    forall a | !IsInvalid(Slot(tt', a))
      ensures IsFixed(a) || SectionOf(a) in [section] + s.cptds || SectionOf(a) in k.cptds
    {
      SlotOfSetSlot(s.tt, section, NewCPTD(0, blank), a);
    }
  }

  // ----- whole steps

  lemma SectionIsPlain(va: Word)
    requires !IsFixed(va)
    ensures SectionOf(SectionOf(va)) == SectionOf(va) && !IsFixed(SectionOf(va))
  {
    SectionTwice(va);
    FixedBySection(va, SectionOf(va));
  }

  lemma PutKernelKeepsInv(vm: Vm, va: Word, d: Word, blank: Word, vm': Vm)
    requires Inv(vm) && Ready(vm.kernel, va, blank, vm.ram) && KernelMay(vm, va) && PutKernel(vm, va, d, blank) == Done(vm')
    ensures Inv(vm')
  {
    if SectionOf(va) in vm.kernel.cptds {
      KernelListedIs(vm, va, d, blank, vm', IndexOf(vm.kernel.cptds, SectionOf(va)), Kernel);
      WiderKeepsInv(vm, vm'.ram);
    } else {
      KernelTakenKeepsInv(vm, va, d, blank, vm');
    }
  }

  lemma KernelTakenShape(vm: Vm, va: Word, d: Word, blank: Word, vm': Vm)
    requires SectionOf(va) !in vm.kernel.cptds && PutKernel(vm, va, d, blank) == Done(vm')
    ensures vm'.kernel == TakeSection(vm.kernel, SectionOf(va), blank)
    ensures |vm'.users| == |vm.users|
    ensures forall u :: 0 <= u < |vm.users| ==>
      vm'.users[u] == vm.users[u].(tt := Took(vm.users[u].tt, SectionOf(va), blank))
    ensures Wider(vm.ram, vm'.ram) && K(blank) in vm'.ram
  {
    SlotOfSetSlot(vm.kernel.tt, SectionOf(va), NewCPTD(0, blank), SectionOf(va));
  }

  lemma KernelTakenKeepsInv(vm: Vm, va: Word, d: Word, blank: Word, vm': Vm)
    requires Inv(vm) && Ready(vm.kernel, va, blank, vm.ram) && KernelMay(vm, va) && PutKernel(vm, va, d, blank) == Done(vm')
    requires SectionOf(va) !in vm.kernel.cptds
    ensures Inv(vm')
  {
    var section := SectionOf(va);
    KernelTakenShape(vm, va, d, blank, vm');
    SectionIsPlain(va);
    KernelTakesKernel(vm.kernel, vm.ram, vm'.ram, section, blank);
    forall u | 0 <= u < |vm.users| ensures UserOk(vm'.kernel, vm'.users[u], vm'.ram) {
      assert UserOk(vm.kernel, vm.users[u], vm.ram);
      KernelTakesUser(vm.kernel, vm.users[u], vm.ram, vm'.ram, section, blank);
    }
    forall u, v | 0 <= u < |vm.users| && 0 <= v < |vm.users| && u != v
      ensures Foreign(vm'.users[u], vm'.users[v].tt)
    {
      assert UserOk(vm.kernel, vm.users[u], vm.ram);
      TookForeign(vm.users[u], vm.users[v].tt, vm.ram, section, blank);
    }
  }

  lemma PutUserKeepsInv(vm: Vm, u: nat, va: Word, d: Word, blank: Word, vm': Vm)
    requires Inv(vm) && u < |vm.users| && Ready(vm.users[u], va, blank, vm.ram) && UserMay(vm, va)
    requires PutUser(vm, u, va, d, blank) == Done(vm')
    ensures Inv(vm')
  {
    if SectionOf(va) in vm.users[u].cptds {
      WiderKeepsInv(vm, vm'.ram);
    } else {
      UserTakenKeepsInv(vm, u, va, blank, vm'.ram);
    }
  }

  lemma UserTakenKeepsInv(vm: Vm, u: nat, va: Word, blank: Word, ram': Memory)
    requires Inv(vm) && u < |vm.users| && Ready(vm.users[u], va, blank, vm.ram) && UserMay(vm, va)
    requires SectionOf(va) !in vm.users[u].cptds
    requires Wider(vm.ram, ram') && K(blank) in ram'
    ensures Inv(Vm(vm.kernel, vm.users[u := TakeSection(vm.users[u], SectionOf(va), blank)], ram'))
  {
    var section := SectionOf(va);
    var s' := TakeSection(vm.users[u], section, blank);
    var users := vm.users[u := s'];
    SectionIsPlain(va);
    WiderKeepsInv(vm, ram');
    assert UserOk(vm.kernel, vm.users[u], vm.ram);
    UserTakes(vm.kernel, vm.users[u], vm.ram, ram', section, blank);
    forall v | 0 <= v < |users| ensures UserOk(vm.kernel, users[v], ram') {
      if v != u { assert UserOk(vm.kernel, vm.users[v], ram'); }
    }
    forall v, w | 0 <= v < |users| && 0 <= w < |users| && v != w ensures Foreign(users[v], users[w].tt) {
      assert UserOk(vm.kernel, vm.users[v], vm.ram) && UserOk(vm.kernel, vm.users[w], vm.ram);
      if v == u {
        BlankIsUnused(vm.users[w].tt, vm.ram, blank);
        ForeignTaken(vm.users[u], vm.users[w].tt, section, blank);
      } else if w == u {
        TookForeign(vm.users[v], vm.users[u].tt, vm.ram, section, blank);
      }
    }
  }

  // ----- a new space

  predicate InWindow(a: Word, n: Word) {
    (SectionOf(a) - 0xec00_0000) >> 20 < n
  }

  lemma {:induction false} RamWindowSlot(tt: Table, cb: Word, n: Word, a: Word)
    requires n <= 64
    ensures Slot(RamWindow(tt, cb, n), a)
         == if InWindow(a, n) then NewSD(cb, cb, 0, 1, SectionOf(a) - 0xec00_0000 + 0x1000_0000) else Slot(tt, a)
  {
    if n != 0 {
      RamWindowSlot(tt, cb, n - 1, a);
      SlotOfSetSlot(RamWindow(tt, cb, n - 1), WindowSection(n - 1), NewSD(cb, cb, 0, 1, WindowBase(n - 1)), a);
      WindowNext(n, a);
    }
  }

  lemma WindowNext(n: Word, a: Word)
    requires 0 < n <= 64
    ensures InWindow(a, n) <==> InWindow(a, n - 1) || SectionOf(a) == SectionOf(WindowSection(n - 1))
    ensures SectionOf(a) == SectionOf(WindowSection(n - 1)) ==>
      WindowBase(n - 1) == SectionOf(a) - 0xec00_0000 + 0x1000_0000
  {
  }

  lemma WindowIs(a: Word)
    ensures InWindow(a, 64) <==> 0xec00_0000 <= a < 0xf000_0000
  {
  }

  lemma FixedBySection(a: Word, b: Word)
    requires SectionOf(a) == SectionOf(b)
    ensures IsFixed(a) <==> IsFixed(b)
    ensures IsFixed(a) ==> FixedBase(a) == FixedBase(b)
  {
  }

  predicate IsIo(a: Word) {
    0xe900_0000 <= a < 0xe950_0000
  }

  lemma IoWindowSlot(tt: Table, a: Word)
    ensures Slot(IoWindow(tt), a) == if IsIo(a) then NewSD(0, 0, 0, 1, FixedBase(a)) else Slot(tt, a)
  {
    var t1 := SetSlot(tt, 0xe900_0000, NewSD(0, 0, 0, 1, 0x9000_0000));
    var t2 := SetSlot(t1, 0xe910_0000, NewSD(0, 0, 0, 1, 0xb000_0000));
    var t3 := SetSlot(t2, 0xe920_0000, NewSD(0, 0, 0, 1, 0xc000_0000));
    var t4 := SetSlot(t3, 0xe930_0000, NewSD(0, 0, 0, 1, 0xdc00_0000));
    SlotOfSetSlot(tt, 0xe900_0000, NewSD(0, 0, 0, 1, 0x9000_0000), a);
    SlotOfSetSlot(t1, 0xe910_0000, NewSD(0, 0, 0, 1, 0xb000_0000), a);
    SlotOfSetSlot(t2, 0xe920_0000, NewSD(0, 0, 0, 1, 0xc000_0000), a);
    SlotOfSetSlot(t3, 0xe930_0000, NewSD(0, 0, 0, 1, 0xdc00_0000), a);
    SlotOfSetSlot(t4, 0xe940_0000, NewSD(0, 0, 0, 1, 0xc400_0000), a);
    IoSections(a);
  }

  lemma IoSections(a: Word)
    ensures SectionOf(a) == SectionOf(0xe900_0000) <==> 0xe900_0000 <= a < 0xe910_0000
    ensures SectionOf(a) == SectionOf(0xe910_0000) <==> 0xe910_0000 <= a < 0xe920_0000
    ensures SectionOf(a) == SectionOf(0xe920_0000) <==> 0xe920_0000 <= a < 0xe930_0000
    ensures SectionOf(a) == SectionOf(0xe930_0000) <==> 0xe930_0000 <= a < 0xe940_0000
    ensures SectionOf(a) == SectionOf(0xe940_0000) <==> 0xe940_0000 <= a < 0xe950_0000
  {
  }

  lemma WindowsSlot(tt: Table, cb: Word, a: Word)
    ensures IsFixed(a) ==> SectionAt(Slot(Windows(tt, cb), a), FixedBase(a))
    ensures !IsFixed(a) ==> Slot(Windows(tt, cb), a) == Slot(tt, a)
  {
    IoWindowSlot(RamWindow(tt, cb, 64), a);
    RamWindowSlot(tt, cb, 64, a);
    WindowIs(a);
    FixedWord(0, FixedBase(a), a);
    FixedWord(cb, FixedBase(a), a);
  }

  lemma FixedWord(cb: Word, base: Word, a: Word)
    requires base == FixedBase(a)
    ensures IsFixed(a) ==> SectionAt(NewSD(cb, cb, 0, 1, base), base)
  {
    ReadSD(cb, cb, 0, 1, base);
    SectionFlags(cb, base);
    if IsFixed(a) { FixedBaseAligned(a); }
  }

  lemma SectionFlags(cb: Word, base: Word)
    ensures Domain(NewSD(cb, cb, 0, 1, base)) == 0 && Access(NewSD(cb, cb, 0, 1, base)) == 1
  {
  }

  /** The window is cached and buffered in the spaces that ask for it; the device sections never are. */
  lemma WindowsFlags(tt: Table, cb: Word, a: Word)
    requires cb <= 1 && IsFixed(a)
    ensures var d := Slot(Windows(tt, cb), a); Cacheable(d) == Bufferable(d) == if IsIo(a) then 0 else cb
  {
    IoWindowSlot(RamWindow(tt, cb, 64), a);
    RamWindowSlot(tt, cb, 64, a);
    WindowIs(a);
    SDFlags(cb, cb, 0, 1, SectionOf(a) - 0xec00_0000 + 0x1000_0000);
    SDFlags(0, 0, 0, 1, FixedBase(a));
  }

  lemma FixedBaseAligned(a: Word)
    ensures FixedBase(a) & 0xfff0_0000 == FixedBase(a)
  {
  }

  lemma {:induction false} CopySectionsSlot(tt: Table, ktt: Table, cptds: seq<Word>, n: nat, a: Word)
    requires n <= |cptds|
    requires forall i :: 0 <= i < |cptds| ==> SectionOf(cptds[i]) == cptds[i]
    ensures Slot(CopySections(tt, ktt, cptds, n), a) == if SectionOf(a) in cptds[..n] then Slot(ktt, a) else Slot(tt, a)
  {
    if n != 0 {
      CopySectionsSlot(tt, ktt, cptds, n - 1, a);
      SlotOfSetSlot(CopySections(tt, ktt, cptds, n - 1), cptds[n - 1], Slot(ktt, cptds[n - 1]), a);
      assert cptds[..n] == cptds[..n - 1] + [cptds[n - 1]];
      if SectionOf(a) == cptds[n - 1] { SameSlot(ktt, a, cptds[n - 1]); }
    }
  }

  /** A new space has the kernel's entry in the kernel's sections, the fixed sections, and nothing else. */
  lemma NewSpaceSlot(k: Space, ram: Memory, a: Word)
    requires Lists(k, ram)
    ensures SectionOf(a) in k.cptds ==> Slot(NewSpace(k).tt, a) == Slot(k.tt, a)
    ensures SectionOf(a) !in k.cptds && IsFixed(a) ==> SectionAt(Slot(NewSpace(k).tt, a), FixedBase(a))
    ensures SectionOf(a) !in k.cptds && !IsFixed(a) ==> Slot(NewSpace(k).tt, a) == 0
  {
    forall i | 0 <= i < |k.cptds| ensures SectionOf(k.cptds[i]) == k.cptds[i] {
      assert Listed(k, i, ram);
    }
    CopySectionsSlot(Windows(map[], 1), k.tt, k.cptds, |k.cptds|, a);
    assert k.cptds[..|k.cptds|] == k.cptds;
    WindowsSlot(map[], 1, a);
  }

  /** A new space caches and buffers the window on RAM, where the kernel's own space does not. */
  lemma NewWindowIsCached(k: Space, ram: Memory, a: Word)
    requires KernelOk(k, ram) && 0xec00_0000 <= a < 0xf000_0000
    ensures Slot(NewSpace(k).tt, a) == NewSD(1, 1, 0, 1, SectionOf(a) - 0xec00_0000 + 0x1000_0000)
    ensures forall found :: Slot(RamWindow(found, 0, 64), a) == NewSD(0, 0, 0, 1, SectionOf(a) - 0xec00_0000 + 0x1000_0000)
  {
    if SectionOf(a) in k.cptds { ListedIsNotFixed(k, ram, a); }
    NewSpaceElsewhere(k, ram, a);
    WindowIs(a);
    IoWindowSlot(RamWindow(map[], 1, 64), a);
    RamWindowSlot(map[], 1, 64, a);
    forall found ensures Slot(RamWindow(found, 0, 64), a) == NewSD(0, 0, 0, 1, SectionOf(a) - 0xec00_0000 + 0x1000_0000) {
      RamWindowSlot(found, 0, 64, a);
    }
  }

  lemma NewSpaceElsewhere(k: Space, ram: Memory, a: Word)
    requires Lists(k, ram) && SectionOf(a) !in k.cptds
    ensures Slot(NewSpace(k).tt, a) == Slot(Windows(map[], 1), a)
  {
    forall i | 0 <= i < |k.cptds| ensures SectionOf(k.cptds[i]) == k.cptds[i] {
      assert Listed(k, i, ram);
    }
    CopySectionsSlot(Windows(map[], 1), k.tt, k.cptds, |k.cptds|, a);
    assert k.cptds[..|k.cptds|] == k.cptds;
  }

  /** No listed section is a fixed one. */
  lemma ListedIsNotFixed(k: Space, ram: Memory, a: Word)
    requires Lists(k, ram) && Fixed(k.tt) && SectionOf(a) in k.cptds
    ensures !IsFixed(a)
  {
    var i := IndexOf(k.cptds, SectionOf(a));
    ListedRefers(k, ram, i, a);
    CoarseIsNoSection(Slot(k.tt, a));
  }

  lemma CoarseIsNoSection(d: Word)
    ensures !(IsCoarse(d) && IsSection(d)) && !(IsCoarse(d) && IsInvalid(d)) && !(IsSection(d) && IsInvalid(d))
  {
  }

  lemma NewSpaceOk(k: Space, ram: Memory)
    requires KernelOk(k, ram)
    ensures UserOk(k, NewSpace(k), ram)
  {
    var s := NewSpace(k);
    assert Known(s.tt, ram) by {
      forall a ensures IsCoarse(Slot(s.tt, a)) ==> K(CoarseBase(Slot(s.tt, a))) in ram {
        NewSpaceCoarse(k, ram, a);
        assert IsCoarse(Slot(k.tt, a)) ==> K(CoarseBase(Slot(k.tt, a))) in ram;
      }
    }
    assert Fixed(s.tt) by {
      forall a ensures IsFixed(a) ==> SectionAt(Slot(s.tt, a), FixedBase(a)) {
        NewSpaceSlot(k, ram, a);
        assert IsFixed(a) ==> SectionAt(Slot(k.tt, a), FixedBase(a));
      }
    }
    forall i | 0 <= i < |k.cpts| ensures OnlyAt(s.tt, k.cpts[i], k.cptds[i]) {
      NewSpaceOnlyAt(k, ram, k.cpts[i], k.cptds[i]);
    }
    forall i | 0 <= i < |k.cptds| ensures Slot(s.tt, k.cptds[i]) == Slot(k.tt, k.cptds[i]) {
      assert Listed(k, i, ram);
      NewSpaceSlot(k, ram, k.cptds[i]);
    }
    forall a | !IsInvalid(Slot(s.tt, a)) ensures IsFixed(a) || SectionOf(a) in k.cptds {
      NewSpaceSlot(k, ram, a);
    }
  }

  lemma NewSpaceCoarse(k: Space, ram: Memory, a: Word)
    requires KernelOk(k, ram)
    ensures IsCoarse(Slot(NewSpace(k).tt, a)) ==> Slot(NewSpace(k).tt, a) == Slot(k.tt, a)
  {
    NewSpaceSlot(k, ram, a);
    CoarseIsNoSection(Slot(NewSpace(k).tt, a));
  }

  lemma NewSpaceOnlyAt(k: Space, ram: Memory, base: Word, section: Word)
    requires KernelOk(k, ram) && OnlyAt(k.tt, base, section)
    ensures OnlyAt(NewSpace(k).tt, base, section)
  {
    forall a ensures Refers(NewSpace(k).tt, a, base) ==> SectionOf(a) == section {
      NewSpaceCoarse(k, ram, a);
      assert Refers(k.tt, a, base) ==> SectionOf(a) == section;
    }
  }

  lemma NewSpaceNever(k: Space, ram: Memory, base: Word)
    requires KernelOk(k, ram) && Never(k.tt, base)
    ensures Never(NewSpace(k).tt, base)
  {
    forall a ensures !Refers(NewSpace(k).tt, a, base) {
      NewSpaceCoarse(k, ram, a);
      assert !Refers(k.tt, a, base);
    }
  }

  lemma CreateKeepsInv(vm: Vm)
    requires Inv(vm)
    ensures Inv(CreateSpace(vm))
  {
    var s := NewSpace(vm.kernel);
    NewSpaceOk(vm.kernel, vm.ram);
    forall u | 0 <= u < |vm.users| ensures Foreign(vm.users[u], s.tt) {
      NewSpaceForeign(vm, u);
    }
    FirstUser(vm, s);
  }

  lemma FirstUser(vm: Vm, s: Space)
    requires Inv(vm) && UserOk(vm.kernel, s, vm.ram) && s.cpts == []
    requires forall u :: 0 <= u < |vm.users| ==> Foreign(vm.users[u], s.tt)
    ensures Inv(vm.(users := [s] + vm.users))
  {
    var users := [s] + vm.users;
    forall u | 0 <= u < |users| ensures UserOk(vm.kernel, users[u], vm.ram) {
      if u > 0 { assert UserOk(vm.kernel, vm.users[u - 1], vm.ram); }
    }
    forall u, v | 0 <= u < |users| && 0 <= v < |users| && u != v ensures Foreign(users[u], users[v].tt) {
      if u > 0 && v > 0 {
        assert Foreign(vm.users[u - 1], vm.users[v - 1].tt);
      } else if u > 0 {
        assert Foreign(vm.users[u - 1], s.tt);
      }
    }
  }

  lemma NewSpaceForeign(vm: Vm, u: nat)
    requires Inv(vm) && u < |vm.users|
    ensures Foreign(vm.users[u], NewSpace(vm.kernel).tt)
  {
    var s := vm.users[u];
    assert UserOk(vm.kernel, s, vm.ram);
    forall i | 0 <= i < |s.cpts| ensures Never(NewSpace(vm.kernel).tt, s.cpts[i]) {
      NewSpaceNever(vm.kernel, vm.ram, s.cpts[i]);
    }
  }
}
