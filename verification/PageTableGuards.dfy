/**
 * The guards the code leaves to its callers. Each step of the virtual memory manager is taken here from any state
 * in the invariant, with nothing asked but a table to list a new section with; what it breaks is stated exactly.
 */
module PageTableGuards {
  import opened Descriptors
  import opened PageTables
  import opened PageTableMaps
  import opened PageTableSteps
  import opened PageTableRuns

  /** Kernel sections and fixed sections have the same entries in every space. */
  ghost predicate Shares(vm: Vm) {
    && Fixed(vm.kernel.tt)
    && forall u :: 0 <= u < |vm.users| ==> Inherits(vm.kernel, vm.users[u].tt) && Fixed(vm.users[u].tt)
  }

  lemma InvShares(vm: Vm)
    requires Inv(vm)
    ensures Shares(vm)
  {
    forall u | 0 <= u < |vm.users| ensures Inherits(vm.kernel, vm.users[u].tt) && Fixed(vm.users[u].tt) {
      assert UserOk(vm.kernel, vm.users[u], vm.ram);
    }
  }

  /** A coarse table put into a fixed section takes it out of the fixed ones. */
  lemma FixedIsLost(tt: Table, va: Word, blank: Word)
    requires IsFixed(va)
    ensures !Fixed(Took(tt, SectionOf(va), blank))
  {
    SectionTwice(va);
    SlotOfSetSlot(tt, SectionOf(va), NewCPTD(0, blank), va);
    ReadCPTD(0, blank);
    CoarseIsNoSection(NewCPTD(0, blank));
    assert !SectionAt(Slot(Took(tt, SectionOf(va), blank), va), FixedBase(va));
  }

  // ----- kernel pages

  /** A listed section is safe to map in; another one exactly when it is neither fixed nor some space's own. */
  lemma KernelMapKeepsInvExactlyWhen(vm: Vm, va: Word, d: Word, blank: Word, vm': Vm)
    requires Inv(vm) && Ready(vm.kernel, va, blank, vm.ram) && PutKernel(vm, va, d, blank) == Done(vm')
    ensures Inv(vm') <==> KernelMay(vm, va)
  {
    if KernelMay(vm, va) {
      PutKernelKeepsInv(vm, va, d, blank, vm');
    } else {
      KernelTakenShape(vm, va, d, blank, vm');
      if IsFixed(va) {
        FixedIsLost(vm.kernel.tt, va, blank);
      } else {
        var u :| 0 <= u < |vm.users| && SectionOf(va) in vm.users[u].cptds;
        assert vm'.kernel.cptds[0] in vm'.users[u].cptds;
        assert !UserOk(vm'.kernel, vm'.users[u], vm'.ram);
      }
    }
  }

  /** Sharing survives a kernel page exactly when it does not go into a fixed section. */
  lemma KernelMapSharesExactlyWhen(vm: Vm, va: Word, d: Word, blank: Word, vm': Vm)
    requires Inv(vm) && Ready(vm.kernel, va, blank, vm.ram) && PutKernel(vm, va, d, blank) == Done(vm')
    ensures Shares(vm') <==> !IsFixed(va)
  {
    InvShares(vm);
    if SectionOf(va) in vm.kernel.cptds {
      KernelListedIs(vm, va, d, blank, vm', IndexOf(vm.kernel.cptds, SectionOf(va)), Kernel);
      ListedIsNotFixed(vm.kernel, vm.ram, va);
    } else {
      KernelTakenShape(vm, va, d, blank, vm');
      if IsFixed(va) {
        FixedIsLost(vm.kernel.tt, va, blank);
      } else {
        TakenShares(vm, va, blank, vm');
      }
    }
  }

  lemma TakenShares(vm: Vm, va: Word, blank: Word, vm': Vm)
    requires Inv(vm) && Shares(vm) && !IsFixed(va) && |vm'.users| == |vm.users|
    requires vm'.kernel == TakeSection(vm.kernel, SectionOf(va), blank)
    requires forall u :: 0 <= u < |vm.users| ==>
      vm'.users[u] == vm.users[u].(tt := Took(vm.users[u].tt, SectionOf(va), blank))
    ensures Shares(vm')
  {
    SectionIsPlain(va);
    TookFixed(vm.kernel.tt, SectionOf(va), blank);
    forall u | 0 <= u < |vm.users| ensures Inherits(vm'.kernel, vm'.users[u].tt) && Fixed(vm'.users[u].tt) {
      TookFixed(vm.users[u].tt, SectionOf(va), blank);
      KernelTakesInherits(vm.kernel, vm.users[u], vm.ram, SectionOf(va), blank);
    }
  }

  /** In every space an address off the page is lost exactly when it was mapped in the same, unlisted section. */
  lemma KernelMapLosesExactly(vm: Vm, page: Word, va: Word, cached: bool, blank: Word, vm': Vm, w: Who, a: Word)
    requires Inv(vm) && page & 0xfff == 0 && Ready(vm.kernel, va, blank, vm.ram) && Exists(vm, w) && !SamePage(a, va)
    requires MapKernel(vm, page, va, cached, blank) == Done(vm')
    ensures Exists(vm', w)
    ensures Seen(vm', w, a) != Seen(vm, w, a) <==> Loses(vm, w, va, a)
  {
    KernelMapTranslates(vm, page, va, cached, blank, vm', w, a);
  }

  /**
   * A space keeps every address off the page when the section is listed by the kernel, or is neither fixed nor its
   * own; in a fixed section it always loses some; in one of its own it loses what else it had there.
   */
  lemma SpaceKeepsTheRestExactlyWhen(vm: Vm, page: Word, va: Word, cached: bool, blank: Word, vm': Vm, u: nat)
    requires Inv(vm) && page & 0xfff == 0 && Ready(vm.kernel, va, blank, vm.ram) && u < |vm.users|
    requires MapKernel(vm, page, va, cached, blank) == Done(vm')
    ensures Exists(vm', User(u))
    ensures (forall a :: !SamePage(a, va) ==> Seen(vm', User(u), a) == Seen(vm, User(u), a))
        <==> SectionOf(va) in vm.kernel.cptds || (!IsFixed(va) && OnlyPage(vm, u, va))
  {
    KernelMapTranslates(vm, page, va, cached, blank, vm', User(u), va);
    forall a | !SamePage(a, va) ensures (Seen(vm', User(u), a) != Seen(vm, User(u), a)) == Loses(vm, User(u), va, a) {
      KernelMapLosesExactly(vm, page, va, cached, blank, vm', User(u), a);
    }
    LosesNothing(vm, u, va);
  }

  /** The address lies in the same, unlisted section and is mapped. */
  predicate Loses(vm: Vm, w: Who, va: Word, a: Word)
    requires Exists(vm, w)
  {
    SectionOf(va) !in vm.kernel.cptds && SectionOf(a) == SectionOf(va) && Seen(vm, w, a) != NULL
  }

  lemma LosesNothing(vm: Vm, u: nat, va: Word)
    requires Inv(vm) && u < |vm.users|
    ensures (forall a :: !SamePage(a, va) ==> !Loses(vm, User(u), va, a))
        <==> SectionOf(va) in vm.kernel.cptds || (!IsFixed(va) && OnlyPage(vm, u, va))
  {
    if IsFixed(va) {
      FixedHasMore(vm, u, va);
      assert Loses(vm, User(u), va, va ^ 0x1000);
    } else if SectionOf(va) !in vm.kernel.cptds && SectionOf(va) !in vm.users[u].cptds {
      forall a ensures !Loses(vm, User(u), va, a) {
        if SectionOf(a) == SectionOf(va) {
          FixedBySection(a, va);
          NothingElseIsMapped(vm, u, a);
        }
      }
    } else if SectionOf(va) !in vm.kernel.cptds {
      OwnSectionLoses(vm, u, va);
    }
  }

  lemma OwnSectionLoses(vm: Vm, u: nat, va: Word)
    requires u < |vm.users| && SectionOf(va) !in vm.kernel.cptds && SectionOf(va) in vm.users[u].cptds
    ensures (forall a :: !SamePage(a, va) ==> !Loses(vm, User(u), va, a)) <==> OnlyPage(vm, u, va)
  {
    if forall a :: !SamePage(a, va) ==> !Loses(vm, User(u), va, a) {
      forall a | SectionOf(a) == SectionOf(va) && !SamePage(a, va) ensures Seen(vm, User(u), a) == NULL {
        assert !Loses(vm, User(u), va, a);
      }
    }
  }

  /** A space has nothing in a section but, at most, one page: so in every section that is not its own. */
  ghost predicate OnlyPage(vm: Vm, u: nat, va: Word)
    requires u < |vm.users|
  {
    SectionOf(va) in vm.users[u].cptds ==>
      forall a :: SectionOf(a) == SectionOf(va) && !SamePage(a, va) ==> Seen(vm, User(u), a) == NULL
  }

  lemma FixedHasMore(vm: Vm, u: nat, va: Word)
    requires Inv(vm) && u < |vm.users| && IsFixed(va)
    ensures SectionOf(va) !in vm.kernel.cptds
    ensures SectionOf(va ^ 0x1000) == SectionOf(va) && !SamePage(va ^ 0x1000, va)
    ensures Seen(vm, User(u), va ^ 0x1000) != NULL
  {
    NextPage(va);
    FixedBySection(va, va ^ 0x1000);
    FixedEverywhere(vm, User(u), va ^ 0x1000);
    if SectionOf(va) in vm.kernel.cptds { ListedIsNotFixed(vm.kernel, vm.ram, va); }
  }

  lemma NextPage(va: Word)
    ensures SectionOf(va ^ 0x1000) == SectionOf(va) && !SamePage(va ^ 0x1000, va)
  {
  }

  // ----- user pages

  /** A section is a space's own to map in exactly when it is neither fixed nor the kernel's. */
  lemma UserMapKeepsInvExactlyWhen(vm: Vm, u: nat, va: Word, d: Word, blank: Word, vm': Vm)
    requires Inv(vm) && u < |vm.users| && Ready(vm.users[u], va, blank, vm.ram)
    requires PutUser(vm, u, va, d, blank) == Done(vm')
    ensures Inv(vm') <==> UserMay(vm, va)
  {
    if UserMay(vm, va) {
      PutUserKeepsInv(vm, u, va, d, blank, vm');
    } else {
      UserMapSharesExactlyWhen(vm, u, va, d, blank, vm');
      if Inv(vm') { InvShares(vm'); }
    }
  }

  /**
   * A user page takes its section out of sharing exactly when the section is the kernel's or a fixed one: the space
   * gets a table of its own there. The code has no guard against either.
   */
  lemma UserMapSharesExactlyWhen(vm: Vm, u: nat, va: Word, d: Word, blank: Word, vm': Vm)
    requires Inv(vm) && u < |vm.users| && Ready(vm.users[u], va, blank, vm.ram)
    requires PutUser(vm, u, va, d, blank) == Done(vm')
    ensures Shares(vm') <==> UserMay(vm, va)
  {
    InvShares(vm);
    assert UserOk(vm.kernel, vm.users[u], vm.ram);
    if SectionOf(va) in vm.users[u].cptds {
      OwnSectionIsFree(vm, u, va);
      UserListedIs(vm, u, va, d, blank, vm');
    } else {
      UserTakenIs(vm, u, va, d, blank, vm');
      OthersShare(vm, u, va, blank, vm');
      UserTakenShares(vm, u, va, blank);
    }
  }

  lemma UserListedIs(vm: Vm, u: nat, va: Word, d: Word, blank: Word, vm': Vm)
    requires u < |vm.users| && SectionOf(va) in vm.users[u].cptds && PutUser(vm, u, va, d, blank) == Done(vm')
    ensures vm'.kernel == vm.kernel && vm'.users == vm.users
  {
  }

  lemma UserTakenIs(vm: Vm, u: nat, va: Word, d: Word, blank: Word, vm': Vm)
    requires u < |vm.users| && SectionOf(va) !in vm.users[u].cptds && PutUser(vm, u, va, d, blank) == Done(vm')
    ensures vm'.kernel == vm.kernel
    ensures vm'.users == vm.users[u := TakeSection(vm.users[u], SectionOf(va), blank)]
  {
  }

  lemma OthersShare(vm: Vm, u: nat, va: Word, blank: Word, vm': Vm)
    requires Shares(vm) && u < |vm.users| && vm'.kernel == vm.kernel
    requires vm'.users == vm.users[u := TakeSection(vm.users[u], SectionOf(va), blank)]
    ensures var tt := Took(vm.users[u].tt, SectionOf(va), blank);
            Shares(vm') <==> Inherits(vm.kernel, tt) && Fixed(tt)
  {
    assert vm'.users[u].tt == Took(vm.users[u].tt, SectionOf(va), blank);
    forall v | 0 <= v < |vm.users| && v != u ensures vm'.users[v] == vm.users[v] {
    }
  }

  lemma OwnSectionIsFree(vm: Vm, u: nat, va: Word)
    requires Inv(vm) && u < |vm.users| && SectionOf(va) in vm.users[u].cptds
    ensures UserMay(vm, va)
  {
    var s := vm.users[u];
    assert UserOk(vm.kernel, s, vm.ram);
    ListedIsNotFixed(s, vm.ram, va);
    if SectionOf(va) in vm.kernel.cptds {
      assert false;
    }
  }

  lemma KernelSectionIsLost(vm: Vm, u: nat, va: Word, blank: Word)
    requires Inv(vm) && u < |vm.users| && SectionOf(va) in vm.kernel.cptds && IsBlank(blank, vm.ram)
    ensures !Inherits(vm.kernel, Took(vm.users[u].tt, SectionOf(va), blank))
  {
    var i := IndexOf(vm.kernel.cptds, SectionOf(va));
    assert Listed(vm.kernel, i, vm.ram);
    SlotOfSetSlot(vm.users[u].tt, SectionOf(va), NewCPTD(0, blank), vm.kernel.cptds[i]);
    OfBase(blank);
    OfBase(vm.kernel.cpts[i]);
    assert Slot(Took(vm.users[u].tt, SectionOf(va), blank), vm.kernel.cptds[i]) != Slot(vm.kernel.tt, vm.kernel.cptds[i]);
  }

  lemma UserTakenShares(vm: Vm, u: nat, va: Word, blank: Word)
    requires Inv(vm) && Shares(vm) && u < |vm.users| && IsBlank(blank, vm.ram)
    ensures var tt := Took(vm.users[u].tt, SectionOf(va), blank);
            Inherits(vm.kernel, tt) && Fixed(tt) <==> UserMay(vm, va)
  {
    if IsFixed(va) {
      FixedIsLost(vm.users[u].tt, va, blank);
    } else if SectionOf(va) in vm.kernel.cptds {
      KernelSectionIsLost(vm, u, va, blank);
    } else {
      SectionIsPlain(va);
      TookFixed(vm.users[u].tt, SectionOf(va), blank);
      UserTakesInherits(vm.kernel, vm.users[u], vm.ram, SectionOf(va), blank);
    }
  }

  // ----- migration

  /**
   * Migration writes the kernel's entry and no other. It keeps the sharing exactly when the section is not fixed and
   * there is no other space, or the table handed out is the one just given back.
   */
  lemma MigrateSharesExactlyWhen(vm: Vm, adr: Word, words: Table, pages: Word, blank: Word, vm': Vm)
    requires Inv(vm) && IsBlank(blank, Freed(vm, adr)) && Migrate(vm, adr, words, pages, blank) == Done(vm')
    ensures Shares(vm') <==> MigrateMay(vm, adr, blank)
  {
    if MigrateMay(vm, adr, blank) {
      MigrateKeepsInv(vm, adr, words, pages, blank, vm');
      InvShares(vm');
    } else {
      MigrateLosesSharing(vm, adr, words, pages, blank, vm');
    }
  }

  lemma MigrateLosesSharing(vm: Vm, adr: Word, words: Table, pages: Word, blank: Word, vm': Vm)
    requires Inv(vm) && IsBlank(blank, Freed(vm, adr)) && Migrate(vm, adr, words, pages, blank) == Done(vm')
    requires !MigrateMay(vm, adr, blank)
    ensures !Shares(vm')
  {
    if IsFixed(adr) {
      MigratedFixedIsLost(vm, adr, words, pages, blank, vm');
    } else {
      NewTableIsNotShared(vm, adr, words, pages, blank, vm');
    }
  }

  lemma MigratedFixedIsLost(vm: Vm, adr: Word, words: Table, pages: Word, blank: Word, vm': Vm)
    requires Inv(vm) && IsFixed(adr) && Migrate(vm, adr, words, pages, blank) == Done(vm')
    ensures !Fixed(vm'.kernel.tt)
  {
    MigrateShape(vm, adr, words, pages, blank, vm');
    FixedIsLost(Emptied(vm.kernel, SectionOf(adr)).tt, adr, blank);
  }

  lemma NewTableIsNotShared(vm: Vm, adr: Word, words: Table, pages: Word, blank: Word, vm': Vm)
    requires Inv(vm) && IsBlank(blank, Freed(vm, adr)) && Migrate(vm, adr, words, pages, blank) == Done(vm')
    requires vm.users != [] && !CameBack(vm, adr, blank)
    ensures vm'.users == vm.users && !Inherits(vm'.kernel, vm.users[0].tt)
  {
    var s := vm.users[0];
    assert UserOk(vm.kernel, s, vm.ram);
    MigrateShape(vm, adr, words, pages, blank, vm');
    assert K(blank) !in vm.ram;
    BlankIsUnused(s.tt, vm.ram, blank);
    SectionTwice(adr);
    SlotOfSetSlot(Emptied(vm.kernel, SectionOf(adr)).tt, SectionOf(adr), NewCPTD(0, blank), SectionOf(adr));
    OfBase(blank);
    assert !Refers(s.tt, SectionOf(adr), blank);
    assert vm'.kernel.cptds[0] == SectionOf(adr);
  }

  /** And so the invariant. */
  lemma MigrateKeepsInvExactlyWhen(vm: Vm, adr: Word, words: Table, pages: Word, blank: Word, vm': Vm)
    requires Inv(vm) && IsBlank(blank, Freed(vm, adr)) && Migrate(vm, adr, words, pages, blank) == Done(vm')
    ensures Inv(vm') <==> MigrateMay(vm, adr, blank)
  {
    if MigrateMay(vm, adr, blank) {
      MigrateKeepsInv(vm, adr, words, pages, blank, vm');
    } else {
      MigrateLosesSharing(vm, adr, words, pages, blank, vm');
      if Inv(vm') { InvShares(vm'); }
    }
  }
}
