/** The virtual memory manager as the kernel keeps it: arrays and lists changed in place. */
module VirtualMM {
  import opened Sequences
  import opened Descriptors
  import opened PageTables
  import opened AddressSpaces
  import L = LinkedLists

  // ----- tables of words

  /** An array holds the words of a table. */
  ghost predicate Holds(a: array<Word>, n: nat, t: Table)
    reads a
  {
    a.Length == n && forall k: Word :: HoldsAt(a, n, t, k)
  }

  ghost predicate HoldsAt(a: array<Word>, n: nat, t: Table, k: Word)
    requires a.Length == n
    reads a
  {
    k as int < n ==> a[k as int] == Entry(t, k)
  }

  method PutWord(a: array<Word>, n: nat, ghost t: Table, k: Word, d: Word)
    requires Holds(a, n, t) && k as int < n
    modifies a
    ensures Holds(a, n, t[K(k) := d])
  {
    a[k as int] := d;
    ghost var t' := t[K(k) := d];
    forall j: Word ensures HoldsAt(a, n, t', j) {
      assert old(HoldsAt(a, n, t, j));
      SameInt(j, k);
      EntryOfPut(t, k, d, j);
    }
  }

  method GetWord(a: array<Word>, n: nat, ghost t: Table, k: Word) returns (d: Word)
    requires Holds(a, n, t) && k as int < n
    ensures d == Entry(t, k)
  {
    assert HoldsAt(a, n, t, k);
    d := a[k as int];
  }

  method Clear(a: array<Word>)
    modifies a
    ensures Holds(a, a.Length, map[])
  {
    for i := 0 to a.Length
      invariant forall j :: 0 <= j < i ==> a[j] == 0
    {
      a[i] := 0;
    }
  }

  lemma SlotInTable(adr: Word)
    ensures (adr >> 20) as int < 4096
  {
    assert SectionNumber(adr) < 4096;
  }

  lemma PageInTable(adr: Word)
    ensures ReadIndex(adr) as int < 256
  {
    assert PageNumber(adr) < 256;
  }

  lemma WriteInTable(adr: Word)
    ensures TableIndex(adr) as int < 256
  {
    PageInTable(adr);
    IndicesAgree(adr);
  }

  lemma NextWord(i: Word)
    requires i < 64
    ensures i + 1 <= 64 && i + 1 != 0 && i + 1 - 1 == i
  {
  }

  // ----- spaces

  /** The first-level table and the two lists of a space. */
  ghost predicate Is(s: AddressSpace, m: Space)
    reads s, s.tt
  {
    Holds(s.tt, 4096, m.tt) && s.sections == m.cptds && s.bases == m.cpts
  }

  /** Which table an array is: a first-level table, counted from the kernel's, or the coarse table of a base. */
  datatype Tag = First(n: nat) | Second(base: Key)

  /** What is left of the tags once the table of a base is given back. */
  ghost function Disowned(owner: map<array<Word>, Tag>, k: Key): map<array<Word>, Tag> {
    map a | a in owner && owner[a] != Second(k) :: owner[a]
  }

  class VirtualMemory {
    var kernel: AddressSpace
    var spaces: seq<AddressSpace>
    var tables: map<Key, array<Word>>
    ghost var model: Vm
    ghost var owner: map<array<Word>, Tag>

    ghost function Repr(): set<object>
      reads this
    {
      {this, kernel} + (set s | s in spaces) + owner.Keys
    }

    ghost predicate IsSpace(s: AddressSpace, m: Space, n: nat)
      reads this, s, s.tt
    {
      s.tt in owner && owner[s.tt] == First(n) && Is(s, m)
    }

    ghost predicate IsTable(k: Key)
      requires k in tables && k in model.ram
      reads this, tables[k]
    {
      tables[k] in owner && owner[tables[k]] == Second(k) && Holds(tables[k], 256, model.ram[k])
    }

    /** The arrays and lists are what the model says, and no two tables share an array. */
    ghost predicate Valid()
      reads this, Repr(), kernel.tt, set s <- spaces :: s.tt
      reads set k <- tables :: tables[k]
    {
      && IsSpace(kernel, model.kernel, 0)
      && |spaces| == |model.users|
      && (forall u :: 0 <= u < |spaces| ==> IsSpace(spaces[u], model.users[u], |spaces| - u))
      && tables.Keys == model.ram.Keys
      && (forall k :: k in tables ==> IsTable(k))
    }

    /** No array changes, whatever becomes of the lists. */
    twostate lemma ArraysStay()
      requires old(Valid()) && owner == old(owner) && unchanged(old(owner.Keys))
      requires tables == old(tables) && model.ram == old(model.ram) && kernel == old(kernel) && spaces == old(spaces)
      requires kernel.tt == old(kernel.tt) && forall s :: s in spaces ==> s.tt == old(s.tt)
      ensures HoldsFor(kernel, old(model.kernel.tt), 0)
      ensures forall u :: 0 <= u < |spaces| ==> HoldsFor(spaces[u], old(model.users[u].tt), |spaces| - u)
      ensures forall k :: k in tables ==> IsTable(k)
    {
      assert old(IsSpace(kernel, model.kernel, 0));
      forall u | 0 <= u < |spaces| ensures HoldsFor(spaces[u], old(model.users[u].tt), |spaces| - u) {
        assert spaces[u] in spaces && old(IsSpace(spaces[u], model.users[u], |spaces| - u));
      }
      forall k | k in tables ensures IsTable(k) {
        assert old(k in tables) && old(IsTable(k));
      }
    }

    ghost predicate HoldsFor(s: AddressSpace, tt: Table, n: nat)
      reads this`owner, s, s.tt
    {
      s.tt in owner && owner[s.tt] == First(n) && Holds(s.tt, 4096, tt)
    }

    /** Takes over the table found in place and the coarse tables it leads to, with the window on RAM. */
    constructor (tt: array<Word>, ghost found: Table, tables: map<Key, array<Word>>,
                 ghost ram: Memory, ghost owner: map<array<Word>, Tag>)
      requires Holds(tt, 4096, found) && tt in owner && owner[tt] == First(0)
      requires tables.Keys == ram.Keys
      requires forall k :: k in tables ==>
        tables[k] in owner && owner[tables[k]] == Second(k) && Holds(tables[k], 256, ram[k])
      modifies owner.Keys
      ensures Valid() && model == Vm(Space(RamWindow(found, 0, 64), [], []), [], ram)
      ensures Repr() == {this, kernel} + owner.Keys && fresh(kernel) && kernel.Linked()
    {
      kernel := new AddressSpace(tt);
      spaces := [];
      this.tables := tables;
      this.owner := owner;
      model := Vm(Space(found, [], []), [], ram);
      new;
      var i: Word := 0;
      while i < 64
        invariant i <= 64 && Valid() && this.owner == owner
        invariant spaces == [] && fresh(kernel) && kernel.Linked()
        invariant model == Vm(Space(RamWindow(found, 0, i), [], []), [], ram)
      {
        SetKernelSlot(WindowSection(i), NewSD(0, 0, 0, 1, WindowBase(i)));
        NextWord(i);
        i := i + 1;
      }
    }

    /** The device sections, once the kernel has migrated its own. */
    method MapDevices()
      requires Valid()
      modifies this`model, owner.Keys
      ensures Valid() && model == PageTables.MapDevices(old(model))
    {
      SetKernelSlot(0xe900_0000, NewSD(0, 0, 0, 1, 0x9000_0000));
      SetKernelSlot(0xe910_0000, NewSD(0, 0, 0, 1, 0xb000_0000));
      SetKernelSlot(0xe920_0000, NewSD(0, 0, 0, 1, 0xc000_0000));
      SetKernelSlot(0xe930_0000, NewSD(0, 0, 0, 1, 0xdc00_0000));
      SetKernelSlot(0xe940_0000, NewSD(0, 0, 0, 1, 0xc400_0000));
    }

    method WritePage(base: Word, va: Word, d: Word)
      requires Valid() && K(base) in model.ram
      modifies this`model, owner.Keys
      ensures Valid() && model == old(model).(ram := SetPage(old(model.ram), base, TableIndex(va), d))
    {
      WriteInTable(va);
      PutWord(tables[K(base)], 256, model.ram[K(base)], TableIndex(va), d);
      model := model.(ram := SetPage(model.ram, base, TableIndex(va), d));
    }

    method SetKernelSlot(adr: Word, d: Word)
      requires Valid()
      modifies this`model, owner.Keys
      ensures Valid() && model == old(model).(kernel := old(model.kernel).(tt := SetSlot(old(model.kernel.tt), adr, d)))
    {
      SlotInTable(adr);
      PutWord(kernel.tt, 4096, model.kernel.tt, adr >> 20, d);
      model := model.(kernel := model.kernel.(tt := SetSlot(model.kernel.tt, adr, d)));
    }

    method SetUserSlot(s: AddressSpace, ghost u: nat, adr: Word, d: Word)
      requires Valid() && IsUser(s, u)
      modifies this`model, owner.Keys
      ensures Valid()
      ensures model == old(model).(users := old(model.users)[u :=
        old(model.users[u]).(tt := SetSlot(old(model.users[u].tt), adr, d))])
    {
      SlotInTable(adr);
      PutWord(s.tt, 4096, model.users[u].tt, adr >> 20, d);
      model := model.(users := model.users[u := model.users[u].(tt := SetSlot(model.users[u].tt, adr, d))]);
    }

    /** A coarse table just handed out, cleared. */
    method NewTable(blank: Word, table: array<Word>)
      requires Valid() && table !in owner && table.Length == 256 && K(blank) !in model.ram
      modifies this`model, this`owner, this`tables, table
      ensures Valid() && owner == old(owner)[table := Second(K(blank))]
      ensures model == old(model).(ram := old(model.ram)[K(blank) := map[]])
    {
      Clear(table);
      InsertTable(blank, table, map[]);
    }

    method InsertTable(blank: Word, table: array<Word>, ghost t: Table)
      requires Valid() && table !in owner && Holds(table, 256, t) && K(blank) !in model.ram
      modifies this`model, this`owner, this`tables
      ensures Valid() && owner == old(owner)[table := Second(K(blank))]
      ensures model == old(model).(ram := old(model.ram)[K(blank) := t])
    {
      tables := tables[K(blank) := table];
      owner := owner[table := Second(K(blank))];
      model := model.(ram := model.ram[K(blank) := t]);
      forall k | k in tables ensures IsTable(k) {
        if k != K(blank) { assert old(IsTable(k)); }
      }
    }

    /** Both kernel lists grow at the head, and the section gets its descriptor. */
    method TakeKernelSection(section: Word, blank: Word)
      requires Valid() && kernel.Linked()
      modifies this`model, kernel`sections, kernel`bases, kernel.cptds, kernel.cpts, owner.Keys
      ensures Valid() && kernel.Linked()
      ensures model == old(model).(kernel := TakeSection(old(model.kernel), section, blank))
    {
      ghost var tt := model.kernel.tt;
      SetKernelSlot(section, NewCPTD(0, blank));
      ListKernelSection(section, blank, tt);
    }

    method ListKernelSection(section: Word, blank: Word, ghost tt: Table)
      requires Valid() && kernel.Linked() && model.kernel.tt == SetSlot(tt, section, NewCPTD(0, blank))
      modifies this`model, kernel`sections, kernel`bases, kernel.cptds, kernel.cpts
      ensures Valid() && kernel.Linked()
      ensures model == old(model).(kernel := TakeSection(old(model.kernel).(tt := tt), section, blank))
    {
      model := model.(kernel := TakeSection(model.kernel.(tt := tt), section, blank));
      kernel.Take(section, blank, tt);
      ArraysStay();
    }

    method ShareWith(u: nat, section: Word, ghost s: Space)
      requires Valid() && u < |spaces|
      requires s == model.users[u].(tt := SetSlot(model.users[u].tt, section, Slot(model.kernel.tt, section)))
      modifies this`model, owner.Keys
      ensures Valid() && model == old(model).(users := old(model.users)[u := s])
    {
      SlotInTable(section);
      var d := GetWord(kernel.tt, 4096, model.kernel.tt, section >> 20);
      SetUserSlot(spaces[u], u, section, d);
    }

    /** Every other space gets the kernel's entry of a section. */
    method ShareKernelSection(section: Word)
      requires Valid()
      modifies this`model, owner.Keys
      ensures Valid()
      ensures model == old(model).(users := ShareSection(old(model.users), old(model.kernel.tt), section))
    {
      ghost var users := model.users;
      ghost var shared := ShareSection(users, model.kernel.tt, section);
      for u := 0 to |spaces|
        invariant Valid()
        invariant model == old(model).(users := shared[..u] + users[u..])
      {
        Replaced(users, shared, u);
        ShareWith(u, section, shared[u]);
      }
    }

    /** The tables of a list are in memory. */
    ghost predicate InMemory(m: Space)
      reads this
    {
      forall i :: 0 <= i < |m.cpts| ==> K(m.cpts[i]) in model.ram
    }

    /** A table handed out by the allocator of tables. */
    ghost predicate IsNew(blank: Word, table: array<Word>)
      reads this
    {
      K(blank) !in model.ram && table !in owner && table.Length == 256
    }

    method TakeKernelPage(va: Word, d: Word, blank: Word, table: array<Word>)
      requires Valid() && kernel.Linked() && IsNew(blank, table) && SectionOf(va) !in model.kernel.cptds
      modifies this`model, this`owner, this`tables, owner.Keys, table
      modifies kernel`sections, kernel`bases, kernel.cptds, kernel.cpts
      ensures Valid() && kernel.Linked() && PutKernel(old(model), va, d, blank) == Done(model)
      ensures owner.Keys <= old(owner.Keys) + {table}
    {
      TakeNewKernelSection(SectionOf(va), blank, table);
      FirstKernelPage(va, d, blank);
    }

    method TakeNewKernelSection(section: Word, blank: Word, table: array<Word>)
      requires Valid() && kernel.Linked() && IsNew(blank, table)
      modifies this`model, this`owner, this`tables, owner.Keys, table
      modifies kernel`sections, kernel`bases, kernel.cptds, kernel.cpts
      ensures Valid() && kernel.Linked()
      ensures owner == old(owner)[table := Second(K(blank))]
      ensures model == Vm(TakeSection(old(model.kernel), section, blank), old(model.users),
                          old(model.ram)[K(blank) := map[]])
    {
      NewTable(blank, table);
      TakeKernelSection(section, blank);
    }

    /** The page goes into the table of its section, and the section to every other space. */
    method FirstKernelPage(va: Word, d: Word, blank: Word)
      requires Valid() && kernel.Linked() && K(blank) in model.ram
      modifies this`model, owner.Keys
      ensures Valid() && kernel.Linked()
      ensures model == Vm(old(model.kernel), ShareSection(old(model.users), old(model.kernel.tt), SectionOf(va)),
                          SetPage(old(model.ram), blank, TableIndex(va), d))
    {
      WritePage(blank, va, d);
      ShareKernelSection(SectionOf(va));
      assert kernel.Linked() == old(kernel.Linked());
    }

    method PutListedKernelPage(base: Word, va: Word, d: Word, ghost blank: Word)
      requires Valid() && kernel.Linked() && InMemory(model.kernel) && KernelTable(model, va) == At(base)
      modifies this`model, owner.Keys
      ensures Valid() && kernel.Linked() && PutKernel(old(model), va, d, blank) == Done(model)
    {
      WritePage(base, va, d);
      assert kernel.Linked() == old(kernel.Linked());
    }

    method PutKernelPage(va: Word, d: Word, blank: Word, table: array<Word>) returns (panicked: bool)
      requires Valid() && kernel.Linked() && InMemory(model.kernel)
      requires SectionOf(va) in model.kernel.cptds || IsNew(blank, table)
      modifies this`model, this`owner, this`tables, owner.Keys, table
      modifies kernel`sections, kernel`bases, kernel.cptds, kernel.cpts
      ensures Valid() && kernel.Linked()
      ensures PutKernel(old(model), va, d, blank) == if panicked then Panic else Done(model)
      ensures panicked ==> model == old(model)
      ensures owner.Keys <= old(owner.Keys) + {table}
    {
      var listed, base := FindKernel(va);
      panicked := false;
      if !listed {
        TakeKernelPage(va, d, blank, table);
      } else if base.At? {
        PutListedKernelPage(base.address, va, d, blank);
      } else {
        NoTablePanics(model, va, d, blank);
        panicked := true;
      }
    }

    method FindKernel(va: Word) returns (listed: bool, base: Physical)
      requires Valid() && kernel.Linked()
      ensures listed <==> SectionOf(va) in model.kernel.cptds
      ensures base == KernelTable(model, va)
      ensures listed && base == NULL ==> Unpaired(model.kernel, SectionOf(va))
    {
      var cptd, cpt := kernel.Find(SectionOf(va), model.kernel.tt);
      listed, base := cptd != null, if cptd == null || cpt == null then NULL else At(cpt.data);
    }

    method AddVirtualKernelPage(page: Word, va: Word, blank: Word, table: array<Word>) returns (panicked: bool)
      requires Valid() && kernel.Linked() && InMemory(model.kernel)
      requires SectionOf(va) in model.kernel.cptds || IsNew(blank, table)
      modifies this`model, this`owner, this`tables, owner.Keys, table
      modifies kernel`sections, kernel`bases, kernel.cptds, kernel.cpts
      ensures Valid() && kernel.Linked()
      ensures MapKernel(old(model), page, va, true, blank) == if panicked then Panic else Done(model)
      ensures panicked ==> model == old(model)
      ensures owner.Keys <= old(owner.Keys) + {table}
    {
      panicked := PutKernelPage(va, NewSPD(1, 1, 0x55, page), blank, table);
    }

    method AddVirtualKernelPageNoncached(page: Word, va: Word, blank: Word, table: array<Word>) returns (panicked: bool)
      requires Valid() && kernel.Linked() && InMemory(model.kernel)
      requires SectionOf(va) in model.kernel.cptds || IsNew(blank, table)
      modifies this`model, this`owner, this`tables, owner.Keys, table
      modifies kernel`sections, kernel`bases, kernel.cptds, kernel.cpts
      ensures Valid() && kernel.Linked()
      ensures MapKernel(old(model), page, va, false, blank) == if panicked then Panic else Done(model)
      ensures panicked ==> model == old(model)
      ensures owner.Keys <= old(owner.Keys) + {table}
    {
      panicked := PutKernelPage(va, NewSPD(0, 0, 0x55, page), blank, table);
    }

    /** Both lists of one space grow at the head, and the section gets its descriptor. */
    method TakeUserSection(s: AddressSpace, ghost u: nat, section: Word, blank: Word)
      requires Valid() && IsUser(s, u) && s.Linked()
      modifies this`model, s`sections, s`bases, s.cptds, s.cpts, owner.Keys
      ensures Valid() && s.Linked()
      ensures model == old(model).(users := old(model.users)[u := TakeSection(old(model.users[u]), section, blank)])
    {
      ghost var m := model.users[u];
      SetUserSlot(s, u, section, NewCPTD(0, blank));
      ListUserSection(s, u, section, blank, m.tt);
    }

    method ListUserSection(s: AddressSpace, ghost u: nat, section: Word, blank: Word, ghost tt: Table)
      requires Valid() && IsUser(s, u) && s.Linked() && model.users[u].tt == SetSlot(tt, section, NewCPTD(0, blank))
      modifies this`model, s`sections, s`bases, s.cptds, s.cpts
      ensures Valid() && s.Linked()
      ensures model == old(model).(users := old(model.users)[u :=
        TakeSection(old(model.users[u]).(tt := tt), section, blank)])
    {
      model := model.(users := model.users[u := TakeSection(model.users[u].(tt := tt), section, blank)]);
      s.Take(section, blank, tt);
      ArraysStay();
    }

    /** The space that stands at an index. */
    ghost predicate IsUser(s: AddressSpace, u: nat)
      reads this
    {
      u < |spaces| == |model.users| && spaces[u] == s
    }

    method AddVirtualPage(s: AddressSpace, ghost u: nat, page: Word, va: Word, blank: Word, table: array<Word>)
      returns (panicked: bool)
      requires Valid() && IsUser(s, u) && s.Linked() && InMemory(model.users[u])
      requires SectionOf(va) in model.users[u].cptds || IsNew(blank, table)
      modifies this`model, this`owner, this`tables, owner.Keys, table
      modifies s`sections, s`bases, s.cptds, s.cpts
      ensures Valid() && s.Linked()
      ensures MapUser(old(model), u, page, va, blank) == if panicked then Panic else Done(model)
      ensures panicked ==> model == old(model)
      ensures owner.Keys <= old(owner.Keys) + {table}
    {
      panicked := PutUserPage(s, u, va, NewSPD(1, 1, 0xff, page), blank, table);
    }

    method PutUserPage(s: AddressSpace, ghost u: nat, va: Word, d: Word, blank: Word, table: array<Word>)
      returns (panicked: bool)
      requires Valid() && IsUser(s, u) && s.Linked() && InMemory(model.users[u])
      requires SectionOf(va) in model.users[u].cptds || IsNew(blank, table)
      modifies this`model, this`owner, this`tables, owner.Keys, table
      modifies s`sections, s`bases, s.cptds, s.cpts
      ensures Valid() && s.Linked()
      ensures PutUser(old(model), u, va, d, blank) == if panicked then Panic else Done(model)
      ensures panicked ==> model == old(model)
      ensures owner.Keys <= old(owner.Keys) + {table}
    {
      var listed, base := FindUser(s, u, va);
      panicked := false;
      if !listed {
        TakeUserPage(s, u, va, d, blank, table);
      } else if base.At? {
        PutListedUserPage(s, u, base.address, va, d, blank);
      } else {
        NoUserTablePanics(model, u, va, d, blank);
        panicked := true;
      }
    }

    method FindUser(s: AddressSpace, ghost u: nat, va: Word) returns (listed: bool, base: Physical)
      requires Valid() && IsUser(s, u) && s.Linked()
      ensures listed <==> SectionOf(va) in model.users[u].cptds
      ensures base == ListedTable(model.users[u], SectionOf(va))
      ensures listed && base == NULL ==> Unpaired(model.users[u], SectionOf(va))
    {
      assert IsSpace(s, model.users[u], |spaces| - u);
      var cptd, cpt := s.Find(SectionOf(va), model.users[u].tt);
      listed, base := cptd != null, if cptd == null || cpt == null then NULL else At(cpt.data);
    }

    method PutListedUserPage(s: AddressSpace, ghost u: nat, base: Word, va: Word, d: Word, ghost blank: Word)
      requires Valid() && IsUser(s, u) && s.Linked() && InMemory(model.users[u])
      requires ListedTable(model.users[u], SectionOf(va)) == At(base)
      modifies this`model, owner.Keys
      ensures Valid() && s.Linked() && PutUser(old(model), u, va, d, blank) == Done(model)
    {
      WriteUserPage(s, base, va, d);
    }

    method TakeUserPage(s: AddressSpace, ghost u: nat, va: Word, d: Word, blank: Word, table: array<Word>)
      requires Valid() && IsUser(s, u) && s.Linked() && IsNew(blank, table) && SectionOf(va) !in model.users[u].cptds
      modifies this`model, this`owner, this`tables, owner.Keys, table
      modifies s`sections, s`bases, s.cptds, s.cpts
      ensures Valid() && s.Linked() && PutUser(old(model), u, va, d, blank) == Done(model)
      ensures owner.Keys <= old(owner.Keys) + {table}
    {
      TakeNewUserSection(s, u, SectionOf(va), blank, table);
      WriteUserPage(s, blank, va, d);
    }

    method TakeNewUserSection(s: AddressSpace, ghost u: nat, section: Word, blank: Word, table: array<Word>)
      requires Valid() && IsUser(s, u) && s.Linked() && IsNew(blank, table)
      modifies this`model, this`owner, this`tables, owner.Keys, table
      modifies s`sections, s`bases, s.cptds, s.cpts
      ensures Valid() && s.Linked()
      ensures owner == old(owner)[table := Second(K(blank))]
      ensures model == Vm(old(model.kernel), old(model.users)[u := TakeSection(old(model.users[u]), section, blank)],
                          old(model.ram)[K(blank) := map[]])
    {
      NewTable(blank, table);
      TakeUserSection(s, u, section, blank);
    }

    method WriteUserPage(s: AddressSpace, base: Word, va: Word, d: Word)
      requires Valid() && s.Linked() && K(base) in model.ram
      modifies this`model, owner.Keys
      ensures Valid() && s.Linked() && model == old(model).(ram := SetPage(old(model.ram), base, TableIndex(va), d))
    {
      WritePage(base, va, d);
      assert s.Linked() == old(s.Linked());
    }

    /** The address behind a virtual address, in the kernel's space or another; on a small page, that many bytes
        behind the frame as the address is behind the start of its page. */
    method GetPhysicalAddress(s: AddressSpace, ghost m: Space, ghost n: nat, adr: Word,
                              ghost page: Word, ghost off: Word)
      returns (r: Physical)
      requires Valid() && IsSpace(s, m, n)
      requires IsCoarse(Slot(m.tt, adr)) ==> K(CoarseBase(Slot(m.tt, adr))) in model.ram
      ensures r == Translate(m.tt, model.ram, adr)
      ensures LooksUp(m.tt, model.ram, adr, page) && off == adr - PageStart(adr) ==> r == At(page + off)
    {
      r := WalkTables(s, m, n, adr);
      if LooksUp(m.tt, model.ram, adr, page) && off == adr - PageStart(adr) {
        SmallPageResolves(m.tt, model.ram, adr, page, off);
      }
    }

    method WalkTables(s: AddressSpace, ghost m: Space, ghost n: nat, adr: Word) returns (r: Physical)
      requires Valid() && IsSpace(s, m, n)
      requires IsCoarse(Slot(m.tt, adr)) ==> K(CoarseBase(Slot(m.tt, adr))) in model.ram
      ensures r == Translate(m.tt, model.ram, adr)
    {
      var d := GetSlot(s, m, n, adr);
      if d & 3 == 1 {
        var w := GetPageWord(d, adr);
        r := ReadPage(w, adr);
      } else {
        r := Direct(d, adr);
      }
    }

    method GetSlot(s: AddressSpace, ghost m: Space, ghost n: nat, adr: Word) returns (d: Word)
      requires Valid() && IsSpace(s, m, n)
      ensures d == Slot(m.tt, adr)
    {
      SlotInTable(adr);
      d := GetWord(s.tt, 4096, m.tt, adr >> 20);
    }

    method GetPageWord(d: Word, adr: Word) returns (w: Word)
      requires Valid() && K(CoarseBase(d)) in model.ram
      ensures w == PageWord(d, model.ram, adr)
    {
      PageInTable(adr);
      w := GetTableWord(CoarseBase(d), ReadIndex(adr));
    }

    method GetTableWord(base: Word, k: Word) returns (w: Word)
      requires Valid() && K(base) in model.ram && k as int < 256
      ensures w == Entry(Coarse(model.ram, base), k)
    {
      assert IsTable(K(base));
      w := GetWord(tables[K(base)], 256, model.ram[K(base)], k);
    }

    /** The kernel's coarse table of an address. A section listed without a table makes it read through null. */
    method GetKernelCPT(adr: Word) returns (r: Physical, faulted: bool)
      requires Valid() && kernel.Linked()
      ensures faulted <==> Unpaired(model.kernel, SectionOf(adr))
      ensures !faulted ==> r == KernelTable(model, adr)
    {
      var cptd, cpt := kernel.Find(SectionOf(adr), model.kernel.tt);
      if cptd == null {
        return NULL, false;
      }
      if cpt == null {
        return NULL, true;
      }
      return At(cpt.data), false;
    }

    /** A new space over a table just handed out, put first among the spaces. */
    method CreateAddressSpace(tt: array<Word>) returns (s: AddressSpace)
      requires Valid() && kernel.Linked() && tt !in owner && tt.Length == 4096
      modifies this`model, this`owner, this`spaces, tt
      ensures Valid() && kernel.Linked() && s.Linked() && model == CreateSpace(old(model))
      ensures fresh(s) && s.tt == tt && spaces == [s] + old(spaces) && owner.Keys == old(owner.Keys) + {tt}
    {
      s := new AddressSpace(tt);
      FillTable(s, tt);
      AddSpace(s, NewSpace(model.kernel));
    }

    /** The table of a new space: cleared, then the windows, then the kernel's sections. */
    method FillTable(s: AddressSpace, tt: array<Word>)
      requires Valid() && kernel.Linked() && s.Linked() && tt !in owner && tt.Length == 4096
      modifies tt
      ensures Valid() && kernel.Linked() && s.Linked() && Holds(tt, 4096, NewSpace(model.kernel).tt)
    {
      Clear(tt);
      FillWindows(tt);
      CopyKernelSections(tt, Windows(map[], 1));
      assert s.Linked() == old(s.Linked()) && kernel.Linked() == old(kernel.Linked());
    }

    method AddSpace(s: AddressSpace, ghost m: Space)
      requires Valid() && kernel.Linked() && s.Linked() && Is(s, m) && s.tt !in owner && s != kernel && s !in spaces
      modifies this`model, this`owner, this`spaces
      ensures Valid() && kernel.Linked() && s.Linked() && model == old(model).(users := [m] + old(model.users))
      ensures spaces == [s] + old(spaces) && owner.Keys == old(owner.Keys) + {s.tt}
    {
      spaces := [s] + spaces;
      owner := owner[s.tt := First(|spaces|)];
      model := model.(users := [m] + model.users);
      forall u | 0 <= u < |spaces| ensures IsSpace(spaces[u], model.users[u], |spaces| - u) {
        if u > 0 { assert old(IsSpace(spaces[u - 1], model.users[u - 1], |spaces| - (u - 1))); }
      }
    }

    /** Gives a table the kernel's entry in every section the kernel lists. */
    method CopyKernelSections(tt: array<Word>, ghost t: Table)
      requires Valid() && kernel.Linked() && Holds(tt, 4096, t) && tt !in owner
      modifies tt
      ensures Valid()
      ensures Holds(tt, 4096, CopySections(t, model.kernel.tt, model.kernel.cptds, |model.kernel.cptds|))
    {
      var i := 0;
      var cptd := kernel.cptds.Get(i);
      while cptd != null
        invariant Valid() && kernel.Linked() && i <= |model.kernel.cptds|
        invariant cptd == if i < |model.kernel.cptds| then kernel.cptds.entries[i] else null
        invariant Holds(tt, 4096, CopySections(t, model.kernel.tt, model.kernel.cptds, i))
        decreases |model.kernel.cptds| - i
      {
        CopySection(tt, CopySections(t, model.kernel.tt, model.kernel.cptds, i), cptd.data);
        i := i + 1;
        cptd := kernel.cptds.Get(i);
      }
    }

    method CopySection(tt: array<Word>, ghost t: Table, section: Word)
      requires Valid() && Holds(tt, 4096, t) && tt !in owner
      modifies tt
      ensures Valid() && Holds(tt, 4096, SetSlot(t, section, Slot(model.kernel.tt, section)))
    {
      var d := GetSlot(kernel, model.kernel, 0, section);
      PutSlot(tt, t, section, d);
    }

    /** Takes a section out of both kernel lists and gives its table back. */
    method DropKernelTable(section: Word) returns (faulted: bool)
      requires Valid() && kernel.Linked()
      modifies this`model, this`owner, this`tables
      modifies kernel`sections, kernel`bases, kernel.cptds, kernel.cpts, kernel.cptds.entries, kernel.cpts.entries
      ensures faulted <==> old(Unpaired(model.kernel, section))
      ensures !faulted ==> Valid() && kernel.Linked()
      ensures !faulted ==>
        model == Vm(Unlisted(old(model.kernel), section), old(model.users), TableBack(old(model), section))
      ensures !faulted ==> owner == Left(old(owner), old(model.kernel), section) && owner.Keys <= old(owner.Keys)
    {
      var cpt: L.Entry?<Word>;
      cpt, faulted := UnlistKernel(section);
      if !faulted && cpt != null {
        FreeTable(cpt.data);
      }
    }

    method UnlistKernel(section: Word) returns (cpt: L.Entry?<Word>, faulted: bool)
      requires Valid() && kernel.Linked()
      modifies this`model
      modifies kernel`sections, kernel`bases, kernel.cptds, kernel.cpts, kernel.cptds.entries, kernel.cpts.entries
      ensures faulted <==> old(Unpaired(model.kernel, section))
      ensures !faulted ==> Valid() && kernel.Linked()
      ensures !faulted ==> model == old(model).(kernel := Unlisted(old(model.kernel), section))
      ensures !faulted ==> ListedTable(old(model.kernel), section) == if cpt == null then NULL else At(cpt.data)
    {
      ghost var tt := model.kernel.tt;
      model := model.(kernel := Unlisted(model.kernel, section));
      cpt, faulted := kernel.Drop(section, tt);
      ArraysStay();
    }

    method FreeTable(base: Word)
      requires Valid()
      modifies this`model, this`owner, this`tables
      ensures Valid() && model == old(model).(ram := old(model.ram) - {K(base)})
      ensures owner == Disowned(old(owner), K(base))
    {
      tables := tables - {K(base)};
      owner := Disowned(owner, K(base));
      model := model.(ram := model.ram - {K(base)});
      forall k | k in tables ensures IsTable(k) {
        assert old(IsTable(k));
      }
    }

    /**
     * The kernel's table of a section becomes a copy of the first words of another. A section listed without a
     * table makes it read through null.
     */
    method MigrateKernelCPT(adr: Word, source: array<Word>, ghost words: Table, pages: Word,
                            blank: Word, table: array<Word>) returns (faulted: bool)
      requires Valid() && kernel.Linked()
      requires Holds(source, source.Length, words) && source != table
      requires (if pages > 256 then 256 else pages) as int <= source.Length
      requires K(blank) !in Freed(model, adr) && table.Length == 256
      requires table !in Left(owner, model.kernel, SectionOf(adr))
      modifies this`model, this`owner, this`tables, owner.Keys, table
      modifies kernel`sections, kernel`bases, kernel.cptds, kernel.cpts, kernel.cptds.entries, kernel.cpts.entries
      ensures faulted <==> old(Unpaired(model.kernel, SectionOf(adr)))
      ensures faulted ==> Migrate(old(model), adr, words, pages, blank) == Panic
      ensures !faulted ==> Valid() && kernel.Linked() && Migrate(old(model), adr, words, pages, blank) == Done(model)
      ensures !faulted ==> owner.Keys <= old(owner.Keys) + {table}
    {
      faulted := DropKernelTable(SectionOf(adr));
      if faulted {
        UnpairedPanics(old(model), adr, words, pages, blank);
        return;
      }
      TakeCopiedSection(SectionOf(adr), source, words, pages, blank, table);
    }

    method TakeCopiedSection(section: Word, source: array<Word>, ghost words: Table, pages: Word,
                             blank: Word, table: array<Word>)
      requires Valid() && kernel.Linked() && IsNew(blank, table)
      requires Holds(source, source.Length, words) && source != table
      requires (if pages > 256 then 256 else pages) as int <= source.Length
      modifies this`model, this`owner, this`tables, owner.Keys, table
      modifies kernel`sections, kernel`bases, kernel.cptds, kernel.cpts
      ensures Valid() && kernel.Linked() && owner.Keys == old(owner.Keys) + {table}
      ensures model == Vm(TakeSection(old(model.kernel), section, blank), old(model.users),
                          old(model.ram)[K(blank) := FirstWords(words, pages)])
    {
      CopyTable(source, words, pages, blank, table);
      TakeKernelSection(section, blank);
    }

    method CopyTable(source: array<Word>, ghost words: Table, pages: Word, blank: Word, table: array<Word>)
      requires Valid() && K(blank) !in model.ram && table !in owner && table.Length == 256
      requires Holds(source, source.Length, words) && source != table
      requires (if pages > 256 then 256 else pages) as int <= source.Length
      modifies this`model, this`owner, this`tables, table
      ensures Valid() && owner == old(owner)[table := Second(K(blank))]
      ensures model == old(model).(ram := old(model.ram)[K(blank) := FirstWords(words, pages)])
    {
      var count := if pages > 256 then 256 else pages;
      CopyWords(table, source, words, count);
      FirstCount(words, pages);
      InsertTable(blank, table, FirstWords(words, count));
    }
  }

  lemma FirstCount(words: Table, pages: Word)
    ensures FirstWords(words, if pages > 256 then 256 else pages) == FirstWords(words, pages)
  {
  }

  lemma NoTablePanics(vm: Vm, va: Word, d: Word, blank: Word)
    requires Unpaired(vm.kernel, SectionOf(va))
    ensures PutKernel(vm, va, d, blank) == Panic
  {
  }

  lemma NoUserTablePanics(vm: Vm, u: nat, va: Word, d: Word, blank: Word)
    requires u < |vm.users| && Unpaired(vm.users[u], SectionOf(va))
    ensures PutUser(vm, u, va, d, blank) == Panic
  {
  }

  lemma UnpairedPanics(vm: Vm, adr: Word, words: Table, pages: Word, blank: Word)
    requires Unpaired(vm.kernel, SectionOf(adr))
    ensures Migrate(vm, adr, words, pages, blank) == Panic
  {
  }

  /** The tags left once the kernel's table of a section, if any, is given back. */
  ghost function Left(owner: map<array<Word>, Tag>, k: Space, section: Word): map<array<Word>, Tag> {
    var i := IndexOf(k.cptds, section);
    if i < |k.cptds| && i < |k.cpts| then Disowned(owner, K(k.cpts[i])) else owner
  }

  /** Clears a coarse table and copies the first words of another into it. */
  method CopyWords(table: array<Word>, source: array<Word>, ghost words: Table, count: Word)
    requires table.Length == 256 && source != table && Holds(source, source.Length, words)
    requires count <= 256 && count as int <= source.Length
    modifies table
    ensures Holds(table, 256, FirstWords(words, count))
  {
    Clear(table);
    var k: Word := 0;
    NoWords(table, words);
    while k < count
      invariant k <= count && Holds(table, 256, FirstWords(words, k))
      decreases 256 - k as int
    {
      k := CopyWord(table, source, words, k, count);
    }
  }

  method CopyWord(table: array<Word>, source: array<Word>, ghost words: Table, k: Word, count: Word)
    returns (next: Word)
    requires source != table && Holds(source, source.Length, words)
    requires k < count <= 256 && count as int <= source.Length && Holds(table, 256, FirstWords(words, k))
    modifies table
    ensures next <= count && next as int == k as int + 1 <= 256
    ensures Holds(table, 256, FirstWords(words, next))
  {
    InRange(k, count);
    var d := GetWord(source, source.Length, words, k);
    PutWord(table, 256, FirstWords(words, k), k, d);
    NextWords(table, words, k);
    NextInt(k);
    next := k + 1;
  }

  lemma InRange(k: Word, count: Word)
    requires k < count <= 256
    ensures k as int < count as int <= 256 && k + 1 <= count
  {
  }

  lemma NextInt(k: Word)
    requires k < 256
    ensures (k + 1) as int == k as int + 1 <= 256
  {
  }

  lemma NoWords(table: array<Word>, words: Table)
    requires Holds(table, 256, map[])
    ensures Holds(table, 256, FirstWords(words, 0))
  {
    forall k: Word ensures HoldsAt(table, 256, FirstWords(words, 0), k) {
      assert HoldsAt(table, 256, map[], k);
    }
  }

  lemma NextWords(table: array<Word>, words: Table, k: Word)
    requires k < 256 && Holds(table, 256, FirstWords(words, k)[K(k) := Entry(words, k)])
    ensures Holds(table, 256, FirstWords(words, k + 1))
  {
    ghost var t := FirstWords(words, k + 1);
    forall j: Word ensures HoldsAt(table, 256, t, j) {
      assert HoldsAt(table, 256, FirstWords(words, k)[K(k) := Entry(words, k)], j);
      NextEntry(words, k, j);
    }
  }

  lemma NextEntry(words: Table, k: Word, j: Word)
    requires k < 256
    ensures Entry(FirstWords(words, k + 1), j) == Entry(FirstWords(words, k)[K(k) := Entry(words, k)], j)
  {
  }

  method PutSlot(tt: array<Word>, ghost t: Table, adr: Word, d: Word)
    requires Holds(tt, 4096, t)
    modifies tt
    ensures Holds(tt, 4096, SetSlot(t, adr, d))
  {
    SlotInTable(adr);
    PutWord(tt, 4096, t, adr >> 20, d);
  }

  /** The windows of a space other than the kernel's, over a table of zeros. */
  method FillWindows(tt: array<Word>)
    requires Holds(tt, 4096, map[])
    modifies tt
    ensures Holds(tt, 4096, Windows(map[], 1))
  {
    var i: Word := 0;
    while i < 64
      invariant i <= 64 && Holds(tt, 4096, RamWindow(map[], 1, i))
    {
      PutSlot(tt, RamWindow(map[], 1, i), WindowSection(i), NewSD(1, 1, 0, 1, WindowBase(i)));
      NextWord(i);
      i := i + 1;
    }
    ghost var t := RamWindow(map[], 1, 64);
    PutSlot(tt, t, 0xe900_0000, NewSD(0, 0, 0, 1, 0x9000_0000));
    t := SetSlot(t, 0xe900_0000, NewSD(0, 0, 0, 1, 0x9000_0000));
    PutSlot(tt, t, 0xe910_0000, NewSD(0, 0, 0, 1, 0xb000_0000));
    t := SetSlot(t, 0xe910_0000, NewSD(0, 0, 0, 1, 0xb000_0000));
    PutSlot(tt, t, 0xe920_0000, NewSD(0, 0, 0, 1, 0xc000_0000));
    t := SetSlot(t, 0xe920_0000, NewSD(0, 0, 0, 1, 0xc000_0000));
    PutSlot(tt, t, 0xe930_0000, NewSD(0, 0, 0, 1, 0xdc00_0000));
    t := SetSlot(t, 0xe930_0000, NewSD(0, 0, 0, 1, 0xdc00_0000));
    PutSlot(tt, t, 0xe940_0000, NewSD(0, 0, 0, 1, 0xc400_0000));
  }

  lemma Replaced(s: seq<Space>, t: seq<Space>, u: nat)
    requires u < |s| == |t|
    ensures (t[..u] + s[u..])[u] == s[u]
    ensures (t[..u] + s[u..])[u := t[u]] == t[..u + 1] + s[u + 1..]
  {
  }
}
