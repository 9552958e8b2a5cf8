/**
 * The virtual memory manager on values: a translation table is a finite map from index to word in
 * which an absent index holds zero, physical memory a map from the base of a coarse table to its words.
 */
module PageTables {
  import opened Sequences
  import opened Descriptors

  /** A word as the key of a map. */
  datatype Key = K(word: Word)

  type Table = map<Key, Word>

  function Entry(t: Table, k: Word): Word {
    if K(k) in t then t[K(k)] else 0
  }

  /** The coarse tables in memory, by physical base. */
  type Memory = map<Key, Table>

  function Coarse(ram: Memory, base: Word): Table {
    if K(base) in ram then ram[K(base)] else map[]
  }

  /** An address space: its translation table and the two parallel lists. */
  datatype Space = Space(tt: Table, cptds: seq<Word>, cpts: seq<Word>)

  /** The kernel's space, the spaces made since with the newest first, and memory. */
  datatype Vm = Vm(kernel: Space, users: seq<Space>, ram: Memory)

  /** A call comes back, or stops the kernel: at a panic, or at a read through null. */
  datatype Outcome = Done(vm: Vm) | Panic

  // ----- the reader

  /** First-level descriptor of an address. */
  function Slot(tt: Table, adr: Word): Word {
    Entry(tt, adr >> 20)
  }

  function Translate(tt: Table, ram: Memory, adr: Word): Physical {
    Walk(Slot(tt, adr), ram, adr)
  }

  /** What the first-level descriptor `d` makes of an address. */
  function Walk(d: Word, ram: Memory, adr: Word): Physical {
    if d & 3 == 1 then ReadPage(PageWord(d, ram, adr), adr) else Direct(d, adr)
  }

  /** A descriptor that leads to no coarse table. */
  function Direct(d: Word, adr: Word): Physical {
    if d & 3 == 2 then At(SectionBase(d) + WithinSection(adr)) else NULL
  }

  /** The word of a coarse table that an address is looked up in. */
  function PageWord(d: Word, ram: Memory, adr: Word): Word {
    Entry(Coarse(ram, CoarseBase(d)), ReadIndex(adr))
  }

  // ----- the writers

  /** First index of a value, or the length when it is absent. */
  function IndexOf(s: seq<Word>, x: Word): (i: nat)
    ensures i <= |s| && x !in s[..i] && (i < |s| ==> s[i] == x)
  {
    if s == [] || s[0] == x then 0 else 1 + IndexOf(s[1..], x)
  }

  /** The index found by searching from the front. */
  lemma {:induction false} FirstIndex(s: seq<Word>, x: Word, i: nat)
    requires i <= |s| && x !in s[..i] && (i < |s| ==> s[i] == x)
    ensures IndexOf(s, x) == i
  {
    if i > 0 {
      assert s[0] in s[..i];
      assert s[1..][..i - 1] == s[1..i];
      FirstIndex(s[1..], x, i - 1);
    }
  }

  function SetSlot(tt: Table, adr: Word, d: Word): Table {
    tt[K(adr >> 20) := d]
  }

  /** Writes one word of a coarse table. */
  function SetPage(ram: Memory, base: Word, k: Word, d: Word): Memory {
    ram[K(base) := Coarse(ram, base)[K(k) := d]]
  }

  /** A space that takes a section it did not list: both lists grow at the head. */
  function TakeSection(s: Space, section: Word, blank: Word): Space {
    Space(SetSlot(s.tt, section, NewCPTD(0, blank)), [section] + s.cptds, [blank] + s.cpts)
  }

  function KernelPage(cached: bool, page: Word): Word {
    if cached then NewSPD(1, 1, 0x55, page) else NewSPD(0, 0, 0x55, page)
  }

  function UserPage(page: Word): Word {
    NewSPD(1, 1, 0xff, page)
  }

  /** Every other space gets the kernel's entry for a section. */
  function ShareSection(users: seq<Space>, ktt: Table, section: Word): (r: seq<Space>)
    ensures |r| == |users|
    ensures forall u :: 0 <= u < |users| ==> r[u] == users[u].(tt := SetSlot(users[u].tt, section, Slot(ktt, section)))
  {
    if users == [] then []
    else [users[0].(tt := SetSlot(users[0].tt, section, Slot(ktt, section)))] + ShareSection(users[1..], ktt, section)
  }

  /** Puts a page descriptor into the kernel's sections; `blank` is the table used when the section is new. */
  function PutKernel(vm: Vm, va: Word, d: Word, blank: Word): Outcome {
    var section := SectionOf(va);
    var i := IndexOf(vm.kernel.cptds, section);
    if i == |vm.kernel.cptds| then
      var kernel := TakeSection(vm.kernel, section, blank);
      Done(Vm(kernel, ShareSection(vm.users, kernel.tt, section),
              SetPage(vm.ram[K(blank) := map[]], blank, TableIndex(va), d)))
    else if i < |vm.kernel.cpts| then
      Done(vm.(ram := SetPage(vm.ram, vm.kernel.cpts[i], TableIndex(va), d)))
    else Panic
  }

  /** Maps a page in the kernel's sections. */
  function MapKernel(vm: Vm, page: Word, va: Word, cached: bool, blank: Word): Outcome {
    PutKernel(vm, va, KernelPage(cached, page), blank)
  }

  /** Puts a page descriptor into a section of one space. */
  function PutUser(vm: Vm, u: nat, va: Word, d: Word, blank: Word): Outcome
    requires u < |vm.users|
  {
    var section := SectionOf(va);
    var i := IndexOf(vm.users[u].cptds, section);
    if i == |vm.users[u].cptds| then
      Done(Vm(vm.kernel, vm.users[u := TakeSection(vm.users[u], section, blank)],
              SetPage(vm.ram[K(blank) := map[]], blank, TableIndex(va), d)))
    else if i < |vm.users[u].cpts| then
      Done(vm.(ram := SetPage(vm.ram, vm.users[u].cpts[i], TableIndex(va), d)))
    else Panic
  }

  /** Maps a page in one space. */
  function MapUser(vm: Vm, u: nat, page: Word, va: Word, blank: Word): Outcome
    requires u < |vm.users|
  {
    PutUser(vm, u, va, UserPage(page), blank)
  }

  /** The window on RAM, its first `n` sections. */
  function RamWindow(tt: Table, cb: Word, n: Word): Table
    requires n <= 64
  {
    if n == 0 then tt
    else SetSlot(RamWindow(tt, cb, n - 1), WindowSection(n - 1), NewSD(cb, cb, 0, 1, WindowBase(n - 1)))
  }

  function WindowSection(i: Word): Word {
    0xec00_0000 + i * 0x10_0000
  }

  function WindowBase(i: Word): Word {
    0x1000_0000 + i * 0x10_0000
  }

  /** The device sections. */
  function IoWindow(tt: Table): Table {
    var a := SetSlot(tt, 0xe900_0000, NewSD(0, 0, 0, 1, 0x9000_0000));
    var b := SetSlot(a, 0xe910_0000, NewSD(0, 0, 0, 1, 0xb000_0000));
    var c := SetSlot(b, 0xe920_0000, NewSD(0, 0, 0, 1, 0xc000_0000));
    var d := SetSlot(c, 0xe930_0000, NewSD(0, 0, 0, 1, 0xdc00_0000));
    SetSlot(d, 0xe940_0000, NewSD(0, 0, 0, 1, 0xc400_0000))
  }

  /** The fixed part of a table: the two windows over whatever was there. */
  function Windows(tt: Table, cb: Word): Table {
    IoWindow(RamWindow(tt, cb, 64))
  }

  /** Copies the entries of the first `n` listed sections. */
  function CopySections(tt: Table, ktt: Table, cptds: seq<Word>, n: nat): Table
    requires n <= |cptds|
  {
    if n == 0 then tt
    else SetSlot(CopySections(tt, ktt, cptds, n - 1), cptds[n - 1], Slot(ktt, cptds[n - 1]))
  }

  function NewSpace(kernel: Space): Space {
    Space(CopySections(Windows(map[], 1), kernel.tt, kernel.cptds, |kernel.cptds|), [], [])
  }

  function CreateSpace(vm: Vm): Vm {
    vm.(users := [NewSpace(vm.kernel)] + vm.users)
  }

  /** The first words of a source table, and zeros. */
  function FirstWords(words: Table, pages: Word): Table {
    map k | k in words && k.word < (if pages > 256 then 256 else pages) :: words[k]
  }

  /** A space once a section, if listed, is out of both lists. */
  function Unlisted(s: Space, section: Word): Space {
    var i := IndexOf(s.cptds, section);
    if i < |s.cptds| && i < |s.cpts| then Space(s.tt, Without(s.cptds, i), Without(s.cpts, i)) else s
  }

  /** Replaces the kernel's table of a section by a copy of `words`. */
  function Migrate(vm: Vm, adr: Word, words: Table, pages: Word, blank: Word): Outcome {
    var section := SectionOf(adr);
    var i := IndexOf(vm.kernel.cptds, section);
    if |vm.kernel.cpts| <= i < |vm.kernel.cptds| then Panic
    else
      var kernel := TakeSection(Unlisted(vm.kernel, section), section, blank);
      Done(Vm(kernel, vm.users, Freed(vm, adr)[K(blank) := FirstWords(words, pages)]))
  }

  /** A section is listed at an index where the list of tables has ended. */
  ghost predicate Unpaired(k: Space, section: Word) {
    |k.cpts| <= IndexOf(k.cptds, section) < |k.cptds|
  }

  /** Memory once the kernel's table of a section, if any, has been given back. */
  function TableBack(vm: Vm, section: Word): Memory {
    var i := IndexOf(vm.kernel.cptds, section);
    if i < |vm.kernel.cptds| && i < |vm.kernel.cpts| then vm.ram - {K(vm.kernel.cpts[i])} else vm.ram
  }

  function Freed(vm: Vm, adr: Word): Memory {
    TableBack(vm, SectionOf(adr))
  }

  /** The coarse table a space lists for a section. */
  function ListedTable(s: Space, section: Word): Physical {
    var i := IndexOf(s.cptds, section);
    if i < |s.cpts| && i < |s.cptds| then At(s.cpts[i]) else NULL
  }

  /** The kernel's coarse table of an address. */
  function KernelTable(vm: Vm, adr: Word): Physical {
    ListedTable(vm.kernel, SectionOf(adr))
  }

  function WithDevices(k: Space): Space {
    k.(tt := IoWindow(k.tt))
  }

  /** The kernel's table gets the device sections. */
  function MapDevices(vm: Vm): Vm {
    vm.(kernel := WithDevices(vm.kernel))
  }

  // ----- single writes, seen through the reader

  lemma SlotOfSetSlot(tt: Table, s: Word, d: Word, a: Word)
    ensures Slot(SetSlot(tt, s, d), a) == if SectionOf(a) == SectionOf(s) then d else Slot(tt, a)
  {
    if SectionOf(a) == SectionOf(s) {
      SectionUp(a, s);
    } else {
      SectionDown(a, s);
      EntryOfPut(tt, s >> 20, d, a >> 20);
    }
  }

  lemma EntryOfPut(t: Table, k: Word, d: Word, j: Word)
    ensures Entry(t[K(k) := d], j) == if j == k then d else Entry(t, j)
  {
  }

  /** The address is looked up in this coarse table. */
  predicate Refers(tt: Table, a: Word, base: Word) {
    IsCoarse(Slot(tt, a)) && CoarseBase(Slot(tt, a)) == base
  }

  lemma EntryOfSetPage(ram: Memory, base: Word, k: Word, d: Word, b: Word, j: Word)
    ensures Entry(Coarse(SetPage(ram, base, k, d), b), j)
         == if b == base && j == k then d else Entry(Coarse(ram, b), j)
  {
    EntryOfPut(Coarse(ram, base), k, d, j);
  }

  /** One word written to a coarse table changes the addresses looked up in that word and no other. */
  lemma WriteShows(tt: Table, ram: Memory, base: Word, va: Word, d: Word, a: Word)
    ensures Translate(tt, SetPage(ram, base, TableIndex(va), d), a)
         == if Refers(tt, a, base) && ReadIndex(a) == ReadIndex(va) then ReadPage(d, a) else Translate(tt, ram, a)
  {
    IndicesAgree(va);
    WalkAfterWrite(Slot(tt, a), ram, base, TableIndex(va), d, a);
  }

  lemma WalkAfterWrite(s: Word, ram: Memory, base: Word, k: Word, d: Word, a: Word)
    ensures Walk(s, SetPage(ram, base, k, d), a)
         == if IsCoarse(s) && CoarseBase(s) == base && ReadIndex(a) == k then ReadPage(d, a) else Walk(s, ram, a)
  {
    EntryOfSetPage(ram, base, k, d, CoarseBase(s), ReadIndex(a));
  }

  /** The tables lead from an address to the descriptor of a small page. */
  predicate LooksUp(tt: Table, ram: Memory, a: Word, page: Word) {
    Slot(tt, a) & 3 == 1 && PageWord(Slot(tt, a), ram, a) & 3 == 2 && PageWord(Slot(tt, a), ram, a) & 0xffff_f000 == page
  }

  /** Such an address is as far behind the frame as it is behind the start of its page. */
  lemma SmallPageResolves(tt: Table, ram: Memory, a: Word, page: Word, off: Word)
    requires LooksUp(tt, ram, a, page) && off == a - PageStart(a)
    ensures Translate(tt, ram, a) == At(page + off)
  {
    SmallPageIs(tt, ram, a, page);
    OffsetOnPage(page, a, off);
  }

  lemma SmallPageIs(tt: Table, ram: Memory, a: Word, page: Word)
    requires LooksUp(tt, ram, a, page)
    ensures Translate(tt, ram, a) == OnPage(page, a)
  {
    NotLarge(PageWord(Slot(tt, a), ram, a));
  }

  /** A descriptor that is of none of the kinds leads nowhere. */
  lemma NothingElseResolves(tt: Table, ram: Memory, a: Word)
    requires var d := Slot(tt, a); var w := PageWord(d, ram, a);
      d & 3 == 0 || d & 3 == 3 || (d & 3 == 1 && (w & 3 == 0 || w & 3 == 3))
    ensures Translate(tt, ram, a) == NULL
  {
    NoKind(Slot(tt, a));
    NoKind(PageWord(Slot(tt, a), ram, a));
  }

  lemma NoKind(d: Word)
    ensures d & 3 == 0 || d & 3 == 3 ==> d & 3 != 1 && d & 3 != 2
  {
  }

  lemma SameWord(a: Word, b: Word)
    ensures SectionOf(a) == SectionOf(b) ==> (ReadIndex(a) == ReadIndex(b) <==> SamePage(a, b))
    ensures SamePage(a, b) ==> SectionOf(a) == SectionOf(b)
  {
    IndexDown(a, b);
    IndexUp(a, b);
    PageBits(a, b);
  }
}
