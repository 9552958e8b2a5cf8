# The bookkeeping of the OSExt kernel, verified

OSExt is a parallel kernel for the TI-Nspire. This project models the parts of it that keep books on a
shared heap and proves what they keep. Each part has a form that changes objects in place, as the kernel
does, and a specification on values that this form is proved against; the properties over whole runs are
proved of the specification.

- **Threads, Ring, Scheduler, SchedulerRuns, SchedulerPanics, SchedulerLives, SchedulerFates, ThreadSyscalls**: the
  circular list of kernel threads. `Ring` says on sequences what each scheduler call does, the class in `Scheduler` does
  it with pointers. `SchedulerRuns` proves safety, the deadlock verdict and the sleep accounting over every run,
  `SchedulerPanics` exactly which steps panic with any timeslice, `SchedulerLives` where every thread made ends up,
  `SchedulerFates` what a step makes of each thread.
- **Descriptors, PageTables, PageTableMaps, PageTableSteps, PageTableRuns, PageTableGuards, PlainMap, VirtualMM,
  AddressSpaces, LinkedList**: the virtual memory manager. 32-bit descriptors, two-level translation, the two parallel
  lists of each space; over every run, migrations included, the tables refine a plain map from pages to pages, and
  `PageTableGuards` says exactly what each step needs of its caller. `VirtualMM` holds the arrays, `AddressSpaces` the
  lists as the chains of entries of `LinkedList`.
- **PageBits, Words, PageBlocks, PageOwners, PhysicalMM**: the allocator of physical pages, from two 64-bit words
  up to the theorem that no page has two owners.
- **ByteBits, SlabLayout, Slab, SlabLists, SlabLoop, SlabCache, SlabOwners, Kmalloc**: the slab allocator: layout
  arithmetic, bitmaps, list surgery, exactly when the allocation loop fails to return, and that no object has two owners.
- **Calendar, Clock, NumberText**: calendar decomposition, the extended 32-bit timer, number printing.
- **Sequences** holds what several parts say of lists.

## Where the code falls short of its intent

`Shortcomings` reaches each of these from the start, or gives the input; the lemma named first gives the exact condition.

- `SchedulerPanics.EveryRunPanicsExactlyWhen`: with a timeslice of 1 a wait of 0xfffffffe milliseconds, or the going of a
  thread that leaves such a sleeper behind, can reach the no-waiter panic. One millisecond more and the count wraps to zero
  (`SchedulerPanics.WaitLosesCountExactlyWhen`). The runs of `SchedulerRuns` assume a timeslice of at least 2.
- `SchedulerLives.LostExactlyWhen`: a thread created while no ring runs is linked nowhere and never freed.
- `SlabLoop.HangsExactlyWhen`: the allocation loop of a cache reads `next` after redirecting it
  (kernel/memory/slab.c:540-545) and can run for ever, in a cache of page-sized objects at the third allocation.
- `PageBits.GivesUpTooEarly`: `usePage` can report no page while one is free.
- `PageOwners.FreeKeepsInvExactlyWhen`: in a block of 128 pages the page behind the last has no bit; when the page
  before it is freed alone, it can be handed out while it is held.
- `PageTableGuards.UserMapSharesExactlyWhen`: nothing keeps a user page out of a kernel section, the window on RAM or a
  device section, and it takes that section out of sharing.
- `PageTableGuards.KernelMapKeepsInvExactlyWhen`, `PageTableGuards.KernelMapSharesExactlyWhen`: nothing keeps a kernel
  page out of a fixed section or of a section that a space lists, whose table there is then lost to it.
- `PageTableGuards.KernelMapLosesExactly`: the first kernel page in a section unmaps the rest of what was mapped there.
- `PageTableGuards.MigrateSharesExactlyWhen`: migration does not update the spaces made before.
- `Calendar.SharedDateExactlyWhen`: a date is shared by times 2^32 years apart.
- `Calendar.LateExactlyWhen`: every whole minute is written as second 60 of the minute before, and midnight as 23:59 of the
  day before, since the loops subtract while more than one unit is left.
- `NumberText.BigDigitIsLost`: bases above 16 lose digits. `NumberText.FitsExactlyWhen`: small bases overrun the scratch
  buffer.
- `SlabLayout.CheckSeesAllExactlyWhen`: the emptiness check of a slab looks at too few bytes for large objects
  (kernel/memory/slab.c:718, 736), so a slab with objects in use can get onto the free list, and these are then refused
  when they come back (`SlabCaches.Cache.RefusedExactlyWhen`).
- `SlabLayout.CheckInMemoryExactlyWhen`: for small objects off slab the check reads behind the map.
- `SlabOwners.GivenIsClearExactlyWhen`: free accepts an index one past the objects of a slab (kernel/memory/slab.c:576,
  594), so a slab can take the first object of the one right behind it, and that object stays marked with no holder. The
  byte it touches is still inside the bitmap (`SlabLayout.IndexInMap`).
- Apart from these, the decrement loop of the tick handler (kernel/scheduling/scheduler.c:146-167) never runs: only sleeping lowers a count.

## How the source is read

- Each scheduler call is one atomic step, and resuming a thread, which never returns, is recorded as the way a call ends.
  The GUI task of the host system is taken to be current, ticks arrive in supervisor mode, and a wait-for target
  is live when the call is made.
- Physical memory is a map from the base of each coarse table to its 256 words. It stands for the kernel's own window on RAM.
  A request for a coarse table, a translation table or a list entry returns a fresh one and does not re-enter;
  the base of a coarse table, which the kernel finds by translating its own pointer, comes with it.
- A table on values is a finite map in which an absent index holds zero. `Key` wraps a word used as a key.
- Block sizes go up to 128, as the kernel allocates them (kernel/init-kernel.c:43-46). Index 128 shifts a 64-bit word by
  64, which C leaves undefined; it is taken as it is on the ARM, where nothing is left.
- Alignment 0 of a run is no constraint, as every caller means it.
- The host system's allocator returns chunks apart from those in use, or none.
- A grown slab arrives with nothing used.
- Buffer lengths for printing are at least 1.

## Model

| member | source | states |
|---|---|---|
| `SchedulerRuns.EveryRunIsSafe` | kernel/scheduling/scheduler.c:198-477 | From an empty ring, after any run of enable, disable, create, wait, wait-for, delete and exit, the invariant holds and the next step panics nowhere; if that step resumes a thread that is not runnable, it is main and every thread waits on a cycle |
| `SchedulerRuns.RunKeepsInv` | kernel/scheduling/scheduler.c:61-477 | Every run keeps the ring well formed: distinct live threads, exactly one main, each wait-for target another live thread, waiting ticks positive exactly while WAITING |
| `SchedulerRuns.StepKeepsInv` | kernel/scheduling/scheduler.c:61-477 | No single legal step panics, and each keeps that invariant |
| `SchedulerRuns.DeadlockIsReal` | kernel/scheduling/scheduler.c:225-260 | When the scheduler finds no runnable and no waiting thread, following wait-for from any thread leads onto a cycle of at least two threads |
| `SchedulerRuns.StepResumesBlocked` | kernel/scheduling/scheduler.c:225-260 | A blocked thread is resumed only when the whole ring is blocked |
| `SchedulerRuns.PanicsExactlyWhen` | kernel/scheduling/scheduler.c:259-317 | For any ring: the no-waiter panic happens exactly when the running thread alone sleeps, with a count of 2^32-1; the no-main panic exactly when all are blocked and none is main |
| `SchedulerRuns.ScheduleResumes` | kernel/scheduling/scheduler.c:198-318 | On a well formed ring scheduling always resumes a thread, loses none, and leaves the invariant |
| `SchedulerRuns.ChoosesNearestRunnable` | kernel/scheduling/scheduler.c:204-223 | The first runnable thread in ring order from the running one is resumed, and nothing else changes |
| `SchedulerRuns.LeastWaiterIs` | kernel/scheduling/scheduler.c:261-288 | The scan finds the last thread with the least remaining wait, and misses every sleeper only in the one 2^32-1 case |
| `SchedulerRuns.ChoosesShortestSleeper` | kernel/scheduling/scheduler.c:261-316 | With no runnable thread, the last least sleeper is resumed after every sleeper is charged its count |
| `SchedulerRuns.FallsBackToMain` | kernel/scheduling/scheduler.c:225-260 | With all threads blocked, main is resumed |
| `SchedulerRuns.SleepWakes` | kernel/scheduling/scheduler.c:261-316 | Each sleep step lasts a positive time, the least remaining count, and wakes a thread |
| `SchedulerRuns.StepCharges` | kernel/scheduling/scheduler.c:290-316 | A step takes exactly the time it slept off a sleeper, never more than is left |
| `SchedulerRuns.SleeperIsCharged` | kernel/scheduling/scheduler.c:261-365 | Over a run, a sleeper owes its count minus the total slept, and is runnable exactly when that reaches zero |
| `SchedulerRuns.RequestIsCharged` | kernel/scheduling/scheduler.c:324-365 | A wait of some milliseconds is a debt of millis/timeslice+1 ticks, paid by the sleeping since, the first step included |
| `SchedulerPanics.WaitTicksPanicsExactlyWhen` | kernel/scheduling/scheduler.c:324-365 | With any timeslice, which tick counts make a wait reach the no-waiter panic: exactly 2^32-2 with every other thread blocked |
| `SchedulerPanics.WaitPanicsExactlyWhen` | kernel/scheduling/scheduler.c:324-365 | A wait panics exactly for a timeslice of 1, 0xfffffffe milliseconds and all others blocked; a timeslice of 2 or more excludes it |
| `SchedulerPanics.ExitPanicsExactlyWhen` | kernel/scheduling/scheduler.c:412-434 | An exit panics exactly when it leaves the next thread asleep for 2^32-1 ticks and all others blocked, none of them on the one that goes |
| `SchedulerPanics.StepPanicsExactlyWhen` | kernel/scheduling/scheduler.c:198-477 | With any timeslice, from any well formed ring: which steps panic, over all calls |
| `SchedulerPanics.EveryRunPanicsExactlyWhen` | kernel/scheduling/scheduler.c:198-477 | From an empty ring, with any timeslice, after any run: the next step panics exactly when it is one of these |
| `SchedulerPanics.WaitLosesCountExactlyWhen` | kernel/scheduling/scheduler.c:324-365 | A wait leaves a thread waiting for no ticks exactly for a timeslice of 1, 0xffffffff milliseconds and another runnable thread |
| `SchedulerLives.FreedOnce` | kernel/scheduling/scheduler.c:61-477 | From no ring, when each thread is made once: none is freed or lost twice, none of these is still in the ring, and each one made is in the ring, or was freed, or was lost |
| `SchedulerLives.RunConserves` | kernel/scheduling/scheduler.c:61-477 | Over every run, the threads there and those made are those still there, those freed and those lost, counted with repetition |
| `SchedulerLives.LostExactlyWhen` | kernel/syscalls/svc/thread-syscalls.c:40-51 | A thread is lost, in no ring and never freed, exactly when it is created while no ring runs |
| `SchedulerLives.RemoveConserves` | kernel/scheduling/scheduler.c:437-477 | Deleting takes exactly the threads it frees out of the ring |
| `SchedulerFates.StepBlocksExactly` | kernel/scheduling/scheduler.c:290-477 | Who is blocked after a step, and on whom: the running thread if it just asked for that, and exactly those who were, unless the step frees the thread or its target, or main, running in a deadlock, does something else |
| `SchedulerFates.StepSleepsExactly` | kernel/scheduling/scheduler.c:261-365 | Who sleeps after a step: the running thread if it just asked for that, with millis/timeslice+1 ticks, and exactly those who did, each with the slept ticks less and at least one left |
| `SchedulerFates.StepRunsExactly` | kernel/scheduling/scheduler.c:198-477 | Who can run after a step: exactly a thread just made, those who could and did not give way, those whose target was freed and those whose sleep is over |
| `SchedulerFates.RunKeepsBlocked` | kernel/scheduling/scheduler.c:198-477 | Over every run a blocked thread other than main stays blocked on the same thread until one of them is freed |
| `SchedulerFates.StepTurnsRing` | kernel/scheduling/scheduler.c:198-318 | Waiting, blocking, ticks and enabling keep the cyclic order of the ring |
| `SchedulerFates.CreatedIsNext` | kernel/scheduling/scheduler.c:398-409 | A thread made comes right behind its maker, which runs on |
| `SchedulerFates.TickIs` | kernel/scheduling/scheduler.c:121-223 | A tick keeps a running thread that can run, and in a deadlock finds the nearest that can |
| `SchedulerFates.AnotherSleeps` | kernel/scheduling/scheduler.c:324-365 | A wait on behalf of another thread charges one tick less and changes nobody else |
| `SchedulerFates.AnotherBlocks` | kernel/scheduling/scheduler.c:369-394 | A wait-for on behalf of another thread blocks that one and changes nobody else |
| `SchedulerRuns.WellRemoved` | kernel/scheduling/scheduler.c:437-477 | Taking a thread out and releasing those blocked on it leaves no dangling wait |
| `SchedulerRuns.WellBlocked` | kernel/scheduling/scheduler.c:369-394 | Blocking on another live thread keeps the ring well formed |
| `Scheduler.KernelScheduler.Enable` | kernel/scheduling/scheduler.c:61-92 | Makes a ring of one main thread, or changes nothing when one runs |
| `Scheduler.KernelScheduler.Disable` | kernel/scheduling/scheduler.c:94-119 | From main, frees each ring member once and empties the ring; otherwise nothing |
| `Scheduler.KernelScheduler.ScheduleCurrentSaved` | kernel/scheduling/scheduler.c:198-318 | The walks along next do what the scheduling function of the ring says, in every branch |
| `Scheduler.KernelScheduler.FindRunnable` | kernel/scheduling/scheduler.c:204-223 | The do/while walk finds the first runnable thread |
| `Scheduler.KernelScheduler.FindMain` | kernel/scheduling/scheduler.c:238-258 | The walk finds the first main thread |
| `Scheduler.KernelScheduler.FindLeastWaiter` | kernel/scheduling/scheduler.c:261-288 | The walk finds the last thread of least wait |
| `Scheduler.KernelScheduler.ChargeAll` | kernel/scheduling/scheduler.c:295-312 | The walk charges every sleeper once, and nobody else |
| `Scheduler.KernelScheduler.Preempt` | kernel/scheduling/scheduler.c:121-196 | A tick in supervisor mode saves and schedules: its decrement loop runs over nothing |
| `Scheduler.KernelScheduler.Wait` | kernel/scheduling/scheduler.c:324-365 | Refines the wait of the ring, early exits included |
| `Scheduler.KernelScheduler.WaitThread` | kernel/scheduling/scheduler.c:369-394 | Refines the wait-for of the ring, with the rejected self-wait |
| `Scheduler.KernelScheduler.Add` | kernel/scheduling/scheduler.c:398-409 | Puts the thread right after the running one |
| `Scheduler.KernelScheduler.ExitSelf` | kernel/scheduling/scheduler.c:412-434 | Releases the waiters, unlinks and frees the running thread once, and schedules |
| `Scheduler.KernelScheduler.Remove` | kernel/scheduling/scheduler.c:437-477 | Refines removal of the running or of another thread; the freed list grows by exactly what left |
| `ThreadSyscalls.KernelThreadEnable` | kernel/syscalls/svc/thread-syscalls.c:5-8 | The handler is a step of the run |
| `ThreadSyscalls.KernelThreadDisable` | kernel/syscalls/svc/thread-syscalls.c:10-14 | The handler is a step of the run, with each thread freed once |
| `ThreadSyscalls.KernelThreadWaitMillis` | kernel/syscalls/svc/thread-syscalls.c:16-26 | The handler is a step of the run |
| `ThreadSyscalls.KernelThreadWaitFor` | kernel/syscalls/svc/thread-syscalls.c:28-38 | The handler is a step of the run; a null target does nothing |
| `ThreadSyscalls.KernelThreadCreate` | kernel/syscalls/svc/thread-syscalls.c:40-51 | Refuses a null stack, size or entry; otherwise a fresh runnable thread joins the ring |
| `ThreadSyscalls.KernelThreadDelete` | kernel/syscalls/svc/thread-syscalls.c:53-63 | The handler is a step of the run |
| `Threads.SvcThread.constructor` | kernel/scheduling/thread.c:8-28 | Initial state of a new thread |
| `PlainMap.EveryRunIsPlain` | kernel/memory/virtual_MM.c:230-570 | From any kernel space with no other space yet, every run of creating spaces, mapping pages and migrating sections leaves every address of every space translated as a plain map says: a page mapped is one entry, a migration replaces one section |
| `PlainMap.RunRefines` | kernel/memory/virtual_MM.c:230-641 | The same from any point of a run |
| `PlainMap.StepRefines` | kernel/memory/virtual_MM.c:230-641 | One step of the page tables is one step of the plain map |
| `PlainMap.PlacedShown` | kernel/memory/virtual_MM.c:398-456 | A page placed over a map reads as one more entry of the map, provided a section just taken had nothing |
| `PlainMap.ShownAfterCopy` | kernel/memory/virtual_MM.c:331-380 | A migrated section reads as the words copied, pages mapped in it before are gone, and no other section changes |
| `PlainMap.EveryPageResolves` | kernel/memory/virtual_MM.c:585-641 | After every run each address of each page mapped, in the kernel or in a space, resolves to the frame plus its distance from the start of the page |
| `PageTableRuns.RunKeepsInv` | kernel/memory/virtual_MM.c:230-570 | Every run keeps the lists aligned, sections distinct, no table shared by two entries or two owners, the kernel sections and windows shared |
| `PageTableRuns.StepKeepsInv` | kernel/memory/virtual_MM.c:230-570 | No legal step reaches the missing-table panics, and each keeps that invariant |
| `PageTableRuns.StartIsOk` | kernel/memory/virtual_MM.c:47-50 | The kernel space starts in the invariant, over any table found in place |
| `PageTableRuns.DevicesComeLast` | kernel/memory/virtual_MM.c:40-127 | The device sections, written after the kernel has migrated and mapped its own, leave the same state as if written first, and the invariant |
| `PageTableMaps.KernelMapTranslates` | kernel/memory/virtual_MM.c:398-516 | In every space the whole page then resolves to page plus offset; elsewhere nothing changes, except that an unlisted section loses the rest |
| `PageTableMaps.UserMapTranslates` | kernel/memory/virtual_MM.c:520-570 | The same for one space; no other space sees a change at any address |
| `PageTableMaps.KernelPageResolves` | kernel/memory/virtual_MM.c:398-516 | In every space each address of the page resolves to the frame plus its distance from the start of the page |
| `PageTableMaps.UserPageResolves` | kernel/memory/virtual_MM.c:520-570 | The same in the one space |
| `PageTableMaps.KernelPageIsProtected` | kernel/memory/virtual_MM.c:427-452 | A kernel page has the permissions 0b01010101 in every space and over the whole page, and is cached just when asked |
| `PageTableMaps.UserPageIsOpen` | kernel/memory/virtual_MM.c:551-566 | A user page has the permissions 0b11111111, cached |
| `PageTableGuards.KernelMapKeepsInvExactlyWhen` | kernel/memory/virtual_MM.c:398-456 | A kernel page keeps the invariant exactly when the section is listed, or is neither fixed nor listed by any space: the code checks only the first |
| `PageTableGuards.KernelMapSharesExactlyWhen` | kernel/memory/virtual_MM.c:398-456 | A kernel page keeps the sharing of kernel and fixed sections exactly when it does not go into a fixed one |
| `PageTableGuards.KernelMapLosesExactly` | kernel/memory/virtual_MM.c:405-440 | In any space an address off the page is lost exactly when it was mapped in the same section and the kernel had not listed that |
| `PageTableGuards.SpaceKeepsTheRestExactlyWhen` | kernel/memory/virtual_MM.c:429-436 | A created space keeps every address off the page exactly when the kernel lists the section, or the section is not fixed and the space has nothing else of its own in it |
| `PageTableGuards.UserMapKeepsInvExactlyWhen` | kernel/memory/virtual_MM.c:520-570 | A user page keeps the invariant exactly when its section is neither the kernel's nor fixed |
| `PageTableGuards.UserMapSharesExactlyWhen` | kernel/memory/virtual_MM.c:520-570 | Likewise the sharing of kernel and fixed sections: there is no guard in the code |
| `PageTableGuards.MigrateSharesExactlyWhen` | kernel/memory/virtual_MM.c:331-380 | Migration, which writes the kernel table only, keeps the sharing exactly when the section is not fixed and either no space exists or the section's own table is handed out again |
| `PageTableGuards.MigrateKeepsInvExactlyWhen` | kernel/memory/virtual_MM.c:331-380 | And in the same cases the whole invariant |
| `PageTableRuns.KernelIsShared` | kernel/memory/virtual_MM.c:286-293 | Every address of a kernel section or fixed section resolves alike in every space |
| `PageTableRuns.FixedEverywhere` | kernel/memory/virtual_MM.c:255-266 | Window and device sections resolve to their fixed base plus offset in every space, though descriptors differ in cacheability |
| `PageTableRuns.WindowShowsRam` | kernel/memory/virtual_MM.c:47-50 | The window at 0xec000000 shows RAM from 0x10000000, address by address |
| `PageTableRuns.DevicesAreShown` | kernel/memory/virtual_MM.c:123-127 | In every space each address of the five device sections resolves to its device plus its distance from the start of the section |
| `PageTableRuns.FixedIsPrivileged` | kernel/memory/virtual_MM.c:255-266 | In every space the entries of window and devices have access 1 and domain 0 |
| `PageTableRuns.NothingElseIsMapped` | kernel/memory/virtual_MM.c:230-300 | A space sees its own, the kernel and the fixed sections, and nothing else |
| `PageTableRuns.MigrateTranslates` | kernel/memory/virtual_MM.c:331-380 | Pages below the migrated count are translated by the source words, the rest of the section not at all, other sections as before |
| `PageTableRuns.MigrateTranslatesShared` | kernel/memory/virtual_MM.c:331-380 | Every created space sees the same when the section keeps its table |
| `PageTableRuns.MigrateFreesTable` | kernel/memory/virtual_MM.c:339-372 | Of the tables in memory exactly the one the section had is gone, and the one it has now is there |
| `PageTableRuns.DroppedLists` | kernel/memory/virtual_MM.c:339-349 | Removing the same index from both lists keeps them aligned |
| `PageTableRuns.KernelTableIs` | kernel/memory/virtual_MM.c:383-394 | The kernel table of an address is found exactly in listed sections, its entry leads there, and only from there |
| `PageTableRuns.TablesAreThere` | kernel/memory/virtual_MM.c:585-613 | Under the invariant every listed and every reachable table is in memory, and the lists are as long as each other |
| `PageTableSteps.NewSpaceSlot` | kernel/memory/virtual_MM.c:245-293 | A new table has the kernel entry in kernel sections, the fixed ones, and zero elsewhere |
| `PageTableSteps.RamWindowSlot` | kernel/memory/virtual_MM.c:255-258 | Effect of the 64-step window loop on every entry |
| `PageTableSteps.CopySectionsSlot` | kernel/memory/virtual_MM.c:286-293 | Effect of the copying loop on every entry |
| `PageTableSteps.NewWindowIsCached` | kernel/memory/virtual_MM.c:255-258 | A new space caches and buffers the window on RAM, the space of the kernel does not |
| `PageTableSteps.WindowsFlags` | kernel/memory/virtual_MM.c:255-266 | The device sections are never cached or buffered |
| `PageTableSteps.CreateKeepsInv` | kernel/memory/virtual_MM.c:230-300 | A new space keeps the invariant |
| `PageTableSteps.PutKernelKeepsInv` | kernel/memory/virtual_MM.c:398-456 | A kernel page keeps the invariant, listed section or not |
| `PageTableSteps.PutUserKeepsInv` | kernel/memory/virtual_MM.c:520-570 | A user page keeps the invariant, listed section or not |
| `PageTables.WriteShows` | kernel/memory/virtual_MM.c:424-427 | One word written to a coarse table changes the addresses looked up in that word and no other: writer and reader index alike |
| `PageTables.SlotOfSetSlot` | kernel/memory/virtual_MM.c:422-422 | One first-level entry serves exactly the addresses of its section |
| `PageTables.SmallPageResolves` | kernel/memory/virtual_MM.c:605-627 | Where the tables lead to a small page, the reader answers its frame plus the distance from the start of the page |
| `PageTables.NothingElseResolves` | kernel/memory/virtual_MM.c:585-641 | Descriptors of no known kind resolve to nothing, at both levels |
| `Descriptors.ReadCPTD` | kernel/memory/virtual_MM.c:709-715 | What the reader gets back from a coarse table descriptor |
| `Descriptors.ReadSD` | kernel/memory/virtual_MM.c:717-723 | What the reader gets back from a section descriptor |
| `Descriptors.ReadLPD` | kernel/memory/virtual_MM.c:726-732 | A large page descriptor translates as written |
| `Descriptors.ReadSPD` | kernel/memory/virtual_MM.c:734-740 | A small page descriptor translates as written, whatever its flags |
| `Descriptors.SPDFlags` | kernel/memory/virtual_MM.c:734-740 | The flags of a small page come back as written |
| `Descriptors.SPDResolves` | kernel/memory/virtual_MM.c:734-740 | Whatever its flags, a small page resolves to its frame plus the distance from the start of the page |
| `Descriptors.SDFlags` | kernel/memory/virtual_MM.c:717-723 | Cacheability, domain and access of a section come back as written |
| `Descriptors.SPDIsSum` | kernel/memory/virtual_MM.c:734-740 | The word of a small page is the sum of its fields, each at its place |
| `Descriptors.LPDIsSum` | kernel/memory/virtual_MM.c:726-732 | The word of a large page likewise |
| `Descriptors.SDIsSum` | kernel/memory/virtual_MM.c:717-723 | The word of a section likewise |
| `Descriptors.CPTDIsSum` | kernel/memory/virtual_MM.c:709-715 | The word of a coarse table likewise |
| `Descriptors.IndicesAgree` | kernel/memory/virtual_MM.c:611-611 | Subtract-and-divide of the writers and mask-and-shift of the reader give the same index |
| `Descriptors.SamePageIs` | kernel/memory/virtual_MM.c:585-641 | Addresses share a page exactly when they share both indices |
| `VirtualMM.VirtualMemory.constructor` | kernel/memory/virtual_MM.c:40-50 | Takes over the table found in place and writes the window on RAM |
| `VirtualMM.VirtualMemory.MapDevices` | kernel/memory/virtual_MM.c:123-127 | Writes the five device sections over what the kernel has mapped |
| `VirtualMM.VirtualMemory.AddVirtualKernelPage` | kernel/memory/virtual_MM.c:398-456 | Arrays and both chains change as the mapping function says, or the panic is reached and nothing changed |
| `VirtualMM.VirtualMemory.AddVirtualKernelPageNoncached` | kernel/memory/virtual_MM.c:458-516 | The same with the cache bits clear |
| `VirtualMM.VirtualMemory.AddVirtualPage` | kernel/memory/virtual_MM.c:520-570 | The arrays and both chains of one space change as the mapping function says |
| `VirtualMM.VirtualMemory.ShareKernelSection` | kernel/memory/virtual_MM.c:429-436 | The loop over the spaces writes the kernel entry into each |
| `VirtualMM.VirtualMemory.CreateAddressSpace` | kernel/memory/virtual_MM.c:230-300 | Clear, windows, copied sections: the table of the new space |
| `VirtualMM.VirtualMemory.MigrateKernelCPT` | kernel/memory/virtual_MM.c:331-380 | Unlist, free, copy, list again: the migration function; a section listed without a table ends in the read through null |
| `VirtualMM.VirtualMemory.GetKernelCPT` | kernel/memory/virtual_MM.c:383-394 | Search one list, index the other; a section listed without a table ends in the read through null |
| `VirtualMM.VirtualMemory.GetPhysicalAddress` | kernel/memory/virtual_MM.c:585-641 | The two-level walk over the arrays is the translation function; on a small page the answer is the frame plus the distance from the start of the page |
| `AddressSpaces.AddressSpace.Take` | kernel/memory/virtual_MM.c:412-420 | Both chains of a space grow at the head, each by an entry just requested |
| `AddressSpaces.AddressSpace.Find` | kernel/memory/virtual_MM.c:385-393 | Searches one chain and indexes the other: the table listed for the section, or none because the second chain has ended |
| `AddressSpaces.AddressSpace.Drop` | kernel/memory/virtual_MM.c:338-349 | Unlinks the entries of a section from both chains; reads through null exactly when the second has ended |
| `AddressSpaces.ChainsApart` | kernel/LinkedList.c:6-43 | The chains of two spaces have no entry in common, so a call on one leaves the other linked |
| `LinkedLists.List.Add` | kernel/LinkedList.c:6-16 | The entry becomes the first |
| `LinkedLists.List.Remove` | kernel/LinkedList.c:20-43 | Takes out the first occurrence and its value; finds it exactly when present, or when asked for none; asked for none on an empty list it reads through null |
| `LinkedLists.List.Get` | kernel/LinkedList.c:45-61 | Entry at an index, or none past the end |
| `LinkedLists.List.Search` | kernel/LinkedList.c:64-80 | First entry with a value and its index; none and zero otherwise |
| `LinkedLists.List.Destroy` | kernel/LinkedList.c:83-93 | Frees every entry exactly once, in order |
| `LinkedLists.WithoutFirstAt` | kernel/LinkedList.c:20-43 | Removing a first occurrence leaves what is before and after it |
| `PageOwners.RunKeepsInv` | kernel/memory/physical_MM.c:76-269 | Over every run of growing, taking and freeing, in parts too, each held page has its bit set in one place and one owner, and blocks stay apart |
| `PageOwners.StepKeepsInv` | kernel/memory/physical_MM.c:76-269 | One step keeps that |
| `PageOwners.PageIsUnowned` | kernel/memory/physical_MM.c:213-232 | A page handed out is held by nobody and lies inside its chunk |
| `PageOwners.TakingPage` | kernel/memory/physical_MM.c:213-232 | Handing out a page keeps the owners |
| `PageOwners.TakingRun` | kernel/memory/physical_MM.c:106-140 | Every page of a run handed out was held by nobody, and the whole run lies inside one chunk, index size included |
| `PageOwners.RunIsUnowned` | kernel/memory/physical_MM.c:106-140 | A run found free is unowned throughout |
| `PageOwners.OwnedRunIsPlaced` | kernel/memory/physical_MM.c:142-154 | A run that is owned lies in one block, so freeing it clears its own bits |
| `PageOwners.FreeKeepsInvExactlyWhen` | kernel/memory/physical_MM.c:142-154 | Freeing pages of an owner, all or some or one, keeps the owners exactly when page 127 of a block of 128 does not go without the page behind it that is held |
| `PageOwners.NothingSplits` | kernel/memory/physical_MM.c:142-154 | That never happens to blocks of fewer pages, nor when an owner frees all it holds |
| `PageOwners.SplitLeavesHeldPageFree` | kernel/memory/physical_MM.c:234-248 | When it does, a run with the held page in it is free to take |
| `PageOwners.NoPageTwice` | kernel/memory/physical_MM.c:106-140 | From the empty allocator, after any run, the run of pages handed out next is held by nobody, and no other page changes hands |
| `PageOwners.NoSinglePageTwice` | kernel/memory/physical_MM.c:213-232 | The same for a single page |
| `PageOwners.PageOrFull` | kernel/memory/physical_MM.c:213-232 | No page is found exactly when every block counts full; otherwise some page is there to take |
| `PageOwners.ChunksAreKept` | kernel/memory/physical_MM.c:76-104 | Over every run the table has a block for each chunk given, by the address it came with and in order, up to 196; so freeing all gives each of these back once, and the others went back at once |
| `PageBlocks.FreeRunStaysInside` | kernel/memory/physical_MM.c:250-269 | A free run cannot leave its block: the page behind the last is nobody's, and an unknown page counts as used |
| `PageBlocks.InChunk` | kernel/memory/physical_MM.c:76-104 | The slack pages keep even the page at index size inside the chunk |
| `PageBlocks.OneBlockCovers` | kernel/memory/physical_MM.c:234-269 | With the closed upper bound a page is still covered by one block only |
| `PageBlocks.IsUsedAt` | kernel/memory/physical_MM.c:250-269 | What the search over blocks answers for each page |
| `PageBlocks.SetRunAt` | kernel/memory/physical_MM.c:142-154 | Setting a run page by page is setting a range of bits |
| `PageBlocks.TakesLowest` | kernel/memory/physical_MM.c:213-232 | The page taken was free, all before it in its block were used, and the blocks passed over count full |
| `PageBlocks.TakesFirstFit` | kernel/memory/physical_MM.c:106-140 | The run taken is free and aligned, and no other place where one fits comes before it |
| `PageBits.FewOnesLeaveRoom` | kernel/memory/physical_MM.c:213-232 | A popcount below size leaves a clear bit below size, whatever bit size holds |
| `PageBits.GivesUpTooEarly` | kernel/memory/physical_MM.c:213-232 | The shortcut gives up with a page free exactly when bit size is set and one page below is clear |
| `Words.PopCountIsCount` | kernel/memory/physical_MM.c:213-219 | The two popcounts add up to the number of set bits |
| `Words.PutIsPut` | kernel/memory/physical_MM.c:174-193 | Setting or clearing a bit in two words is that on the 128 bits |
| `Words.GetIsGet` | kernel/memory/physical_MM.c:195-211 | Reading a bit in two words is that on the 128 bits |
| `Words.BitsFromLowest` | kernel/memory/physical_MM.c:174-211 | Bits of a word count from the lowest |
| `PhysicalMM.PageAllocator.AllocPageblock` | kernel/memory/physical_MM.c:76-104 | Adds a block of a chunk, or gives the chunk back when the array is full |
| `PhysicalMM.PageAllocator.RemovePageblock` | kernel/memory/physical_MM.c:55-69 | Removes the first block of a chunk, keeping the order |
| `PhysicalMM.PageAllocator.FreeAllPageblocks` | kernel/memory/physical_MM.c:156-172 | Returns every chunk once, in table order and by the address the operating system gave, and empties the table |
| `PhysicalMM.PageAllocator.UsePage` | kernel/memory/physical_MM.c:213-232 | Takes the lowest clear page of the first block with room and changes no other bit; NULL only when every block counts full |
| `PhysicalMM.PageAllocator.UseConsecutivePages` | kernel/memory/physical_MM.c:106-140 | Takes the first free aligned run and marks exactly it; its address is a multiple of the alignment; NULL only when there is none |
| `PhysicalMM.PageAllocator.FreeConsecutivePages` | kernel/memory/physical_MM.c:142-154 | Clears the run page by page |
| `PhysicalMM.PageAllocator.SetPageUsedBit` | kernel/memory/physical_MM.c:234-248 | Changes the bit of that page in the block that covers it |
| `PhysicalMM.PageAllocator.IsPageUsed` | kernel/memory/physical_MM.c:250-269 | Answers for the covering block, used when there is none |
| `SlabOwners.NoObjectTwice` | kernel/memory/slab.c:494-706 | After any run of growing, allocating and freeing in any caches, the object handed out next is held by nobody |
| `SlabOwners.RunKeepsInv` | kernel/memory/slab.c:409-706 | Over every run each object held is marked used in one slab, and slabs lie apart |
| `SlabOwners.TakenIsApart` | kernel/memory/slab.c:652-706 | The object handed out shares no byte with any object held |
| `SlabOwners.OthersStayMarked` | kernel/memory/slab.c:565-609 | Whichever slab accepts an address given back, the index one too many included, no other owner loses an object |
| `SlabOwners.GivenIsClear` | kernel/memory/slab.c:565-609 | Taken back by its own slab, exactly the bit of the object is clear again |
| `SlabOwners.GivenIsClearExactlyWhen` | kernel/memory/slab.c:565-609 | Whichever slab accepts it: the object is clear again exactly when that is its own; otherwise it was accepted as the index one too many, stays marked, and nobody holds it |
| `SlabOwners.OnlyNeighbourAccepts` | kernel/memory/slab.c:576-594 | Another slab accepts an object in use only as the index one too many |
| `SlabOwners.AcceptedInside` | kernel/memory/slab.c:575-583 | An accepted address lies in the object of its index, unless that is the tolerated one |
| `SlabOwners.AllocIsTake` | kernel/memory/slab.c:494-563 | What a cache allocates is a step of such a run |
| `SlabOwners.AllocIsGrowAndTake` | kernel/memory/slab.c:498-502 | When the cache had to grow, that is two steps of the run |
| `SlabOwners.FreeIsGive` | kernel/memory/slab.c:409-491 | What a cache takes back is a step of such a run |
| `SlabLoop.HangsExactlyWhen` | kernel/memory/slab.c:520-562 | The allocation loop fails to return exactly when the first partial slab is exhausted and either a full slab exists, or no free one does and the second partial slab is exhausted too |
| `SlabLoop.NeverLeavesFull` | kernel/memory/slab.c:524-546 | Once on the full list, the loop goes round its first two slabs for ever and loses none |
| `SlabLoop.GrowsFirst` | kernel/memory/slab.c:547-552 | Growing first helps exactly when the next partial slab has room |
| `SlabCaches.Cache.AllocObject` | kernel/memory/slab.c:494-563 | Wherever the call returns, the object's bit was the lowest clear one of its slab and is now set, no other bit changed, and the three linked lists are as stated; neither empty-slab panic is reached |
| `SlabCaches.Cache.IteratePartial` | kernel/memory/slab.c:524-546 | One turn of the loop on the partial list is one step of the loop machine |
| `SlabCaches.Cache.IterateFull` | kernel/memory/slab.c:524-546 | One turn on the full list finds nothing and swaps two slabs |
| `SlabCaches.Cache.AllocFromFree` | kernel/memory/slab.c:505-517 | A free slab always has an object to give |
| `SlabCaches.Cache.FreeObject` | kernel/memory/slab.c:409-491 | Succeeds exactly when a full or partial slab accepts the address; the first that does loses one object and moves as stated; otherwise nothing changes; every slab stays in exactly one list |
| `SlabCaches.Cache.RefusedExactlyWhen` | kernel/memory/slab.c:411-488 | An object that comes back is refused exactly when its slab is on the free list and no full or partial slab accepts it |
| `SlabCaches.Cache.FreeFromFull` | kernel/memory/slab.c:419-439 | The first full slab that takes the object moves to the partial list |
| `SlabCaches.Cache.FreeFromPartial` | kernel/memory/slab.c:465-488 | The slab moves to the free list exactly when no object among those checked is in use, for objects of eight bytes or more; exactly when the bytes checked are zero, where they lie in memory |
| `SlabLists.Move` | kernel/memory/slab.c:425-434 | Unlink and push of pointers keep the three lists a partition of the slabs |
| `SlabLists.RetireFirst` | kernel/memory/slab.c:531-545 | The retirement reads next after redirecting it, so the cursor lands on the full list |
| `SlabLists.RetireSecond` | kernel/memory/slab.c:531-545 | On the full list it swaps the first two slabs and stays there |
| `SlabLists.Moved` | kernel/memory/slab.c:425-434 | The partition survives a move |
| `Slabs.Slab.AllocObject` | kernel/memory/slab.c:652-705 | The lowest clear index, its address and its bit; NULL exactly when full; no byte of the descriptor or of an object is written |
| `Slabs.Slab.FreeObject` | kernel/memory/slab.c:565-609 | Which addresses are accepted, and the bit each clears; no byte of the descriptor or of an object is written |
| `Slabs.Slab.IsSlabFree` | kernel/memory/slab.c:707-745 | For objects of eight bytes or more it answers exactly that none of the objects checked is in use; for all, that the bytes checked in memory are zero, which leaves room |
| `Slabs.Slab.BitOf` | kernel/memory/slab.c:673-701 | Object i has bit i % 8 of byte i / 8 of the map |
| `ByteBits.BitsFromLowest` | kernel/memory/slab.c:673-701 | Bits of a byte count from the lowest |
| `SlabLayout.ObjectsAreSafe` | kernel/memory/slab.c:652-706 | Objects are disjoint, inside the slab, clear of descriptor and bitmap |
| `SlabLayout.MapIsBetween` | kernel/memory/slab.c:652-681 | With objects of less than 128 bytes on slab the map lies at byte 16, right behind the descriptor, and ends before the first object, which is at most three bytes off |
| `SlabLayout.MapIsElsewhere` | kernel/memory/slab.c:652-681 | All other slabs hold nothing but objects |
| `SlabLayout.MapByteIsClear` | kernel/memory/slab.c:673-681 | The byte written for an object is in no descriptor and no object |
| `SlabLayout.MapIsEnough` | kernel/memory/slab.c:652-681 | The map has a bit for every object and less than two bytes more |
| `SlabLayout.SlabIsFilled` | kernel/memory/slab.c:652-681 | A slab holds as many objects as fit |
| `SlabLayout.OneTooManyPasses` | kernel/memory/slab.c:576-594 | The index one too many is always accepted |
| `SlabLayout.RoomForObjects` | kernel/memory/slab.c:652-680 | At least one object fits, after an aligned start behind the bitmap |
| `SlabLayout.IndexInMap` | kernel/memory/slab.c:565-609 | Every bitmap byte touched lies in the bitmap, the tolerated index objs included |
| `SlabLayout.CheckSeesAllExactlyWhen` | kernel/memory/slab.c:707-745 | The bytes checked tell that a slab is empty exactly when there are at most eight objects for each of them |
| `SlabLayout.CheckInMemoryExactlyWhen` | kernel/memory/slab.c:707-745 | What the emptiness check reads lies in memory exactly when the map is on the slab or objects have at least eight bytes |
| `SlabLayout.CheckInMapExactlyWhen` | kernel/memory/slab.c:707-745 | It lies in the used map exactly when objects have at least eight bytes |
| `SlabLayout.ObjectComesBack` | kernel/memory/slab.c:565-609 | An object freed is found at the index it was given out from |
| `Kmalloc.Choose` | kernel/memory/slab.c:749-807 | The first of the smallest caches that fit; none above 1024 bytes |
| `Calendar.UnixToTimestamp` | kernel/drivers/systime.c:228-304 | For positive time the date found conserves it: years, months, days, hours, minutes and seconds add up to it, each in range; nothing otherwise |
| `Calendar.FindYear` | kernel/drivers/systime.c:233-245 | The year loop, with the 32-bit year |
| `Calendar.FindMonth` | kernel/drivers/systime.c:246-258 | The month loop stops by twelve |
| `Calendar.MomentIs` | kernel/drivers/systime.c:104-304 | Before the year wraps, the date found is that of the calendar: 1970 and the years, the leap days by fours, hundreds and four hundreds, the days before each month, and the time of day |
| `Calendar.YearStartIs` | kernel/drivers/systime.c:104-136 | Years start where the calendar says, in closed form |
| `Calendar.MonthStartIs` | kernel/drivers/systime.c:138-193 | Months start on their day numbers, from March on a leap day later in leap years |
| `Calendar.MonthsFillYear` | kernel/drivers/systime.c:104-193 | The twelve month lengths add up to the year length |
| `Calendar.DatesSort` | kernel/drivers/systime.c:228-304 | A later time has a lexicographically later date, while the year fits 32 bits |
| `Calendar.LaterIsLater` | kernel/drivers/systime.c:228-304 | For any times, a later one is in a later year from 1970 or later within the same year |
| `Calendar.OneDate` | kernel/drivers/systime.c:228-304 | A time has one date |
| `Calendar.SharedDateExactlyWhen` | kernel/drivers/systime.c:228-304 | Two times share a date exactly when their years are a multiple of 2^32 apart and they are at the same place in their year |
| `Calendar.DatesComeBack` | kernel/drivers/systime.c:228-304 | Every date comes back 2^32 years later |
| `Calendar.LateExactlyWhen` | kernel/drivers/systime.c:272-304 | A time is written as second 60 exactly at whole minutes, and as 23:59 second 60 of the day before exactly at midnight |
| `Calendar.YearsFit` | kernel/drivers/systime.c:228-304 | A bound on time below which the year has not wrapped |
| `Clock.SetAndRun` | kernel/drivers/systime.c:36-98 | After setting u, seconds read u at once, u+s after s seconds of the second clock, and milliseconds floor((32000u+n)/32) after n ticks |
| `Clock.SystemClock.Run` | kernel/drivers/systime.c:36-43 | Ticks with each wrap counted once add up exactly |
| `Clock.SystemClock.SetUnix` | kernel/drivers/systime.c:85-98 | Seconds and milliseconds both start at the time set; nothing for a time not positive |
| `Clock.SystemClock.UnixMilli` | kernel/drivers/systime.c:60-63 | Milliseconds of the ticks so far |
| `NumberText.SprintBase` | kernel/libk/string.c:240-304 | Writes the leading min(digits, length-1, 34) digits, returns their number, and touches nothing else |
| `NumberText.FillBuffer` | kernel/libk/string.c:249-261 | The digit loop leaves the digits last first |
| `NumberText.PrintThenRead` | kernel/libk/string.c:240-304 | Reading the text in its base gives the number back |
| `NumberText.BigDigitIsLost` | kernel/libk/string.c:253-254 | The text can be read exactly when no digit exceeds 15 |
| `NumberText.DigitCharIs` | kernel/libk/string.c:253-254 | Digits are 0 to 9 and a to f |
| `NumberText.SmallBasesPrint` | kernel/libk/string.c:253-254 | No digit does in bases up to 16 |
| `NumberText.RoomFor32` | kernel/libk/string.c:273-294 | A 32-bit number in base 2 or more fits the buffer |
| `NumberText.RoomFor64` | kernel/libk/string.c:240-261 | A 64-bit number in base 4 or more fits the buffer |
| `NumberText.FitsExactlyWhen` | kernel/libk/string.c:242-251 | In bases 2 to 16 a number has at most n digits exactly when it is below the n-th power of the base, so from the 36th on the scratch buffer is overrun |
| `Shortcomings.LongWaitPanics` | kernel/syscalls/svc/thread-syscalls.c:5-51 | Timeslice 1, four system calls: main waits for a thread that waits for 0xfffffffe milliseconds, and the scheduler panics |
| `Shortcomings.ExitPanics` | kernel/scheduling/scheduler.c:412-434 | Timeslice 1: after a run of nine steps without a panic, the running thread exits and the scheduler panics |
| `Shortcomings.WaitWraps` | kernel/scheduling/scheduler.c:324-365 | Timeslice 1: main waits for 0xffffffff milliseconds and is left waiting for no ticks |
| `Shortcomings.CreatedTooEarly` | kernel/syscalls/svc/thread-syscalls.c:40-51 | The first call creates a thread: it is lost |
| `Shortcomings.UserMapUnshares` | kernel/memory/virtual_MM.c:520-570 | A kernel page, a space, then a user page in the kernel section or in the RAM window: the section is no longer shared |
| `Shortcomings.MigrateUnshares` | kernel/memory/virtual_MM.c:331-380 | A kernel page, a space, then migration to a new table: no longer shared |
| `Shortcomings.KernelMapTakesOver` | kernel/memory/virtual_MM.c:429-436 | A space, a page of its own, then a kernel page in the same section: the space loses its page |
| `Shortcomings.KernelMapUnmaps` | kernel/memory/virtual_MM.c:405-440 | A section found mapped is unmapped but for one page by the first kernel page in it |
| `Shortcomings.FreePageIsNotFound` | kernel/memory/physical_MM.c:213-232 | Grow by two pages, take one, take the next two, free the first: it is free and not found |
| `Shortcomings.HeldPageIsFreeToTake` | kernel/memory/physical_MM.c:234-248 | Take all 129 pages of a block, free page 127: pages 127 and 128 can be taken, though 128 is held |
| `Shortcomings.ThirdAllocationHangs` | kernel/memory/slab.c:494-563 | A cache of page-sized objects returns from two allocations and not from the third |
| `Shortcomings.NinthIsRefused` | kernel/memory/slab.c:409-491 | Nine of 32 objects of 128 bytes are allocated, the first eight freed: the slab counts as empty, and the ninth is refused and stays in use |
| `Shortcomings.CheckReadsBehindMap` | kernel/memory/slab.c:736-736 | With objects of four bytes off slab it reads behind the map |
| `Shortcomings.NeighbourTakesObject` | kernel/memory/slab.c:594-594 | Two page-sized objects are allocated and the second freed: the slab of the first takes it, and it stays in use |
| `Shortcomings.FirstSecondComesBack` | kernel/drivers/systime.c:228-304 | The first second of 1970 has the date of one 2^32 years later |
| `Shortcomings.MidnightIsLate` | kernel/drivers/systime.c:260-304 | The first midnight is second 60 of 23:59 |
| `Shortcomings.SixteenIsLost` | kernel/libk/string.c:253-254 | 16 has no text in base 17 |
| `Shortcomings.BaseThreeOverruns` | kernel/libk/string.c:242-251 | The largest 64-bit number overruns the scratch buffer in base 3 |

## Left out

- Register save and restore, exception vectors, interrupt wrappers, cache and TLB maintenance: effects of the hardware.
- Device drivers, GUI, shell, loaders, Lua bindings, the host system's calls: plumbing for input and output.
- The stack and registers of a thread: only its place in the ring, status and lifetime are modelled.
- Round-robin fairness: the scan for a runnable thread starts at the running one, so nothing of the kind is promised.
- The list of spaces: a sequence in the class, while the two lists of each space are linked.
- SlabCaches.Cache.AllocObject: requires the states in which the loop returns; SlabLoop says exactly which those are.
- SlabOwners.FreeIsGive: speaks of calls that succeed; a refused object stays held.
- Slabs.Slab.IsSlabFree: is no exact test of emptiness, since the code looks at part of the bitmap only; for objects of less than eight bytes it also looks behind the map, and an emptied slab may be missed.
- PhysicalMM.PageAllocator.SetPageUsedBit: the dirty and paged-out bits follow the same pattern and are not modelled.
- Clock.SystemClock.SetUnix: times whose product with 1000 leaves 63 bits are excluded.
- NumberText.SprintBase: numbers whose digits overrun the scratch buffer are excluded; FitsExactlyWhen says which those are. The unused second scratch buffer and the double printer are not modelled.
- Freeing the pages of a coarse table and destroying a space: the loop runs over 1024 words of a table of 256.
- Setting the clock in milliseconds and turning a date back into seconds: they do not invert the functions here.
- growCache and the start of the slab allocator: set up through raw tables; a new slab enters as a parameter.
- Deferred actions, locks, hooks, file system stubs: easy or incomplete.
