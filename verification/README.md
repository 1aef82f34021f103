# A Dafny model of the userland servers

This project models the parts of the system that keep real state and carry strong invariants, and
proves what they keep. Each module follows one component; its methods change state as the code
does and are proved against functions and predicates on values, about which the lemmas speak.

| modules | component |
|---|---|
| Paging, Kernel, AddressSpace, SpaceSteps, SpaceFailures, Quota, TaskSteps, AddressSearch, PageObjects, StackBooks, StackGrowth, TaskTables, QuotaRuns, StackRuns | the memory manager's task table (`mm/src/task_table.cpp`) |
| MemoryManagers | physical memory (`mm/src/memory_manager.cpp`) |
| HeapChain, Heaps | the C library heap (`libc/src/crt/heap.c`) |
| Dtb, DtbFlattening, DtbLookup, DtbReg | the flattened device tree parser (`dm/src/dtb.cpp`; section 5.4 of the Devicetree Specification v0.4) |
| Terminal, LineEditor, Consoles | the console line editor (`cons/src/console.cpp`; sections 8.3.18 and 8.3.20 of ECMA-48) |
| Elf, ElfLoaders, InitLoader, ElfFiles | the two ELF loaders (`apm/src/elf_loader.cpp`, `init/src/task.c`; System V gABI, chapters 4 and 5) |
| Argv, Launch | arguments from client to new task (`libc/src/service/apm.c`, `apm/src/server.cpp`, `apm/src/task_manager.cpp`) |
| Ramfs | files, streams and the mount point's transport (`ramfs/src`, `fs/src/mount_point.cpp`) |
| Cpio | the archive loader and the archive scan (`ramfs/src/cpio.cpp`, `init/src/cpio.c`) |
| Bytes, Digits, Words, Options | byte strings, numbers as text, 64-bit counters, optional values |

`dafny verify dfyconfig.toml` checks everything.

## How it is modelled

**The kernel.** It is not part of the repository. `Kernel` states its rules as functions on a value:
`map_table` and `map_page` fail on a slot in use, `remap_page` moves a leaf and fails unless the
source table holds it, new pages read as zero, a memory object raises the used size of its region.
Page sizes are 4096 * 512^level, as in Sv39 (section 4.4 of the RISC-V Privileged Specification
v1.12); the highest level is a parameter. Where the code asks for memory the model lets the
request fail at any time and counts it (`denials`, `failures`), so that a failure without such a
count has a proved cause. A refusal of the server's own mapping in the data path is counted
apart (`refusals`), with its cause (`ServerRefused`).

**The task table.** The nested maps `page_table_caps[level][base]` are one map with the key
(level, base). `TaskTable.Valid` is the invariant of every run: the index is a closed tree that
the kernel's tree agrees with, every recorded page is the kernel's leaf for its address, the
record of a task not attached as internal is complete, no two tasks share anything, and what is
committed is what is recorded plus the bytes charged twice, as 64-bit words. The ghost maps `twice`
and `quota` count the second charges and the quota without wrap-around; a task never charged twice
whose quota is below 2^64 keeps within it. Recorded pages and quotas of one task
are written `Books`; tables added on the way are allowed everywhere. `Panic` means that the server
ends: a failed assertion, a failed `unwrap_sysret`, or a copy that leaves its page.

**The heap.** Memory is a map of words; headers lie in it. `Heap.Valid` says that the links form
one ring through all blocks and that the blocks are aligned, in one arena each, and apart.

**Parsers and formats.** Bytes are characters. The device tree parser and the archive readers are
functions of their input that the methods are proved equal to; writers of the same formats are
their inverses, with every tag and offset as a number of its own. Running out of bytes, an abort and an uncaught exception are one result each.

**The console.** The terminal is a row without a right edge and a column; a line feed goes to a
blank row. `Run` folds the keys with an editor that only knows the text left and right of the
cursor, and `Console.Idle` and `Console.Editing` tie buffer, terminal, keys read and bytes handed
out to it.

**ELF images.** A loader fills an image of 4 KiB pages; mapping a page fails where one is mapped.
`Built` says that the image is the old one plus every loaded segment, each page once, byte by byte;
a page meant for address 0 lands where the memory manager chooses (`Spot`). Sums of addresses and
of file offsets are cut to 64 bits as in the code.

**The archive search.** It runs on addresses: the archive lies at a base, positions are 64-bit
differences from it, and the search is followed until it ends or comes back to a position.

Where the code and its documentation differ, the model follows the code.

## Findings

- The data path of `map` charges a page in `remap` and again in `map` (mm/src/task_table.cpp:434
  and :482). The invariant counts the second charge in `twice`, so that accounting stays exact;
  without data nothing is charged twice (`RequestStack`).
- `vpmap` and `vpremap` raise the quota by the page in 64 bits (mm/src/task_table.cpp:226 and :306).
  A quota may be so large that it wraps around: the task is then beyond its quota and `vmap`
  refuses it every further page (`WrapQuota`). `VpMap` and `VpRemap` state the exact condition.
- The limit of `vmap` is the end of the space less the stack quota and the page, in 64 bits. With a
  stack quota that leaves no room for the page it wraps around, and the address of an exhausted
  search passes (`ExhaustedPasses`); `ExhaustedIsTooHigh` gives the exact condition.
- A data path that stops in its second half leaves the page in the server (`Map`), and a growth
  that stops behind its first page leaves that page recorded, so that the same request is refused
  from then on (`GrowStack`).
- `grow_stack` keeps the size it computed before the level loop (mm/src/task_table.cpp:510-525).
  Below 2 MiB the range is tiled exactly; below 1 GiB `ExactUnlessOvershoot` gives the exact
  condition. The default stack asked for in full overshoots (`FullDefaultStackOvershoots`), and a
  first stack that does so can never be completed (`CoveredStaysInside`).
- With that size only the first page of a pass gets data (mm/src/task_table.cpp:514-517). `Pourable`
  is the exact condition under which the data ends up at the top of the stack, for ranges of any
  size; otherwise the growth fails or its last page stays blank (`GrowStack`). A range of 2 MiB and
  4 KiB from a boundary on is one that loses its data without an error (`OnePassLosesData`). Below
  1 GiB `PourableBelowGiga` gives the condition in closed form.
- `vpremap` subtracts from its source without looking for the page. For sources that are not
  internal the page is always recorded (`HeldLeafIsRecorded`).
- The stack that is requested for arguments counts the text but not the pointers
  (apm/src/task_manager.cpp:70). Below 2 MiB the stack is laid out exactly when both fit
  (`Launch`); with one argument of 16383 characters they do not, and the task is attached without
  a stack (`LaunchLongArgument`). A requested stack of exactly 2 MiB is never laid out where the
  space ends on a 2 MiB boundary and has pages of that size (`Launch`).
- `init`'s loader counts file bytes from the start of the segment's first page
  (init/src/task.c:184). `InitIsRightIff` gives the exact condition under which it is right.
- `init`'s check adds offset and size of a segment in 64 bits (init/src/task.c:105-119). A segment
  that starts in front of the file passes (`InFrontPasses`); `ValidIsContained` says that these are
  exactly the segments that end beyond 2^64.
- `cpio_find_file` reads sizes with a sign (init/src/cpio.c:20-30). With a negative data size the
  next header can be the same one, and the search never ends (`EndlessArchive`).
- Both loaders ask for address 0 when a segment reaches into the first page, and the memory
  manager takes that as a request for any address; `AtItsAddressIff` says that the image is then,
  and only then, not the one the file means.
- A byte that is neither printable nor a control the editor knows is inserted and echoed as if it
  took one cell (cons/src/console.cpp:146-161). Buffer and lines stay right for every byte
  (`KeyInStep`, `CookedRead`); the row stays right exactly without such bytes (`KeyIsShownIff`), and
  `TabIsNotShown` is one.
- A line end inside an open escape sequence stops `cooked_read` without resetting the cursor
  (cons/src/console.cpp:167-171). `EndInsideEscape` says that this leaves cursor and row right
  exactly when the cursor stood at 0 and nothing but blanks had been typed; `EndAfterMovingHome` is
  a line with the cursor at 0 that stays on the row.
- A heap request that no block serves must fit one arena (libc/src/crt/heap.c:60-63): otherwise the
  split wraps around and writes a header behind the arena (`OversizedSplit`, `TailOutsideArenas`).
  The last 15 sizes below 2^64 are rounded to 0, and a block of no bytes is handed out
  (`RoundedHoldsIff`, `Alloc`).
- A write in front of a file resizes it to a wrapped length (ramfs/src/file.cpp:36); it has no
  defined result in the model.
- The full name of the device tree's root is not found by `has_node` (`RootIsNotItsOwnName`).

## Model

| member | source | states |
|---|---|---|
| `Paging.JoinAddress` | mm/src/task_table.cpp:352-370 | A slot of an aligned table translates an aligned page inside it, and cutting that address back gives the same slot and base, for every level |
| `Paging.UpperPartKept` | mm/src/task_table.cpp:352-372 | The tables above a page are those above each of its addresses |
| `Paging.CutIsDivision` | mm/src/task_table.cpp:343-373 | Base and slot of an address are division by the page size of the level |
| `Paging.AlignedIsDivisible` | mm/src/task_table.cpp:116-118 | An address is aligned exactly when the page size divides it; pages are 4096 * 512^level bytes |
| `AddressSpace.WalkReaches` | mm/src/task_table.cpp:343-373 | The hardware walk from the root passes through every registered table around the address |
| `AddressSpace.RecordedTranslates` | mm/src/task_table.cpp:171-232 | Every address of a recorded page translates to that page, whatever its size |
| `AddressSpace.FoundIsRecorded` | mm/src/task_table.cpp:171-313 | Whatever the walk finds in a complete record is recorded, at the base of its page |
| `AddressSpace.RecordIsTranslation` | mm/src/task_table.cpp:171-313 | Recorded map and translation agree in both directions for tasks that are not internal |
| `AddressSpace.RecordedPagesAreDisjoint` | mm/src/task_table.cpp:171-313 | Recorded pages of any mix of sizes never overlap |
| `AddressSpace.TasksShareNothing` | mm/src/task_table.cpp:171-313 | Two tasks never share a table or a page object |
| `SpaceSteps.NewTableStep` | mm/src/task_table.cpp:351-370 | Hanging one table keeps the record of every task right and complete |
| `SpaceSteps.NewPageStep` | mm/src/task_table.cpp:220-224 | Mapping one page keeps the record of every task right and complete |
| `SpaceSteps.RemovalStep` | mm/src/task_table.cpp:479-480 | Taking one recorded page out keeps the record of every task right and complete |
| `SpaceSteps.RemapIsUnmapThenMap` | mm/src/task_table.cpp:474-480 | A remap is an unmapping followed by a mapping, even inside one task |
| `SpaceFailures.HangFails` | mm/src/task_table.cpp:354-366 | The kernel refuses a table only where a larger recorded page covers the address |
| `SpaceFailures.PlaceFails` | mm/src/task_table.cpp:427-430 | The kernel refuses a page at an unrecorded address only where a table of smaller pages hangs |
| `SpaceFailures.RegisteredAbove` | mm/src/task_table.cpp:354-361 | Above a registered table every table on the way to the root is registered |
| `TaskSteps.MoveStep` | mm/src/task_table.cpp:439-486 | A move keeps agreement and accounting of all tasks, also when source and destination are one task |
| `TaskSteps.StrayMoveStep` | mm/src/task_table.cpp:234-313 | Moving a page an internal source never recorded keeps agreement and the accounting of the others |
| `TaskSteps.HeldLeafIsRecorded` | mm/src/task_table.cpp:299-308 | A page that hangs in a table of a non-internal task is recorded, so vpremap never subtracts for an unrecorded one |
| `TaskSteps.MoveConserves` | mm/src/task_table.cpp:479-483 | A remap conserves what source and destination have committed together in 64-bit arithmetic, and as numbers when the source had committed the page and the destination does not wrap around; also when they are the same task |
| `Quota.TotalFits` | mm/src/task_table.cpp:383-385 | Disjoint recorded pages add up to no more than the space they lie in |
| `Quota.RecordedFitsSpace` | mm/src/task_table.cpp:383-385 | The recorded pages of a task never exceed the user address space |
| `TaskTables.AddedTablesAreInvisible` | mm/src/task_table.cpp:363-368 | Tables added by a walk, successful or not, change no translation |
| `TaskTables.LimitIsRange` | mm/src/task_table.cpp:120-122 | Exactly which addresses pass the limit of vmap, for every stack quota: those that leave room for page and quota, or nearly all when page and quota exceed the space |
| `TaskTables.ExhaustedIsTooHigh` | mm/src/task_table.cpp:120-122 | An address from an exhausted search is rejected by the limit of vmap exactly when page and stack quota fit the space or the wrapped limit still lies below it |
| `TaskTables.ExhaustedPasses` | mm/src/task_table.cpp:120-122 | In a space of 256 GiB with a stack quota as large, the last candidate for a page of 1 GiB is not rejected |
| `TaskTables.StoreFillsTop` | mm/src/task_table.cpp:416-420 | A copy to the end of a fresh page fills exactly its top |
| `StackBooks.DataBooksOfMove` | mm/src/task_table.cpp:409-434 | Mapping in the server, moving and charging again charges the owner twice and no one else |
| `TaskTables.TaskTable.constructor` | mm/src/task_table.cpp:23-26 | An empty table is valid for every kernel state that obeys its own rules |
| `TaskTables.TaskTable.Hang` | mm/src/task_table.cpp:354-369 | One new table; a failure means no memory or a recorded page in the way |
| `TaskTables.TaskTable.Walk` | mm/src/task_table.cpp:343-373 | The lookups never miss; success gives the table around the address; failure changes no entry, has a cause, and is impossible where the table is registered |
| `TaskTables.TaskTable.RandomVa` | mm/src/task_table.cpp:319-341 | The search ends at an aligned address that is not recorded, unless it is exhausted; every candidate before it meets a recorded page; a small-page result lies in no recorded page |
| `TaskTables.TaskTable.PlacePage` | mm/src/task_table.cpp:427-434 | map_page and its record, or no change and a cause |
| `TaskTables.TaskTable.MovePage` | mm/src/task_table.cpp:459-483 | Both walks, remap_page and both records, or unchanged books and a cause |
| `TaskTables.TaskTable.VpMap` | mm/src/task_table.cpp:171-232 | Which answer a given address gets, as conditions on alignment, record, stack quota and space; the records, counters and quota after it, field by field, and nobody else changed; what the search for an address came to, and the cause of a failure; a task within its quota stays within it exactly when the quota raised by the page is below 2^64 |
| `TaskTables.TaskTable.VpRemap` | mm/src/task_table.cpp:234-313 | Which answer a given address gets, also for a source address out of range, as conditions on numbers; the records and counters of source and destination after it, also when they are one task; what the search for an address came to, and the cause of a failure; for a non-internal source the page was recorded; the destination stays within its quota exactly when the raised quota is below 2^64 |
| `TaskTables.TaskTable.RaisedQuota` | mm/src/task_table.cpp:226-226 | Raising a quota that has not wrapped keeps a task within it exactly when the sum is below 2^64 |
| `QuotaRuns.WrapQuota` | mm/src/task_table.cpp:219-229 | A task attached with the quota 2^64 - 1 and given one small page by vpmap has the quota 4095 and has committed 4096, and every later vmap is refused |
| `TaskTables.TaskTable.Remap` | mm/src/task_table.cpp:439-486 | The whole new state of remap, which answer an address gets as conditions on numbers, and the cause of a failure |
| `TaskTables.TaskTable.VRemap` | mm/src/task_table.cpp:133-169 | Which answer an address gets, as conditions on numbers; the records and counters of source and destination after it, also when they are one task; what the search for an address came to, and the cause of a failure |
| `TaskTables.TaskTable.Map` | mm/src/task_table.cpp:375-437 | Which answer an address gets, as conditions on numbers; the page, its bytes and permissions, the charges and the cause of a failure; after a failure of the data path the books are unchanged or the server has gained the page, and what stopped it is memory, an internal task, a table in the way, or a refusal of the server's own mapping whose cause is named |
| `TaskTables.TaskTable.VMap` | mm/src/task_table.cpp:98-131 | Which answer an address gets, for every stack quota and page size, as conditions on numbers; the record and counters after it, field by field, and nobody else changed; a chosen address is a multiple of the page size from 20 MiB on, and every candidate before it meets a recorded page; the cause of a failure |
| `TaskTables.TaskTable.MapThroughSelf` | mm/src/task_table.cpp:409-434 | The data path: the page moves through the server and ends with the data at its top; when it stops, the books are unchanged or the page stays in the server; a refusal of the server's own mapping means no memory, a server that is not attached or internal, a search that came to no address below the limit, or a slot in use where it ended |
| `StackBooks.LaidMore` | mm/src/task_table.cpp:509-530 | Laying stack twice is laying the sum: the same charges of the owner, rise of the server, doubled charges and untouched others |
| `StackBooks.HaltedLater` | mm/src/task_table.cpp:519-521 | A growth that stops later keeps its first page, the length of the stack and everybody else |
| `TaskTables.TaskTable.GrowStack` | mm/src/task_table.cpp:488-532 | Every refusal; on success the exact charges of owner and server, the exact growth of the doubled charges and new pages over exactly the range up to where the loop ends; nobody else is touched, and without data nothing is charged twice. The data lies at the top of the range exactly when no byte of it belongs to a later page of a pass; otherwise the last page is blank. Below 2 MiB, with free addresses and quota, it succeeds exactly when the data is no longer than the range, unless memory is denied or the server is refused a page. A growth that stopped behind its first page keeps that page and the length of the stack, and a range whose first page is recorded is refused |
| `TaskTables.TaskTable.RequestStack` | mm/src/task_table.cpp:559-561 | The request in whole small pages is laid out right below what the stack has committed: which addresses the new pages cover, how far the stack and the charges grow, when it is refused, and when it succeeds below 2 MiB; no doubled charge, nobody else touched, and whoever was never charged twice and whose quota never reached 2^64 is within the quota |
| `StackRuns.GrowTwice` | mm/src/task_table.cpp:488-532 | Of two growths the second ends where the first begins: together their pages cover one range below what was committed before |
| `StackRuns.OwnStack` | mm/src/main.cpp:141-170 | The memory manager's own stack: attached with one committed page, its four further pages go below that page |
| `TaskTables.TaskTable.FillRange` | mm/src/task_table.cpp:509-527 | The loop over the whole range: charges, doubled charges, coverage and image from its start to where it ends, or a blank last page |
| `TaskTables.TaskTable.FirstStack` | mm/src/task_table.cpp:69-72 | The first stack of a task: laid out with the data at its top if the loop can place it, or the stack stays empty; below 2 MiB it is laid out exactly when the data fits |
| `TaskTables.TaskTable.GrowPass` | mm/src/task_table.cpp:509-527 | One pass of the level loop with its stale size: where it ends, what it lays down and charges, how much data it leaves, and a blank last page when it lays down several |
| `TaskTables.TaskTable.Attach` | mm/src/task_table.cpp:32-84 | Refusals with the default quotas of 2 MiB and 32 GiB, the registered record field by field, everybody else untouched, the exact charges of the first stack, the stack pointer; the request in whole small pages is laid out right below the end of the space, with the data readable at its top if the loop can place it; a stack below 2 MiB within the quotas is laid out exactly when the data fits, unless memory is denied or the server is refused a page |
| `TaskTables.TaskTable.StackTop` | mm/src/task_table.cpp:488-532 | After the first growth the new task reads the data right below the end of its space if the loop can place it; if not, and the loop ends there, the last byte reads as zero |
| `TaskTables.TaskTable.NewRoot` | apm/src/task_manager.cpp:24-27 | A new root table fits what attach needs |
| `AddressSearch.SkipStep` | mm/src/task_table.cpp:331-338 | Candidates skipped by one step of the search meet a recorded page |
| `AddressSearch.NothingAcrossStart` | mm/src/task_table.cpp:328-330 | No recorded page crosses the address where the small-page search starts |
| `StackGrowth.SmallRangeIsExact` | mm/src/task_table.cpp:509-527 | Below 2 MiB the loop lays down exactly the range |
| `StackGrowth.PourableIsExact` | mm/src/task_table.cpp:509-527 | A range whose data can be placed is laid down exactly |
| `StackGrowth.SmallIsPourable` | mm/src/task_table.cpp:509-527 | Below 2 MiB data of any length can be placed |
| `StackGrowth.PourableBelowGiga` | mm/src/task_table.cpp:509-527 | Below 1 GiB data can be placed exactly when it ends before the second 2 MiB boundary of the range or fits behind the last pass of two pages |
| `StackGrowth.OnePassLosesData` | mm/src/task_table.cpp:513-525 | 2 MiB and 4 KiB from a boundary on are laid down exactly, and no data can be placed, whatever the largest page |
| `StackGrowth.PassLays` | mm/src/task_table.cpp:513-525 | Of the pages of one pass only the first gets data |
| `StackGrowth.FillGoesOn` | mm/src/task_table.cpp:509-527 | A pass that leaves data where a later page of it should hold it ends the growth, or leaves the data unplaced for good |
| `StackGrowth.ExactUnlessOvershoot` | mm/src/task_table.cpp:509-527 | Below 1 GiB the loop ends at the range end exactly unless the range ends an odd number of 2 MiB behind its first 2 MiB boundary |
| `StackGrowth.FullDefaultStackOvershoots` | mm/src/task_table.cpp:509-527 | The default stack asked for in full is such a range |
| `StackGrowth.CoveredStaysInside` | mm/src/task_table.cpp:377-379 | A growth past the end of the space cannot complete |
| `StackGrowth.NextSlice` | mm/src/task_table.cpp:514-524 | The piece of data given to a page of any size makes it the next slice of the image |
| `StackGrowth.ImageIsRead` | mm/src/task_table.cpp:488-532 | Each address of a covered range reads its byte of the image, whatever the sizes of its pages |
| `StackGrowth.ZeroIsRead` | mm/src/task_table.cpp:488-532 | Below a blank last page the last byte reads as zero |
| `StackGrowth.ProgressStep` | mm/src/task_table.cpp:513-525 | One mapped page of any size extends the covered range, and the image too if it got what belongs on it |
| `MemoryManagers.MemoryManager.Register` | mm/src/memory_manager.cpp:17-31 | A second region with the same start is refused; otherwise exactly one is added, in the order of addresses |
| `MemoryManagers.MemoryManager.Choose` | mm/src/memory_manager.cpp:41-65 | The scan finds the smallest region that fits, the lowest on ties, and nothing only when none fits |
| `MemoryManagers.MemoryManager.Fetch` | mm/src/memory_manager.cpp:33-73 | A grant starts at the first multiple of the alignment behind what its region has handed out and lies inside it, and no smaller region has a place; refusal only when no region has one; grants of one region or of regions that do not overlap are apart |
| `MemoryManagers.MemoryManager.GrantIsApart` | mm/src/memory_manager.cpp:67-72 | What the kernel places next lies apart from everything granted of the same region or of one that does not overlap it |
| `HeapChain.TakeKeepsShape` | libc/src/crt/heap.c:44-50 | An allocation keeps blocks aligned, in one arena each, and apart |
| `HeapChain.ArenaKeepsShape` | libc/src/crt/heap.c:54-66 | A fresh arena keeps blocks aligned, in one arena each, and apart |
| `HeapChain.ReleaseKeepsShape` | libc/src/crt/heap.c:69-80 | A release keeps blocks aligned, in one arena each, and apart |
| `HeapChain.PayloadsAreDisjoint` | libc/src/crt/heap.c:35-67 | Payloads are aligned and meet no other payload and no header |
| `HeapChain.TakeLosesAtMostOneUnit` | libc/src/crt/heap.c:19-27 | A list allocation loses exactly 16 bytes when exactly one unit is left over, and nothing otherwise |
| `HeapChain.ReleaseLosesNothing` | libc/src/crt/heap.c:69-80 | A release leaves the total of headers and blocks unchanged |
| `HeapChain.ArenaAddsItself` | libc/src/crt/heap.c:54-64 | A new arena adds its whole size |
| `HeapChain.RunKeepsSound` | libc/src/crt/heap.c:35-80 | Over every run of allocations and releases: blocks stay aligned, in their arenas and apart, and at most 16 bytes of the arenas go missing for each block taken, none for releases and new arenas |
| `HeapChain.RoundedHoldsIff` | libc/src/crt/heap.c:40-40 | The rounded size holds the request exactly up to 2^64 - 16; beyond it is 0 |
| `Heaps.SplitHeaderFits` | libc/src/crt/heap.c:19-27 | On a free block that holds the request the 64-bit arithmetic of a split does not wrap around |
| `Heaps.OversizedSplit` | libc/src/crt/heap.c:59-63 | A fresh arena smaller than the request is split all the same: the block handed out has the requested size, and the header of the tail lies in the arena only for the request of 2^64 - 16 bytes, where it is the header of the block itself |
| `Heaps.TailOutsideArenas` | libc/src/crt/heap.c:59-63 | A request for 2 MiB writes a header at 8 MiB + 16, outside every arena |
| `Heaps.Heap.TakeArena` | libc/src/crt/heap.c:54-66 | The arena is linked in, split and marked; when the request is too large the block handed out leaves its arena |
| `HeapChain.OthersSurvive` | libc/src/crt/heap.c:35-80 | Every other block survives an allocation and a release |
| `Heaps.SplitWrite` | libc/src/crt/heap.c:19-27 | The four header writes of a split keep one ring through all blocks and replace one block by two |
| `Heaps.ArenaWrite` | libc/src/crt/heap.c:54-61 | The three header writes of a new arena append it to the ring |
| `Heaps.PayloadWrite` | libc/src/crt/heap.c:35-67 | Writing a word of a payload changes no header |
| `Heaps.Heap.constructor` | libc/src/crt/heap.c:29-33 | One free block that is its own successor |
| `Heaps.Heap.Alloc` | libc/src/crt/heap.c:35-67 | The first free block of the rounded size is taken, and what is left over becomes a free block if it holds a header and 16 bytes; an arena, cut in the same way, only when none fits; all other blocks and the words of live payloads stay; the payload holds the request exactly up to 2^64 - 16 bytes; a request no arena can hold gets a block that leaves its arena |
| `Heaps.Heap.Search` | libc/src/crt/heap.c:42-52 | The walk ends and finds the first fit, or the last block when there is none |
| `Heaps.Heap.Free` | libc/src/crt/heap.c:69-80 | Exactly null and a block that is free abort; otherwise the block is free afterwards, one bit of one word changes, and every other block stays |
| `Heaps.Heap.FreeTwice` | libc/src/crt/heap.c:69-80 | The second of two releases of one pointer aborts |
| `Heaps.Heap.Write` | libc/src/crt/heap.c:35-67 | A program writing its payload leaves the list as it is |
| `Dtb.Stream.ReadStr` | dm/src/dtb.cpp:179-186 | Reads up to the NUL and moves behind it |
| `Dtb.Stream.ReadStrAt` | dm/src/dtb.cpp:188-194 | Reads elsewhere and comes back |
| `Dtb.Stream.Align` | dm/src/dtb.cpp:196-200 | Moves to the next word, if there is one |
| `Dtb.ParseNode` | dm/src/dtb.cpp:87-161 | The parser over the stream is the recursive meaning of the blob, and ends where that says |
| `Dtb.Load` | dm/src/dtb.cpp:64-85 | Aborts on a short header, another magic number or a size beyond the data; otherwise the root is parsed where the header says |
| `DtbFlattening.PropsRead` | dm/src/dtb.cpp:117-134 | A run of written properties is read into the table in order, the first of a name counting |
| `DtbFlattening.FirstCounts` | dm/src/dtb.cpp:117-148 | Of two properties or children of one name the first counts |
| `DtbFlattening.TreeRead` | dm/src/dtb.cpp:87-161 | A written node is parsed to itself and the cursor stops behind its end tag |
| `DtbFlattening.ParseRecovers` | dm/src/dtb.cpp:87-161 | Parsing undoes flattening, with NOPs before any token, at any depth |
| `DtbFlattening.HeaderRead` | dm/src/dtb.cpp:64-81 | The header is read as it is written: magic number, size, and the offsets of the structure and the strings block at bytes 0, 4, 8 and 12 |
| `DtbFlattening.LoadRecovers` | dm/src/dtb.cpp:64-85 | Loading a written blob, header included, gives the tree back |
| `DtbFlattening.UnitAddressRoundTrip` | dm/src/dtb.cpp:99-106 | A unit address written in hexadecimal is read back and cut from the name |
| `DtbLookup.ComponentsOfPath` | dm/src/dtb.cpp:207-225 | Cutting a path gives the names it was joined from |
| `DtbLookup.HasNode` | dm/src/dtb.cpp:202-228 | True exactly when the path starts with a slash and its names lead to a node |
| `DtbLookup.GetNode` | dm/src/dtb.cpp:230-256 | The node the names of the path lead to |
| `DtbLookup.ParsedIsNamed` | dm/src/dtb.cpp:107-148 | Whatever the bytes, children are filed under their names and full names extend the parent path |
| `DtbLookup.FoundByFullName` | dm/src/dtb.cpp:202-256 | Every node below the root is found by its own full name |
| `DtbLookup.WrittenIsFound` | dm/src/dtb.cpp:64-256 | From bytes to lookup: every written node is found by the path of its names, matches what was written, and has the cell counts its parent states |
| `DtbLookup.LoadAndGet` | dm/src/dtb.cpp:64-256 | The parser itself on a written blob: each node is got by its path, with its unit address, its properties, and the counts stated in its parent's #address-cells and #size-cells, or 2 and 1 |
| `DtbLookup.RootIsNotItsOwnName` | dm/src/dtb.cpp:202-228 | The full name of the root is found only if the root has a child without a name |
| `DtbReg.ToReg` | dm/src/dtb.cpp:41-62 | to_reg is the list of regions the cells denote |
| `DtbReg.RegionsIff` | dm/src/dtb.cpp:41-62 | There is a list exactly when the words of the value are whole regions, with one entry for each |
| `DtbReg.CellsRoundTrip` | dm/src/dtb.cpp:49-56 | Any number of cells is read back, cut to 64 bits |
| `DtbReg.RegionsRoundTrip` | dm/src/dtb.cpp:41-62 | to_reg undoes a writer of regions for every cell count |
| `Terminal.ShowText` | cons/src/console.cpp:49-57 | Printable text overwrites exactly the cells under it |
| `Terminal.ShowMovement` | cons/src/console.cpp:66-79 | An emitted cursor movement moves by exactly its number |
| `Digits.DecimalRoundTrip` | cons/src/console.cpp:67-78 | A number written in decimal denotes itself |
| `LineEditor.MovedIsShown` | cons/src/console.cpp:59-83 | After a movement terminal column and cursor agree |
| `LineEditor.InsertIsShownIff` | cons/src/console.cpp:146-161 | After typing a byte the row shows the new buffer and the column is the cursor exactly when the byte is printable |
| `LineEditor.TabIsNotShown` | cons/src/console.cpp:146-161 | A tabulator typed into an empty line: the cursor moves, the column does not |
| `LineEditor.EraseIsShown` | cons/src/console.cpp:115-137 | After erasing the row shows the new buffer padded with blanks and the column is the cursor |
| `LineEditor.KeyInStep` | cons/src/console.cpp:108-201 | Every byte but a line end does to buffer and cursor what it does to the text left and right of the cursor |
| `LineEditor.KeyLaws` | cons/src/console.cpp:108-161 | What one byte does to lines and text: it is typed, erases to the left, or ends the line |
| `LineEditor.SequenceLaws` | cons/src/console.cpp:163-201 | An escape sequence that ends in C or D moves by its number, or by one, inside the text, and any other does nothing |
| `LineEditor.LoneEscape` | cons/src/console.cpp:163-175 | ESC and a byte other than a bracket do nothing |
| `LineEditor.KeyIsShownIff` | cons/src/console.cpp:108-201 | The terminal goes on showing the buffer exactly when the key is printable, erases, or belongs to an escape sequence |
| `LineEditor.KeyStaysPlain` | cons/src/console.cpp:108-201 | Whatever is typed, the bytes sent end outside of control sequences |
| `LineEditor.EndInStep` | cons/src/console.cpp:138-145 | The key that ends a line commits the whole text and leaves a fresh row, whatever the row showed before |
| `LineEditor.EndInsideEscape` | cons/src/console.cpp:164-171 | A line end inside an escape sequence stops the loop with the line unfinished; once it is handed out, cursor and row fit the empty buffer exactly when the cursor was at 0 and the line all blanks |
| `LineEditor.EndAfterMovingHome` | cons/src/console.cpp:164-171 | Three letters, the cursor moved home, and a line end in an open sequence: the line is handed out and the row still shows it |
| `Consoles.Console.MoveCursor` | cons/src/console.cpp:59-83 | The cursor moves inside the buffer, and the bytes sent are the control sequence with that distance |
| `Consoles.Console.EraseKey` | cons/src/console.cpp:115-137 | The new buffer and the bytes sent |
| `Consoles.Console.HandleKey` | cons/src/console.cpp:108-201 | One round of the loop, for every key and state |
| `Consoles.Console.CookedRead` | cons/src/console.cpp:102-209 | For every byte stream without a line end inside an escape sequence: reads of any sizes hand out the committed lines in order with nothing lost, every line ends on a fresh row, and while a line holds visible keys only the row shows it |
| `Elf.CoversIsMeeting` | apm/src/elf_loader.cpp:118-158 | The mapped pages are those that meet the segment, and one more for an empty segment inside a page |
| `Elf.BuiltStep` | apm/src/elf_loader.cpp:95-161 | One more segment extends the image by exactly its pages |
| `Elf.BuiltIsUnique` | apm/src/elf_loader.cpp:80-166 | A file determines the image, up to where pages meant for address 0 landed |
| `Elf.AtItsAddressIff` | apm/src/elf_loader.cpp:118-158 | Every page is at its own address exactly when no loaded segment reaches into the first page |
| `Elf.HeaderNeeds` | apm/src/elf_loader.cpp:19-49 | A header is accepted exactly with the magic number, 64 bits, little endian, version 1, RISC-V and executable |
| `ElfLoaders.FramedIsPage` | apm/src/elf_loader.cpp:125-150 | File bytes framed by zeros are what the segment means on that page |
| `ElfLoaders.IsValidFormat` | apm/src/elf_loader.cpp:19-78 | Accepts exactly the files with a right header and program headers in the file |
| `ElfLoaders.FirstPage` | apm/src/elf_loader.cpp:125-137 | The first page of a segment that starts inside one |
| `ElfLoaders.FilePages` | apm/src/elf_loader.cpp:139-150 | The pages that file bytes reach |
| `ElfLoaders.ZeroPages` | apm/src/elf_loader.cpp:152-158 | The pages behind them |
| `ElfLoaders.LoadSegment` | apm/src/elf_loader.cpp:118-158 | One segment: exactly its covering pages, each once, with its bytes; a loaded one lies in the file and below 2^64 |
| `ElfLoaders.ApmLoad` | apm/src/elf_loader.cpp:80-166 | A loaded file is the bytewise meaning of its segments, which lie in the file and below 2^64; a valid one is given up only at a failed mapping |
| `ElfFiles.FileIsRead` | apm/src/elf_loader.cpp:80-97 | From a file with written headers exactly the written entry point and segments are read |
| `ElfFiles.ApmLoadFile` | apm/src/elf_loader.cpp:80-166 | A written file: every address of a loaded segment holds its byte of the file or zero and the permissions of the segment, nothing else changes, and which files are refused |
| `InitLoader.IsValidElfFormat` | init/src/task.c:74-122 | The verdict, header by header, with the sum of offset and size cut to 64 bits |
| `InitLoader.ValidIsContained` | init/src/task.c:105-119 | A file that passes has all bytes of a segment exactly when the end of those bytes is below 2^64 |
| `InitLoader.InFrontPasses` | init/src/task.c:105-119 | A segment whose bytes start 4096 in front of the file passes the check for every file of at least 64 bytes |
| `InitLoader.CopiedIsPage` | init/src/task.c:175-186 | What the page loop copies, as a function of the address |
| `InitLoader.LoadPages` | init/src/task.c:172-190 | One segment page by page; bytes that start outside the file have no defined result |
| `InitLoader.InitLoad` | init/src/task.c:124-202 | Window, image, entry point and heap start, and when it refuses or aborts, with sums cut to 64 bits; what is loaded is the meaning of the segments exactly when none of them ends at 2^64 or beyond |
| `ElfFiles.InitLoadFile` | init/src/task.c:124-202 | A written file: which files and segments are refused, which byte of the file every address of a loaded segment holds, and where the heap starts |
| `InitLoader.InitIsRightIff` | init/src/task.c:175-186 | The loader places the right bytes for all files exactly when the segment starts a page or its file bytes end in the first page |
| `InitLoader.MarkedIsWrong` | init/src/task.c:184-184 | A file that shows the difference |
| `InitLoader.LoadersAgree` | init/src/task.c:124-202 | On such segments both loaders build the same image, if pages meant for address 0 landed alike |
| `InitLoader.LoadTwice` | apm/src/elf_loader.cpp:80-166 | Both loaders on one file: same entry point, and the same image if pages meant for address 0 landed alike |
| `Argv.Marshal` | libc/src/service/apm.c:13-59 | Path, name and arguments stand one after the other in the body, each with its NUL in whole words of eight bytes, and the body is as long as they need |
| `Argv.Unmarshal` | apm/src/server.cpp:43-60 | Decoding for every message, also without NULs |
| `Argv.DecodeRecovers` | apm/src/server.cpp:43-60 | Decoding undoes laying out |
| `Argv.DecodedIff` | apm/src/server.cpp:43-60 | Strings are decoded exactly when they stand in the message one after the other, each with its NUL in whole words |
| `Argv.SendAndReceive` | libc/src/service/apm.c:13-59 | The server decodes exactly what the client was given |
| `Argv.BuildStack` | apm/src/task_manager.cpp:43-68 | The block: a pointer word for each argument holds the address of that argument, the arguments stand behind each other with their NULs, and the length is rounded up to eight |
| `Argv.PointedKept` | apm/src/task_manager.cpp:58-68 | Writing one argument leaves the earlier ones reachable |
| `Argv.LongArgumentDoesNotFit` | apm/src/task_manager.cpp:70-71 | The block of one argument of 16383 characters is longer than the 16 KiB requested for it |
| `Argv.StackCommitIs` | apm/src/task_manager.cpp:70-70 | The requested stack is four pages, or the text in whole pages if that is more |
| `Launch.Launch` | apm/src/task_manager.cpp:43-74 | End to end: the new task reads every argument through its pointer table in its own memory; below 2 MiB the stack is laid out exactly when text and pointers together fit the requested size, unless memory is denied or the server is refused a page; at 2 MiB, where pages of that size exist and the space ends on such a boundary, it is never laid out |
| `Launch.LaunchLongArgument` | apm/src/task_manager.cpp:43-74 | With one argument of 16383 characters the task is attached, but its stack stays empty |
| `Bytes.LittleEndianRoundTrip` | apm/src/task_manager.cpp:65-65 | A pointer word read back is the pointer |
| `Bytes.LittleEndianOfEight` | apm/src/task_manager.cpp:65-65 | The weights of the bytes of a word |
| `Bytes.BigEndianOfFour` | dm/src/dtb.cpp:167-177 | The weights of the bytes of a big-endian number |
| `Ramfs.ReadSplits` | fs/src/mount_point.cpp:299-334 | Reading in two pieces is reading at once, unless the first is short |
| `Ramfs.ReadBytes` | ramfs/src/file.cpp:25-33 | Byte by byte: what a read finds, and how much |
| `Ramfs.WriteSplits` | fs/src/mount_point.cpp:372-397 | Writing in two pieces is writing at once |
| `Ramfs.WrittenBytes` | ramfs/src/file.cpp:35-43 | Byte by byte: what was written, what was there, or zero |
| `Ramfs.ReadBack` | ramfs/src/file.cpp:25-43 | What was written is read back |
| `Ramfs.File.Read` | ramfs/src/file.cpp:25-33 | The bytes a read finds, also before the start and past the end |
| `Ramfs.File.Write` | ramfs/src/file.cpp:35-43 | The new contents, grown and filled with zeros; a position in front of the file is not refused and has no defined result |
| `Ramfs.FileStream.Read` | ramfs/src/file_stream.cpp:5-9 | Reads at the position and moves it by what was read |
| `Ramfs.FileStream.Write` | ramfs/src/file_stream.cpp:11-15 | Writes at the position and moves it, where the position is not negative |
| `Ramfs.FileStream.Seek` | ramfs/src/file_stream.cpp:17-31 | The new position for each origin |
| `Ramfs.FileSystem.CreateFile` | ramfs/src/directory.cpp:185-215 | Made exactly when the name is not empty and new |
| `Ramfs.FileSystem.Open` | ramfs/src/fs.cpp:102-125 | A new descriptor at position 0; an unknown name makes an empty file |
| `Ramfs.FileSystem.Close` | ramfs/src/fs.cpp:127-139 | Removes the descriptor or refuses |
| `Ramfs.FileSystem.Read` | ramfs/src/fs.cpp:141-167 | Bytes, position, and end of file exactly on a short read |
| `Ramfs.FileSystem.Write` | ramfs/src/fs.cpp:169-181 | New contents and position, where the position is not negative |
| `Ramfs.MountPoint.Read` | fs/src/mount_point.cpp:273-344 | A chunked read gives the bytes and position of one whole read, from any position |
| `Ramfs.MountPoint.Write` | fs/src/mount_point.cpp:346-407 | A chunked write gives the contents and position of one whole write, or no defined result in front of the file |
| `Ramfs.ReadWhole` | apm/src/server.cpp:82-100 | The loop of the launcher collects a freshly opened file exactly |
| `Cpio.FindFile` | init/src/cpio.c:7-46 | The result of following the headers from the start in 64-bit arithmetic: the member found, absence, a read outside the archive, or a loop that never ends; data without the magic number holds nothing |
| `Cpio.SearchIsRun` | init/src/cpio.c:13-43 | The result is that of the round that ends the loop, and the loop is endless exactly when every round leads to another |
| `Cpio.EndlessArchive` | init/src/cpio.c:20-43 | An archive whose first member has a signed data size: the search for any other name never ends |
| `Cpio.SearchIsLookup` | init/src/cpio.c:13-43 | Where every size met is below 2^32 and the archive ends 16 GiB below 2^64, the search ends, with the first member of the name |
| `Cpio.Load` | ramfs/src/cpio.cpp:11-47 | The loader adds the members in order and stops at the first that is refused; data without the magic number is refused |
| `Cpio.WrittenArchive` | init/src/cpio.c:13-43 | What the writer produces is read back member by member |
| `Cpio.LookupRecovers` | init/src/cpio.c:7-46 | The first member of a name in a written archive is the one that was written first, at its bytes |
| `Cpio.SearchRecovers` | init/src/cpio.c:7-46 | In a written archive the search finds exactly the first member of a name, at its bytes |
| `Cpio.LoadRecovers` | ramfs/src/cpio.cpp:11-47 | The loader succeeds exactly when every name is new, and then has added all members |
| `Cpio.AddedHolds` | ramfs/src/directory.cpp:115-143 | The loaded table holds each member and nothing else |
| `Cpio.LoadAgreesWithLookup` | ramfs/src/cpio.cpp:11-47 | After a successful load file system and search agree on presence and on every byte |
| `Cpio.NewcReadsFields` | init/src/cpio.c:20-30 | The newc format reads back the numbers it writes, so the results above hold for it |
| `Cpio.NewcRecovers` | init/src/cpio.c:7-46 | A newc archive, written field by field: the search finds exactly the first member of a name, the loader adds all members if the names are new, and both agree |
| `Digits.Hex8RoundTrip` | init/src/cpio.c:20-30 | Eight hexadecimal digits are read back |
| `Digits.PlaceValue` | init/src/cpio.c:20-30 | What each digit is worth |
| `Digits.ConversionLaws` | init/src/cpio.c:20-30 | White space, a sign or 0x before the digits, and numbers of 2^64 and more |

## Left out

- TaskTables.TaskTable.VpRemap: promises no bound by the quota for an internal source, whose pages the memory manager may never have recorded.
- TaskTables.TaskTable.GrowStack: when the growth succeeds is claimed only for a rounded size below 2 MiB; above it large pages also need that no table of smaller pages hangs in their place.
- StackGrowth.ExactUnlessOvershoot: ranges of a gigabyte and more are covered only by the loop itself (`PassEnd`, `Finish`, `Pourable`), without a closed condition.
- StackGrowth.PourableBelowGiga: as for ExactUnlessOvershoot.
- TaskTables.TaskTable.Attach: a failed growth of the first stack does not fail the request, as in the code; the result `grown` is kept for the reader.
- MemoryManagers.MemoryManager.Register: every region comes under a capability of its own, as the kernel hands them out; addresses are unbounded.
- Heaps.Heap.Alloc: after a request that no arena can hold nothing is claimed about later requests; pointers given to Free come from Alloc.
- Dtb.ParseNode: a read past the end is one result; the code would go on with bytes that were never read or not end at all.
- DtbReg.ToReg: cell counts of zero and a value that ends inside a region give no result; the code would not end or read past the value.
- Consoles.Console.CookedRead: takes no line end inside an escape sequence; `EndInsideEscape` says what one does. Digit strings are read without a 64-bit limit. It gives None where the code would wait for a key.
- InitLoader.InitLoad: program headers and segment bytes outside the file give `Undefined`; of a segment that ends at 2^64 or beyond it says only that the image is not the meaning of the file.
- Argv.Marshal: a missing name is sent as the empty one; running out of memory for the message is not modelled.
- Launch.Launch: takes a block that fits the user address space.
- Ramfs.MountPoint.Read: messages always arrive and memory for them is there.
- Ramfs.FileSystem.Open: as for CreateFile.
- Ramfs.FileSystem.CreateFile: flat names only; nested directories are cut wrongly from the third component on (ramfs/src/directory.cpp:159).
- Cpio.Load: a member with a slash in its name ends the model with `Nested`.
- Integer widths: the counters of the task table, segment fields, archive positions and heap sizes are 64-bit words; the addresses of the page tables are bounded by the space; other numbers are unbounded.
- Physical addresses: the kernel hands out page objects without one, so that two page objects never share memory is a rule of the kernel and not derived from the grants of `MemoryManager`.
- IPC dispatch, capability transfer and the boot handshake: calls into code outside the repository.
- `detach`, `revoke_mem_cap` and destructors: release of resources is empty or marked as to do.
- Pages that exist before the memory manager starts: they belong to tasks attached as internal.
- Directory streams, mounting and unmounting, environment variables, signals, the shell and the UART driver.
- `ramfs_seek`: its success code tests the new position as a truth value; the stream's seek is modelled instead.
- Raw console mode and `console::write`: they pass characters on.
- `rand_name`: random names for tasks without one.
- Exceptions and overflow in the conversion of long digit strings on the console.
