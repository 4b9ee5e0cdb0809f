# nyan in Dafny

A model of the state-keeping core of nyan, a 32-bit x86 kernel, with proofs of what that core is for:
copy-on-write memory that cannot be told from copied memory, areas and page tables that agree, a scheduler in
which every task is in exactly one list, pipes that are queues, allocators that hand out disjoint blocks,
signals that unwind, an ELF loader that loads the file, and a log that can be read back.

Check it with `dafny verify dfyconfig.toml` (Dafny 4.11).

## How it is laid out

Most of the kernel's code changes things in place.  Each such part is a class (or a method with loops) whose
methods follow the code's own branches and loops, and a module of functions that says what those methods
compute.  The methods are proved equal to the functions; the laws are proved about the functions, over every
input and every run.

| part | functions and laws | code in place |
|---|---|---|
| range vectors | `Ranges.dfy` | class `RangeManager` in the same file |
| frames, reference counts, copy-on-write | `Frames.dfy` | `Directory.dfy`: two-level tables kept in frames |
| areas and pages: mmap, munmap, stack growth, faults | `AddressSpace.dfy` | `UserSpace.dfy` |
| all processes together | `Processes.dfy` | |
| checks of user strings | `UserRanges.dfy` | the same file |
| ELF loader | `Elf.dfy` | `UserSpace.dfy` |
| scheduler, wait lists, sleep queue | `Scheduler.dfy` | `SchedulerObject.dfy` |
| pipe | `Pipe.dfy` | `PipeObject.dfy`: the ring with wrapping counters |
| heap: slabs, pages, large blocks | `Heap.dfy`, `LargeFrames.dfy` | `HeapObject.dfy`, `Bitmap.dfy` |
| intrusive list | `IntrusiveList.dfy`; `Lists.dfy` for plain sequences | the same file; `TaskLists.dfy`: the scheduler's lists over one slot per task |
| signals | `Signals.dfy` | class `SignalTask` in the same file |
| binary log | `LogStream.dfy` | classes `LogWriter` and `Parser` in the same file |

`Basics.dfy` and `Bytes.dfy` hold page arithmetic, task numbers and little-endian numbers.

Three conventions hold throughout.  Where the kernel stops for good (`kfatal`: no frame left, a corrupt
argument to an allocator) the functions return `None`.  Code that runs with interrupts disabled is one atomic
step.  Integers are unbounded, so 32-bit and 16-bit wrap-around is written out wherever the code relies on it
or fails to rule it out.

## Main results

- `Processes.RunRefines`: for every run of process creation, mmap, munmap, loads and stores with their page
  faults, fork, reaping and kernel allocations, over any number of processes, every process sees exactly the memory
  and gets exactly the replies of a system whose fork copies every page.
- `Processes.FramesCounted`, `AddressSpace.TeardownConserves`: after every run from boot reference counts are exact
  and have not wrapped; teardown drops exactly the process's own references and frees exactly the frames nobody
  else holds.
- `AddressSpace.MmapAgrees` with `MmapSafeIff`, `MunmapAgrees` with `MunmapSafeIff`, `CheckStackAgrees`, `StoreAgrees`:
  areas and page tables agree after every call and fault, exactly when a condition on the call holds.
- `Ranges.EraseExact`, `ReleasedPartition`, `FindFreeExact`, `GapIsUncovered`: erase removes exactly the range and
  releases a disjoint partition of it; first fit is the least unused place with no empty entry inside.
- `Processes.StepHaltsIff`, `RunHaltsIff`: exactly which steps halt.  Fork needs one frame and one for each table of
  the parent, mmap and stack growth one for each page and missing table, a store to a shared page one
  (`Frames.ForkTakes`, `AddressSpace.MmapHaltsIff`, `StoreHaltsIff`, `LoadHaltsIff`).
- `Scheduler.RunKeeps`, `NoStarvation`, `ServedWithin`, `WakeSleepersExact`: the one-list invariant,
  first-in-first-out dispatch with a bound in milliseconds, and the sleep queue over every run; `WaitExact`,
  `WakeExact`, `ReasonReturned` and their neighbours say what each call does.  `TaskLists` shows what the invariant is
  for: all lists link one slot per task, and every move of the scheduler leaves every one of them well
  linked.
- `Pipe.FirstInFirstOut`, `Pipe.NoLostWakeup`, with `PipeObject` proving the ring: over every interleaving.
- `Heap.RunKeeps`: live blocks have room and are disjoint, each is freed by the allocator that made it, and a run
  that gives everything back leaves the heap as it found it.  `AutoAllocFails` and `RunStopsIff` have the exact
  failures.
- `Elf.LoadElfExact`, `LoadElfAgreesIff`: every page holds the file's bytes of the last segment that has it, frames are
  conserved exactly when no two segments share a page, and which areas are accepted and whether areas and pages agree
  is decided by the headers alone.
- `Signals.Unwinds`, `LogStream.RoundTrip`, `IntrusiveList`'s methods.

## Where the code does less than its callers may expect

Each of these is a property that fails for some inputs; the model keeps the code as it is and proves exactly
when the property holds.

- `__erase` (and so munmap) never compares its address with the lower bound.  Below it the call succeeds and cuts
  the low sentinel: `Ranges.EraseKeepsSentinelsIff`, `AddressSpace.MunmapSafeIff`.
- With frames enough, mmap comes back with areas and pages in agreement if and only if a MAP_FIXED range inside user
  space starts at or above its base (or is the empty one at 0) and a MAP_PRIVATE hint is page aligned, below the base,
  or not a place the area fits: `AddressSpace.MmapSafeIff`, with `MmapLosesAgreement` at two inputs.  At an unaligned
  hint the loop that gives the area its pages steps over the end of the area and goes on, a frame a turn, until no frame
  is left or it reaches the kernel's half; it does not come back however many frames there are:
  `AddressSpace.AllocLoopIs`.
- First fit looks between neighbouring entries, and an empty entry is one.  The least unused place is found if and only
  if no empty entry lies strictly inside it: `Ranges.GapIsUncovered`, `LeastFitIff`.  A wrapped length leaves an empty
  area (`AddressSpace.MmapLeavesEmpty`); with one at 0x401000 two pages from 0x400000 are placed at 0x401000 although
  nothing is covered, and all of user space no longer fits (`EmptyAreaMovesSearch`); with one at 0x500001 a request at
  an aligned hint ends up unaligned and does not come back (`UnalignedAreaStays`).
- Rounding a length up to whole pages wraps to 0 above 0xFFFFF000 (`Basics.RoundUpExact`).  A successful mmap covers
  what was asked for if and only if the length is not above that: `AddressSpace.MmapCovers`, with `MmapLeavesEmpty` at
  0xFFFFFFFF bytes.  A successful munmap leaves nothing of the range covered if and only if the length is not above that
  or nothing was covered: `MunmapUncovers`.
- Stack growth allocates writable pages whatever the area allows; areas and pages agree afterwards if and only if the
  area that grows is writable: `AddressSpace.CheckStackAgrees`, `GrowAgreesIff`, with `ReadOnlyGrowth` at one fault.
- A heap request above 0xFFFFF000 bytes is given a run of no pages.  A new block has room for its request and was not
  live if and only if the request is not above that: `Heap.NewBlockIff`; on a fresh heap such a request and the next
  large one are given the same address: `Heap.SameAddressTwice`.
- The ELF loader maps a page over one that is there already without giving its frame back.  Frames are conserved if and
  only if no two loadable segments share a page: `Elf.LoadElfExact`, with `SharedPageLosesFrame` at two segments.
- The ELF loader ignores whether an area was accepted.  Areas and pages agree if and only if every page is in an
  accepted area with the right permission, which the headers decide: `Elf.LoadElfAgreesIff`.  For segments that lie
  apart that means that those with pages start at or above 0x400000: `ApartMatching`, with `LowSegmentLosesItsArea` at
  one page at 0x1000.
- The check of user strings refuses a readable string where an unreadable empty area lies in its way:
  `UserRanges.ValidateReadonlyRange` has the exact condition, `StringBlocked` a string.
- A signal frame is pushed without looking at the stack pointer.  It lies in user space if and only if the stack pointer
  is between 88 and 0xC0000000, and then no byte of the kernel's half changes: `Signals.FrameInUserSpaceIff`.  At
  0xD0000000 one does (`KernelByteChanges`); at 0 the frame goes to the end of the address space (`FrameWraps`).
- Nor does it look at what earlier deliveries saved.  That is kept whenever the new frame misses it, wherever on the
  32-bit circle it lies (`Signals.DeliverKeeps`, `MissesIff`); a delivery at the stack pointer of an earlier one
  overwrites what that saved (`SameStackLoses`).  This one condition is not exact: a frame may overlap a saved part with
  bytes that happen to be the same.
- A page count is shifted left by 12 bits on a 32-bit word, which keeps the size if and only if the count is below
  2^20: `LargeFrames.BytesExact`.
- A log text is cut to its length modulo 65536; a record is written whole if and only if its text is shorter than
  that: `LogStream.WholeIff`.
- sigreturn refuses to return to the kernel's half, where the sigreturn trampoline lies.  A signal that arrives while
  the program is in the trampoline therefore ends the program: `Signals.TrampolineInterrupted`.  `Signals.Unwinds`
  has the exact condition.
- The comparison `flags & MAP_FILE` never holds because MAP_FILE is 0; the branch is not part of the model.

## Model

| member | source | states |
|---|---|---|
| `Basics.RoundUpExact` | kernel/paging/address.hpp:28 | rounding up on a 32-bit word is exact up to 0xFFFFF000 and gives 0 above |
| `Ranges.LocateIs` | kernel/paging/range.hpp:71-75 | in an ordered vector the located entry is the one that contains the address |
| `Ranges.LocateSplits` | kernel/paging/range.hpp:71-75 | every entry after the located one begins above the address |
| `Ranges.InsertExact` | kernel/paging/range.hpp:83-91 | a non-empty range is accepted if and only if some hole has room for it, an empty one if and only if it starts at or above Base at an address in no entry |
| `Ranges.InsertAdds` | kernel/paging/range.hpp:83-91 | an accepted range adds exactly its own addresses, with its own attributes, and keeps order and sentinels |
| `Ranges.FindFreeExact` | kernel/paging/range.hpp:93-120 | the result is the least address at or above max(hint, Base) with room below Top, and there is none if and only if no such address exists; for 0 bytes it is that address, or the end of the entry it lies in |
| `Ranges.GapIsUncovered` | kernel/paging/range.hpp:93-120 | having room means: between Base and Top, no address of the stretch covered, and no empty entry strictly inside it |
| `Ranges.LeastFitIff` | kernel/paging/range.hpp:93-120 | the least unused place is the one found if and only if no empty entry lies strictly inside it |
| `Ranges.FoundPlaceExact` | kernel/paging/range.hpp:83-120 | the insert that follows a successful search always succeeds, for 0 bytes if and only if the place is in no entry |
| `Ranges.CarveGap` | kernel/paging/range.hpp:123-203 | after an erase of some bytes there is room for as many where they were |
| `Ranges.EraseExact` | kernel/paging/range.hpp:123-203 | after an in-range erase an address is covered if and only if it was and lies outside the range, with the attributes it had (those of the split function on the lower half of a split) |
| `Ranges.EraseKeepsValid` | kernel/paging/range.hpp:123-203 | erase at or above Base keeps order, disjointness and both sentinels |
| `Ranges.ReleasedPartition` | kernel/paging/range.hpp:151-199 | the stretches passed to release are pairwise disjoint and cover exactly the covered addresses of the range |
| `Ranges.EraseKeepsSentinelsIff` | kernel/paging/range.hpp:123-203 | the vector stays well formed if and only if the range starts at or above Base, or is the empty one at 0 |
| `Ranges.RangeManager.constructor` | kernel/paging/range.hpp:54-57 | two sentinels and nothing covered |
| `Ranges.RangeManager.InsertEntry` | kernel/paging/range.hpp:83-91 | does what Insert says; leaves the vector alone otherwise |
| `Ranges.RangeManager.FindFreePlace` | kernel/paging/range.hpp:93-120 | the scan finds what FindFree says |
| `Ranges.RangeManager.FindLeft` | kernel/paging/range.hpp:131-137 | the first entry that reaches past the lower end |
| `Ranges.RangeManager.FindRight` | kernel/paging/range.hpp:139-145 | the last entry that begins below the upper end |
| `Ranges.RangeManager.Erase` | kernel/paging/range.hpp:123-203 | refuses exactly the ranges outside Top; otherwise the vector becomes Carve and the release calls are Released, in order |
| `Ranges.RangeManager.EraseOne` | kernel/paging/range.hpp:151-177 | the four ways of cutting a single entry |
| `Ranges.RangeManager.EraseMany` | kernel/paging/range.hpp:178-201 | cutting both ends and dropping the entries between |
| `Ranges.RangeManager.ReleaseEach` | kernel/paging/range.hpp:193-197 | release is called on each dropped entry in turn |
| `Frames.FirstClear` | kernel/allocator/pool.cpp:18-27 | the lowest clear bit, and none if and only if all are set |
| `Frames.RefBounded` | kernel/allocator/mod.cpp:22-27 | a frame is mapped at most once per directory, so its 16-bit count never wraps |
| `Frames.FrameCount` | kernel/allocator/mod.cpp:14-44 | the count is the number of entries that map the frame plus one for a directory, table or kernel frame; the pool bit is set if and only if it is positive |
| `Frames.NewDirKeeps` | kernel/paging/directory.cpp:22-29 | a new directory keeps every invariant and has no pages |
| `Frames.NewDirTakes` | kernel/paging/directory.cpp:22-29 | a new directory takes one frame and fails if and only if none is free |
| `Frames.EnsureTableKeeps` | kernel/paging/directory.cpp:64-70 | making a table present keeps every invariant and every page |
| `Frames.AllocPageKeeps` | kernel/paging/directory.cpp:89-100 | an absent page becomes present, zeroed and writable as asked, and nothing else changes |
| `Frames.AllocPageTakes` | kernel/paging/directory.cpp:64-100 | a page takes one free frame, two if its table is missing, and fails if and only if there are fewer |
| `Frames.ViewAllocPage` | kernel/paging/directory.cpp:89-100 | the same as the address spaces see it: one page appears in one of them |
| `Frames.ViewHeldPage` | kernel/paging/directory.cpp:89-100 | present or not, the page becomes a zeroed one, writable as asked, and no other page of any address space changes |
| `Frames.MappedOver` | kernel/paging/directory.cpp:89-100 | mapping over a present page leaves its old frame with one reference more counted than there are |
| `Frames.UnmapKeeps` | kernel/paging/table.cpp:24-31 | clearing an entry releases its frame once and keeps every invariant |
| `Frames.FreePageKeeps` | kernel/paging/directory.cpp:72-77 | exactly one page of one address space disappears, if it was there |
| `Frames.FreeFromKeeps` | kernel/paging/vma.hpp:60-65 | exactly the pages of the stretch disappear |
| `Frames.ShareKeeps` | kernel/paging/directory.cpp:44-57 | sharing an entry keeps the invariants: both copies lose write permission and the count goes up by one |
| `Frames.ForkCopies` | kernel/paging/directory.cpp:31-62 | the new address space holds exactly the pages of the old one, and no existing address space changes |
| `Frames.ForkTakes` | kernel/paging/directory.cpp:31-62 | fork takes one frame for the directory and one for each table of the parent, and comes back if and only if that many are free |
| `Frames.HandleCowKeeps` | kernel/paging/directory.cpp:102-141 | handled if and only if the page is copy-on-write; then it can be written, shows the same bytes, and no other page changes |
| `Frames.ViewHandleCow` | kernel/paging/directory.cpp:102-141 | no address space sees any difference after a copy-on-write fault |
| `Frames.HandleCowTakes` | kernel/paging/directory.cpp:102-141 | a write fault takes a frame if and only if the page is shared, and halts if and only if it then finds none |
| `Frames.SoleMapper` | kernel/paging/directory.cpp:119-125 | a writable entry is the only one on its frame |
| `Frames.ViewStore` | kernel/paging/directory.cpp:102-141 | a store through a writable entry changes one byte of one page of one address space |
| `Frames.FreeTablesKeeps` | kernel/paging/directory.cpp:79-87 | releases the pages left over and the tables of one directory, and nothing else |
| `Frames.DestroyKeeps` | kernel/task/scheduler.task.cpp:49-54 | tables and directory are gone, every other address space keeps its pages |
| `Frames.RemovalConserves` | kernel/task/scheduler.task.cpp:49-54 | removing an address space lowers every count by exactly its own references and frees exactly the frames nobody else holds |
| `Frames.KernelTakeKeeps` | kernel/allocator/mod.cpp:14-20 | a frame the kernel takes for itself was no other owner's, counts stay exact and no address space changes |
| `Frames.KernelGiveKeeps` | kernel/allocator/mod.cpp:29-37 | giving it back keeps counts exact and changes no address space |
| `AddressSpace.SplitAttrDrops` | kernel/paging/vma.hpp:67-71 | the lower half of a split keeps its protection and no longer grows down |
| `AddressSpace.AllocRangeFills` | kernel/paging/vma.hpp:35-48 | the pages of an area appear, zeroed and writable if and only if the area is, and no other address space changes |
| `AddressSpace.AllocRangeIff` | kernel/paging/vma.hpp:35-48 | an area gets its pages if and only if the free frames suffice for the pages and their missing tables |
| `AddressSpace.AllocLoopIs` | kernel/paging/vma.hpp:35-48 | the loop that runs until its address is exactly the end is the loop over the pages of the area if the area has none or starts at one, and otherwise does not come back |
| `AddressSpace.EraseSpace` | kernel/paging/vma.hpp:73-78 | erased areas and freed pages are the same: what is left agrees, and no other address space changes |
| `AddressSpace.InsertAgrees` | kernel/syscall/mmap_pgoff.cpp:30-37 | an accepted area lies on absent pages only, and areas and pages agree once it has its own |
| `AddressSpace.MunmapAgrees` | kernel/syscall/munmap.cpp:8-20 | a safe munmap makes exactly the pages of the range disappear, answers as specified and keeps agreement |
| `AddressSpace.MunmapSafeIff` | kernel/syscall/munmap.cpp:8-20 | the list of areas stays well formed if and only if the call is refused, starts at or above the base of user space, or is the empty one at 0 |
| `AddressSpace.MunmapUncovers` | kernel/syscall/munmap.cpp:8-20 | after a successful munmap nothing of the range is covered if and only if the length is at most 0xFFFFF000 or nothing was |
| `AddressSpace.MmapDefinedIff` | kernel/syscall/mmap_pgoff.cpp:9-66 | mmap looks at an entry that is not there if and only if a fixed range runs from 0 past the base, or up to it where no area starts, or a request that wraps to 0 bytes starts in an area that ends at the top |
| `AddressSpace.MmapAgrees` | kernel/syscall/mmap_pgoff.cpp:9-66 | a safe mmap that comes back does what its specification says on every path (MAP_FIXED lands exactly where asked or fails, MAP_PRIVATE takes the place MmapLeast describes) and keeps agreement |
| `AddressSpace.MmapLeast` | kernel/syscall/mmap_pgoff.cpp:40-59 | the specification of MAP_PRIVATE places the area at the least address at or above the hint that is unused with no empty area inside, and answers ENOMEM if and only if there is none |
| `AddressSpace.MmapHaltsIff` | kernel/syscall/mmap_pgoff.cpp:9-66 | mmap does not come back if and only if the free frames are too few for the pages and missing tables, after what is erased is freed, or an area with pages goes to an unaligned hint |
| `AddressSpace.MmapSafeIff` | kernel/syscall/mmap_pgoff.cpp:9-66 | mmap comes back with areas and pages in agreement if and only if the frames suffice, a MAP_FIXED range in user space starts at or above the base or is empty at 0, and a MAP_PRIVATE hint is aligned, below the base or no place for the area |
| `AddressSpace.MmapLosesAgreement` | kernel/syscall/mmap_pgoff.cpp:9-66 | in a new address space with two free frames a page at hint 0x500001 does not come back and a fixed page at 0x3FF000 loses the low sentinel |
| `AddressSpace.MmapCovers` | kernel/syscall/mmap_pgoff.cpp:9-66 | a successful mmap covers every address asked for if and only if the length is at most 0xFFFFF000 |
| `AddressSpace.MmapLeavesEmpty` | kernel/syscall/mmap_pgoff.cpp:40-59 | in a new address space 0xFFFFFFFF bytes at any hint in user space leave an empty area there and cover nothing |
| `AddressSpace.EmptyAreaMovesSearch` | kernel/paging/range.hpp:93-120 | with one empty area nothing is covered, yet with it at 0x401000 two pages are placed there instead of at 0x400000, and all of user space does not fit |
| `AddressSpace.UnalignedAreaStays` | kernel/syscall/mmap_pgoff.cpp:40-59 | with an empty area at 0x500001 a page at the aligned hint 0x500000 does not come back, two frames being free |
| `AddressSpace.PlaceAligned` | kernel/syscall/mmap_pgoff.cpp:45-46 | the place found is page aligned if and only if the hint is aligned, below the base, or no place for the area |
| `AddressSpace.FixedPlace` | kernel/syscall/mmap_pgoff.cpp:22-29 | after an in-range erase the search from its start finds its start |
| `AddressSpace.CheckStackGrows` | kernel/task/mod.cpp:166-190 | a fault below a growing area brings exactly the pages between, zeroed and writable; any other fault changes nothing |
| `AddressSpace.AllocDownIff` | kernel/task/mod.cpp:180-183 | the downward loop comes back if and only if the free frames suffice for the pages and their missing tables |
| `AddressSpace.StackFaultIff` | kernel/task/mod.cpp:166-190 | a fault grows the stack if and only if it is in the last 8 MiB of user space, in no area, and the first area above it grows down |
| `AddressSpace.CheckStackHaltsIff` | kernel/task/mod.cpp:166-190 | stack growth comes back if and only if the free frames suffice |
| `AddressSpace.CheckStackAgrees` | kernel/task/mod.cpp:166-190 | areas and pages agree afterwards if and only if no area grew or the one that did is writable |
| `AddressSpace.GrowAgreesIff` | kernel/task/mod.cpp:166-190 | after growth areas and pages agree if and only if the area is writable; the new pages were absent |
| `AddressSpace.ReadOnlyGrowth` | kernel/task/mod.cpp:166-190 | a fault one page below a read-only growing area grows it with areas and pages no longer agreeing |
| `AddressSpace.StoreAgrees` | kernel/interrupt/impl.cpp:48-78 | a user store with its faults changes one byte where the area may be written, grows the stack where it may, and is refused otherwise |
| `AddressSpace.StoreHaltsIff` | kernel/interrupt/impl.cpp:48-78 | a store comes back unless it needs a copy of a shared page, or stack, and the frames do not suffice |
| `AddressSpace.LoadAgrees` | kernel/interrupt/impl.cpp:48-78 | a user load returns the byte the specification has, or is refused |
| `AddressSpace.LoadHaltsIff` | kernel/interrupt/impl.cpp:48-78 | a load comes back unless it needs stack and the frames do not suffice |
| `AddressSpace.TeardownKeeps` | kernel/task/scheduler.task.cpp:49-54 | the address space is gone and no other process sees a change |
| `AddressSpace.TeardownConserves` | kernel/task/scheduler.task.cpp:49-54 | every reference of the process is given back once; exactly the frames nobody else holds become free |
| `Basics.FreePid` | kernel/task/pid.cpp:24-34 | the lowest free number from p on, and none if and only if all below 256 are taken |
| `Processes.DirectoriesBounded` | kernel/task/forward.hpp:54 | with 256 task slots there are never more directories than the counts allow for |
| `Processes.StepRefines` | kernel/paging/directory.cpp:31-62 | every step of the kernel that comes back is the step of the specification with eager copies, with the same reply |
| `Processes.StepHaltsIff` | kernel/paging/directory.cpp:31-62 | for every kind of step: it halts if and only if the free frames are fewer than it needs (for fork one and one for each table of the parent), no pid is free, an mmap runs on, or a frame is given back that the kernel does not hold |
| `Processes.RunRefines` | kernel/paging/directory.cpp:31-141 | every run shows every process the memory and replies of a system whose fork copies all pages |
| `Processes.RunHaltsIff` | kernel/paging/directory.cpp:31-141 | a run comes back if and only if no step it reaches is such a step |
| `Processes.BootedRun` | kernel/task/task.cpp:95-137 | the same for every run from a kernel without processes |
| `Processes.FramesCounted` | kernel/allocator/mod.cpp:14-44 | after every run from boot every count is exact, below 2^16, positive if and only if the pool bit is set, and 1 for a writable frame, kernel frames included |
| `Directory.Walk` | kernel/paging/address.hpp:34-35 | the two-level lookup finds the entry of the page |
| `Directory.TableWrite` | kernel/paging/table.hpp:25-28 | writing one table entry changes the mapping of one page |
| `Directory.PhysicalMemory.TakeFrame` | kernel/allocator/mod.cpp:14-20 | takes the lowest free frame and sets its count to one |
| `Directory.PhysicalMemory.RetainFrame` | kernel/allocator/mod.cpp:22-27 | adds one to the 16-bit count |
| `Directory.PhysicalMemory.ReleaseFrame` | kernel/allocator/mod.cpp:29-37 | takes one off the count and frees the frame at zero |
| `Directory.PhysicalMemory.Ensure` | kernel/paging/directory.cpp:64-70 | does what EnsureTable says |
| `Directory.PhysicalMemory.AllocUserPage` | kernel/paging/directory.cpp:89-100 | does what AllocPage says |
| `Directory.PhysicalMemory.FreeUserPage` | kernel/paging/directory.cpp:72-77 | does what FreePage says |
| `Directory.PhysicalMemory.ResolveWriteFault` | kernel/paging/directory.cpp:102-141 | does what HandleCow says |
| `Directory.PhysicalMemory.NewDirectory` | kernel/paging/directory.cpp:22-29 | does what NewDir says |
| `Directory.PhysicalMemory.ShareTable` | kernel/paging/directory.cpp:43-58 | the inner loop shares every present entry of one table |
| `Directory.PhysicalMemory.CopyTables` | kernel/paging/directory.cpp:37-60 | the outer loop shares every table |
| `Directory.PhysicalMemory.Fork` | kernel/paging/directory.cpp:31-62 | does what ForkCow says |
| `Directory.PhysicalMemory.ReleaseRow` | kernel/paging/table.cpp:14-22 | releases every entry left in a table |
| `Directory.PhysicalMemory.FreeAllTables` | kernel/paging/directory.cpp:79-87 | does what FreeTables says |
| `Directory.PhysicalMemory.Teardown` | kernel/task/scheduler.task.cpp:52-53 | does what Destroy says |
| `UserRanges.ValidateReadonlyRange` | kernel/paging/vma.hpp:99-135 | stops at the first element that terminates, cannot be read or lies behind an unreadable empty area; returns it if and only if it terminates, can be read and the address is aligned |
| `UserRanges.StopsOnce` | kernel/paging/vma.hpp:99-135 | that determines where the scan stops and what it returns |
| `UserRanges.StringBlocked` | kernel/paging/vma.hpp:99-135 | a string of two bytes, both readable, is refused where an unreadable empty area lies between them |
| `UserRanges.ScanArea` | kernel/paging/vma.hpp:113-124 | the elements of one area, up to its end or the terminating one |
| `UserSpace.Space.constructor` | kernel/task/scheduler.task.cpp:66 | an address space without pages and areas, which agree |
| `UserSpace.Space.AllocPages` | kernel/paging/vma.hpp:35-48 | the loop does what AllocLoop says, from any address to any end |
| `UserSpace.Space.FreePages` | kernel/paging/vma.hpp:60-65 | the loop does what FreeFrom says |
| `UserSpace.Space.EraseRange` | kernel/paging/vma.hpp:73-78 | erases the areas and releases their pages; changes nothing when refused |
| `UserSpace.Space.MunmapCall` | kernel/syscall/munmap.cpp:8-20 | does what Munmap says |
| `UserSpace.Space.MmapCall` | kernel/syscall/mmap_pgoff.cpp:9-66 | does what Mmap says, on every path |
| `UserSpace.Space.MapFixed` | kernel/syscall/mmap_pgoff.cpp:13-39 | the MAP_FIXED path: erase, search, and map only at the address asked for |
| `UserSpace.Space.MapHere` | kernel/syscall/mmap_pgoff.cpp:51-59 | insert, then pages; ENOMEM without pages when refused |
| `UserSpace.Space.CheckStackFault` | kernel/task/mod.cpp:166-190 | does what CheckStack says |
| `UserSpace.Space.GrowDown` | kernel/task/mod.cpp:180-183 | the loop allocates from the area down to the fault |
| `UserSpace.Space.LoadOnePage` | kernel/elf/mod.cpp:31-39 | a fresh page with the file bytes that fall into it, also over a present page |
| `UserSpace.Space.LoadSegmentPages` | kernel/elf/mod.cpp:30-40 | the loop until the address is exactly the end does what LoadPages says |
| `UserSpace.Space.LoadOneSegment` | kernel/elf/mod.cpp:24-56 | loads the pages of one segment, offers its area to the vector and raises the break |
| `UserSpace.Space.LoadElfFile` | kernel/elf/mod.cpp:15-59 | does what LoadElf says, for every list of program headers whose bytes are in the file |
| `UserSpace.Space.Free` | kernel/task/scheduler.task.cpp:49-54 | vmSpace.free, freePageTables and the directory frame: does what AddressSpace.Teardown says |
| `Elf.CopyInIs` | kernel/elf/mod.cpp:34-39 | what is copied into a page is, byte by byte, the file byte of the address or 0 |
| `Elf.AttrWrites` | kernel/elf/mod.cpp:44-54 | the area of a segment is private and anonymous and may be read, written and executed if and only if the segment may |
| `Elf.PagesFromExact` | kernel/elf/mod.cpp:15-40 | every page of the remaining segments holds the bytes of the last of them that has it and nothing else changes, whatever was there before |
| `Elf.LoadPagesTakes` | kernel/elf/mod.cpp:30-40 | the page loop comes back if and only if its end lies at or above its start inside user space and the free frames suffice, and takes one for each page and missing table |
| `Elf.LoadPagesInvIff` | kernel/elf/mod.cpp:30-40 | counts stay exact if and only if every page of the segment was absent |
| `Elf.AreaTaken` | kernel/elf/mod.cpp:41-57 | the insert accepts the area of a segment if and only if, by the headers alone, it starts at or above the base and has room beside the areas accepted before it |
| `Elf.AreasFromOk` | kernel/elf/mod.cpp:41-57 | the list of areas stays well formed whatever the segments |
| `Elf.AreasFromExact` | kernel/elf/mod.cpp:41-57 | whatever the segments, the areas are exactly those of the accepted ones, each with its own range and attributes |
| `Elf.LoadElfExact` | kernel/elf/mod.cpp:7-60 | for segments anywhere, shared pages included: every page of a loadable segment holds the bytes of the last one that has it between zeros, and its permission, no other page is present, no other address space changes, the list of areas is well formed, the break is at or above every segment, and counts are exact if and only if no page is shared |
| `Elf.LoadElfHaltsIff` | kernel/elf/mod.cpp:7-60 | a file loads if and only if all its segments lie inside user space and the free frames suffice for their pages, shared ones counted again, and missing tables |
| `Elf.OnceEachLoaded` | kernel/elf/mod.cpp:30-40 | where no page is shared every segment is in memory as the file has it |
| `Elf.SharedPageLosesFrame` | kernel/elf/mod.cpp:30-40 | two segments of one page at 0x400000 leave a count that is not exact |
| `Elf.LoadElfAgreesIff` | kernel/elf/mod.cpp:7-60 | for segments anywhere: the areas are those of the accepted segments, and areas and pages agree if and only if every page lies in an accepted area that may be written exactly if the last segment with the page may |
| `Elf.ApartMatching` | kernel/elf/mod.cpp:15-57 | of segments that lie apart no page is shared, one with pages is accepted if and only if it starts at or above the base, and areas and pages agree if and only if all such segments do |
| `Elf.LowSegmentLosesItsArea` | kernel/elf/mod.cpp:7-60 | one page at 0x1000 is loaded and no area covers it |
| `Scheduler.YieldKeeps` | kernel/task/scheduler.self.cpp:44-66 | from a consistent state yield leads to a consistent state in which the current task runs |
| `Scheduler.YieldDispatches` | kernel/task/scheduler.self.cpp:51-61 | with somebody queued, yield dispatches the front and requeues a running task at the end |
| `Scheduler.YieldExact` | kernel/task/scheduler.self.cpp:44-66 | a refused yield is remembered, one with nobody queued changes nothing, any other runs the front of the queue and puts the caller, unless idle, at its end |
| `Scheduler.TimeSlice` | kernel/task/scheduler.other.cpp:39-41 | every tenth millisecond the front of the queue gets the processor |
| `Scheduler.DeferredYield` | kernel/task/scheduler.self.cpp:68-73 | a yield asked for while disabled happens when yielding is enabled again |
| `Scheduler.EnableExact` | kernel/task/scheduler.self.cpp:68-73 | the remembered yield happens at the last enableYield and only then |
| `Scheduler.SleepsUntil` | kernel/task/scheduler.self.cpp:90-104 | sleep is refused if and only if yielding is disabled; otherwise the task is blocked in the sleep queue under its deadline, behind those that wake earlier and before the others, and the front of the ready queue runs |
| `Scheduler.WakeKeeps` | kernel/task/scheduler.other.cpp:9-25 | waking takes a task out of the list its detach names and queues it once |
| `Scheduler.WakeExact` | kernel/task/scheduler.other.cpp:9-25 | a blocked task becomes ready with the reason given, leaves its list and is last in the ready queue; any other task is left alone |
| `Scheduler.WakeOneExact` | kernel/task/wait.cpp:17-27 | wakes the first in the list, if there is one, and nobody else |
| `Scheduler.WakeAllKeeps` | kernel/task/wait.cpp:29-37 | the list is emptied and exactly its members join the end of the ready queue, in order |
| `Scheduler.ParkKeeps` | kernel/task/scheduler.self.cpp:75-113 | block, sleep and wait lead to a consistent state with another task running |
| `Scheduler.BlockExact` | kernel/task/scheduler.self.cpp:75-88 | block is refused if and only if yielding is disabled; otherwise the task is blocked in no list and the front of the ready queue runs |
| `Scheduler.WaitExact` | kernel/task/wait.cpp:10-15 | wait is refused if and only if yielding is disabled; otherwise the task is last in the list and names it, no other list changes, and the front of the ready queue runs |
| `Scheduler.SortedJoin` | kernel/task/scheduler.self.cpp:100-102 | inserting before the first later sleeper keeps the sleep queue sorted |
| `Scheduler.RemoveSorted` | kernel/task/scheduler.self.cpp:103 | taking a task from the middle keeps the sleep queue sorted |
| `Scheduler.DueExact` | kernel/task/scheduler.other.cpp:29-38 | in the sorted queue the due tasks are exactly those whose time has passed |
| `Scheduler.WakeSleepersExact` | kernel/task/scheduler.other.cpp:27-38 | checkSleep wakes exactly the tasks whose time has passed, normally and in order of their time, and changes no other task |
| `Scheduler.TickKeeps` | kernel/timer/load.cpp:22-26 | the timer interrupt keeps every invariant |
| `Scheduler.TickExact` | kernel/task/scheduler.other.cpp:27-42 | a millisecond passes; due sleepers join the queue; every tenth one the front of the queue runs, or the wish is remembered while yielding is disabled |
| `Scheduler.ResumeKeeps` | kernel/task/scheduler.self.cpp:85-112 | a sleep that was not interrupted reports no time left |
| `Scheduler.ReasonReturned` | kernel/task/scheduler.self.cpp:82-112 | whatever happens until the task runs again, its call returns the reason it was woken for, and a sleep the time left, or 0 |
| `Scheduler.SendSignalKeeps` | kernel/task/scheduler.other.cpp:44-60 | a signal keeps every invariant, whether it wakes its target or not |
| `Scheduler.SendSignalExact` | kernel/task/scheduler.other.cpp:44-60 | the signal becomes pending for a task that has not exited, wakes it if and only if it is blocked and does not mask it, and changes nothing else |
| `Scheduler.AddTaskKeeps` | kernel/task/scheduler.task.cpp:16-24 | a new task gets the lowest free pid, the parent and mask given and no pending signals, and is last in the ready queue, once; nothing else changes; there is no room if and only if all 240 pids are taken |
| `Scheduler.ExitKeeps` | kernel/task/scheduler.self.cpp:15-42 | after exit another task runs and the exited one stays exited |
| `Scheduler.ExitHaltsIff` | kernel/task/scheduler.self.cpp:15-20 | only init cannot exit |
| `Scheduler.ExitTells` | kernel/task/scheduler.self.cpp:22-33 | nobody is left waiting on what was closed, the parent no longer waits for children and has SIGCHLD |
| `Scheduler.ExitExact` | kernel/task/scheduler.self.cpp:15-42 | besides the exiting task, its parent, the next to run and those waiting for what was closed, who are woken normally, no task changes |
| `Scheduler.FreeTaskSafe` | kernel/task/scheduler.task.cpp:26-60 | an exited task is not current and in no list, and nobody waits on the list inside it, so freeing it keeps every invariant |
| `Scheduler.FreeTaskExact` | kernel/task/scheduler.task.cpp:26-60 | the slot of an exited task becomes free; nothing else changes, and nothing at all for a task that has not exited |
| `Scheduler.StepKeeps` | kernel/task/scheduler.self.cpp:15-113 | every step keeps the one-list invariant and the order of the ready queue |
| `Scheduler.StepStopsIff` | kernel/task/scheduler.self.cpp:15-113 | a step stops the kernel if and only if it blocks with yielding disabled, init exits, or all pids are taken |
| `Scheduler.RunKeeps` | kernel/task/scheduler.self.cpp:15-113 | in every run: current is running and in no list, every ready task is queued once, every blocked task is in exactly the list its detach names, exited tasks in none; and the queue is served in order |
| `Scheduler.RunStuckIff` | kernel/task/scheduler.self.cpp:15-113 | a run comes to its end if and only if no step it reaches breaks the rules or stops the kernel |
| `Scheduler.NoStarvation` | kernel/task/scheduler.self.cpp:34-66 | the task at index k of the ready queue is the (k+1)-th dispatched from then on |
| `Scheduler.ServedWithin` | kernel/task/scheduler.other.cpp:39-41 | if yielding is enabled at every tick, the task at index k of the ready queue gets the processor within 10 * (k + 1) milliseconds |
| `Scheduler.YieldFifo` | kernel/task/scheduler.self.cpp:51-65 | idle is dispatched only when nobody is queued |
| `Scheduler.BootedRun` | kernel/task/pid.cpp:36-57 | the state after setup is consistent, and so is every state reached from it |
| `SchedulerObject.TaskScheduler.constructor` | kernel/task/pid.cpp:36-57 | init runs, idle is ready, nothing is queued |
| `SchedulerObject.TaskScheduler.YieldCpu` | kernel/task/scheduler.self.cpp:44-66 | does what Yield says |
| `SchedulerObject.TaskScheduler.Enable` | kernel/task/scheduler.self.cpp:68-73 | does what EnableYield says |
| `SchedulerObject.TaskScheduler.WakeTask` | kernel/task/scheduler.other.cpp:9-25 | does what Wake says |
| `SchedulerObject.TaskScheduler.WakeOneOf` | kernel/task/wait.cpp:17-27 | wakes the front waiter, if any, and says so |
| `SchedulerObject.TaskScheduler.WakeAllOf` | kernel/task/wait.cpp:29-37 | the loop does what WakeAll says |
| `SchedulerObject.TaskScheduler.FindSleepPos` | kernel/task/scheduler.self.cpp:100-101 | the position before the first task that wakes no earlier |
| `SchedulerObject.TaskScheduler.BlockHere` | kernel/task/scheduler.self.cpp:75-84 | does what Block says; refused while yielding is disabled |
| `SchedulerObject.TaskScheduler.SleepHere` | kernel/task/scheduler.self.cpp:90-104 | does what Sleep says |
| `SchedulerObject.TaskScheduler.WaitHere` | kernel/task/wait.cpp:10-15 | does what WaitOn says |
| `SchedulerObject.TaskScheduler.CheckSleep` | kernel/task/scheduler.other.cpp:29-38 | the loop does what WakeSleepers says |
| `SchedulerObject.TaskScheduler.TimerInterrupt` | kernel/timer/load.cpp:22-26 | does what Tick says |
| `SchedulerObject.TaskScheduler.Send` | kernel/task/scheduler.other.cpp:44-60 | does what SendSignal says |
| `SchedulerObject.TaskScheduler.FinishCall` | kernel/task/scheduler.self.cpp:85-112 | returns the wake reason, resets it, and reports the time left |
| `SchedulerObject.TaskScheduler.Add` | kernel/task/pid.cpp:24-34 | the loop finds the lowest pid from 16 on that no task has and queues the task under it, keeping the invariant; it finds none if and only if all are taken |
| `SchedulerObject.TaskScheduler.Free` | kernel/task/scheduler.task.cpp:26-60 | frees exactly exited tasks |
| `SchedulerObject.TaskScheduler.ExitCurrent` | kernel/task/scheduler.self.cpp:15-42 | does what Exit says; refused for init |
| `TaskLists.ListsSeparate` | kernel/task/tcb.hpp:46-47 | in a consistent scheduler no task is in two lists or twice in one, so one slot per task is enough |
| `TaskLists.SlotLists.constructor` | kernel/task/scheduler.hpp:15-16 | empty lists |
| `TaskLists.SlotLists.NodesApart` | kernel/task/tcb.hpp:46-47 | two lists share no node |
| `TaskLists.SlotLists.Insert` | kernel/lib/list/container.hpp:203-206 | linking a task that is in no list keeps every list well linked, with its tasks in order |
| `TaskLists.SlotLists.Erase` | kernel/lib/list/container.hpp:184-188 | so does taking a task out of the list it is in |
| `TaskLists.SlotLists.Front` | kernel/lib/list/container.hpp:155-156 | the task of the first slot, read from the links |
| `TaskLists.SlotLists.WakeTask` | kernel/task/scheduler.other.cpp:9-25 | after wake every list is well linked and links exactly what Wake says |
| `TaskLists.SlotLists.WakeAllOf` | kernel/task/wait.cpp:29-37 | after wakeAll every list is well linked and links exactly what WakeAll says |
| `TaskLists.SlotLists.CheckSleep` | kernel/task/scheduler.other.cpp:29-38 | after checkSleep every list is well linked and links exactly what WakeSleepers says |
| `TaskLists.SlotLists.TakeNext` | kernel/task/scheduler.self.cpp:34-40 | at the end of exit the front of the ready queue is unlinked and every list is well linked |
| `TaskLists.SlotLists.Park` | kernel/task/scheduler.self.cpp:75-104 | after block, sleep or wait every list is well linked and links exactly what Parked says |
| `TaskLists.SlotLists.Enter` | kernel/task/scheduler.task.cpp:16-18 | after addTask every list is well linked and links exactly what Queued says |
| `TaskLists.SlotLists.Rotate` | kernel/task/scheduler.self.cpp:51-61 | after a yield every list is well linked and links exactly what Yield says |
| `Pipe.StepKeeps` | kernel/fs/pipe.cpp:22-107 | every step keeps: read bytes followed by buffered bytes are the written bytes, at most 4096 are buffered, and nobody waits who could go on |
| `Pipe.StepReports` | kernel/fs/pipe.cpp:56-107 | a read returns as much as was asked for or all there is, and 0 of some bytes only when drained and write-closed; EINTR and EPIPE move nothing; a write puts as much as fits |
| `Pipe.StepDecides` | kernel/fs/pipe.cpp:22-107 | a call waits if and only if the pipe is empty (full) with the other end open, EPIPE if and only if nobody reads, EINTR if and only if a signal woke the caller; other callers keep their calls |
| `Pipe.ClosedEnds` | kernel/fs/pipe.cpp:46-54 | a closed end stays closed and nobody waits for it: writes are refused, reads return what is left or the end |
| `Pipe.RunKeeps` | kernel/fs/pipe.cpp:22-107 | the same over every run of any number of callers, and what was received and sent is what the reports say |
| `Pipe.RunStuckIff` | kernel/fs/pipe.cpp:22-107 | every sequence of events each of which can happen when its turn comes is a run |
| `Pipe.FirstInFirstOut` | kernel/fs/pipe.cpp:56-107 | over every interleaving what the reads reported followed by what is buffered is what the writes put, taken from the calls and their reports |
| `Pipe.NoLostWakeup` | kernel/fs/pipe.cpp:22-54 | in every reachable state a queued caller would have to wait again if it looked now |
| `PipeObject.RingDrop` | kernel/fs/pipe.cpp:77 | advancing the wrapping tail drops exactly the oldest bytes |
| `PipeObject.RingPut` | kernel/fs/pipe.cpp:93-104 | bytes stored behind the head follow those in the ring and overwrite none, also when the copy is split or the counter wraps |
| `PipeObject.RingSplit` | kernel/fs/pipe.cpp:66-76 | the one- or two-piece copy out is the ring in order |
| `PipeObject.Counters` | kernel/fs/pipe.hpp:24-26 | the difference of the wrapping counters is the number of bytes, before and after either moves |
| `PipeObject.PipeState.constructor` | kernel/fs/pipe.cpp:14-16 | an empty pipe with both ends open |
| `PipeObject.PipeState.Read` | kernel/fs/pipe.cpp:56-80 | does to the bytes in the ring what ReadPass does to a queue |
| `PipeObject.PipeState.Write` | kernel/fs/pipe.cpp:82-107 | does to the bytes in the ring what WritePass does to a queue |
| `PipeObject.PipeState.Store` | kernel/fs/pipe.cpp:94-103 | the copy into the ring, in one piece or two |
| `PipeObject.PipeState.OnReadClosed` | kernel/fs/pipe.cpp:46-49 | does what CloseRead says |
| `PipeObject.PipeState.OnWriteClosed` | kernel/fs/pipe.cpp:51-54 | does what CloseWrite says |
| `Bitmap.BitmapManager.Alloc` | kernel/allocator/pool.cpp:18-27 | sets the lowest clear bit and returns its number; none if and only if all are set |
| `Bitmap.BitmapManager.Free` | kernel/allocator/frame.cpp:25-27 | clears exactly that bit |
| `Bitmap.CountrOne` | kernel/allocator/pool.cpp:20 | the number of set bits below the lowest clear one |
| `LargeFrames.BytesExact` | kernel/allocator/large_frame.cpp:8 | the shift keeps the size if and only if the count is below 2^20 |
| `LargeFrames.AllocDefinedIff` | kernel/allocator/large_frame.cpp:7-17 | the insert has an entry to look ahead to unless 0 bytes are asked for while one block fills the region |
| `LargeFrames.AllocFails` | kernel/allocator/large_frame.cpp:7-17 | fails if and only if every unused stretch of that size has an empty block strictly inside; for 0 bytes if and only if the block at the start of the region is followed at once by another |
| `LargeFrames.AllocLeast` | kernel/allocator/large_frame.cpp:7-17 | a block of pages goes to the lowest unused stretch that is large enough with no empty block strictly inside |
| `LargeFrames.AllocAdds` | kernel/allocator/large_frame.cpp:7-17 | otherwise adds one aligned block of free pages within bounds |
| `LargeFrames.AllocThenFree` | kernel/allocator/large_frame.cpp:7-32 | freeing an allocated block restores the vector and returns its page count, modulo 2^20 |
| `LargeFrames.FreeFails` | kernel/allocator/large_frame.cpp:19-32 | a free stops the kernel if and only if the address is between pages or no block starts there; otherwise the last block that starts there is taken out and its page count returned |
| `LargeFrames.AllocIn` | kernel/allocator/large_frame.cpp:7-17 | does what Alloc says |
| `LargeFrames.FreeIn` | kernel/allocator/large_frame.cpp:19-32 | does what Free says |
| `Heap.ClassFits` | kernel/allocator/slab.cpp:33-43 | every request up to 512 bytes has a class, the smallest whose chunks are at least twice as large |
| `Heap.ChunkListOk` | kernel/allocator/slab.cpp:8-18 | the free list of a new slab holds every chunk once, and none overlaps the header |
| `Heap.SlabAllocKeeps` | kernel/allocator/slab.cpp:45-69 | a new small block was not live, and the invariant holds with it |
| `Heap.SmallExact` | kernel/allocator/slab.cpp:45-69 | a small request is refused if and only if no slab of its class has a free chunk and every page is taken; the block is a chunk of that class; a page is taken, the lowest, if and only if no such slab has room |
| `Heap.PageExact` | kernel/allocator/frame.cpp:14-23 | a page is refused if and only if every one is taken; otherwise it is the lowest |
| `Heap.SlabFreeKeeps` | kernel/allocator/slab.cpp:71-84 | freeing a small block keeps the invariant, whether its slab was full, becomes empty or neither |
| `Heap.LastChunk` | kernel/allocator/slab.cpp:79-83 | in a slab with one chunk in use that chunk is the only live one, so the page may go |
| `Heap.AllFree` | kernel/allocator/slab.cpp:27-31 | a slab with nothing in use has every chunk on its free list |
| `Heap.RoutedBack` | kernel/allocator/mod.cpp:132-146 | the address of every live block leads back to the allocator that produced it |
| `Heap.AllocPlaced` | kernel/allocator/mod.cpp:121-130 | up to 512 bytes are given chunks, up to 4096 pages, more runs |
| `Heap.AutoAllocKeeps` | kernel/allocator/mod.cpp:121-130 | every allocation keeps the invariant; up to 0xFFFFF000 bytes it returns a block that was not live, above that it adds a run without pages and nothing else |
| `Heap.AutoAllocFails` | kernel/allocator/mod.cpp:121-130 | exactly which requests stop the kernel, for chunks, pages, runs and requests that wrap |
| `Heap.NewBlockIff` | kernel/allocator/mod.cpp:121-130 | a new block has room for its request and was not live if and only if the request is at most 0xFFFFF000 bytes |
| `Heap.SameAddressTwice` | kernel/allocator/mod.cpp:121-130 | on a fresh heap requests for 0xFFFFFFFF bytes and then two pages are given the same address |
| `Heap.AutoFreeKeeps` | kernel/allocator/mod.cpp:132-146 | freeing anything handed out succeeds and keeps the invariant; where a block and runs without pages share an address the block goes first |
| `Heap.LiveDisjoint` | kernel/allocator/slab.cpp:8-69 | no two live blocks overlap |
| `Heap.BlockFits` | kernel/allocator/slab.cpp:33-69 | every live block lies inside its chunk, page or run; the chunk lies in its page clear of the header, the run in the region |
| `Heap.NothingLeaks` | kernel/allocator/slab.cpp:71-84 | when everything is given back the heap is as at the start: no slab, page or range is left |
| `Heap.RunKeeps` | kernel/allocator/mod.cpp:121-146 | over every run, requests above 0xFFFFF000 bytes included: consistent (each slab in the list its count calls for, chunks free or live), live blocks have room and are disjoint, nothing leaks |
| `Heap.RunStopsIff` | kernel/allocator/mod.cpp:121-146 | a run comes to its end if and only if no operation it reaches is such a request, or gives back what was not handed out |
| `HeapObject.BuildChunks` | kernel/allocator/slab.cpp:8-18 | the loop builds the free list in ascending order |
| `HeapObject.KernelHeap.SlabAllocate` | kernel/allocator/slab.cpp:45-69 | does what SlabAlloc says |
| `HeapObject.KernelHeap.SlabRelease` | kernel/allocator/slab.cpp:71-84 | does what SlabFree says |
| `HeapObject.KernelHeap.Allocate` | kernel/allocator/mod.cpp:121-130 | does what AutoAlloc says |
| `HeapObject.KernelHeap.Release` | kernel/allocator/mod.cpp:132-146 | does what AutoFree says, and never stops on what was handed out |
| `IntrusiveList.WalkIsSequence` | kernel/lib/list/container.hpp:79-95 | the pointers alone determine the sequence: a walk from the head meets each node once and ends |
| `IntrusiveList.List.InsertInclusive` | kernel/lib/list/container.hpp:97-125 | a chain goes in before any position, or at the end of a list with a tail |
| `IntrusiveList.List.ExtractInclusive` | kernel/lib/list/container.hpp:127-153 | a stretch comes out, closed at both ends, and the rest is joined |
| `IntrusiveList.List.PushFront` | kernel/lib/list/container.hpp:168 | the node becomes the first |
| `IntrusiveList.List.PopFront` | kernel/lib/list/container.hpp:170 | the first node goes; an empty list stays empty |
| `IntrusiveList.List.PushBack` | kernel/lib/list/container.hpp:172-176 | the node becomes the last |
| `IntrusiveList.List.PopBack` | kernel/lib/list/container.hpp:178-182 | the last node goes; an empty list stays empty |
| `IntrusiveList.List.Erase` | kernel/lib/list/container.hpp:184-188 | any member goes, and its successor is returned |
| `IntrusiveList.List.EraseRange` | kernel/lib/list/container.hpp:190-201 | the nodes from one position up to another go |
| `IntrusiveList.List.Insert` | kernel/lib/list/container.hpp:203-206 | the node goes in before any position |
| `IntrusiveList.List.SpliceAll` | kernel/lib/list/container.hpp:208-214 | all of another list goes in before any position, and that list is empty |
| `Signals.Lowest` | kernel/task/scheduler.self.cpp:125-129 | the lowest signal that is pending and not masked, and none if and only if there is none |
| `Signals.FrameBack` | kernel/interrupt/isr.hpp:10-35 | registers survive the copy to the user stack and back |
| `Signals.FrameLayout` | kernel/interrupt/isr.hpp:10-35 | which register lies at which offset on the user stack |
| `Signals.MaskBack` | kernel/task/signal.hpp:9-14 | masks survive the copy to the user stack and back |
| `Signals.SavedParts` | kernel/task/signal.hpp:9-14 | of what a delivery saved the mask comes first, then the registers |
| `Signals.DeliverKeeps` | kernel/task/scheduler.self.cpp:122-161 | for every stack pointer: a delivery whose frame misses what is saved keeps all of it and saves the interrupted state; one without a handler saves nothing |
| `Signals.MissesIff` | kernel/task/scheduler.self.cpp:144-157 | when a frame misses a saved part, in plain numbers, wrapped frames included |
| `Signals.SameStackLoses` | kernel/task/scheduler.self.cpp:144-157 | a delivery of another state at the stack pointer of an earlier one destroys what that saved |
| `Signals.FrameInUserSpaceIff` | kernel/task/scheduler.self.cpp:144-157 | the frame lies in user space if and only if the stack pointer is between 88 and 0xC0000000, and then no byte at or above 0xC0000000 changes |
| `Signals.KernelByteChanges` | kernel/task/scheduler.self.cpp:144-157 | with the stack pointer at 0xD0000000 the byte at 0xCFFFFFAC changes |
| `Signals.FrameWraps` | kernel/task/scheduler.self.cpp:144-146 | at stack pointer 0 the frame goes to the last 88 bytes of the address space, outside user space |
| `Signals.DeliveryExact` | kernel/task/scheduler.self.cpp:122-161 | what a handler finds, for every stack pointer: return address, signal number and saved state on the stack, the mask grown, registers otherwise as interrupted, the lowest deliverable signal no longer pending, no other memory changed |
| `Signals.EndsIff` | kernel/task/scheduler.self.cpp:114-139 | a signal ends the program if and only if it is the lowest deliverable one, has its default action and is none of SIGCHLD, SIGURG and SIGWINCH; the exit gets its number |
| `Signals.TakenOff` | kernel/task/scheduler.self.cpp:125-139 | the lowest deliverable signal is no longer pending, and without a handler nothing else changes |
| `Signals.UserFlagsBits` | kernel/syscall/sigreturn.cpp:30 | interrupts on, I/O privilege 0, every other flag as it was |
| `Signals.ReturnExact` | kernel/syscall/sigreturn.cpp:11-31 | a return restores the mask and, register by register, what its own delivery saved, with user segments and flags forced, if and only if the saved address is below 0xC0000000 and executable; otherwise it ends the program with SIGSEGV |
| `Signals.SavedApart` | kernel/task/signal.hpp:9-14 | no address belongs to what two deliveries saved |
| `Signals.RunKeeps` | kernel/task/scheduler.self.cpp:122-161 | over every run in which frames and stores miss what is saved, deliveries that have not returned keep it |
| `Signals.RunStuckIff` | kernel/task/scheduler.self.cpp:122-161 | a run goes to its end if and only if no event it reaches breaks the rules or ends the program, and it never returns from below its depth |
| `Signals.Unwinds` | kernel/syscall/sigreturn.cpp:11-31 | for every stack pointer whose frame misses what is saved: whatever happens inside the handler, the matching return puts back the mask and, register by register, the state that was interrupted |
| `Signals.TrampolineInterrupted` | kernel/syscall/sigreturn.cpp:18-20 | a delivery that interrupts the kernel half, where the trampoline lies, cannot be returned from |
| `Signals.SignalTask.IsInterrupted` | kernel/task/scheduler.self.cpp:163-173 | true if and only if some pending unmasked signal is not ignored |
| `Signals.SignalTask.NextSignal` | kernel/task/scheduler.self.cpp:125-129 | finds the lowest deliverable signal |
| `Signals.SignalTask.Deliver` | kernel/task/scheduler.self.cpp:122-161 | does what CheckSignal says |
| `Signals.SignalTask.Return` | kernel/syscall/sigreturn.cpp:11-31 | does what SigReturn says |
| `LogStream.WholeIff` | kernel/logger/print.cpp:16-25 | a record is written whole if and only if its text is shorter than 65536 bytes |
| `LogStream.HeaderLayout` | kernel/logger/types.hpp:26-38 | which field lies at which offset of the header, with the type and length of every kind of record |
| `LogStream.ContentLayout` | kernel/logger/types.hpp:40-57 | which field of a system call or exception lies at which offset of the body |
| `LogStream.HeaderBack` | kernel/logger/types.hpp:27-38 | the parser reads the header fields the writers wrote, signed ones included |
| `LogStream.DecodeBack` | logger/parser.ts:49-104 | the parser decodes every kind of record the writers write |
| `LogStream.FirstRecord` | logger/parser.ts:26-104 | on any stream: an incomplete record waits, an unknown type is passed over, a body too short for its type ends the parse, everything else yields an entry with the fields of its bytes |
| `LogStream.ParseAppend` | logger/parser.ts:14-24 | parsing goes on where it stopped |
| `LogStream.ChunksMakeNoDifference` | logger/parser.ts:10-106 | where the stream is cut, empty chunks included, makes no difference |
| `LogStream.PrefixExact` | logger/parser.ts:26-44 | after any prefix exactly the records complete in it have come out, in order |
| `LogStream.CompleteIs` | logger/parser.ts:27-44 | which records those are: as many as fit |
| `LogStream.RoundTrip` | kernel/logger/print.cpp:10-75 | whatever the chunks, the emitted records come out in order |
| `LogStream.ReadsBack` | kernel/logger/print.cpp:10-75 | whoever reads all that was written has all records in order and nothing left over |
| `LogStream.LogWriter.EmitLog` | kernel/logger/print.cpp:10-27 | logs the text under the current time modulo 2^32 and the current task, or 0; a reader of the port then has exactly what was logged, this record last |
| `LogStream.LogWriter.EmitSyscall` | kernel/logger/print.cpp:29-45 | the same for the eight words of a system call and its role |
| `LogStream.LogWriter.EmitException` | kernel/logger/print.cpp:47-61 | the same for the five words of an exception |
| `LogStream.LogWriter.EmitFatal` | kernel/logger/print.cpp:63-75 | the same for a record without content |
| `LogStream.Parser.constructor` | logger/parser.ts:10-11 | nothing pending |
| `LogStream.Parser.ReadHeader` | logger/parser.ts:27-40 | takes the header once its 20 bytes are there |
| `LogStream.Parser.ReadBody` | logger/parser.ts:42-104 | takes the body once all of it is there, and decodes it |
| `LogStream.Parser.Feed` | logger/parser.ts:10-106 | yields what Parse yields for the bytes so far, keeps the rest, and stays dead once it has thrown |

## Left out

- `brk`, `execve` as a whole, `waitpid` and the rest of the system calls: only the parts the modelled code calls are here.
- Orphans: `exit` is modelled for a task without children; handing children to init is not part of the model.
- Pipe descriptors and files: the pipe is modelled at the level of its shared state; which descriptor closes which end
  is a parameter.
- The file system, the console and terminals, keyboard, timer hardware, GDT and IDT set-up, system call dispatch,
  formatting and everything under sysroot.
- `validate` of `kernel/paging/vma.hpp`: a query that changes nothing.
- `splice` of a part of an intrusive list, which takes its end inclusively where `erase` does not.
- Address translation caches, the kernel's temporary mappings of frames, inline assembly and `switchToTask` itself: a
  frame is accessed directly, and switching is the assignment of the current task.
- Time: the clock is a counter that does not wrap; a deadline does (`Scheduler.Sleep` takes it modulo 2^64).
- Text decoding in the log parser: texts stay bytes.
- Contents of heap blocks: where they lie is modelled, that they are cleared is not.  The frames behind heap pages are
  not part of the heap; in `Processes` they are frames the kernel takes.
- What the page loops write from the top of user space on, the kernel's own tables: `AddressSpace.AllocLoop` and
  `Elf.LoadPages` stop there without a result.
- Program headers that name bytes beyond the end of the file, or an empty segment in the kernel's half: the loader does
  not check for them.
- Range vector operations that look at an entry that is not there: locate below the first entry, and insert at or
  above the last (`AddressSpace.MmapDefinedIff` and `LargeFrames.AllocDefinedIff` say when mmap and the heap come to
  that).
- addTask with a full task table as spawn calls it: the task is queued without a pid; fork stops the kernel there, and
  so does the model.
- Processes.StepRefines: holds for calls that keep the conditions under "Where the code does less than its callers may
  expect" (an mmap at an unaligned hint is let in: the run ends there); `AddressSpace.MmapSafeIff`, `MunmapSafeIff` and
  `CheckStackAgrees` show that without them the code loses the agreement of areas and pages.
- Processes.RunRefines: the same conditions on every call of the run.
- Processes.BootedRun: the same conditions on every call of the run.
- Processes.FramesCounted: the same conditions on every call of the run.
- UserSpace.Space.MmapCall: the calls at which the vector operations are defined, see `AddressSpace.MmapDefinedIff`.
- Scheduler.RunKeeps: a task inside a blocking call may, in the model, take other steps before it finishes the call;
  the kernel's runs are among these.
- Bitmap.BitmapManager.Alloc: a word is given by its 32 bits rather than as a number.
- Signals.Unwinds: user memory has no page faults in it, and programs do not store over what a delivery saved.
- Signals.RunKeeps: the same.
