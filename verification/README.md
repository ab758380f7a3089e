# BingOS: verified model of the kernel core and libc

BingOS is a small x86 kernel with its own C library. This project models the parts of it that
hold state or arithmetic and proves what they keep:

- **Calendar** (`Calendar`, `Time`, `Cmos`, `IsoWeek`). One pure day count (`DaysToYear`, `DayNo`,
  `Instant`) is the reference; a date is determined by its instant. The upward loops of `gmtime_r`,
  the normalisation and closed form of `mktime`, the downward loop and the switch of the CMOS clock
  reader and the ISO week loop of `strftime` are each proved against it, and so against each other.
- **Kernel small-block allocator** (`KmallocState`, `KmallocProofs`, `Kmalloc`). A state machine with
  the steps take, carve and give, its ten-part invariant over every run, and a class that walks the
  source's own chains and is proved to make exactly those steps.
- **Address spaces** (`Frames`, `PageTables`, `FrameGrowth`, `CloneProofs`, `ForkView`, `Spaces`,
  `SpaceProofs`, `SpaceRuns`, `Mmu`, `VmAreas`). The frame bitmap down to its bit operations, fork's
  deep copy with shared kernel tables, page mapping, release on reap, and the sorted list of areas.
  All address spaces together are one state whose invariant says who owns which table and frame;
  every run of forks, mappings, stores and reaps keeps it, and so frees exactly and leaks nothing.
- **Scheduler and pipe** (`List`, `SchedSpec`, `SchedQueues`, `SchedLists`, `Sched`, `SchedEffects`,
  `Kernel`, `Pipe`, `PipeProtocol`, `PipeSched`). Linked lists with node identities, the queues built
  on them as a family that shares no node, a transition system for the life of processes that the
  kernel entries follow on those lists, what each step does to the process it concerns and what then
  stays so over runs, the blocking ring buffer, and the pipe and the scheduler as one machine.
- **User heap, block device, number printing** (`UserHeap`, `Ata`, `NumberForm`, `Number`). First fit
  over `sbrk` and the pointers a program holds, byte ranges over 512-byte sectors, and the
  printer/parser pair with an account of the printed field that leaves one text for each number.

State that the source updates in place is a class whose methods follow the source's loops and
branches; each method is tied to a function of the old state, and what the source promises is proved
about those functions, in words that do not mention them: addresses, deadlines, places, characters. C integers are unbounded in Dafny, so 32-bit wrap-around is written out
(`CInt.Wrap32`, `CInt.ToUint32`) wherever a result depends on it. Ports, clocks, the current time
zone, sleep deadlines and the contents of CMOS registers are parameters.

`dafny verify dfyconfig.toml` checks the whole project.

## Where a promise holds only under a condition

Each of these is an if-and-only-if over all inputs, with a lemma that gives a concrete failing input
where the failing side is not already a plain case of the statement.

- The comment at `kernel/kmalloc.c:26` puts huge blocks above 4080 bytes, but `get_order` has a size
  class exactly up to 4068 (`KmallocState.ClassExists`).
- `mktime` of `localtime_r` gives the time back exactly when the time is not negative and the local
  time is between 0 and `TIME_MAX`; otherwise it gives -1 (`Time.LocaltimeThenMktime`).
- `insert_vm` says the area list stays sorted. Mapping keeps it so exactly when the area does not
  reach the end of the address space (`VmAreas.MapOrdered`, `VmAreas.LastPageExample`).
- `do_munmap` drops areas by the 32-bit end of its range. That is right for every area there can be
  exactly when the range does not wrap, or is the one last byte (`VmAreas.UnmapWraps`).
- `malloc` never sees `sbrk` fail, since `sbrk` returns the old break. The heap keeps its tiling
  exactly when a block fits or the break can grow (`UserHeap.MallocTiles`, `UserHeap.OverflowExample`).
- A disk write changes no byte outside its range unless it starts inside a sector and ends before
  that sector does, and its sector loop stays inside the request unless the request is the first
  bytes of sector 0 (`Ata.MovesExactly`, `Ata.LoopStaysInside`, `Ata.ShortTransferExample`). The loop
  keeps to the disk only if the request does: the clamp comes after the last sector was worked out
  (`Ata.ClampOverruns`, `Ata.ClampExample`). `Ata.Device.WriteAta` and `Ata.Device.ReadAta` say for
  every request whether it is served and what happens if not.
- A reader of zero bytes sleeps although the ring holds bytes (`PipeProtocol.ZeroReadSleeps`,
  `PipeProtocol.ZeroReadExample`), and a write on an empty ring moves a byte only if the ring has at
  least two (`PipeProtocol.OneByteRingBlocks`).
- `page_unmap` keeps the address spaces sound exactly when the page was mapped: otherwise it gives
  frame 0 away (`Mmu.AddressSpaces.UnmapPage`).
- `__get_free_page` gives an aligned page exactly when the break is past the first page or 0
  (`Kmalloc.Allocator.GetFreePage`).
- `list_insert_after` keeps the backward links exactly when it inserts at the head
  (`List.List.InsertAfter`).
- Blocking and sleeping are sound exactly when some other process is ready
  (`Sched.BlockNeedsSomebody`, `Sched.SleepNeedsSomebody`, `Sched.BlockExample`); with pid 1 never
  blocking this always holds (`Sched.SomebodyReady`).

## Model

| member | source | states |
|---|---|---|
| `Calendar.InstantDeterminesCivil` | libc/time.c:34-62 | two in-range dates with the same second count are the same date, so a decoding that keeps the second count is the only one |
| `Calendar.DaysToYearClosedForm` | libc/time.c:132-137 | for every year, before and after 1970, summing year lengths equals 365 days a year plus the leap years counted by division |
| `Calendar.WeekdayAdvances` | libc/time.c:45 | the Epoch is a Thursday and each day is followed by the next day of the week |
| `Time.SplitDay` | libc/time.c:46-57 | the year and month loops end on the one in-range date with that day number, never pass December, and leave the matching day of the year |
| `Time.Gmtime` | libc/time.c:34-62 | for every 32-bit timer all fields are in range, weekday and day of year match the date, and the date's second count is the timer read as unsigned |
| `Time.Localtime` | libc/time.c:64-69 | the same for the timer less the time zone, with 32-bit wrap-around |
| `Time.NormaliseClock` | libc/time.c:79-96 | any seconds, minutes and hours come into range; what is carried into days keeps the total number of seconds |
| `Time.NormaliseMonth` | libc/time.c:97-102 | any month, negative ones included, becomes its residue with the years carried over |
| `Time.BackMonths` | libc/time.c:104-110 | stepping back through months with a negative day keeps the day number and ends non-negative |
| `Time.ForwardMonths` | libc/time.c:111-118 | stepping forward through months keeps the day number and ends inside the month |
| `Time.Normalise` | libc/time.c:79-118 | arbitrary fields become an in-range date that denotes the same instant |
| `Time.ClosedFormIsDayCount` | libc/time.c:133-137 | for every year from 1970 the three divisions and remainder tests of the closed form give the day count of the year loop |
| `Time.CountDays` | libc/time.c:132-137 | the 32-bit additions give the day count reduced to 32 bits, exact unless an overflow is flagged, and one is flagged only past the last representable day |
| `Time.AddUp` | libc/time.c:151-175 | the guarded 32-bit sums give the exact UTC value or -1, with no wrap that escapes the guards |
| `Time.DaysOf` | libc/time.c:130-149 | day number, day of the year and weekday of the date, with 32-bit wrap-around for dates past the last representable day, which are flagged |
| `Time.SecondsOf` | libc/time.c:119-175 | the value of an in-range date for every time zone and daylight bias, -1 outside 1970 to `TIME_MAX` |
| `Time.Mktime` | libc/time.c:71-176 | for any fields: the result date is in range and denotes the same instant, an in-range input is unchanged, weekday and day of year match; without the daylight flag the result is that instant plus the time zone if both are in 0 to `TIME_MAX`, else -1 |
| `Time.MktimeTwice` | libc/time.c:71-176 | a second call changes no field, weekday and day of the year included, and returns the same value, also where the first returned -1 |
| `Time.MktimeBias` | libc/time.c:164-175 | for any fields, the time with the daylight flag is the time without it less the bias, or -1 where that is -1 or smaller than the bias |
| `Time.LocaltimeThenMktime` | libc/time.c:64-69 | round trip with `mktime`: the time itself exactly when it and its local time are between 0 and `TIME_MAX`, else -1 |
| `Time.MktimeThenGmtime` | libc/time.c:34-62 | for any fields whose instant is representable, `gmtime_r` of `mktime` is the in-range date of that instant, and the input itself if it was in range |
| `Cmos.BcdRoundTrip` | drivers/cmos.c:6 | decoding inverts two-digit BCD encoding |
| `Cmos.BcdDigits` | drivers/cmos.c:6 | the high half of the byte is the tens digit and the low half the units digit, both ways |
| `Cmos.SecsOfYears` | drivers/cmos.c:43-61 | the downward year loop gives the calendar's day count to the end of that year, as unsigned 32-bit seconds, and 0 before 1970 |
| `Cmos.CumulativeDays` | drivers/cmos.c:63-98 | the calendar's days before each month are the cumulative sums of the fall-through, with a leap day from March |
| `Cmos.SecsOfMonth` | drivers/cmos.c:63-98 | the switch fall-through gives the days before the month, and 0 for a month outside the year |
| `Cmos.SumFields` | drivers/cmos.c:129-135 | the sum of the decoded fields is the second count of the date, without 32-bit wrap |
| `Cmos.ReadCmos` | drivers/cmos.c:129-137 | for registers holding the BCD form of any date of 2000 to 2099, the sum is that date's second count |
| `Cmos.ReadCmosThenGmtime` | drivers/cmos.c:129-135 | decoding the clock's sum with `gmtime_r` gives back the date and time in the registers |
| `IsoWeek.Thresholds` | libc/strftime.c:214-218 | the two thresholds compare the day of the year with the Thursday of its week: `bot` with the start of the year, `top` with its end |
| `IsoWeek.Compute` | libc/strftime.c:206-230 | the correcting loop ends within two turns with the year and week number of the week's Thursday |
| `IsoWeek.WeekInRange` | libc/strftime.c:198-230 | the week number is between 1 and 53 |
| `IsoWeek.ThursdayInItsYear` | libc/strftime.c:198-230 | the ISO year is the year the Thursday falls in and the week is 1 plus a seventh of the Thursday's day of that year |
| `IsoWeek.WeekOfDate` | libc/strftime.c:198-230 | the same on the calendar's own day numbers, for every in-range date |
| `IsoWeek.SameWeekSameName` | libc/strftime.c:198-230 | all days of one Monday-to-Sunday week get one year and week number, also across New Year |
| `IsoWeek.ThursdayIs` | libc/strftime.c:198-230 | the Thursday of a day is a Thursday at most three days away, and the only one |
| `IsoWeek.WeekName` | libc/strftime.c:206-230 | the loop on any in-range date: year and week number are the year and the place, among that year's Thursdays, of the Thursday within three days of the date |
| `KmallocState.OrderFrom` | kernel/kmalloc.c:86-94 | the class holds request and header, and the class below does not |
| `KmallocState.ClassExists` | kernel/kmalloc.c:86-94 | some class is large enough if and only if the request is at most 4068 bytes |
| `KmallocState.SumRemove` | kernel/kmalloc.c:352 | the bytes of the live blocks drop by exactly the freed block's request |
| `KmallocProofs.TakeKeepsInv` | kernel/kmalloc.c:263-279 | handing out the first free block keeps the whole invariant, including when its page leaves the class list |
| `KmallocProofs.CarveKeepsInv` | kernel/kmalloc.c:285-311 | adding a freshly carved page keeps the invariant and makes the class list non-empty |
| `KmallocProofs.GiveKeepsInv` | kernel/kmalloc.c:317-352 | freeing any live block keeps the invariant, including when its page rejoins the class list |
| `KmallocProofs.NextPageFresh` | kernel/kmalloc.c:105-117 | the next page is aligned and lies strictly above everything handed out before |
| `KmallocProofs.BlocksFit` | kernel/kmalloc.c:70-75 | for each class every block lies after the page descriptor and inside the page |
| `KmallocProofs.PageIsFull` | kernel/kmalloc.c:70-75 | in each class the blocks fit the page after its descriptor and one more would not |
| `KmallocProofs.FreshChainOk` | kernel/kmalloc.c:296-304 | the threaded chain of a new page visits every block once and ends |
| `Kmalloc.StepKeepsInv` | kernel/kmalloc.c:255-352 | each allocation or free keeps the invariant: blocks live or free and never both, chains acyclic of length `nfree`, class lists exact, counters exact |
| `Kmalloc.NeverStuck` | kernel/kmalloc.c:261-312 | every request of at most 4068 bytes and every free of a live block has a step |
| `Kmalloc.RunKeepsInv` | kernel/kmalloc.c:255-352 | every state of every run of allocations and frees from an empty allocator satisfies the invariant |
| `Kmalloc.PayloadInPage` | kernel/kmalloc.c:56-57 | masking a live header's address gives the page it was carved from, and its payload holds the request inside that page after the descriptor |
| `Kmalloc.PayloadsDisjoint` | kernel/kmalloc.c:255-352 | a live payload ends before any later block begins |
| `Kmalloc.GiveUndoesTake` | kernel/kmalloc.c:263-352 | freeing a block just taken restores pages, headers, chains and lists exactly, and only the two call counters differ |
| `Kmalloc.SpareIsListed` | kernel/kmalloc.c:263-264 | a class list is empty if and only if no page of the class has a free block |
| `Kmalloc.MallocGrants` | kernel/kmalloc.c:255-315 | an allocation takes a block that was not live, of the smallest class that holds request and header, and touches no live block; a page is added if and only if no page of the class had a free block, and it is the whole page after the one the break is in, cut into the class's number of blocks |
| `Kmalloc.FreeReturns` | kernel/kmalloc.c:317-352 | a free takes exactly that block from the live ones and puts it first on its page, which has one more free block; no other page or header changes |
| `Kmalloc.Allocator.constructor` | kernel/kmalloc.c:99-103 | the start state, which satisfies the invariant |
| `Kmalloc.Allocator.GetOrder` | kernel/kmalloc.c:86-94 | the loop finds the smallest class that holds the request |
| `Kmalloc.Allocator.GetFreePage` | kernel/kmalloc.c:105-117 | an aligned page strictly above a break past the first page, the break right after it; a lower break is handed out as it is, aligned if and only if it is 0 |
| `Kmalloc.Allocator.ThreadChain` | kernel/kmalloc.c:296-304 | the loop writes exactly the headers of the fresh chain and no other block |
| `Kmalloc.Allocator.CarvePage` | kernel/kmalloc.c:285-311 | takes the carve step and keeps the invariant |
| `Kmalloc.Allocator.TakeFirst` | kernel/kmalloc.c:264-278 | takes the take step: returns a block that was not live, adds exactly it to the live blocks |
| `Kmalloc.Allocator.Kmalloc` | kernel/kmalloc.c:255-315 | always returns a block that was not live, within two passes of the retry loop; the block is of the smallest class, a page is added only if the class had no free block, no live block is touched, and the state follows the machine |
| `Kmalloc.Allocator.Kfree` | kernel/kmalloc.c:317-352 | a null pointer changes nothing; a live block alone leaves the live blocks and comes first on its page, and the state follows the machine |
| `Frames.SetBit` | kernel/frame.c:18-22 | setting a bit of a 32-bit word makes that bit and no other test true |
| `Frames.ClearBit` | kernel/frame.c:18-22 | clearing a bit makes that bit and no other test false |
| `Frames.FrameMap.BitmapSet` | kernel/frame.c:18 | exactly that frame joins the taken frames |
| `Frames.FrameMap.BitmapUnset` | kernel/frame.c:20 | exactly that frame leaves the taken frames |
| `Frames.FrameMap.FirstClear` | kernel/frame.c:68-71 | the lowest clear bit of a word |
| `Frames.FrameMap.GetFirstFrame` | kernel/frame.c:63-74 | the lowest free frame, and all frames below it are taken |
| `Frames.FrameMap.AllocFrame` | kernel/frame.c:102-118 | takes exactly the lowest free frame and counts it |
| `Frames.FrameMap.FreeFrame` | kernel/frame.c:128-132 | releases exactly that frame and uncounts it |
| `CloneProofs.ShareStep` | kernel/mmu.c:176-183 | copying an absent or kernel slot keeps the clone relation between the two directories |
| `CloneProofs.CloneStep` | kernel/mmu.c:184-193 | copying a private slot keeps it: new tables and frames stay distinct, earlier copies stay equal |
| `ForkView.ChildSeesParent` | kernel/mmu.c:166-197 | at every page the child reads what the parent read before the fork, with the same write permission |
| `ForkView.OthersUnchanged` | kernel/mmu.c:166-197 | no address space that existed before sees a different entry or different bytes |
| `ForkView.StoresArePrivate` | kernel/mmu.c:166-197 | a store through the child's own page is seen by no address space that existed before |
| `ForkView.OwnFrameIsNew` | kernel/mmu.c:184-186 | a frame behind one of the child's own tables was free before the fork |
| `Mmu.AddressSpaces.CloneEntry` | kernel/mmu.c:147-161 | a new frame with equal contents and flags; no frame in use changes |
| `Mmu.AddressSpaces.CloneEntries` | kernel/mmu.c:143-162 | the 1024-entry loop copies each mapped page into its own new frame and leaves the rest unmapped |
| `Mmu.AddressSpaces.TableClone` | kernel/mmu.c:138-164 | a new table that copies the source, with exactly its frames newly taken and counted |
| `Mmu.AddressSpaces.PageDirClone` | kernel/mmu.c:166-197 | takes the clone step: a slot of the child is the parent's if and only if it is absent or the kernel's, and otherwise a new table; each of its mapped pages gets a frame that was free, with the parent's bytes, write permission, accessed and dirty flags; nothing in use changes; ownership is kept |
| `Mmu.CloneUnshared` | kernel/mmu.c:166-197 | the copy's own tables and frames are disjoint from those of every older directory |
| `Mmu.CloneIsOwned` | kernel/process.c:381-397 | removing the copy's own tables and frames gives back the tables, taken frames and count from before |
| `Mmu.AddressSpaces.GetTable` | kernel/mmu.c:75-102 | finds or makes the table of a slot; a made one is new, every other slot of every directory stays, no address space sees a different entry, ownership is kept |
| `Mmu.AddressSpaces.MapPage` | kernel/mmu.c:75-117 | an unmapped page gets a free frame and the requested flags and counts one used frame, a mapped one stays, no other entry of any address space changes, ownership is kept |
| `Mmu.AddressSpaces.UnmapPage` | kernel/mmu.c:119-123 | the entry loses its address and nothing else, its frame alone is given back and uncounted; the address spaces stay sound if and only if the page was mapped |
| `Mmu.AddressSpaces.FreeTable` | kernel/process.c:388-392 | frees exactly the frames of the table and uncounts each |
| `Mmu.AddressSpaces.ReleaseDirectory` | kernel/process.c:381-405 | in any reachable state, for any directory but the kernel's: frees exactly the frames only that directory maps, lowers the used count by their number, and keeps ownership |
| `Mmu.AddressSpaces.CloneThenRelease` | kernel/process.c:381-397 | releasing a fresh clone restores bitmap, used count, tables and directories exactly, no used frame's bytes change, and the next fork or reap may follow |
| `SpaceProofs.CloneKeepsInv` | kernel/mmu.c:166-197 | a fork keeps the ownership invariant: a table that is not the kernel's is in one slot of one directory, no frame is mapped twice, no table is orphaned |
| `SpaceProofs.MadeKeepsInv` | kernel/mmu.c:82-98 | so does a new table in an empty slot, of a process or of the kernel |
| `SpaceProofs.FilledKeepsInv` | kernel/mmu.c:111-115 | so does a free frame entered in an unmapped page |
| `SpaceProofs.UnmappedKeepsInv` | kernel/mmu.c:119-123 | so does giving back a mapped page's frame |
| `SpaceProofs.ReleaseKeepsInv` | kernel/process.c:381-397 | so does releasing any directory but the kernel's |
| `SpaceRuns.RunInv` | kernel/mmu.c:75-197 | ownership holds in every state of every run of clones, maps, unmaps, stores and releases |
| `SpaceRuns.SharedOnlyKernel` | kernel/mmu.c:181-186 | two address spaces map one frame only at the same page of the same kernel table |
| `SpaceRuns.StoreIsPrivate` | kernel/mmu.c:166-197 | in any reachable state a store through a page that is not the kernel's is read by no other address space |
| `SpaceRuns.CloneReads` | kernel/mmu.c:166-197 | in any reachable state the child of a fork reads what its parent read and no other address space sees a change |
| `SpaceRuns.CloneShares` | kernel/mmu.c:138-197 | in any reachable state a fork shares exactly the kernel's tables; every other mapped page gets a frame that was free, holding the parent's bytes under the parent's flags, and an unmapped page stays unmapped |
| `SpaceRuns.MapsOnePage` | kernel/mmu.c:104-117 | mapping changes the page's entry only if it was unmapped, taking and counting one frame that was free |
| `SpaceRuns.MapsNothingElse` | kernel/mmu.c:75-117 | no other entry of any address space changes |
| `SpaceRuns.ReleaseExact` | kernel/process.c:381-397 | the frames given back are exactly those only the released directory maps, each counted once |
| `SpaceRuns.ReleaseUnseen` | kernel/process.c:381-397 | no entry and no byte another directory reads changes |
| `SpaceRuns.ReleaseInRun` | kernel/process.c:381-405 | in every run, whatever was forked, mapped, stored and reaped before, a release frees exactly the frames only that directory maps, lowers the used count by their number, and changes nothing any other directory reads |
| `SpaceRuns.NoFrameLeaks` | kernel/frame.c:102-132 | in every run the taken frames are exactly those taken at boot and those some address space maps, never both, and the used count has moved by the change in their number |
| `VmAreas.OutsideMembers` | kernel/mmap.c:84-93 | unmapping keeps an area if and only if it does not meet the range |
| `VmAreas.MeetsIsSharing` | kernel/mmap.c:86-89 | the test of the loop on a non-empty area and range holds if and only if some address is in both |
| `VmAreas.UnmapByAddress` | kernel/mmap.c:84-93 | unmapping keeps an area if and only if no address of it is in the range |
| `VmAreas.UnmapWraps` | kernel/mmap.c:72-93 | dropping areas by the 32-bit end of the range is right for every area if and only if the range does not wrap or is the last byte |
| `VmAreas.PageAlignIs` | kernel/mmap.c:74-76 | the aligned length is the least multiple of the page size that is not smaller, and 0 where the rounding wraps |
| `VmAreas.OutsideOrdered` | kernel/mmap.c:84-93 | what unmapping keeps is still sorted and disjoint |
| `VmAreas.InsertOrdered` | kernel/mmap.c:51-70 | inserting an area that meets no other keeps the list sorted and disjoint |
| `VmAreas.MapOrdered` | kernel/mmap.c:114-144 | mapping keeps the list sorted and disjoint if and only if the area ends below 2^32 |
| `VmAreas.LastPageExample` | kernel/mmap.c:114-144 | mapping the last page of the address space records an area that ends at 0 |
| `VmAreas.MapAdds` | kernel/mmap.c:114-144 | after a map the areas are the new one and exactly the old ones that share no address with it |
| `VmAreas.MapByAddress` | kernel/mmap.c:114-144 | an area is there after a map if and only if it is the new one, or was there and shares no address with it |
| `VmAreas.ApplyOrdered` | kernel/mmap.c:72-144 | each map or unmap that does not wrap keeps the list sorted and disjoint |
| `VmAreas.RunOrdered` | kernel/mmap.c:72-144 | so does every run of maps and unmaps |
| `VmAreas.MemoryMap.FindSlot` | kernel/mmap.c:56-66 | the walk stops at the first area that starts later, with the link before it |
| `VmAreas.MemoryMap.InsertVm` | kernel/mmap.c:51-70 | the linked list becomes the sorted insertion of the area |
| `VmAreas.MemoryMap.Unlink` | kernel/mmap.c:90-92 | removes exactly that node from the chain |
| `VmAreas.MemoryMap.Unmap` | kernel/mmap.c:79-93 | the pointer-to-pointer loop on any linked list keeps exactly the nodes outside the 32-bit range, in order |
| `VmAreas.MemoryMap.DoMunmap` | kernel/mmap.c:72-93 | the loop leaves exactly the areas that share no address with the range, in order, as the same nodes, where the range does not wrap; an aligned length of zero changes nothing; for a range that wraps, the areas its 32-bit end leaves out |
| `VmAreas.MemoryMap.DoMmap` | kernel/mmap.c:114-144 | afterwards the areas are the new one and exactly the old ones that share no address with it; the list stays sorted if and only if the address does not wrap; an aligned length of zero changes nothing |
| `VmAreas.MemoryMap.DupMmap` | kernel/process.c:50-68 | an equal list made of new nodes only |
| `List.List.Delete` | common/list.c:33-51 | removes that node, keeps the order of the others, and keeps the links in both directions |
| `List.List.PushBack` | common/list.c:53-69 | appends the value in a new node |
| `List.List.PushFront` | common/list.c:71-87 | prepends the value in a new node |
| `List.List.PopFront` | common/list.c:89-97 | removes and returns the first node, null on an empty list |
| `List.List.PopBack` | common/list.c:99-107 | removes and returns the last node, null on an empty list |
| `List.List.InsertAfter` | common/list.c:109-124 | the forward chain gets the value after the given node; backward links survive if and only if the insertion is at the head |
| `SchedSpec.InsertSorted` | kernel/sched.c:23-38 | inserting by deadline keeps the sleep queue sorted |
| `SchedSpec.InsertPermutes` | kernel/sched.c:23-38 | and adds exactly the one sleeper |
| `SchedEffects.SortedMeans` | kernel/sched.c:23-38 | sorted means earlier tick first, and earlier subtick first within a tick |
| `SchedEffects.InsertSplits` | kernel/sched.c:23-38 | a new sleeper stands behind all due no later, equals included, and before all due later, which keep their order |
| `SchedSpec.DueIsPrefix` | kernel/process.c:445-446 | in a sorted queue the sleepers due now are exactly those the loop takes, and the rest stays sorted |
| `SchedSpec.WokenOrder` | kernel/process.c:445-462 | the woken processes stand in the run queue so that they leave it in deadline order, after those already there |
| `SchedQueues.SchedEnqueue` | kernel/sched.c:18-21 | the process joins the front of the linked run queue |
| `SchedQueues.SchedDequeue` | kernel/sched.c:40-51 | the process at the back leaves, none if the queue is empty |
| `SchedQueues.FindSleepSlot` | kernel/sched.c:24-32 | the scan stops before the first later sleeper, with the node before it |
| `SchedQueues.SleepEnqueue` | kernel/sched.c:23-38 | the linked queue gets the sorted insertion on its forward chain |
| `SchedLists.StillDisjoint` | common/list.c:33-124 | a queue that gains only new nodes stays apart from all others |
| `SchedLists.Push` | kernel/sched.c:18-21 | the process joins the head of that queue, and every other queue holds what it held |
| `SchedLists.Pop` | kernel/sched.c:40-51 | the process at the tail leaves, and every other queue holds what it held |
| `SchedLists.Append` | kernel/sched.c:53-56 | the finished process joins the tail of its queue, and every other queue holds what it held |
| `SchedLists.TakeFinished` | kernel/sched.c:58-73 | unlinks the first entry with the pid, if there is one, and every other queue holds what it held |
| `SchedLists.WakeupSleepers` | kernel/process.c:439-465 | moves exactly the due sleepers to the run queue, in deadline order, leaves the rest and every other queue, and keeps the length exact |
| `SchedQueues.LookupFinished` | kernel/sched.c:58-73 | finds the pid if and only if it is there and unlinks exactly its first entry |
| `Sched.NextKeepsInv` | kernel/process.c:173-488 | every scheduler step keeps each process in exactly one place, one process running, pid 1 running or ready, and the sleepers sorted |
| `Sched.RunInv` | kernel/process.c:173-488 | this holds in every state of every run from boot |
| `Sched.SomebodyReady` | kernel/process.c:353-358 | whenever another process than pid 1 runs, a dequeue for a switch finds the run queue non-empty |
| `Sched.ExactlyOnePlace` | kernel/sched.c:18-73 | a process is not in two queues, nor twice in one |
| `Sched.SomePlace` | kernel/sched.c:18-73 | no process is lost: it is in the queue of its place |
| `Sched.BlockNeedsSomebody` | kernel/process.c:320-351 | blocking keeps each process in one place if and only if somebody is ready |
| `Sched.SleepNeedsSomebody` | kernel/process.c:320-351 | so does sleeping until a time |
| `Sched.BlockExample` | kernel/process.c:325-327 | pid 1 blocking alone at boot ends both running and waiting |
| `Sched.StepAhead` | kernel/process.c:346-356 | a step without a dequeue leaves the number of processes ahead of a ready one; a dequeue takes one off, or runs it |
| `Sched.DispatchedInTurn` | kernel/process.c:320-358 | in every run a ready process with k ahead of it is dispatched on exactly the (k+1)-th dequeue |
| `Sched.WakeAhead` | kernel/process.c:467-488 | a wake-up of a queue readies the process that has waited longest; every other step leaves the order of those waiting |
| `Sched.WokenInTurn` | kernel/process.c:467-488 | in every run a process with k others before it on a wait queue becomes ready on exactly the (k+1)-th wake-up of that queue |
| `SchedEffects.TickWakes` | kernel/process.c:439-465 | a tick makes ready or runs exactly the sleepers whose tick and subtick have come, and every other sleeps on with its deadline |
| `SchedEffects.ExitEffect` | kernel/process.c:173-187 | the process is finished, behind all that finished before, and on no other queue; the one longest ready runs |
| `SchedEffects.SleepEffect` | kernel/process.c:161-171 | the sleepers are those there were and this process with exactly the deadline given; the one longest ready runs |
| `SchedEffects.BlockEffect` | kernel/process.c:467-473 | the process waits on that queue, behind those there, and on no other; the one longest ready runs |
| `SchedEffects.WakeEffect` | kernel/process.c:475-488 | the process that has waited longest on that queue, and no other, goes to the end of the line of ready ones; an empty queue changes nothing |
| `SchedEffects.ForkEffect` | kernel/process.c:287-318 | one more process, ready behind all others, under a number no process has |
| `SchedEffects.YieldEffect` | kernel/process.c:320-351 | the preempted process is ready behind all others and the one longest ready runs; alone it goes on |
| `SchedEffects.ReapEffect` | kernel/process.c:414-437 | a finished process is gone and every other finished one stays; a process that is not finished is not reaped |
| `SchedEffects.SleepsUntil` | kernel/process.c:439-465 | in every run a sleeper stays asleep with its deadline until the first tick at or after it, and that tick makes it ready or runs it |
| `SchedEffects.FinishedUntilReaped` | kernel/process.c:173-187 | in every run a finished process stays finished, in no other place, until it is reaped, and then is nowhere |
| `SchedEffects.GoneForever` | kernel/process.c:287-318 | in every run the number of a process that is gone is never given again |
| `Kernel.Scheduler.SwitchToNext` | kernel/process.c:353-358 | the process at the tail of the linked run queue leaves it and runs; no other queue changes |
| `Kernel.Scheduler.ContextSwitch` | kernel/process.c:320-351 | on the linked queues: a preempted process goes to the head of the run queue before the one at its tail runs, and nothing happens when nobody is ready |
| `Kernel.Scheduler.SleepOn` | kernel/process.c:467-473 | takes the block step on the linked queues; any process but pid 1 then waits on that queue behind those there, the one longest ready runs and the invariant is kept; for every process each is in one place if and only if somebody was ready |
| `Kernel.Scheduler.SleepUntil` | kernel/process.c:161-171 | the same for the sleep step: the sleep queue gains exactly this process with the deadline given |
| `Kernel.Scheduler.ProcessExit` | kernel/process.c:173-187 | takes the exit step on the linked queues: the process is finished, last of the finished, and no longer ready; the one longest ready runs; the invariant is kept |
| `Kernel.Scheduler.WakeupFrom` | kernel/process.c:475-488 | takes the wake step: the process that has waited longest leaves the queue and joins the end of the line of ready ones; an empty queue changes nothing; the invariant is kept |
| `Kernel.Scheduler.TimerCallback` | kernel/timer.c:53-58 | the wake-up loop over the linked sleep queue and the preemption together make the tick step: every sleeper whose time has come is ready or running, every other sleeps on with its deadline; the invariant is kept |
| `Kernel.Scheduler.SysFork` | kernel/process.c:287-318 | exactly one process is added, ready behind all others, under a pid no process has |
| `Kernel.Scheduler.WaitpidTurn` | kernel/process.c:414-437 | a finished process is reaped: it alone loses its place and is no longer among the finished; otherwise the caller yields |
| `Kernel.Scheduler.CreateQueue` | fs/pipe.c:123-124 | a new wait queue is empty, shares no node with any other, and keeps the invariant |
| `Pipe.Ring.constructor` | fs/pipe.c:110-124 | an empty ring, usable if and only if its size is not 0 |
| `Pipe.Ring.Unread` | fs/pipe.c:30-40 | the number of buffered bytes |
| `Pipe.Ring.Available` | fs/pipe.c:18-28 | with the buffered bytes it adds up to one less than the size |
| `Pipe.Ring.Take` | fs/pipe.c:52-56 | removes the oldest byte, wrapping the pointer |
| `Pipe.Ring.Put` | fs/pipe.c:78-82 | appends a byte, wrapping the pointer |
| `Pipe.Ring.ReadPass` | fs/pipe.c:52-56 | moves the oldest bytes in order, stops only with the request met or the ring empty, and touches nothing else of the caller's buffer |
| `Pipe.Ring.WritePass` | fs/pipe.c:78-82 | appends the caller's remaining bytes in order and stops only with all placed or the ring full |
| `PipeProtocol.NextKeepsInv` | fs/pipe.c:42-91 | each step keeps bytes read followed by bytes buffered equal to bytes written, a waiting reader means an empty ring, a waiting writer a full one |
| `PipeProtocol.RunInv` | fs/pipe.c:42-91 | this holds in every interleaving, and reader and writer never wait together |
| `PipeProtocol.RunDelivers` | fs/pipe.c:42-91 | in every run the bytes read, the bytes buffered and the bytes still to be written are together exactly the bytes writers asked for, in order |
| `PipeProtocol.SomePassEnabled` | kernel/process.c:467-488 | with a read and a write both in progress one of them can run, so there is no lost wake-up |
| `PipeProtocol.TwoPassesMove` | fs/pipe.c:50-88 | any two passes in a row move at least one byte |
| `PipeProtocol.ReadTakesAll` | fs/pipe.c:50-63 | a read pass stops only with the request met or the ring empty, hands over the oldest bytes, leaves no writer waiting, and ends the call if and only if there was a byte |
| `PipeProtocol.WriteFillsRing` | fs/pipe.c:76-88 | a write pass stops only with every byte placed or the ring full, in order behind those there, leaves no reader waiting, and ends the call if and only if every byte is placed |
| `PipeProtocol.ZeroReadSleeps` | fs/pipe.c:50-63 | after a read pass a waiting reader means an empty ring if and only if the request was not zero or the ring was empty |
| `PipeProtocol.ZeroReadExample` | fs/pipe.c:50-63 | a request of zero bytes sleeps on a ring with a byte in it |
| `PipeProtocol.OneByteRingBlocks` | fs/pipe.c:76-88 | a write pass on an empty ring moves a byte if and only if the size is at least 2; on a ring of size 1 it only puts its writer to sleep |
| `PipeProtocol.ReadStep` | fs/pipe.c:50-63 | a pass over the real ring makes the protocol's read step and delivers the oldest bytes |
| `PipeProtocol.WriteStep` | fs/pipe.c:76-88 | a pass over the real ring, the first or one resumed after a sleep, makes the protocol's write step and leaves exactly the rest of the caller's buffer to be written |
| `PipeSched.ScheduledQueues` | kernel/process.c:467-488 | a pass empties the other side's wait queue and leaves its own process waiting exactly if it sleeps |
| `PipeSched.NextKeepsInv` | fs/pipe.c:42-91 | with the pipe's passes waking and blocking through the scheduler, and other processes doing anything else, the wait queues hold exactly the sleepers of the protocol |
| `PipeSched.RunInv` | fs/pipe.c:42-91 | this, the scheduler's and the pipe's invariant hold in every run of the two together |
| `PipeSched.NeverBothAsleep` | fs/pipe.c:50-88 | the reader and the writer are never both on the pipe's queues; a waiting reader means an empty ring, a waiting writer a full one |
| `PipeSched.RunningCanPass` | fs/pipe.c:50-88 | a process that is dispatched with its request open is not on the pipe's queue and can take its pass |
| `UserHeap.TilesApart` | libc/malloc.c:36-45 | an earlier block of the chain ends before a later one begins |
| `UserHeap.PayloadsDisjoint` | libc/malloc.c:48-73 | payloads of two blocks never overlap each other or a header |
| `UserHeap.LowestFit` | libc/malloc.c:17-25 | when any free block is large enough, the chosen one is free, large enough and has the lowest address among them |
| `UserHeap.MallocTiles` | libc/malloc.c:27-73 | allocation keeps the blocks tiling the heap up to the break if and only if a block fits or the break can grow |
| `UserHeap.OverflowExample` | libc/malloc.c:27-46 | a request the break cannot grow by yields a block beyond the break |
| `UserHeap.RunTiles` | libc/malloc.c:48-84 | the tiling holds in every state of every run of allocations and frees with room; `realloc` is one allocation and one free |
| `UserHeap.MallocAnswers` | libc/malloc.c:48-73 | the pointer is the payload of the lowest free block that is large enough, or of a new block at the break if and only if there is none; that block becomes live and no other changes |
| `UserHeap.HeldApart` | libc/malloc.c:48-105 | two pointers a program holds have payloads apart, with the bytes asked for, inside the heap |
| `UserHeap.RunHeld` | libc/malloc.c:48-105 | in every run of `malloc`, `free` and `realloc` the pointers handed out and not yet freed are different, with disjoint payloads of at least the sizes asked for, and `malloc` never hands out one of them |
| `UserHeap.Heap.FindFreeBlock` | libc/malloc.c:17-25 | the walk stops at the first block of the chain that is free and large enough, or with the last block of the chain if there is none |
| `UserHeap.Heap.RequestSpace` | libc/malloc.c:27-46 | appends a block at the old break and moves the break as `sbrk` does |
| `UserHeap.Heap.TakeBlock` | libc/malloc.c:48-73 | finds or appends the block and marks it used: the blocks become those of the allocation function |
| `UserHeap.Heap.Malloc` | libc/malloc.c:48-73 | zero gives null; otherwise the lowest free block large enough becomes live and the break stays, or if there is none a block is added at the break; no other block changes; the heap stays well formed if and only if a block fitted or the break could grow |
| `UserHeap.Heap.Free` | libc/malloc.c:77-84 | marks exactly that block free; null changes nothing; the heap is well formed after if and only if it was before |
| `UserHeap.Heap.Realloc` | libc/malloc.c:86-105 | null allocates; a large enough block stays; otherwise the new block is one `malloc` may give, the old contents are in it, the old block is free, and no other byte changes; the heap stays well formed if and only if no block was needed, one fitted or the break could grow |
| `Ata.LoopStaysInside` | modules/ata.c:118-122 | the whole-sector loop stays inside the request if and only if it is not a request for less than a sector at offset 0 |
| `Ata.MovesExactly` | modules/ata.c:195-209 | for every disk: a write changes no byte outside its range, whatever the buffer, if and only if it starts on a sector or reaches its first sector's end |
| `Ata.PartsJoin` | modules/ata.c:85-125 | first part, whole sectors and last part join without gap or overlap |
| `Ata.RegularServed` | modules/ata.c:85-125 | every request for at least one byte on the disk that starts on a sector or reaches its first sector's end, and is not short at offset 0, is served and moves exactly its size |
| `Ata.ClampOverruns` | modules/ata.c:181-225 | the loop keeps to the disk if and only if the request lies on the disk and is not shorter than a sector at offset 0 (or the disk reaches as far as the wrapped bound) |
| `Ata.ClampExample` | modules/ata.c:181-193 | two sectors written to a disk of one: the size is clamped, the loop still goes to sector 1 |
| `Ata.ClampedEnds` | modules/ata.c:190-231 | a clamped write's loop stops exactly behind the disk's last sector, short of its own end |
| `Ata.ShortTransferExample` | modules/ata.c:88-116 | one byte at offset 1 moves 511 bytes, and 100 bytes at offset 0 wrap the loop bound |
| `Ata.Device.WriteFirst` | modules/ata.c:195-209 | read-modify-write of the first sector changes only the bytes up to its end, and needs a buffer that reaches it |
| `Ata.Device.WriteLast` | modules/ata.c:211-225 | read-modify-write of the last sector changes only the bytes of the request in it |
| `Ata.Device.WriteSectors` | modules/ata.c:227-231 | the loop writes every whole sector up to the first that is not on the disk or not in the buffer |
| `Ata.Device.WriteAta` | modules/ata.c:178-234 | a request on the disk that starts on a sector or reaches its first sector's end, and is not short at offset 0: byte by byte exactly its range becomes the buffer and all else stays; for every other request: past the disk's end, the disk is filled to its end and the next sector asked for; short at offset 0, buffer or disk is run through; an offset past the disk writes nothing; served if and only if none of these |
| `Ata.Device.ReadAta` | modules/ata.c:85-125 | the same requests get, byte by byte, exactly that slice of the disk; every request is served if and only if it is on the disk, not short at offset 0 and its buffer large enough, or empty at a sector; in any case a byte of the buffer is left alone or gets the disk's byte at its place |
| `Ata.Device.WriteThenRead` | modules/ata.c:85-234 | reading back after a write returns what was written |
| `Number.TextLength` | kernel/vsprintf.c:57-71 | the text has exactly max(width, sign + prefix + max(precision, digits)) characters |
| `Number.RoomTurn` | kernel/vsprintf.c:64-68 | each division turn stays below 32 digits, so the 36-byte scratch array is never overrun in any base |
| `Number.DigitsAreCanonical` | kernel/vsprintf.c:42-68 | in every base from 2 to 36 the digits printed have no leading zero, are below the base, have letters in the case asked for, and give the value by Horner's rule |
| `NumberForm.CanonicalUnique` | kernel/vsprintf.c:64-68 | a value has one such digit text |
| `NumberForm.FieldUnique` | kernel/vsprintf.c:40-89 | a number, base, width, precision and flag set leave exactly one field: blanks, sign, prefix, zeros, digits and blanks in that order |
| `Number.TextIsField` | kernel/vsprintf.c:40-89 | the specified text is that field, for every base, width, precision and flag set |
| `Number.FillDigits` | kernel/vsprintf.c:64-68 | the division loop leaves, last first, a digit text without leading zero, in the case asked for, that gives the number by Horner's rule |
| `Number.TakeSign` | kernel/vsprintf.c:52-56 | sign and magnitude, with the minimum integer's magnitude 2^31 |
| `Number.EmitField` | kernel/vsprintf.c:72-87 | the counting loops write padding, sign, prefix, zeros, digits and trailing blanks in that order and number |
| `Number.Print` | kernel/vsprintf.c:40-89 | for every 32-bit number, base, width, precision and flag set: refused if and only if the base is outside 2 to 36; otherwise the one field with the number's sign or its `+` or blank, the octal or hexadecimal prefix, the padding the flags ask for and the value's digits |
| `Number.PrintText` | kernel/vsprintf.c:40-89 | the same, as the specified text |
| `Number.Atoi` | libc/stdlib.c:52-73 | for every text: white space, at most one sign, the longest run of decimal digits and a rest; the result is the digits' value by Horner's rule with that sign, reduced to 32 bits |
| `Number.TextDenotes` | kernel/vsprintf.c:40-89 | the printed decimal text denotes the number, under every width, precision and flag set with a sign |
| `Number.PrintThenAtoi` | libc/stdlib.c:52-73 | parsing the printed decimal text gives the number back, the minimum integer included |

## Left out

- Kmalloc.Allocator.Kmalloc: requests of at most 4068 bytes (the exact bound of the size classes), two pages of address space left below 2^32, counters not wrapped at 32 bits.
- Kmalloc.Allocator.GetFreePage: two pages of address space left below 2^32; page and block memory are maps keyed by address. The runs start from a break of at least one page, as set at boot (0xc0000000).
- Kmalloc.Allocator.Kfree: pointers that were allocated and not yet freed; the warnings for other pointers are not modelled.
- Frames.FrameMap.GetFirstFrame: needs a free frame, since the source's loop has no result without one.
- Mmu.AddressSpaces.PageDirClone: enough free frames, since running out stops the kernel, and frame 0 taken; tables and directories are values under numeric pointers, allocation gives a new pointer, and hardware entries and physical addresses are omitted.
- Time.Mktime: normalisation works on unbounded integers; a time zone above the least 32-bit integer and a non-negative daylight bias; zone name and offset fields are omitted.
- Cmos.ReadCmos: two-digit years as 2000 to 2099; the port reads and the read-until-stable loop are inputs.
- VmAreas.MemoryMap.DoMunmap: what it means by address is stated for ranges that do not wrap (`VmAreas.UnmapWraps` says why) and lengths the rounding does not wrap.
- VmAreas.MemoryMap.DoMmap: the area list only, not the loops that map and unmap pages; failure to allocate the node is not modelled.
- Kernel.Scheduler.TimerCallback: clock counting and drift correction are inputs.
- Kernel.Scheduler.SleepUntil: the deadline is an input, so `relative_time` is not modelled.
- Kernel.Scheduler.WaitpidTurn: one turn for a non-negative pid; a negative pid only returns an error.
- Sched.RunInv: runs in which pid 1 never sleeps or blocks, as `process_exit` asserts that it never exits.
- Kernel.Scheduler.SleepOn: a wait queue that was created; processes are their pids.
- PipeProtocol.RunInv: one reader, one writer, non-zero requests and a ring of at least two bytes; the dead flag, which nothing sets, is omitted.
- List.List.Delete: needs the backward links unless the node is the first, since the source follows them.
- UserHeap.RunTiles: runs in which the break can grow when it must, and only `malloc` moves it.
- UserHeap.RunHeld: the same, and the program frees and resizes only pointers it holds.
- Ata.Device.WriteAta: offset and size do not wrap 32 bits together; the call ends at the first sector not on the disk or not in the buffer, since what the hardware or memory does then is not modelled.
- Ata.Device.ReadAta: the same; sector transfers are an array, without DMA, retries or ports.
- Number.Print: width and precision counters are unbounded integers; the text is returned instead of written through a pointer.
- IsoWeek.Compute: the number computation; the text written for `%V`, `%G` and `%g` is omitted.
- The huge-block path and skip list of the kernel allocator.
- Finding several adjacent frames (`get_first_frames`, `alloc_frames`) and boot-time frame set-up.
- The kernel's page fault handler, page directory loading and identity mapping at boot; stores are steps of the machine, not code.
- Register saving, stack relocation, user-mode entry and program loading.
- Format-string scanning in `vsprintf`, and the rest of `strftime`.
- `calloc` and the rest of the C library, hash map and ordered array.
- The file systems, network stack, device drivers, console, module loader and user programs.
