# Verification of the NPU driver's memory, scheduling and graph loading

This project models the parts of the Zhouyi NPU driver whose correctness rests on more than one
function, and proves what they promise.

- **Memory manager** (kernel driver). `Words`, `Blocks`, `Region`, `RegionRuns` and `MemoryManager`
  model the address-ordered block list of each memory region, the forward and reverse scans, the
  four-way split, the free with coalescing, the scan across regions and the routing of frees.
  Lists are related to the set of live extents they describe; contracts speak about that set.
- **Ownership** (kernel driver). `Session`, `Fops` and `Ownership` model the per-file buffer and job
  lists and the ioctl layer. `Fops` composes whole calls; `Ownership` interleaves the lock-held
  halves of calls of several sessions, because the block list itself does not check what it frees.
- **Job scheduler** (kernel driver). `JobManager` implements each section that runs under the
  manager's lock; `SchedulerRuns` and `SchedulerTheorems` treat those sections as atomic steps, with
  the bottom half split where it drops the lock, and prove the service order over whole histories;
  `SchedulerHardware` relates it to the jobs handed to the hardware and to whole passes of the bottom
  half.
- **Graph loading** (user-mode driver). `GraphFormat` is an encoder and decoder for the bss section
  of graph versions 3 and 4, `FormatWords` the same format word by word without them, `BssParser` the
  parser that walks it, `TensorSort` the scatter by tensor
  id, `Layout` the group and simulator layouts, `Relocation` the masked patch of the read-only data,
  `AddressWindows` the windows programmed by `z2.c`, and `Linker` the chain from one end to the other.
- **Identifiers and thread buffers** (user-mode driver). `Identifiers` and `ThreadBuffers` model
  handles, job ids, graph ids and which job may use which buffer.
- `Sequences`, `Bitwise` and `Bytes` hold what these need of counting, of bitwise arithmetic and of
  words in byte-addressed memory.

Classes follow the source's structures: their methods update fields in place and are proved against
functions or relations on values, and the lemmas about those values are the main results.

Premises, stated as `requires` where they are used: pages are 4096 bytes; a region is not empty, lies
at or above its own size and leaves room for one 32-bit alignment and one more region size below 2^64
(`Placeable`); regions do not overlap; request fields are machine words, and where a strict region may
serve a request its size is at most 2^63, since the kernel leaves the rounding beyond undefined
(`RequestInRange`); the forward scan finds exactly the aligned addresses only for powers of two
(`ExactAlignment`); in the user-mode driver alignments are not zero and the layout as a whole ends
below 2^32 (`Fits32`, `BumpFits32`); with ASID, sizes are at least 1 when a window is programmed (the
kernel leaves the rounding of 0 undefined); 32-bit words lie least significant byte first in memory; a
file is released only after the calls on it have returned; job objects are submitted once.

The allocator's sums are 64-bit, and a read-only or stack request on Zhouyi V2 is not compared with
the free bytes of its region. A request so large that the end of its range wraps past 2^64 into a free
block is granted there and leaves an ill-formed list (`Overruns`). The methods cover such requests. An
attempt keeps the region well formed if and only if it is not one of them, and histories and
interleavings are made of the steps that are not.

Where the code and its comments part, the model follows the code:

- The pointer check of the parser compares with `<`, and its upper bound is the header size plus the
  declared size, counted from the start of the section: a read may end up to 12 bytes past the
  declared size and is still accepted, and one that ends exactly at the bound is refused.
- A graph whose tensors cannot be sorted is still reported as parsed.
- A job refused by the kernel driver is left without a state while the flush call succeeds.
- Completed jobs always record "no exception".
- A new job id can be that of a timed-out job, whose entry it replaces; the replaced job's buffer then
  stays taken for good.
- A word that starts in the last three bytes of the read-only data passes the range test although it
  ends outside.

Results that are exact conditions rather than plain promises: a free is safe if and only if its
descriptor does not name a free block; `ALIGN` aligns if and only if the alignment is a power of two;
an allocation keeps its region consistent if and only if it does not overrun it; group children are
aligned at every base if and only if every alignment divides the first; counting up to an aligned
address stops if and only if that address is below 2^32, for a power of two; fields hold their values if
and only if entries agree on the bits they share; a new job id is taken if and only if a stale job
precedes the first gap; a call orphans a buffer if and only if it is a build whose patching fails or
whose id replaces a job; an ASID value translates right if and only if the low half of the
shared-memory offset is zero; an id routes home if and only if one of its graph's ids is unused;
tensors end up sorted if and only if their ids are distinct and in range.

## Model

| member | source | states |
|---|---|---|
| Words.AlignIsRoundUp | Linux/driver/kmd/src/aipu_mm.c:201 | without wrap-around and for a power of two, the kernel's `ALIGN` is the least multiple not below the address |
| Words.AlignNeedsPow2 | Linux/driver/kmd/src/aipu_mm.c:201 | `ALIGN` leaves every page-aligned address aligned if and only if the alignment is a power of two; the forward scan needs that premise |
| Blocks.FreeRangeInOneBlock | Linux/driver/kmd/src/aipu_mm.c:188-221 | because neighbours are never both free, every free address range lies inside a single free block, so a scan block by block misses none |
| Blocks.FreeBlockIsFreeRange | Linux/driver/kmd/src/aipu_mm.c:188-221 | conversely a range inside a free block meets no live extent |
| Blocks.LiveDisjoint | Linux/driver/kmd/src/aipu_mm.c:232-295 | allocated blocks of one region never overlap |
| Blocks.CanonicalForm | Linux/driver/kmd/src/aipu_mm.c:232-295 | two well-formed lists over the same range with the same live extents have the same addresses, sizes and states |
| Blocks.SplitEffect | Linux/driver/kmd/src/aipu_mm.c:246-292 | in all four split cases the list keeps tiling the region without neighbouring free blocks, gains exactly one live extent and loses exactly its size from the free sum |
| Blocks.FreeEffect | Linux/driver/kmd/src/aipu_mm.c:531-562 | in all four merge cases the list stays well formed, loses exactly the freed extent and gains its size in the free sum |
| Blocks.FreeTwice | Linux/driver/kmd/src/aipu_mm.c:519-562 | freeing a block that is already free leaves the shape and the free sum of the list as they were |
| Blocks.FitBelowFreeTotal | Linux/driver/kmd/src/aipu_mm.c:594-600 | no request larger than the free sum can be placed |
| Regions.AllocSizeCovers | Linux/driver/kmd/src/aipu_mm.c:56-88 | the rounded size covers the request in whole pages: with the compact policy the least multiple of a page, with the strict one the least power of two of at least a page |
| Regions.AlignmentIsExact | Linux/driver/kmd/src/aipu_mm.c:405 | the 32-bit product gives the alignment in bytes if and only if the page count is below 2^20 |
| Regions.LowestFound | Linux/driver/kmd/src/aipu_mm.c:197-206 | the first free block, from the bottom, that holds the aligned request gives the lowest fitting address of the region |
| Regions.HighestFound | Linux/driver/kmd/src/aipu_mm.c:207-219 | the first free block, from the top, that holds the request gives the highest fitting address |
| Regions.NothingFound | Linux/driver/kmd/src/aipu_mm.c:174-230 | if no block can serve the request, no aligned free range exists |
| Regions.Region.constructor | Linux/driver/kmd/src/aipu_mm.c:428-457 | a new region is one free block of its whole size |
| Regions.Region.FindCandidate | Linux/driver/kmd/src/aipu_mm.c:174-230 | for every size and alignment, the first block the forward scan accepts in 64-bit arithmetic, or the highest fit for other data; unless the end wraps, that is the lowest aligned free address, or none exists; rejects zero sizes and alignments that are not whole pages |
| Regions.Region.ScanUp | Linux/driver/kmd/src/aipu_mm.c:197-206 | the forward scan returns the first free block whose aligned end, in 64-bit arithmetic, does not pass the block's end, or there is none |
| Regions.Region.ScanDown | Linux/driver/kmd/src/aipu_mm.c:207-219 | the reverse scan finds the highest fit, or there is none |
| Regions.Region.SplitBlock | Linux/driver/kmd/src/aipu_mm.c:232-295 | replaces the target block by its pieces, or refuses a range that is empty or whose last address leaves the block, in 64-bit arithmetic; for a wrapped end it gives the overlapping pieces of the source |
| Regions.Region.AllocInRegion | Linux/driver/kmd/src/aipu_mm.c:297-426 | one attempt of either policy, for every request: best placement, exactly one new live extent, unchanged on failure, which happens only if nothing fits; an overrunning request is granted at its wrapped range |
| Regions.Region.UpdateBlocks | Linux/driver/kmd/src/aipu_mm.c:345-359 | the second half of an attempt: the candidate is cut out of its block and described to the caller |
| Regions.Region.TryAlloc | Linux/driver/kmd/src/aipu_mm.c:484-504 | the attempt together with the free-byte counter in 64 bits; the region stays well formed if and only if the request does not overrun it |
| Regions.PlacedByType | Linux/driver/kmd/src/aipu_mm.c:188-220 | by the number of the data type: text (1) and read-only or stack data (2) are placed at the lowest aligned free address, every other type at the highest, and a request is refused only if there is none |
| Regions.AttemptIsSafe | Linux/driver/kmd/src/aipu_mm.c:174-295 | whatever the request, an attempt keeps tiling, coalescing and counter if and only if the first block the forward scan accepts is not one its end wraps into |
| Regions.SmallNeverOverruns | Linux/driver/kmd/src/aipu_mm.c:594-600 | a request that passes the free-byte test never overruns, so only pinned data can |
| Regions.Region.FreeInRegion | Linux/driver/kmd/src/aipu_mm.c:506-567 | frees a live extent; refuses an unknown descriptor unchanged; a descriptor naming a free block is accepted and miscounts |
| Regions.Region.FreeBlock | Linux/driver/kmd/src/aipu_mm.c:531-562 | marks the block free and merges it with both neighbours, as the list function says |
| RegionRuns.RegionInvariant | Linux/driver/kmd/src/aipu_mm.c:246-292 | after every history of frees and non-overrunning allocations the blocks tile the region, no neighbours are both free, the counter is the sum of the free blocks, and the live extents are the granted ones, disjoint, of the rounded size and aligned as requested |
| RegionRuns.AttemptKeepsInvExactly | Linux/driver/kmd/src/aipu_mm.c:188-206 | the allocations a history is made of are exactly those that keep its invariant: an attempt does if and only if its request does not overrun |
| RegionRuns.HugeRequestOverruns | Linux/driver/kmd/src/aipu_mm.c:584-592 | a concrete region and request: 2^64 minus a page of read-only data is granted beyond the region, the counter grows and the list is no longer well formed |
| RegionRuns.HistoryForgotten | Linux/driver/kmd/src/aipu_mm.c:438-445 | two histories that leave the same extents allocated leave the same list, whatever their order |
| RegionRuns.EverythingFreed | Linux/driver/kmd/src/aipu_mm.c:438-445 | once everything is freed, the region is its single initial block again |
| RegionRuns.AllocThenFree | Linux/driver/kmd/src/aipu_mm.c:531-562 | allocating and freeing restores the previous list and counter |
| RegionRuns.FreesCommute | Linux/driver/kmd/src/aipu_mm.c:531-562 | the order of two frees does not matter |
| RegionRuns.FreeIsSafeUnlessFree | Linux/driver/kmd/src/aipu_mm.c:519-524 | a free keeps the region consistent if and only if its descriptor does not name a free block |
| RegionRuns.IdleRegionMiscount | Linux/driver/kmd/src/aipu_mm.c:519-524 | a concrete region whose counter doubles when its free block is freed |
| MemoryManagers.PrefilterIsSound | Linux/driver/kmd/src/aipu_mm.c:594-600 | the free-byte test never skips a region that could serve the request |
| MemoryManagers.AllLiveDisjoint | Linux/driver/kmd/src/aipu_mm.c:569-604 | live extents of all regions together never overlap |
| MemoryManagers.AllocAddsOne | Linux/driver/kmd/src/aipu_mm.c:734-774 | a successful request that overruns no region adds exactly one extent that was not live before |
| MemoryManagers.ServedByFirst | Linux/driver/kmd/src/aipu_mm.c:584-600 | a request goes to the first DDR region with an aligned free range, for read-only and stack data on V2 only to the region it names; the buffer lies in that region and names it, and the request fails exactly if there is none |
| MemoryManagers.RegisteredServesFirst | Linux/driver/kmd/src/aipu_mm.c:695-732 | a DDR region just registered is the first to serve: whatever its empty range can hold is placed inside it and carries the next id |
| MemoryManagers.AllocIsSafe | Linux/driver/kmd/src/aipu_mm.c:584-600 | whatever the request, the scan over the regions keeps them all well formed if and only if the request overruns none that is tried for it |
| MemoryManagers.OnlyPinnedOverruns | Linux/driver/kmd/src/aipu_mm.c:584-600 | only read-only or stack data on V2, which skips the free-byte test, can overrun a region |
| MemoryManagers.OnlyHere | Linux/driver/kmd/src/aipu_mm.c:606-620 | only the region that contains a range can know it, so the first region found decides a free |
| MemoryManagers.MemoryManager.AddRegion | Linux/driver/kmd/src/aipu_mm.c:695-732 | registers a region with the next id in front of its list, or refuses size zero |
| MemoryManagers.MemoryManager.TryRegion | Linux/driver/kmd/src/aipu_mm.c:484-504 | one attempt changes only that region, whatever the request |
| MemoryManagers.MemoryManager.ScanRegions | Linux/driver/kmd/src/aipu_mm.c:569-604 | the request is served by the first eligible region that can hold it or that it overruns, and fails only if there is none |
| MemoryManagers.MemoryManager.Alloc | Linux/driver/kmd/src/aipu_mm.c:734-774 | the entry point: argument errors, the missing-memory error, and the scan; the manager stays valid if and only if the request overruns no region |
| MemoryManagers.MemoryManager.FindRegion | Linux/driver/kmd/src/aipu_mm.c:606-620 | the first region whose range contains the buffer, in 64-bit arithmetic, or none |
| MemoryManagers.MemoryManager.FreeBuffer | Linux/driver/kmd/src/aipu_mm.c:776-803 | a live buffer is freed and nothing else changes; unknown descriptors are refused; naming a free block breaks the counter |
| Sessions.RemoveFirstRanges | Linux/driver/kmd/src/aipu_session.c:136-162 | with distinct ranges, detaching removes exactly the named buffer |
| Sessions.QueryPartitions | Linux/driver/kmd/src/aipu_session.c:631-672 | a query splits the job list into returned and remaining jobs, both in list order; it returns only ended, wanted jobs, at most its capacity, and leaves a wanted one behind only when full |
| Sessions.MarkDoneExact | Linux/driver/kmd/src/aipu_session.c:509-512 | exactly the job object of that identity ends, without an exception, and every other one is left as it was |
| Sessions.ReportedStatuses | Linux/driver/kmd/src/aipu_session.c:643-672 | at every point of a history a query returns only ended jobs, one at most for a single job, each as done (1) with its own job id and the process id |
| Sessions.ExceptionIsReported | Linux/driver/kmd/src/aipu_session.c:655-656 | a recorded exception would be reported as state 2, none as state 1 |
| Sessions.Session.AddBuf | Linux/driver/kmd/src/aipu_session.c:275-310 | puts the buffer in front of the list |
| Sessions.Session.DetachBuf | Linux/driver/kmd/src/aipu_session.c:312-344 | removes the first buffer of that address and size, or reports that there is none |
| Sessions.Session.AddJob | Linux/driver/kmd/src/aipu_session.c:428-457 | puts a new unfinished job in front of the list |
| Sessions.Session.JobDone | Linux/driver/kmd/src/aipu_session.c:493-535 | marks the given job ended, with no exception recorded, and no other |
| Sessions.Session.DeleteJobs | Linux/driver/kmd/src/aipu_session.c:459-482 | empties the job list |
| Sessions.Session.GetJobStatus | Linux/driver/kmd/src/aipu_session.c:611-697 | fills the status array with the returned jobs, never past its end, in single and batch mode, and keeps the rest in order |
| Sessions.StatusReportedOnce | Linux/driver/kmd/src/aipu_session.c:631-672 | over every history of a session no job's status is returned twice |
| Ownership.OwnershipInvariant | Linux/driver/kmd/src/aipu_fops.c:135-197 | with steps of several sessions interleaved, requests overrunning no region, the live extents are exactly the session-owned buffers plus those between the two halves of a call, each with one holder |
| Ownership.RequestKeepsInvExactly | Linux/driver/kmd/src/aipu_fops.c:135-140 | the requests of a run are exactly those that keep the invariant: any request does if and only if it overruns no region |
| Ownership.EveryFreeIsOfALiveBuffer | Linux/driver/kmd/src/aipu_fops.c:181-197 | no free in any run reaches a free block: each removes exactly one live extent |
| Ownership.FreeingIsLive | Linux/driver/kmd/src/aipu_fops.c:186-193 | what FREEBUF hands to the memory manager is live |
| Ownership.ClosingIsLive | Linux/driver/kmd/src/aipu_mm.c:805-823 | what the release loop frees is live |
| Ownership.CloseCanContinue | Linux/driver/kmd/src/aipu_mm.c:805-823 | a release step never fails |
| Ownership.CloseStepsAreLocal | Linux/driver/kmd/src/aipu_mm.c:805-823 | each release step makes progress on its own file and leaves all other files and calls alone |
| Ownership.ReleaseEmptiesItsList | Linux/driver/kmd/src/aipu_session.c:232-253 | however other files' steps interleave, after two steps per buffer the closing file's list is empty, so destroying the session is accepted |
| Fops.RequestBuffer | Linux/driver/kmd/src/aipu_fops.c:135-152 | REQBUF on any request: allocation, then the buffer is listed in the session; the manager stays valid if and only if nothing is overrun, and then the session owns what it lists |
| Fops.FreeBuffer | Linux/driver/kmd/src/aipu_fops.c:181-197 | FREEBUF: a listed buffer leaves the session and the live set; any other descriptor is refused without touching memory |
| Fops.RunJob | Linux/driver/kmd/src/aipu_fops.c:153-173 | RUNJOB: the job is listed in the session and submitted under its process id |
| Fops.FreeHead | Linux/driver/kmd/src/aipu_mm.c:805-823 | one round of the release loop: free first, detach second |
| Fops.FreeSessionBuffers | Linux/driver/kmd/src/aipu_mm.c:805-823 | the loop terminates, succeeds and frees exactly the session's buffers |
| Fops.Release | Linux/driver/kmd/src/aipu_fops.c:62-95 | release cancels the process's jobs, frees the session's buffers and empties both lists, so the session is destroyed |
| JobManagers.JobManager.SchedulePendingNoLock | Linux/driver/kmd/src/aipu_job_manager.c:144-194 | moves the head of the pending queue to the end of the scheduled queue if there is a slot and the hardware is idle, and hands that same job to the hardware |
| JobManagers.JobManager.ScheduleNewJob | Linux/driver/kmd/src/aipu_job_manager.c:196-233 | appends the job and attempts to schedule |
| JobManagers.JobManager.UpdateJobState | Linux/driver/kmd/src/aipu_job_manager.c:360-396 | ends the first executing job, releases its slot, and attempts to schedule |
| JobManagers.JobManager.CancelSessionJobs | Linux/driver/kmd/src/aipu_job_manager.c:275-303 | drops pending and marks executing jobs of the process in both queues |
| JobManagers.JobManager.InvalidateCanceled | Linux/driver/kmd/src/aipu_job_manager.c:260-273 | the loop over one queue |
| JobManagers.JobManager.InvalidateTimeoutJob | Linux/driver/kmd/src/aipu_job_manager.c:326-348 | looks in the pending queue first, then in the scheduled queue |
| JobManagers.JobManager.InvalidateTimeout | Linux/driver/kmd/src/aipu_job_manager.c:305-324 | invalidates the first job of that thread and id, refusing an ended one |
| JobManagers.JobManager.DrainFrom | Linux/driver/kmd/src/aipu_job_manager.c:408-431 | one lock-held section of the bottom half from the cursor to the next unlock |
| JobManagers.JobManager.BottomHalfStart | Linux/driver/kmd/src/aipu_job_manager.c:398-431 | the first section |
| JobManagers.JobManager.BottomHalfResume | Linux/driver/kmd/src/aipu_job_manager.c:417-431 | after the unlocked window: the reported job is deleted and the cursor follows the successor saved before the window |
| SchedulerRuns.StepKeepsInv | Linux/driver/kmd/src/aipu_job_manager.c:144-431 | every lock-held section keeps the queue shape, the orders, the flags and the saved successor |
| SchedulerRuns.ScheduleKeepsShape | Linux/driver/kmd/src/aipu_job_manager.c:155-194 | scheduling keeps the ended prefix and the executing suffix, and the slot counter |
| SchedulerRuns.CompleteShape | Linux/driver/kmd/src/aipu_job_manager.c:360-396 | a completion ends exactly the first executing job |
| SchedulerRuns.MarkInvalidKeeps | Linux/driver/kmd/src/aipu_job_manager.c:235-258 | marking executing jobs invalid moves no job |
| SchedulerRuns.ResumeFromReported | Linux/driver/kmd/src/aipu_job_manager.c:406-429 | across the unlocked window the reported job is still the head and the saved successor still follows it |
| SchedulerTheorems.SchedulerInvariant | Linux/driver/kmd/src/aipu_job_manager.c:144-194 | in every reachable state pending holds pending jobs, scheduled is an ended prefix and an executing suffix, and the slot counter counts the latter and never exceeds its maximum |
| SchedulerTheorems.ServiceOrder | Linux/driver/kmd/src/aipu_job_manager.c:368-431 | triggers are submissions without jobs removed while pending, completions are a prefix of triggers, deliveries are completions without invalidated jobs, and nothing is triggered or delivered twice |
| SchedulerTheorems.SilencedForever | Linux/driver/kmd/src/aipu_job_manager.c:235-258 | a job removed while pending is never triggered, one invalidated while executing is never delivered |
| SchedulerTheorems.CancelSilencesSession | Linux/driver/kmd/src/aipu_job_manager.c:260-303 | after a cancellation no pending job of the process remains, its pending jobs are never triggered and its executing ones never delivered; other processes' jobs keep order, state and flags, and none of them is removed or invalidated by it |
| SchedulerTheorems.DeliveredExactly | Linux/driver/kmd/src/aipu_job_manager.c:398-431 | once both queues are empty the delivered jobs are exactly the submitted ones that were neither removed nor invalidated |
| SchedulerTheorems.SparedJobsAreDelivered | Linux/driver/kmd/src/aipu_job_manager.c:260-348 | a submitted job whose own process is never cancelled and that no timeout kill names is delivered by the time both queues are empty, whatever is cancelled for other processes |
| SchedulerTheorems.KillSilencesJob | Linux/driver/kmd/src/aipu_job_manager.c:305-348 | a timeout kill silences the job it finds, and refuses only if there is none or it has ended |
| SchedulerTheorems.NoStrandedWork | Linux/driver/kmd/src/aipu_job_manager.c:155-194 | if the hardware is idle exactly when nothing executes, a pending job implies an executing one in every reachable state |
| SchedulerTheorems.IrqFinishesFirst | Linux/driver/kmd/src/aipu_job_manager.c:360-396 | a completion interrupt finishes the first job of executing-then-pending order |
| SchedulerTheorems.InterruptsFinishInOrder | Linux/driver/kmd/src/aipu_job_manager.c:360-431 | k completion interrupts without submissions finish exactly the first k jobs of that order, whatever the bottom half does in between |
| SchedulerHardware.HandedIsQueued | Linux/driver/kmd/src/aipu_job_manager.c:155-176 | a job is handed to the hardware exactly if it is idle, a job is pending and a slot is free; it is the head of the pending queue and becomes the last scheduled job |
| SchedulerHardware.HardwareOrder | Linux/driver/kmd/src/aipu_job_manager.c:155-233 | over every history the hardware is started on the submitted jobs in submission order without those removed while pending, each once, completes them in that order, and never has more than the allowed number in hand |
| SchedulerHardware.HandedAsSubmitted | Linux/driver/kmd/src/aipu_job_manager.c:168-231 | the hardware gets each job with the process, thread and id it was submitted with |
| SchedulerHardware.BottomHalfLeavesNone | Linux/driver/kmd/src/aipu_job_manager.c:398-431 | a section of the bottom half that leaves no job to report leaves no ended job in the queue, unless it has just reported a job without a successor |
| SchedulerHardware.PassDeliversAll | Linux/driver/kmd/src/aipu_job_manager.c:398-431 | from every reachable state a pass of the bottom half terminates and has then delivered every completed job that was not invalidated, in order, and left only executing jobs |
| Layout.GetAlignedAddr | Linux/driver/umd/src/context/device_ctrl.cpp:382-390 | the counting loop, in 32-bit products, terminates and returns the least multiple not below the base, whenever that multiple is below 2^32 |
| Layout.StopsExactly | Linux/driver/umd/src/context/device_ctrl.cpp:382-390 | for an alignment of zero or a power of two some 32-bit product reaches the base, so that the loop stops, if and only if the base is zero or the aligned address is below 2^32; with alignment zero it never stops for another base |
| Layout.GroupOffsets | Linux/driver/umd/src/context/graph/graph.cpp:841-850 | the offset array: first at zero, each next at the first aligned offset past its predecessor |
| Layout.AllocGroupBuffers | Linux/driver/umd/src/context/graph/graph.cpp:832-875 | size and alignment requested for the group, and one child buffer per section at its offset |
| Layout.GroupIsDisjoint | Linux/driver/umd/src/context/graph/graph.cpp:843-870 | children lie inside the allocation, in order, without overlap, at one constant distance between device and host address |
| Layout.GroupIsTight | Linux/driver/umd/src/context/graph/graph.cpp:841-852 | children fill the allocation from start to end, each at the first multiple of its alignment in 4096-byte pages past its predecessor |
| Layout.GroupAlignment | Linux/driver/umd/src/context/graph/graph.cpp:852-853 | children are aligned at every base the allocator may return if and only if every alignment divides the first section's |
| Layout.SimulationLayout | Linux/driver/umd/src/context/device_ctrl.cpp:454-523 | sections of the simulator buffer are absolutely aligned, disjoint, inside the buffer and at one constant distance between device and host address |
| Layout.SimulationIsTight | Linux/driver/umd/src/context/device_ctrl.cpp:454-495 | each simulator section takes whole 4096-byte pages from the first multiple of its alignment past its predecessor, and the last one ends at the top |
| Layout.Simulation.MallocBuf | Linux/driver/umd/src/context/device_ctrl.cpp:681-721 | size zero is refused; else a plain buffer takes whole pages at the current top, all in 32-bit arithmetic |
| Layout.AlignPageWraps | Linux/driver/umd/src/utils/helper.h:32 | `ALIGN_PAGE` in 32 bits is the size rounded up to pages, except that it is zero for sizes in the last page below 2^32 |
| Layout.Simulation.BumpSections | Linux/driver/umd/src/context/device_ctrl.cpp:461-494 | one run of sections takes exactly its part of the placement of all sections bumped from the top |
| Layout.Simulation.BumpData | Linux/driver/umd/src/context/device_ctrl.cpp:452-494 | stack, static and reuse sections in turn are placed as one sequence, every address, rounded size and top below 2^32 |
| Layout.PlacedIsBumped | Linux/driver/umd/src/context/device_ctrl.cpp:452-494 | if the last top is below 2^32, no address, rounded size or intermediate top of the bump layout wraps |
| Layout.Simulation.AllocRodataBuffer | Linux/driver/umd/src/context/device_ctrl.cpp:392-426 | read-only data with the descriptors behind it in one buffer that covers both; refused if the 32-bit sum of the sizes is zero |
| Layout.Simulation.AllocDataBuffer | Linux/driver/umd/src/context/device_ctrl.cpp:429-527 | the whole data buffer: device addresses, then host addresses from one base; refused exactly if no section has a size, when the top has already moved |
| GraphFormat.RoundTrip | Linux/driver/umd/src/context/context.cpp:237-437 | parsing an encoding returns the described graph, and is refused if and only if the part read under the bound does not end below header plus declared size |
| GraphFormat.FittingIsAccepted | Linux/driver/umd/src/context/context.cpp:248-249 | an encoding that fits in the declared size is always accepted |
| GraphFormat.AcceptedIsEncoding | Linux/driver/umd/src/context/context.cpp:237-437 | whatever is accepted is the encoding of what is returned |
| GraphFormat.AcceptsExactly | Linux/driver/umd/src/context/context.cpp:237-437 | the parser returns a graph exactly for its encodings whose checked part lies within the bound |
| FormatWords.AcceptsWords | Linux/driver/umd/src/context/context.cpp:237-437 | without reference to the encoder: the parser returns a graph exactly if every field lies at its own word of the section and the checked part ends below 16 bytes plus the declared size |
| FormatWords.EncodingLies | Linux/driver/umd/src/context/graph/graph_v0_0_0_3.h:54-118 | each field of header, descriptors and list nodes has its place, word by word |
| GraphFormat.SubReads | Linux/driver/umd/src/context/graph/graph_v0_0_0_3.h:65-75 | a sub-section descriptor and its rodata offsets are read back from any position |
| GraphFormat.StaticReads | Linux/driver/umd/src/context/graph/graph_v0_0_0_3.h:81-86 | the same for a static section |
| GraphFormat.ReuseReads | Linux/driver/umd/src/context/graph/graph_v0_0_0_3.h:92-101 | the same for a reuse section |
| GraphFormat.NodeReads | Linux/driver/umd/src/context/graph/graph_v0_0_0_3.h:113-118 | the same for a list node, which is read without a bound |
| BssParser.GraphInfo.ParseBssSection | Linux/driver/umd/src/context/context.cpp:237-437 | the loops compute the decoder's outcome and, on success, exactly the templates, parameter map, sorted tensors and node list of the decoded graph |
| BssParser.GraphInfo.ReadTables | Linux/driver/umd/src/context/context.cpp:267-420 | static sections, reuse sections and node list, in order |
| BssParser.GraphInfo.ReadStatic | Linux/driver/umd/src/context/context.cpp:267-325 | one static section |
| BssParser.GraphInfo.ReadStatics | Linux/driver/umd/src/context/context.cpp:267-325 | the loop over the static sections |
| BssParser.GraphInfo.ReadReuse | Linux/driver/umd/src/context/context.cpp:328-392 | one reuse section |
| BssParser.GraphInfo.ReadReuses | Linux/driver/umd/src/context/context.cpp:328-392 | the loop over the reuse sections |
| BssParser.GraphInfo.ReadSubs | Linux/driver/umd/src/context/context.cpp:343-385 | the loop over the sub-sections of one section |
| BssParser.GraphInfo.ReadSub | Linux/driver/umd/src/context/context.cpp:343-385 | one sub-section: its tensor, its offset and its parameters |
| BssParser.GraphInfo.ReadRoOffsets | Linux/driver/umd/src/context/context.cpp:369-384 | the loop over the rodata offsets, one parameter each |
| BssParser.GraphInfo.FillIoTensor | Linux/driver/umd/src/context/context.cpp:193-235 | an input, output or dump tensor goes to the list of its type |
| BssParser.GraphInfo.ReadList | Linux/driver/umd/src/context/context.cpp:394-411 | a checked node count, refused if zero |
| BssParser.GraphInfo.ReadNodes | Linux/driver/umd/src/context/context.cpp:413-420 | that many nodes, read without a check |
| BssParser.GraphInfo.SortIo | Linux/driver/umd/src/context/context.cpp:422-426 | outputs are sorted first, inputs only if that worked, and a failure is not reported |
| BssParser.ParamMapExact | Linux/driver/umd/src/context/context.cpp:313-315 | the parameter map holds exactly the entries the descriptors describe, one for every rodata offset listed |
| BssParser.ParamsNameSections | Linux/driver/umd/src/context/context.cpp:381-383 | every entry names an existing section and sub-section and carries that sub-section's offset |
| BssParser.TemplatesExact | Linux/driver/umd/src/context/context.cpp:263-391 | for every section of every graph: a static template has its section's size, file offset and page alignment, a reuse template its size and alignment and no initial contents; stack size, stack alignment and node list are those of the graph |
| BssParser.TensorListsExact | Linux/driver/umd/src/context/context.cpp:193-235 | each tensor list holds the sub-sections of its type number, in file order, with all their fields; outputs are then sorted, inputs too unless an output id names no slot |
| BssParser.AlignInPageCovers | Linux/driver/umd/src/utils/helper.h:32-33 | the page alignment covers the byte alignment; it is zero exactly for zero and for values whose rounding wraps in 32 bits |
| TensorSort.SortIoTensor | Linux/driver/umd/src/context/context.cpp:171-191 | the scatter loop: the result, and whether every id named a slot |
| TensorSort.SortsExactly | Linux/driver/umd/src/context/context.cpp:171-191 | the result is sorted by id if and only if the ids are distinct and below the number of tensors; then it is a permutation and nothing is refused |
| TensorSort.SlotHolds | Linux/driver/umd/src/context/context.cpp:178-187 | in any case a slot holds the last tensor that names it before the first bad id, or what it held before |
| Relocation.PatchRodata | Linux/driver/umd/src/context/graph/graph.cpp:1205-1265 | loads the template and applies the entries in order, at any byte offset; stops at the first one out of range, with the size error exactly if the source's tests refuse it |
| Relocation.ApplyEntry | Linux/driver/umd/src/context/graph/graph.cpp:1218-1264 | one entry: address, translation, masked 32-bit store at a byte address |
| Relocation.PatchValueExact | Linux/driver/umd/src/context/graph/graph.cpp:1240-1262 | for every placement and every shared-memory offset the value written is the section's address plus the sub-section's offset, less the shared-memory offset, and with ASID less the group's address, in 32 bits |
| Relocation.FieldsHoldExactly | Linux/driver/umd/src/context/graph/graph.cpp:1212-1265 | every masked field holds its section base plus offset if and only if entries agree on every bit of memory their fields share, also where unaligned words overlap |
| Relocation.DisjointMasksHold | Linux/driver/umd/src/context/graph/graph.cpp:1264 | if no bit belongs to two fields, every word read back has, under its mask, the value computed for it |
| Relocation.AlignedFields | Linux/driver/umd/src/context/graph/graph.cpp:1264 | for word-aligned offsets, fields are disjoint if and only if the masks on each word are |
| Relocation.OtherBitsKept | Linux/driver/umd/src/context/graph/graph.cpp:1264 | every bit of memory outside the fields is the template's |
| Relocation.OrderDoesNotMatter | Linux/driver/umd/src/context/graph/graph.cpp:1212-1265 | the order of compatible entries, and repeating them, does not change a byte |
| Relocation.ParsedMapsStayInRange | Linux/driver/umd/src/context/graph/graph.cpp:1220-1248 | for a parsed map and the buffers laid out for it, the section range errors never occur: patching stops only at a word that does not end inside the buffer, with the size error exactly if it does not start there either; for aligned offsets it is always the error |
| AddressWindows.WindowIsLeast | Linux/driver/kmd/src/aipu/zhouyi/z2/z2.h:42-43 | the encoded window is the least power-of-two number of pages that covers a size of at least 1 |
| AddressWindows.Core.Trigger | Linux/driver/kmd/src/aipu/zhouyi/z2/z2.c:66-175 | the registers and windows written for a job, with and without ASID; without ASID no size is looked at |
| AddressWindows.Window0Covers | Linux/driver/kmd/src/aipu/zhouyi/z2/z2.c:73-77 | code, read-only data and stack lie in the range of window 0, which is the tightest, and the window programmed is the least power-of-two number of pages that reaches all of them |
| AddressWindows.AsidTranslation | Linux/driver/umd/src/context/graph/graph.cpp:1252-1262 | a value patched with ASID plus the programmed base is the target's device address if and only if the low 32 bits of the shared-memory offset are zero |
| AddressWindows.ModesAgree | Linux/driver/umd/src/context/graph/graph.cpp:1240-1264 | with no shared-memory offset both modes agree in the low 32 bits, and denote the same address exactly if target and code lie in the same 4 GB |
| AddressWindows.ValueInWindow | Linux/driver/kmd/src/aipu/zhouyi/z2/z2.c:120-132 | a patched value lies inside the programmed window |
| Linker.TargetIsSubSection | Linux/driver/umd/src/context/graph/graph.cpp:1230-1250 | an entry of a parsed graph points into the buffer of the section it names, at the offset of the sub-section it names |
| Linker.LoadedFields | Linux/driver/umd/src/context/graph/graph.cpp:1212-1265 | from parse to patch: if the fields are disjoint and end inside the buffer, every one holds the device address of its sub-section, at any byte offset, for any shared-memory offset and any order of the map |
| Linker.ByteAlignmentKept | Linux/driver/umd/src/utils/helper.h:32-33 | page alignment covers the byte alignment the graph asks for with less than a page to spare; what is aligned to the pages is aligned as asked if and only if the alignment divides its rounding, as powers of two do |
| Linker.SectionsAligned | Linux/driver/umd/src/context/graph/graph.cpp:841-870 | from parse to layout: in a suitable group every section whose byte alignment is a power of two lies at a multiple of it |
| Linker.WindowedFields | Linux/driver/umd/src/context/graph/graph.cpp:1295-1298 | from parse to hardware: through a window programmed with the group's address and any size that covers the group, such as the page-rounded size of its buffer, a patched value reaches its target and stays inside the window |
| Identifiers.CreateId | Linux/driver/umd/src/context/graph/graph.cpp:647-665 | counting up terminates and gives the first unused id, after at most as many steps as ids are taken |
| Identifiers.RoutesHome | Linux/driver/umd/src/context/graph/graph.cpp:64-72 | a new id shifts back to its own graph if and only if one of the graph's own 65536 ids is unused |
| Identifiers.FewIdsRouteHome | Linux/driver/umd/src/context/graph/graph.cpp:647-665 | with fewer than 65536 live ids this always holds, so ids of different graphs differ |
| Identifiers.LoadsNeverShareIds | Linux/driver/umd/src/context/context.cpp:756-800 | interleaved loads hold distinct reserved ids, none of them the id of a loaded graph |
| Identifiers.MainContext.ReserveGraphId | Linux/driver/umd/src/context/context.cpp:778-781 | the least unused id from 1 is reserved by a null entry; no call in progress holds that id |
| Identifiers.MainContext.FinishLoad | Linux/driver/umd/src/context/context.cpp:783-795 | the calling load's own step: its reservation is filled or erased, every other call in progress keeps its own distinct reserved id, so the histories of `LoadsNeverShareIds` are those of the class |
| Identifiers.MainContext.UnloadGraph | Linux/driver/umd/src/context/context.cpp:802-835 | unloading removes a loaded graph only, never an entry reserved by a load in progress |
| ThreadBuffers.Graph.AddThreadBuffer | Linux/driver/umd/src/context/graph/graph.cpp:1048-1052 | a new buffer gets an unused handle, which routes home with fewer than 65536 live entries |
| ThreadBuffers.Graph.Free | Linux/driver/umd/src/context/graph/graph.cpp:1099-1178 | freeing is refused for unknown and for taken buffers |
| ThreadBuffers.Graph.Build | Linux/driver/umd/src/context/graph/graph.cpp:1185-1312 | building takes the buffer, keeps it taken when patching fails, and files the job under the counter's id |
| ThreadBuffers.Graph.Flush | Linux/driver/umd/src/context/graph/graph.cpp:1314-1365 | flushing schedules a built job; a refused job loses its state while the call succeeds |
| ThreadBuffers.Graph.Update | Linux/driver/umd/src/context/graph/graph.cpp:1555-1573 | the job takes the reported state |
| ThreadBuffers.Graph.Clean | Linux/driver/umd/src/context/graph/graph.cpp:1618-1660 | cleaning an ended job returns its buffer and removes it from table and queue |
| ThreadBuffers.CleansExactly | Linux/driver/umd/src/context/graph/graph.cpp:1622-1658 | a job is cleaned exactly if it is neither built nor scheduled; the refusals say which and change nothing |
| ThreadBuffers.FlushesExactly | Linux/driver/umd/src/context/graph/graph.cpp:1314-1365 | a job is handed to the kernel exactly if it is built, and no buffer changes hands |
| ThreadBuffers.BuildsExactly | Linux/driver/umd/src/context/graph/graph.cpp:1185-1209 | a job is built exactly on a free buffer that can be patched |
| ThreadBuffers.FreesExactly | Linux/driver/umd/src/context/graph/graph.cpp:1099-1178 | a buffer is freed exactly if it is there, free, and the kernel frees it |
| ThreadBuffers.RemovesFirst | Linux/driver/umd/src/context/graph/graph.cpp:164-175 | the first entry with that id leaves the schedule queue, the others keep their order |
| ThreadBuffers.RunningJobKeepsBuffer | Linux/driver/umd/src/context/graph/graph.cpp:1635-1639 | in every run a scheduled job stays so, with its buffer taken and its id given to nobody else, until a report moves it on; cleaning, flushing again, freeing and building on its buffer are refused meanwhile |
| ThreadBuffers.BuiltJobKeepsBuffer | Linux/driver/umd/src/context/graph/graph.cpp:1629-1633 | likewise for a built job until it is flushed or reported on |
| ThreadBuffers.ExclusiveInvariant | Linux/driver/umd/src/context/graph/graph.cpp:1203-1209 | over every sequence of calls every job's buffer is present and taken, and no two jobs share one |
| ThreadBuffers.LiveJobsGuardTheirBuffers | Linux/driver/umd/src/context/graph/graph.cpp:1110-1114 | in every reachable state a live job's buffer can be neither freed nor built on, and cleaning always finds it, so the null test at 1646 never fires |
| ThreadBuffers.BufferHeldUntilCleaned | Linux/driver/umd/src/context/graph/graph.cpp:1643-1651 | a built job keeps its buffer until it is cleaned or its id is given away |
| ThreadBuffers.NewJobIdIsTaken | Linux/driver/umd/src/context/graph/graph.cpp:177-214 | the id given to a new job is already in the table if and only if a job in state timeout or no-state comes before the first gap of the graph's ids |
| ThreadBuffers.OrphanedExactly | Linux/driver/umd/src/context/graph/graph.cpp:1185-1312 | a call leaves a buffer taken without a job if and only if it is a build on it whose patching fails, or a build whose id replaces the job that uses it |
| ThreadBuffers.OrphanedForever | Linux/driver/umd/src/context/graph/graph.cpp:1643-1651 | in every run a buffer that is taken without a job stays so: it can be neither freed nor built on again |
| ThreadBuffers.LosingRun | Linux/driver/umd/src/context/graph/graph.cpp:657-665 | a run of six calls that reaches this: a job times out, the next build is given its id, and the buffer is lost |

## Left out

- Kernel and hardware input and output: register access beyond the values written by the trigger, DMA and memory mapping, copying to and from user space, wait queues, sysfs and device tree probing. The hardware is an idle flag and completion events.
- Failing allocations of small kernel objects; they are taken to succeed.
- The logic-reset branch of job invalidation, which the shipped configuration disables.
- Jobs that have already ended when their session is cancelled: the code leaves them valid, so they count as any other completed job; what their session still is by then is not modelled.
- The lifetime of session objects while the bottom half reports a job without the lock; a session is identified by its process id.
- Linked list nodes: block lists, buffer lists and job queues are sequence fields that methods reassign, so the model says nothing about node memory.
- Freeing a region and tearing down the memory manager; allocation from SRAM, which the shipped configuration does not enable, although SRAM regions are registered and frees are routed to them.
- Host virtual addresses of kernel buffers and their mapping into a process.
- ASE 0 translation, whose low base register is always written as 0.
- The address patches of linked-list descriptors (version 4 node list) in `build_new_job`; the node list itself is parsed.
- Relocation.PatchRodata: at an accepted word that crosses the end of the buffer the model stops with `StrayWrite`; what the source's store does to the memory behind is not described. On a buffer of whole words no word-aligned offset gets there.
- Regions.Region.TryAlloc: strict requests above 2^63, for which the kernel's rounding is undefined, are excluded.
- Layout.GetAlignedAddr: an aligned address at or above 2^32, where the products wrap, is excluded; for a power of two the source's loop does not stop there.
- Layout.Simulation.AllocDataBuffer: the group summaries kept for dumping are not modelled, and an empty reuse list, on which the source reads its first element, is not excluded.
- The header checks of `parse_graph_header` and the target match, which are independent tests on single fields.
- `Graph::unload`, which erases from the map it iterates over and can stop half way.
- ThreadBuffers.Graph.Build: a failing patch leaves the buffer taken, as in the source, so only "a job implies a taken buffer" is claimed and not the converse.
- ThreadBuffers.Graph.Free: the individual frees of a buffer's parts are one answer of the kernel.
- Calls on one buffer handle are sequential; the source tests and sets the free flag without a lock.
- Dumping, file helpers, simulator command generation, profiling data, the printf ring, the API wrappers and the tables of other hardware versions.
