# MiniCore-OS: a verified model

This project models the parts of the MiniCore-OS kernel whose correctness rests on state
that several functions share, and proves what those functions promise together.

- **Kernel heap** (`mm.c`). A first-fit allocator that splits, coalesces and moves blocks
  inside one 1 MB region. `Heap.KernelHeap` keeps that region as an array of bytes:
  16-byte headers of four little-endian words, linked by absolute pointers, are read and
  written in place. `HeapMemory` says when those bytes hold a given list of blocks;
  `HeapSpec` says what each call does to the list and to the 32-bit counters.
  `HeapLaws`, `HeapRoom`, `HeapCanonical`, `HeapRuns`, `HeapCallLaws` and `HeapTheorems` prove
  what follows: for single calls, for pairs of calls, and for every run of calls from `mm_init`.
- **Scheduler** (`scheduler.c`). Eight task blocks, a ready queue threaded through their
  `next` fields, and the steps tick, create, yield, sleep and exit. `Scheduler.TaskScheduler`
  is proved to implement the transition system of `SchedulerSpec`, and `SchedulerLaws` says what
  each step does to the task it is about and to everybody else. Over every run,
  `SchedulerTheorems` has coherence, `SchedulerWaiting` waiting times, `SchedulerSleeping`
  wake-up times and `SchedulerResponse` the two together; `SchedulerExamples` has runs from
  `scheduler_init` on which they fall short.
- **Terminal** (`kernel.c`). The 80 by 25 screen is a window on the unbounded wrapped layout
  of everything printed (`TerminalLayout`, `Terminal`), and printed numbers read back as
  themselves (`Numbers`).
- **Shell** (`shell.c`). The in-place tokenizer and the command table (`Tokens`, `Shell`) and
  the keyboard-driven line editor (`LineEditor`) on top of the terminal.
- **File store** (`fs.c`). Sixteen fixed slots that behave as a finite map (`FileStore`), with
  the pointer loops on C strings that the shell uses too (`CStrings`).

The methods of the classes are tied to functions of the old state: the block list and
counters, the task table and queue, the printed text, the line being typed, the stored
files. Of the memory itself they say which bytes are kept, copied, cleared or stored. The
lemmas are about those functions. Where the code does not keep a property it is expected
to keep, one lemma says exactly when it does, and another gives an input or a run for
which it does not:

| property | kept exactly when | fails for |
|---|---|---|
| `kmalloc` hands out as many bytes as asked for | `KmallocRoomIff`: the request is at most 0xFFFFFFF8 | `WrappedRequestSucceeds` |
| `kcalloc` clears only memory it was given | `ClearFitsIff`: the product is at most 0xFFFFFFF8 or at least 2^32, or no block is free | `ClearsTooMuch` |
| a moving `krealloc` copies only into memory it was given | `MoveRoomIff`: the new size is at most 0xFFFFFFF8, or the first free block happens to hold the old contents | `MoveOverruns` |
| `kmalloc_aligned` writes only into memory it was given | `SlotFitsIff`: the block its total is given, as cut, reaches the least multiple of the alignment that leaves four bytes | `AlignedTooSmall` |
| the range after `kmalloc_aligned` lies in its block | `AlignedRoomIff`: the padded total is at most 0xFFFFFFF8 | `AlignedTooSmall` |
| an in-place `krealloc` keeps headers 8-aligned and free blocks apart | `ShrinkTidyIff`: it cuts nothing off, or the new size is a multiple of 8 and the next block is in use | `TrimBreaksTidiness` |
| `kfree` of a pointer from `kmalloc_aligned` releases it | never: `AlignedNotLive` | `AlignedFreeCorrupts` |
| `used_memory` is the bytes in use | `UsedExactIff`: the bytes cut off by in-place `krealloc` are 0 modulo 2^32 | `TrimBreaksTidiness` |
| `kfree` undoes `kmalloc` | `FreeUndoesKmalloc`: the block taken has no free neighbour | `TrimBreaksUndo` |
| sleep and exit keep the queue and the states in agreement | `SleepCoherentIff`, `ExitCoherentIff`: the current task is not queued, or heads the queue | `EarlyTick` |
| a queued task runs within ten counted ticks a place | `FairIff`: there is a current task and its slice counter is in 1..10 | `BootedNeedsYield` (no current task), `StarvedFromBoot` (slice run out) |
| a task sleeps as long as it asked | `FullSleepIff`: it does not head the queue, and the wake-up time does not wrap; at the clock's last value, the request is not 0 | `Resleep` (heads the queue), `ShortSleep` (wraps) |
| backspace undoes a key | `BackspaceUndoesKeyIff`: the buffer had room for the key | `FullBuffer` |
| the screen follows the line | `ScreenFollowsLineIff`: no backspace met the first column | `BackspaceLeavesCharacter` |

## Model

| member | source | states |
|---|---|---|
| Heap.KernelHeap.constructor | mm.c:45-63 | whatever the memory held, the heap starts as one free block over all of it, with the counters to match |
| Heap.KernelHeap.FindFreeBlock | mm.c:76-87 | walking the stored links ends, and finds the first free block that is large enough |
| Heap.KernelHeap.SplitBlock | mm.c:90-105 | the header writes turn one block into two over the same span; no byte of another payload or of the part that is kept changes |
| Heap.KernelHeap.MergeWithNext | mm.c:109-117 | takes in every free block that follows, and stops at one in use |
| Heap.KernelHeap.MergeWithPrevious | mm.c:119-128 | the free blocks before it take it in, back to one in use |
| Heap.KernelHeap.MergeFreeBlocks | mm.c:108-129 | the whole maximal run of free blocks becomes a single block; no payload byte in use changes |
| Heap.KernelHeap.Kmalloc | mm.c:132-158 | first fit, split, mark and count; no byte of a live payload changes, and on failure no byte at all |
| Heap.KernelHeap.Release | mm.c:212-221 | the released block and its free neighbours become one free block, its flag still reads free, and the byte counters move by its size |
| Heap.KernelHeap.Kfree | mm.c:199-222 | frees a live block and coalesces; NULL and a second free of the same pointer change nothing; no live payload byte changes |
| Heap.KernelHeap.Memset | mm.c:14-20 | the given range holds the value and nothing else changes |
| Heap.KernelHeap.Memcpy | mm.c:22-29 | every target byte, for overlapping ranges too; a plain copy unless the target begins inside the source; nothing else changes |
| Heap.KernelHeap.Kcalloc | mm.c:184-196 | wherever the clearing loop stays inside its block: a result is a live block whose first count*size bytes are zero; every other live payload keeps its bytes |
| Heap.KernelHeap.KmallocAligned | mm.c:161-181 | wherever the slot below the result lies in the raw block: the result is aligned, the slot holds that block's pointer, and the requested range lies in the block exactly when the padded total does not wrap |
| Heap.KernelHeap.Move | mm.c:243-250 | the new block begins with the old block's bytes; a failed move leaves every byte as it was |
| Heap.KernelHeap.Krealloc | mm.c:225-251 | wherever a move copies into its new block: keeps the first min(old block size, new size) bytes whether it shrinks or moves, and every other live payload |
| Heap.KernelHeap.MmGetStats | mm.c:254-267 | largest_free_block is the size of the largest free block |
| Heap.KernelHeap.MmCheckHeapIntegrity | mm.c:307-329 | on any memory whose headers lead to a NULL: returns 1 exactly if every link back matches and the 32-bit sum of the sizes is at most the heap; on every valid heap it does, and the sum is exactly the heap |
| Heap.KernelHeap.CheckChain | mm.c:311-328 | the same of its loop |
| Heap.KernelHeap.Perform | mm.c:132-251 | every legal call on the bytes is a step of the abstract runs, and keeps the payloads of the blocks it is not about |
| Heap.KernelHeap.PerformAll | mm.c:132-251 | over a whole run of calls interleaved with writes to live blocks, every block that no call frees or reallocates stays in use, and its bytes are what its own writes have made of them |
| Heap.KernelHeap.WriteByte | mm.c:132-158 | a write inside a live payload keeps the heap and every other payload |
| HeapMemory.CutStoresCut | mm.c:92-103 | the words written by a split hold the split list |
| HeapMemory.HeaderBytes | mm.h:19-24 | where a header lies in memory: size, flag, next and previous as four little-endian words at offsets 0, 4, 8 and 12 |
| HeapMemory.AbsorbStoresMerge | mm.c:110-116 | the words written by one merge step hold the merged list |
| HeapMemory.PayloadWriteKeeps | mm.c:190-193 | writing inside one payload disturbs no header and no other payload |
| HeapMemory.MoveKeeps | mm.c:244-248 | allocate, copy and free together keep the old contents and everyone else's |
| HeapBlocks.PayloadsDisjoint | mm.c:90-105 | no address lies in two payloads or outside the heap |
| HeapBlocks.CollapseTiles | mm.c:108-129 | merging keeps every block ending where the next begins |
| HeapLaws.RoundUpIsNextMultiple | mm.c:137-138 | rounding gives the next multiple of 8, and 0 exactly for the seven largest sizes |
| HeapLaws.KmallocTakes | mm.c:132-158 | either nothing changes, or exactly one new block of round8(n) to round8(n)+48 bytes goes into use |
| HeapLaws.KmallocKeepsLive | mm.c:132-158 | live pointers keep their blocks, and the new pointer is none of them |
| HeapLaws.KfreeReleases | mm.c:199-222 | exactly the freed block goes out of use, and its pointer is no longer live |
| HeapLaws.OverflowCheck | mm.c:185-188 | the wrapped product divided by count gives size back exactly when the product fits 32 bits |
| HeapLaws.AlignmentTest | mm.c:162-164 | the bit test rejects exactly the alignments that are not powers of two |
| HeapLaws.AlignedAddress | mm.c:173-175 | the masked address is the least multiple of the alignment that leaves four bytes below it |
| Machine.PowerOfTwoTest | mm.c:162 | x & (x - 1) is 0 exactly for powers of two |
| Machine.MaskRoundsDown | mm.c:174 | masking with ~(a - 1) rounds down to a multiple of a |
| HeapRoom.KmallocRoomIff | mm.c:138 | the block handed out holds the request exactly when rounding did not wrap |
| HeapRoom.WrappedRequestSucceeds | mm.c:138-157 | a fresh heap answers a request for 2^32-1 bytes with a block of none |
| HeapRoom.KcallocRoomIff | mm.c:184-196 | a block from kcalloc holds the product exactly when rounding did not wrap |
| HeapRoom.ClearFitsIff | mm.c:184-196 | when the clearing loop stays inside its block, as a condition on the product and the free blocks |
| HeapRoom.ClearsTooMuch | mm.c:184-193 | kcalloc(1, 2^32-1) on a fresh heap is given no bytes to clear |
| HeapRoom.WrappedTakesFirstFree | mm.c:138-149 | a request that rounds to nothing takes the first free block, cut to nothing if larger than 48 bytes |
| HeapRoom.MoveRoomIff | mm.c:243-247 | the block a krealloc moves to holds the old contents exactly when the size does not wrap or the first free block happens to hold them |
| HeapRoom.MoveOverruns | mm.c:243-247 | kmalloc(100) and krealloc to 2^32-1 bytes: 104 bytes copied into a block of none |
| HeapRoom.AlignedRoomIff | mm.c:166-178 | the aligned range fits its block exactly when the padded total does not wrap |
| HeapRoom.AlignedTooSmall | mm.c:166-178 | a total of 0xFFFFFFFC: the raw block is empty and the slot lies past it |
| HeapRoom.SlotFitsIff | mm.c:166-178 | when the slot below the result lies in the raw block, as a condition on the list, the total and the alignment |
| HeapRoom.PaddedSlotFits | mm.c:166-178 | without wrap it always does |
| HeapRoom.AlignedNotLive | mm.c:174-205 | an aligned pointer is never the pointer of a block while the raw block is in use, so kfree cannot release it |
| HeapCanonical.FreeIs | mm.c:108-129 | a free replaces the run around the block by one block over the same span, and nothing else |
| HeapCanonical.AllocCanonical | mm.c:132-158 | allocation never leaves two free blocks touching |
| HeapCanonical.FreeCanonical | mm.c:199-222 | nor does freeing |
| HeapCanonical.TrimCanonical | mm.c:237-240 | shrinking in place does, exactly when the next block is free |
| HeapCanonical.CanonicalUnique | mm.c:108-129 | without touching free blocks, the list is a function of the blocks in use |
| HeapCanonical.FreeUndoesAlloc | mm.c:132-222 | freeing what was just allocated restores the list exactly when the block had no free neighbour |
| HeapCanonical.FreeListsCommute | mm.c:199-222 | freeing two blocks gives the same list in either order, on every list |
| HeapCanonical.LastFreeRestoresHeap | mm.c:199-222 | freeing the last block in use leaves the block mm_init made |
| HeapRuns.BytesFillHeap | mm.c:307-329 | bytes in use, bytes free and headers add up to the heap size |
| HeapRuns.CallLedger | mm.c:151-248 | every call keeps the counters in agreement with the list, up to the bytes trimmed in place |
| HeapRuns.RunLedger | mm.c:58-248 | so does every run of calls: used+free and allocations-frees are as they should be modulo 2^32 |
| HeapRuns.DrainedHeapIsInitial | mm.c:51-251 | after any run, a heap with nothing in use is the single block it started as |
| HeapRuns.RunKeepsBlocks | mm.c:132-251 | blocks that a run neither frees nor reallocates stay in use at the same address and size |
| HeapRuns.AlignedNeverFreed | mm.c:161-180 | over any abstract run that leaves the raw block alone, the aligned pointer is never that of a block in use |
| Heap.AlignedFreeCorrupts | mm.c:161-221 | what the code does then: on a fresh heap, kfree of kmalloc_aligned(8, 8) finds a clear flag among the links of the first header, and its first write leaves memory that holds no block list |
| HeapRuns.LastWriteWins | mm.c:132-251 | a byte of a block reads back as its owner last wrote it |
| HeapCallLaws.InitLaw | mm.c:45-63 | one free block of 0xFFFF0 bytes at 0x200000, all counters but free_memory 0 |
| HeapCallLaws.KmallocLaw | mm.c:132-158 | succeeds exactly for nonzero requests that some free block holds; the lowest such block gives way to one in use, cut to the rounded size if more than 48 bytes are left over, and to a free one behind it; otherwise nothing changes |
| HeapCallLaws.KfreeLaw | mm.c:199-222 | the block leaves the blocks in use, its run becomes one free block, the counters move by its size |
| HeapCallLaws.KreallocZeroFrees | mm.c:230-233 | size 0: the block goes out of use, num_frees goes up, the result is NULL |
| HeapCallLaws.KreallocInPlace | mm.c:235-241 | a size that fits: the pointer stays, the block is cut if more than 48 bytes are to spare, no counter changes |
| HeapCallLaws.KreallocMoves | mm.c:243-250 | a larger size with room: the old block gives way to a new one carved from the lowest fitting block, both call counters go up |
| HeapCallLaws.KreallocFails | mm.c:243-250 | a larger size without room: NULL, nothing changes |
| HeapCallLaws.KreallocNullAllocates | mm.c:226-228 | krealloc of NULL is an allocation |
| HeapCallLaws.KcallocLaw | mm.c:184-196 | succeeds exactly for products from 1 to 2^32-1 that some free block holds, with the lowest such block; otherwise nothing changes |
| HeapCallLaws.KmallocAlignedLaw | mm.c:161-181 | succeeds exactly for powers of two whose padded total modulo 2^32 is not 0 and fits; the result is the least multiple at least four bytes into the block |
| HeapTheorems.KmallocIsFirstFit | mm.c:76-158 | succeeds exactly when some free block fits, and takes the lowest |
| HeapTheorems.KmallocSucceedsIff | mm.c:132-158 | for requests up to 0xFFFFFFF8, exactly when the rounded request is at most the largest free block |
| HeapTheorems.FreeUndoesKmalloc | mm.c:132-222 | the byte counters always come back, the list exactly when the block had no free neighbour |
| HeapTheorems.CanonicalFreeUndoesKmalloc | mm.c:132-222 | so on runs without in-place shrinking it always comes back |
| HeapTheorems.FreesCommute | mm.c:199-222 | two frees give the same heap and counters in either order |
| HeapTheorems.RunTidy | mm.c:132-251 | runs that trim nothing keep free blocks apart and headers 8-aligned |
| HeapTheorems.UntrimmedRun | mm.c:45-251 | and their byte counters are exact |
| HeapTheorems.SameLiveSameHeap | mm.c:45-251 | two such runs with the same blocks in use end with the same heap |
| HeapTheorems.UsedExactIff | mm.c:151-240 | over all runs, used_memory is exact exactly when the trimmed bytes are 0 modulo 2^32 |
| HeapTheorems.CutAlignedIff | mm.c:90-105 | a cut keeps headers 8-aligned exactly when its size is a multiple of 8 |
| HeapTheorems.ShrinkTidyIff | mm.c:237-240 | an in-place krealloc keeps headers aligned and free blocks apart exactly when it cuts nothing, or cuts at a multiple of 8 before a block in use |
| HeapTheorems.TrimBreaksTidiness | mm.c:237-240 | kmalloc(100) and krealloc to 1 byte: touching free blocks, an unaligned header, 103 bytes overcounted |
| HeapTheorems.TrimBreaksUndo | mm.c:237-240 | after them, kmalloc(8) and kfree leave a different block list |
| Scheduler.TaskScheduler.constructor | scheduler.c:34-45 | all slots free, queue empty, clock at zero |
| Scheduler.TaskScheduler.TaskQueueAdd | scheduler.c:99-109 | the links spell out the old queue with the task at its end |
| Scheduler.TaskScheduler.TaskQueueRemoveNext | scheduler.c:112-126 | returns the head and leaves the rest linked, NULL on an empty queue |
| Scheduler.TaskScheduler.RunNext | scheduler.c:157-173 | dispatches the head, requeues a running current task with a full slice, does nothing on an empty queue |
| Scheduler.TaskScheduler.SwitchToTask | scheduler.c:176-185 | the task runs with a full slice and is current |
| Scheduler.TaskScheduler.TaskCreate | scheduler.c:55-96 | takes the first free slot and queues it, or returns 0 and changes nothing |
| Scheduler.TaskScheduler.WakeSleepers | scheduler.c:136-143 | every due sleeper, and nobody else, becomes ready and joins the queue in slot order |
| Scheduler.TaskScheduler.SchedulerTick | scheduler.c:129-154 | wakes due tasks in slot order, then counts the slice down and dispatches at zero |
| Scheduler.TaskScheduler.TaskYield | scheduler.c:196-198 | dispatches the next task |
| Scheduler.TaskScheduler.TaskSleep | scheduler.c:201-207 | the current task sleeps until the wrapped sum, and the next one runs; queue and states agree afterwards exactly when the current task was not queued, or headed the queue |
| Scheduler.TaskScheduler.TaskExit | scheduler.c:210-216 | the current slot is freed and the next task runs; the same condition |
| SchedulerTheorems.RunCoherent | scheduler.c:55-216 | over every legal run the queue holds exactly the ready tasks, once each, and only the current task runs |
| SchedulerTheorems.BootedRunCoherent | scheduler.c:34-216 | so it does over every legal run from scheduler_init |
| SchedulerTheorems.CreateCoherent | scheduler.c:55-96 | reusing a slot cannot corrupt the queue |
| SchedulerTheorems.TickCoherent | scheduler.c:129-154 | a tick keeps queue and states in agreement |
| SchedulerTheorems.ScheduleCoherent | scheduler.c:157-185 | so does a dispatch |
| SchedulerTheorems.SleepCoherentIff | scheduler.c:201-207 | task_sleep does exactly when the current task is not queued, or heads the queue |
| SchedulerTheorems.ExitCoherentIff | scheduler.c:210-216 | the same for task_exit |
| SchedulerLaws.ScheduleLaw | scheduler.c:157-193 | the head of the queue runs, a running current task goes to the tail, both with ten ticks; nobody else changes, and with nobody waiting nothing does |
| SchedulerLaws.SleepLaw | scheduler.c:201-207 | the caller sleeps until the given time, the head of the queue runs, nobody else changes; a caller that heads the queue runs on |
| SchedulerLaws.ExitLaw | scheduler.c:210-216 | the caller's slot is terminated, the head of the queue runs or there is no current task, nobody else changes; a caller that heads the queue runs on |
| SchedulerLaws.ExitEndsForGood | scheduler.c:210-216 | a task that ends never runs again and its slot stays free, over every run that creates no task |
| SchedulerLaws.EndedForGood | scheduler.c:55-216 | the same for every free slot |
| SchedulerLaws.CreateLaw | scheduler.c:55-96 | the lowest free slot gets a ready task with ten ticks at the tail of the queue, whose number is returned; without one nothing happens and 0 is |
| SchedulerLaws.RunNumbered | scheduler.c:70-95 | until 2^32-1 numbers have been given out, the tasks in the table have different ones, none of them 0 |
| SchedulerLaws.TickLaw | scheduler.c:129-154 | the clock advances, due sleepers become ready; after 100 ticks the current task's counter goes down, and a dispatch follows at zero |
| SchedulerWaiting.TickBringsCloser | scheduler.c:129-173 | each counted tick takes exactly one off a waiting task's remaining wait, the ticks of the warm-up nothing |
| SchedulerWaiting.OthersNeverDelay | scheduler.c:55-216 | no other call adds to it |
| SchedulerWaiting.BoundedWaiting | scheduler.c:99-216 | whatever happens in between, and however the clock wraps, a queued task runs within its wait: the current slice plus ten counted ticks a place |
| SchedulerWaiting.ExactWait | scheduler.c:129-173 | with ticks alone it does not run before that many are counted, and runs at the one that completes them |
| SchedulerWaiting.FairIff | scheduler.c:145-153 | every run of ten counted ticks a place lets the queued task run exactly when there is a current task and its slice counter is in 1..10 |
| SchedulerWaiting.IdleNeverRuns | scheduler.c:146 | without a current task no task runs over any run without a yield |
| SchedulerWaiting.BootedNeedsYield | scheduler.c:34-154 | from scheduler_init no task runs until the first yield, whatever is created and however long the timer ticks |
| SchedulerWaiting.LastExitIdles | scheduler.c:210-216 | when the running task ends with nobody queued there is no current task again |
| SchedulerWaiting.ExpiredSliceStarves | scheduler.c:147-162 | a slice that expires with nobody waiting keeps the next task created from running until 2^32 ticks are counted, with ticks alone |
| SchedulerExamples.StarvedFromBoot | scheduler.c:147-162 | from scheduler_init: a second task created 110 ticks after the first was dispatched waits that long |
| SchedulerExamples.EarlyTick | scheduler.c:137-143 | from scheduler_init: a lone sleeper woken behind a new task, after which neither sleep nor exit keeps the queue in agreement |
| SchedulerSleeping.TickWakes | scheduler.c:136-143 | a tick wakes a sleeper exactly when its time has come |
| SchedulerSleeping.AsleepExactly | scheduler.c:129-216 | a sleeper stays asleep through every run of too few ticks for the clock to reach its wake-up time, and is awake from then on |
| SchedulerSleeping.SleepWakes | scheduler.c:201-207 | from every legal call of task_sleep: asleep through fewer ticks than it takes the clock to reach the wake-up time, awake from then on; a caller that heads the queue does not sleep at all |
| SchedulerSleeping.FullSleepIff | scheduler.c:201-207 | over every run the sleep lasts exactly the ticks asked for, one at least, exactly when the caller does not head the queue and the wake-up time does not wrap (at the clock's last value: when some were asked for) |
| SchedulerExamples.Resleep | scheduler.c:201-207 | from scheduler_init: a lone task, woken, asks to sleep again and runs on at once, whatever it asked for |
| SchedulerResponse.AwakeRuns | scheduler.c:129-173 | an awake task runs within eighty counted ticks, given a current task with slice left |
| SchedulerResponse.SleepsThenRuns | scheduler.c:129-207 | after task_sleep the caller does not run before its sleep is over, and within eighty counted ticks after it, given then a current task with slice left |
| SchedulerExamples.ShortSleep | scheduler.c:204 | from scheduler_init: asking for 2^32-1 ticks at tick 1 yields one |
| SchedulerSleeping.WokenJoinInSlotOrder | scheduler.c:137-143 | tasks woken together queue behind everyone, in slot order |
| Terminal.VgaTerminal.constructor | kernel.c:56-67 | an empty output shows a screen of blanks in light grey on black, with the cursor at the top left |
| Terminal.VgaTerminal.PutEntryAt | kernel.c:73-76 | exactly one cell changes |
| Terminal.VgaTerminal.ScrollUp | kernel.c:118-133 | every cell, colour included, takes the one below it, the bottom line is blank in the current colour |
| Terminal.VgaTerminal.PutChar | kernel.c:78-96 | after any output the screen is the last 25 rows of its layout and the cursor stands at its end; exactly one cell is written, in the current colour, and a full screen scrolls at the end of its last row |
| Terminal.VgaTerminal.Write | kernel.c:98-105 | the characters are appended in order |
| Terminal.VgaTerminal.Clear | kernel.c:107-116 | the output starts over |
| Terminal.VgaTerminal.EraseLast | shell.c:225-230 | takes back the last character printed, unless the cursor is in the first column |
| TerminalLayout.LayoutStep | kernel.c:78-96 | one more character changes the layout only at its end |
| TerminalLayout.LayoutNewline | kernel.c:79-86 | a newline ends a line: what follows is laid out on rows of its own |
| TerminalLayout.LayoutLine | kernel.c:88-95 | text without newlines fills rows of eighty, in order |
| TerminalLayout.ShownLaw | kernel.c:73-76 | the cell at row y and column x shows that place in the last 25 rows, a space where they hold nothing |
| Terminal.VgaEntryLaw | kernel.c:34-36 | the character is the low byte of a cell, the colour the high byte |
| TerminalLayout.LayoutWidths | kernel.c:89-90 | no row is wider than 80 and the cursor's row is never full |
| TerminalLayout.WrapLineKeepsText | kernel.c:88-95 | wrapping loses and reorders nothing, and only the last row is short |
| Numbers.WriteDec | kernel.c:159-177 | prints the decimal form |
| Numbers.DecimalRoundTrip | kernel.c:159-177 | at most ten digits, no leading zero, and they read back as the number |
| Numbers.CountDigits | fs.c:174-179 | counts exactly the digits that are printed |
| Numbers.WriteHex | kernel.c:145-156 | prints the eight hexadecimal digits |
| Numbers.HexRoundTrip | kernel.c:145-156 | exactly eight characters, each 0 to 9 or A to F, which read back as the number |
| Tokens.SpansAreMaximalRuns | shell.c:260-283 | the words are exactly the maximal runs of characters other than space and tab |
| Tokens.SpansOrdered | shell.c:260-283 | from left to right, without overlap |
| Tokens.JoinRoundTrip | shell.c:260-283 | words joined by single spaces split into the same words |
| Shell.ParseCommand | shell.c:260-283 | argv holds the first max_args-1 words as intact C strings, then NULL; only blanks are overwritten |
| Shell.FindCommand | shell.c:59-293 | the table entry of that name, -1 exactly for names the table lacks |
| Shell.CmdEcho | shell.c:354-361 | prints the arguments joined by single spaces, and a newline |
| Shell.JoinMore | shell.c:355-358 | one space before every argument but the first |
| Shell.ArgvLaw | shell.c:260-283 | the first fifteen words, or all of them |
| Shell.RetypedEcho | shell.c:260-361 | "echo " and what echo printed parse into the same arguments |
| LineEditor.KeysArePrintable | shell.c:35-56 | the scancode tables hold printable characters or 0 |
| LineEditor.KeyboardLaw | shell.c:35-56 | the character of every key, row by row, with and without Shift |
| LineEditor.OtherKeys | shell.c:35-56 | no other key has one |
| LineEditor.KeyLaw | shell.c:165-257 | what each kind of key does to the line |
| LineEditor.ModifiersLaw | shell.c:173-193 | Shift and Ctrl are as their last press or release left them, over every sequence of keys |
| LineEditor.EnterLaw | shell.c:243-318 | what Enter prints: for no words, for echo, for clear, for a word that is no command, and for the other commands |
| LineEditor.LineEditor.Backspace | shell.c:220-232 | the last character leaves the line, and the screen unless the cursor is in the first column |
| LineEditor.LineEditor.ClearBuffer | shell.c:212-217 | every byte of the buffer is NUL |
| LineEditor.LineEditor.ProcessInput | shell.c:249-256 | a printable character that fits is appended and echoed, anything else ignored |
| LineEditor.LineEditor.ProcessLine | shell.c:243-248 | the line's words are run, the buffer cleared, the prompt printed |
| LineEditor.LineEditor.Execute | shell.c:296-318 | the words are those of the line as typed: the tokenizer always finds its NUL, and overwrites only blanks |
| LineEditor.LineEditor.Dispatch | shell.c:308-317 | echo prints, clear starts the screen over, an unknown name gives its message, any other built-in prints its text |
| LineEditor.LineEditor.HandleScancode | shell.c:165-209 | line, modifiers and output follow the pure editor, and every byte from the position on is NUL |
| LineEditor.LineEditor.Run | shell.c:321-328 | over every sequence of scancodes the buffer and the output are the folds of the keys |
| LineEditor.RunKeepsLine | shell.c:242-257 | the line stays printable and shorter than the buffer |
| LineEditor.TypedText | shell.c:173-256 | typing text appends it, up to 255 characters |
| LineEditor.BackspaceUndoesKeyIff | shell.c:220-256 | backspace undoes a key exactly when the key had found room |
| LineEditor.FullBuffer | shell.c:220-256 | 255 characters, a key and a backspace: one of the 255 is gone |
| LineEditor.ScreenFollowsLineIff | shell.c:220-256 | over every sequence of keys without Enter, the output ends with the line exactly if no backspace met the first column |
| LineEditor.BackspaceLeavesCharacter | shell.c:225-230 | seventy characters after the prompt, then backspace: the character stays on the screen |
| LineEditor.KeyFor | shell.c:35-56 | every printable character has a key |
| LineEditor.RetypedEchoLine | shell.c:165-361 | pressing the keys for "echo " and what echo printed runs the same command: it fits the buffer |
| LineEditor.EchoCanBeRetyped | shell.c:35-361 | and there are such keys for whatever echo printed |
| CStrings.StrCmp | fs.c:33-39 | the sign is that of dictionary order on the C strings, 0 exactly for equal ones |
| CStrings.BeforeIff | fs.c:33-39 | that order: the strings agree up to a place where the first ends or has the smaller byte |
| CStrings.StrLen | fs.c:26-31 | the length of the C string |
| CStrings.StrCpy | fs.c:41-46 | the string and its NUL are copied and nothing else changes |
| FileStore.FileSystem.Init | fs.c:49-76 | an empty store to which the demo files are added in order; a second call changes nothing |
| FileStore.FileSystem.AddFiles | fs.c:248-250 | the files are those of the abstract adds, one after the other |
| FileStore.FileSystem.FindFile | fs.c:119-131 | the first slot of that name, NULL if there is none |
| FileStore.FileSystem.Read | fs.c:205-216 | exactly the content the map has for the name, with a zero byte after it; -1 exactly for names it lacks |
| FileStore.FileSystem.AddFile | fs.c:79-116 | the files and the result code follow the abstract add; earlier regions keep their bytes, a failed add changes none, and every region is zero beyond its file |
| FileStore.AddExtendsMap | fs.c:79-116 | succeeds exactly when there is room, the file fits and the name is new; the map then gains that entry and otherwise stays |
| FileStore.AddLaw | fs.c:79-116 | which of 0, -1, -2 and -3 an add returns, and that a file is added last or not at all |
| FileStore.AllAdded | fs.c:248-315 | files that fit, with new and different names, are all added in order while there is room |
| FileStore.FirstOfNameStored | fs.c:79-116 | in any run of adds, a file that fits, finds room and is the first of its name is stored with its content |
| FileStore.DemoFilesReadable | fs.c:49-76 | after fs_init every demo file that fits, under a name of its own, is in the map that fs_read reads |
| FileStore.Lookup | fs.c:119-131 | searching the slots by name reads the map |
| FileStore.RunKeepsFiles | fs.c:79-116 | over every run of adds, at most sixteen unique names, and no stored file is moved, changed or shadowed |

## Left out

- Paging, the multiboot map and `mm_validate_pointer`: the page tables are filled but never enabled.
- Interrupt tables, port I/O, boot and task-switch code: machine state that the scheduler here does not use. The scancode is an argument of `HandleScancode`.
- Heap.KernelHeap.Kfree: pointers that are not live are excluded, results of `kmalloc_aligned` among them (`AlignedNotLive`), unless the bytes where their header would be carry a set free flag; the source takes whatever bytes lie there for a header (`AlignedFreeCorrupts`).
- Heap.KernelHeap.Kcalloc: count 0 is excluded (the source divides by it), and so are the calls whose clearing loop runs past the block, by `ClearFitsIff` exactly those without `ClearFits`.
- Heap.KernelHeap.KmallocAligned: calls whose pointer slot lies outside the raw block are excluded, by `SlotFitsIff` exactly those without `SlotFits`; by `PaddedSlotFits` their padded total exceeds 0xFFFFFFF8.
- Heap.KernelHeap.Krealloc: moves that copy past the new block are excluded, by `MoveRoomIff` exactly those without `MoveFits`.
- Heap.KernelHeap.PerformAll: frees are of live pointers or NULL, and callers write only inside what they were given.
- Alignment faults and the hardware's view of memory: words are read and written at any address, as the i686 allows.
- `total_memory` is constant and not kept; the reports printed by `mm_print_stats` are display only.
- HeapRuns.AlignedNeverFreed: speaks of abstract runs, in which freeing a pointer that is not live does nothing; `AlignedFreeCorrupts` shows what the code does.
- Scheduler.TaskScheduler.TaskSleep: coherence afterwards is stated as an if and only if, not required; runs (`LegalRun`) are of calls that keep it.
- SchedulerWaiting.BoundedWaiting: assumes a current task; without one no tick dispatches (`IdleNeverRuns`). `README.md` of the kernel calls the multitasking cooperative, the code preempts on ticks; the model follows the code.
- Task names, stacks and saved registers: they play no part in scheduling. The demo tasks are infinite loops; their scheduler calls are the steps of a run.
- Interrupts that arrive in the middle of a scheduler call: each call is one step.
- Terminal.VgaTerminal.PutChar: the screen as a whole is compared by characters; colours are stated call by call.
- LineEditor.LineEditor.Dispatch: what built-in commands other than echo and clear print is a parameter, and what else they do (allocate, start tasks, halt) is not part of it.
- LineEditor.LineEditor.HandleScancode: likewise.
- The ALT flag and the echo switch of the shell: never changed by the code.
- FileStore.FileSystem.Init: the text of the demo files is a parameter; permissions and the magic number are constants.
- Aliasing between a name or content passed to the file store and its own arrays: they are passed as values.
- The listing printed by `fs_list`, apart from its digit count.
