# Verified model of the kernel's heap, scheduler, ramdisk and string routines

This project models the parts of the kernel whose correctness is least obvious from reading them,
and proves what they are for.

* **The kernel heap** (`kernel/libk/kstdlib.c`). A boundary-tag allocator on one flat range of words.
  `KernelWords` has the tag and address arithmetic. `HeapModel` describes the heap without its words:
  which blocks there are, which are in use, and in what order the free ones are listed, with one
  invariant (`Inv`: the blocks tile the heap, the list holds each free block once, no two free blocks
  touch). `HeapWords` says when an array of words and a list head represent such a heap (`Represents`:
  equal tags at both ends of each block, links in both directions). `HeapWrites` says what each call
  writes, in terms of the words, the list head and the heap's length alone. `HeapSteps` and
  `HeapRefinement` prove that those writes refine the steps of the heap: the words afterwards represent the
  heap afterwards, and no word of another block in use has changed. The class in `KernelHeap` performs the
  source's reads and writes on the array, and its methods make exactly those writes. `HeapEffects` says once
  more what each call does to the blocks and the list, with the source's numbers and without the functions of
  the model, and proves that this is an exact account of them. `HeapContract`,
  `HeapGrowth`, `HeapShrink`, `HeapRuns` and `HeapEdge` hold what callers may rely on; `HeapExamples` has
  calls that lead to where the code falls short.
* **The scheduler** (`kernel/kernel/scheduler/scheduler.c`). `SchedulerModel` gives each call as a
  function on the scheduler's state, `Scheduler` performs it in place on arrays of processes and run
  queues, `SchedulerRuns` proves the invariant, `SchedulerTheorems` safety, sleep and quantum over whole
  runs, and `SchedulerFairness` round robin and bounded waiting. `SchedulerEffects` says what each call does
  without those functions: who is chosen, what a tick, a yield, a sleep, a block, an unblock, a kill and a new
  process change. It proves that a call leads to a state if and only if that state is so described. The numbers
  of processes and of priority levels are parameters (128 and 4 in the source).
* **The ramdisk** (`make_ramdisk.py`, `kernel/kernel/tar_fs/tar.c`). `Ramdisk` has the writer and the
  walk of the reader, `FileTable` the table that the reader fills and the lookup in it.
* **`kint_to_string`, `kmemmove`, `kmemcpy`, `kmemset`, `kstrcmp`** (`kernel/libk/kstring.c`) in
  `IntToString`, `ByteMemory` and `FileTable`.
* **The spinlock** (`kernel/kernel/synchronization_primitives/spinlock.c`) as interleaved steps of any
  number of threads, in `Spinlock`.

`dafny verify dfyconfig.toml` checks everything.

## Where the code falls short, and exactly when

* `kfree` reads the tag behind the freed block without asking whether the heap ends there
  (`kernel/libk/kstdlib.c:194`). Behind the last block it takes whatever word lies there for a tag, and the next
  two for links; the page may never have been cleared. If those links are null, what is left is a heap, and the
  right one, if and only if the allocated bit of that word is set, or the word is zero and the free list was empty
  before the call (`LastFreedBeforeNulls`). If either link leads outside the heap's range, it takes a zero
  word, a first link that is not null, and a free block before the one that is freed (`FreesAtFalseTag`).
  `LastFreeBreaksHeap` gets there with four calls, in front of a zero word, and `GarbageBreaksHeap` with three,
  in front of another one. Runs are considered with the allocated bit set in that word.
* `krealloc`, shrinking a block in front of a free one, copies the links of the free block but changes
  nothing that leads to it (`kernel/libk/kstdlib.c:343-361`). `KRealloc` shows that the words represent a
  heap afterwards if and only if the shrink gives back at most 16 words, or has no free block behind it,
  or that free block was the only one on the list. When it cuts words off behind which there is no free block,
  it also writes through the list head without looking at it (`kernel/libk/kstdlib.c:371`): if and only if the
  list is empty, that write goes through the null pointer. `ShrinkBreaksHeap` and `ShrinkGoesAstray` get
  there with four and with three calls.
* `kcalloc` multiplies in 32 bits. `CallocFits`: the block is large enough if and only if the product
  fits. `ShortCallocReached` is a request that is served with too small a block.
* A killed process stays killed, over any stretch of a run, if and only if nobody calls
  `scheduler_block_process` on it in that stretch, for that call does not look at the state it overwrites
  (`KilledThroughout`). `RevivalReached`: killed, blocked and unblocked, the first process to run can run again.
* A sleep or a kill of the idle task, which the code does not refuse, breaks the scheduler's invariant;
  no other modelled call does (`SleepInv`, `KillInv`). `IdleReached`: from the start, two kills (of the post-init
  and the init task) lead to where the idle task is the current one, and both halves of that failure are at hand.
* What `kint_to_string` leaves in a buffer can be read back if and only if the buffer is longer than the
  number's text (`BufferRoundTrip`). The last loop's one swap too many, for a negative number with an odd
  number of digits, is harmless: it swaps the middle digit with itself (`ReverseDigits`).
* A ramdisk record is as long as its own size field says if and only if the file's name is ASCII and no
  longer than 100 characters, because the padding counts characters and the encoding writes bytes
  (`RecordAligned`). The reader meets the records written if and only if that holds for all of them
  (`WalkReads`). With one accented letter for the name of the first file it reads the next size field one byte
  too early and leaves the image (`AccentedStrays`). A name of exactly 100 characters is still read back, thanks
  to the zeroed reserved bytes behind it, although the comment in `kernel/kernel/tar_fs/tar.h:19` asks for a
  terminator within the field.
* `kmemcpy`, which copies forward only, moves its range on every memory if and only if the destination does
  not start inside the source range (`ForwardIsMoveIff`).
* The spinlock excludes if and only if `expected` is cleared before each retry (`SafeIffCleared`).

## Assumptions

* The physical page allocator is a number of pages that are still to be had; a request asks it for one at a time.
* Each scheduler call is one atomic step, although the source does not hold a lock between setting a state and
  choosing the next process. Interrupts, contexts and page directories are not modelled: a switch sets the
  state of the new process and the current process number.
* In the runs considered the idle task only yields: it neither sleeps nor is killed
  (`kernel/kernel/scheduler/scheduler.c:472-483`). A process is queued once, when it is created. The timer
  frequency is set before the first process runs, and stays. At the 1000 Hz that the kernel sets
  (`kernel/kernel/scheduler/timer.h:11`) every sleep takes the ticks asked for; `SleepsExactIff` shows that this
  holds for every frequency below 2000 Hz, and for none from there on.
* The assertions in the modelled paths of the heap never fail: the conditions are asserted where they stand.
  Where a scheduler call's assertion rejects its arguments, the call changes nothing.

## Model

| member | source | states |
|---|---|---|
| `KernelWords.BytesToWords` | kernel/libk/kstdlib.h:15-17 | the least number of words that hold so many bytes |
| `HeapModel.InitInv` | kernel/libk/kstdlib.c:111-138 | the first page is a heap: tiled, listed, coalesced |
| `HeapModel.TakeInv` | kernel/libk/kstdlib.c:62-109 | serving a request, whole or split, keeps the tiling, the list's contents and maximal coalescing |
| `HeapModel.GrowInv` | kernel/libk/kstdlib.c:23-60 | a page more, stretched onto the last block or appended, keeps all of the invariant |
| `HeapModel.ReleaseInv` | kernel/libk/kstdlib.c:173-271 | freeing keeps all of the invariant in each of the four cases of neighbours |
| `HeapModel.ReleaseByHalves` | kernel/libk/kstdlib.c:194-270 | merging first with the block behind and then with the one before, as the code does, is the release as a whole |
| `HeapModel.FreeBeforeIs` | kernel/libk/kstdlib.c:226 | the block that stops where another starts is the only one that does, so one footer decides about merging to the left |
| `HeapWords.ListPosition` | kernel/libk/kstdlib.c:146-157 | what the words at a list position say: address, size at both ends, and both links |
| `HeapWords.RepresentsInNumbers` | kernel/libk/kstdlib.c:62-138 | the words represent a heap if and only if each block has its size, with bit 31 if in use, in its first and last word, blocks in use have two zero links, and listed ones the addresses, from 0xC0030000 on, of their neighbours |
| `HeapWords.NoSelfLink` | kernel/libk/kstdlib.c:224-269 | no listed block is linked to itself, as kfree asserts after each merge and after a push |
| `HeapWords.TagBefore` | kernel/libk/kstdlib.c:34-35 | the word before a block or the heap's end is the footer of the block before it, and tells if that is free |
| `HeapSteps.TakenRepresents` | kernel/libk/kstdlib.c:67-82 | the words after a block is taken whole represent the heap after it, and other blocks in use keep every word |
| `HeapSteps.SplitRepresents` | kernel/libk/kstdlib.c:84-108 | the same for a block that is split |
| `HeapSteps.StretchRepresents` | kernel/libk/kstdlib.c:34-38 | the same for a last block that becomes a page longer |
| `HeapSteps.AppendRepresents` | kernel/libk/kstdlib.c:39-50 | the same for a page that becomes a block in front of the list |
| `HeapSteps.RightMergedEncodes` | kernel/libk/kstdlib.c:194-225 | the words after the merge with the block behind show the joined block at that block's list position |
| `HeapSteps.LeftMergedListed` | kernel/libk/kstdlib.c:226-256 | the words after the merge of two listed blocks show the joined block, and the list without the right one; the head is right although it moves only when there is a next block |
| `HeapSteps.WrappedInBytes` | kernel/libk/kstdlib.c:223 | an index past the address space leads where the 32-bit byte offset leads |
| `HeapSteps.UnmarkEncodes` | kernel/libk/kstdlib.c:189-190 | clearing the two allocated bits changes the block's state and nothing else |
| `HeapRefinement.WalkFindsFirstFit` | kernel/libk/kstdlib.c:146-157 | the walk along the link words ends at the first listed block that fits, or at null if and only if none does |
| `HeapRefinement.AllocatedRight` | kernel/libk/kstdlib.c:62-109 | the writes of allocate_block take the words of a heap to those of the heap after it is served, and write nothing behind the heap |
| `HeapRefinement.GrownRight` | kernel/libk/kstdlib.c:23-60 | the same for the writes of increase_memory_pool, whichever way the last footer sends it |
| `HeapRefinement.MallocsRight` | kernel/libk/kstdlib.c:140-161 | whatever kmalloc writes, over all its rounds of walking and growing, is what the model's request asks for: heap, answer, pages used, and every block in use as it was |
| `HeapRefinement.NotSelfLinked` | kernel/libk/kstdlib.c:255 | after the merge to the left the joined block is not linked to itself |
| `HeapRefinement.ShrinksRight` | kernel/libk/kstdlib.c:331-376 | whatever krealloc writes for a size that is no larger is the intended shrink where that is safe, and nothing at all if at most 16 words are spare |
| `HeapRefinement.ShrinksWrong` | kernel/libk/kstdlib.c:337-362 | where it is not safe, the words written represent no heap |
| `HeapContract.PayloadsDisjoint` | kernel/libk/kstdlib.c:140-161 | payloads are inside the heap and pairwise disjoint |
| `HeapContract.MallocKeepsInv` | kernel/libk/kstdlib.c:140-161 | a request keeps the invariant, however often the heap grows for it |
| `HeapContract.MallocRefines` | kernel/libk/kstdlib.c:140-161 | seen as a map from payloads to lengths, a request adds one entry of at least the requested and at most 16 more words, or nothing changes |
| `HeapContract.ServesFirstFit` | kernel/libk/kstdlib.c:62-109 | the first listed block that fits serves the request; a split leaves at least 17 words in the old list position; no size reaches the allocated bit |
| `HeapContract.ReleaseRefines` | kernel/libk/kstdlib.c:173-271 | a release takes exactly one entry out of that map |
| `HeapContract.AllGivenBack` | kernel/libk/kstdlib.c:173-271 | when nothing is in use, the heap is one free block, so freeing everything leaves no fragment |
| `HeapContract.FreeUndoesMalloc` | kernel/libk/kstdlib.c:140-271 | a request served without growth and then freed restores every block; a split also the list order, and a block taken whole moves to the front |
| `HeapEffects.TakeIsEffect` | kernel/libk/kstdlib.c:62-109 | a block is taken whole, and leaves the list, if at most 16 words are spare; else it is cut to what is needed, and the rest of 17 words or more is free in its list place; nothing else changes, and no other heap fits that account |
| `HeapEffects.GrowIsEffect` | kernel/libk/kstdlib.c:23-60 | a free block at the end becomes 1024 words longer where it is listed, or a block of 1024 words comes first on the list; nothing else changes, and no other heap fits that account |
| `HeapEffects.RequestIsEffect` | kernel/libk/kstdlib.c:140-161 | a request is served from the first listed block that fits, after as many pages as it takes for one to fit, or fails with no page to be had or the heap at 2 to the 26th words; the model's request is exactly that |
| `HeapEffects.ReleaseIsEffect` | kernel/libk/kstdlib.c:173-271 | a block given back becomes one free block with the free blocks that touch it, listed where the one before stands, else where the one behind stood, else in front; nothing else changes, and no other heap fits that account |
| `HeapEffects.ShrinkIsEffect` | kernel/libk/kstdlib.c:331-376 | a shrink cuts if and only if more than 16 words are spare, and the rest joins the free block behind or comes first on the list; no other heap fits that account |
| `HeapGrowth.GrowTrailing` | kernel/libk/kstdlib.c:34-54 | growth makes the trailing free block a page longer, where it is, and changes no other block |
| `HeapGrowth.GrowFit` | kernel/libk/kstdlib.c:145-158 | after growth a request that did not fit fits the trailing block or none |
| `HeapGrowth.MallocGrowsLeast` | kernel/libk/kstdlib.c:140-161 | when nothing fits, the heap grows by the least number of pages that suffices and serves from the trailing block; if so many are not to be had it takes all it can get and fails |
| `HeapGrowth.MallocFails` | kernel/libk/kstdlib.c:140-161 | a request fails if and only if nothing fits and the pages needed exceed those obtainable |
| `HeapShrink.ShrinkInv` | kernel/libk/kstdlib.c:331-376 | a shrink keeps the invariant, coalescing included |
| `HeapShrink.ShrinkRefines` | kernel/libk/kstdlib.c:331-376 | in the map from payloads to lengths, a shrink that gives back more than 16 words sets one entry to the length asked for, and any other shrink changes none |
| `HeapShrink.CutEncodes` | kernel/libk/kstdlib.c:363-374 | the tags written by the cut show both parts, and the kept payload has not changed |
| `HeapShrink.FedForwardAlone` | kernel/libk/kstdlib.c:337-362 | the shrink into a free block that is alone on the list is right |
| `HeapShrink.FedForwardBroken` | kernel/libk/kstdlib.c:337-362 | with any other block on the list no heap at all is represented by the words left |
| `HeapRuns.ReleaseMade` | kernel/libk/kstdlib.c:173-271 | whatever kfree writes for a block in use is the model's release, if the word behind the heap is no false tag |
| `HeapRuns.ReleaseOutcome` | kernel/libk/kstdlib.c:173-271 | whatever kfree writes, in front of whatever word it can read, leaves the release under the exact condition and no heap otherwise; no other block in use changes either way |
| `HeapRuns.LastFreedBeforeNulls` | kernel/libk/kstdlib.c:173-271 | freeing the last block in front of null links leaves a heap, which is the release, if and only if the allocated bit of the word before them is set, or that word is zero and the list was empty |
| `HeapRuns.RequestedInNumbers` | kernel/libk/kstdlib.c:140-161 | what a caller of kmalloc gets, in bytes and addresses: nothing for 0 bytes, else null or the address three words into a block of the words asked for and four more, as the account of a request says |
| `HeapRuns.WrittenRight` | kernel/libk/kstdlib.c:154 | a client's write inside its payload never disturbs the allocator |
| `HeapRuns.StepIsGood` | kernel/libk/kstdlib.c:140-378 | the code's writes for one event keep the words in step with the heap, if callers give back, shrink and write to what is in use, give the last block back only with the allocated bit set in the word behind the heap, and shrink safely and without an empty list to push on |
| `HeapRuns.RunIsGood` | kernel/libk/kstdlib.c:23-271 | in every state of every run of such events, each defined by what the code writes, the words represent the heap that the model's steps lead to, and it satisfies the invariant |
| `HeapRuns.RunGivesAllBack` | kernel/libk/kstdlib.c:173-271 | whenever in a run nothing is in use any more, the words represent one free block as long as the heap, at its start, from which every request that fits the heap is served |
| `HeapRuns.NothingBehindChanges` | kernel/libk/kstdlib.c:194 | over any such run no word behind the heap is written, so a guard word set there stays until the heap grows over it |
| `HeapRuns.PayloadSurvives` | kernel/libk/kstdlib.c:62-378 | a word of a payload keeps its value over any such run that does not free, cut off or overwrite it |
| `HeapRuns.CallocFits` | kernel/libk/kstdlib.c:397-399 | a block from kcalloc holds num times size bytes if and only if the product fits in 32 bits |
| `HeapEdge.RepresentsOneHeap` | kernel/libk/kstdlib.c:111-271 | the words, the list head and the heap's length determine every block and the whole list |
| `HeapEdge.FalseTagAlone` | kernel/libk/kstdlib.c:194-225 | the merge with words behind the heap, none free before the block: the release if the tag is zero, the links null and the list empty, and no heap otherwise |
| `HeapEdge.FalseTagLeft` | kernel/libk/kstdlib.c:226-256 | both merges: the release if the tag is zero and the first link not null, and no heap otherwise |
| `HeapEdge.FalseTagTooLong` | kernel/libk/kstdlib.c:214 | a tag other than zero gives the freed block more words than the heap has left, whatever its links |
| `HeapEdge.HeadLost` | kernel/libk/kstdlib.c:199-239 | with a null first link the list head ends on a wiped word or outside, which no heap allows |
| `HeapEdge.FreesAtFalseTag` | kernel/libk/kstdlib.c:173-271 | whatever kfree writes in front of a false tag: a heap is left, and it is the release, if and only if the tag is zero and either both links are null and the list was empty, or the first link is not null and a free block stands before |
| `HeapEdge.NotSelfLinkedRight` | kernel/libk/kstdlib.c:224 | after the merge to the right no block is linked to itself, in front of a false tag either |
| `HeapEdge.NotSelfLinkedLeft` | kernel/libk/kstdlib.c:255 | the same after the merge to the left |
| `HeapExamples.UnsafeShrinkReached` | kernel/libk/kstdlib.c:337-362 | two requests and a release lead to a block whose shrink is not safe |
| `HeapExamples.ListedLastBlockReached` | kernel/libk/kstdlib.c:194-256 | two requests and a release lead to a last block in use and a list that is not empty |
| `HeapExamples.ShrinkBreaksHeap` | kernel/libk/kstdlib.c:337-362 | four calls from the start on, the last of them a shrink, after which the words represent no heap |
| `HeapExamples.ShrinkGoesAstray` | kernel/libk/kstdlib.c:363-374 | three calls from the start on, the last of which writes through the null pointer |
| `HeapExamples.LastFreeBreaksHeap` | kernel/libk/kstdlib.c:173-271 | four calls from the start on, with zero words behind the heap, the last of them a free of the last block, after which no heap is left |
| `HeapExamples.GarbageBreaksHeap` | kernel/libk/kstdlib.c:173-271 | three calls from the start on, with a word behind the heap that is neither zero nor a tag in use, the last of them a free of the last block, after which no heap is left |
| `HeapExamples.ShortCallocReached` | kernel/libk/kstdlib.c:397-399 | a product of 65537 and 65537 is served from the start with too small a block |
| `KernelHeap.KernelHeap.constructor` | kernel/libk/kstdlib.c:111-138 | the first page represents the initial heap |
| `KernelHeap.KernelHeap.IncreaseMemoryPool` | kernel/libk/kstdlib.c:23-60 | grows exactly if there is a page and the limit is not reached, with the writes of the model's growth; otherwise changes nothing; no block in use changes |
| `KernelHeap.KernelHeap.AllocateBlock` | kernel/libk/kstdlib.c:62-109 | takes the block at its list position, whole if at most 16 words are spare and split if more; other blocks in use keep every word |
| `KernelHeap.KernelHeap.FindFit` | kernel/libk/kstdlib.c:146-157 | the walk along the links returns the first listed block that fits, or null |
| `KernelHeap.KernelHeap.KMalloc` | kernel/libk/kstdlib.c:140-161 | is a step of the runs above: its writes, its address and the pages used are those of the model's request, whose account it meets in numbers; no block in use changes |
| `KernelHeap.KernelHeap.KFree` | kernel/libk/kstdlib.c:173-271 | makes the writes above, for a block anywhere: the words and the head are those after the model's release, or no heap is left, each under its exact condition; no other block in use changes; with the allocated bit set behind the heap it is a step of the runs above |
| `KernelHeap.KernelHeap.MergeRight` | kernel/libk/kstdlib.c:194-225 | exactly which words the merge with the block behind writes, and with what |
| `KernelHeap.KernelHeap.MergeLeft` | kernel/libk/kstdlib.c:226-256 | the same for the merge into the block before |
| `KernelHeap.KernelHeap.KRealloc` | kernel/libk/kstdlib.c:331-377 | for a size that is no larger: right if the shrink is safe, and no heap is left if it is not; no change at all if at most 16 words are spare; strays through null if and only if it cuts with the list empty |
| `KernelHeap.KernelHeap.CutAndPush` | kernel/libk/kstdlib.c:363-374 | the cut and the push in front of the list, whether it is empty or not, and whether a write goes through null |
| `KernelHeap.KernelHeap.FeedForward` | kernel/libk/kstdlib.c:337-362 | the words written by a shrink in front of a free block, and that only the head is redirected |
| `KernelHeap.KernelHeap.ZeroedOutKMalloc` | kernel/libk/kstdlib.c:163-171 | as kmalloc, with every word asked for zero |
| `KernelHeap.KernelHeap.KCalloc` | kernel/libk/kstdlib.c:397-399 | as zeroed_out_kmalloc, for the product cut to 32 bits |
| `SchedulerModel.FirstRunnable` | kernel/kernel/scheduler/scheduler.c:140-145 | the process found is the first from that position on that can run, and none is found only if there is none |
| `SchedulerRuns.SearchHighest` | kernel/kernel/scheduler/scheduler.c:139-147 | the search downwards over priorities finds the highest that has a runnable process |
| `SchedulerRuns.SelectHighest` | kernel/kernel/scheduler/scheduler.c:134-196 | a selection never falls through, and returns a queued runnable process of maximum priority |
| `SchedulerRuns.TickInv` | kernel/kernel/scheduler/scheduler.c:529-573 | a tick keeps: one process running, idle able to run, queues in order, rounds within the quantum, sleepers with ticks to go |
| `SchedulerRuns.YieldInv` | kernel/kernel/scheduler/scheduler.c:602-627 | a yield keeps the same |
| `SchedulerRuns.SleepInv` | kernel/kernel/scheduler/scheduler.c:355-369 | a sleep keeps the same if and only if it is not the idle process, being current, that sleeps |
| `SchedulerRuns.BlockInv` | kernel/kernel/scheduler/scheduler.c:322-330 | blocking any process, current or not, keeps the same |
| `SchedulerRuns.UnblockInv` | kernel/kernel/scheduler/scheduler.c:332-339 | unblocking keeps the same |
| `SchedulerRuns.KillInv` | kernel/kernel/scheduler/scheduler.c:81-109 | a kill keeps the same if and only if it is not the idle process that is killed |
| `SchedulerRuns.SpawnInv` | kernel/kernel/scheduler/scheduler.c:293-304 | creating and queueing a process keeps the same |
| `SchedulerRuns.FreePidFinds` | kernel/kernel/scheduler/scheduler.c:44-72 | a free process number is found if and only if there is one |
| `SchedulerRuns.BootInv` | kernel/kernel/scheduler/scheduler.c:575-600 | the state after init and start satisfies the invariant |
| `SchedulerTheorems.RunInv` | kernel/kernel/scheduler/scheduler.c:529-627 | in every state of every run exactly the current process is running, idle can run in the lowest queue, and no process is over its quantum |
| `SchedulerTheorems.KilledStays` | kernel/kernel/scheduler/scheduler.c:81-109 | a killed process stays killed if and only if the next call does not block it |
| `SchedulerTheorems.KilledThroughout` | kernel/kernel/scheduler/scheduler.c:81-109 | over any stretch of a run a killed process is killed and off the processor in every state if and only if no call in it blocks the process |
| `SchedulerTheorems.RevivalReached` | kernel/kernel/scheduler/scheduler.c:322-339 | from the start, a kill of the running process, a block and an unblock of it make a run after which it can run again |
| `SchedulerTheorems.KillPasses` | kernel/kernel/scheduler/scheduler.c:81-109 | a kill hands the processor to one of the highest priority among the others that can run, and makes nobody else able to run |
| `SchedulerTheorems.IdleReached` | kernel/kernel/scheduler/scheduler.c:81-109 | from the start two kills make a run to a state with the invariant in which the idle process is current, and there a kill and every sleep of it break the invariant |
| `SchedulerTheorems.SleepsExactIff` | kernel/kernel/scheduler/scheduler.c:360-361 | every sleep that 32 bits of milliseconds can ask for takes the ticks asked for, at least one, if and only if the frequency is below 2000 |
| `SchedulerTheorems.SleepStarts` | kernel/kernel/scheduler/scheduler.c:355-369 | going to sleep costs the processor, and sets the ticks to go |
| `SchedulerTheorems.SleepExact` | kernel/kernel/scheduler/scheduler.c:532-543 | over any run a sleeper with k ticks to go is asleep and never current before the k-th tick, and that tick makes it ready |
| `SchedulerTheorems.QuantumBounds` | kernel/kernel/scheduler/scheduler.c:545-570 | while a process stays current its rounds count its ticks, so at most a quantum of them pass before one makes the scheduler choose again |
| `SchedulerTheorems.KillHandsOver` | kernel/kernel/scheduler/scheduler.c:104-108 | a killed process is never the one that is run next |
| `SchedulerEffects.SelectChooses` | kernel/kernel/scheduler/scheduler.c:134-196 | the process selected can run, has the highest priority of those that can, and is the first of that priority behind the current process, counting round, or the first of another queue |
| `SchedulerEffects.ChosenUnique` | kernel/kernel/scheduler/scheduler.c:134-196 | only one process is so described |
| `SchedulerEffects.TickMeans` | kernel/kernel/scheduler/scheduler.c:529-573 | a tick counts down every waiting process; before the end of the quantum the current process stays and gains one round, and at its end it starts again with none and the processor goes to the process chosen |
| `SchedulerEffects.YieldMeans` | kernel/kernel/scheduler/scheduler.c:602-627 | a yield makes the current process ready and gives the processor to the process chosen |
| `SchedulerEffects.SleepMeans` | kernel/kernel/scheduler/scheduler.c:355-389 | the current process sleeps for its ticks, at least one, and the processor goes to the process chosen; no other process can be put to sleep |
| `SchedulerEffects.BlockMeans` | kernel/kernel/scheduler/scheduler.c:322-330 | a process is blocked whatever state it was in; if it was current, the processor goes to the process chosen |
| `SchedulerEffects.BlockThenUnblock` | kernel/kernel/scheduler/scheduler.c:322-339 | blocked and then unblocked, a process is ready, whatever state it was in |
| `SchedulerEffects.UnblockMeans` | kernel/kernel/scheduler/scheduler.c:332-339 | a process that is blocked or waiting, with a timeout or without, becomes ready, and no other changes |
| `SchedulerEffects.KillMeans` | kernel/kernel/scheduler/scheduler.c:81-109 | the current process is killed and the processor goes to the process chosen |
| `SchedulerEffects.SpawnMeans` | kernel/kernel/scheduler/scheduler.c:44-72 | the first empty process from the next number on, counting round, gets its priority, is ready and last in its queue; without one nothing changes |
| `SchedulerEffects.StepIsEffect` | kernel/kernel/scheduler/scheduler.c:322-627 | these accounts are exact: a call leads from a state with the invariant to another state if and only if that has the call's effect |
| `SchedulerEffects.HighestRuns` | kernel/kernel/scheduler/scheduler.c:138-147 | after a yield, the end of a quantum, a kill, or a sleep or block of the current process, nobody who can run has a higher priority than the process that has the processor |
| `SchedulerEffects.FullQuantum` | kernel/kernel/scheduler/scheduler.c:545-570 | over ticks alone a process that starts with no rounds keeps the processor for exactly its quantum of them, and the next gives it away |
| `SchedulerEffects.BootMeans` | kernel/kernel/scheduler/scheduler.c:575-600 | the whole state at the start: idle, init and post-init with priorities 1, 3 and the highest in their queues, the last of them running |
| `SchedulerFairness.RotationFindsNext` | kernel/kernel/scheduler/scheduler.c:149-178 | the search that starts behind the current process finds its cyclic successor among the runnable |
| `SchedulerFairness.SelectOrder` | kernel/kernel/scheduler/scheduler.c:134-196 | at its own priority a selection takes the first runnable behind the current process, at any other the first in queue order |
| `SchedulerFairness.TurnStep` | kernel/kernel/scheduler/scheduler.c:547-567 | while the same processes can run at the top priority, a choice hands on to the next, and nothing else does |
| `SchedulerFairness.RoundRobin` | kernel/kernel/scheduler/scheduler.c:602-627 | over any run mixing yields, ticks and other calls, c choices lead c places on in the ring |
| `SchedulerFairness.FullRound` | kernel/kernel/scheduler/scheduler.c:149-178 | over any stretch of a run with n choices among n processes, each of them is current after exactly one number of choices, and the last choice returns to the first process |
| `SchedulerFairness.TicksBetweenChoices` | kernel/kernel/scheduler/scheduler.c:545-570 | over any such run each choice pays for at most a quantum of ticks and the tick that makes it |
| `SchedulerFairness.BoundedWaiting` | kernel/kernel/scheduler/scheduler.c:529-627 | no starvation: each of n processes that stay the runnable ones at the top priority has had the processor once (n - 1) * (quantum + 1) ticks have passed, whatever else is called |
| `Scheduler.Scheduler.constructor` | kernel/kernel/scheduler/scheduler.c:575-600 | init and start lead to the initial state of the model, with a quantum of 25 milliseconds at the given frequency |
| `Scheduler.Scheduler.SelectNextProcess` | kernel/kernel/scheduler/scheduler.c:134-196 | the three loops compute the model's selection, which is the process chosen |
| `Scheduler.Scheduler.SwitchToProcess` | kernel/kernel/scheduler/scheduler.c:235-280 | only the new process's state and the current process number change, and nothing if they are the same |
| `Scheduler.Scheduler.RescheduleIfStopped` | kernel/kernel/scheduler/scheduler.c:371-389 | a choice is made exactly if the current process is not running |
| `Scheduler.Scheduler.UpdateSleepTimeouts` | kernel/kernel/scheduler/scheduler.c:532-543 | every waiting process is one tick nearer, and those at zero are ready |
| `Scheduler.Scheduler.SchedulerTick` | kernel/kernel/scheduler/scheduler.c:529-573 | in place, the model's tick, with the effect of a tick as said without it |
| `Scheduler.Scheduler.SchedulerYield` | kernel/kernel/scheduler/scheduler.c:602-627 | in place, the model's yield, with the effect of a yield as said without it |
| `Scheduler.Scheduler.SchedulerProcSleepMs` | kernel/kernel/scheduler/scheduler.c:355-369 | in place, the model's sleep; the invariant is kept if and only if it is not the idle process that sleeps |
| `Scheduler.Scheduler.SchedulerBlockProcess` | kernel/kernel/scheduler/scheduler.c:322-330 | in place, the model's block, with the effect of a block as said without it |
| `Scheduler.Scheduler.SchedulerUnblockProcess` | kernel/kernel/scheduler/scheduler.c:332-339 | in place, the model's unblock, with its effect as said without it |
| `Scheduler.Scheduler.SchedulerKillCurrentProcess` | kernel/kernel/scheduler/scheduler.c:81-109 | in place, the model's kill; the invariant is kept if and only if it is not the idle process that is killed |
| `Scheduler.Scheduler.GetFreePid` | kernel/kernel/scheduler/scheduler.c:44-72 | the first empty number from the next one on, counting round, and the number behind it is next |
| `Scheduler.Scheduler.QueueSystemProcess` | kernel/kernel/scheduler/scheduler.c:293-304 | the process is ready and last in the queue of its priority, and no other queue or process changes; nothing changes if there is no such process or no queue for its priority |
| `Scheduler.Scheduler.SpawnTask` | kernel/kernel/scheduler/scheduler.c:498-526 | a kernel task is created with its priority and queued |
| `Scheduler.Scheduler.Create` | kernel/kernel/scheduler/scheduler.c:424-470 | a process created while the scheduler runs leaves the invariant in place |
| `IntToString.DigitRoundTrip` | kernel/libk/kstring.c:223-230 | each digit in either case is read back, and is neither a sign nor the terminator |
| `IntToString.ValueOfNumeral` | kernel/libk/kstring.c:220-234 | reading a number's digits in any base from 2 to 36 gives the number |
| `IntToString.TextRoundTrip` | kernel/libk/kstring.c:212-246 | reading a number's text gives the number, sign included, and only zero's text starts with a zero |
| `IntToString.BufferRoundTrip` | kernel/libk/kstring.c:212-246 | reading the buffer up to its terminator gives the number back if and only if the buffer is longer than the text |
| `IntToString.WrittenSpells` | kernel/libk/kstring.c:212-246 | what is written is a minus sign for a negative number and, as far as there is room, its lowest digits, each the remainder at its place as a character 0 to 9 and a to z or A to Z, without leading zeros |
| `IntToString.SpellsUnique` | kernel/libk/kstring.c:212-246 | only one text is so described |
| `IntToString.LetterCase` | kernel/libk/kstring.c:223-230 | no capital letter is written if small ones are asked for, and no small one if not |
| `IntToString.NextDigit` | kernel/libk/kstring.c:221-222 | one round of the loop yields the lowest digit and the number without it, and makes progress for any number |
| `IntToString.WriteDigits` | kernel/libk/kstring.c:220-234 | the loop writes the digits, the lowest first, as far as there is room, and nothing else |
| `IntToString.ReverseDigits` | kernel/libk/kstring.c:238-243 | exactly the digits are reversed, and the extra swap behind a sign does no harm |
| `IntToString.KIntToString` | kernel/libk/kstring.c:212-246 | the buffer holds the text, in the letter case asked for, or as much of its low end as fits, then the terminator if there is room; nothing behind changes |
| `ByteMemory.KMemMove` | kernel/libk/kstring.c:12-33 | on any two ranges, overlapping or not, the destination becomes the old source and nothing else changes (section 7.24.2.2 of ISO/IEC 9899:2018) |
| `ByteMemory.KMemCpy` | kernel/libk/kstring.c:3-10 | copies one by one, the lowest first |
| `ByteMemory.ForwardAt` | kernel/libk/kstring.c:3-10 | what copying forward leaves at each place when the ranges overlap |
| `ByteMemory.ForwardIsMoveIff` | kernel/libk/kstring.c:3-33 | copying forward is a move on every memory if and only if the destination does not start inside the source range |
| `ByteMemory.KMemSet` | kernel/libk/kstring.c:57-68 | every byte of the range becomes the value's lowest byte, and no other changes |
| `Ramdisk.WriteImage` | make_ramdisk.py:7-20 | writes a record for each file and the null record, or fails on a size that does not fit or a name with surrogates, which have no encoding |
| `Ramdisk.RecordLayout` | make_ramdisk.py:12-18 | the bytes of a record: size field 128 plus the data's length, lowest byte first, then the encoded name, zeros to 100 characters and 24 more, and the data |
| `Ramdisk.NameRoundTrip` | make_ramdisk.py:13 | reading the bytes of a name as UTF-8 gives the name, or fails if and only if it has a surrogate |
| `Ramdisk.WhatPacks` | make_ramdisk.py:12-13 | a file is taken if and only if its record's size is below 2 to the 31st and its name's bytes give the name back |
| `Ramdisk.RecordAligned` | make_ramdisk.py:12-18 | a record is as long as its size field says if and only if the name is ASCII and at most 100 characters long |
| `Ramdisk.RecordReads` | make_ramdisk.py:12-18 | a record gives back its file's name and data |
| `Ramdisk.WalkReads` | kernel/kernel/tar_fs/tar.c:10 | the walk over an image meets exactly the records written, in order, and stops at the null record, if and only if every name is ASCII and at most 100 characters long |
| `Ramdisk.ReadChain` | kernel/kernel/tar_fs/tar.c:10-26 | on any bytes each record read starts where the size field before says and is as long as its own says, and the reader strays exactly where it comes to a size below 128 or past the end |
| `Ramdisk.CStringIs` | kernel/libk/kstring.c:205-210 | a text goes up to the first null character |
| `Ramdisk.ReadWellFormed` | kernel/kernel/tar_fs/tar.c:10-26 | in a well-formed image the reader never leaves it, and sees its first records |
| `Ramdisk.AccentedStrays` | make_ramdisk.py:12-18 | two files of which the first has an accented letter for a name: the reader finds one record of the right length, and then a size field that leads out of the image |
| `FileTable.CompareEqual` | kernel/libk/kstring.c:131-143 | the comparison is zero if and only if the strings are equal |
| `FileTable.CompareDiffers` | kernel/libk/kstring.c:131-143 | where two strings first differ, the result has the sign of the comparison of the two characters, read as signed |
| `FileTable.CompareNegative` | kernel/libk/kstring.c:136-141 | the result is negative if and only if the first differing character is the lesser, and positive if and only if it is the greater |
| `FileTable.KStrCmp` | kernel/libk/kstring.c:131-143 | the order of the two null-terminated strings, bytes read as signed |
| `FileTable.Lookup` | kernel/kernel/tar_fs/tar.c:29-36 | the first header of the name, or none if none has it |
| `FileTable.FileTable.ParseHeaders` | kernel/kernel/tar_fs/tar.c:9-27 | on any bytes adds the records in order, as many as the table has room for, and reports whether it comes to one that is cut off or shorter than a header; in a well-formed image it comes to none |
| `FileTable.FileTable.GetFileHeader` | kernel/kernel/tar_fs/tar.c:29-40 | the loop finds the first header of the given name |
| `FileTable.ImageRoundTrip` | make_ramdisk.py:7-20 | the image of any list of sound files, read into an empty table, gives the first 32 names and contents in order |
| `FileTable.LookupInImage` | kernel/kernel/tar_fs/tar.c:29-40 | a lookup after reading an image finds the first of its first 32 files that has the name, or nothing |
| `Spinlock.StepKeeps` | kernel/kernel/synchronization_primitives/spinlock.c:3-13 | each step of each thread keeps exclusion and the expectations on which it rests |
| `Spinlock.RunKeeps` | kernel/kernel/synchronization_primitives/spinlock.c:3-13 | in every state of every run of any number of threads at most one holds the lock, and the flag says whether one does |
| `Spinlock.SafeIffCleared` | kernel/kernel/synchronization_primitives/spinlock.c:5-6 | for two threads or more, every run excludes if and only if the expectation is cleared before each retry |

## Left out

- KFree: behind the last block, links that lead into the heap's own range, and a tag so large that the 32-bit address of the footer computed from it comes round into the heap (a tag that falls short of 2 to the 30th, or of 2 to the 31st, by less than the heap's length, or is 2 to the 30th), are not covered. Writes outside the heap's range are not recorded.
- KRealloc: only sizes that are no larger than the block. The growth path reads a tag as a pointer (`kernel/libk/kstdlib.c:282`) and carries a note of its own that it needs investigation (`kernel/libk/kstdlib.c:302`). What the write through null does outside the heap (`kernel/libk/kstdlib.c:371`) is not modelled, only that it happens.
- ShortenTags: the source indexes with the whole tag, allocated bit included (`kernel/libk/kstdlib.c:342`); the model uses the size, because bit 31 is lost when the index becomes a 32-bit byte offset.
- IncreaseMemoryPool: mapping the page is not modelled, only whether there is one.
- KernelHeap: the range of the largest heap is one array from the start; a page not yet mapped is a part of it that has not been written.
- SchedulerKillCurrentProcess: the suspension of the kernel behind the reschedule, reached only if nobody else can run, is not modelled.
- GetFreePid: without an empty process the source halts the kernel; here the state stays and the caller is told.
- Create: loading the program, its stack and its address space are not modelled, only the process entry and its queue.
- KIntToString: the least 64-bit number is excluded unless the buffer's size is zero, because its negation overflows.
- ParseHeaders: where a record is cut off, or its size field is less than a header, the source reads and maps on past it; the model stops there and says so. A page is taken to be had for every copy; mapping and printing are left out.
- KernelHeap.KernelHeap.constructor: the first page is taken to be there; the source does not check it (`kernel/libk/kstdlib.c:112`).
- WriteImage: a size that does not fit, or a name without an encoding, leaves a partly written file in the source, and nothing here. The order in which the directory walk meets the files is that of the list given.
- Spinlock: only a thread that holds the lock releases it; memory ordering is sequential.
- Run queues are sequences with append; the vector behind them is not part of this model.
- `scheduler_frequency_updated` after the start, whose integer ratio can zero a timeout, and `scheduler_unblock_process_hint`, which makes any process that is not running ready, killed ones included.
- `zeroed_out_krealloc`, `uninitialized_kcalloc`, and the wrappers of `scheduler_proc_sleep_ms`: either broken growth again or nothing new.
- Context switches, page directories, stacks, interrupts and the idle task's halt: hardware effects.
- The physical and virtual page allocators, paging, containers, ELF loading, console, serial, disk and boot code, and debug prints: not part of this model.
- kctype, kmath, kassert, errno and the remaining string functions: single-branch helpers that would add only easy members.
