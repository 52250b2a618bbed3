# Allocator, timers, locks, configuration files and buffers of the DHS support libraries

This project models five parts of the two libraries under `dhsDesign` in Dafny and proves what
they are for. `dafny verify dfyconfig.toml` checks all of it.

1. **The OSSP mm allocator** (`MmCore`, `MmFreeList`, `MmSpec`, `MmLayout`, `MmSurgery`,
   `MmCases`, `MmClients`, `MmPool`, `MmLaws`, `Words`). `MmPool.Pool` runs mm_create,
   mm_insert_chunk, mm_retrieve_chunk, mm_malloc, mm_realloc, mm_free and mm_available word by
   word on the bytes of one segment: headers, free-list links and user data share it. `live`
   lists the live blocks. `Encodes` says which words the segment then must hold: the free list
   is exactly the maximal unallocated gaps (`Gaps`) and mp_offset the end of the last live block
   (`Top`). Because every operation returns to this canonical form, the laws of `MmLaws` (frees
   commute, malloc and free cancel, failure is complete, nothing is lost) hold of every run.
2. **The delta-list timers of radlib** (`DeltaList`, `TimerCells`, `TimerSystem`, `Timers`,
   `TimerRuns`). `Timers.TimerList` relinks the nodes of the one allocated block in place. What
   each call, the clock, the one-shot alarm and SIGALRM make of it is `TimerSystem.Next`, and
   every method's contract says so; the delta list refines a sequence of absolute deadlines.
   `TimerRuns` says over whole runs when a timer fires and when the alarm comes too late for it.
3. **The readers/writer lock of mm on two semaphores** (`MmLock`), a state machine in which
   each semop, each load, store and test of mc_readers and each access to mc_lockmode of any
   number of processes is one step.
4. **The configuration files of radlib** (`ConfText`, `ConfLine`, `ConfRoundTrip`, `ConfList`,
   `ConfFile`, `ConfLaws`): the line parser with its three strtok calls, the printer, and the
   exact condition under which a list of records that is written comes back.
5. **The buffer pool and the lists of radlib** (`BufferLayout`, `BufferPool`, `BufferHolders`,
   `BufferShare`; `RadList`, `RadSortList`, `RadProcList`, `StableSort`, `Sequences`): the layout
   of the shared segment, its free chains and the holders of its buffers under every
   interleaving, the sentinel list as a sequence, and sorted insertion as a stable sort.

`Wrappers` holds what all of them use. Sizes are those of a 32-bit system: `size_t` and pointers
take 4 bytes, `mem_word` 8, so a chunk header takes 8 bytes, the pool header 24, the memory core
32; `BFR_HDR` takes 8 and `BUFFER_SHARE` 128. A NULL pointer is address 0, cell -1, position -1
or `null`, as each module says. Error returns of the source are `Option` values, 0, -1 or `false`.

## Where the code does not do what it promises

- **A timer can fire early.** Deadlines count from the last tick, not from the call.
  `TimerRuns.FullDelay`: if no further call comes, a started timer never fires late, and it runs
  for its full time if and only if the list is otherwise empty, or no time has passed since the
  last tick, or the timer goes first and no SIGALRM is pending. `FiresEarly` is an input.
- **A timer can be put off, even for ever.** radTimerStart arms the alarm from the current time
  when a timer goes first, although the deadlines of all others count from the last tick.
  `TimerRuns.OnTimeExactly`: the alarm is on time all through a run if and only if no timer is
  started in front of others while time has passed since the last tick and no SIGALRM is
  pending. `LateAtMost` bounds how late it is otherwise, and `WatchdogStarves` is a run in which
  restarting one timer keeps another from firing for any length of time.
- **radTimerStop tests `pending` before it blocks SIGALRM.** When the handler fires the timer in
  between, the stop still writes through the old links. `TimerCells.LateStop`: the list stays
  well-linked if and only if the timer was the last one fired, and ticks are kept if and only
  if, besides, it had no successor or no ticks. `LateStopRevives` is an input for which a fired
  timer comes back on the list.
- **radBufferRls tests and clears the allocated flag outside the lock.** `BufferPool.IntactExactly`:
  the free chains survive a schedule if and only if no second release of a block gets past the
  test while one is under way. `ReleasedTwice`: any held block can break its chain this way.
- **radBufferRls does not ask who releases.** `BufferHolders.OneHolderExactly`: no block can come
  to two holders if and only if every release that gets past the test is that of a holder.
- **The mm lock is not fair.** `MmLock.HeldOffExactly`: a writer is held off all through a
  schedule if and only if at every state of it some process keeps mc_fdsem taken, as a writer, as
  a reader past the first semop on it, or as the last reader on the way out. `WriterStarves`: two
  readers that keep handing the lock over do so for any number of steps.
- **Not every record survives flush and open.** `ConfList.FileRoundTrip`: a list of records comes
  back from the text that is written for it if and only if every entry is well-formed and every
  comment is one line that begins with # or is blank, and, save for the last record, ends in a
  newline or fills the 511 characters fgets reads. `EntryRoundTrip` and `CommentRoundTrip` say
  the same of one record in any file. Some of this is easily missed: an entry without a value
  must not have a comment (the comment is then taken for the value), and the whole printed line
  must fit 511 characters. `ConfLaws.LostPut`: an entry put into a file whose last line is a
  comment without a newline is lost. The text header the library itself writes speaks of 32
  characters for an identifier and 256 for a line; the code enforces 64 and 511.

## Model

| member | source | states |
|---|---|---|
| `MmCore.Align2PageIsLeast` | dhsDesign/mm-1.4.0/mm_core.c:168-172 | the page-aligned size is the least multiple of the page size at or above the size |
| `MmCore.Align2WordIsLeast` | dhsDesign/mm-1.4.0/mm_core.c:174-177 | the word-aligned size is the least multiple of the word size at or above a positive size |
| `MmCore.MaxSegSizeIs` | dhsDesign/mm-1.4.0/mm_core.c:179-182 | the largest segment is the multiple of the page size that leaves the core and one page below the limit; one page less than the limit when pages divide it |
| `MmCore.SmallestPoolFits` | dhsDesign/mm-1.4.0/mm_core.c:179-182 | whatever the page size, the largest segment holds the smallest pool mm_create asks for |
| `MmCore.ClampIsAccepted` | dhsDesign/mm-1.4.0/mm_alloc.c:61-74 | for every requested size the clamped size passes the check of mm_core_create, and the rounded segment with its header stays within MM_SHM_MAXSEGSIZE if the page size divides it |
| `MmFreeList.GapShape` | dhsDesign/mm-1.4.0/mm_alloc.c:187-245 | the canonical free list is strictly ascending, no two chunks touch, none touches the spare area or meets a live block, and every chunk is a word multiple that holds a header |
| `MmFreeList.Tiled` | dhsDesign/mm-1.4.0/mm_alloc.c:187-341 | each byte below the spare area lies in exactly one live block or free chunk |
| `MmFreeList.SumsTile` | dhsDesign/mm-1.4.0/mm_alloc.c:146-152 | live and free chunk sizes add up to what lies between the pool header and the spare area |
| `MmFreeList.AbsorbIsCanonical` | dhsDesign/mm-1.4.0/mm_alloc.c:205-242 | six-way coalescing is complete: applied to the canonical list and offset it gives the canonical list and offset of the remaining live blocks |
| `MmSpec.BestFitIsFirstMinimal` | dhsDesign/mm-1.4.0/mm_alloc.c:270-283 | the search finds nothing exactly when every chunk is too small, and otherwise the first chunk of minimal sufficient size |
| `MmSpec.BestFitStops` | dhsDesign/mm-1.4.0/mm_alloc.c:278-279 | stopping at an exact fit does not change the choice |
| `MmSpec.MallocIsCanonical` | dhsDesign/mm-1.4.0/mm_alloc.c:313-341 | with the block mm_malloc hands out the pool is valid again, and its canonical list and offset are the old ones with that block taken out of its chunk or of the spare area |
| `MmSpec.SetUsizeIsCanonical` | dhsDesign/mm-1.4.0/mm_alloc.c:356-364 | shrinking or growing within the chunk changes neither free list nor offset |
| `MmCases.FreeMergeBoth` | dhsDesign/mm-1.4.0/mm_alloc.c:209-215 | the three writes that merge with both neighbours leave a segment that holds exactly the pool without the block, and no word of another live block changes |
| `MmCases.FreeMergePrevSpare` | dhsDesign/mm-1.4.0/mm_alloc.c:216-222 | the same for the merge with the previous chunk and the spare area |
| `MmCases.FreeMergePrev` | dhsDesign/mm-1.4.0/mm_alloc.c:223-226 | the same for the merge with the previous chunk |
| `MmCases.FreeMergeNext` | dhsDesign/mm-1.4.0/mm_alloc.c:227-232 | the same for the merge with the next chunk |
| `MmCases.FreeMergeSpare` | dhsDesign/mm-1.4.0/mm_alloc.c:233-236 | the same for the merge with the spare area |
| `MmCases.FreeLinkIn` | dhsDesign/mm-1.4.0/mm_alloc.c:237-242 | the same for a block that merges with nothing |
| `MmCases.ReserveSplit` | dhsDesign/mm-1.4.0/mm_alloc.c:290-298 | splitting the chosen chunk leaves the free list of the pool with the block in it, all live blocks untouched |
| `MmCases.ReserveWhole` | dhsDesign/mm-1.4.0/mm_alloc.c:299-303 | the same for a chunk that is taken whole |
| `MmCases.Carve` | dhsDesign/mm-1.4.0/mm_alloc.c:334-338 | the same for a block carved from the spare area |
| `MmClients.ClientsKeepThePool` | dhsDesign/mm-1.4.0/mm.h:241-250 | whatever its users write into the user areas of live blocks, the segment still encodes the same pool |
| `MmPool.Pool.constructor` | dhsDesign/mm-1.4.0/mm_alloc.c:76-85 | the header mm_create writes makes the segment a valid pool without live blocks |
| `MmPool.Create` | dhsDesign/mm-1.4.0/mm_alloc.c:54-88 | mm_create gives a valid empty pool of the size asked for, or of the nearest size there is; 0 asks for the largest |
| `MmPool.Pool.FindPlace` | dhsDesign/mm-1.4.0/mm_alloc.c:196-203 | the search stops at the free chunks on both sides of the block and at the one before |
| `MmPool.Pool.Coalesce` | dhsDesign/mm-1.4.0/mm_alloc.c:209-242 | whichever of the six cases applies, the segment then holds the pool without the block |
| `MmPool.Pool.InsertChunk` | dhsDesign/mm-1.4.0/mm_alloc.c:187-245 | a live block leaves the pool, a chunk that is the head of a free chunk is refused and nothing changes; no byte of a live block changes |
| `MmPool.Pool.FindBest` | dhsDesign/mm-1.4.0/mm_alloc.c:270-283 | the loop ends with the link to the best-fitting chunk, or with NULL if none fits |
| `MmPool.Pool.RetrieveChunk` | dhsDesign/mm-1.4.0/mm_alloc.c:254-308 | the best-fitting chunk, whole or split, leaves the list; nothing changes if there is none |
| `MmPool.Pool.Malloc` | dhsDesign/mm-1.4.0/mm_alloc.c:313-341 | mm_malloc on the bytes does what `MmSpec.Malloc` says, fails without any change, and changes no byte of a live block |
| `MmPool.Pool.Free` | dhsDesign/mm-1.4.0/mm_alloc.c:376-385 | mm_free takes the block out of the pool, ignores NULL, and changes no byte of another live block |
| `MmPool.Pool.Realloc` | dhsDesign/mm-1.4.0/mm_alloc.c:346-371 | mm_realloc does what `MmSpec.Realloc` says; the first min(old, new) user bytes are the same at the new address, a failure changes nothing, no byte of another live block changes; a null pointer makes it mm_malloc |
| `MmPool.Pool.Available` | dhsDesign/mm-1.4.0/mm_alloc.c:443-458 | the loop returns pool size minus header minus the sizes of the live blocks |
| `MmPool.Pool.DisplayInfo` | dhsDesign/mm-1.4.0/mm_alloc.c:146-162 | the figures printed are the spare bytes, the sums over free and live chunks, and the length of the free list |
| `MmLaws.MallocIsFresh` | dhsDesign/mm-1.4.0/mm_alloc.c:313-341 | the block handed out overlaps no live block |
| `MmLaws.MallocThenFree` | dhsDesign/mm-1.4.0/mm_alloc.c:376-385 | malloc and free of its result restore free list and offset exactly, however the block was found |
| `MmLaws.FreesCommute` | dhsDesign/mm-1.4.0/mm_alloc.c:187-245 | two live blocks may be freed in either order: the pool state is the same |
| `MmLaws.FreeingAllRestoresThePool` | dhsDesign/mm-1.4.0/mm_alloc.c:77-85 | freeing all live blocks in any order empties the free list and puts mp_offset back behind the header |
| `MmLaws.MallocFailsOnlyWhenItMust` | dhsDesign/mm-1.4.0/mm_alloc.c:313-332 | mm_malloc returns NULL if and only if 0 bytes are asked for or no contiguous run of unallocated bytes is as long as the aligned request |
| `MmLaws.MallocIsBestFit` | dhsDesign/mm-1.4.0/mm_alloc.c:270-303 | when some free chunk fits, the block starts the lowest chunk of minimal sufficient size, and what is split off it holds a header |
| `MmLaws.MallocTakes` | dhsDesign/mm-1.4.0/mm_alloc.c:254-341 | how many bytes a block takes: with the request and header rounded up to words, exactly that many at the start of the spare area when no free chunk is as large; otherwise from the start of the lowest chunk of least sufficient size, all of it unless it is larger by twice that or by 128 |
| `MmLaws.ReallocFailsOnlyWhenItMust` | dhsDesign/mm-1.4.0/mm_alloc.c:346-367 | mm_realloc returns NULL if and only if 0 bytes are asked for, or the block is too small and no run of unallocated bytes is long enough |
| `MmLaws.ReallocGives` | dhsDesign/mm-1.4.0/mm_alloc.c:354-370 | a successful mm_realloc leaves a live block of the size asked for, the same one while that is large enough and otherwise the one mm_malloc finds; the old one is gone and all others are as they were |
| `MmLaws.Conservation` | dhsDesign/mm-1.4.0/mm_alloc.c:443-458 | what mm_available reports is the pool size minus header minus the live sizes |
| `MmLaws.RunsKeepTheHeap` | dhsDesign/mm-1.4.0/mm_alloc.c:187-371 | every run of malloc, free and realloc with live pointers keeps the heap invariant, the shape of the free list, the tiling and the conservation law |
| `MmLock.StepKeepsInv` | dhsDesign/mm-1.4.0/mm_core.c:590-602 | every step of every process keeps the counting invariant that ties both semaphores and mc_readers to the places of the processes |
| `MmLock.AloneInCritical` | dhsDesign/mm-1.4.0/mm_core.c:592-596 | only one process is between the two semops on mc_fdsem_rd |
| `MmLock.WriterExcludesAll` | dhsDesign/mm-1.4.0/mm_core.c:598-600 | in every reachable state a writer inside excludes everyone else |
| `MmLock.UnlockTakesItsBranch` | dhsDesign/mm-1.4.0/mm_core.c:645-656 | mc_lockmode as read at unlock is how that process locked, so it takes its own branch |
| `MmLock.HoldsWhatItAsked` | dhsDesign/mm-1.4.0/mm_core.c:590-602 | in every schedule from the start a process that is inside holds the mode with which it last called mm_core_lock, and if it asked to write it is alone |
| `MmLock.QuietReaders` | dhsDesign/mm-1.4.0/mm_core.c:590-602 | when no process is in the middle of a call, mc_readers is the number of readers inside, mc_fdsem_rd is free, and mc_fdsem is taken exactly when someone is inside |
| `MmLock.SomeoneGoesOn` | dhsDesign/mm-1.4.0/mm_core.c:590-656 | in every reachable state with a process inside or in the middle of a call, some such process can take a step |
| `MmLock.DrainEnds` | dhsDesign/mm-1.4.0/mm_core.c:590-656 | without new calls every schedule is over after a bounded number of steps |
| `MmLock.DrainFinishes` | dhsDesign/mm-1.4.0/mm_core.c:590-656 | a schedule that cannot go on has let every call return and every holder leave, and the lock is free |
| `MmLock.WaitsWhileKept` | dhsDesign/mm-1.4.0/mm_core.c:590-656 | a writer at mc_fdsem waits exactly while some process keeps it: as a writer, as a reader past the opening, or as the last reader on the way out |
| `MmLock.HeldOffExactly` | dhsDesign/mm-1.4.0/mm_core.c:590-656 | a writer is held off all through a schedule if and only if at every state of it some process keeps mc_fdsem |
| `MmLock.WriterStarves` | dhsDesign/mm-1.4.0/mm_core.c:590-656 | for every number of rounds there is a reachable state and a schedule in which a writer waits all the time and can never go on |
| `DeltaList.DeadlinesAre` | dhsDesign/radlib-2.3.0/src/radtimers.c:304-322 | the deadlines a delta list stands for are the running sums of its ticks |
| `DeltaList.InsertRefines` | dhsDesign/radlib-2.3.0/src/radtimers.c:304-322 | inserting into the deltas gives the timer the deadline base + time, in front of equal deadlines, and moves no other deadline |
| `DeltaList.ScheduleIs` | dhsDesign/radlib-2.3.0/src/radtimers.c:304-309 | a deadline is entered behind all earlier ones and in front of all that are not, equal ones included |
| `DeltaList.CancelIs` | dhsDesign/radlib-2.3.0/src/radtimers.c:352-360 | what is cancelled is the timer's deadline and nothing else |
| `DeltaList.RemoveRefines` | dhsDesign/radlib-2.3.0/src/radtimers.c:352-360 | removing from the deltas removes exactly that deadline |
| `DeltaList.RestartMovesOnlyItself` | dhsDesign/radlib-2.3.0/src/radtimers.c:285-322 | restarting a pending timer leaves every other deadline and their order as they were |
| `DeltaList.TickRefines` | dhsDesign/radlib-2.3.0/src/radtimers.c:84-111 | a tick of n fires exactly the timers due within n, in list order, and leaves every other deadline |
| `DeltaList.DueIs` | dhsDesign/radlib-2.3.0/src/radtimers.c:84-111 | the timers due by a time are the first ones, up to the first deadline behind it; the others remain |
| `DeltaList.TicksCompose` | dhsDesign/radlib-2.3.0/src/radtimers.c:72-118 | ticking a and then b gives the list and the firings of ticking a + b |
| `DeltaList.DeadlinesAreOrdered` | dhsDesign/radlib-2.3.0/src/radtimers.c:304-322 | the deadlines of a delta list are in order |
| `DeltaList.FiresWhenDue` | dhsDesign/radlib-2.3.0/src/radtimers.c:84-111 | a timer has fired after n ticks if and only if it was started for at most n |
| `TimerCells.StopLists` | dhsDesign/radlib-2.3.0/src/radtimers.c:349-360 | the writes of radTimerStop leave a well-linked list without the timer, its ticks added to the next, flags and free list right |
| `TimerCells.StartLists` | dhsDesign/radlib-2.3.0/src/radtimers.c:290-322 | the writes of radTimerStart leave a well-linked list with the timer in its place |
| `TimerCells.LateStop` | dhsDesign/radlib-2.3.0/src/radtimers.c:347-360 | for a handler of any number of ticks and a stop of any timer it fired: the list stays well-linked iff the timer was the last one fired, the other ticks are kept iff besides it had no successor or no ticks of its own, and otherwise a fired timer is back at the head |
| `TimerCells.LateStopRevives` | dhsDesign/radlib-2.3.0/src/radtimers.c:347-360 | a concrete list for which a late stop puts a fired timer back |
| `Timers.TimerList.constructor` | dhsDesign/radlib-2.3.0/src/radtimers.c:140-186 | radTimerListCreate chains all timers of an arbitrary block into the free list, with an empty delta list |
| `Timers.TimerList.CreateTimer` | dhsDesign/radlib-2.3.0/src/radtimers.c:217-245 | radTimerCreate takes the first free timer, or a given one, and sets its routine and parameter and no other timer's; NULL when a timer is asked for and none is free; the delta list stays |
| `Timers.TimerList.DeleteTimer` | dhsDesign/radlib-2.3.0/src/radtimers.c:249-268 | radTimerDelete cancels the timer's deadline and no other and puts it at the front of the free list |
| `Timers.TimerList.Start` | dhsDesign/radlib-2.3.0/src/radtimers.c:272-332 | radTimerStart is the step `Start` of the system: the timer gets the deadline last tick + max(time, 1) in front of equal ones, gives its old one up, and no other moves; the alarm is set to that many ticks from now when no other deadline is earlier, and stays otherwise; NULL is ignored |
| `Timers.TimerList.Stop` | dhsDesign/radlib-2.3.0/src/radtimers.c:336-363 | radTimerStop cancels exactly the timer's own deadline; NULL is ignored |
| `Timers.TimerList.FindPlace` | dhsDesign/radlib-2.3.0/src/radtimers.c:304-309 | the search passes every timer due earlier and keeps what is left of the time |
| `Timers.TimerList.FireFirst` | dhsDesign/radlib-2.3.0/src/radtimers.c:89-98 | the first timer leaves the list; if it has a routine one message with its own routine and parameter is sent, and none otherwise |
| `Timers.CallsAreSent` | dhsDesign/radlib-2.3.0/src/radtimers.c:92-98 | the messages of fired timers are, in firing order, one with its own routine and parameter for each that has a routine |
| `Timers.TimerList.Process` | dhsDesign/radlib-2.3.0/src/radtimers.c:72-118 | timerProcess fires what is due, sends the callbacks in order, shortens the first timer left, and returns its ticks or -1; the cells of fired timers keep their next links and ticks |
| `Timers.TimerList.HandleSignal` | dhsDesign/radlib-2.3.0/src/radtimers.c:120-127 | the signal handler is the step `Handle` of the system: exactly the timers whose deadlines have passed fire, in list order, each with a routine sends one message with its own routine and parameter, the others keep their deadlines, and the alarm is set to the first of them |
| `Timers.TimerList.Status` | dhsDesign/radlib-2.3.0/src/radtimers.c:366-375 | radTimerStatus is true exactly for timers that have a deadline |
| `Timers.TimerList.NoTimerIsLost` | dhsDesign/radlib-2.3.0/src/radtimers.c:217-269 | in every valid state noFreeTimers plus the number of timers handed out and not deleted is the number created |
| `Timers.TimerList.ValidIsGood` | dhsDesign/radlib-2.3.0/src/radtimers.c:72-363 | a valid list, its alarm and the clock are a good system, so that the laws of its runs hold |
| `TimerSystem.NextKeepsGood` | dhsDesign/radlib-2.3.0/src/radtimers.c:72-363 | every start, stop, lapse of time and signal keeps SIGALRM pending or the alarm armed while a timer is pending, and no timer on the list twice |
| `TimerRuns.RunsStayAwake` | dhsDesign/radlib-2.3.0/src/radtimers.c:72-363 | after any sequence of starts, stops, time and signals a non-empty list has SIGALRM pending or the alarm armed ahead of the clock |
| `TimerRuns.OnTimeMeans` | dhsDesign/radlib-2.3.0/src/radtimers.c:72-127 | the alarm is no later than the first deadline if and only if no timer can fall due without SIGALRM pending |
| `TimerRuns.OnTimeExactly` | dhsDesign/radlib-2.3.0/src/radtimers.c:272-332 | the alarm is on time all through a run if and only if no timer is started in front of others when ticks have gone unseen and no SIGALRM is pending |
| `TimerRuns.LateAfter` | dhsDesign/radlib-2.3.0/src/radtimers.c:296-328 | such a start makes the alarm late by exactly the ticks unseen; no other event makes it later |
| `TimerRuns.LateAtMost` | dhsDesign/radlib-2.3.0/src/radtimers.c:272-332 | over a whole run the alarm is late by at most the ticks of the timers that such starts put off |
| `TimerRuns.FirstTimerFires` | dhsDesign/radlib-2.3.0/src/radtimers.c:72-127 | from any good state, with calls at any time: once the first deadline is past by what the alarm was late before and the ticks put off since, the signal is pending and handling it fires that timer; a handled signal leaves nothing late |
| `TimerRuns.WatchdogStarves` | dhsDesign/radlib-2.3.0/src/radtimers.c:272-332 | a run of any length in which one timer is restarted again and again and another, long overdue, never fires |
| `TimerRuns.LeftAlone` | dhsDesign/radlib-2.3.0/src/radtimers.c:72-127 | without further calls nothing happens until the handler runs, and from then on exactly the timers whose deadlines lie ahead are pending at every moment |
| `TimerRuns.PendingUntil` | dhsDesign/radlib-2.3.0/src/radtimers.c:272-332 | a started timer is pending until the first handler at or behind its deadline |
| `TimerRuns.FullDelay` | dhsDesign/radlib-2.3.0/src/radtimers.c:296-328 | without further calls a timer never fires later than asked for, and it runs for its full time if and only if the list is otherwise empty, no tick has gone unseen, or it goes first and no SIGALRM is pending |
| `TimerRuns.FiresEarly` | dhsDesign/radlib-2.3.0/src/radtimers.c:296-328 | a concrete run in which a timer started for 120 msecs fires after 70 |
| `ConfLine.LineIsRead` | dhsDesign/radlib-2.3.0/src/radconffile.c:313-466 | any line with an identifier, a value and perhaps a comment, with any white space in front and any delimiters between them, is read as these three |
| `ConfLine.LoneNameIsRead` | dhsDesign/radlib-2.3.0/src/radconffile.c:386-447 | a line with nothing but delimiters behind its identifier is read with no value and no comment |
| `ConfLine.NameIsRead` | dhsDesign/radlib-2.3.0/src/radconffile.c:395-420 | an identifier with an instance is read as what stands in front of and between its brackets; too long ones are passed over, and a part that fills its array overruns it |
| `ConfLine.BareNameIsRead` | dhsDesign/radlib-2.3.0/src/radconffile.c:421-432 | the same for an identifier without a bracket |
| `ConfLine.NameIsNotRead` | dhsDesign/radlib-2.3.0/src/radconffile.c:402-419 | brackets that do not close make a line passed over; brackets that close before they open overrun the instance |
| `ConfLine.CommentLineIsRead` | dhsDesign/radlib-2.3.0/src/radconffile.c:313-365 | a comment is kept without the white space in front of it, a blank line as it is |
| `ConfLine.WellFormedIsRead` | dhsDesign/radlib-2.3.0/src/radconffile.c:378-466 | the line printed for a well-formed entry parses to that entry |
| `ConfList.EntryRoundTrip` | dhsDesign/radlib-2.3.0/src/radconffile.c:378-606 | an entry that is flushed comes back, alone and in front of any text, if and only if it is well-formed |
| `ConfList.CommentRoundTrip` | dhsDesign/radlib-2.3.0/src/radconffile.c:307-365 | a comment record comes back from the end of a file if and only if it is one line that begins with # or is blank, and in front of any text if and only if that line, besides, ends in a newline or fills what fgets reads |
| `ConfList.LongLineIsLost` | dhsDesign/radlib-2.3.0/src/radconffile.c:307-311 | no entry whose line does not fit one fgets ever comes back |
| `ConfList.NewlineIsLost` | dhsDesign/radlib-2.3.0/src/radconffile.c:386-393 | no entry with a newline in its identifier comes back |
| `ConfList.FileRoundTrip` | dhsDesign/radlib-2.3.0/src/radconffile.c:304-606 | for every list of records: printing and parsing it gives the same list if and only if all records survive, save that the last may be a comment without its newline |
| `ConfList.ReadAgain` | dhsDesign/radlib-2.3.0/src/radconffile.c:304-606 | what was read from any file comes back from the next flush if and only if no comment but the last is an unfinished line, no identifier was read with a newline, every name may begin a line and every printed line fits |
| `ConfList.AllReadable` | dhsDesign/radlib-2.3.0/src/radconffile.c:304-476 | what can be said of every record read: comments are one line that begins with # or is blank, entries have clean fields and are written in at most two characters more than the line held |
| `ConfList.NoGrowth` | dhsDesign/radlib-2.3.0/src/radconffile.c:304-606 | a list cannot read as itself with full-line comments or bare identifiers in front: they multiply for ever |
| `ConfList.NoLag` | dhsDesign/radlib-2.3.0/src/radconffile.c:304-606 | a list of readable records cannot read as itself with entries in front |
| `ConfList.ReadLineByLine` | dhsDesign/radlib-2.3.0/src/radconffile.c:304-476 | a record is added, a line passed over leaves no trace, and after an overrun nothing is known |
| `ConfList.SurvivorsComeBack` | dhsDesign/radlib-2.3.0/src/radconffile.c:304-476 | whatever text follows, surviving records printed before it come back in order in front of its records |
| `ConfFile.ReadName` | dhsDesign/radlib-2.3.0/src/radconffile.c:395-432 | the strchr searches and length tests on the identifier token compute its parse, with every way it is passed over or overruns a field |
| `ConfFile.ReadEntry` | dhsDesign/radlib-2.3.0/src/radconffile.c:386-471 | the entry branch of radCfOpen computes the parse of the line, with every way a line is passed over or overruns a field |
| `ConfFile.ReadLine` | dhsDesign/radlib-2.3.0/src/radconffile.c:313-366 | the classification of a line as comment, blank or entry |
| `ConfFile.ReadLines` | dhsDesign/radlib-2.3.0/src/radconffile.c:304-476 | the reading loop yields the records of all lines in order |
| `ConfFile.PrintRecord` | dhsDesign/radlib-2.3.0/src/radconffile.c:553-594 | a comment is written as it is; an entry as its identifier, its instance in brackets if it has one, an equals sign, its value, two tabs and its comment if it has one, and a newline |
| `ConfFile.PrintRecords` | dhsDesign/radlib-2.3.0/src/radconffile.c:547-606 | the writing loop writes the printed records in order |
| `ConfFile.ConfFile.constructor` | dhsDesign/radlib-2.3.0/src/radconffile.c:248-482 | radCfOpen holds the records of the text and no last search node |
| `ConfFile.ConfFile.Flush` | dhsDesign/radlib-2.3.0/src/radconffile.c:513-617 | radCfFlush leaves a file that begins with a comment as it is and puts the file name line and the header lines in front of any other, writes every record, and the last search node still stands for the same record |
| `ConfFile.ConfFile.InsertHeader` | dhsDesign/radlib-2.3.0/src/radconffile.c:89-131 | the loop puts the file name line and the header lines in order in front of all records |
| `ConfFile.ConfFile.FindEntryNodeAfter` | dhsDesign/radlib-2.3.0/src/radconffile.c:134-178 | the first record behind the given node that is an entry with the identifier and, if one is given, the instance; NULL only if there is none |
| `ConfFile.ConfFile.GetEntry` | dhsDesign/radlib-2.3.0/src/radconffile.c:816-833 | the value of the first entry with the identifier and, if one is given, the instance; ERROR only if there is none |
| `ConfFile.ConfFile.GetFirstEntry` | dhsDesign/radlib-2.3.0/src/radconffile.c:758-766 | the first entry of the identifier |
| `ConfFile.ConfFile.GetNextEntry` | dhsDesign/radlib-2.3.0/src/radconffile.c:771-811 | the first entry of the identifier behind the last one found; on ERROR the last one found stays |
| `ConfFile.ConfFile.PutEntry` | dhsDesign/radlib-2.3.0/src/radconffile.c:838-892 | the first entry with the identifier, and the instance if one is given, gets the value, and a given comment as "# " and its text; if there is none a new entry with these is appended; without memory for it ERROR and no change |
| `ConfLaws.FlushedFileComesBack` | dhsDesign/radlib-2.3.0/src/radconffile.c:513-617 | opening a flushed file gives the flushed records, header included, if and only if they survive, save that the last may lack its newline; a second flush adds no second header |
| `ConfLaws.HeaderIsNotSearched` | dhsDesign/radlib-2.3.0/src/radconffile.c:89-178 | the header changes no lookup |
| `ConfLaws.PutThenGet` | dhsDesign/radlib-2.3.0/src/radconffile.c:816-892 | what was put is what is got, at the place the search found before |
| `ConfLaws.PutLeavesOthers` | dhsDesign/radlib-2.3.0/src/radconffile.c:838-892 | no lookup that the entry does not match changes |
| `ConfLaws.PutTwice` | dhsDesign/radlib-2.3.0/src/radconffile.c:838-892 | a second put of the same entry overwrites the first, in its place; without a comment it keeps the one there is |
| `ConfLaws.StoredValueComesBack` | dhsDesign/radlib-2.3.0/src/radconffile.c:513-892 | after put, flush and open the file holds what was flushed if and only if the entry put is well-formed and the other records survive, the last one too when the entry is added behind it; get then gives the value |
| `ConfLaws.LostPut` | dhsDesign/radlib-2.3.0/src/radconffile.c:304-892 | a concrete file, ending in a comment without a newline, in which an entry that is put is lost |
| `ConfLaws.FirstAndNextFindAll` | dhsDesign/radlib-2.3.0/src/radconffile.c:758-811 | radCfGetFirstEntry and radCfGetNextEntry visit every entry of the identifier once, in file order |
| `BufferLayout.FirstSizeIsLeast` | dhsDesign/radlib-2.3.0/src/radbuffers.c:136-142 | the first size is the least power of two that is at least 16 and at least minBufferSize |
| `BufferLayout.ClassesDouble` | dhsDesign/radlib-2.3.0/src/radbuffers.c:147-168 | sizes double from class to class and all but the last are below maxBufferSize |
| `BufferLayout.ClassesStop` | dhsDesign/radlib-2.3.0/src/radbuffers.c:147-168 | the counts are the caller's, and the classes stop behind the first size that reaches maxBufferSize, before a count that is not positive, or with the tenth |
| `BufferLayout.BlocksTile` | dhsDesign/radlib-2.3.0/src/radbuffers.c:130-231 | the header-plus-payload blocks are pairwise disjoint and tile the computed segment behind the pool record exactly |
| `BufferShare.PlanSizes` | dhsDesign/radlib-2.3.0/src/radbuffers.c:132-170 | the loop computes the classes, the bytes each takes, and the segment length |
| `BufferShare.LayRow` | dhsDesign/radlib-2.3.0/src/radbuffers.c:214-230 | the header loop chains the blocks of a class in address order, ended by 0, not allocated |
| `BufferShare.LayOut` | dhsDesign/radlib-2.3.0/src/radbuffers.c:198-231 | after the loop over the classes every class's chain visits each of its blocks once |
| `BufferShare.Share.constructor` | dhsDesign/radlib-2.3.0/src/radbuffers.c:130-231 | radBuffersInit leaves a segment of the computed length in which every block is free |
| `BufferShare.Init` | dhsDesign/radlib-2.3.0/src/radbuffers.c:119-231 | without a segment to attach to, a maximum size of 0 or less is an error; otherwise the segment is laid out |
| `BufferShare.Share.Get` | dhsDesign/radlib-2.3.0/src/radbuffers.c:245-305 | the block is the first of the smallest class that is large enough and has one, it leaves that class's chain and no other, nobody had it, and it is held and counted; NULL exactly when every class that is large enough is empty or the size is negative, and then nothing changes |
| `BufferShare.Share.TestFlag` | dhsDesign/radlib-2.3.0/src/radbuffers.c:323-328 | the test of the flag passes exactly for a block that is held, changes no word, and leaves the segment sound unless another release of the block has passed it |
| `BufferShare.Share.StoreFlag` | dhsDesign/radlib-2.3.0/src/radbuffers.c:329-332 | the write behind the test clears the flag and is the step `Store` |
| `BufferShare.Share.Release` | dhsDesign/radlib-2.3.0/src/radbuffers.c:312-342 | a held buffer that no other release is under way for goes to the front of its own class's chain; any other block is refused without any change |
| `BufferShare.Share.PopLocked` | dhsDesign/radlib-2.3.0/src/radbuffers.c:255-294 | the part of radBufferGet under the lock is the step `Pop` |
| `BufferShare.Share.GetSizeAvail` | dhsDesign/radlib-2.3.0/src/radbuffers.c:404-423 | the loop ends and returns the length of the class's chain |
| `BufferShare.Share.GetTotal` | dhsDesign/radlib-2.3.0/src/radbuffers.c:388-401 | the sum of the counts is the number of all blocks |
| `BufferShare.Share.GetAvailable` | dhsDesign/radlib-2.3.0/src/radbuffers.c:426-441 | the sum is the number of all free blocks |
| `BufferPool.StepKeepsInv` | dhsDesign/radlib-2.3.0/src/radbuffers.c:245-342 | each step of any process, each of the three accesses to the flag included, keeps the invariant and looks for headers only where there are some, unless it is a second release that gets past the test |
| `BufferPool.RunsKeepTheChains` | dhsDesign/radlib-2.3.0/src/radbuffers.c:245-342 | in every state that an interleaving without double releases can reach, every class has an acyclic chain of its own blocks ended by 0 |
| `BufferPool.IntactExactly` | dhsDesign/radlib-2.3.0/src/radbuffers.c:245-342 | for every legal schedule: at each of its points the chains survive all calls under way if and only if no second release of a block gets past the test while one is under way |
| `BufferPool.ReleasedTwice` | dhsDesign/radlib-2.3.0/src/radbuffers.c:323-337 | for any held block, two releases that interleave both succeed and leave its class without a chain |
| `BufferPool.DoubleReleaseBreaks` | dhsDesign/radlib-2.3.0/src/radbuffers.c:329-337 | two releases past the test make the block link to itself |
| `BufferPool.OnePlace` | dhsDesign/radlib-2.3.0/src/radbuffers.c:245-342 | each block is once on its own class's chain and on no other, or off the chains in one phase |
| `BufferPool.OnlyHeldIsReleased` | dhsDesign/radlib-2.3.0/src/radbuffers.c:323-332 | in every such state the test of radBufferRls passes for exactly the buffers that are held; any other block is refused and nothing changes |
| `BufferHolders.StepKeepsOwned` | dhsDesign/radlib-2.3.0/src/radbuffers.c:245-342 | when a release that gets past the test is a holder's, each step keeps that no block has two holders and that exactly the held blocks no release has begun for have one |
| `BufferHolders.OneHolderExactly` | dhsDesign/radlib-2.3.0/src/radbuffers.c:245-342 | for every legal schedule of processes: at none of its points can a block come to two holders without a further release, if and only if every release that gets past the test is a holder's |
| `BufferHolders.OthersRelease` | dhsDesign/radlib-2.3.0/src/radbuffers.c:312-342 | after a release by a process that does not hold the block, the calls under way and further radBufferGet calls can give it to two holders |
| `BufferHolders.GetWasNobodys` | dhsDesign/radlib-2.3.0/src/radbuffers.c:255-305 | the block radBufferGet takes has no holder |
| `BufferPool.RunKeepsInv` | dhsDesign/radlib-2.3.0/src/radbuffers.c:245-342 | no interleaving without double releases ever looks for a header where there is none, and all of them keep the invariant |
| `BufferPool.GetIsSmallestFit` | dhsDesign/radlib-2.3.0/src/radbuffers.c:255-305 | the block comes from the smallest fitting class that has one, offers at least the size asked for and was not handed out; NULL exactly when every fitting class is empty |
| `BufferPool.GetTakes` | dhsDesign/radlib-2.3.0/src/radbuffers.c:255-305 | in plain sizes: which block is taken and what remains of the chains, for every request, negative ones included |
| `BufferPool.NoBlockIsLost` | dhsDesign/radlib-2.3.0/src/radbuffers.c:388-401 | free, popped, held and cleared blocks always sum to radBuffersGetTotal |
| `RadList.List.constructor` | dhsDesign/radlib-2.3.0/src/radlist.c:75-92 | radListCreate makes the empty sequence |
| `RadList.List.InsertAfter` | dhsDesign/radlib-2.3.0/src/radlist.c:122-135 | the node is inserted behind the given one |
| `RadList.List.InsertBefore` | dhsDesign/radlib-2.3.0/src/radlist.c:138-152 | the node is inserted in front of the given one |
| `RadList.List.AddToFront` | dhsDesign/radlib-2.3.0/src/radlist.c:155-167 | the node becomes the first |
| `RadList.List.AddToEnd` | dhsDesign/radlib-2.3.0/src/radlist.c:170-182 | the node becomes the last |
| `RadList.List.Remove` | dhsDesign/radlib-2.3.0/src/radlist.c:185-195 | exactly the given node leaves the sequence |
| `RadList.List.RemoveFirst` | dhsDesign/radlib-2.3.0/src/radlist.c:198-214 | the first node leaves, NULL from an empty list |
| `RadList.List.RemoveLast` | dhsDesign/radlib-2.3.0/src/radlist.c:217-233 | the last node leaves, NULL from an empty list |
| `RadList.List.GetNext` | dhsDesign/radlib-2.3.0/src/radlist.c:268-281 | the next node of the sequence, NULL behind the last; NULL gets the first |
| `RadList.List.GetPrevious` | dhsDesign/radlib-2.3.0/src/radlist.c:284-297 | the previous node of the sequence, NULL before the first; NULL gets the last |
| `RadSortList.SortList.Insert` | dhsDesign/radlib-2.3.0/src/radsortlist.c:108-125 | radSortListInsert is stable insertion by key: behind all keys that are not greater, in front of the first greater one |
| `RadSortList.SortList.Remove` | dhsDesign/radlib-2.3.0/src/radsortlist.c:127-143 | the node is removed if it is on the list, ERROR and no change otherwise |
| `RadSortList.SortList.Find` | dhsDesign/radlib-2.3.0/src/radsortlist.c:145-160 | the first node with the key, NULL exactly if there is none |
| `RadProcList.ProcList.LastNotAbove` | dhsDesign/radlib-2.3.0/src/radproclist.c:90-100 | the search of insertAscending finds the last node not above the priority |
| `RadProcList.ProcList.InsertAscending` | dhsDesign/radlib-2.3.0/src/radproclist.c:88-110 | insertAscending is the same stable insertion, by priority |
| `RadProcList.ProcList.Add` | dhsDesign/radlib-2.3.0/src/radproclist.c:207-223 | priorities outside 1 to 100 are refused; otherwise the entry is added behind equal priorities |
| `RadProcList.ProcList.Start` | dhsDesign/radlib-2.3.0/src/radproclist.c:232-271 | processes start once, by ascending priority, in the stable sort of the order they were added in, and each gets its process id |
| `RadProcList.ProcList.GetNumberRunning` | dhsDesign/radlib-2.3.0/src/radproclist.c:278-297 | the number of entries with a process id |
| `StableSort.InsertIsStable` | dhsDesign/radlib-2.3.0/src/radsortlist.c:108-125 | within its key the new element goes last and no other element moves |
| `StableSort.AddsSortStably` | dhsDesign/radlib-2.3.0/src/radproclist.c:88-110 | any series of adds leaves a stable sort of the insertion order |
| `StableSort.StableSortIsUnique` | dhsDesign/radlib-2.3.0/src/radproclist.c:88-110 | sorted order and the order within each key determine the list, so it is the stable sort |

## Left out

- The mm locks always succeed, and the allocator runs one call at a time; the lock itself is `MmLock`.
- MmPool.Pool.Malloc: takes requests whose aligned size fits 32 bits; a request that wraps `size_t` around is not modelled.
- MmPool.Pool.Realloc: the same.
- Pointers given to mm_free and mm_realloc are live, or the head of a free chunk in mm_insert_chunk; any other pointer has no defined result in the source.
- mm_calloc, mm_strdup, mm_sizeof, mm_destroy and the error strings: they only wrap what is modelled.
- Chunk layouts of other word sizes; the proofs use the 32-bit ones.
- SEM_UNDO, interrupted or failing semop calls, and the fcntl, flock and BeOS variants of the mm lock.
- Progress of the mm lock under new calls: only schedules without new calls are shown to end (`MmLock.WriterStarves` shows why).
- Timers: elapsed milliseconds between two ticks stay below the tail's 0xffffffff, the two clock reads of timerProcess are one, and a write to the notify descriptor never fails.
- Timers: apart from `TimerCells.LateStop`, where the handler comes in once, each call is one step for the signal handler.
- radTimerSetUserParm and radTimerListDelete, which write one field or free the block.
- Files, file locks and symbolic links: radCfOpen gets the text of the file, radCfFlush returns the text it writes.
- Configuration strings have no NUL character, and a radBufferGet that fails inside radCfOpen or radCfInsertTextHdr is not modelled (in radCfPutEntry it is).
- The wording of the text header: any lines without a newline stand for it.
- ConfFile.ConfFile.PutEntry: strings are not cut to the array sizes; by `ConfLaws.StoredValueComesBack` only entries that fit come back.
- radCfPutComment and the functions that look for comments around an entry: more searches of the same kind.
- strtok, isspace and fgets are functions with the meaning the C standard gives them.
- radBuffersInit where the segment already exists, and its error returns for shared memory; the caller's count array has ten entries, of which the source may look at one more than it uses, and the segment length fits a signed 32-bit integer.
- BufferShare.Share.GetAvailable: adds up the chains with no other process at work, because the source takes the lock for each class separately and the sum need not be that of one moment.
- BufferShare.Share.Release: runs one call from start to end and asks that no other release of the block is between its test and its write; `BufferPool.IntactExactly` has all interleavings.
- The lock of the buffer segment is taken to exclude (radsystem.c resets that semaphore on every attach).
- Nodes given to the radlist calls are on the list, or not on it when they are added, as the source requires.
- Process start-up, the semaphore handshake and the pid operations of radproclist.c other than start and count; radStartProcess is a given sequence of process ids.
- radqueue, radsystem, radstack, radstates, the database and event wrappers, all of dhsLibraries and monsoon_api: stubs, system calls or easy members.
