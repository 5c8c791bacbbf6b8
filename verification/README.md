# Tyrecon, modelled and proved

Tyrecon (type reconnaissance) is an agent injected into a Windows process: it breakpoints functions, replaces others,
tracks heap allocations and reads dispatch tables. This project models the parts of it whose correctness is hard to see
from the code, and proves what they promise, or exactly when they keep the promise.

| file | models | main result |
|---|---|---|
| `Blocks.dfy` | address ranges and cutting them | the collision test is wider than overlap, and exactly where; cut pieces are a set difference |
| `AllocationTracker.dfy` | the allocation list | pointwise overwriting; exact termination of `track_new` as written, total correctness for half-open overlap |
| `HeapHistory.dfy` | the malloc and free hooks over whole runs, the use-after-free check | after every run, whatever the heap hands out, lookups agree with the history; exactly when every ASSERT holds |
| `ReallocRuns.dfy` | runs of malloc, free and realloc | the list stays disjoint exactly when every realloc moves to a clear place, and lookups then agree with the run |
| `Instrumentation.dfy` | breakpoints, exception handler | however often an address is instrumented, its true byte is restored |
| `Breakpoints.dfy`, `BreakpointLog.dfy` | the engine as a protocol of any number of threads | instrumentation is transparent under every interleaving, and every original run is realised; the log of one thread is exact |
| `CallbackLogs.dfy` | the callbacks of each of many threads | exactly when a thread's callbacks are those of the instructions it executes |
| `CodeBuffer.dfy`, `FunctionReplacement.dfy`, `Trampolines.dfy` | the bump allocator, `replace_function`, patched memory | regions are disjoint iff sizes never decrease; what is executed where |
| `Replacements.dfy` | a program with any number of replaced functions | it simulates the original, and each copy is its original function, whatever the exchangeable jumps lead to |
| `ShortCopies.dfy` | copies that come out too short | exactly when a copy resumes its original; two programs that lose their meaning |
| `LoaderStub.dfy`, `LoaderImage.dfy` | 53 bytes of x86-64, the image they travel in | the bytes refine their pseudo-C for every memory and every callee that keeps the calling convention |
| `DispatchTables.dfy` | the pointer-table scan | exactly the maximal runs, within a bound on the words read; exact termination |
| `FunctionDiscovery.dfy` | leaf functions, their filter, the marking of table entries | sound and complete for the three loops |

`Common.dfy` and `Words.dfy` hold an option type, little-endian words and byte memory.

Loops and methods that change state are methods of classes or over arrays, each proved against a function of the old
state; the lemmas are about those functions.

## Where the code and its intent differ

- `Block::intersect` asks `contains(other.end)` although `end` is not in a block. So `track_new` as written does not
  return when some tracked block contains the end of the new one, for instance when an older block begins where the new
  one ends (`AsWrittenReturns`, `AdjacentBlockNeverReturns`). Every result about the tracker is stated for both tests:
  `AsWritten`, where it returns, and `HalfOpen`, the evident intent, always.
- A malloc that fails is tracked as a block at 0 (`FailedMallocsBreakAssert`, `FailedMallocSwallows`), the free hook
  frees before it marks (`SplitFreeBreaksAssert`), and a realloc that moves a block or fails ignores what is tracked at
  the new place or at 0 (`MarkReallocatedDisjoint`, `MarkReallocatedSeen`, `ReallocReportsLive`,
  `FailedReallocLosesLive`). `AssertsExactly` says of every run whether its ASSERTs hold, and `TrackerAgreesWithHistory`
  what every lookup gives all the same.
- `replace_function` patches even when decoding stopped before a jump's worth of bytes, and the copy then resumes inside
  the patch; after a shorter re-encoding, what the buffer held before runs as code between the copy and the jump back
  (`ResumesExactly`, `ShortScanLosesMeaning`, `ShortEncodingLosesMeaning`).
- `reserve_unaligned` returns the offset after adding the size, and nothing checks the buffer's size: reservations are
  disjoint only because all have the same size, and the 512th lies behind the buffer (`TrampolinesFit`).
- With two threads a callback can be missed (`CallbackMissed`), and it can be made twice for one execution
  (`CallbackTwice`). `LogExactly` says when neither happens.
- The image offsets are 32 bits wide: two of its pointers are right exactly for images below 4 GiB (`ImageConsistent`).
- `find_pointer_tables` with a minimum size of 0 returns exactly when every slot points (`TerminatesExactly`).

## Model

| member | source | states |
|---|---|---|
| `Blocks.OverlapsMeansShared` | shared/memory_block.hpp:12 | Half-open overlap, as `contains` defines membership, is sharing an address. |
| `Blocks.IntersectVersusOverlaps` | shared/memory_block.hpp:14-17 | The code's collision test covers half-open overlap and is wider exactly for a new block that ends where an entry begins, for an empty new block inside an entry, and for an empty entry at or inside the new block. |
| `Blocks.CutPieces` | shared/memory_block.hpp:36-59 | At most two pieces, non-empty, inside the entry, outside the window, apart from each other. |
| `Blocks.CutIsDifference` | shared/memory_block.hpp:36-59 | The pieces are the set difference if and only if the entry is empty or the two blocks touch. |
| `AllocationTracker.Find` | win_agent/allocation_tracking/allocation_tracker.cpp:8-12 | The first entry that contains the address, or the list's length when none does. |
| `AllocationTracker.LookupIs` | win_agent/allocation_tracking/allocation_tracker.cpp:14-19 | In a disjoint list an entry that contains the address is the one a lookup finds: list order is irrelevant. |
| `AllocationTracker.RecutCollisions` | win_agent/allocation_tracking/allocation_tracker.cpp:24-42 | Replacing a colliding entry by its pieces removes one collision and adds none, while no entry holds the new block's end or the test is half-open. |
| `AllocationTracker.RecutLookup` | win_agent/allocation_tracking/allocation_tracker.cpp:24-42 | Outside the window, cutting an entry trims what lookups of its addresses give and leaves all other lookups alone. |
| `AllocationTracker.SettleLookup` | win_agent/allocation_tracking/allocation_tracker.cpp:22-45 | The whole loop leaves a disjoint list clear of the window, trimmed pointwise. |
| `AllocationTracker.TrackNewOverwrites` | win_agent/allocation_tracking/allocation_tracker.cpp:21-47 | `track_new` keeps the list disjoint and is a pointwise overwrite: addresses of the new block map to it, all others keep status, call site and reallocation sites. |
| `AllocationTracker.ScansForever` | win_agent/allocation_tracking/allocation_tracker.cpp:22-45 | With the code's test, an entry ahead that holds the new block's end keeps the loop running for any number of iterations. |
| `AllocationTracker.AsWrittenReturns` | win_agent/allocation_tracking/allocation_tracker.cpp:21-47 | Exact termination as written: `track_new` returns if and only if no tracked block contains the new block's end. |
| `AllocationTracker.HalfOpenReturns` | win_agent/allocation_tracking/allocation_tracker.cpp:21-47 | With half-open overlap it returns for every list and block. |
| `AllocationTracker.ReturnsTracked` | win_agent/allocation_tracking/allocation_tracker.cpp:21-47 | Whenever the loop returns, after however many iterations, the list is the specified one and no ASSERT failed exactly when every cut entry that leaves a piece was FREED. |
| `AllocationTracker.AdjacentBlockNeverReturns` | win_agent/allocation_tracking/allocation_tracker.cpp:24 | A freed block directly above the new one is disjoint from it, and `track_new` as written does not return. |
| `AllocationTracker.MarkFreeLookup` | win_agent/allocation_tracking/allocation_tracker.cpp:49-59 | Freeing marks the one block around the pointer, changes no other lookup and keeps disjointness. |
| `AllocationTracker.MarkReallocatedDisjoint` | win_agent/allocation_tracking/allocation_tracker.cpp:61-74 | `mark_reallocated` keeps disjointness if and only if the new range overlaps no other entry. |
| `AllocationTracker.MarkReallocatedLookup` | win_agent/allocation_tracking/allocation_tracker.cpp:61-74 | Then the view is the old one with the old range removed and the new range mapped to REALLOCATED with the call site added. |
| `AllocationTracker.MarkReallocatedSeen` | win_agent/allocation_tracking/allocation_tracker.cpp:61-74 | In any list, a lookup in the new range finds the reallocated entry if and only if no earlier entry contains the address. |
| `AllocationTracker.ShrinkKeepsDisjoint` | win_agent/allocation_tracking/allocation_tracker.cpp:61-74 | An in-place shrink always keeps disjointness. |
| `AllocationTracker.AllocationList.LookupAlloc` | win_agent/allocation_tracking/allocation_tracker.cpp:14-19 | The lookup the lemmas are about, by the loop of `find`. |
| `AllocationTracker.AllocationList.Replace` | win_agent/allocation_tracking/allocation_tracker.cpp:26-41 | Appending the pieces and erasing the entry gives the recut list, and tells whether the ASSERT held for every piece. |
| `AllocationTracker.AllocationList.TrackNew` | win_agent/allocation_tracking/allocation_tracker.cpp:21-47 | For every list, overlapping entries included, the restart loop terminates where it can and its ASSERTs all hold exactly when every cut entry is FREED; a disjoint list stays so and is overwritten pointwise. |
| `AllocationTracker.AllocationList.MarkFree` | win_agent/allocation_tracking/allocation_tracker.cpp:49-59 | For every list: INVALID_FREE for an untracked pointer, DOUBLE_FREE for a freed one, else OK and the first entry around it is marked. |
| `AllocationTracker.AllocationList.MarkReallocated` | win_agent/allocation_tracking/allocation_tracker.cpp:61-74 | The three assignments amount to the entry the lemmas describe; an untracked block changes nothing. |
| `HeapHistory.MallocAgrees` | win_agent/allocation_tracking/crt_instrumentation.cpp:12-40 | A new block cuts the pieces of earlier allocations exactly where it lies between their addresses, and what a lookup outside it gives is cut the same way. |
| `HeapHistory.FreeAgrees` | win_agent/allocation_tracking/crt_instrumentation.cpp:42-46 | A free, valid, double or invalid, frees exactly the piece around its pointer. |
| `HeapHistory.TrackerAgreesWithHistory` | win_agent/allocation_tracking/crt_instrumentation.cpp:12-46 | After any run of the hooks that returns, whatever the heap hands out and whatever is freed: a lookup gives the last allocation to cover the address and nothing where none did; its block is exactly the addresses not cut off from this one by a later allocation; it is FREED exactly when a later free was given an address that was then of the same piece. |
| `HeapHistory.FreedPieceWhen` | win_agent/allocation_tracking/allocation_tracker.cpp:49-59 | A piece counts as freed if and only if its allocation was freed by a pointer from which no block handed out in between cut it off. |
| `HeapHistory.FarEndMissed` | win_agent/allocation_tracking/allocation_tracker.cpp:21-59 | A run in which that happens: a block inside a live one, freed at its beginning, counts as allocated at its end. |
| `HeapHistory.DisciplinedPieces` | win_agent/allocation_tracking/crt_instrumentation.cpp:12-46 | When the heap never hands out live memory, a lookup is FREED exactly when its allocation was freed, and gives its whole block while it was not. |
| `HeapHistory.AssertWhen` | win_agent/allocation_tracking/allocation_tracker.cpp:33 | The ASSERT of one malloc, in terms of the history: every piece with addresses inside and outside the new block was freed. |
| `HeapHistory.AssertsExactly` | win_agent/allocation_tracking/allocation_tracker.cpp:33 | Every ASSERT of a run holds if and only if no block handed out takes a proper part of an allocation that was not freed and that no block overlapped in between. |
| `HeapHistory.AssertAlwaysHolds` | win_agent/allocation_tracking/allocation_tracker.cpp:33 | While the heap never hands out live memory, the ASSERT holds at every malloc. |
| `HeapHistory.ReturningWhen` | win_agent/allocation_tracking/allocation_tracker.cpp:21-47 | With the test as written, every call of a run returns if and only if every malloc's block ends where no address is covered. |
| `HeapHistory.UseAfterFreeSeen` | win_agent/allocation_tracking/track_usage.cpp:12-14 | After any run, an address is found freed if and only if it was allocated and its piece was freed since. |
| `HeapHistory.CheckUseAfterFree` | win_agent/allocation_tracking/track_usage.cpp:6-22 | Exactly the arguments, in order, that point into freed entries are reported, the first four when the parameter count is 0xFFFFFFFF, unknown; after a run, those whose address was allocated and its piece freed since. |
| `HeapHistory.MallocHook` | win_agent/allocation_tracking/crt_instrumentation.cpp:12-40 | The hook moves the tracker from the state after one history to that after the history with the event added; its ASSERTs hold exactly when it cuts no piece that was not freed. |
| `HeapHistory.FreeHook` | win_agent/allocation_tracking/crt_instrumentation.cpp:42-46 | The same for the free hook. |
| `HeapHistory.FailedMallocsBreakAssert` | win_agent/allocation_tracking/crt_instrumentation.cpp:28-32 | Two failing mallocs, the second asking for less, are an instance: NULL is tracked like a block. |
| `HeapHistory.FailedMallocSwallows` | win_agent/allocation_tracking/crt_instrumentation.cpp:28-32 | One failing malloc that asks for enough takes over every lookup of the live blocks it covers, and no ASSERT fails. |
| `HeapHistory.SplitFreeBreaksAssert` | win_agent/allocation_tracking/crt_instrumentation.cpp:42-46 | With a malloc between the real free and `mark_free`, the heap still keeps its discipline, and the ASSERT holds if and only if the new block misses the old one or covers it. |
| `HeapHistory.ReallocReportsLive` | win_agent/allocation_tracking/crt_instrumentation.cpp:48-53 | A live block that realloc moved to where an earlier freed one was is taken for freed memory. |
| `HeapHistory.FailedReallocLosesLive` | win_agent/allocation_tracking/crt_instrumentation.cpp:48-53 | A failing realloc moves the entry of a block that stays live to 0, and the block is no longer tracked. |
| `ReallocRuns.ReallocAgrees` | win_agent/allocation_tracking/allocation_tracker.cpp:61-74 | A realloc to a clear place gives the new place to the piece around its pointer, with its call site, the new site and status REALLOCATED, forgets the rest of the old place, and changes no other piece. |
| `ReallocRuns.AfterRealloc` | win_agent/allocation_tracking/allocation_tracker.cpp:68-71 | After a realloc of a tracked pointer to a clear place, the reallocated allocation is found at exactly the new size's addresses from the new pointer on, what else was of its piece is no longer tracked, and nothing else changes. |
| `ReallocRuns.ReallocHook` | win_agent/allocation_tracking/crt_instrumentation.cpp:48-53 | The hook moves the tracker from the state after one run to that after the run with the realloc added. |
| `ReallocRuns.DisjointWhenClear` | win_agent/allocation_tracking/allocation_tracker.cpp:61-74 | `mark_reallocated` keeps the list disjoint if and only if whatever is still given out at the new place is part of the block being reallocated. |
| `ReallocRuns.ShrinkIsClear` | win_agent/allocation_tracking/allocation_tracker.cpp:61-74 | A new place inside the block itself is always clear. |
| `ReallocRuns.TrackerAgreesWithRun` | win_agent/allocation_tracking/crt_instrumentation.cpp:12-53 | After any run of all three hooks that returns and whose reallocs move to clear places, every lookup gives the allocation that last got the address, its call site and all its reallocation sites, exactly the addresses of its piece, FREED exactly when that piece was freed since, else REALLOCATED or ALLOCATED. |
| `ReallocRuns.DisjointExactly` | win_agent/allocation_tracking/crt_instrumentation.cpp:48-53 | The list stays disjoint throughout a run if and only if every realloc moves to a clear place. |
| `ReallocRuns.UseAfterFreeSeen` | win_agent/allocation_tracking/track_usage.cpp:12-14 | After such a run an address is found freed if and only if its piece was freed since it was given out. |
| `ReallocRuns.CoverIsLastCover` | win_agent/allocation_tracking/crt_instrumentation.cpp:12-46 | Without reallocs, what the run says last gave out an address is what the history of the heap says. |
| `Instrumentation.InstrumentAllRecords` | win_agent/instrumentation/fault_inducer.cpp:27-35 | After any sequence of `instrument` calls, repetitions included: every listed address is armed, nothing else is touched, the first entry for an address has its true byte, every later one has 0xCC. |
| `Instrumentation.InstrumentedAre` | win_agent/instrumentation/fault_inducer.cpp:37-50 | An entry is found exactly for the listed addresses, and it is one with the true byte. |
| `Instrumentation.FirstEntryRestores` | win_agent/instrumentation/fault_inducer.cpp:64-70 | Disabling the found entry restores the true byte and leaves all other breakpoints armed. |
| `Instrumentation.RearmArms` | win_agent/instrumentation/veh.cpp:40-44 | The pending callbacks arm exactly the addresses they stand for. |
| `Instrumentation.InstrumentationHandler.Instrument` | win_agent/instrumentation/fault_inducer.cpp:27-35 | Refuses where code cannot execute; otherwise 0xCC stands at the address and the handler is in the state after one more of the instrumented addresses. |
| `Instrumentation.InstrumentationHandler.FindCodeInstrumentation` | win_agent/instrumentation/fault_inducer.cpp:37-50 | The first entry for the address. |
| `Instrumentation.InstrumentationHandler.RunSinglestepCallbacks` | win_agent/instrumentation/veh.cpp:41-43 | All pending callbacks run once, in order, and the list is empty. |
| `Instrumentation.InstrumentationHandler.VehHandler` | win_agent/instrumentation/veh.cpp:10-68 | The whole new state and the disposition for every kind of exception: a known breakpoint is called back, restored, single-stepped and pending; a single step re-arms; the rest changes nothing. |
| `Breakpoints.InstalledSound` | win_agent/instrumentation/fault_inducer.cpp:27-35 | Installing in any order and repeatedly leads to entries with true bytes and every breakpoint armed, at exactly the listed addresses. |
| `Breakpoints.InstalledTraps` | win_agent/instrumentation/fault_inducer.cpp:57-58 | A thread that comes to an installed address raises the processor's breakpoint exception, and its handler calls back for it. |
| `Breakpoints.FetchIsOriginal` | win_agent/instrumentation/veh.cpp:30-35 | Under the invariant a thread that does not trap executes exactly the original instruction, whatever the other threads have patched in its other bytes. |
| `Breakpoints.RearmKeepsInvariant` | win_agent/instrumentation/veh.cpp:40-45 | Serving one pending callback keeps the invariant although others may hold the same breakpoint. |
| `Breakpoints.StepKeepsInvariant` | win_agent/instrumentation/veh.cpp:10-45 | Every step of every thread keeps the invariant. |
| `Breakpoints.StepProjects` | win_agent/instrumentation/veh.cpp:10-45 | A step is invisible to the program or is a step of the original program by the same thread. |
| `Breakpoints.ExecutionKeepsInvariant` | win_agent/instrumentation/veh.cpp:10-45 | The invariant holds in every reachable state of any number of threads. |
| `Breakpoints.ReachableBreakpoints` | win_agent/instrumentation/veh.cpp:30-44 | In every reachable state an instrumented byte is 0xCC or original, original only while some thread has its re-arming to do; with nothing pending every breakpoint is armed and every thread that comes to one traps. |
| `Breakpoints.Transparent` | win_agent/instrumentation/veh.cpp:10-45 | Under every interleaving the instrumented run is, seen by the program, the original run under the schedule of its retired instructions. All that is asked of the program is that its own runs never come to an instruction with a breakpoint inside. |
| `BreakpointLog.SoloLog` | win_agent/instrumentation/veh.cpp:14-45 | One thread: the callback log is the subsequence of executed instructions that are instrumented, once each, in order; and an instruction retires every seven steps, so the handler never gets stuck. |
| `BreakpointLog.ReachesServed` | win_agent/instrumentation/veh.cpp:22-37 | The handler's separate steps, undisturbed, add up to what the handler does as a whole. |
| `BreakpointLog.ReachesRearmed` | win_agent/instrumentation/veh.cpp:40-44 | The separate steps of the single-step handler, undisturbed, add up to running every pending callback, whatever is pending. |
| `BreakpointLog.EveryRunRealised` | win_agent/instrumentation/veh.cpp:10-45 | Conversely every run of the original program, under every schedule, is the projection of an instrumented one that ends with all breakpoints armed. |
| `CallbackLogs.OwnStep` | win_agent/instrumentation/veh.cpp:14-45 | A thread's step keeps its log exact if and only if it does not execute an instrumented instruction it does not hold, nor take a trap on one it holds. |
| `CallbackLogs.LogExactly` | win_agent/instrumentation/veh.cpp:10-45 | Any number of threads: a thread's callbacks are those of the instrumented instructions it executes, once each and in order, throughout a run, if and only if no step of its own finds it astray in that sense. |
| `CallbackLogs.SkippedOnlyWhileHeld` | win_agent/instrumentation/veh.cpp:30-35 | A thread executes an instrumented instruction it does not hold only while another thread holds the breakpoint. |
| `CallbackLogs.AloneIsExact` | win_agent/instrumentation/veh.cpp:10-45 | If no thread outside the single-step handler is ever at an instruction whose breakpoint another thread holds, the callbacks of every thread are exact in every state. |
| `CallbackLogs.CallbackMissed` | win_agent/instrumentation/veh.cpp:30-35 | A run of two threads in which a callback is missed. |
| `CallbackLogs.CallbackTwice` | win_agent/instrumentation/veh.cpp:40-44 | A run of two threads in which a thread is called back twice for one execution and none is missed. |
| `CodeBuffers.Padded` | win_agent/instrumentation/function_replacement.cpp:44-53 | Alignment always adds: the next multiple strictly above the size, by up to a whole alignment. |
| `CodeBuffers.ConsecutiveDisjoint` | win_agent/instrumentation/function_replacement.cpp:34-38 | Consecutive reservations are disjoint if and only if the later is not smaller. |
| `CodeBuffers.DisjointIffNonDecreasing` | win_agent/instrumentation/function_replacement.cpp:34-53 | All reservations are pairwise disjoint if and only if their sizes never decrease. |
| `CodeBuffers.TrampolinesFit` | win_agent/instrumentation/function_replacement.cpp:67-72 | Requests of 28 to 56 bytes all take 64, never overlap, and the k-th from 0 lies in the buffer if and only if k < 511. |
| `CodeBuffers.CodeBuffer.ReserveAligned` | win_agent/instrumentation/function_replacement.cpp:44-53 | The buffer stays at the sum of the padded sizes, and what is handed out is the region the disjointness lemmas are about. |
| `FunctionReplacement.ScanBounds` | win_agent/instrumentation/function_replacement.cpp:119-137 | The copied instructions amount to at most 28 bytes inside memory, and to fewer than 14 only when decoding failed behind them. |
| `FunctionReplacement.TakePrologue` | win_agent/instrumentation/function_replacement.cpp:119-137 | The loop takes exactly the scanned instructions, each with its bytes, or fails exactly when one has no encoder request. |
| `FunctionReplacement.Reassemble` | win_agent/instrumentation/function_replacement.cpp:143-154 | Re-encoding fails exactly when an instruction cannot be encoded into what is left of the originals' room; either way only the buffer is written, by exactly the codes made. |
| `FunctionReplacement.WriteJumps` | win_agent/instrumentation/function_replacement.cpp:163-191 | The three jumps complete the patched memory and the returned slot is the address inside the middle one. |
| `FunctionReplacement.ReplaceFunction` | win_agent/instrumentation/function_replacement.cpp:86-193 | It fails before reserving and changes nothing, or fails with the reservation given back and nothing but the buffer touched, or patches; the buffer is the next region of 64 bytes. |
| `Trampolines.PatchedReads` | win_agent/instrumentation/function_replacement.cpp:163-191 | Patched memory reads as the three jumps, the copied code, however short, and the original everywhere else, the gap behind a short copy included: no write destroys another. |
| `Trampolines.JmpBytes` | win_agent/instrumentation/function_replacement.cpp:74-84 | The 14 bytes written are the processor's indirect jump with displacement 0, and the little-endian u64 behind its 6 bytes is the target. |
| `Trampolines.EnterFunction` | win_agent/instrumentation/function_replacement.cpp:168-191 | Calling the patched function arrives at the exchangeable target in two steps with nothing changed, the processor reading each target from memory. |
| `Trampolines.CopyStep` | win_agent/instrumentation/function_replacement.cpp:145-154 | A copied instruction does what its original does and goes on to the next copy, or branches to where the original branches. |
| `Replacements.SimulateStep` | win_agent/instrumentation/function_replacement.cpp:139-192 | With any number of functions replaced, one step of the original program is at least one of the patched, again in relation; wherever data sends a branch, it must only not go into copied bytes or to a function whose calls were sent elsewhere. |
| `Replacements.TrampolinePreserves` | win_agent/instrumentation/function_replacement.cpp:139-192 | With the default target the patched program follows any run of the original of any length, returns and indirect branches, the function's own calls and re-entries included; outside the copied bytes the states are equal. |
| `Replacements.RebaseFaithful` | win_agent/allocation_tracking/crt_instrumentation.cpp:59-73 | A replacement made on memory already patched elsewhere is one of the function in the original memory. |
| `Replacements.ChainInstalls` | win_agent/allocation_tracking/crt_instrumentation.cpp:59-73 | After any number of replacements, one after the other and with targets exchanged in between, each stands as it was made and nothing else was touched. |
| `Replacements.ChainPreserves` | win_agent/allocation_tracking/crt_instrumentation.cpp:59-73 | The program with all of them follows the original's run, from the same state or from the copy of any function the original enters, for as long as the original calls no function whose calls were sent elsewhere: what a hook calls as the original function is that. |
| `Replacements.ChainEnters` | win_agent/allocation_tracking/crt_instrumentation.cpp:61-67 | A call of any of the functions goes to its own target with nothing changed on the way. |
| `Replacements.CopiedIsOriginal` | win_agent/instrumentation/function_replacement.cpp:156 | Whatever the target, entering at `copied` is calling the original function, up to a call of the function in its turn, and a call of the function goes to the target. |
| `Trampolines.ReplacementIsTrampoline` | win_agent/instrumentation/function_replacement.cpp:119-192 | What a successful `replace_function` leaves is the trampoline the simulation is about, if and only if the copy is as long as the original and a jump fits into it. |
| `Trampolines.LaterReplacementKeeps` | win_agent/allocation_tracking/crt_instrumentation.cpp:59-73 | Replacing another function later, in a buffer region of its own, leaves every byte of an earlier replacement as it was. |
| `ShortCopies.GapIsStale` | win_agent/instrumentation/function_replacement.cpp:145-166 | Between the end of a short copy and the jump back, patched memory holds what the buffer held before and executes it. |
| `ShortCopies.JumpsBack` | win_agent/instrumentation/function_replacement.cpp:163-166 | The jump back goes behind as many bytes of the function as the copy has. |
| `ShortCopies.ResumesExactly` | win_agent/instrumentation/function_replacement.cpp:119-166 | From the end of the copied instructions, and whatever the buffer held before, execution comes to fn+copy_len and finds the function's own code there, if and only if assembled == copy_len and the patch keeps what follows; it does when copy_len >= 14. |
| `ShortCopies.ShortEncodingLosesMeaning` | win_agent/instrumentation/function_replacement.cpp:145-166 | A program whose one instruction re-encodes shorter: patched, it changes data the original never changes. |
| `ShortCopies.ShortScanLosesMeaning` | win_agent/instrumentation/function_replacement.cpp:125-137 | A program whose second byte does not decode: it is patched all the same and then changes data the original never changes. |
| `Trampolines.ExchangeTarget` | win_agent/instrumentation/function_replacement.cpp:173-176 | Storing an address through the returned pointer is exchanging the target and nothing else. |
| `LoaderStub.BitandSelf` | win_agent/installer/parameterized_load.hpp:34 | `test rax, rax` tests rax itself, bitwise. |
| `LoaderStub.PrologueDecodes` | win_agent/installer/parameterized_load.hpp:27-31 | The bytes decode to the prologue written beside them, wherever they are loaded. |
| `LoaderStub.FirstCallDecodes` | win_agent/installer/parameterized_load.hpp:32-35 | ... to the first call and its check. |
| `LoaderStub.ArgumentsDecode` | win_agent/installer/parameterized_load.hpp:37-38 | ... to the second call's arguments. |
| `LoaderStub.SecondCallDecodes` | win_agent/installer/parameterized_load.hpp:39-42 | ... to the second call and its check. |
| `LoaderStub.SuccessDecodes` | win_agent/installer/parameterized_load.hpp:44-47 | ... to the tail call. |
| `LoaderStub.FailureDecodes` | win_agent/installer/parameterized_load.hpp:49-52 | ... to the failure exit. |
| `LoaderStub.SavesRbxKeepsConvention` | win_agent/installer/parameterized_load.hpp:27-32 | What is asked of callees is met by one that uses the stack below its entry. |
| `LoaderStub.CallReturns` | win_agent/installer/parameterized_load.hpp:32 | A callee that keeps the calling convention when entered with the stub's stack pointer comes back with rbx, the stack, the saved rbx, the return address and the stub intact. |
| `LoaderStub.TestStep` | win_agent/installer/parameterized_load.hpp:34-35 | The answer 0 leads to the failure exit, any other on, with all registers kept. |
| `LoaderStub.FailureExit` | win_agent/installer/parameterized_load.hpp:49-52 | Returns 0 to the caller with rsp and the nonvolatile registers as on entry. |
| `LoaderStub.SuccessExit` | win_agent/installer/parameterized_load.hpp:44-47 | The tail jump goes to the found procedure with the parameter in rcx, the entry stack shape and the nonvolatile registers restored. |
| `LoaderStub.StubRefines` | win_agent/installer/parameterized_load.hpp:14-53 | For every memory, load address, data and callee the bytes make the pseudo-C's calls with the same arguments in the same order, 16-byte aligned, and end as it does. |
| `LoaderImage.Pack` | win_agent/installer/main.cpp:97-128 | Building the image gives the 53 bytes of the stub, the 40 of LoadData and three strings in consecutive regions; the five fields, each at its place in bytes, hold the addresses, the offsets modulo 2^32. |
| `LoaderImage.WriteStruct` | win_agent/installer/main.cpp:121-128 | The five assignments set five different fields and touch neither stub nor strings. |
| `LoaderImage.StringAtUnique` | win_agent/installer/main.cpp:110-112 | Reading a NUL-terminated string at a place has one answer. |
| `LoaderImage.ImageConsistent` | win_agent/installer/main.cpp:104-130 | Loaded at any address: the stub stands there, each pointer leads to its string for all strings, the export and parameter pointers if and only if their offsets are below 2^32. |
| `LoaderImage.InjectedThread` | win_agent/installer/main.cpp:137-139 | Stub and image together: the thread calls the loader with the given path, looks up the given export in its answer, and ends in a call of what that found on the given parameter; at the first answer of 0 it returns 0 to its caller. |
| `DispatchTables.RunsApart` | win_agent/rtti/rtti_analyzer.cpp:18-37 | Two maximal runs are the same or a non-pointer lies between them. |
| `DispatchTables.TablesApart` | shared/memory_block.hpp:9 | Tables are disjoint with distinct starts, so the start-ordered set never turns one away. |
| `DispatchTables.FollowRun` | win_agent/rtti/rtti_analyzer.cpp:20-28 | The inner loop finds the end of the run of pointers, reading one word more at most. |
| `DispatchTables.TableIs` | win_agent/rtti/rtti_analyzer.cpp:18-37 | A table in terms of addresses: at least the minimum of 8-byte words side by side, each ending strictly before the section and pointing into the other, and none before or behind them. |
| `DispatchTables.FindPointerTables` | win_agent/rtti/rtti_analyzer.cpp:12-38 | Exactly those tables are added, one whose start the set already has excepted, and at most max(2, minimum) words are read per slot despite re-scanning. |
| `DispatchTables.TerminatesExactly` | win_agent/rtti/rtti_analyzer.cpp:18-37 | The scan terminates if and only if the minimum size is at least 1 or every slot points. |
| `FunctionDiscovery.AvailIs` | win_agent/disassembler/zydis_disasm.hpp:33-35 | What the disassembler may read: up to a known end, and up to the end of the address space for an unknown one. |
| `FunctionDiscovery.AvailAfter` | win_agent/disassembler/zydis_disasm.hpp:32-41 | Stepping over an instruction takes its length from what is available, an unknown end of 0 and the wrap-around included, so disassembly terminates. |
| `FunctionDiscovery.FunctionList.Find` | win_agent/function_finder/find_functions.cpp:31-40 | The first function that starts at the address. |
| `FunctionDiscovery.FunctionList.CollectFrom` | win_agent/function_finder/function_analyzer.cpp:9-46 | Of one function's call targets, exactly those not listed join the collection, which stays free of repetitions. |
| `FunctionDiscovery.FunctionList.CollectLeaves` | win_agent/function_finder/function_analyzer.cpp:9-49 | The collection is exactly the call targets of listed functions that are not listed. |
| `FunctionDiscovery.FunctionList.FindContaining` | win_agent/function_finder/function_analyzer.cpp:57-64 | Found if and only if some listed function of known end contains the address. |
| `FunctionDiscovery.FunctionList.FindLeafFunctions` | win_agent/function_finder/function_analyzer.cpp:5-73 | The list keeps what it had and gains exactly the call targets that are neither listed nor inside a listed function of known end, as leaves; distinct starts stay distinct. |
| `FunctionDiscovery.ProcessedAt` | win_agent/function_finder/function_processing.cpp:5-25 | Every function whose first instruction decodes is left, at the place its predecessors give it, with the address behind that instruction. |
| `FunctionDiscovery.ProcessedFrom` | win_agent/function_finder/function_processing.cpp:5-25 | Nothing else is left. |
| `FunctionDiscovery.KeptExactly` | win_agent/function_finder/function_processing.cpp:5-25 | In terms of the disassembler alone: what is left are exactly the functions for which it finds an instruction in the bytes up to their end, modulo 2^64, each with the address behind that instruction. |
| `FunctionDiscovery.ProcessedDistinct` | win_agent/function_finder/function_processing.cpp:5-25 | Distinct starts stay distinct. |
| `FunctionDiscovery.FunctionList.ProcessFunctions` | win_agent/function_finder/function_processing.cpp:5-25 | Erasing while iterating skips nothing and completes every function that stays. |
| `FunctionDiscovery.FunctionList.FindFunctions` | win_agent/function_finder/find_functions.cpp:14-22 | The three strategies together: a leaf at p is left if and only if the disassembler finds an instruction in the 2^64 - p bytes from it, a listed function of known end if and only if it finds one in its own bytes, and nothing else; starts stay distinct. |
| `FunctionDiscovery.FunctionList.FindRtti` | win_agent/rtti/rtti_analyzer.cpp:40-100 | Scan and marking together, on the two sections: nothing without both; else the first function of a start is newly marked if and only if the start is a word of .rdata, one that ends strictly before the section, it lies in .text, and the word before or behind it points into .text too. |
| `FunctionDiscovery.FunctionList.MarkTables` | win_agent/rtti/rtti_analyzer.cpp:67-99 | Over all tables, in any order, a function is marked exactly when its start is a word of some table and it is the first that starts there; nothing else changes. |
| `FunctionDiscovery.FunctionList.MarkTable` | win_agent/rtti/rtti_analyzer.cpp:92-98 | The same for one table. |
| `FunctionDiscovery.MarkedExactly` | win_agent/rtti/rtti_analyzer.cpp:92-98 | With distinct starts, a function is marked if and only if it was before or its start occurs in a table. |

## Left out

- Windows calls and page protections: they succeed, or refuse by a parameter (`Instrument`).
- Zydis and the processor: decoder, encoder and execution are functions with stated contracts (`Decodes`, `Jumps`, `Invalid`, `Faithful`, `Local`). Prologues whose copies cannot have the effect of the originals are outside them: RIP-relative ones, and calls, which push another return address at another place.
- Thread creation and exit: the set of threads does not change during a run of the breakpoint engine.
- Programs that read or write their own code, runs that branch into the copied bytes or come to an instruction with a breakpoint inside: excluded by assumption, as is a breakpoint of the program's own at an instrumented address where one thread's callbacks are counted.
- Programs that read their flags: the projection hides the trap flag, which is set while an instruction is single-stepped.
- Address wrap-around of a malloc result plus its size: addresses of blocks are unbounded.
- Lookups after a realloc to a place that is not clear: entries then overlap and the first of the list decides; `MarkReallocatedSeen` says per call which that is.
- Two hooks running at once inside the tracker: each hook is one event, apart from the free hook in `SplitFreeBreaksAssert`. The tracker has no lock.
- Iterator and pointer invalidation: indices stand for iterators, and instrumented entries are not added while threads run, so a pending callback's pointer into the growing vector is not captured.
- A failing ASSERT: a flag, and the loop goes on.
- Access violations, guard pages and unhandled exceptions beyond the handler's return code.
- The code buffer's own memory: allocation and release; the code has no bounds check, `CodeBuffers.TrampolinesFit` says when it would matter.
- Callees that overwrite the stub's 53 bytes or the two stack slots above their home area.
- A containing section that ends below 8, where the scan's limit wraps around.
- The order of the collected leaves; the unwind-table walk that fills the list first; RTTI records and the type list.
- Allocations by the agent itself (skipped by the hook), argument fetching (`get_arg`), logging, exfiltration, usage text, argument parsing, process attach, call stacks.
- FunctionReplacement.ReplaceFunction: requires the next 120 bytes behind the buffer's mark to be memory, because the code writes there without checking.
- Replacements.TrampolinePreserves: is stated for copies as long as their originals and at least a jump long; `ShortCopies` says what becomes of others.
