# Models and proofs for GeneralPurposeLibrary

GeneralPurposeLibrary is a C utility library. This project models the parts of it that
are algorithms or protocols rather than wrappers around the operating system, and proves what they
are for. `dafny verify dfyconfig.toml` checks everything.

| module | what it covers |
|---|---|
| `StateTree`, `Hsm` | the hierarchical state machine: start-up, the seven-case transition search, the entry retrace, event bubbling |
| `Gf2`, `Crc32`, `MachineCrc` | CRC-32: polynomial arithmetic over GF(2), the bit-serial register, the table-driven loops, the register on machine words and the published check value |
| `SundayMatch` | Sunday's substring search |
| `RobustMutex`, `IpcMutex`, `ShmMutex` | two cross-process locks built on robust mutexes, as step systems with crashes |
| `IpcSemaphore` | the System V semaphore lock, with removal, re-creation and kernel undo |
| `KList`, `RealTimeFifo`, `PoolList` | intrusive circular lists at pointer level, the queue on top of them, the slab pool |
| `PacketBuffer`, `Stats`, `ImageSplit`, `MakeDirs` | stream reassembly, running averages, image tiling, directory creation |

## How to read the models

- **State machine.** The hierarchy is an arbitrary parent function; `depth` only says that it is a
  tree. Actions are recorded in a ghost trace. The specification of a transition is
  `StateTree.Lca` and `StateTree.Chain`, independent of the search. Case (g) of the search asks
  each exit action whether it reports `EVT_STATUS_HANDLED` (linux/glb_hsm/glb_hsm.c:152); that answer
  is a parameter of the model, state by state. Where all exits on the way are handled the search is
  right for every tree; for every other choice the model says exactly what happens. The library's own
  sample exit action returns 0 (linux/glb_hsm/common_level.c:12-17), and for its three nested levels the
  transition from the third to the first then never ends. Every state is taken to be bound to its
  machine, which the C code does only for the states on the start-up path.
- **CRC-32.** Words are natural numbers below 2^32 and `^` is addition of polynomials over GF(2). The
  reference feeds one message bit at a time, with the polynomial of section 8 of RFC 1952; its terms and
  the published check value are proved, the latter through 32-bit words as the machine has them. The
  comment above `crc32` names the MPEG-2 variant; the code computes the reflected register, and the
  model follows the code.
- **Locks.** A step is one action of one process and may be followed by a crash anywhere. Robust
  mutexes and semaphores behave as POSIX.1-2008 (System Interfaces) describes `pthread_mutex_lock`,
  `pthread_mutex_consistent`, `semget`, `semctl` and `semop` with `SEM_UNDO`. Opening a shared segment
  together with its first reference, and each update of a counter, are single steps. Each process has
  one handle, locks and unlocks in pairs, and destroys only while not inside the lock. Besides safety
  over all runs, progress is stated for every reachable state: which step is possible when, and what
  lock, unlock and recovery lead to. `lost` and
  `torn` are bookkeeping for the proofs.
- **Numbers.** Widths are explicit where they matter: the 16-bit reference count of `ipc_mutex.c`,
  the 32-bit offsets of `image_split.c`, the unsigned 64-bit sums of signed samples in `stats.c`.
  Elsewhere integers are unbounded.
- **Memory and system calls.** Allocation results, `realloc`, file-system faults, paths that other processes
  create during a call, and the callbacks of the queue are parameters or ghost records.

## Properties that turned out false, and when they hold

- "The search ends and does what the transition should" fails with unhandled exits:
  `Hsm.SampleNeverEnds` is the sample's own case; exactly when it holds: `Hsm.SearchIsRightIff`; what
  happens when the search does not end: `Hsm.Machine.TransitFor`.
- "destroy unlinks only when nobody else has a handle" fails once references lost to crashes wrap the
  16-bit counter: `IpcMutex.OverflowUnlinksEarly`; exactly when it holds: `IpcMutex.UnlinksIff`.
- Mutual exclusion of the semaphore lock fails when a creator removes the semaphore while a process is
  inside: `IpcSemaphore.TwoInside`; it holds over all other runs (`IpcSemaphore.AtMostOneInside`) and
  every such removal breaks it (`IpcSemaphore.RemovalBreaksExclusion`).
- `lock_count` of `shm_mutex.c` misses a lock after a crash between a counter and its mutex call:
  `ShmMutex.CrashHidesLock`; it is low by exactly the number of such crashes: `ShmMutex.LockCountIff`.
- A body that is not longer than the one before is written over the header, and past the end of the
  header buffer if it is longer than a header: `PacketBuffer.ShorterBodyOverflows`; it fits exactly when
  `PacketBuffer.Packet.UpdateBody` says, and header and body are both assembled exactly when the body is
  longer than the last one or empty: `PacketBuffer.AssembledIff`.
- Pieces of a height split start where they should exactly when their 32-bit offset fits:
  `ImageSplit.StartsExactlyIff`; an image whose second half starts with its first:
  `ImageSplit.SecondHalfOverlaps`.
- The `size` of the real-time queue does not bound it: `RealTimeFifo.Overfill`; exactly when it does:
  `RealTimeFifo.BoundedIff`.
- The running average is wrong for negative sums: `Stats.NegativeBreaksAverage`; exactly when a flush
  rounds correctly: `Stats.FoldIsFloorIff`.
- A successful `fs_mkdirs` may leave a file at the end of the path when another process makes one during
  the call: `MakeDirs.RaceLeavesFile`; exactly when it does: `MakeDirs.SuccessMakesAll`.

## Model

| member | source | states |
|---|---|---|
| `StateTree.LcaIsLeast` | linux/glb_hsm/glb_hsm.c:52-185 | every common ancestor lies on or above the specified least common ancestor |
| `StateTree.FirstCommonIsLca` | linux/glb_hsm/glb_hsm.c:127-177 | the first superstate of the source that is also one of the target is the least common ancestor |
| `Hsm.TransitionShape` | linux/glb_hsm/glb_hsm.c:52-185 | a meeting point above both sides determines the states to exit and to enter, in order |
| `Hsm.Machine.GetSuperState` | linux/glb_hsm/glb_hsm.c:45-50 | a state names its superstate; the root ignores the signal and leaves `next_state` alone |
| `Hsm.Machine.Init` | linux/glb_hsm/glb_hsm.c:8-43 | start-up enters exactly the chain from below the root to the initial state, outermost first, within the path array |
| `Hsm.Machine.Transit` | linux/glb_hsm/glb_hsm.c:52-185 | for every tree, source, target and choice of exit actions for which the search ends, it exits and records exactly `ExitedBy` and `EnteredBy`: the source's chain below the least common ancestor in order and the target's chain, unless a climb is cut off; a self-transition exits and re-enters |
| `Hsm.Machine.SearchNear` | linux/glb_hsm/glb_hsm.c:60-142 | cases (a) to (f) find the meeting point if and only if at most one level has to be left, and then do the whole transition; otherwise the source is exited and all superstates of the target are recorded |
| `Hsm.Machine.RecordPath` | linux/glb_hsm/glb_hsm.c:89-114 | case (e): the target's superstates are recorded up to just below the source, or up to the root exactly when the source is not among them |
| `Hsm.Machine.SearchFar` | linux/glb_hsm/glb_hsm.c:86-142 | cases (e) and (f) together |
| `Hsm.Machine.ClimbOut` | linux/glb_hsm/glb_hsm.c:148-177 | case (g): superstates of the source are exited until a recorded one is met; tree depth bounds the loop |
| `Hsm.Machine.TransitFor` | linux/glb_hsm/glb_hsm.c:52-185 | where the search does not end: from its own entry, any number of rounds of case (g) finds nothing, climbs to the first unhandled exit and repeats that exit |
| `Hsm.SearchIsRightIff` | linux/glb_hsm/glb_hsm.c:148-177 | for every tree, choice of exit actions, source and target: the search ends and does what the transition should if and only if no climb is needed, or every exit of it is handled, or the first is not, the source is two levels below the root and the target deeper than one |
| `Hsm.CutOffIsRightIff` | linux/glb_hsm/glb_hsm.c:150-177 | a climb cut off at its first exit does what the transition should if and only if the source is two levels below the root |
| `Hsm.NeedsClimbIff` | linux/glb_hsm/glb_hsm.c:143-149 | case (g) is reached if and only if more than one level has to be left |
| `Hsm.CommonFromLca` | linux/glb_hsm/glb_hsm.c:132-142 | a superstate of the source is one of the target's exactly from the least common ancestor up |
| `Hsm.SampleNeverEnds` | linux/glb_hsm/common_level.c:12-17 | the search for the sample's transition from its third level to its first, run for any number of rounds, exits the second level in each and finds nothing |
| `Hsm.Machine.Retrace` | linux/glb_hsm/glb_hsm.c:241-244 | the recorded path is entered from the outermost state to the target |
| `Hsm.Machine.Transition` | linux/glb_hsm/glb_hsm.c:237-246 | whenever the search is right, a transition performs exactly the specified exits and then entries, a transition to self exits and enters the state, and the target becomes current |
| `Hsm.SelfTransition` | linux/glb_hsm/glb_hsm.c:60-63 | a transition to self is one exit and one entry of that state |
| `Hsm.TransitionInOrder` | linux/glb_hsm/glb_hsm.c:52-246 | any other transition is, in order, the exits from the source up to but excluding the first shared superstate and the entries from just below it down to the target |
| `Hsm.TransitionCounts` | linux/glb_hsm/glb_hsm.c:52-246 | a transition exits each state around the source and not around the target once and no other, and enters each around the target and not around the source once and no other |
| `Hsm.StartInOrder` | linux/glb_hsm/glb_hsm.c:8-43 | start-up is one entry of each state around the initial one, outermost first |
| `Hsm.Machine.Bubble` | linux/glb_hsm/glb_hsm.c:205-219 | the event ends at the nearest ancestor-or-self that neither asks its superstate nor fails a guard; a transition is taken if and only if that state answered with one; the loop ends |
| `Hsm.ReplayTransition` | linux/glb_hsm/glb_hsm.c:237-246 | a transition leads from the nested configuration of its source to that of its target |
| `Hsm.ReplayIsProper` | linux/glb_hsm/glb_hsm.c:8-43 | nested replays never enter an active state or exit an inactive one |
| `Hsm.RunKeepsConfiguration` | linux/glb_hsm/glb_hsm.c:8-43 | over every run the active states are exactly the non-root ancestors-or-self of the current state, and at every moment those of some state |
| `Hsm.Run` | linux/glb_hsm/glb_hsm.c:237-246 | the machine's runs, while its searches are right, are exactly those the safety theorem speaks of |
| `Hsm.RunNext` | linux/glb_hsm/glb_hsm.c:237-246 | every transition of a run adds each exit and entry it needs once, as a nested walk from the current state to the target |
| `Crc32.RegisterIsRemainder` | linux/utils/src/crc32.c:30-37 | the register holds `r` if and only if `r` is the remainder of initial register plus message under division by the generator polynomial |
| `Crc32.FeedBitsIsSteps` | linux/utils/src/crc32.c:30-37 | feeding bits is adding their value to the register and stepping once per bit |
| `Crc32.StepsLinear` | linux/utils/src/crc32.c:19-24 | any number of register steps is additive |
| `Crc32.StepsInjective` | linux/utils/src/crc32.c:19-24 | any number of register steps is injective on 32-bit registers |
| `Crc32.RegisterLinear` | linux/utils/src/crc32.c:30-37 | the register is additive in initial value and message together |
| `Crc32.RegisterInjective` | linux/utils/src/crc32.c:30-37 | for a fixed message, different initial registers end differently |
| `Crc32.BurstDetected` | linux/utils/src/crc32.c:30-43 | messages that differ only inside 32 consecutive bits, at any bit position, have different registers |
| `Crc32.FourBytesDetected` | linux/utils/src/crc32.c:30-43 | buffers of one length that differ only inside four consecutive bytes have different registers |
| `Crc32.ResidueZeroIff` | linux/utils/src/crc32.c:39-43 | four appended little-endian bytes drive the register to 0 if and only if they are the register itself |
| `Crc32.RegisterConcat` | linux/utils/src/crc32.c:30-37 | feeding a buffer in two parts is feeding it whole |
| `Crc32.TableStep` | linux/utils/src/crc32.c:34-34 | eight steps are one lookup of the low byte plus a shift of the rest |
| `Crc32.LookupIsByte` | linux/utils/src/crc32.c:34-34 | one table lookup is eight bits of the reference, in both index spellings |
| `Crc32.FillTable` | linux/utils/src/crc32.c:12-27 | entry `i` of the table is eight register steps of `i` |
| `Crc32.Crc32Raw` | linux/utils/src/crc32.c:30-37 | the table-driven loop computes the bit-serial register for every buffer |
| `Crc32.CalcCrc` | linux/utils/src/crc32.c:39-43 | the raw register from all ones |
| `Crc32.LutCrc32` | linux/utils/src/crc32.c:45-73 | the complement of the register started from the complement |
| `Crc32.Crc32Get` | linux/utils/src/crc32.c:103-113 | the complement of the register from all ones |
| `Crc32.LutIncremental` | linux/utils/src/crc32.c:45-73 | `lut_crc32` can be fed in pieces, and from 0 it is the complement of `calc_crc` |
| `Crc32.GeneratorTerms` | linux/utils/src/crc32.c:12-27 | the polynomial has exactly the fifteen terms of IEEE 802.3 |
| `Crc32.NotIsXor` | linux/utils/src/crc32.c:45-73 | the complement is the sum with all ones |
| `MachineCrc.DigitsSum` | linux/utils/src/crc32.c:30-37 | the machine's exclusive or of words is addition of the polynomials they stand for |
| `MachineCrc.RoundIsStep` | linux/utils/src/crc32.c:19-24 | a round of the table loop on any 32-bit word is a step of the register |
| `MachineCrc.FeedIsRegister` | linux/utils/src/crc32.c:30-37 | a byte fed to the register in machine words is a byte fed to the reference |
| `MachineCrc.CheckValue` | linux/utils/src/crc32.c:39-113 | for "123456789" `lut_crc32` from 0 and `crc32_get` return 0xCBF43926 |
| `SundayMatch.SkipIsLeast` | algorithm/SundayMatch.c:47-56 | a skip is the least distance at which the byte past the window can be matched |
| `SundayMatch.FillSkips` | algorithm/SundayMatch.c:47-56 | the two loops compute the skip of every byte |
| `SundayMatch.SkipPassesNone` | algorithm/SundayMatch.c:67-70 | no skip passes an occurrence, also when the byte past the window lies outside the text |
| `SundayMatch.Match` | algorithm/SundayMatch.c:40-74 | the leftmost occurrence, or -1 exactly when there is none; the search ends |
| `SundayMatch.LeftmostUnique` | algorithm/SundayMatch.c:40-74 | text and pattern determine the result, so the byte read past the text does not matter |
| `IpcMutex.NextKeepsAccounts` | ipc_competition/ipc_mutex.c:72-143 | every step and crash keeps the count equal to live handles, decrements owed, a dead owner and lost references, modulo 2^16 |
| `IpcMutex.NextKeepsMutex` | ipc_competition/ipc_mutex.c:91-99 | the mutex never becomes unrecoverable and its owner is a live process at the matching place |
| `IpcMutex.RunKeepsInv` | ipc_competition/ipc_mutex.c:72-153 | every state reachable through any interleaving with crashes satisfies the invariant |
| `RobustMutex.RecoveryNeeded` | ipc_competition/ipc_mutex.c:91-97 | a mutex taken over from a dead owner can be locked again after unlocking if and only if it was made consistent |
| `IpcMutex.LockedAlone` | ipc_competition/ipc_mutex.c:81-107 | in every reachable state lock has returned 0 only to the one consistent owner of its segment |
| `IpcMutex.RefcntCovers` | ipc_competition/ipc_mutex.c:72-107 | below the counter's width it is at least the live handles plus the decrements still owed |
| `IpcMutex.UnlinksIff` | ipc_competition/ipc_mutex.c:143-153 | destroy unlinks the name if and only if the references accounted for are 1 modulo 2^16 |
| `IpcMutex.UnlinksOnlyWhenAlone` | ipc_competition/ipc_mutex.c:143-153 | up to 65536 references, destroy unlinks only when no other live handle or recovery exists and the mutex is free |
| `IpcMutex.OneSegmentKept` | ipc_competition/ipc_mutex.c:27-72 | over runs within that bound all live handles map the segment the name denotes |
| `IpcMutex.LockedGlobally` | ipc_competition/ipc_mutex.c:81-107 | with one segment, at most one live process is inside the lock |
| `IpcMutex.BlockedIff` | ipc_competition/ipc_mutex.c:90-99 | in every reachable state lock waits if and only if a live process owns the mutex; every other step is possible exactly where the code is |
| `IpcMutex.LocksFree` | ipc_competition/ipc_mutex.c:91-106 | a free mutex is locked at once |
| `IpcMutex.Recovers` | ipc_competition/ipc_mutex.c:90-106 | after a dead owner a process about to lock recovers the mutex, returns one reference and is inside |
| `IpcMutex.SurvivesCrash` | ipc_competition/ipc_mutex.c:90-106 | when a process dies inside, any other about to lock ends up inside with one reference returned |
| `IpcMutex.HandsOver` | ipc_competition/ipc_mutex.c:109-126 | unlock frees the mutex, and any process about to lock gets it |
| `IpcMutex.Creates` | ipc_competition/ipc_mutex.c:27-72 | a new handle maps the segment of the name and adds a reference, or makes the segment with one |
| `IpcMutex.OverflowUnlinksEarly` | ipc_competition/ipc_mutex.h:18-18 | a run of crashes after which destroy unlinks the name under a live handle |
| `ShmMutex.NextKeepsInv` | linux/utils/src/shm_mutex.c:121-152 | every step, and a crash anywhere, keeps the invariant on mutex, `lock_count` and `ref_count` |
| `ShmMutex.RunKeepsInv` | linux/utils/src/shm_mutex.c:72-152 | every reachable state satisfies it |
| `ShmMutex.LockCountIff` | linux/utils/src/shm_mutex.c:121-152 | with nobody inside a call, `lock_count` shows the lock of a live or dead owner if and only if no crash fell between a counter and its mutex call |
| `ShmMutex.CrashHidesLock` | linux/utils/src/shm_mutex.c:121-152 | a run that ends with `lock_count` 0 and a lock left by a dead owner |
| `ShmMutex.ReferencesAccounted` | linux/utils/src/shm_mutex.c:87-138 | `ref_count` covers every live handle, and at most one process is past lock |
| `ShmMutex.BlockedIff` | linux/utils/src/shm_mutex.c:121-152 | in every reachable state lock waits if and only if a live process owns the mutex; every other step is possible exactly where the code is |
| `ShmMutex.LocksFree` | linux/utils/src/shm_mutex.c:121-129 | a free mutex is locked and counted |
| `ShmMutex.TakesOver` | linux/utils/src/shm_mutex.c:132-140 | a dead owner's lock is taken over with `lock_count` unchanged and one reference returned |
| `ShmMutex.SurvivesCrash` | linux/utils/src/shm_mutex.c:132-140 | when a process dies inside, any other takes over |
| `ShmMutex.HandsOver` | linux/utils/src/shm_mutex.c:147-152 | unlock uncounts the lock and frees the mutex, and any other process gets it |
| `ShmMutex.Allocates` | linux/utils/src/shm_mutex.c:72-87 | a new handle adds a reference; the first one sets the record up |
| `ShmMutex.Destroys` | linux/utils/src/shm_mutex.c:94-119 | giving a handle back returns its reference and leaves the mutex |
| `IpcSemaphore.RunKeepsInv` | ipc_competition/ipc_semsv.c:48-165 | every state reachable through any interleaving with crashes satisfies the invariant on semaphore, undo, handles and creators |
| `IpcSemaphore.ValueAndHolders` | ipc_competition/ipc_semsv.c:48-67 | in every reachable state value and holders of an initialised semaphore add up to 1, undo matches holders, and there is at most one creator |
| `IpcSemaphore.RecreateNeverHolds` | ipc_competition/ipc_semsv.c:95-111 | the re-create path never leaves its caller inside the lock, `lockref` is right on a live semaphore, and a creator's removal cannot fail |
| `IpcSemaphore.ExclusiveUnlessRemoved` | ipc_competition/ipc_semsv.c:126-137 | unless a creator removed a held semaphore, every process inside holds the live one |
| `IpcSemaphore.AtMostOneInside` | ipc_competition/ipc_semsv.c:84-140 | over such runs at most one process is inside the lock |
| `IpcSemaphore.RemovalBreaksExclusion` | ipc_competition/ipc_semsv.c:154-165 | from every reachable state, removal while a process is inside leads to two processes inside |
| `IpcSemaphore.TwoInside` | ipc_competition/ipc_semsv.c:154-165 | a run from the start that removes a held semaphore and ends with two processes inside |
| `IpcSemaphore.BlockedIff` | ipc_competition/ipc_semsv.c:95-137 | in every reachable state a blocked process waits if and only if its semaphore is alive and another is inside or it is not set up yet; every other step is possible exactly where the code is |
| `IpcSemaphore.Locks` | ipc_competition/ipc_semsv.c:95-103 | a free semaphore is taken at once, otherwise lock blocks |
| `IpcSemaphore.HandsOver` | ipc_competition/ipc_semsv.c:126-137 | unlock sets a live semaphore to 1, and a blocked process wakes inside |
| `IpcSemaphore.SurvivesCrash` | ipc_competition/ipc_semsv.c:95-103 | when a process dies inside, a blocked process wakes inside |
| `IpcSemaphore.WakesRemoved` | ipc_competition/ipc_semsv.c:100-111 | a process blocked on a removed semaphore returns without re-creating it, and its next lock does |
| `IpcSemaphore.Comes` | ipc_competition/ipc_semsv.c:48-76 | the first process creates the semaphore with value 1; later ones find it and are not creators |
| `IpcSemaphore.Destroys` | ipc_competition/ipc_semsv.c:142-168 | the creator's destroy removes the semaphore, any other leaves it |
| `KList.Link` | list/klist.h:38-46 | inserting between neighbours of a cycle gives the longer cycle |
| `KList.Unlink` | list/klist.h:81-85 | closing a cycle over a node gives the shorter cycle and leaves the node's own links |
| `KList.SpliceRings` | list/klist.h:141-153 | splicing two cycles gives one cycle of the spliced nodes followed by the old ones |
| `KList.Lists.InitHead` | list/klist.h:28-30 | a loose node becomes an empty list; other lists stay |
| `KList.Lists.Add` | list/klist.h:56-59 | the entry comes first; all lists stay cycles and all others are unchanged |
| `KList.Lists.AddTail` | list/klist.h:69-72 | the entry comes last; all lists stay cycles and all others are unchanged |
| `KList.Lists.Del` | list/klist.h:92-97 | the entry leaves its list and its links are cleared |
| `KList.Lists.Move` | list/klist.h:114-118 | the entry leaves its place and comes first on the other list, or on its own; every other list is unchanged |
| `KList.Lists.MoveTail` | list/klist.h:125-130 | the entry leaves its place and comes last on the other list, or on its own; every other list is unchanged |
| `KList.Lists.IsEmpty` | list/klist.h:136-139 | true exactly for the empty sequence |
| `KList.Lists.SpliceInit` | list/klist.h:173-180 | spliced nodes go before the old ones and the source list is left empty |
| `RealTimeFifo.Fifo.Init` | linux/utils/src/real_time_fifo.c:7-22 | an empty queue with an empty history |
| `RealTimeFifo.Fifo.Put` | linux/utils/src/real_time_fifo.c:24-51 | appends; evicts the oldest node, passing it to the callback, exactly when the gets so far equal minus `size`, so never for a positive `size`; everything put is queued or has left, in order; a rejected put changes nothing |
| `RealTimeFifo.BoundedIff` | linux/utils/src/real_time_fifo.c:38-49 | a queue of positive `size` is within it if and only if the puts exceed the gets by no more |
| `RealTimeFifo.Overfill` | linux/utils/src/real_time_fifo.c:24-51 | one put more than `size` on a fresh queue leaves more nodes than `size` |
| `RealTimeFifo.Fifo.Get` | linux/utils/src/real_time_fifo.c:53-77 | returns the oldest node, or -1 exactly when there is none or the queue is not set up |
| `RealTimeFifo.Fifo.Destroy` | linux/utils/src/real_time_fifo.c:79-99 | the safe iteration releases every queued node once, in order |
| `PoolList.Conserved` | list/pool_list.c:53-102 | every element ever allocated has one list node, which is exactly once on the free list, on the available list, or in hand |
| `PoolList.NodesDisjoint` | list/pool_list.c:11-25 | nodes of different elements have disjoint blocks and distinct records |
| `PoolList.BlocksDisjoint` | list/pool_list.c:11-25 | distinct elements ever allocated own disjoint blocks and distinct records |
| `PoolList.InsideSlab` | list/pool_list.c:11-25 | blocks and records lie inside their slab |
| `PoolList.Layout` | list/pool_list.c:11-25 | a slab is a list node of 16 bytes, the blocks, and records of 24 bytes |
| `PoolList.Pool.constructor` | list/pool_list.c:31-44 | three empty circular lists, no limit, 16 elements a slab |
| `PoolList.Pool.Expand` | list/pool_list.c:5-29 | at pointer level, a slab's elements go to the front of the free list, newest first, are all new, and the slab's node joins the list of slabs |
| `PoolList.Pool.GetFree` | list/pool_list.c:53-77 | the first free node is unlinked and in hand; when it fails and when it expands is exact; a fixed limit is never exceeded |
| `PoolList.Pool.PutAvailable` | list/pool_list.c:79-83 | a node in hand is linked at the end of the available list |
| `PoolList.Pool.GetAvailable` | list/pool_list.c:85-95 | null exactly when nothing is available; otherwise following the head's link gives the element put longest ago, which is not in hand |
| `PoolList.Pool.PutFree` | list/pool_list.c:97-102 | `list_move` takes a node out of the middle of the available list to the front of the free list, keeping the pool's invariant |
| `PacketBuffer.Packet.UpdateHeader` | linux/utils/src/packet_buffer.c:9-21 | a whole header remains to be received into the header buffer |
| `PacketBuffer.Packet.UpdateIndex` | linux/utils/src/packet_buffer.c:63-98 | what remains, and completion exactly at or past the section's end, for any reported length |
| `PacketBuffer.Packet.UpdateBody` | linux/utils/src/packet_buffer.c:100-125 | a whole body remains; the buffer is redirected exactly when the body grows; after a header it fits where it is directed if and only if it grows or is no longer than a header |
| `PacketBuffer.Packet.Feed` | linux/utils/src/packet_buffer.c:63-135 | for every way of cutting the stream the bytes received and the completion reports depend only on the bytes |
| `PacketBuffer.Packet.ReceiveMessage` | linux/utils/src/packet_buffer.c:100-125 | for every header and body, cut in any way: what both buffers hold afterwards, or that more bytes are requested than the buffer has |
| `PacketBuffer.AssembledIff` | linux/utils/src/packet_buffer.c:100-125 | messages of given lengths are assembled for every content if and only if the body is longer than the last one or empty |
| `PacketBuffer.ShorterBodyOverflows` | linux/utils/src/packet_buffer.c:109-121 | a header of 8 bytes and bodies of 100 and then 50 bytes: 50 bytes are requested into 8 |
| `PacketBuffer.Packet.ReceiveStream` | linux/utils/src/packet_buffer.c:9-125 | a stream of messages whose bodies are each longer than the one before or empty is assembled as it was sent |
| `Stats.FlushLags` | linux/utils/src/stats.c:16-28 | after one more flush the average is at most the true mean and lags by less than the number of flushes |
| `Stats.FlushLagsHalf` | linux/utils/src/stats.c:16-28 | with equal batches the lag stays below half of the number of flushes plus one |
| `Stats.MeanBounds` | linux/utils/src/stats.c:9-29 | the lag as a bound on the real mean |
| `Stats.HalfMeanBounds` | linux/utils/src/stats.c:46-64 | the halved lag as a bound on the real mean |
| `Stats.FoldIsFloorIff` | linux/utils/src/stats.c:20-25 | the quotient of a flush, in unsigned 64-bit arithmetic, is the floor of the sum over the count if and only if the sum is not negative or stems from one sample; otherwise it is the floor for the sum plus 2^64 |
| `Stats.NegativeBreaksAverage` | linux/utils/src/stats.c:9-64 | after the samples -1 and 0 the average is the largest signed 64-bit number |
| `Stats.Stats.Flush` | linux/utils/src/stats.c:9-29 | for any samples every one is in the average afterwards; for nonnegative ones within the lag |
| `Stats.Stats.Add` | linux/utils/src/stats.c:46-64 | for any signed 32-bit sample: counted once, minimum and maximum of the unsigned conversions exact, and exactly when the batch is flushed first; for nonnegative samples only when full, at 31 samples by default |
| `Stats.MinAndMax` | linux/utils/src/stats.c:53-54 | minimum and maximum bound the samples as unsigned numbers, negative ones plus 2^64, and are attained |
| `Stats.Stats.NoOverflow` | linux/utils/src/stats.c:23-24 | a flush stays inside 64 bits |
| `ImageSplit.ShareFits` | linux/utils/src/image_split.c:17-25 | pieces are aligned, fit, and leave at most `num * align - 1` uncovered |
| `ImageSplit.HorizontalScan` | linux/utils/src/image_split.c:5-35 | every piece is written as computed in 32 and 64 bits, nothing else changes, null arguments give -1 |
| `ImageSplit.StartsExactlyIff` | linux/utils/src/image_split.c:19-27 | a piece starts where it should if and only if its 32-bit offset does not overflow |
| `ImageSplit.SecondHalfOverlaps` | linux/utils/src/image_split.c:26-31 | a well-formed image of 4 GiB whose two halves come out as the same piece |
| `ImageSplit.PieceIsView` | linux/utils/src/image_split.c:18-31 | an exact piece shows the source's pixels shifted along the split |
| `ImageSplit.PiecesDisjoint` | linux/utils/src/image_split.c:18-31 | different pixels of exact pieces are different addresses inside the source |
| `ImageSplit.CoveredIff` | linux/utils/src/image_split.c:18-31 | a pixel of the source is a pixel of some piece if and only if it lies before the remainder of the split |
| `MakeDirs.OnlyAdds` | ipc_competition/file_mkdir.c:48-76 | nothing that existed changes, and what is new is on the path: a directory, or what another process put there |
| `MakeDirs.SuccessMakesAll` | ipc_competition/file_mkdir.c:34-94 | success means every component followed by a slash is a directory reached without symbolic links, except for the last one exactly when another process made it a file during the call |
| `MakeDirs.RaceLeavesFile` | ipc_competition/file_mkdir.c:51-54 | a call that succeeds and leaves a file |
| `MakeDirs.SucceedsIff` | ipc_competition/file_mkdir.c:42-76 | without faults and whatever other processes create, success if and only if every name is proper, leads to nothing or a directory, does not turn into a symbolic link, and lies under what does not turn into a file |
| `MakeDirs.Idempotent` | ipc_competition/file_mkdir.c:13-101 | a second call changes nothing; after a success it succeeds if and only if the path does not end in another process's file; it returns the same whenever other processes made only directories |
| `MakeDirs.KeepsWellFormed` | ipc_competition/file_mkdir.c:48-87 | everything still lies in a directory |
| `MakeDirs.ComponentsOfSpelling` | ipc_competition/file_mkdir.c:34-94 | names spelled with any number of slashes after each are scanned back as those names, and what follows the last slash is not one |
| `MakeDirs.EverythingIsSpelled` | ipc_competition/file_mkdir.c:89-93 | every string that does not start with a slash is such a spelling |
| `MakeDirs.RefusedPaths` | ipc_competition/file_mkdir.c:22-46 | a relative path, and one that starts with two slashes, is refused with EINVAL and makes nothing |
| `MakeDirs.CallMakesAll` | ipc_competition/file_mkdir.c:13-101 | a call on "/" and spelled names that succeeds leaves every name a directory, with the one exception of the race |
| `MakeDirs.CallSucceedsIff` | ipc_competition/file_mkdir.c:13-101 | without faults a call on any path succeeds if and only if the path is absolute, does not start with two slashes and is passable at every name; no result is positive |
| `MakeDirs.OneRefused` | ipc_competition/file_mkdir.c:42-83 | which error number each refusal and each injected fault gives, and when there is none |
| `MakeDirs.FirstRefusal` | ipc_competition/file_mkdir.c:34-94 | the result is that of the first name refused, with the names before it made |
| `MakeDirs.FileSystem.Enter` | ipc_competition/file_mkdir.c:42-87 | one segment, with the race on mkdirat, does one directory of the specification |
| `MakeDirs.FileSystem.MkDirs` | ipc_competition/file_mkdir.c:13-101 | the scan does what the components say, with the same error numbers; a relative path gives -22 and changes nothing; on success the path is absolute and the buffer restored |

## Left out

- The exit loop, the drill loop and the final assignment of `glb_hsm_dispatch` (linux/glb_hsm/glb_hsm.c:228-235, 248-275): the first climbs from the handling state, the second cannot meet its exit test.
- Binding of states to their machine (linux/glb_hsm/glb_hsm.h:35-36): every state is taken to be bound.
- `crc32_destroy` and allocation failure in `crc32_alloc_init_table`.
- Signed `char` in `sunday_match`: bytes are taken as 0 to 255; where `char` is signed, bytes from 128 on index outside the table. The `Sunday` variant is the same algorithm.
- Interleavings inside the creation of a shared segment, and torn updates of a counter.
- `ipc_semsv_create` failing inside lock, which the code does not check, and permission errors of `semop`.
- Width of the `int` counters of `shm_mutex.c` and `real_time_fifo.c`: they are unbounded here.
- `list_del_init`, `list_splice` and the non-safe iteration macros of `klist.h`: they would only add easy members.
- Concurrent puts in `real_time_fifo.c`: the tail insert is outside its lock, so the model is sequential.
- PoolList.Pool.PutFree: an element that is not on the available list is not modelled; moving a free one would miscount `free_num`, and one in hand has no links.
- PoolList.Pool.SetLimit: a negative preallocation count, which the code accepts, is not modelled; undeclared names in the file are read as evidently meant, and `cur_slub`, which init leaves alone, starts at 0.
- Stats.Stats.Add: more than 2^31 - 1 samples are not modelled.
- MakeDirs.FileSystem.MkDirs: other processes only create the path that mkdirat is about to make; removals and renames during the call are not modelled; permissions are the injected faults.
- `split_multiple_image_vertical_scan`: its height split has no clear layout.
- `singly_linked_list.h`, sockets, gpio, serial, i2c, mmap, file and time utilities, thread wrappers, `ipc_flock`, `shm_rw_lock`, HMAC, epoll: input and output or thin wrappers.
