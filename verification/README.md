# zsim: verified models

zsim is a timing simulator of multicore processors. This project models its self-contained data
structures and protocols in Dafny and proves what they are for. One file per component:

- `Packing.dfy`, `OptGen.dfy`: OPTgen of the Hawkeye replacement policy. A ring of recent accesses
  and occupancies decides greedily whether an optimal cache would have hit. The ring is proved to
  be a window on an unbounded history, and the greedy answers to be exactly the hits of a best cache.
- `Mesi.dfy`, `MesiRaces.dfy`, `MesiControllers.dfy`, `MesiTree.dfy`: the MESI controllers. The
  directory as a value; one level with requests in flight and invalidations landing in every race
  window; the controllers as objects; and a cache tree of any depth.
- `ZArray.dfy`: the skew-associative ZCache array as a map from addresses to line ids.
- `Barrier.dfy`: the phase barrier with a limit on running threads.
- `FutexLock.dfy`, `RwMutex.dfy`: the futex lock and the fair read-write mutex, as interleaved
  atomic steps of any number of threads.
- `WindowStructure.dfy`: the instruction window's port reservations, two arrays and a map that
  stand for one infinite table.
- `DdrClock.dfy`, `DdrActWindow.dfy`, `IntrusiveList.dfy`, `RequestQueue.dfy`, `DdrQueue.dfy`,
  `DdrTiming.dfy`, `DdrController.dfy`, `DdrRuns.dfy`, `DdrLateWrite.dfy`: the DDR controller, from clock
  translation and linked lists to request order, DRAM timing, the controller as a whole and its runs.
- `Lookahead.dfy`: lookahead cache partitioning.
- `FilterCache.dfy`: the lock-free filter in front of an L1.
- `Arith.dfy`, `Sets.dfy`: facts about products, quotients and remainders, and about set sizes.

Code that updates objects or arrays is a class or a method on arrays, proved against functions on
values; the properties are lemmas about those functions. Protocols of several threads are state
machines whose steps are the atomic actions of the source. Clocks, random numbers, the kernel, the
parent's grants and the replacement policy are arguments or arbitrary choices.

Where the code falls short of what one might expect, the model keeps the code and states when it
holds:

- OPTgen's "first access" test answers true for line 0 on a cold ring (`FirstAccessAnswer`), and
  `wrap_index` is a remainder only for ring sizes that divide 2^32 (`WrapExact`); for others the scan
  for an earlier access need not end (`ScanEndsExact`).
- A barrier thread that leaves while waiting may keep a stale run-list index, even one left over from
  memory. `RejoinExact` says exactly when a thread that left can rejoin; a stale index either fails
  the assert (`StaleIndex`) or, with no assert in the way, makes the thread miss the phase
  (`MissesPhase`, `LateJoin`). `Leave` says when it keeps all left threads safe.
- A long advance of the window displaces shadow reservations (`ShadowMoves`); `LongAdvance` says when
  it does not. The 32-bit delay truncates far requests (`StartPosExact`, `StartPosWraps`), which may
  land in a cycle already retired; `Schedule` and `PoisonRange` say exactly when.
- The activation window loses its order when an activation is older than the second-oldest entry
  (`AddedSorted`), which a deferred write brings about (`WindowLosesOrder`). The activation rule
  survives this: `NoFiveTooClose` needs no order.
- tRRD is not kept between the banks of a rank, which may be activated in one cycle
  (`WindowLosesOrder`); `TrrdExact` says when it has any effect at all.
- Lookahead sets the minimum allocation aside once but gives it to every partition
  (`HandsOutBuckets`, `HandsOutTooMany`).
- A miss curve that rises makes Lookahead's unsigned difference wrap: the partition that would miss
  more looks best (`RisingLooksBest`).
- A cleared filter entry matches line address 0 (`ZeroMatches`); `MatchExact` says that this is the
  only address with an unsound match.

`dafny verify dfyconfig.toml` checks the project.

## Model

| member | source | states |
|---|---|---|
| Packing.GreedyFeasible | zsim/src/hawkeye_repl.h:144-162 | The greedy choice never covers a slot with more than `ways` intervals. |
| Packing.ExchangeStep | zsim/src/hawkeye_repl.h:136-162 | A feasible set that agrees with the greedy one before time t and not at t can be changed, at no loss of size, to agree at t as well. |
| Packing.GreedyOptimal | zsim/src/hawkeye_repl.h:136-162 | No feasible set of reuse intervals is larger than the greedy one. |
| AccessStream.AnswersExtend | zsim/src/hawkeye_repl.h:126-162 | The answer to one more access, as a condition on the unbounded history: the line is found within the window and no slot since is full. |
| AccessStream.OccupancyExtend | zsim/src/hawkeye_repl.h:157-161 | An accepted access raises the occupancy of exactly the slots of its interval by one. |
| AccessStream.OccupancyBounded | zsim/src/hawkeye_repl.h:147-155 | Occupancy never exceeds the number of ways. |
| AccessStream.TrueMeansReuse | zsim/src/hawkeye_repl.h:126-135 | A true answer for a nonzero line means an earlier access to it within the window. |
| AccessStream.StartExact | zsim/src/hawkeye_repl.h:126-135 | The interval of an access begins at the latest earlier access to the same line within the window (for line 0 also at a zero the ring started with), and is empty exactly if there is none: no reuse within the window is missed. |
| AccessStream.FoundExact | zsim/src/hawkeye_repl.h:126-135 | The same for the scan that the next access starts. |
| AccessStream.FirstAccessAnswer | zsim/src/hawkeye_repl.h:93-135 | When a first access is answered true: exactly for line 0 while the zeros the ring starts with are in the window and leave room (the comment in the source says never). |
| AccessStream.ColdZeroHit | zsim/src/hawkeye_repl.h:93-135 | A concrete such input. |
| BeladyCache.HitsFeasible | zsim/src/hawkeye_repl.h:136-142 | The hits of any cache of `ways` lines with bypass are a feasible set of intervals. |
| BeladyCache.NoCacheBeatsOptGen | zsim/src/hawkeye_repl.h:114-164 | No cache of that size has more hits on reuses within the window, an earlier access to the same line fewer than `vector_size` accesses ago, than OPTgen has true answers. |
| BeladyCache.AnswersAreAchieved | zsim/src/hawkeye_repl.h:114-164 | One cache of that size hits on every access answered true. |
| BeladyCache.OptGenIsBelady | zsim/src/hawkeye_repl.h:114-164 | Both together: the true answers are exactly the hits, on reuses within the window, of a cache that no other cache beats at them. |
| RingArithmetic.WrapExact | zsim/src/hawkeye_repl.h:46-52 | `wrap_index` is the mathematical remainder for every 32-bit index if and only if the ring size divides 2^32. |
| RingArithmetic.ScanEndsExact | zsim/src/hawkeye_repl.h:126-132 | Going backwards one place at a time comes round to where it began, from every place, if and only if the ring size divides 2^32: for other sizes a scan that finds nothing may never end. |
| OptGenRing.OptGen.constructor | zsim/src/hawkeye_repl.h:55-103 | The empty ring stands for the empty history. |
| OptGenRing.OptGen.CacheAccess | zsim/src/hawkeye_repl.h:114-164 | After any access the ring holds the last `vector_size` slots of the unbounded history and occupancy, and the answer is the greedy decision on it. |
| OptGenRing.OptGen.FindPrevious | zsim/src/hawkeye_repl.h:126-135 | The backward scan finds the latest access to the line within the window, or comes round. |
| OptGenRing.OptGen.HasRoom | zsim/src/hawkeye_repl.h:149-155 | The forward scan says whether every slot of the interval has room in the unbounded history. |
| OptGenRing.OptGen.Fill | zsim/src/hawkeye_repl.h:157-161 | The slots of the interval, and no others, go up by one. |
| Directory.OwnerIsAlone | zsim/src/coherence_ctrls.h:180-198 | An exclusive entry means one child in E or M and every other in I. |
| Directory.InvalidatesKeepDir | zsim/src/coherence_ctrls.cpp:213-248 | Invalidations and downgrades leave a truthful directory; each child they go to is in a state they are legal in. |
| Directory.GetsKeepsDir | zsim/src/coherence_ctrls.cpp:281-304 | A GETS is granted E exactly when nobody shares the line, the cache is exclusive and E is allowed, else S; an exclusive sibling drops to S. |
| Directory.GetxKeepsDir | zsim/src/coherence_ctrls.cpp:305-326 | A GETX leaves the requester in M and all other children in I. |
| Directory.PutKeepsDir | zsim/src/coherence_ctrls.cpp:266-280 | A PUT takes exactly its sender out of the directory; a PUTX with KEEPEXCL leaves it in E. |
| Directory.AccessKeepsDir | zsim/src/coherence_ctrls.cpp:261-332 | Every kind of access keeps the directory truthful. |
| RaceFilter.CheckForMESIRace | zsim/src/coherence_ctrls.h:247-274 | A request is skipped exactly if it is a PUT and the line has gone to I meanwhile; a PUTX whose line has only gone to S goes on as a PUTS, and every other request as it is. |
| RaceMachine.NextKeepsInv | zsim/src/coherence_ctrls.h:306-403 | Every step of a cache, its children's requests in flight, and invalidations from above keeps the coherence invariant; being well formed, the step passes every assert and panic of the handlers. |
| RaceMachine.RunsAreCoherent | zsim/src/coherence_ctrls.h:247-403 | The invariant holds in every state of every run, for any number of children and any interleaving. |
| RaceMachine.NoHandlerPanics | zsim/src/coherence_ctrls.h:247-274 | Every request in flight in a reachable state passes the race filter's checks and then the asserts of both controllers. |
| RaceMachine.CoherenceMeaning | zsim/src/coherence_ctrls.h:180-198 | What that says: sharer bits are the children not in I, `numSharers` is their count, `isExclusive()` holds exactly when some child is in E or M, and that child is alone. |
| RaceMachine.RequestLeaves | zsim/src/coherence_ctrls.h:306-345 | A request leaves with the state its sender is in; a silent write only takes its cache from E to M. |
| RaceMachine.PutIsServed | zsim/src/coherence_ctrls.cpp:266-280 | Whatever raced with it, a PUT leaves its sender in I (in E if it had the dirty data and keeps the line exclusive), the cache in M if dirty data came with it, and nobody else changed. |
| RaceMachine.GetsIsServed | zsim/src/coherence_ctrls.cpp:281-304 | Where the line is held a GETS brings it to its sender in E if nobody else has it, the cache is exclusive and E is allowed, else in S, a sibling in E or M going to S; where it is not held the parent is asked. |
| RaceMachine.GetxIsServed | zsim/src/coherence_ctrls.cpp:305-326 | Where the line is held in E or M a GETX leaves its sender and the cache in M and every sibling in I; elsewhere the parent is asked. |
| RaceMachine.GrantIsServed | zsim/src/coherence_ctrls.cpp:104-145 | The parent's grant then serves the waiting request in the same way. |
| RaceMachine.EvictionIsServed | zsim/src/coherence_ctrls.cpp:56-85 | An eviction recalls the line from every child and sends a PUTX exactly if some copy was dirty; once it is done the line is in I, whatever invalidation or downgrade came in between. |
| RaceMachine.InvalidationReaches | zsim/src/coherence_ctrls.cpp:162-186 | An invalidation from above takes the line here and from every child; a downgrade leaves it in S here, and every child that had it in E or M in S. |
| RaceMachine.NextKeepsDirt | zsim/src/coherence_ctrls.cpp:56-332 | Every step, whatever PUT and invalidation race: with a modified copy or a store there is a modified copy afterwards or the data is sent up; data sent up was modified here or turned up from further down, and leaves no modified copy; and none comes from nothing. |
| RaceMachine.StoresSurvive | zsim/src/coherence_ctrls.cpp:56-332 | Over any run no store is lost: at any later point there is a modified copy, or data has been sent up since, by a PUTX that passed the race filter or by an invalidation's writeback flag. |
| RaceMachine.DirtHasAStore | zsim/src/coherence_ctrls.cpp:56-332 | And a modified copy is there only because of a store, or dirty data from further down, since the last time data was sent up. |
| RaceMachine.WritebackHasAStore | zsim/src/coherence_ctrls.cpp:56-332 | Data is only sent up because of a store, or dirty data from further down, that has not been sent up yet: no store is sent up twice. |
| MesiControllers.MESIBottomCC.ProcessAccess | zsim/src/coherence_ctrls.cpp:87-151 | The new own state of each request: M after a GETX or a PUTX, after a GETS what was held or what the parent granted, else unchanged. |
| MesiControllers.MESIBottomCC.ProcessInval | zsim/src/coherence_ctrls.cpp:162-186 | The new own state, and a writeback exactly if it was M. |
| MesiControllers.MESIBottomCC.ProcessEviction | zsim/src/coherence_ctrls.cpp:56-85 | Which PUT is sent, if any, and that the line ends in I. |
| MesiControllers.MESITopCC.SendInvalidates | zsim/src/coherence_ctrls.cpp:213-248 | The loop over the children does to the whole directory what the specification says, and asks for a writeback exactly if a child it reached was dirty. |
| MesiControllers.MESITopCC.ProcessAccess | zsim/src/coherence_ctrls.cpp:261-332 | The new directory and child states of each access, and the writebacks it causes. |
| MesiControllers.MESICC.ProcessAccess | zsim/src/coherence_ctrls.h:358-378 | Both controllers in order: inclusion is kept and a dirty copy called in from a child leaves the cache in M; a prefetch only brings the line here and leaves the children and the directory alone. |
| MesiControllers.MESICC.ProcessInv | zsim/src/coherence_ctrls.h:397-403 | Children first, then the own state; a writeback is reported exactly if the line was dirty here or in a child. |
| MesiControllers.MESICC.ProcessEviction | zsim/src/coherence_ctrls.h:340-345 | The children lose the line, and a PUTX goes up exactly if some copy was dirty. |
| MesiControllers.AccessKeepsInclusion | zsim/src/coherence_ctrls.h:347-380 | An access a child may send is legal at the directory once our own access is done, and inclusion is kept. |
| MesiTree.RequestIsLegal | zsim/src/coherence_ctrls.cpp:104-145 | A request from below only goes on upwards where the handler's asserts hold. |
| MesiTree.PutIsLegal | zsim/src/coherence_ctrls.cpp:91-103 | An eviction's PUT meets the asserts of the parent. |
| MesiTree.InvalKeepsTree | zsim/src/coherence_ctrls.h:397-403 | A recursive invalidation or downgrade keeps a tree of any depth truthful and inclusive and leaves no dirty copy. |
| MesiTree.AccessKeepsTree | zsim/src/coherence_ctrls.h:347-380 | A load or store from any leaf of a tree of any depth keeps it truthful and inclusive and loses no dirty copy. |
| MesiTree.EvictKeepsTree | zsim/src/coherence_ctrls.h:340-345 | So does an eviction anywhere. |
| MesiTree.ApplyKeepsTree | zsim/src/coherence_ctrls.h:340-403 | One statement for all operations on the tree. |
| MesiTree.InvalStates | zsim/src/coherence_ctrls.cpp:213-248 | The state of every cache after an invalidation (I) or a downgrade (S where it was E or M, else unchanged) from above. |
| MesiTree.LoadedOnPath | zsim/src/coherence_ctrls.cpp:281-304 | The state of every cache on the path after a load. Above the lowest that holds the line nothing changes; that one keeps its state or takes over dirty data; below it, down to the leaf, the line is in E exactly if E is wanted and memory grants it, or a cache in E or M of whose children none has the line; else in S. |
| MesiTree.LoadedAgain | zsim/src/coherence_ctrls.cpp:104-145 | A leaf that holds the line keeps its state. |
| MesiTree.LoadedBeside | zsim/src/coherence_ctrls.cpp:281-304 | And of every cache beside the path: only what is in E or M below the server changes, to S. |
| MesiTree.StoredStates | zsim/src/coherence_ctrls.cpp:305-326 | The state of every cache after a store: M from the lowest cache on the path in E or M down to the leaf, I in every other cache below that one, unchanged elsewhere. |
| MesiTree.EvictStates | zsim/src/coherence_ctrls.cpp:56-85 | The state of every cache after an eviction: I in the cache and all below it, M in the parent if there was dirty data, unchanged elsewhere. |
| MesiTree.ApplyStates | zsim/src/coherence_ctrls.h:340-403 | The operations of a run, in which memory grants M to a store and E to a load, or S if it asks for no E, have these effects on every cache. |
| MesiTree.ColdLoad | zsim/src/mem_ctrls.cpp:36-39 | A load that misses everywhere brings the line to its whole path in E, or in S if E is not wanted. |
| MesiTree.DirtyDataIsKept | zsim/src/coherence_ctrls.cpp:56-186 | Over any run some cache is in M if and only if the line was written and no writeback has reached memory since. |
| MesiTree.AncestorsInclude | zsim/src/coherence_ctrls.cpp:91-186 | A valid cache has valid ancestors, an E or M one has E or M ancestors. |
| MesiTree.SingleWriter | zsim/src/coherence_ctrls.cpp:213-332 | If a cache is in E or M, every cache that is neither above nor below it is in I. |
| ZLayout.RotatedPermutes | zsim/src/cache_arrays.cpp:202-217 | Moving the line ids along the relocation chain keeps the lookup array a permutation. |
| ZLayout.RotatedKeepsLayout | zsim/src/cache_arrays.cpp:202-217 | After the relocations every address but the victim's is still in one of its own positions, with its line id unchanged. |
| ZWalk.SameChildEarlier | zsim/src/cache_arrays.cpp:137-161 | The children of a repeated candidate all occur before it. |
| ZWalk.ParentIsFirst | zsim/src/cache_arrays.cpp:174-192 | So the parent of a first occurrence is a first occurrence: the path never repeats a line. |
| ZWalk.OwnWay | zsim/src/cache_arrays.cpp:141-159 | Exactly one position of a cached line's own is where it is, so an expansion adds ways - 1 candidates. |
| ZWalk.ClimbIsChain | zsim/src/cache_arrays.cpp:174-192 | The finished climb is a chain along which each line may move. |
| ZWalk.OfferedMeans | zsim/src/cache_arrays.cpp:118-171 | What the policy is offered, place by place: the lines at the new address's own positions way after way, then for candidate after candidate the lines at its other positions. |
| ZWalk.OfferedEnds | zsim/src/cache_arrays.cpp:134-169 | How many it is offered: as many as `cands`, unless one of them is an empty line; nothing is offered beyond the candidates among which the first empty line was found. |
| ZArrays.ZArray.constructor | zsim/src/cache_arrays.cpp:70-88 | The empty array is the empty map. |
| ZArrays.ZArray.Lookup | zsim/src/cache_arrays.cpp:98-116 | Lookup is the map's lookup. |
| ZArrays.ZArray.Expand | zsim/src/cache_arrays.cpp:137-161 | One expansion goes one candidate on in that search: it adds the lines of its other ways, and stops at an empty line. |
| ZArrays.ZArray.Walk | zsim/src/cache_arrays.cpp:119-165 | The walk is that breadth-first search: it ends with `cands` entries or more, or at an empty line, within cands + ways, with the fringe behind. |
| ZArrays.ZArray.FillSwapArray | zsim/src/cache_arrays.cpp:174-192 | The path from the first occurrence of the victim fits the swap array and is a relocation chain. |
| ZArrays.ZArray.Preinsert | zsim/src/cache_arrays.cpp:118-200 | The victim is the policy's choice from exactly the lines that it must be offered, for every policy that chooses one of them, and the swap array holds a chain to it. |
| ZArrays.ZArray.Postinsert | zsim/src/cache_arrays.cpp:202-217 | The map loses the victim's address, gains the new one at the victim's line id, and is otherwise unchanged. |
| ZArrays.ZArray.FitsSwapArray | zsim/src/cache_arrays.cpp:87 | A path of k nodes each at least `ways` apart fits cands / ways + 2. |
| BarrierState.ScanOk | zsim/src/barrier.h:256-273 | Scanning the run list keeps the bookkeeping and stops only at the limit or at the end of the list. |
| BarrierState.JoiningOk | zsim/src/barrier.h:124-148 | A join that meets the asserts keeps the bookkeeping: appended if offline, swapped before the cursor if it already had its turn, left in place if its turn is to come or its index is stale; in the last case it is recorded as missing the phase. No other thread's state changes. |
| BarrierState.JoinEndsNoPhase | zsim/src/barrier.h:149-151 | A join in time never ends a phase: afterwards somebody runs. |
| BarrierState.RejoinExact | zsim/src/barrier.h:127-148 | For a thread that left, at place p of the run list: the assert holds and the code's rejoin keeps the bookkeeping if and only if p is its lastIdx when that is before the cursor, and p is not before the cursor when it is not. |
| BarrierState.InTime | zsim/src/barrier.h:127-148 | A joining thread meets the asserts and is in time for the phase if and only if it is offline or stands as RejoinExact says; otherwise it misses the phase. |
| BarrierState.LateJoin | zsim/src/barrier.h:127-151 | What a join that meets the asserts and is late does: the thread waits where it is, counts as missing the phase, and when everybody else has left the join itself ends the phase. |
| PhaseBarrier.MissesPhase | zsim/src/barrier.h:127-151 | Five calls after the constructor, with a second `lastIdx` left over from memory that is 2 or more: thread 1 waits behind the cursor, misses the phase, and its own join ends the phase with only that thread taking part. |
| BarrierState.AllCanJoin | zsim/src/barrier.h:127-148 | While every left thread stands where its index says, any of them can rejoin. |
| BarrierState.LeavingOk | zsim/src/barrier.h:166-178 | A leave keeps the bookkeeping, makes the thread LEFT, and changes no other thread's state. A running thread always stands where its index says; of a waiting one that decides, in both directions, whether all left threads still do. |
| BarrierState.SyncingOk | zsim/src/barrier.h:181-188 | A sync keeps the bookkeeping, makes the running thread WAITING with its futex word set, and changes no other thread's state. |
| BarrierState.DroppedBetween | zsim/src/barrier.h:216-236 | One step of the cleanup pass keeps the bookkeeping of a phase that has just ended. |
| BarrierState.ShuffledBetween | zsim/src/barrier.h:239-249 | So does one swap of the shuffle. |
| BarrierState.TryWakeSettles | zsim/src/barrier.h:275-279 | After the three steps of `tryWakeNext` nobody waits unless somebody runs, and the limit is reached or the list exhausted. |
| BarrierState.AfterWakeMeans | zsim/src/barrier.h:256-279 | What waking does to each thread: a waiting one runs afterwards if and only if it was woken, a left one goes offline exactly if the phase ended and this end takes left threads off the list, all others stay as they were, and the history only grows. |
| BarrierState.LogMeaning | zsim/src/barrier.h:201-273 | The history of wakes, joins and phase ends is in order if and only if, by positions: whenever a phase ends each thread taking part was woken earlier, or joined too late, with no phase end and no join in time of it in between; and after a wake or a late join of a thread it is only woken once there has been a phase end or a join in time of it. |
| BarrierState.TurnsMean | zsim/src/barrier.h:256-273 | A thread counts as run if and only if it was woken at some position with no phase end and no join of it after that, and as missing the phase if and only if its last late join has no phase end and no join in time after it. |
| PhaseBarrier.StaleIndex | zsim/src/barrier.h:124-145 | Two joins and a leave that end with a stale `lastIdx`: the assert at line 137 would fail if that thread rejoined. |
| PhaseBarrier.Barrier.constructor | zsim/src/barrier.h:105-119 | The empty barrier is valid whatever the memory holds: the source leaves every `lastIdx` as it finds it, here an arbitrary function. |
| PhaseBarrier.Barrier.Join | zsim/src/barrier.h:124-152 | For every thread that meets the source's own asserts: valid and settled afterwards, the new state following from the specified one by waking. A join in time wakes by one scan and ends no phase. |
| PhaseBarrier.Barrier.Leave | zsim/src/barrier.h:166-179 | The new state follows from the specified one by waking. If all left threads stood where their indices say, they all still do if and only if this one does. |
| PhaseBarrier.Barrier.Sync | zsim/src/barrier.h:181-189 | The same for a sync. |
| PhaseBarrier.Barrier.CheckRunList | zsim/src/barrier.h:256-273 | The loop is the specified scan. |
| PhaseBarrier.Barrier.CheckEndPhase | zsim/src/barrier.h:201-254 | A phase ends exactly when it can; the first and then every 32nd end takes exactly the threads that left off the list, and the rest is shuffled with the bookkeeping kept. |
| BarrierState.CleanupExact | zsim/src/barrier.h:214-236 | What that means: a thread goes from the list if and only if it had left and the number of phases so far is a multiple of 32, and then it is offline; no other thread changes its state or leaves the list. |
| PhaseBarrier.Barrier.TryWakeNext | zsim/src/barrier.h:275-279 | Afterwards the barrier is valid and settled. |
| FutexLock.StepKeepsExclusive | zsim/src/locks.h:153-208 | Every atomic step keeps: at most one owner, and the word is nonzero exactly while there is one. |
| FutexLock.StepKeepsAttended | zsim/src/locks.h:153-208 | And: while threads sleep the word is 2, or a wake is owed, or a woken thread has yet to put the 2 back. |
| FutexLock.RunsAreSafe | zsim/src/locks.h:153-208 | Both hold in every interleaving of any number of threads, with spurious wakes and timeouts. |
| FutexLock.AtMostOneOwner | zsim/src/locks.h:153-208 | Two threads never own the lock together, and the word is 1 or 2 while one does. |
| FutexLock.SleepersAreNotAlone | zsim/src/locks.h:200-208 | No lost wakeup: while a thread sleeps some other thread is at work on the lock. |
| FutexLock.StepMeans | zsim/src/locks.h:153-208 | What one atomic step does: a thread becomes owner exactly by finding the word 0 in a swap or compare; waiting puts 2 in the word and sleeps only while it is 2; an unlock frees the word and, if it was 2, wakes one sleeper when there is one; only a wake changes another thread. |
| FutexLock.FreeLockIsTaken | zsim/src/locks.h:153-198 | A thread that tries for a free lock, or sleeps on it and wakes, has it after at most two steps of its own. |
| FutexLock.HeldLockIsFreed | zsim/src/locks.h:200-208 | Its owner, left to itself, frees it in at most three steps and, if the word was 2 and a thread sleeps, leaves one awake. |
| RwMutex.StepKeepsInv | zsim/src/mutex.h:111-182 | Every atomic step keeps the count of readers, the holders of both inner mutexes and who may be inside. |
| RwMutex.RunsKeepInv | zsim/src/mutex.h:111-182 | In every interleaving of any number of threads. |
| RwMutex.Exclusion | zsim/src/mutex.h:111-182 | A writer excludes all readers and other writers, at most one thread waits on `wq`, and a downgrade finds 0 or 1 readers. |
| RwMutex.UnlocksAreOfHeldMutexes | zsim/src/mutex.h:111-177 | Every unlock is of a mutex that is held. |
| RwMutex.DowngradeIsAtomic | zsim/src/mutex.h:139-177 | From a thread's downgrade to its rdUnlock no thread is a writer. |
| RwMutex.SomeoneCanMove | zsim/src/mutex.h:111-177 | No deadlock: while a thread is in the mutex, some such thread can take a step. |
| RwMutex.StepGoesOn | zsim/src/mutex.h:111-177 | Each unblocked step brings its thread strictly nearer to what it asked for: a reader to reading, a writer to writing, an unlock to the end of its call, a downgrade to reading; nobody else moves. |
| RwMutex.EveryoneCanFinish | zsim/src/mutex.h:111-177 | From every state that satisfies the invariant there is a run at whose end every thread has got in and out again and nobody holds anything. |
| RwMutex.NoneOvertakes | zsim/src/mutex.h:111-134 | First come, first served: while a thread waits for `wq`, every other thread that wants in is blocked at `rb`, in every run. |
| WindowTable.NoDoubleBooking | zsim/src/ooo_core.h:277-298 | A try fails exactly when all ports of the mask are taken, and then changes nothing. A uop takes the lowest free port of the mask and counts one; a shadow reservation takes all of the mask and counts nothing. |
| WindowTable.JumpExact | zsim/src/ooo_core.h:187-203 | The jump by itself keeps the table if and only if no reservation, not even a shadow one, is left in the arrays or in the map before the new horizon. |
| WindowTable.JumpAfterDrain | zsim/src/ooo_core.h:195-202 | After the loop, the jump keeps the table if and only if the table from before the loop holds nothing between the drained cycle and the new horizon. |
| WindowTable.ShadowMoves | zsim/src/ooo_core.h:187-203 | A concrete shadow reservation that a jump displaces. |
| WindowRing.StartPosExact | zsim/src/ooo_core.h:224-227 | With the 32-bit delay the search starts at the requested cycle if and only if that is within reach of 32 bits. |
| WindowRing.StartPosWraps | zsim/src/ooo_core.h:224-240 | Concrete requests beyond that reach: one is searched for from the current cycle on, another is booked in a cycle already retired. |
| WindowRing.WindowStructure.constructor | zsim/src/ooo_core.h:135-140 | The empty structure is the empty table. |
| WindowRing.WindowStructure.TryFrom | zsim/src/ooo_core.h:229-246 | The search of one array books its first free cycle, or nothing. |
| WindowRing.WindowStructure.TryBeyond | zsim/src/ooo_core.h:247-271 | The search of the map books the first free cycle, absent cycles being free. |
| WindowRing.WindowStructure.Refill | zsim/src/ooo_core.h:170-184 | The reservations that come into reach, and no others, leave the map for the array. |
| WindowRing.WindowStructure.Rebase | zsim/src/ooo_core.h:167-184 | Rebasing changes no reservation of the conceptual table. |
| WindowRing.WindowStructure.AdvancePos | zsim/src/ooo_core.h:161-185 | One cycle is retired, the rest of the table stays, occupancy drops by what it held, and the position moves on or back to 0. |
| WindowRing.WindowStructure.Drain | zsim/src/ooo_core.h:219-222 | The full-window loop ends, just past the first cycle that holds a uop. |
| WindowRing.WindowStructure.ScheduleInternal | zsim/src/ooo_core.h:217-275 | For any request: the first free cycle from the 32-bit start position on is booked and nothing else changes, and the table stays sound if and only if that is not before the current cycle. For a request within reach it is the earliest cycle not before the request or the current cycle with a free permitted port. |
| WindowRing.WindowStructure.Schedule | zsim/src/ooo_core.h:143-159 | The table stays sound if and only if no request of the call, for the uop or an extra slot, comes round to a cycle already retired. If all are within reach of 32 bits, the uop is in the earliest cycle with a free permitted port and each extra slot in the first later cycle with the uop's port free; occupancy stays within WSZ. |
| WindowRing.UopMeans | zsim/src/ooo_core.h:143-159 | Port by port what such a call does: a full window gives up the cycles through the first with a counted uop; the uop goes in the first cycle, not before the request or the current cycle, with a port of the mask free, on the lowest one; the extra slots take that port; nothing else changes. |
| WindowRing.SlotMeans | zsim/src/ooo_core.h:148-156 | Each extra slot is in the next cycle after the one before it, or after the uop, in which that port is free. |
| WindowRing.WindowStructure.PoisonRange | zsim/src/ooo_core.h:206-215 | For any target: all permitted ports of every cycle before it are taken, and of one cycle more, the first free one from the target on; this holds and the table stays sound if and only if, in the table before the call, no cycle before the target with a free permitted port comes round to a retired one. |
| WindowRing.PoisonMeans | zsim/src/ooo_core.h:206-215 | Port by port what it leaves: the mask taken in every cycle up to the last, which is the first from the target on with a port of it free, and nothing else changed. |
| WindowRing.WindowStructure.LongAdvance | zsim/src/ooo_core.h:187-203 | The loop stops at the cycle after the last counted uop or at the target. The structure is sound and the table retired to the target if and only if that was the target or, in the table before the call, nothing, not even a shadow, is reserved from there to before the horizon that the jump brings. |
| DdrClock.TickRoundTrip | zsim/src/ddr_mem.h:250-258 | A tick asked for at memory cycle n comes at memory cycle n. |
| DdrClock.MatchingBounds | zsim/src/ddr_mem.h:253-258 | The matching system cycle lies inside the memory cycle it is for. |
| DdrClock.DoneIsNotPast | zsim/src/ddr_mem.cpp:606-610 | No read or write completion is earlier than the system cycle it is announced in. |
| DdrClock.DoneIsOnTime | zsim/src/ddr_mem.cpp:606-617 | With the latency of the way back added, a read is seen complete in the system cycle that holds the end of its burst, one memory cycle late, and a write in the one that holds the cycle after it is queued. |
| ActWindowLog.AddedContents | zsim/src/ddr_mem.h:59-74 | Whatever the order, exactly the oldest entry goes and the new one comes. |
| ActWindowLog.AddedSorted | zsim/src/ddr_mem.h:62-72 | The window stays in order if and only if the new activation is not older than the second-oldest entry. |
| ActWindowLog.ChainsExist | zsim/src/ddr_mem.h:59-74 | The activations fall into as many chains as the window has entries, each with gaps of at least tFAW. |
| ActWindowLog.NoFiveTooClose | zsim/src/ddr_mem.h:55-74 | Among any size + 1 activations two are at least tFAW apart, in order or not. |
| ActivationWindow.ActWindow.constructor | zsim/src/ddr_mem.h:49-53 | The window starts at zeros. |
| ActivationWindow.ActWindow.AddActivation | zsim/src/ddr_mem.h:59-74 | The shifting loop on the ring computes the specified window, including the case in which it comes round to the slot it began with. |
| IntrusiveList.InListNode.Unlink | zsim/src/intrusive_list.h:50-57 | The neighbours are joined and the node is free. |
| IntrusiveList.InListNode.LinkPrev | zsim/src/intrusive_list.h:59-72 | The node stands after its predecessor. |
| IntrusiveList.InList.PushFront | zsim/src/intrusive_list.h:88-101 | The list is the node and then the old list; all links, ends and the count agree. |
| IntrusiveList.InList.PushBack | zsim/src/intrusive_list.h:103-115 | The list is the old list and then the node. |
| IntrusiveList.InList.PopFront | zsim/src/intrusive_list.h:117-124 | The list loses its first node, which is free. |
| IntrusiveList.InList.PopBack | zsim/src/intrusive_list.h:126-133 | The list loses its last node, which is free. |
| IntrusiveList.InList.Remove | zsim/src/intrusive_list.h:136-143 | The list loses that node, wherever it is. |
| IntrusiveList.InList.InsertAfter | zsim/src/intrusive_list.h:145-151 | The node follows the given one. |
| RequestPool.RequestQueue.constructor | zsim/src/ddr_mem.h:92-99 | All nodes are free. |
| RequestPool.RequestQueue.Alloc | zsim/src/ddr_mem.h:105-111 | The node freed last becomes the newest request; no node is on both lists. |
| RequestPool.RequestQueue.Remove | zsim/src/ddr_mem.h:125-129 | The node goes back to the free list, the order of the others stays. |
| FrFcfs.QueuedKeeps | zsim/src/ddr_mem.cpp:382-419 | Sequence numbers stay within the limit, and a nonzero one always continues the run of the request just before it. |
| FrFcfs.QueuedExact | zsim/src/ddr_mem.cpp:382-419 | The queue after an arrival: directly behind the last request to the row with its number plus one, if that number is below `rowHitLimit`; alone in an empty queue with `curRowHits` plus one, if the row is open and below the limit; else last with number 0. |
| FrFcfs.IssueKeeps | zsim/src/ddr_mem.cpp:587-599 | Issuing keeps that, with the issued number as the row-hit count. |
| FrFcfs.RowFifo | zsim/src/ddr_mem.cpp:382-419 | Requests to one row keep their arrival order; none is lost or copied. |
| FrFcfs.ArrivalPaid | zsim/src/ddr_mem.cpp:382-419 | Each request placed ahead of a waiting one uses up one unit of a credit that nothing raises. |
| FrFcfs.BoundedBypass | zsim/src/ddr_mem.cpp:382-419 | Over any run the later requests placed ahead of a waiting one number at most `rowHitLimit` times the distinct rows that were ahead of it. |
| BankQueue.FindRow | zsim/src/ddr_mem.cpp:382-397 | The backward walk finds the last request to the row. |
| BankQueue.Enqueue | zsim/src/ddr_mem.cpp:363-419 | On the linked list, the request goes where the FR-FCFS specification says, with the number it says. |
| DdrTiming.ColumnAdvances | zsim/src/ddr_mem.cpp:547-601 | The column command comes after the bank's last one (the assert holds), not before the current cycle, and a read after a write waits tWTR. |
| DdrTiming.CommandsAreEarliest | zsim/src/ddr_mem.cpp:463-489 | The cycles of the activation, of readiness and of the column command are the earliest that meet every single constraint of the code: arrival, precharge, tRP, tRRD, tFAW, tRCD, the data bus and tWTR. |
| DdrTiming.IssuesNow | zsim/src/ddr_mem.cpp:547-586 | A request that is ready while the bus is free soon enough issues its column command in the current cycle, unless it is a read that waits out tWTR after a write. |
| DdrTiming.ServedMeans | zsim/src/ddr_mem.cpp:547-602 | What an issue leaves: the bus taken to the end of the burst, the row open unless closed-page with no hit to come, the activation recorded unless it was a row hit, the precharge after tRAS and after tRTP or the write recovery, and every other bank unchanged. |
| DdrTiming.ServedKeepsInv | zsim/src/ddr_mem.cpp:547-602 | Issuing a ready request keeps all timing invariants. |
| DdrTiming.RefreshKeepsInv | zsim/src/ddr_mem.cpp:634-653 | So does a refresh. |
| DdrTiming.RefreshHolds | zsim/src/ddr_mem.cpp:634-653 | After a refresh every bank is closed, with only its row and precharge time changed, and no activation comes within tRFC of its start, which waits for all banks. |
| DdrTiming.BusyToIsTight | zsim/src/ddr_mem.cpp:634-643 | That start is the current cycle or a cycle that some bank has to wait for. |
| DdrTiming.TimingSafety | zsim/src/ddr_mem.cpp:547-653 | Over any run data bursts never overlap, column commands to a bank strictly increase, and activations of a bank are at least tRAS + tRP apart. |
| DdrTiming.FourActivateWindow | zsim/src/ddr_mem.cpp:547-598 | Over any run two of any five activations of a rank are at least tFAW apart. |
| DdrTiming.TrrdExact | zsim/src/ddr_mem.cpp:562-575 | tRRD, which the code only adds to the last activation of the same bank, changes no run if and only if it is at most the larger of tRP and tFAW and at most the least time a row stays open plus tRP. |
| DdrPools.EnterKeeps | zsim/src/ddr_mem.cpp:299-316 | A request entering its pool and bank queue is then in each exactly once, and no other moves. |
| DdrPools.LeaveKeeps | zsim/src/ddr_mem.cpp:627-629 | A request leaving both is in neither, and no other moves. |
| DdrController.AdmittedIsFrFcfs | zsim/src/ddr_mem.cpp:363-419 | The controller's bank queue is the FR-FCFS queue. |
| DdrController.AdmittedIsLast | zsim/src/ddr_mem.cpp:363-419 | A request that comes in is the last of its pool and changes no list but that and its bank's, and no other request. |
| DdrController.LeftIsRest | zsim/src/ddr_mem.cpp:627-629 | A request that issues leaves its pool and the front of its bank queue, and all else in order. |
| DdrController.MoreIsHit | zsim/src/ddr_mem.cpp:590-592 | Closed-page looks at whether the next request of the queue has a nonzero number; that is so exactly if it is the next hit of the same run. |
| DdrController.WritesInBursts | zsim/src/ddr_mem.cpp:509-511 | Writes have priority once they are more than three quarters of the queue depth, and then as long as they are more than a quarter. |
| DdrController.Scan | zsim/src/ddr_mem.cpp:513-541 | The first request in arrival order that heads its bank queue and is ready, else the first cycle at which one will be. |
| DdrController.DDRMemory.constructor | zsim/src/ddr_mem.cpp:153-226 | Nothing accepted or queued, no tick pending, all banks closed and idle. |
| DdrController.DDRMemory.TrySchedule | zsim/src/ddr_mem.cpp:491-632 | A request issues exactly if one is queued, the data bus is free soon enough, and some head of a bank queue in the pool whose turn it is is ready: the first such in arrival order. The cycle of the next try is exactly the code's, a read's answer likewise and not in the past. |
| DdrController.NeverIdles | zsim/src/ddr_mem.cpp:504-541 | If nothing issues, then nothing is queued, or the bus is taken, or each head of a bank queue in that pool has its earliest command later. |
| DdrController.IssuesFirst | zsim/src/ddr_mem.cpp:512-541 | What issues is of the pool whose turn it is, heads its bank queue and is ready, and nothing that came before it in that pool is both. |
| DdrController.NextMissesNothing | zsim/src/ddr_mem.cpp:504-541 | And the controller sleeps through no chance: unless a request comes, nothing could issue before the next try; when it waits for a bank something can issue then. |
| DdrController.DDRMemory.Admit | zsim/src/ddr_mem.cpp:345-419 | The request is in its pool and in FR-FCFS order in its bank queue; a write is answered exactly in the system cycle that the code says, which is not in the past. |
| DdrController.DDRMemory.Enqueue | zsim/src/ddr_mem.cpp:296-343 | The request goes to the overflow queue exactly if a pool is full, else to its pool and bank queue; a write's answer is exactly the code's; every accepted request is in one place, and a tick is pending at the right system cycle whenever one is live. |
| DdrController.DDRMemory.WakeAt | zsim/src/ddr_mem.cpp:336-340 | The event's system cycle translates back to the memory cycle asked for. |
| DdrController.DDRMemory.WakeFor | zsim/src/ddr_mem.cpp:321-342 | A request that heads its bank queue brings the next tick forward to the first cycle it could issue at, exactly if no tick comes by then. |
| DdrController.DDRMemory.LiveHasTick | zsim/src/ddr_mem.cpp:296-343 | While a request is live a tick is pending, at a system cycle that translates back to its memory cycle. |
| DdrController.DDRMemory.Drain | zsim/src/ddr_mem.cpp:431-444 | The oldest overflowed request, and only it, moves into its pool, arriving now, and is answered as in `enqueue` if it is a write. |
| DdrController.DDRMemory.Tick | zsim/src/ddr_mem.cpp:426-461 | The assert on the cycle holds. One issue is tried, then the oldest overflowed request moves in exactly if there is one and both pools have room; the next tick is exactly at the earlier of the next try and the cycle that request could issue at, and both answers are exactly the code's. |
| DdrController.DDRMemory.Refresh | zsim/src/ddr_mem.cpp:634-653 | The banks are the refreshed ones and everything else stays valid. |
| DdrRuns.StepFollows | zsim/src/ddr_mem.cpp:296-653 | An arrival, a wait in the overflow queue, a move out of it, an issue or a refresh is to every bank queue one arrival, one issue or nothing of the FR-FCFS queue. |
| DdrRuns.QueueFollows | zsim/src/ddr_mem.cpp:296-653 | Over any run of those, every bank queue is what the FR-FCFS queue makes of the arrivals and issues that concern it. |
| DdrRuns.ControllerRuns | zsim/src/ddr_mem.cpp:296-653 | Over any such run the later requests placed ahead of a waiting one number at most `rowHitLimit` times the distinct rows ahead of it, and in every queue sequence numbers stay within the limit and continue the run of the request just before; without deferred writes the front one continues the run of the last to issue. |
| DdrRuns.EnqueueIsStep | zsim/src/ddr_mem.cpp:296-343 | What `enqueue` promises is one step of such a run. |
| DdrRuns.TickIsRun | zsim/src/ddr_mem.cpp:426-461 | What `tick` promises is at most two: an issue and a move out of the overflow queue. |
| DdrLateWrite.WindowLosesOrder | zsim/src/ddr_mem.cpp:491-602 | A run of the controller by its own policy, for every configuration that defers writes, has room for three reads and has timings of at most 40 cycles: a write comes in at cycle 40 and three reads of other banks at 41. The write issues last and the window reads 41, 41, 41, 40; the three banks of the rank are all activated in cycle 41. |
| DdrLateWrite.TooEarly | zsim/src/ddr_mem.cpp:513-541 | At the tick that the write asked for none of the reads that came in after it is ready, so nothing issues. |
| MissCurves.OneAtATime | zsim/src/lookahead.cpp:38-54 | On a convex curve no chunk of buckets has a higher utility than a single one. |
| MissCurves.RisingLooksBest | zsim/src/lookahead.cpp:38-54 | The difference of misses is unsigned: a partition that would miss more with one bucket more looks better than any chunk of a curve that does not rise. |
| MissCurves.PricedIsBest | zsim/src/lookahead.cpp:77-108 | At a price that every bucket given is worth and no further one is, no other number of buckets is better. |
| Lookahead.GetMaxMarginalUtility | zsim/src/lookahead.cpp:38-54 | The smallest chunk of the highest utility per bucket. |
| Lookahead.BestPartition | zsim/src/lookahead.cpp:78-100 | The chunk of the highest utility that any open partition could get, of equals the first partition's and its smallest. |
| Lookahead.NoneIsBetter | zsim/src/lookahead.cpp:78-100 | Said of every other open partition and chunk: its utility is no higher, and if it is equal it comes later or is no smaller. |
| Lookahead.RoundKeepsPrice | zsim/src/lookahead.cpp:77-108 | A round keeps such a price for all open partitions. |
| Lookahead.PricedIsOptimal | zsim/src/lookahead.cpp:68-109 | With such a price no other distribution of the buckets has fewer misses. |
| Lookahead.ComputeBestPartitioning | zsim/src/lookahead.cpp:68-109 | The loop ends having handed out exactly buckets - minAlloc on top of the minimum for each partition, none to a forbidden one, in rounds each of which was the best there was when it came, whatever the curves; on convex curves no other distribution misses less. |
| Lookahead.HandsOutBuckets | zsim/src/lookahead.cpp:68-76 | What is handed out adds up to the buckets there are if and only if the minimum is zero or there is one partition. |
| Lookahead.HandsOutTooMany | zsim/src/lookahead.cpp:68-76 | A concrete distribution of three buckets where there are two. |
| FilterState.OtherSetsKeep | zsim/src/filter_cache.h:128-149 | An access only disturbs ways of its own set, so the entries of other sets stay good. |
| FilterState.ClearedKeeps | zsim/src/filter_cache.h:151-158 | Clearing a matching entry changes nothing else, keeps the others good and leaves none for the line. |
| FilterState.IndexIsPhysical | zsim/src/filter_cache.h:102-131 | The entry of a line and its set in the L1 have the same number, though one is taken from the virtual address and the other from the physical. |
| FilterState.InvalKeeps | zsim/src/filter_cache.h:151-162 | A change of a line's state breaks no entry once its own is cleared. |
| FilterState.MatchExact | zsim/src/filter_cache.h:102-126 | A match of the lock-free check on address v means, in every good state, that the line is in the L1 (in M for a store), if and only if v is not 0. |
| FilterCaches.FilterCache.constructor | zsim/src/filter_cache.h:66-77 | All entries are cleared and all lines are I. |
| FilterCaches.FilterCache.Load | zsim/src/filter_cache.h:102-112 | A match for a nonzero address means the line is resident and valid in the L1, at any point of any interleaving. |
| FilterCaches.FilterCache.Store | zsim/src/filter_cache.h:114-126 | A match for a nonzero address means the line is resident in M. |
| FilterCaches.FilterCache.LookUp | zsim/src/cache.cpp:61-75 | The access goes on with the way that holds the line, or with an eviction in its set. |
| FilterCaches.FilterCache.Evicted | zsim/src/cache.cpp:68-80 | The new line takes the victim's way, and is then what lookup finds. |
| FilterCaches.FilterCache.Granted | zsim/src/coherence_ctrls.cpp:104-145 | The line is valid after a load and in M after a store, whatever invalidation came in between. |
| FilterCaches.FilterCache.Finish | zsim/src/filter_cache.h:137-148 | The entry names the line, for stores only after a store. |
| FilterCaches.FilterCache.StartInvalidate | zsim/src/filter_cache.h:151-158 | A matching entry is cleared before the state changes. |
| FilterCaches.FilterCache.FinishInvalidate | zsim/src/filter_cache.h:159-162 | The state of exactly that line changes. |
| FilterCaches.FilterCache.ContextSwitch | zsim/src/filter_cache.h:164-168 | All entries are cleared. |
| FilterCaches.ZeroMatches | zsim/src/filter_cache.h:51-109 | A fresh filter matches a load of line address 0, which is not in the L1. |

## Left out

- RaceMachine.RunsAreCoherent: covers one level with invalidations landing in every window; the tree results (MesiTree) take each operation as one step, so a race that spans several levels at once is not modelled.
- RaceMachine.DirtHasAStore: dirty data under a child that is itself in E is not part of this level's state; that it turns up is a choice of the step.
- MesiTree.AccessKeepsTree: the tree is a value rebuilt by each operation, so aliasing of controllers and the hand-over of locks are not part of it; MesiControllers has the controllers as objects for one level.
- MesiControllers.MESICC.ProcessAccess: `nonInclusiveHack` and the NONINCLWB request are left out; latencies and counters too. Prefetches are not requests of RaceMachine or MesiTree.
- OptGenRing.OptGen.constructor: the ring size must divide 2^32; for any other RingArithmetic.ScanEndsExact says that the scan for a line that is not there need not end, and RingArithmetic.WrapExact that `wrap_index` is not the remainder.
- OptGenRing.OptGen.CacheAccess: one set; the arrays of all sets at their offsets, the sampling of sets and the Hawkeye predictor that uses the answers are left out.
- ZArrays.ZArray.Preinsert: the hash is an arbitrary function into the sets, `& setMask` with its power-of-two size is the remainder, and the replacement policy is any function from the candidates to one of them; line address 0 marks an empty line, as in the source, and is not an address.
- PhaseBarrier.Barrier.Join: a join that fails one of the source's asserts is not followed further. The waits on the thread's futex and the handling of the scheduler lock are left out: each call is one step up to where it would block.
- PhaseBarrier.Barrier.CheckEndPhase: the callback at the end of a phase is left out, and the shuffle takes arbitrary random numbers.
- FutexLock.RunsAreSafe: the back-off pauses are left out; the kernel is a set of sleepers that a wake takes at most one of.
- RwMutex.RunsKeepInv: the two inner mutexes are taken and released in one step each, which is what the futex lock provides; the number of threads is below 2^32.
- WindowRing.WindowStructure.Schedule: when a request is beyond the 32-bit reach, which cycles are booked is only said request by request (WindowRing.WindowStructure.ScheduleInternal). That `lastPort` is only recorded for uops with extra slots is not visible and not modelled.
- DdrClock.TickRoundTrip: unbounded integers; 64-bit overflow of a cycle times a frequency is left out.
- DdrRuns.ControllerRuns: with deferred writes a bank has a queue of reads and one of writes that share its row buffer, so issuing from one may end the run at the front of the other; what holds inside each queue is proved for both.
- DdrController.DDRMemory.Enqueue: pools, bank queues and overflow queue are sequences of request keys here; the linked lists under them are IntrusiveList, RequestPool and BankQueue. Address mapping, statistics and the recycling of event objects are left out.
- DdrController.DDRMemory.TrySchedule: windows and banks are values; ActivationWindow.ActWindow has the window as a ring.
- Lookahead.ComputeBestPartitioning: utilities are exact rationals where the source rounds quotients of doubles. Its caller passes the minimum times the number of partitions as the minimum of each (zsim/src/lookahead.cpp:133-135); the model takes the argument as it is.
- FilterCaches.FilterCache.Granted: the parent's answer is an argument; availability cycles, several processes with different address masks, and replacement among the ways (any way of the set) are left out.
- Branch prediction, Pin decoding, configuration, statistics, shared memory and I/O: not part of this model.
- The event graph, contention simulation and the detailed memory model: not part of this model.
- Other replacement policies, hash functions and random numbers: taken as arbitrary.
