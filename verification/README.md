# Operating-system algorithms, modelled and verified

The repository holds the programming projects of an operating-systems course. Each of its C and
Java programs keeps shared state that it changes step by step. This project models the seven
with the strongest promises and proves those promises for all inputs, all sizes and all runs:

- the **banker's algorithm** (`Project6/banker.c`): what the safety check decides, what every run
  of requests and releases keeps, and that a safe state lets every customer finish;
- the **contiguous allocator** (`Project7/allocator.c`): a doubly linked region list that stands
  for a map from address to owner, through splitting and coalescing;
- the **virtual memory manager** (`Project8/vm_manager.c`): TLB, page table and FIFO frames
  against a pager without TLB and against the backing store, for every number of frames;
- the **bounded buffer and the thread pool** (`Project5`): one semaphore queue, any number of
  threads, any interleaving;
- the **schedulers** (`Project4/posix`): round robin with a moving cursor and its closed form,
  stable rearrangement by priority, and shortest job first;
- the **parallel quicksort** (`Project3/fork-join/Quicksort/Quicksort.java`): sequentially on the
  array, and as a tree of interleaved tasks.

## How it is organised

Most programs come as two modules: one of functions and lemmas that says what a call means and
what follows from it over whole runs (`Banker`, `Allocator`, `Pager` and `PagerLaws`, `Sjf`,
`RoundRobin`, `Selection`, and `NegativeVectors` and `LostSafety` for what the banker does with negative entries), and one with
the program's own arrays, linked nodes and loops (`BankerProgram`, `AllocatorProgram`,
`VmManager`, `SjfProgram`, `RoundRobinProgram`, `TaskList`), whose methods are proved against
those functions. The classes keep ghost views (the sequence of live regions,
the list of faults, the nodes of a list) that name the abstract value of the pointers.
`SemaphoreQueue` is a step system with a program counter per thread, `Deliveries` follows the
items from the calls that are given them to the consumers, `RingProgram` is the code
of the critical sections on the shared array, and `BoundedBuffer` and `ThreadPool` are the two
uses. `Quicksort` is the sorting task on the array, and `ForkJoin` the same steps taken by all
forked tasks in any order. `Options`, `Modular` and `Sequences` are helpers.

The sizes that the sources fix with `#define` (customers, resources, frames, quantum, capacity)
are parameters here; only `BoundedBuffer`, `ThreadPool` and `Pager.ShippedFaultCount` put in the
shipped values.

## Where the code and its comments or intentions differ

- `Project6/banker.c:140` tests the customer number with `>` and line 168 with `>=`. For the
  customer number N a request reads `need` out of bounds unless the vector is refused first;
  `Banker.InBounds` is that condition.
- `Project6/banker.c` never checks its initial state. `InitialSafeIff` says when it is safe, and
  `UnsafeStartFreezes` and `UnsafeStartStaysUnsafe` what happens when it is not.
- Negative vectors are not rejected, so that calls can leave a customer with a negative amount.
  `GreedyMissesWithNegativeAllocation` is an input whose first call `safe()` then answers wrongly.
  `DecidesIffOnlyLastNegative` says exactly for which allocations `safe()` always decides safety
  (nobody but the last customer holds a negative amount), `AnsweredRightIff` exactly which
  requests are always answered right (those of the last customer, and those that ask back no more
  than the customer holds), and `RequestKeepsInvIff` and `ReleaseKeepsInvIff` exactly which calls
  keep the invariant. Negative vectors can also lose safety and be granted in unsafe states:
  `ReleaseLosesSafety` and `UnsafeStartGrants` are inputs. `ReleaseKeepsSafeIff` says exactly which
  releases always keep safety (those refused, those without negative entries, and those of a
  customer that alone holds anything), and `GrantNeedsSafeIff` exactly which requests only safe
  states grant. `Banker.Admissible` collects these conditions for the lemmas about whole runs.
- `Project7/allocator.c:74` and `:87` compare the wrong way round for their comments: 'B' takes
  the leftmost largest hole that fits and 'W' the leftmost smallest. `Allocator.Dest` follows
  the code.
- The forward merge at `Project7/allocator.c:134` has a condition that contradicts itself, so it
  is not modelled; `PassCoalesces` shows that the backward merge is enough.
- `makeRegion` with an empty name leaves `name` unset (`Project7/allocator.c:32-35`); the model
  takes the intended meaning, unused.
- A request for zero bytes leaves an empty region unless it is refused, which happens exactly when
  its strategy is unknown or no region is unused (`RequestKeepsTilesIff`, `ZeroFailsIff`,
  `ExecuteKeepsInvIff`). `ZeroRequestLosesMemory` is an input after which all the memory is unused
  and a request for it is refused.
- `else left++` (`Quicksort.java:41`) and both `return 1` branches of the buffer are proved
  unreachable.

## Model

| member | source | states |
|---|---|---|
| Banker.FirstReady | Project6/banker.c:189-197 | the customer the inner loop stops at is ready, and no earlier one is |
| Banker.GreedyRunsToStuck | Project6/banker.c:182-198 | the customers the restarting loop finishes can finish one after another in that order, and afterwards no customer is ready |
| Banker.StuckAbsorbs | Project6/banker.c:182-198 | exchange argument: a set in which nobody else is ready contains every customer that can finish in any order at all |
| Banker.GreedyIsLargest | Project6/banker.c:182-198 | the finished set contains every completable set as long as nobody but the last customer holds a negative amount; when nobody does, it is the only one that is stuck, so that it does not depend on the scan order |
| Banker.GreedySound | Project6/banker.c:200-204 | a yes of safe() means that some permutation of all customers can finish, whatever the signs of the entries |
| Banker.GreedyGate | Project6/banker.c:188-197 | the loop comes to the last customer only when nobody else is ready |
| Banker.GateAbsorbs | Project6/banker.c:182-198 | the exchange argument when the last customer may hold a negative amount: every order stays within what had finished before the loop came to that customer, and afterwards within what it finished |
| Banker.GreedyDecidesSafe | Project6/banker.c:182-205 | when nobody but the last customer holds a negative amount, safe() answers yes if and only if some permutation of the customers can finish one after another |
| NegativeVectors.GreedyMissesWithNegativeAllocation | Project6/banker.c:139-162 | an input whose first call, a request for -1, is refused although the state it leads to is safe |
| NegativeVectors.TrappedIsSafe | Project6/banker.c:182-205 | a state is safe in which all but the last customer are always ready, and the last needs what is free without one other customer |
| NegativeVectors.TrappedFools | Project6/banker.c:182-205 | the loop gets stuck in such a state, when the last customer cannot finish after all the others |
| NegativeVectors.DecidesIffOnlyLastNegative | Project6/banker.c:182-205 | for given allocations: safe() decides safety whatever is available and needed iff nobody but the last customer holds a negative amount |
| NegativeVectors.AnsweredRightIff | Project6/banker.c:139-165 | for given allocations and any vector: in every state with balanced books, each such request within what is available and needed reaches the safety test and is answered 0 or 1 as the state it leads to is safe or not, iff the customer is the last or asks back no more than it holds |
| NegativeVectors.BalancedIsReached | Project6/banker.c:167-180 | releases with negative vectors, which nothing rejects, reach every state with balanced books from its initial state |
| LostSafety.UnsafeStartGrants | Project6/banker.c:139-165 | an input with an unsafe start whose first call, a request for -1, is granted |
| LostSafety.ReleaseLosesSafety | Project6/banker.c:167-180 | an input with a safe start that a request for 1 and a release of -1, both accepted, make unsafe |
| LostSafety.NotReadyWithout | Project6/banker.c:182-198 | a customer that needs what is free once all others have finished is not ready before everybody who holds something has |
| LostSafety.HoldersFirst | Project6/banker.c:182-205 | in a state balanced on such a customer the loop finishes everybody |
| LostSafety.HoldersAreStuck | Project6/banker.c:149-178 | once that customer takes away some of what was free, with another holder, the state is unsafe |
| LostSafety.ReleaseKeepsSafeIff | Project6/banker.c:167-180 | for given allocations and any vector: a release keeps every safe state with balanced books safe iff it is refused, has no negative entry, or nobody else holds anything; the same if the release must keep the books balanced |
| LostSafety.GrantNeedsSafeIff | Project6/banker.c:139-165 | for given allocations and any vector: only safe states grant the request iff it has no negative entry, or nobody else holds anything and the customer asks back no more than it holds or is the first |
| Banker.MoveBack | Project6/banker.c:155-160 | the rollback restores the state exactly |
| Banker.RequestAnswers | Project6/banker.c:139-165 | entry by entry: -1 iff the customer does not exist, -2 iff some entry is more than is available, -3 iff none is but some is more than is needed, else 0 or 1; 0 moves the vector to the customer, any other code changes nothing |
| Banker.RequestGrantsIff | Project6/banker.c:143-165 | a request within what is available and needed is answered 0 if the state it leads to is safe and 1 if not, when nobody but the last customer holds a negative amount there |
| Banker.ReleaseAnswers | Project6/banker.c:167-180 | entry by entry: -1 iff the customer does not exist, 1 iff some entry is more than it holds, else 0; 0 moves the vector back, any other code changes nothing |
| Banker.MoveKeepsInv | Project6/banker.c:149-153 | a transfer keeps the books balanced and non-negative if and only if it overdraws none of the three arrays |
| Banker.RequestKeepsInvIff | Project6/banker.c:139-165 | for any vector, negative entries included: a request keeps the invariant iff it is refused or asks back no more than the customer holds |
| Banker.ReleaseKeepsInvIff | Project6/banker.c:167-180 | for any vector: a release keeps the invariant iff it is refused or its negative entries are covered by what is available and needed |
| Banker.InitialInv | Project6/banker.c:36-53 | the initial state has the invariant: allocation + need = maximum, available + all allocations = the total, nothing negative |
| Banker.StepKeepsInv | Project6/banker.c:139-180 | every admissible call keeps that invariant: any without negative entries, any that is refused, and any of a lone holder that is covered |
| Banker.RunKeepsInv | Project6/banker.c:139-180 | so does every sequence of admissible calls |
| Banker.ReturnKeepsOrder | Project6/banker.c:174-178 | returning resources keeps every completion order a completion order |
| Banker.LoneHolderIsReady | Project6/banker.c:182-198 | if one customer alone holds anything, any order in which it can finish lets it finish first |
| Banker.LoneMoveKeepsSafe | Project6/banker.c:149-178 | whatever such a customer takes or gives back, a safe state stays safe |
| Banker.ReleaseKeepsSafe | Project6/banker.c:167-180 | a release without negative entries preserves safety, and so does any release of a customer that alone holds anything |
| Banker.RunKeepsSafe | Project6/banker.c:139-180 | every state reached from a safe one by admissible calls is safe |
| Banker.InitialSafeIff | Project6/banker.c:36-53 | the unchecked initial state is safe iff every row of maximum is within available |
| Banker.GrantNeedsSafe | Project6/banker.c:139-165 | only a safe state grants a request without negative entries, or one of a lone holder that is covered or is the first customer |
| Banker.UnsafeStartFreezes | Project6/banker.c:36-53 | from an unsafe start no run without negative entries grants any request or changes the state |
| Banker.UnsafeStartStaysUnsafe | Project6/banker.c:139-180 | from an unsafe start no run of admissible calls, negative entries or not, grants any request or reaches a safe state |
| Banker.ReachableSafeIffInitialSafe | Project6/banker.c:139-180 | a state reached by admissible calls is safe iff the initial one was |
| Banker.FullGrantIsSafe | Project6/banker.c:139-165 | in a safe state a customer whose need is available can be granted all of it and the state stays safe |
| Banker.ServeEffect | Project6/banker.c:139-180 | requesting all it needs and then releasing its maximum succeeds for a ready customer, who in between holds its full maximum, and in effect returns what it held |
| Banker.ServeAll | Project6/banker.c:139-180 | a completion order can be carried out by such pairs of calls, and ends in the initial state |
| Banker.SafeServesAll | Project6/banker.c:139-180 | every safe state with the invariant has such an order of all customers |
| Banker.SafeIffServable | Project6/banker.c:139-205 | a state with the invariant is safe iff requests and releases, all answered 0, can serve all customers in some order |
| Banker.CompletingRunExists | Project6/banker.c:139-205 | from every state reached from a safe start by admissible calls, each customer in turn can get its full maximum and return it, all calls answering 0, until the initial state is back |
| BankerProgram.Bank.constructor | Project6/banker.c:36-53 | the arrays hold the initial state of the input |
| BankerProgram.Bank.RowLeq | Project6/banker.c:207-212 | the comparison loop answers the pointwise order of a matrix row and a vector |
| BankerProgram.Bank.LeqVector | Project6/banker.c:207-212 | the same for the request vector and an array |
| BankerProgram.Bank.LeqRow | Project6/banker.c:207-212 | the same for the request vector and a matrix row |
| BankerProgram.Bank.SafeCheck | Project6/banker.c:182-205 | on the arrays: the answer is that of the greedy loop, and decides safety when nobody but the last customer holds a negative amount |
| BankerProgram.Bank.FinishAll | Project6/banker.c:187-198 | the rescanning loop ends with exactly the greedy set finished and work equal to what is then free |
| BankerProgram.Bank.ScanOnce | Project6/banker.c:189-197 | one scan finishes the first ready customer, or nobody if there is none |
| BankerProgram.Bank.AllFinished | Project6/banker.c:200-204 | yes iff all customers are in the finished set |
| BankerProgram.Bank.AddRow | Project6/banker.c:191-192 | work becomes what is free once the customer has finished too |
| BankerProgram.Bank.Transfer | Project6/banker.c:149-153 | the three arrays change by the vector, in that customer's row only |
| BankerProgram.Bank.RequestResources | Project6/banker.c:139-165 | on the arrays: -1 iff no such customer, -2 iff some entry exceeds available, -3 iff none does but some exceeds need, else 0 or 1, and 0 iff the state after the transfer is safe (nobody but the last holding a negative amount); 0 changes each entry of the three arrays by the vector, other codes change nothing |
| BankerProgram.Bank.GrantOrRollBack | Project6/banker.c:139-165 | new state and return code are those of Request, with the rollback undone exactly |
| BankerProgram.Bank.TakeBackOrRefuse | Project6/banker.c:167-180 | new state and return code are those of Release |
| BankerProgram.Bank.ReleaseResources | Project6/banker.c:167-180 | on the arrays: -1 iff no such customer, 1 iff some entry exceeds its allocation, else 0; 0 changes each entry of the three arrays by the vector, other codes and other rows stay |
| Allocator.RoundUp | Project7/allocator.c:181 | the shift yields the least multiple of 4096 that is at least the size, for negative sizes too |
| Allocator.Requested | Project7/allocator.c:181-182 | after conversion to size_t: still page-aligned, not smaller than asked, and zero only for sizes in (-4096, 0] |
| Allocator.NegativeRequestFails | Project7/allocator.c:60-98 | a size of -4096 or less is refused by every strategy |
| Allocator.Dest | Project7/allocator.c:58-92 | the region chosen is unused and large enough; none is chosen only if none fits or the letter is not F, B or W |
| Allocator.DestByLetter | Project7/allocator.c:59-92 | among the fitting regions F takes the first, B the leftmost of the largest, W the leftmost of the smallest |
| Allocator.RequestTakes | Project7/allocator.c:56-115 | a request takes the region its letter asks for, from its begin, leaves the rest of it unused and all other regions alone; it is refused iff the letter is unknown or no region fits |
| Allocator.CellsAtAddresses | Project7/allocator.c:11-17 | in a tiling list, the map from address to owner gives each address the name of the region that covers it |
| Allocator.RequestOwns | Project7/allocator.c:94-112 | a successful request takes exactly `size` addresses, all unused before, from the begin of the chosen region, changes no other address and keeps the tiling |
| Allocator.RequestKeepsCoalesced | Project7/allocator.c:104-112 | a request never leaves two neighbouring unused regions |
| Allocator.RequestKeepsAligned | Project7/allocator.c:104-112 | every region still begins at a multiple of 4096 |
| Allocator.RequestKeepsTilesIff | Project7/allocator.c:56-115 | the regions still tile the memory without empty region iff the size is positive or the request is refused |
| Allocator.RunGivesFit | Project7/allocator.c:59-92 | in coalesced memory any run of unused addresses lies inside one region that fits it |
| Allocator.FailsIffNoFreeRun | Project7/allocator.c:56-98 | F, B and W refuse a request iff no run of `size` consecutive addresses is unused anywhere |
| Allocator.MergeFacts | Project7/allocator.c:126-133 | the backward merge changes no address's owner and keeps the tiling |
| Allocator.PassFrees | Project7/allocator.c:117-147 | one pass of release frees exactly the addresses owned by the name, however many regions bear it, and keeps the tiling |
| Allocator.PassCoalesces | Project7/allocator.c:117-147 | one pass leaves no two neighbouring unused regions, whatever the list was before |
| Allocator.ReleaseFacts | Project7/allocator.c:117-150 | release restores the invariant and frees exactly the addresses owned by the name |
| Allocator.ReleaseFrees | Project7/allocator.c:117-150 | every address owned by the name is unused afterwards and no other address changes its owner |
| Allocator.ReleaseKeepsOthers | Project7/allocator.c:117-150 | the regions of other names stay as they are and in order |
| Allocator.ZeroFailsIff | Project7/allocator.c:56-98 | a request for zero bytes is refused iff its strategy is unknown or no region is unused |
| Allocator.ExecuteKeepsInvIff | Project7/allocator.c:176-188 | a command keeps the invariant (tiling of [0, memorySize - 1], coalesced, page-aligned) iff it is not a request for zero bytes that finds an unused region |
| Allocator.CommandEffect | Project7/allocator.c:176-188 | on the addresses: a release frees exactly those of its name; a request gives its name a run of so many unused ones if there is one, and changes nothing else |
| Allocator.RunKeepsInv | Project7/allocator.c:169-188 | every sequence of such commands keeps it |
| Allocator.ReachableMemory | Project7/allocator.c:161-188 | in every state reached by such commands the invariant holds and a request is refused iff no run of that many addresses is unused |
| Allocator.ZeroRequestLosesMemory | Project7/allocator.c:56-150 | after a request for zero bytes all the memory can be unused and a request for it refused |
| Allocator.PassUnchanged | Project7/allocator.c:117-147 | the pass leaves regions alone that neither bear the name nor need merging |
| Allocator.PassHalves | Project7/allocator.c:108-133 | the pass puts a split hole back together |
| Allocator.RequestThenRelease | Project7/allocator.c:56-150 | a request under a fresh name followed by its release restores the very same regions, for every strategy and whether or not the hole was split |
| AllocatorProgram.Region.constructor | Project7/allocator.c:28-41 | the new node links itself between its neighbours and changes nothing else of them |
| AllocatorProgram.Memory.constructor | Project7/allocator.c:161-166 | the initial list is one unused region |
| AllocatorProgram.Memory.FirstFit | Project7/allocator.c:59-66 | walking the pointers finds the node of the region chosen by F |
| AllocatorProgram.Memory.BestOrWorstFit | Project7/allocator.c:68-92 | walking the pointers finds the node of the region chosen by B (leftmost largest) or W (leftmost smallest), as DestByLetter states |
| AllocatorProgram.Memory.Choose | Project7/allocator.c:58-92 | any other strategy letter chooses nothing |
| AllocatorProgram.Memory.RequestMemory | Project7/allocator.c:56-115 | pre and next stay mutually inverse along the list; the region taken is the one its letter asks for (first, leftmost largest, leftmost smallest), named and split in place; refused iff the letter is unknown or nothing fits |
| AllocatorProgram.Memory.Allocate | Project7/allocator.c:104-112 | the chosen region is named and split in place |
| AllocatorProgram.Memory.Name | Project7/allocator.c:105-106 | only the name of that region changes |
| AllocatorProgram.Memory.Split | Project7/allocator.c:108-112 | the new unused region is linked in after the chosen one, and both have the right bounds |
| AllocatorProgram.Memory.ClearName | Project7/allocator.c:121-125 | only the name of the region changes, and only if it is the released one |
| AllocatorProgram.Memory.MergeUnused | Project7/allocator.c:126-133 | the region joins the part already passed as the pass does |
| AllocatorProgram.Memory.ReleaseStep | Project7/allocator.c:121-146 | one turn clears and merges as the pass does, and continues after the merged region |
| AllocatorProgram.Memory.MergeBackward | Project7/allocator.c:126-144 | the predecessor leaves the list, its space joins the current region, and the head follows |
| AllocatorProgram.Memory.ReleaseMemory | Project7/allocator.c:117-150 | the linked list ends well linked with the regions of Release; the flag is true iff some region bore the name |
| Pager.LowBits | Project8/vm_manager.c:47-48 | page number and offset together are the logical address mod 65536 |
| Pager.LatestFault | Project8/vm_manager.c:98-102 | the most recent fault on a page |
| Pager.PhysicalIs | Project8/vm_manager.c:57-63 | the physical address lies in frame k mod F, where k is the number of the latest fault on the page, at the offset |
| Pager.TouchLoads | Project8/vm_manager.c:54-57 | after a reference its page is in memory |
| Pager.TouchKeepsSpaced | Project8/vm_manager.c:80-102 | a reference keeps any F + 1 consecutive faults distinct |
| Pager.FaultsSpaced | Project8/vm_manager.c:80-102 | so that holds for every reference string and every F |
| Pager.FaultedIsTouched | Project8/vm_manager.c:54-56 | the pages that fault are exactly the pages touched |
| Pager.EnoughFrames | Project8/vm_manager.c:81-82 | with at least as many frames as distinct pages, each faults exactly once |
| Pager.ShippedFaultCount | Project8/vm_manager.c:10 | with the shipped 256 frames the fault count is the number of distinct pages touched |
| Pager.NextReference | Project8/vm_manager.c:134-138 | one more reference touches its page in the faults and looks it up in the TLB |
| Pager.MissesCoverFaults | Project8/vm_manager.c:51-60 | for every reference string: each page the TLB can hold is in memory, and there are at least as many misses as faults |
| PagerLaws.FaultIff | Project8/vm_manager.c:54-102 | for every reference string and every F: a reference does not fault iff some earlier reference faulted on its page and at most F faults have happened since and including that one |
| PagerLaws.HitIff | Project8/vm_manager.c:51-110 | a reference hits the TLB iff some earlier reference missed on its page, is among the last 16 misses, and nothing has faulted since |
| PagerLaws.CountsAre | Project8/vm_manager.c:50-56 | fault and miss count are the numbers of references that fault and that miss |
| PagerLaws.AgainHits | Project8/vm_manager.c:50-60 | a page referenced twice in a row neither misses nor faults the second time |
| VmManager.Machine.constructor | Project8/vm_manager.c:129-131 | the zeroed tables and counters have the invariant with no fault so far |
| VmManager.Machine.CheckTLB | Project8/vm_manager.c:67-77 | a hit iff a valid entry has the page, and then the frame is the page table's |
| VmManager.Machine.HitIff | Project8/vm_manager.c:67-77 | a page hits iff it is one of the last 16 missed since, and including, the latest fault |
| VmManager.Machine.UpdateTLB | Project8/vm_manager.c:105-110 | the TLB still agrees with the page table and again holds exactly the last 16 missed pages; only the next slot changes |
| VmManager.Machine.FlushTLB | Project8/vm_manager.c:93-94 | after the flush nothing hits |
| VmManager.Machine.GetFrame | Project8/vm_manager.c:98-102 | frames are handed out round robin |
| VmManager.Machine.ReadPage | Project8/vm_manager.c:83-84 | the frame becomes a copy of the backing page and no other frame changes |
| VmManager.Machine.Evict | Project8/vm_manager.c:85-90 | takes the page that has the frame out of the page table if there is one, and changes nothing else |
| VmManager.Machine.FrameOf | Project8/vm_manager.c:98-102 | of the last F faults only the oldest can have the frame that comes next |
| VmManager.Machine.EvictsOldest | Project8/vm_manager.c:82-90 | the page that the loop evicts is that of the oldest fault in memory, and there is one iff F faults have happened |
| VmManager.Machine.LoadPage | Project8/vm_manager.c:80-92 | after a fault the joint invariant holds again: valid pages are those of the last min(F, faults) faults, each in the frame of its fault, which equals its backing page; of the other entries only that of the evicted page changes |
| VmManager.Machine.PageFault | Project8/vm_manager.c:80-95 | the page gets the next frame, its former page loses it, the other entries stay, the TLB is zeroed, and the invariant of all tables is kept |
| VmManager.Machine.EnsureLoaded | Project8/vm_manager.c:54-56 | the machine faults exactly when the pager without TLB does |
| VmManager.Machine.Miss | Project8/vm_manager.c:51-60 | a miss ends with the page in TLB and page table under the same frame |
| VmManager.Machine.FindFrame | Project8/vm_manager.c:50-60 | the frame is the page table's; the miss count grows by 1 iff no valid TLB entry had the page and the fault count by 1 iff its page table entry was not valid; a hit leaves the TLB as it was |
| VmManager.Machine.TranslateAddress | Project8/vm_manager.c:45-64 | the physical address is that of the pager without TLB, and the byte there is the backing store's byte at the address mod 65536; misses and faults are counted as for FindFrame |
| VmManager.Machine.AddressFacts | Project8/vm_manager.c:57-63 | the same from the joint invariant alone |
| VmManager.Machine.ValidPagesAreWindow | Project8/vm_manager.c:85-92 | the valid pages are exactly those of the last min(F, faults) faults |
| VmManager.Machine.AccessMemory | Project8/vm_manager.c:113-115 | reads the byte at the physical address |
| VmManager.Machine.Reference | Project8/vm_manager.c:134-138 | one more reference continues the run of the pager without TLB and of the TLB model |
| VmManager.Machine.Serve | Project8/vm_manager.c:134-138 | one turn of main's loop answers its reference and keeps faults and misses as specified |
| VmManager.Machine.Run | Project8/vm_manager.c:134-141 | over a whole reference string, for every F in 1..256: every physical address and the fault count are those of the pager without TLB, every value is byte a mod 65536 of the backing store, and the miss count, which gives the hit rate, is the number of references that miss by HitIff |
| SemaphoreQueue.InitInv | Project5/producerConsumer/buffer.c:33-37 | the initial semaphores, indices and program counters have the invariant |
| SemaphoreQueue.NeverFullNorEmpty | Project5/producerConsumer/buffer.c:87-91 | the ring is not full where a producer tests it and not empty where a consumer does |
| SemaphoreQueue.NextKeepsLock | Project5/producerConsumer/buffer.c:81-122 | mutual exclusion: exactly the thread in a critical section holds the mutex; neither error branch is entered |
| SemaphoreQueue.NextKeepsCount | Project5/producerConsumer/buffer.c:81-122 | the linking invariant of both semaphores, the thread positions, front and rear is kept by every step |
| SemaphoreQueue.SlotsDiffer | Project5/producerConsumer/buffer.c:92-94 | writing an item does not overwrite one that is still queued |
| SemaphoreQueue.NextKeepsData | Project5/producerConsumer/buffer.c:92-116 | the queued items stay in their slots, and the removed ones are a prefix of the inserted ones |
| SemaphoreQueue.ReadsOldest | Project5/producerConsumer/buffer.c:114-116 | what a consumer reads is the oldest item not yet removed |
| SemaphoreQueue.NextIsItemStep | Project5/producerConsumer/buffer.c:102-122 | what a step does to the items between ring and use |
| SemaphoreQueue.ItemStepKeepsItems | Project5/producerConsumer/buffer.c:102-122 | each removed item is held by exactly one consumer or used |
| SemaphoreQueue.NextKeepsInv | Project5/producerConsumer/buffer.c:81-122 | every step of every thread keeps the whole invariant |
| SemaphoreQueue.RunKeepsInv | Project5/producerConsumer/buffer.c:81-122 | so does every interleaving |
| SemaphoreQueue.NextRefinesQueue | Project5/producerConsumer/buffer.c:81-122 | each step is a put at the back of a FIFO queue that is not full, a get from its front, or invisible |
| SemaphoreQueue.EveryStepRefinesQueue | Project5/producerConsumer/buffer.c:81-122 | so is each step from every state of every interleaving |
| SemaphoreQueue.TakesOldest | Project5/threadPool/threadpool.c:56-63 | where dequeue or remove_item takes an item, with or without a test, the queue is not empty and the slot holds its oldest item |
| Deliveries.EveryInterleaving | Project5/producerConsumer/buffer.c:81-122 | for any number of threads and any interleaving: the items inserted are those the producers were given but for those still carried, each producer's in order; removed is a prefix of inserted, at most capacity items are queued, both error returns are unreachable and nobody takes from an empty ring |
| Deliveries.OwnDelivery | Project5/producerConsumer/buffer.c:81-100 | each step of a producer inserts just the item it was given, or goes on carrying it |
| Deliveries.RunFlows | Project5/producerConsumer/buffer.c:81-100 | conservation over every interleaving: inserted plus carried at the end is carried at the start plus offered |
| Deliveries.RunFlowsOf | Project5/producerConsumer/buffer.c:81-100 | the same for each thread, in the order of its calls |
| Deliveries.EveryItemIsAccounted | Project5/producerConsumer/buffer.c:40-122 | so the items offered are those inserted and carried, however the run goes on without a new call |
| Deliveries.RestedHasConsumed | Project5/producerConsumer/buffer.c:40-122 | whenever all threads rest, the consumers have used exactly the items that the producers were given, each once |
| SemaphoreQueue.BlockedIff | Project5/producerConsumer/buffer.c:82-106 | a thread waits only for a semaphore that is zero or for the mutex while it is held |
| SemaphoreQueue.CallsWaitIff | Project5/producerConsumer/buffer.c:82-103 | with nobody inside a call, a producer waits iff capacity items are queued, and a consumer iff none is |
| SemaphoreQueue.SomeoneCanMove | Project5/producerConsumer/buffer.c:81-122 | with a producer, a consumer and a slot, some thread is not blocked |
| SemaphoreQueue.NeverDeadlocked | Project5/producerConsumer/buffer.c:47-122 | so no reachable state has every thread blocked |
| SemaphoreQueue.StepWorks | Project5/producerConsumer/buffer.c:81-122 | every step but the start of an insertion lowers the number of steps left |
| SemaphoreQueue.SomeoneCanWork | Project5/producerConsumer/buffer.c:81-122 | with a consumer, somebody can take such a step until every item is used and every token is back |
| SemaphoreQueue.Drain | Project5/producerConsumer/buffer.c:81-122 | so the threads can always come to rest, without a new call |
| Deliveries.NothingIsLost | Project5/producerConsumer/buffer.c:47-122 | from every reachable state with a consumer some continuation without a new call consumes exactly the items given so far and brings both semaphores back to their initial values |
| SemaphoreQueue.ExactlyOnePlace | Project5/threadPool/threadpool.c:42-101 | in every interleaving each enqueued task is in exactly one place: queued, with one worker, or executed |
| RingProgram.Ring.constructor | Project5/producerConsumer/buffer.c:17-18 | the empty ring |
| RingProgram.Ring.Insert | Project5/producerConsumer/buffer.c:85-96 | between lock and unlock: refused iff the ring is full, else rear moves one slot and the item is written there; just what the steps of the interleaved system do |
| RingProgram.Ring.Remove | Project5/producerConsumer/buffer.c:105-118 | refused iff the ring is empty, else front moves one slot and its item is returned; just what the steps do |
| RingProgram.Ring.Dequeue | Project5/threadPool/threadpool.c:56-63 | the same without the test |
| BoundedBuffer.BufferIsCorrect | Project5/producerConsumer/buffer.c:10-122 | with the shipped sizes and any numbers of producers and consumers: a FIFO queue of 10 items, error returns unreachable, never deadlocked, every item produced is in it once and in order, and exactly those can still be consumed and have been when all rest |
| ThreadPool.PoolIsCorrect | Project5/threadPool/threadpool.c:13-115 | before shutdown pool_submit never answers ERROR, dequeue always finds the oldest task, every enqueued task is in exactly one place, exactly the tasks submitted can still be executed and have been when all rest, and with a submitter the threads never all block |
| Selection.MinIndex | Project4/posix/schedule_sjf.c:31-40 | the scan finds the first of the least keys |
| Selection.SelectPermutes | Project4/posix/schedule_sjf.c:46-57 | repeated selection and deletion loses and invents no task |
| Selection.SelectAscends | Project4/posix/schedule_sjf.c:46-57 | it takes the bursts in ascending order |
| Selection.SelectOrders | Project4/posix/schedule_priority_rr.c:34-52 | on a newest-first list it takes keys in ascending order, the newer first among equals |
| Selection.PriorityOrder | Project4/posix/schedule_priority_rr.c:34-52 | moving each selected task to the front of the new list is a stable sort: descending priority, ties in the order of adding |
| Sjf.TotalIsSumOfEnds | Project4/posix/schedule_sjf.c:58-66 | the total is the sum of the completion times, each the sum of the bursts up to it |
| Sjf.MoveLeastToFront | Project4/posix/schedule_sjf.c:31-57 | running a shortest task first never makes the total larger |
| Sjf.AscendingIsBest | Project4/posix/schedule_sjf.c:31-57 | among all permutations the ascending order has the least total |
| Sjf.SjfIsOptimal | Project4/posix/schedule_sjf.c:31-57 | no order of the same tasks has a smaller total turnaround than the order the program runs, whatever the ties |
| Sjf.WaitsAreTotalLessBursts | Project4/posix/schedule_sjf.c:58-68 | the total wait is the total turnaround less the sum of the bursts |
| Sjf.SjfWaitsLeast | Project4/posix/schedule_sjf.c:31-57 | no order of the same tasks has a smaller total wait than the order the program runs |
| Sjf.GatherSelect | Project4/posix/schedule_sjf.c:62-65 | summing an array over the tasks in run order or list order is the same |
| Sjf.ArraySum | Project4/posix/schedule_sjf.c:58-66 | the sum of the turnaround array is the total of the order in which the tasks ran |
| Sjf.ResponseSum | Project4/posix/schedule_sjf.c:62-68 | the sum of the response array, which gives the average wait too, is the total wait of the order in which the tasks ran |
| SjfProgram.Scheduler.constructor | Project4/posix/schedule_sjf.c:10-16 | a fresh empty list at time 0 |
| SjfProgram.Scheduler.Add | Project4/posix/schedule_sjf.c:18-28 | the new task is numbered next and first in the list |
| SjfProgram.Scheduler.TaskToRun | Project4/posix/schedule_sjf.c:31-40 | walking the list finds the first shortest task |
| SjfProgram.Scheduler.RunTask | Project4/posix/schedule_sjf.c:48-52 | response and turnaround of the task are its start and end, and nobody else's change |
| SjfProgram.Scheduler.Finish | Project4/posix/schedule_sjf.c:54-56 | the task leaves the list, by name |
| SjfProgram.Scheduler.Turn | Project4/posix/schedule_sjf.c:46-57 | one turn runs the task that selection takes next |
| SjfProgram.Scheduler.RunAll | Project4/posix/schedule_sjf.c:46-57 | the loop runs all tasks in selection order |
| SjfProgram.Scheduler.Schedule | Project4/posix/schedule_sjf.c:42-66 | the tasks run as a permutation with ascending bursts, the newer first among equals; the arrays hold their start and end times; and the sums of the turnaround and response arrays are at most the total turnaround and wait of any other order of the same tasks |
| SjfProgram.Scheduler.StartsAndEnds | Project4/posix/schedule_sjf.c:48-52 | each task starts when those before it have run, and ends when it has run too |
| SjfProgram.Scheduler.AverageTurnaround | Project4/posix/schedule_sjf.c:58-66 | the sum of the turnaround array is the total of that order |
| SjfProgram.Scheduler.AverageWait | Project4/posix/schedule_sjf.c:62-68 | the sum of the response array is the total wait of that order |
| TaskList.List.constructor | Project4/posix/schedule_rr.c:10-11 | the empty list |
| TaskList.List.Insert | Project4/posix/list.c:14-21 | one new node at the front |
| TaskList.List.Delete | Project4/posix/list.c:24-44 | exactly the first node with the name leaves the chain, at the head, inside or at the end |
| TaskList.List.FindAndUnlink | Project4/posix/list.c:28-43 | the chain from head to null is the old one without that node |
| TaskList.List.Walk | Project4/posix/list.c:34-40 | stops at the first node with the name, with its predecessor |
| TaskList.List.Unlink | Project4/posix/list.c:42 | relinking around a node removes just that node from the chain |
| TaskList.List.DeleteTask | Project4/posix/list.c:24-44 | with distinct names the task asked for is the task deleted |
| RoundRobin.RoundsIff | Project4/posix/schedule_rr.c:65-83 | a task needs at most k turns iff its burst is at most k quanta |
| RoundRobin.RoundsIsCeiling | Project4/posix/schedule_rr.c:65-83 | the number of turns is the burst divided by the quantum, rounded up |
| RoundRobin.ClockNext | Project4/posix/schedule_rr.c:74 | the clock of the next position in the round |
| RoundRobin.ClockWraps | Project4/posix/schedule_rr.c:74 | the end of a round is the start of the next |
| RoundRobin.TurnEntry | Project4/posix/schedule_rr.c:70-77 | a turn leaves the task's response, wait, lastFinish and burst at the values of its number of turns |
| RoundRobin.TurnQueue | Project4/posix/schedule_rr.c:65-83 | the queue from the cursor on is the unfinished rest of this round and then the next round |
| RoundRobin.Turn | Project4/posix/schedule_rr.c:65-83 | a turn of the loop is the turn of the next position of the round |
| RoundRobin.Skip | Project4/posix/schedule_rr.c:78-79 | finished positions are passed over without a turn |
| RoundRobin.NextRound | Project4/posix/schedule_rr.c:41-45 | after the last position the next round begins |
| RoundRobin.NextTurn | Project4/posix/schedule_rr.c:65-83 | while a task is unfinished, the next turn is that of some position in some round |
| RoundRobin.EmptyIsFinished | Project4/posix/schedule_rr.c:65-83 | an empty queue means that every array has its closed form |
| RoundRobin.TurnDecreases | Project4/posix/schedule_rr.c:65-83 | each turn advances the clock towards the sum of the bursts or shortens the queue |
| RoundRobin.ClosedForm | Project4/posix/schedule_rr.c:65-83 | the loop ends, at the sum of all bursts, with lastFinish = sum over j <= i of min(b_j, kQ) + sum over j > i of min(b_j, (k-1)Q), response = sum over j < i of min(b_j, Q), wait = lastFinish - b_i |
| RoundRobin.QueueIsUnfinished | Project4/posix/schedule_rr.c:65-83 | the list holds exactly the tasks that have not had all their turns |
| RoundRobin.FairTurns | Project4/posix/schedule_rr.c:65-83 | at any position of any round, unfinished tasks have had whole quanta, and at most one turn more than any other |
| RoundRobin.WaitsForThoseAhead | Project4/posix/schedule_rr.c:41-83 | the task x places from the cursor runs after x turns and at most x quanta |
| RoundRobin.RunsAgainWithin | Project4/posix/schedule_rr.c:41-83 | between two consecutive runs of a task lie at most (m-1) quanta, m being the number of live tasks |
| RoundRobin.TurnsKeepPlaced | Project4/posix/schedule_rr.c:41-83 | every number of turns ends at a position of a round, with no task in the queue twice |
| RoundRobin.AlwaysFair | Project4/posix/schedule_rr.c:41-83 | in every reachable state the turns taken by any two unfinished tasks differ by at most one |
| RoundRobin.AlwaysRunsAgain | Project4/posix/schedule_rr.c:41-83 | in every reachable state a task that does not finish in its turn runs again after at most (m-1) quanta in which it has not run |
| RoundRobinProgram.CursorMoves | Project4/posix/schedule_rr.c:41-45 | moving the cursor, with wrap-around, puts the task at the end of the queue |
| RoundRobinProgram.CursorSurvives | Project4/posix/schedule_rr.c:78-82 | deleting the task that ran, be it head, inside or tail, leaves the cursor on the next live task |
| RoundRobinProgram.DropFacts | Project4/posix/schedule_rr.c:78-82 | deletion turns the queue into its rest |
| RoundRobinProgram.PriorityList | Project4/posix/schedule_priority_rr.c:47-52 | the new list is a permutation of the old by descending priority, ties in the order of adding, with distinct names |
| RoundRobinProgram.Scheduler.constructor | Project4/posix/schedule_rr.c:10-19 | two empty lists at time 0 |
| RoundRobinProgram.Scheduler.Add | Project4/posix/schedule_rr.c:21-31 | the new task is numbered next and first in the list |
| RoundRobinProgram.Scheduler.MoveTask | Project4/posix/schedule_rr.c:33-52 | the task leaves one list and heads the other |
| RoundRobinProgram.Scheduler.Rearrange | Project4/posix/schedule_rr.c:47-52 | the new list is the old one reversed |
| RoundRobinProgram.Scheduler.LowestPriorTask | Project4/posix/schedule_priority_rr.c:34-41 | walking the list finds the first task of lowest priority |
| RoundRobinProgram.Scheduler.MoveLowest | Project4/posix/schedule_priority_rr.c:47-52 | one turn of the rearrangement |
| RoundRobinProgram.Scheduler.MoveAll | Project4/posix/schedule_priority_rr.c:47-52 | the loop moves every task, in selection order |
| RoundRobinProgram.Scheduler.RearrangeByPriority | Project4/posix/schedule_priority_rr.c:47-52 | the new list is the old one in the reverse of the selection order |
| RoundRobinProgram.Scheduler.TaskToRun | Project4/posix/schedule_rr.c:41-45 | the cursor's task is the front of the queue and goes to its end; the cursor stays in the live list |
| RoundRobinProgram.Scheduler.RunSlice | Project4/posix/schedule_rr.c:67-77 | arrays, clock and burst change as in a step of the queue |
| RoundRobinProgram.Scheduler.DropTask | Project4/posix/schedule_rr.c:78-82 | the finished task leaves list and queue, and the cursor stays valid |
| RoundRobinProgram.Scheduler.Turn | Project4/posix/schedule_rr.c:65-83 | one turn on list, cursor and arrays is one step of the queue |
| RoundRobinProgram.Scheduler.PlacedTurn | Project4/posix/schedule_rr.c:65-83 | and it has a place in the rounds |
| RoundRobinProgram.Scheduler.RunAll | Project4/posix/schedule_rr.c:65-83 | the loop terminates with the closed form |
| RoundRobinProgram.Scheduler.Prepare | Project4/posix/schedule_rr.c:55-63 | arrays zeroed and the cursor at the head: the start of round 0 |
| RoundRobinProgram.Scheduler.RunFromStart | Project4/posix/schedule_rr.c:55-83 | from a rearranged list to the closed form, in list order |
| RoundRobinProgram.Scheduler.FinishedHasEnded | Project4/posix/schedule_rr.c:65-83 | at the end the response, lastFinish and wait arrays hold the closed form for each task, no burst is left, and the clock is the sum of the bursts |
| RoundRobinProgram.Scheduler.Schedule | Project4/posix/schedule_rr.c:54-83 | tasks take turns in the order of adding, and lastFinish, wait and response end with the closed form at the sum of all bursts |
| RoundRobinProgram.Scheduler.ScheduleByPriority | Project4/posix/schedule_priority_rr.c:61-90 | the same in the order of descending priority, ties in the order of adding |
| Quicksort.SwapsMultiset | Project3/fork-join/Quicksort/Quicksort.java:31-40 | exchanges permute |
| Quicksort.SwapsStayWithin | Project3/fork-join/Quicksort/Quicksort.java:43-44 | a task's exchanges leave everything outside its range alone, and the bounds of its range |
| Quicksort.JoinSorted | Project3/fork-join/Quicksort/Quicksort.java:49-52 | two sorted sides of a pivot make a sorted range |
| Quicksort.SortedUnique | Project3/fork-join/Quicksort/Quicksort.java:17-53 | there is only one sorted permutation |
| Quicksort.Narrow | Project3/fork-join/Quicksort/Quicksort.java:26-33 | one turn of the outer loop keeps array[right] >= pivot and the two sides, and the indices come closer |
| Quicksort.Scan | Project3/fork-join/Quicksort/Quicksort.java:25-34 | the loops end with left = right, smaller elements on the left and the others on the right |
| Quicksort.Partition | Project3/fork-join/Quicksort/Quicksort.java:21-41 | a permutation of the range with the pivot in its final place |
| Quicksort.PlacePivot | Project3/fork-join/Quicksort/Quicksort.java:36-41 | the final exchange always happens: else left++ is unreachable |
| Quicksort.Exchange | Project3/fork-join/Quicksort/Quicksort.java:31-33 | exchanges two elements and nothing else |
| Quicksort.Compute | Project3/fork-join/Quicksort/Quicksort.java:17-53 | the range is sorted by exchanges inside the range only |
| Quicksort.PartsSorted | Project3/fork-join/Quicksort/Quicksort.java:43-50 | neither forked task disturbs what the other sorts |
| Quicksort.Sort | Project3/fork-join/Quicksort/Quicksort.java:56-61 | every array ends as the sorted permutation of itself |
| ForkJoin.StepIsLocal | Project3/fork-join/Quicksort/Quicksort.java:17-53 | a step of any task changes nothing or exchanges two elements of its own range |
| ForkJoin.OthersDoNotMatter | Project3/fork-join/Quicksort/Quicksort.java:43-50 | a task's progress survives any change outside its range |
| ForkJoin.ScanStepKeepsInv | Project3/fork-join/Quicksort/Quicksort.java:25-34 | each test, move and exchange keeps the partition invariant |
| ForkJoin.PlaceStepKeepsInv | Project3/fork-join/Quicksort/Quicksort.java:36-41 | at the final exchange array[left] >= array[end], in every interleaving |
| ForkJoin.StepKeepsInv | Project3/fork-join/Quicksort/Quicksort.java:17-53 | every step of every task keeps the invariant of the whole tree |
| ForkJoin.RunKeepsInv | Project3/fork-join/Quicksort/Quicksort.java:17-53 | so does every interleaving, which also only permutes |
| ForkJoin.EveryInterleavingSorts | Project3/fork-join/Quicksort/Quicksort.java:17-53 | in every interleaving the array stays a permutation of the input, and is sorted once the root task is done |
| ForkJoin.InterleavingDoesNotMatter | Project3/fork-join/Quicksort/Quicksort.java:46-50 | any two interleavings that finish leave the same array |
| ForkJoin.SomeTaskCanMove | Project3/fork-join/Quicksort/Quicksort.java:46-50 | a root task that is not done is never stuck |
| ForkJoin.StepLowers | Project3/fork-join/Quicksort/Quicksort.java:17-53 | every step that changes anything lowers the number of steps left |
| ForkJoin.EveryInterleavingEnds | Project3/fork-join/Quicksort/Quicksort.java:17-53 | an interleaving makes at most Bound(n) moves, and from wherever it has got to the sort can finish |

## Left out

- Input, output, command loops, argument parsing and the printing of averages: the averages appear as the integer sums they are computed from.
- malloc failure, `free` and C strings: names are immutable strings, and a freed node just leaves the ghost list.
- C integer widths: numbers are unbounded, except for the conversion of a request size to `size_t`.
- Banker.StepKeepsInv: only for admissible calls; RequestKeepsInvIff and ReleaseKeepsInvIff treat every vector.
- Banker.RunKeepsInv: runs of admissible calls, because others can leave something negative.
- Banker.RunKeepsSafe: runs of admissible calls, because others can lose safety (ReleaseKeepsSafeIff).
- Banker.ReleaseKeepsSafe: excludes the releases for which ReleaseKeepsSafeIff shows the statement false.
- Banker.GrantNeedsSafe: excludes the requests for which GrantNeedsSafeIff shows the statement false.
- Banker.UnsafeStartFreezes: without negative entries, because a release with some can take resources; UnsafeStartStaysUnsafe has them.
- Banker.UnsafeStartStaysUnsafe: runs of admissible calls, because others can be granted (UnsafeStartGrants).
- Banker.ReachableSafeIffInitialSafe: runs of admissible calls, for the same reasons.
- Banker.CompletingRunExists: runs of admissible calls, for the same reasons.
- BankerProgram.Bank.RequestResources: customer numbers below 0, which index the arrays out of bounds, are not modelled.
- Allocator.RunKeepsInv: requests for zero bytes that find an unused region are excluded, because ExecuteKeepsInvIff shows that exactly these break the invariant.
- Allocator.ReachableMemory: excludes the same requests, after which ZeroRequestLosesMemory shows the statement false.
- The dead forward merge and the dead size test of the allocator (`Project7/allocator.c:100-103` and `134-141`).
- VmManager.Machine.ReadPage: the backing store is an immutable sequence of 65536 bytes, and a read always gets the whole page.
- SemaphoreQueue.RunKeepsInv: semaphore, mutex and array accesses are atomic steps, `sleep` and `rand` are the scheduler's choices, and the model ends before `destroy_buffer`, `pool_shutdown` and cancellation.
- Deliveries.EveryInterleaving: an item counts as given once `sem_wait(&empty)` lets its call through; a call that still waits there has not touched the shared state.
- Deliveries.NothingIsLost: says that some continuation uses every item, not that every one does, which depends on the fairness of the primitives.
- RoundRobinProgram.Scheduler.Schedule: names are distinct, bursts not negative and the quantum positive; both round-robin programs share one class, because the source has the same loop twice.
- TaskList.List.Delete: the name must be in the list, since the source walks off its end otherwise.
- Quicksort.Compute: a forked task runs when it is joined; ForkJoin has the interleavings, with each exchange as one step.
- `Project1`, `Project2`, the merge sort, `sort.c`, `sudoku.c`, `schedule_fcfs.c`, `schedule_priority.c` and `CPU.c`: simpler than what is here, or calls into the system only.
