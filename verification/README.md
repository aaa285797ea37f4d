# Verified models of the data-structure, allocator and protocol exercises

A Dafny model of the parts of the repository that carry hard invariants, with proofs of what
they promise. `dafny verify dfyconfig.toml` checks all of it.

* **Bounded MPMC queue** (`MpmcQueue.dfy`, `MpmcDelivery.dfy`, `MpmcOneCell.dfy`). A transition system over any number of
  threads: one program counter per thread, one step per atomic load, compare-and-swap, store or
  data access, all schedules. It is proved to be a bounded FIFO from two cells on, and not with one.
* **Calculator** (`CalcGrammar.dfy`, `CalcMachine.dfy`, `CalcSoundness.dfy`, `CalcErrors.dfy`, `Calculator.dfy`).
  The shift-reduce machine as a function on values, proved equivalent to the grammar and to
  post-order evaluation, and the imperative program with its two array stacks proved equal to it.
  Operators are uninterpreted functions that may report a math error.
* **AVL insertion and search** (`AvlTree.dfy` on values, `AvlNode.dfy` on linked nodes).
* **Variable-size allocator** (`VsaBlocks.dfy` on block lists, `Vsa.dfy` on the arena). Line 170 of
  `vsa.c` advances by the block size without the header, unlike `GetNextBlock` and against
  `vsa.h:37`. These two files advance with the header; `VsaAsWritten.dfy` keeps the line as it is
  and proves exactly for which requests the search, and the allocation, is then still right, and what
  goes wrong otherwise.
* **DHCP address trie** (`DhcpTrie.dfy` and `DhcpServer.dfy` on values, `Dhcp.dfy` on linked nodes
  and 32-bit registers). Two deviations from the documentation are kept as the code has them: with
  one host bit the initial flags are wrong, and freeing an address whose last node is missing
  follows a null pointer where DOUBLE_FREE is promised.
* **Semaphore ring buffer** (`SemaphoreRing.dfy`) and **broadcast rounds** (`Broadcast.dfy`), again
  over all schedules, with any number of threads, any capacity and any number of rounds, including
  what it takes to terminate.
* **Radix sort** (`RadixSort.dfy` over `CountingOrder.dfy` and `StableChain.dfy`). `GetKey` divides an
  int by a `size_t`, so the keys of negative numbers are not their digits. The result is proved sorted
  for non-negative input and for numbers of one digit and, for all ints, sorted exactly if the keys,
  read as one number, agree with the values. `CountingSort` is proved for either sign, exactly as far
  as its int arithmetic does not overflow.
* **Josephus** (`Josephus.dfy`). The header admits every n > 0; for n = 1 the filling loop writes
  outside the array, so the method has no answer there.
* **Knight's tour by backtracking** (`KnightTour.dfy`), **fixed-size allocator** (`Fsa.dfy`),
  **scheduler on a sorted-list priority queue** (`Scheduler.dfy`), **prisoners and lamp**
  (`Prisoners.dfy`).

Code that changes things in place is modelled as methods on objects and arrays, each proved
against a function or a machine on values; what the source promises is proved about the latter.
`Remainders.dfy` and `Rings.dfy` hold the arithmetic of remainders and ring positions, and
`Shared.dfy` what several models use.

## Model

| member | source | states |
|---|---|---|
| `MpmcDelivery.DeliveredOnceInTicketOrder` | prepare_for_interview/circle_q/mpmc_q.hpp:21-81 | in every interleaving of any threads on two or more cells, a dequeue that claimed ticket p returns the item of the enqueue that claimed ticket p, no ticket is delivered twice, and dequeue_pos <= enqueue_pos <= dequeue_pos + Capacity |
| `MpmcDelivery.RefinesBoundedFifo` | prepare_for_interview/circle_q/mpmc_q.hpp:27-81 | every step of any thread is an append, a removal of the oldest item, or nothing, on one FIFO of at most Capacity items; only the two successful CAS change it |
| `MpmcDelivery.OwnersHaveDistinctCells` | prepare_for_interview/circle_q/mpmc_q.hpp:27-81 | in every reachable state two threads between claim and publish never own the same cell |
| `MpmcDelivery.FalseReturnMeans` | prepare_for_interview/circle_q/mpmc_q.hpp:30-66 | `false` is returned exactly when, at the read of the sequence number, the previous use of that cell was not released (enqueue) or ticket pos was not published (dequeue) |
| `MpmcQueue.EnqueueReadMeans` | prepare_for_interview/circle_q/mpmc_q.hpp:33-38 | which of the three branches of enqueue a sequence number selects, in terms of the life of tickets |
| `MpmcQueue.DequeueReadMeans` | prepare_for_interview/circle_q/mpmc_q.hpp:61-66 | the same for dequeue |
| `MpmcQueue.StepKeeps` | prepare_for_interview/circle_q/mpmc_q.hpp:27-81 | each atomic load, CAS, store and data access keeps the invariant that ties every sequence number to the stage of one ticket |
| `MpmcOneCell.BoundedExactlyFromTwoCells` | prepare_for_interview/circle_q/mpmc_q.hpp:21-53 | the bound enqueue_pos <= dequeue_pos + Capacity holds for all schedules if and only if there are at least two cells |
| `MpmcDelivery.NothingLost` | prepare_for_interview/circle_q/mpmc_q.hpp:21-81 | once all calls have returned, the tickets delivered are exactly those below dequeue_pos, each once and with its item, and all others lie published in their cells |
| `MpmcDelivery.EnqueueReturns` | prepare_for_interview/circle_q/mpmc_q.hpp:27-53 | from any reachable state an undisturbed enqueue returns: true, with its item published, exactly when the previous use of its cell was released, and otherwise false with nothing changed |
| `MpmcDelivery.DequeueReturns` | prepare_for_interview/circle_q/mpmc_q.hpp:55-81 | the same for dequeue: true, with the item of the oldest ticket, exactly when that ticket is published |
| `MpmcDelivery.EndsOnlySo` | prepare_for_interview/circle_q/mpmc_q.hpp:27-81 | whatever the others do and however often a compare-and-swap fails, a call ends only after its publication or release, or at a sequence number that shows the queue full or empty |
| `MpmcDelivery.ReturnsWithinSix` | prepare_for_interview/circle_q/mpmc_q.hpp:27-81 | from any reachable state, in the middle of any call, a thread left undisturbed returns within six steps |
| `MpmcDelivery.AttemptsAreFresh` | prepare_for_interview/circle_q/mpmc_q.hpp:29-76 | every attempt, a retry after a failed compare-and-swap included, begins at the position of that moment |
| `MpmcDelivery.TicketCarriesArgument` | prepare_for_interview/circle_q/mpmc_q.hpp:27-53 | in any run the item under a new ticket is the argument of the last call of the thread that claims it |
| `MpmcDelivery.WorksOnLastCall` | prepare_for_interview/circle_q/mpmc_q.hpp:27-81 | in any run a thread works on its last call, with the argument of that call, until it returns |
| `MpmcDelivery.StepAccounts` | prepare_for_interview/circle_q/mpmc_q.hpp:27-81 | every step keeps a ticket that is being written or read in some thread's hands and a released one among those delivered |
| `MpmcOneCell.DeliversRightExactlyFromTwoCells` | prepare_for_interview/circle_q/mpmc_q.hpp:21-81 | the items returned are those of their tickets in all schedules if and only if there are at least two cells |
| `MpmcOneCell.OverwrittenBeforeFetch` | prepare_for_interview/circle_q/mpmc_q.hpp:27-81 | the run that shows it for one cell: a dequeue that claimed the ticket of x returns y |
| `MpmcOneCell.EnqueueAlone` | prepare_for_interview/circle_q/mpmc_q.hpp:27-53 | with one cell, a published cell looks free to the next producer: an enqueue succeeds on a full queue and overwrites the item |
| `CalcMachine.CalculateRendering` | infinity/ds/utils/calc/calc.c:67-99 | on every correctly bracketed rendering of every expression, the machine returns what post-order evaluation returns: value, MATH_ERROR, or a failed stack-capacity assertion, whichever comes first |
| `CalcGrammar.GrammarAgrees` | infinity/ds/utils/calc/calc.c:112-156 | priorities and associativities say the same as the grammar of sums, products, powers and atoms, which names its operators; the results below are stated over that grammar |
| `CalcGrammar.EvaluateWithinStacks` | infinity/ds/utils/calc/calc.c:100-108 | as long as the expression fits the two stacks (100 and 1000 entries), post-order evaluation within them is the value of the abstract syntax tree |
| `CalcSoundness.CalculateSucceedsExactly` | infinity/ds/utils/calc/calc.c:67-300 | SUCCESS with value v exactly if the tokens are a rendering, within the stacks, of an expression of value v; SYNTAX_ERROR only if they are no rendering at all |
| `CalcErrors.MathErrorMeans` | infinity/ds/utils/calc/calc.c:67-300 | on any input, MATH_ERROR means that an expression written in the tokens read has operands with values on which its operator fails, and that some sentence begins with these tokens and the next one, or is the input |
| `CalcErrors.SyntaxErrorMeans` | infinity/ds/utils/calc/calc.c:67-300 | on any input, SYNTAX_ERROR means that no sentence begins with the tokens read and the offending one, or at the end that the input is no sentence |
| `CalcErrors.SyntaxErrorExactly` | infinity/ds/utils/calc/calc.c:67-300 | with operators that never fail and at most 100 tokens, SYNTAX_ERROR exactly for what is no expression, and otherwise SUCCESS |
| `CalcSoundness.StepRepresents` | infinity/ds/utils/calc/calc.c:159-281 | every step keeps: the stacks denote expressions whose renderings, joined by the pending operators and open brackets, are the tokens consumed, with priorities in order between brackets |
| `CalcSoundness.RunSound` | infinity/ds/utils/calc/calc.c:67-99 | from any represented state, success yields an expression that renders the whole input and has the returned value |
| `CalcMachine.ReadExpr` | infinity/ds/utils/calc/calc.c:159-300 | anywhere in an input, reading a rendering has the effect of pushing its value |
| `CalcMachine.ReduceNext` | infinity/ds/utils/calc/calc.c:206-281 | the operator on top is applied next, whether an operator of no higher priority, a closing bracket or the end follows |
| `CalcMachine.Step` | infinity/ds/utils/calc/calc.c:159-256 | no token makes a stack underflow: numbers equal pending operators (plus one in WAIT_FOR_OP), the bracket counter equals the open brackets, and each step makes progress |
| `Calculator.Calculate` | infinity/ds/utils/calc/calc.c:67-99 | the imperative loop over two array stacks returns what the machine on values returns, for every token sequence |
| `Calculator.Calc.constructor` | infinity/ds/utils/calc/calc.c:100-108 | the initial state, with # on the operator stack |
| `Calculator.Calc.WaitForNumber` | infinity/ds/utils/calc/calc.c:159-188 | exact new state and status for every token, and SYNTAX_ERROR at the end of input |
| `Calculator.Calc.WaitForOperator` | infinity/ds/utils/calc/calc.c:190-206 | the same for the state that waits for an operator, dispatching on the character read |
| `Calculator.Calc.CorrectOperator` | infinity/ds/utils/calc/calc.c:242-256 | shifts, or reduces once and steps back so that the operator is read again; ^ on ^ shifts |
| `Calculator.Calc.Parentheses` | infinity/ds/utils/calc/calc.c:208-234 | reduces to the nearest bracket and fails unless it has the same kind |
| `Calculator.Calc.ReduceLoop` | infinity/ds/utils/calc/calc.c:258-270 | the shared reducing loop: the whole state after it, and that a math error is never overwritten by SUCCESS |
| `Calculator.Calc.CalcOperation` | infinity/ds/utils/calc/calc.c:281-300 | pops two numbers and the operator and pushes the result, operands in the right order |
| `Calculator.ArrayStack.StackPush` | infinity/ds/stack/stack.c:48-54 | push on the array is push on the abstract stack, under the capacity assertion |
| `Calculator.ArrayStack.StackPop` | infinity/ds/stack/stack.c:41-46 | pop on the array is the abstract pop |
| `Calculator.ArrayStack.StackPeek` | infinity/ds/stack/stack.c:56-60 | peek is the abstract top |
| `AvlTree.Insert` | infinity/ds/avl/avl.c:396-430 | from any tree balanced in shape, whatever its fields hold, the result is balanced in shape, its height grows by at most one, and a root that grew carries its true balance factor |
| `AvlTree.FieldTrueUnlessRotated` | infinity/ds/avl/avl.c:404-504 | the root of the result carries its true balance factor if and only if no rotation happened there; otherwise the field holds the height |
| `AvlTree.RebalanceKeeps` | infinity/ds/avl/avl.c:432-487 | whenever a rebalancing branch consults the balance field of a child, that field is the true balance factor, although rotations write heights into it; the result is balanced |
| `AvlTree.HeavyLeft` | infinity/ds/avl/avl.c:440-453 | both left-heavy cases restore balance and the old height |
| `AvlTree.HeavyRight` | infinity/ds/avl/avl.c:455-468 | both right-heavy cases restore balance and the old height |
| `AvlTree.InsertInOrder` | infinity/ds/avl/avl.c:404-504 | the in-order sequence is the old one with the element inserted at one position; rotations change nothing in it |
| `AvlTree.PositionSorted` | infinity/ds/avl/avl.c:389-394 | that position cuts a sorted sequence into elements at most x and elements not below x |
| `AvlTree.InsertKeepsSorted` | infinity/ds/avl/avl.c:404-430 | insertion keeps the in-order sequence sorted |
| `AvlTree.FindExactly` | infinity/ds/avl/avl.c:353-380 | find returns the key exactly if the tree has an equal element |
| `AvlTree.SizeAtLeastFib` | infinity/ds/avl/avl.c:519-550 | a balanced tree of height h has at least Fib(h+2)-1 nodes |
| `AvlTree.BuiltTree` | infinity/ds/avl/avl.c:396-430 | for every sequence of inserts: balanced, sorted, a permutation of the inserted elements, of logarithmic height, and find succeeds exactly on them |
| `AvlNodes.Avl.AVLInsert` | infinity/ds/avl/avl.c:396-403 | the method on linked nodes leaves exactly the tree of the insertion on values |
| `AvlNodes.Avl.AVLFind` | infinity/ds/avl/avl.c:348-380 | the method on linked nodes answers as the search on values |
| `AvlNodes.BalancedInsert` | infinity/ds/avl/avl.c:404-430 | recursive in-place insertion refines the insertion on values and keeps the node structure disjoint |
| `AvlNodes.BalanceTreeIfNeeded` | infinity/ds/avl/avl.c:432-470 | in-place rebalancing with its four cases refines the one on values |
| `AvlNodes.RotateRight` | infinity/ds/avl/avl.c:472-487 | relinking two nodes in place is the rotation on values, including the height written into the field |
| `AvlNodes.RotateLeft` | infinity/ds/avl/avl.c:489-504 | the mirror image |
| `VsaBlocks.AllocCorrect` | infinity/system_programming/vsa/vsa.c:82-101 | with the header-inclusive advance: succeeds exactly if the positive request is at most the largest available chunk; the payload has the requested size or at most a header more, apart from every live one by a header, and no live payload moves or changes size |
| `VsaBlocks.FitsExactly` | infinity/system_programming/vsa/vsa.c:148-177 | the merging first-fit search finds a block exactly if n <= VSALargestChunkAvailable |
| `VsaBlocks.FirstFit` | infinity/system_programming/vsa/vsa.c:148-177 | what the search passed is a prefix of the merged runs, all too small, and it stops in the next run |
| `VsaBlocks.FitKeeps` | infinity/system_programming/vsa/vsa.c:148-177 | merging while searching keeps the extent of the arena and all live payloads |
| `VsaBlocks.CoalesceKeeps` | infinity/system_programming/vsa/vsa.c:116-143 | coalescing every run keeps extent and live payloads |
| `VsaBlocks.FreeCorrect` | infinity/system_programming/vsa/vsa.c:104-113 | freeing a live payload removes exactly it |
| `VsaBlocks.LiveDisjoint` | infinity/system_programming/vsa/vsa.c:186-205 | live payloads are at least a header apart |
| `VsaBlocks.RunKeepsArena` | infinity/system_programming/vsa/vsa.c:62-205 | over every run: extent constant, live payloads inside the arena and disjoint, and the last request changes none but the one it frees |
| `Vsa.Allocator.VSAInit` | infinity/system_programming/vsa/vsa.c:62-78 | NULL exactly when two headers do not fit; otherwise one free block and the zero end header |
| `Vsa.Allocator.VSAAlloc` | infinity/system_programming/vsa/vsa.c:82-101 | on the arena itself: headers keep tiling it exactly up to the zero end header, the result is that of the allocation on block lists, and the contents of live payloads stay |
| `Vsa.Allocator.FindEnoughBlockSize` | infinity/system_programming/vsa/vsa.c:148-177 | the in-place search terminates on the block the first fit names (advancing as GetNextBlock, lines 179-183, does) |
| `Vsa.Allocator.AllocateBlock` | infinity/system_programming/vsa/vsa.c:186-205 | carves the block, or takes it whole when the rest could not hold a header |
| `Vsa.Allocator.VSAFree` | infinity/system_programming/vsa/vsa.c:104-113 | makes the header of the payload positive and leaves the contents of live payloads |
| `Vsa.Allocator.UsePayload` | infinity/system_programming/vsa/vsa.c:186-205 | the owner of a live payload may write anything into it without disturbing the headers |
| `Vsa.Allocator.MergeRun` | infinity/system_programming/vsa/vsa.c:129-137 | the inner merging loop leaves the fully merged run in its first header |
| `Vsa.Allocator.VSALargestChunkAvailable` | infinity/system_programming/vsa/vsa.c:116-143 | returns the largest coalesced chunk, leaves the arena coalesced and the contents of live payloads as they were |
| `Vsa.RewriteFirst` | infinity/system_programming/vsa/vsa.c:186-205 | rewriting headers inside one block's extent keeps the rest of the tiling |
| `Vsa.MergeKeepsSearching` | infinity/system_programming/vsa/vsa.c:208-211 | merging two headers keeps the tiling |
| `VsaAsWritten.AsWrittenExactly` | infinity/system_programming/vsa/vsa.c:148-177 | the search as line 170 is written (advance without the header) finds the first-fit block in every arena of the given shape if and only if the first run of free blocks decides the request |
| `VsaAsWritten.FollowsFit` | infinity/system_programming/vsa/vsa.c:148-177 | under that condition it does what first fit does |
| `VsaAsWritten.Derails` | infinity/system_programming/vsa/vsa.c:170 | otherwise it leaves the chain of headers and lands one header short of the next one, where the content of the arena then decides |
| `VsaAsWritten.AllocAsWrittenExactly` | infinity/system_programming/vsa/vsa.c:82-101 | VSAAlloc with line 170 as written returns and leaves what first fit does, in every arena of the given shape, if and only if the first run of free blocks decides the request |
| `VsaAsWritten.UndecidedReturnsHeader` | infinity/system_programming/vsa/vsa.c:82-101 | otherwise some content of the arena makes it hand out the address of a header, of a block or of the end, as memory |
| `VsaAsWritten.FreshArenaGivesTooMuch` | infinity/system_programming/vsa/vsa.c:82-101 | a new arena with one free block of 100 in which a request for 200 is not refused |
| `DhcpServer.RunConserves` | infinity/ds/dhcp/dhcp.c:92-404 | after any run with two or more host bits: leased are exactly the live addresses, the network and the broadcast address; flags are right; free count is 2^k - 2 - live leases |
| `DhcpServer.NeverLeasedTwice` | infinity/ds/dhcp/dhcp.c:159-185 | what an allocation returns was neither live nor reserved |
| `DhcpServer.AllocateIpCorrect` | infinity/ds/dhcp/dhcp.c:159-185 | fails exactly when everything is leased; otherwise leases the requested address, or the least unleased one if none was requested or IsOccupied said so |
| `DhcpServer.FreeIpCorrect` | infinity/ds/dhcp/dhcp.c:336-360 | which status every address gets; DOUBLE_FREE is not given when only the last node is missing, where a null pointer is followed |
| `DhcpServer.FreeingFirstHostCrashes` | infinity/ds/dhcp/dhcp.c:336-373 | that case occurs on every new server, for host number 1 |
| `DhcpServer.FreeCrashesExactly` | infinity/ds/dhcp/dhcp.c:336-373 | after any run, freeing follows a null pointer if and only if the address is not reserved and was never handed out while its sibling was, or is reserved |
| `DhcpServer.RequestGrantedExactly` | infinity/ds/dhcp/dhcp.c:159-185 | a request for a free address is granted under the opposite condition, or if it is the least free one |
| `DhcpServer.ThreeNotGranted` | infinity/ds/dhcp/dhcp.c:159-185 | on a new server, with 2 leased, a request for the free 3 is answered with 1 |
| `DhcpTrie.OnlyLastMissingExactly` | infinity/ds/dhcp/dhcp.c:220-237 | only the last node on the way to an address is missing if and only if its sibling's way is complete and its own is not |
| `DhcpTrie.SpecificPaths` | infinity/ds/dhcp/dhcp.c:187-210 | leasing creates the nodes on the way and no others |
| `DhcpTrie.ReleasePaths` | infinity/ds/dhcp/dhcp.c:362-373 | freeing removes no node |
| `DhcpTrie.SmallestIsLeast` | infinity/ds/dhcp/dhcp.c:238-289 | AllocateSmallestIp leases the least unleased host number, and fails exactly when there is none |
| `DhcpTrie.SpecificLeases` | infinity/ds/dhcp/dhcp.c:187-210 | after leasing a, leased are exactly a and what was leased before |
| `DhcpTrie.SpecificKeeps` | infinity/ds/dhcp/dhcp.c:187-219 | leasing keeps every flag right and adds one to the count |
| `DhcpTrie.OccupiedExactly` | infinity/ds/dhcp/dhcp.c:220-237 | IsOccupied answers yes exactly for leased addresses and those whose last node alone is missing |
| `DhcpTrie.ReleaseLeases` | infinity/ds/dhcp/dhcp.c:362-373 | after freeing a leased address, leased is everything else that was |
| `DhcpTrie.ReleaseKeeps` | infinity/ds/dhcp/dhcp.c:362-373 | freeing keeps every flag right and takes one from the count |
| `DhcpTrie.FullLeasesAll` | infinity/ds/dhcp/dhcp.c:212-219 | a full node has every address below it leased |
| `DhcpTrie.CountIsLeased` | infinity/ds/dhcp/dhcp.c:390-404 | CountOccupied is the cardinality of the set of leased addresses |
| `DhcpTrie.InitialLeases` | infinity/ds/dhcp/dhcp.c:92-124 | a new trie leases exactly network and broadcast, and its flags are right if and only if there are at least two host bits |
| `Dhcp.AssembledHost` | infinity/ds/dhcp/dhcp.c:165-172 | the shifts assemble the host number whatever *allocated_ip held before |
| `Dhcp.AssembleBit` | infinity/ds/dhcp/dhcp.c:238-275 | one shift per level with the path bit entering on top |
| `Dhcp.OrIsSum` | infinity/ds/dhcp/dhcp.c:165-185 | or-ing the host number into a network address adds it |
| `Dhcp.OrByBits` | infinity/ds/dhcp/dhcp.c:165-185 | a bit of the address is set exactly if it is set in the network or the host number |
| `Dhcp.AllocateSpecificIp` | infinity/ds/dhcp/dhcp.c:187-210 | the recursive in-place method refines the trie function on the low bits of the address |
| `Dhcp.AllocateSmallestIp` | infinity/ds/dhcp/dhcp.c:238-275 | the same, together with the register it leaves |
| `Dhcp.FreeIpNode` | infinity/ds/dhcp/dhcp.c:362-373 | the same for freeing |
| `Dhcp.CountOccupied` | infinity/ds/dhcp/dhcp.c:390-404 | adds the leased addresses below the node to the counter |
| `Dhcp.DhcpService.NewRoot` | infinity/ds/dhcp/dhcp.c:92-124 | builds the two chains that reserve network and broadcast address |
| `Dhcp.DhcpService.IsOccupied` | infinity/ds/dhcp/dhcp.c:220-237 | the loop over levels answers as defined on tries |
| `Dhcp.DhcpService.DhcpAllocateIp` | infinity/ds/dhcp/dhcp.c:159-185 | new trie, status and complete 32-bit address |
| `Dhcp.DhcpService.DhcpFreeIp` | infinity/ds/dhcp/dhcp.c:336-360 | new trie and status |
| `Dhcp.DhcpService.DhcpCountFree` | infinity/ds/dhcp/dhcp.c:376-388 | 2^k minus the leased addresses |
| `SemaphoreRing.RingCorrect` | infinity/system_programming/producers_consumers/ex3/ex3_2.c:74-128 | in every interleaving: semaphores plus threads between wait and post make the capacity; dequeued values are a prefix of the enqueued ones; unread values lie untouched in their cells; the values consumers hold or have returned are exactly the dequeued ones |
| `SemaphoreRing.ConsumersHoldDifferentValues` | infinity/system_programming/producers_consumers/ex3/ex3_2.c:82-90 | no two consumers hold or return the same value |
| `SemaphoreRing.ConsumersReturnFirstValues` | infinity/system_programming/producers_consumers/ex3/ex3_2.c:82-128 | when all have finished, the consumers have returned the values 1, 2, ... up to their number, one each |
| `SemaphoreRing.StoreAndLoadApart` | infinity/system_programming/producers_consumers/ex3/ex3_2.c:74-90 | under different locks, no unread cell is overwritten, no unwritten one read, and a store and a load never meet in one cell |
| `SemaphoreRing.StuckMeansFinished` | infinity/system_programming/producers_consumers/ex3/ex3_2.c:92-128 | when no thread can move, all have finished if and only if producers number at least the consumers and at most a capacity more |
| `SemaphoreRing.FinishesExactly` | infinity/system_programming/producers_consumers/ex3/ex3_2.c:92-128 | the same for every run from the start, with the numbers of producers and consumers it was started with |
| `SemaphoreRing.MovesBounded` | infinity/system_programming/producers_consumers/ex3/ex3_2.c:74-128 | no schedule lets the threads make more than seven steps each, so every run gets stuck or finishes |
| `SemaphoreRing.RolesFixed` | infinity/system_programming/producers_consumers/ex3/ex3_2.c:92-128 | the numbers in that condition are those at the start |
| `SemaphoreRing.TokensKeep` | infinity/system_programming/producers_consumers/ex3/ex3_2.c:92-128 | every step keeps each semaphore token either in the semaphore or with one thread |
| `SemaphoreRing.ContentsKeep` | infinity/system_programming/producers_consumers/ex3/ex3_2.c:74-90 | every step keeps the ring contents and the order |
| `SemaphoreRing.IndicesKeep` | infinity/system_programming/producers_consumers/ex3/ex3_2.c:74-90 | every step keeps the indices at the cells of the next value to store and to load |
| `Broadcast.ReceivedInOrder` | infinity/system_programming/producers_consumers/ex5/ex5.c:18-59 | in every interleaving with spurious wakeups, each consumer prints 1, 2, 3, ... once each, none before it is sent, and the unlocked read at line 55 finds the message just printed |
| `Broadcast.NeverDeadlocked` | infinity/system_programming/producers_consumers/ex5/ex5.c:18-59 | a reachable state where nobody can move is one where everything was sent and everybody printed every message |
| `Broadcast.MovesBounded` | infinity/system_programming/producers_consumers/ex5/ex5.c:18-59 | the steps that change the state are bounded by the numbers of consumers, rounds and spurious wakeups, so runs end, with all messages printed |
| `Broadcast.StepKeeps` | infinity/system_programming/producers_consumers/ex5/ex5.c:18-59 | every step, spurious wakeups included, keeps the invariant on tokens, mutex and rounds |
| `Broadcast.RunKeeps` | infinity/system_programming/producers_consumers/ex5/ex5.c:18-59 | so does every run |
| `RadixSort.RadixSort` | infinity/ds/utils/sorts/sorts.c:115-138 | for every non-empty array of ints: a permutation, stably ordered by the keys of all passes; sorted if no number is negative; in general sorted if and only if those keys agree with the values |
| `RadixSort.PassExtendsOrder` | infinity/ds/utils/sorts/sorts.c:127-132 | a pass by the next digit turns order modulo 10^k into order modulo 10^(k+1) |
| `RadixSort.PassExtendsCode` | infinity/ds/utils/sorts/sorts.c:127-132 | for any ints, k+1 passes are one stable pass by the k+1 keys together |
| `StableChain.PassesCompose` | infinity/ds/utils/sorts/sorts.c:127-132 | two stable passes in a row are one stable pass by the combined key |
| `StableChain.SortedExactly` | infinity/ds/utils/sorts/sorts.c:115-138 | a stable order by a key is sorted by value if and only if the key agrees with the input |
| `RadixSort.NegativesMisordered` | infinity/ds/utils/sorts/sorts.c:489-497 | a concrete input with negative numbers that ends unsorted, because the key divides in size_t |
| `RadixSort.OnlyNegativesDecide` | infinity/ds/utils/sorts/sorts.c:489-497 | the condition need be tested only for pairs whose smaller member is negative |
| `RadixSort.OneDigitAgrees` | infinity/ds/utils/sorts/sorts.c:489-497 | numbers from -9 to 9 always end sorted |
| `RadixSort.CodeFollowsRemainder` | infinity/ds/utils/sorts/sorts.c:127-132 | on non-negative ints the keys of k passes order like the values modulo 10^k |
| `RadixSort.GetKeyExactly` | infinity/ds/utils/sorts/sorts.c:489-497 | the key of any int for any positive divisor, told by multiples alone: the last digit of the int made of the low 32 bits of the size_t quotient |
| `RadixSort.GetKeyIsDigit` | infinity/ds/utils/sorts/sorts.c:489-497 | on non-negative ints the key is the decimal digit |
| `RadixSort.ExtremesHaveMostDigits` | infinity/ds/utils/sorts/sorts.c:119-126 | the digits of the largest and the smallest element bound those of all, negative ones included |
| `RadixSort.GetNumOfDigit` | infinity/ds/utils/sorts/sorts.c:499-508 | the number of decimal digits, for any sign |
| `RadixSort.DigitsSuffice` | infinity/ds/utils/sorts/sorts.c:499-508 | so many digits hold the number |
| `RadixSort.DigitsNeeded` | infinity/ds/utils/sorts/sorts.c:499-508 | and no fewer do |
| `RadixSort.CountingSort1` | infinity/ds/utils/sorts/sorts.c:141-205 | one pass is the stable order by its key, unless `max - min + 1` or `-min` overflows an int, which it does exactly when the span of the keys does not fit |
| `RadixSort.DigitsFit` | infinity/ds/utils/sorts/sorts.c:165-175 | the keys of a digit always fit, so RadixSort never overflows there |
| `RadixSort.CountDigits` | infinity/ds/utils/sorts/sorts.c:172-187 | the count array holds how many keys are at most each value |
| `RadixSort.PlaceAll` | infinity/ds/utils/sorts/sorts.c:189-198 | the backward loop puts every element at its place and fills the array exactly |
| `RadixSort.CountingSort` | infinity/ds/utils/sorts/sorts.c:109-113 | sorts ints of either sign if the numbers from the least to the greatest can be counted in an int and none is INT_MIN; exactly otherwise the int arithmetic overflows |
| `RadixSort.ExtremesDoNotFit` | infinity/ds/utils/sorts/sorts.c:141-175 | INT_MAX and INT_MIN together are an input that overflows |
| `CountingOrder.BucketsStablySorted` | infinity/ds/utils/sorts/sorts.c:141-205 | the buckets of all keys in turn are the stable order |
| `CountingOrder.PlacesDetermine` | infinity/ds/utils/sorts/sorts.c:189-198 | elements at their places are the buckets |
| `CountingOrder.BucketsAt` | infinity/ds/utils/sorts/sorts.c:189-198 | where each element stands in the buckets |
| `Josephus.Josephus` | infinity/c/ws3/ws3.c:34-56 | stays inside the array if and only if n >= 2, and then ends with one survivor, 2*(n - 2^floor(log2 n)) + 1, the one of the elimination game on a queue |
| `Josephus.SurvivorPlace` | infinity/c/ws3/ws3.c:34-56 | the survivor of the game on any queue |
| `Josephus.StrikeKeepsCircle` | infinity/c/ws3/ws3.c:47-51 | overwriting a successor is one round of the game |
| `Josephus.CircleEnds` | infinity/c/ws3/ws3.c:47 | a player is its own successor exactly when it is alone |
| `Josephus.FillCircle` | infinity/c/ws3/ws3.c:38-45 | the filling loop, in size_t arithmetic, builds the circle for n >= 2; for n < 2 it writes at index n, the first outside the array |
| `KnightTour.WalkThroughChess` | infinity/ds/knight_tour/knight_tour.c:181-283 | found if and only if some legal tour extends the path; then a whole tour is in the vector, otherwise the vector is as on entry |
| `KnightTour.InitPossibleMoves` | infinity/ds/knight_tour/knight_tour.c:26-52 | fills the table with exactly the legal offsets and their number for every square |
| `KnightTour.TableIsKnightMoves` | infinity/ds/knight_tour/knight_tour.c:26-52 | the nonzero entries of a square are exactly its knight's moves |
| `KnightTour.CountsKnightMoves` | infinity/ds/knight_tour/knight_tour.c:26-52 | the last row of the table is the number of knight's moves from each square |
| `KnightTour.AllVisited` | infinity/ds/knight_tour/knight_tour.c:181-200 | all bits are on exactly when the path has 64 squares |
| `KnightTour.ExtendsByMove` | infinity/ds/knight_tour/knight_tour.c:200-283 | a path that extends to a tour extends through some table entry to an unvisited square |
| `Fsa.Allocator.FSAInit` | infinity/system_programming/fsa/fsa.c:39-58 | NULL exactly when not even one block fits; otherwise as many aligned blocks as fit, all free |
| `Fsa.Allocator.CreateFreeList` | infinity/system_programming/fsa/fsa.c:99-118 | writes the embedded list of all blocks |
| `Fsa.Allocator.FSAAlloc` | infinity/system_programming/fsa/fsa.c:63-78 | NULL exactly when every block is live; otherwise one block that was not live becomes live, it overlaps no live block, and no word of any block changes |
| `Fsa.Allocator.FSAFree` | infinity/system_programming/fsa/fsa.c:81-88 | exactly that block stops being live, and heads the list; only its first word changes |
| `Fsa.Allocator.FSACountFree` | infinity/system_programming/fsa/fsa.c:91-96 | the number of blocks minus the number of live ones |
| `Fsa.Allocator.UseBlock` | infinity/system_programming/fsa/fsa.c:63-78 | a user may write anything into a live block without disturbing the list |
| `Fsa.FreshChain` | infinity/system_programming/fsa/fsa.c:99-118 | offsets written block by block form the list of all blocks |
| `Fsa.BlocksApart` | infinity/system_programming/fsa/fsa.c:99-118 | blocks do not overlap |
| `Fsa.SuggestIsLeast` | infinity/system_programming/fsa/fsa.c:28-58 | the suggested size for k blocks is the least memory of which FSAInit makes at least k |
| `Fsa.FreeCounts` | infinity/system_programming/fsa/fsa.c:91-96 | the length of the list is the number of blocks that are not live |
| `Scheduler.RunCorrect` | infinity/ds/scheduler/scheduler.c:85-199 | after any requests, dispatches and reschedules: i < j implies time[i] <= time[j] + 1, and every created task is exactly one of queued, running, destroyed |
| `Scheduler.DispatchWithinOneSecond` | infinity/ds/scheduler/scheduler.c:114-155 | a dispatched task is never more than one second later than any queued one |
| `Scheduler.BoundIsTight` | infinity/ds/scheduler/scheduler.c:193-199 | the second is attained |
| `Scheduler.InsertKeepsOrder` | infinity/ds/sorted_list/sorted_list.c:119-133 | insertion under the +1 comparator keeps the one-second order |
| `Scheduler.StepConserves` | infinity/ds/scheduler/scheduler.c:85-191 | every event keeps each task in exactly one place |
| `Scheduler.StepKeepsOrder` | infinity/ds/scheduler/scheduler.c:85-191 | every event keeps the order, erasing from the middle included |
| `Scheduler.AddAchieves` | infinity/ds/scheduler/scheduler.c:85-111 | a new task is queued under the next identifier, due its interval after now, and the others keep their order |
| `Scheduler.RemoveAchieves` | infinity/ds/scheduler/scheduler.c:165-180 | afterwards no queued task has that identifier; one that had it is destroyed, and the others keep their order |
| `Scheduler.ClearAchieves` | infinity/ds/scheduler/scheduler.c:183-191 | the queue is empty and every task that was in it destroyed |
| `Scheduler.FinishAchieves` | infinity/ds/scheduler/scheduler.c:128-148 | a task that asks to run again is queued once more, due its interval after now, and not destroyed; one that does not is destroyed and not queued |
| `Scheduler.ExecuteAchieves` | infinity/ds/scheduler/scheduler.c:118-150 | the same for a whole pass of the loop, whatever the task asked of the scheduler meanwhile |
| `Scheduler.PauseStopsTheLoop` | infinity/ds/scheduler/scheduler.c:114-162 | after a task pauses the scheduler no other is dispatched, and as long as none does the loop goes on |
| `Scheduler.ExecuteKeeps` | infinity/ds/scheduler/scheduler.c:118-150 | a pass of the loop keeps both, with requests made by the running task |
| `Scheduler.InsertUids` | infinity/ds/sorted_list/sorted_list.c:119-133 | insertion adds exactly the new task |
| `Scheduler.EraseUids` | infinity/ds/pqueue/pqueue.c:116-141 | erasure removes exactly the matching task |
| `Scheduler.Scheduler.SortedListInsert` | infinity/ds/sorted_list/sorted_list.c:119-133 | the list walk inserts where the specification does |
| `Scheduler.Scheduler.SortedListFindIf` | infinity/ds/sorted_list/sorted_list.c:229-242 | the first task with the uid, or the end |
| `Scheduler.Scheduler.SchedulerAdd` | infinity/ds/scheduler/scheduler.c:85-111 | a task due `interval` after now is queued |
| `Scheduler.Scheduler.SchedulerRemove` | infinity/ds/scheduler/scheduler.c:165-180 | removes the queued task of that uid, if any, and says whether there was one |
| `Scheduler.Scheduler.SchedulerClear` | infinity/ds/scheduler/scheduler.c:183-191 | destroys every queued task |
| `Scheduler.Scheduler.SchedulerRun` | infinity/ds/scheduler/scheduler.c:114-155 | the run loop is the sequence of dispatches, and its status says why it ended |
| `Prisoners.StopMeansAllVisited` | test_dir/prisons_question/prisons_question.cpp:25-42 | for any schedule: leader count plus lamp equals the non-leaders who lit it, never above N-1, and stopping implies everybody has visited |
| `Prisoners.StopsExactly` | test_dir/prisons_question/prisons_question.cpp:40-42 | the leader stops if and only if every other prisoner has turned the lamp on and it is off |
| `Prisoners.LampHistory` | test_dir/prisons_question/prisons_question.cpp:25-38 | a prisoner is marked exactly if the lamp was turned on at one of its visits, and the count is how often it was turned off |
| `Prisoners.VisitsCounted` | test_dir/prisons_question/prisons_question.cpp:37 | the visits of each prisoner are those in the schedule |
| `Prisoners.CanStop` | test_dir/prisons_question/prisons_question.cpp:25-42 | every run can be continued until the leader stops |
| `Prisoners.VisitKeeps` | test_dir/prisons_question/prisons_question.cpp:25-38 | every visit keeps that sum |
| `Prisoners.LightersBound` | test_dir/prisons_question/prisons_question.cpp:25-42 | at most N-1 can have lit it, and only if all did are there N-1 |
| `Prisoners.Simulation.HandleVisit` | test_dir/prisons_question/prisons_question.cpp:25-38 | the method on the fields does one such visit |

## Left out

- Weak memory orders, fences and wrap-around of the queue positions: the queue's steps are sequentially consistent and its counters unbounded, though `size_t` ones would wrap.
- strtod, pow, floating point and whitespace: the calculator reads tokens, a number being what strtod accepts where a number is expected, over abstract numbers and operators.
- A failed allocation (malloc, calloc, nodes, tasks, list cells): not modelled anywhere; for one, an AVL insert that fails there loses part of the tree.
- Destroy functions, iteration with callbacks and printing: they add no state of interest.
- AVLRemove and its helpers: not part of this model; the recursion replaces ancestors and drops subtrees.
- VsaBlocks.AllocCorrect: holds of the header-inclusive advance, the one the header file's contract needs; `VsaAsWritten.AllocAsWrittenExactly` says when line 170 achieves the same.
- VsaBlocks.FitsExactly: as for AllocCorrect.
- VsaBlocks.FirstFit: as for AllocCorrect.
- VsaBlocks.FitKeeps: as for AllocCorrect.
- VsaBlocks.RunKeepsArena: as for AllocCorrect.
- Vsa.Allocator.FindEnoughBlockSize: as for AllocCorrect.
- Vsa.Allocator.VSAAlloc: advances with the header, unlike line 170, which `VsaAsWritten` models instead; a request of size 0 is not covered.
- Headers of the variable-size allocator occupy the cell of their first byte; the magic number of debug builds and alignment are not modelled.
- Dhcp.DhcpService.NewRoot: builds the two initial chains bottom-up, where DhcpInit hangs them top-down in one loop; the trie is the same.
- Dhcp.DhcpService.constructor: admits 2 to 32 host bits, the range in which the initial flags are right (`InitialLeases` proves the bound for every number).
- The register *allocated_ip is a parameter and a result instead of a pointer, and the conversion of addresses to and from text is absent.
- Fsa.Allocator.FSAFree: only frees live blocks, as the header demands; the original does not check.
- RadixSort.CountingSort1: stops where the program's int arithmetic overflows, since what happens then is undefined.
- KnightTour.WalkThroughChess: visited squares are a set instead of a 64-bit word, and growing the vector is invisible; the Warnsdorff walk and the progress display are not modelled.
- Scheduler.Scheduler.SchedulerRun: runs a given script of task executions, each with the clock it reads and the requests the task makes; sleeping and the clock itself are inputs, tasks are values rather than shared objects, and a unique identifier is the number of the creation.
- The difference of two times is not truncated to int in the comparator.
- Overflow of 32- and 64-bit counters, other than where named above, is not modelled.
- The libraries behind semaphores, mutexes and condition variables: one atomic step per call, with spurious wakeups.
- The program has 20 prisoners and stops at a count of 19; the model has n of them and n - 1.
- The doubly linked list under the sorted list is a sequence.
- Sockets, reactor, watchdog, file systems, and the other exercises: not part of this model.
