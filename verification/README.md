# Verified core of oin17

oin17 is a miner written in C99: pool threads draw nonces, turn each into a list of random numbers or a random
grid, sort the list or find the shortest path through the grid, print the result in decimal and hash the text.
This project models the parts of that pipeline that carry an algorithm or a protocol, and proves them.

* **Sorting.** Three interchangeable back ends. `SmoothSpec`, `Leonardo`, `SmoothWord`, `SmoothMoves`,
  `SmoothPhases` and `SmoothSort` treat smoothsort: the forest of Leonardo trees, its encoding in the bits of one
  word and one pair of consecutive Leonardo numbers, `sift`, `trinkle` and `semitrinkle` with their moving hole,
  and the two phases. `HeapSort` and `MergeSort` treat the other two, `SortOrder` what a sorted result is.
* **Shortest path.** `Grid` defines distances and canonical paths, `Bfs` the search on values and its invariant,
  `PathQueue` the intrusive sorted queue over linked cells, `PathSearch` and `ShortPath` the search on those cells
  and the reuse of the queue to reverse and print the path, `MakeGrid` the random grid.
* **Threads.** `Futex` is the mutex as a step system for any number of threads, one step per atomic instruction;
  `Handshake` is a pool thread and the thread that starts and stops it, over that lock and a condition variable;
  `Tpool` is the bookkeeping of the pools on top.
* **Supporting cores.** `Mt64` (MT19937-64, the generator `mt19937_64` of ISO C++11, sections 26.5.3.2 and
  26.5.5), `Mbuf` and `Fragments` (message buffers shared by
  queues, and the fragments a message arrives in), `XorSwap` and `Decimal` (exclusive-or exchanges, decimal
  text), `Nonce` (nonce stepping), `Words` (word size, minimum, small multiples), `Challenge` (the pipelines from a seed to the
  text that is hashed).

Reading guide: methods follow the C functions and are proved against functions on sequences (`Sifted`, `Trinkled`,
`Sunk`, `Merged`, `Insert`, `FirstIdle`, ...); the lemmas beside them say what those functions achieve. Arrays of C
structs that are reached by pointers into one static array (`struct pool`, `struct thread`, `struct mbuf`) are
arrays of records, a pointer being an index; cells, which are linked freely, are objects.

Where the code falls short of what one might expect of it, the model keeps the code's behaviour:

* `mbuf` marks a used slot by its length, so an empty message leaves its slot free and the next search finds it
  again: `Mbuf.FoundAgainIffEmpty` says exactly when. `ws_send` can queue an empty message; the queue then holds
  it, but the slots are no longer as they should be (`Mbuf.Mbufs.Send` says that this is so iff the message is
  empty), and the next message, whatever queue it is for, shows up in that queue (`Mbuf.NextMessageIntrudes`).
* `recvfrag` lets a message fill the fragment buffer to its last byte, and `__recvfrag` then writes the nil byte one
  past the end: `Fragments.Conn.Fragment` reports an overrun for messages of exactly 1024 bytes, and nothing is said
  about what follows.
* Two draws of `getnonce` fewer ticks apart than the range is wide, with no wrap of the counter in between, are
  different if and only if the step 3917 and the width have no common factor (`Nonce.DrawsDifferIffCoprime`); they
  have none for the ranges of the miner. Over a wrap of the counter this holds if and only if the width also divides
  2^64 (`Nonce.DrawsDifferOverWrap`), which those widths do not (`Nonce.MiningDrawsOverWrap`).
* A `tpool_start` that finds no idle thread still succeeds, with an empty pool: a start gets the smaller of what
  it asks for and what is idle (`Tpool.FirstIdleCount`), and the next start is given the same id if and only if this
  one went without any thread (`Tpool.SameIdAgain`). It also counts a job more in `njobs` than there are pools in use.
  While no start goes without a thread and no stop hits an empty pool, `njobs` is the number of pools in use, and the
  branch of `__start` that steals a thread is never taken (`Tpool.Tpool.Start`, `Tpool.NoStealing`). Where it is
  taken, it gives the thread back to the pool it has taken it from, or follows a null pointer (`Tpool.Tpool.Steal`).
* `mbuf` is documented to return nil on error (src/lib/ws/priv.h:27-34); the code ends the program instead, which is what `Alloc` reports.

## Model

| member | source | states |
|---|---|---|
| SmoothSort.SmoothSort64 | src/lib/utils/smoothsort64.c:172-250 | for every array of at least one element and both directions the array ends up ordered, with the same elements |
| SmoothSort.Build | src/lib/utils/smoothsort64.c:186-220 | the build loop and the last trinkle turn any array into a forest of heap-ordered trees with ordered roots, without losing an element |
| SmoothSort.Grow | src/lib/utils/smoothsort64.c:187-217 | one round of the build loop takes one more element into the trees and keeps the build invariant |
| SmoothSort.Merge | src/lib/utils/smoothsort64.c:189-198 | when p ends in 011 the two smallest trees become the subtrees of the next element, and (p, b, c) denote the new trees |
| SmoothSort.Settle | src/lib/utils/smoothsort64.c:199-206 | when p ends in 01 the choice by q + c < n between sift and trinkle leaves the last tree settled |
| SmoothSort.Descend | src/lib/utils/smoothsort64.c:208-211 | going down to order 1 or 0 while shifting p left denotes the same trees, and ends |
| SmoothSort.AddTree | src/lib/utils/smoothsort64.c:208-213 | then setting bit 0 makes the next element a tree of its own |
| SmoothSort.RemoveLeaf | src/lib/utils/smoothsort64.c:225-232 | a tree of one element leaves the forest, which stays a forest, and bit 0 stands for the last tree again |
| SmoothSort.SplitLeft | src/lib/utils/smoothsort64.c:234-240 | the first semitrinkle is skipped exactly when no tree is left of the one that is split |
| SmoothSort.SplitNode | src/lib/utils/smoothsort64.c:233-248 | the root of the last tree is left in its final place and its two subtrees join the forest |
| SmoothMoves.Sift | src/lib/utils/smoothsort64.c:61-92 | the hole-based sift computes what exchanging the root downwards step by step would |
| SmoothMoves.PickChild | src/lib/utils/smoothsort64.c:73-78 | the child that is promoted, ties going right, and the pair (b1, c1) of its subtree |
| SmoothMoves.SkipZeros | src/lib/utils/smoothsort64.c:111-114 | skipping zero bits ends, denotes the same trees, and reaches a set bit |
| SmoothMoves.TrinkleRound | src/lib/utils/smoothsort64.c:117-146 | each round of trinkle brings the moving element one root to the left or into the last tree and keeps the final result the same |
| SmoothMoves.TrinkleAtNode | src/lib/utils/smoothsort64.c:127-145 | the round that weighs the previous root against the larger child: one of them fills the hole and the moving element goes there |
| SmoothMoves.Trinkle | src/lib/utils/smoothsort64.c:94-154 | the whole of trinkle, with the hole and the final sift, computes the mended forest Trinkled |
| SmoothMoves.SemiTrinkle | src/lib/utils/smoothsort64.c:156-168 | the exclusive-or exchange followed by trinkle computes SemiTrinkled |
| SmoothMoves.DownTwice | src/lib/utils/smoothsort64.c:52-59 | one step down leads to the left subtree, two to the right one, whose sizes they give |
| Leonardo.UpIsNext | src/lib/utils/smoothsort64.c:43-50 | up leads from the pair of a tree to the pair of the tree one order above |
| Leonardo.DownIsPrev | src/lib/utils/smoothsort64.c:52-59 | down leads to the pair of the tree one order below, with -1 for the wrapped size_t |
| Leonardo.DecodeDouble | src/lib/utils/smoothsort64.c:208-211 | shifting p left while going down denotes the same trees |
| Leonardo.DecodeOdd | src/lib/utils/smoothsort64.c:122-122 | clearing bit 0 of p removes exactly the last tree |
| SmoothSpec.SiftPermutes | src/lib/utils/smoothsort64.c:61-92 | sift permutes |
| SmoothSpec.SiftFrame | src/lib/utils/smoothsort64.c:61-92 | sift stays inside its tree |
| SmoothSpec.SiftRestoresHeap | src/lib/utils/smoothsort64.c:61-92 | sift turns a tree whose root alone is out of place into a heap |
| SmoothSpec.TrinklePermutes | src/lib/utils/smoothsort64.c:94-154 | trinkle permutes |
| SmoothSpec.TrinkleFrame | src/lib/utils/smoothsort64.c:94-154 | trinkle touches nothing to the right of its forest |
| SmoothSpec.TrinkleRestoresForest | src/lib/utils/smoothsort64.c:94-154 | given a forest whose last root is arbitrary, trinkle restores the heap order of every tree and the order of all roots |
| SmoothSpec.SemiTrinkleExtendsForest | src/lib/utils/smoothsort64.c:156-168 | semitrinkle takes a heap into the forest on its left |
| SmoothSpec.LastRootIsLast | src/lib/utils/smoothsort64.c:223-249 | in a forest the last root comes after every other element |
| SmoothPhases.TwoCases | src/lib/utils/smoothsort64.c:189-199 | one of the two cases of the build loop always applies |
| SmoothPhases.LeaveForLater | src/lib/utils/smoothsort64.c:200-203 | a tree with q + c < n, which will be absorbed, need only be sifted |
| SmoothPhases.PutInPlace | src/lib/utils/smoothsort64.c:204-206 | a tree that will not be absorbed is put in order by trinkle: all roots before it are in order already |
| SmoothPhases.AllFinal | src/lib/utils/smoothsort64.c:219-220 | when every element is in a tree, every tree but the last is one that cannot be absorbed any more, so nothing was only sifted |
| SmoothPhases.FinalBefore | src/lib/utils/smoothsort64.c:199-206 | a tree that will not be absorbed has no tree before it that will |
| SmoothPhases.Absorb | src/lib/utils/smoothsort64.c:187-198 | absorbing two trees keeps every remaining tree a heap and the final ones in order |
| SmoothPhases.AbsorbWord | src/lib/utils/smoothsort64.c:194-198 | (p + 1) / 4 with the new pair denotes the trees with the last two replaced by one of the next order |
| SmoothPhases.AbsorbShape | src/lib/utils/smoothsort64.c:194-194 | absorbing keeps the shape of the build words: only the two lowest bits may be adjacent |
| SmoothPhases.TrinkleCompletes | src/lib/utils/smoothsort64.c:219-220 | the trinkle after the build loop completes the forest |
| SmoothPhases.LeafRemoved | src/lib/utils/smoothsort64.c:225-232 | when a tree of one element is removed, the sorted tail grows by one |
| SmoothPhases.NodeSplit | src/lib/utils/smoothsort64.c:233-248 | when a tree is split, the sorted tail grows by one and the two subtrees are in the forest |
| SmoothPhases.SplitWords | src/lib/utils/smoothsort64.c:234-247 | the words p met while a tree is split denote the trees before it, then with the left subtree, then with both |
| SmoothWord.PairIsLeonardo | src/lib/utils/smoothsort64.c:28-39 | b is the Leonardo number of its order and c the one before it |
| SmoothWord.DecodeIsDecreasing | src/lib/utils/smoothsort64.c:187-249 | whatever the word, the orders it denotes are strictly decreasing |
| SmoothWord.WordFits | src/lib/utils/smoothsort64.c:187-249 | p stays below 2^64 while there are fewer elements than the Leonardo number of order 64 |
| XorSwap.ExchangeInPlace | src/lib/utils/smoothsort64.c:161-164 | three exclusive-ors exchange two different elements |
| HeapSort.HeapSort64 | src/lib/utils/heapsort64.c:17-63 | for every array of at least one element and both directions the single loop ends with the array ordered, with the same elements |
| HeapSort.Sink | src/lib/utils/heapsort64.c:39-61 | the hole-based sift-down computes what exchanging step by step would |
| HeapSort.SunkRestoresHeap | src/lib/utils/heapsort64.c:39-61 | sinking the one misplaced element restores the heap order |
| HeapSort.SunkPermutes | src/lib/utils/heapsort64.c:39-61 | sinking permutes and touches nothing outside [i, cnt) |
| HeapSort.RootIsLast | src/lib/utils/heapsort64.c:32-37 | the root of a heap comes after every element of it |
| HeapSort.Extend | src/lib/utils/heapsort64.c:29-30 | a building round extends the heap by one element |
| HeapSort.Extract | src/lib/utils/heapsort64.c:32-37 | an extracting round puts one element into its final place and restores the heap |
| MergeSort.MergeSort64 | src/lib/utils/mergesort64.c:40-54 | for every array, empty ones included, and both directions the array ends up ordered, with the same elements |
| MergeSort.Merge | src/lib/utils/mergesort64.c:19-38 | merge writes the merger of the two runs to [l, e) and nothing else |
| MergeSort.MergedSorted | src/lib/utils/mergesort64.c:31-37 | the merger of two sorted runs is sorted |
| MergeSort.MergedPermutes | src/lib/utils/mergesort64.c:31-37 | the merger has the elements of both runs |
| MergeSort.MergePass | src/lib/utils/mergesort64.c:47-49 | one pass merges neighbouring runs, ragged last runs included |
| MergeSort.PassDoublesRuns | src/lib/utils/mergesort64.c:46-53 | a pass doubles the length of the sorted runs |
| MergeSort.PassPermutes | src/lib/utils/mergesort64.c:46-53 | a pass permutes |
| SortOrder.SortedPermutationIsUnique | src/lib/chals/sortlist.c:51-77 | a sequence has one sorted arrangement per direction |
| SortOrder.SortedMeans | src/lib/chals/sortlist.c:51-77 | ordered means ascending for a sort and descending for a reverse sort |
| Challenge.SortNumbers | src/lib/chals/sortlist.c:51-77 | whichever back end is built in, the numbers end up ordered in the direction of the challenge; another kind of challenge is an error and changes nothing |
| Challenge.SortList | src/lib/chals/sortlist.c:101-105 | the text that is hashed is the decimal text of the ordered numbers, and it fits its buffer |
| Challenge.Generate | src/lib/chals/sortlist.c:98-99 | the list holds the first random numbers of the seed |
| Challenge.SolveSortList | src/lib/chals/sortlist.c:96-105 | from the seed to the text: it is the text of the ordered first random numbers of the seed, a function of seed, length and direction |
| Challenge.BackendsAgree | src/lib/chals/sortlist.c:51-77 | two texts for the same numbers and direction are equal, so the choice of the back end cannot change the solution |
| Challenge.ShortestPath | src/lib/chals/shortpath.c:445-451 | the text is empty iff the random grid has no path, and otherwise that of the canonical path; the search never leaves the grid |
| Challenge.SolveShortestPath | src/lib/chals/shortpath.c:445-451 | the same from the seed on; it fails iff the first `limit` random numbers do not suffice for the places |
| Challenge.GridOfSeed | src/lib/chals/shortpath.c:374-418 | the grid, the start and the destination are functions of the seed, the width and the number of blockers, however many numbers are drawn |
| ShortPath.Search | src/lib/chals/shortpath.c:265-352 | on every walled grid search returns 0 iff no path leads to dst, and otherwise the length of the text of the canonical path |
| Grid.CanonicalIsShortest | src/lib/chals/shortpath.c:282-309 | no path is shorter than a canonical one |
| Grid.CanonicalIsUnique | src/lib/chals/shortpath.c:282-309 | there is one canonical path at most, so the result does not depend on the order of the directions |
| Grid.CanonicalIsLeast | src/lib/chals/shortpath.c:65-110 | of all shortest paths the canonical one is the first by row and column when they are compared from the destination back |
| Grid.AdjacentMeans | src/lib/chals/shortpath.c:211-242 | next to an open cell are exactly the cells one row away in its column and one column away in its row |
| Grid.ReachHasPath | src/lib/chals/shortpath.c:282-309 | what is reached in d steps has a path of d steps |
| Grid.PathReaches | src/lib/chals/shortpath.c:282-309 | and the other way round |
| Grid.IndexOrder | src/lib/chals/shortpath.c:204-207 | the order of the indices is the order by y and then by x |
| Grid.Coordinates | src/lib/chals/shortpath.c:204-207 | the index determines the coordinates |
| Bfs.StartInv | src/lib/chals/shortpath.c:273-280 | the invariant holds when the start alone is queued |
| Bfs.PopInv | src/lib/chals/shortpath.c:282-282 | a pop keeps the whole invariant |
| Bfs.PopFrontier | src/lib/chals/shortpath.c:282-282 | labels in the queue are d or d + 1 where d is the label popped last, and pops of equal label go by y and x |
| Bfs.LabelInv | src/lib/chals/shortpath.c:300-306 | labelling a cell seen for the first time keeps it; the cell is not in the queue yet |
| Bfs.SkipInv | src/lib/chals/shortpath.c:295-300 | a wall or a cell with a label is left alone: its label could not be improved, so a label never changes |
| Bfs.PopShrinksWaiting | src/lib/chals/shortpath.c:282-309 | each pop leaves fewer cells to pop, so every cell is popped once at most and the search ends |
| Bfs.LabelIsDistance | src/lib/chals/shortpath.c:300-302 | a label is the distance of the cell from the start |
| Bfs.UnlabelledIsUnreachable | src/lib/chals/shortpath.c:311-313 | when the queue is empty, no path leads to a cell without a label |
| Bfs.ChainIsCanonical | src/lib/chals/shortpath.c:282-309 | the parent chain of the cell about to be popped is the canonical path to it |
| Bfs.ChainIsPath | src/lib/chals/shortpath.c:305-305 | the parent chain of any labelled cell is a path |
| Bfs.InsertKeepsOrder | src/lib/chals/shortpath.c:76-110 | inserting before the first cell that comes after keeps the queue strictly sorted |
| PathQueue.Queue.CompareCells | src/lib/chals/shortpath.c:65-74 | costcmp decides the order by cost, then y, then x |
| PathQueue.Queue.QFind | src/lib/chals/shortpath.c:128-136 | the constant-time test is membership |
| PathQueue.Queue.QPop | src/lib/chals/shortpath.c:112-126 | qpop takes the head of the queue off and keeps the links consistent |
| PathQueue.Queue.QDel | src/lib/chals/shortpath.c:138-166 | qdel takes the cell out wherever it is, or changes nothing when it is not queued |
| PathQueue.Queue.QAdd | src/lib/chals/shortpath.c:76-110 | qadd inserts the cell at its place in the order and keeps the links consistent |
| PathQueue.LinkedIn | src/lib/chals/shortpath.c:94-108 | the links after an insertion spell the longer queue, without a cycle |
| PathQueue.LinkedOut | src/lib/chals/shortpath.c:152-162 | the links after a removal inside spell the shorter queue |
| PathQueue.LinkedOutHead | src/lib/chals/shortpath.c:117-123 | the links after a removal of the head spell the rest of the queue |
| PathSearch.GetNeigh | src/lib/chals/shortpath.c:211-242 | the neighbour in each direction, null for a wall; from an open cell it is always inside the grid |
| PathSearch.SearchInit | src/lib/chals/shortpath.c:244-263 | every cell has its coordinates and no label, and the queue is empty |
| PathSearch.Visit | src/lib/chals/shortpath.c:294-307 | one direction: the linked cells go on holding a search with the invariant |
| PathSearch.Expand | src/lib/chals/shortpath.c:294-309 | a round visits the neighbours of the popped cell, keeps the invariant and leaves fewer cells to pop |
| PathSearch.Explore | src/lib/chals/shortpath.c:273-309 | the loop ends with dst popped, or with an empty queue and dst never seen |
| ShortPath.Drain | src/lib/chals/shortpath.c:331-333 | popping empties the queue |
| ShortPath.Reverse | src/lib/chals/shortpath.c:334-341 | relabelling the parent chain with -1, -2, ... leaves the queue holding the chain start first |
| ShortPath.Print | src/lib/chals/shortpath.c:343-349 | popping prints y and x of each cell in the order of the queue |
| ShortPath.PathTextGrows | src/lib/chals/shortpath.c:344-348 | one more cell on the path adds the digits of its row and then those of its column |
| ShortPath.PathTextNotEmpty | src/lib/chals/shortpath.c:343-351 | the text of a path is never empty, so 0 means that there is none |
| MakeGrid.ClrGrid | src/lib/chals/shortpath.c:356-372 | walls on the border, free cells inside |
| MakeGrid.PickFree | src/lib/chals/shortpath.c:382-387 | the place is the first one drawn, row first, that is free |
| MakeGrid.Block | src/lib/chals/shortpath.c:404-417 | a blocker stands at the place drawn unless that is the start or the destination |
| MakeGrid.PopGrid | src/lib/chals/shortpath.c:374-418 | every cell of the grid, the start and the destination as functions of the random numbers; it succeeds iff the numbers suffice |
| MakeGrid.PlacesAreUnique | src/lib/chals/shortpath.c:382-402 | the random numbers determine which draws become the start and the destination |
| MakeGrid.PopulatedMeans | src/lib/chals/shortpath.c:356-418 | what stands in each column of each row, from the random numbers: start, destination, a wall on the border or where a later pair of numbers names row and column, or nothing |
| MakeGrid.PopulatedIsWalled | src/lib/chals/shortpath.c:374-418 | every such grid is walled with open start and destination, which is what the search needs |
| Futex.StepInv | src/lib/utils/futex.c:73-163 | every atomic step of any thread keeps the invariant: one owner iff locked, contended and unlocked only under a running unlock, sleepers only with contended set or a rescuer on its way |
| Futex.NeverTwoOwners | src/lib/utils/futex.c:113-163 | in no execution do two threads own the lock, from the return of mutex_lock to the release in mutex_unlock |
| Futex.SleeperIsNotStranded | src/lib/utils/futex.c:93-163 | while a thread sleeps, the lock is held and marked contended, or a thread is in the slow unlock or about to mark or wake |
| Futex.RefinesLock | src/lib/utils/futex.c:113-163 | each step is one of an abstract lock: nothing, a free lock taken, or a held lock let go by its owner |
| Futex.LockIsTaken | src/lib/utils/futex.c:113-132 | whoever comes out of mutex_lock owns the lock, which was free and is locked by the same instruction |
| Futex.RequestTakesLock | src/lib/utils/futex.c:113-132 | in any execution a thread that asked for the lock and is back at other work has taken it in between, free |
| Futex.ReturnFreesLock | src/lib/utils/futex.c:134-163 | in any execution a thread that owned the lock and is back at other work has let it go in between |
| Futex.AloneInFourSteps | src/lib/utils/futex.c:117-141 | with no other thread in the way one exchange takes the lock, one compare-and-swap gives it back, and all is as before |
| Futex.TakenLockIsMarked | src/lib/utils/futex.c:117-127 | a lock that stays taken is tried a hundred times before it is marked contended |
| Futex.FreeLockIsCleared | src/lib/utils/futex.c:149-158 | a lock that stays free is looked at two hundred times before its mark is cleared; one found taken is left marked |
| Futex.BackFromWait | src/lib/utils/futex.c:95-97 | a thread back from waiting may take a free lock by the marking exchange; a sleeper may wake at any time |
| Futex.QuietStepIsCloser | src/lib/utils/futex.c:113-163 | every step of a thread on its way, without new requests and spurious wake-ups, brings all of them closer to the end |
| Futex.QuietStepsEnd | src/lib/utils/futex.c:113-163 | such steps cannot go on for ever |
| Futex.QuietEndIsInitial | src/lib/utils/futex.c:113-163 | they stop only where no thread owns the lock, wants it or sleeps, and the lock is free and unmarked |
| Futex.QuietRun | src/lib/utils/futex.c:113-163 | from every state with the invariant such steps lead there |
| Futex.EveryRequestIsServed | src/lib/utils/futex.c:113-163 | however they go on, when they stop every thread that wanted the lock has owned it and is out again |
| Futex.EveryThreadCanOwn | src/lib/utils/futex.c:113-132 | from every state with the invariant every thread has an execution in which it comes to own the lock |
| Handshake.StepInv | src/lib/utils/tpool.c:72-127 | every step of controller, worker or kernel keeps the invariant on flags, signals and the pool |
| Handshake.StoppedUntilStarted | src/lib/utils/tpool.c:100-107 | once thread_stop has returned the worker is not in the function and cannot enter it before a thread_start writes canrun |
| Handshake.StartedIsRunning | src/lib/utils/tpool.c:113-127 | when thread_start returns, the worker has announced that it runs |
| Handshake.FunctionOfTheLatestPool | src/lib/utils/tpool.c:92-115 | whenever the worker is in a function, a thread_start has begun before, and it is the function of the pool that the latest one was given |
| Handshake.CanStart | src/lib/utils/tpool.c:113-120 | at rest a thread_start for any pool can begin, and it leaves that pool in the thread |
| Handshake.CanStop | src/lib/utils/tpool.c:100-103 | after a thread_start a thread_stop can begin; it leaves the pool alone |
| Handshake.MayReturnOrWake | src/lib/utils/tpool.c:92-92 | a function may return, and a sleeper may wake, at any time |
| Handshake.PoolChangesOnlyWhenStopped | src/lib/utils/tpool.c:115-115 | the pool of a thread changes only where a thread_start begins, to the pool it is given, and the worker is out of the function then |
| Handshake.NeverBothAsleep | src/lib/utils/futex.c:73-109 | controller and worker are never both asleep on the condition variable |
| Handshake.QuietStepIsCloser | src/lib/utils/tpool.c:72-127 | every step towards the end of a command brings it closer |
| Handshake.QuietStepsEnd | src/lib/utils/tpool.c:72-127 | such steps cannot go on for ever |
| Handshake.QuietEndIsRest | src/lib/utils/tpool.c:72-127 | they stop only when the command is over: after a start with the worker in the function of its pool, after a stop with the worker asleep |
| Handshake.StartRunsItsPool | src/lib/utils/tpool.c:113-127 | however a thread_start for a pool goes on, it ends with the worker in the function of that pool |
| Handshake.StopPutsToSleep | src/lib/utils/tpool.c:100-107 | however a thread_stop goes on, it ends with the worker asleep |
| Tpool.Tpool.constructor | src/lib/utils/tpool.c:296-333 | at first no pool lists a thread and no thread runs, and njobs is the number of pools in use |
| Tpool.Tpool.ThreadStart | src/lib/utils/tpool.c:113-127 | the thread becomes the head of the list of the pool and runs; no other list changes |
| Tpool.Tpool.ThreadStop | src/lib/utils/tpool.c:100-111 | the head leaves the list of its pool and stops; no other list changes |
| Tpool.Tpool.Assign | src/lib/utils/tpool.c:146-156 | an empty pool gets the first idle threads, up to its maximum; no other list changes |
| Tpool.Tpool.Steal | src/lib/utils/tpool.c:157-177 | with no thread available no list changes; the code follows a null pointer iff the first pool that has not got exactly one thread is empty |
| Tpool.Tpool.Begin | src/lib/utils/tpool.c:137-183 | the choice between the two, and one more job counted |
| Tpool.Tpool.Start | src/lib/utils/tpool.c:185-208 | the first pool without threads is used and returned, or EAGAIN with nothing changed when there is none; while njobs is the number of pools in use no thread is stolen, and it stays that number iff the pool got a thread |
| Tpool.NoStealing | src/lib/utils/tpool.c:143-146 | while njobs is the number of pools in use and a pool is empty, threads count as available |
| Tpool.SameIdAgain | src/lib/utils/tpool.c:189-202 | a pool is given out again by the next start iff this one asked for no thread or found none idle |
| Tpool.FirstIdleCount | src/lib/utils/tpool.c:146-156 | a start gets the smaller of what it asks for and the number of idle threads |
| Tpool.FirstIdleMembers | src/lib/utils/tpool.c:146-156 | a thread is taken iff it is idle and fewer idle ones than asked for come before it |
| Tpool.FirstIdleIsFirst | src/lib/utils/tpool.c:146-156 | no idle thread is passed over for a later one |
| Tpool.Tpool.Redistribute | src/lib/utils/tpool.c:220-260 | idle threads are dealt in turn to the pools that have some and want more; at the end no thread is idle or every non-empty pool is full |
| Tpool.DealtFairly | src/lib/utils/tpool.c:220-260 | an empty pool gets nothing and no pool more than its maximum; a pool with room left is at most one thread behind any other, and not behind a later one |
| Tpool.Tpool.Stop | src/lib/utils/tpool.c:262-282 | the pool is emptied and stays empty, no other pool loses a thread, the idle threads are shared out; njobs stays the number of pools in use when the pool was in use; EINVAL with nothing changed for an id out of range |
| Tpool.ListedOnce | src/lib/utils/tpool.c:34-55 | a thread runs iff it is listed, by one pool only and once; lists have no cycle |
| Mt64.TemperIsBijective | src/lib/crypto/mt64.c:104-108 | the tempering is a bijection on 64-bit words, with the stated inverse |
| Mt64.SeedingUndone | src/lib/crypto/mt64.c:48-63 | the seed is the first element, and each of the next 311 gives back the one before it: its number subtracted and the multiplier divided out, it is that element with its upper two bits folded in |
| Mt64.TwistUndone | src/lib/crypto/mt64.c:89-90 | the word that the twist contributes gives back the upper 33 bits of the one element and the lower 31 of the next |
| Mt64.BlockUndone | src/lib/crypto/mt64.c:88-99 | elements k + 312 and k + 156 of the recurrence give back those bits of elements k and k + 1 |
| Mt64.Mt64.Seed | src/lib/crypto/mt64.c:48-63 | the array holds the first 312 elements of the recurrence |
| Mt64.Mt64.NextBlock | src/lib/crypto/mt64.c:88-99 | the three in-place loops over the half-overwritten array produce the next 312 elements |
| Mt64.Mt64.Rand | src/lib/crypto/mt64.c:75-111 | the n-th number after seeding is the tempered element n + 312 of the recurrence, across all block boundaries; a generator never seeded behaves as seeded with 5489 |
| Mt64.Mt64.RandN | src/lib/crypto/mt64.c:121-128 | the buffer gets the next numbers in order |
| Mbuf.Mbufs.Alloc | src/lib/ws/mbuf.c:23-55 | the first free slot after the cursor gets the message byte for byte: all slots from the cursor up to it, around the end, are in use; no queue changes; too long a message and no free slot are told apart |
| Mbuf.Mbufs.Enqueue | src/lib/ws/mbuf.c:57-70 | the message goes to the end of its queue, no other queue changes, and the slots stay in order iff the message is not empty |
| Mbuf.Mbufs.Link | src/lib/ws/mbuf.c:57-70 | the walk ends at the last slot, which alone is changed; an empty queue gets a head |
| Mbuf.Mbufs.Pop | src/lib/ws/mbuf.c:72-90 | the first message is copied byte for byte and leaves the queue; with too small a buffer nothing changes and -1 is returned |
| Mbuf.Mbufs.Send | src/lib/ws/ws.c:438-446 | every message, be it empty or not, is appended byte for byte iff it is short enough and a slot is free; the slots stay in order iff it is not empty |
| Mbuf.NextMessageIntrudes | src/lib/ws/mbuf.c:34-52 | after an empty message is queued, the next message is filled into its slot and shows up in that queue |
| Fragments.Conn.Finish | src/lib/ws/ws.c:197-217 | the collected message with a final nil byte joins the queue iff a slot is free; a full buffer is overrun by the nil byte |
| Fragments.Conn.Fragment | src/lib/ws/ws.c:224-259 | fragments are collected in order and nothing is queued before the last; what is queued is their concatenation with a nil byte; too large a message changes nothing |
| Mbuf.SearchFinds | src/lib/ws/mbuf.c:34-47 | from any cursor a free slot is found iff there is one |
| Mbuf.SearchIsFirst | src/lib/ws/mbuf.c:34-47 | the slots from the cursor up to the one found, around the end, are all in use |
| Mbuf.FoundAgainIffEmpty | src/lib/ws/mbuf.c:36-52 | the slot just filled is found again iff the message was empty |
| Mbuf.FillInv | src/lib/ws/mbuf.c:50-52 | filling a free slot changes no queue, so a queued slot is never handed out |
| Mbuf.JoinInv | src/lib/ws/mbuf.c:57-70 | linking a slot to the end appends its message to one queue and leaves the others; a slot is in one place of one queue |
| Mbuf.LeaveInv | src/lib/ws/mbuf.c:82-86 | unlinking the head removes the first message of one queue and frees the slot |
| Decimal.StrNRev | src/lib/utils/strrev.c:14-28 | the l bytes are reversed in place, all others stay |
| Decimal.ExchangeBytes | src/lib/utils/strrev.c:24-26 | three exclusive-ors exchange two different bytes |
| Decimal.U64Str | src/lib/utils/u64str.c:17-29 | the decimal digits of the number, none for 0, and their count |
| Decimal.ParseDigits | src/lib/utils/u64str.c:17-29 | parsing the digits gives the number back; they are a numeral without leading zero |
| Decimal.DigitsParse | src/lib/utils/u64str.c:17-29 | every numeral without leading zero is the text of the number it stands for |
| Decimal.DigitAt | src/lib/utils/u64str.c:21-24 | the digit at each place is the character of that decimal digit of the number |
| Decimal.DigitCount | src/lib/utils/u64str.c:17-29 | a number has at most n digits iff it is below 10^n |
| Decimal.WordDigits | src/lib/utils/u64str.c:17-29 | a 64-bit number has at most 20 digits |
| Decimal.MkU64Str | src/lib/chals/mku64str.c:14-26 | the texts of all numbers one after the other and a nil byte, inside a buffer of the size of sortlist_resize |
| Decimal.ConcatenatedOne | src/lib/chals/mku64str.c:19-21 | the text of one number is its digits |
| Decimal.ConcatenatedSplits | src/lib/chals/mku64str.c:19-21 | the text of two lists one after the other is the text of the first followed by that of the second |
| Decimal.ConcatenatedFits | src/lib/chals/sortlist.c:146-146 | the text of n numbers has at most 20 n characters |
| Nonce.Counter.GetNonce | src/lib/chals/getnonce.c:17-27 | one call advances the counter by 3917, modulo 2^64, and gives the nonce of the new value: inside the range, and as far above min as the counter says but for multiples of the width |
| Nonce.NonceResidue | src/lib/chals/getnonce.c:23-23 | there is one such number in the range |
| Nonce.LaterAdds | src/lib/chals/getnonce.c:22-22 | ticks add up, wraps included, so k calls are k ticks whoever makes them |
| Nonce.SameNonce | src/lib/chals/getnonce.c:22-23 | exactly when two draws k ticks apart give the same nonce, however often the counter wraps |
| Nonce.DrawsDiffer | src/lib/chals/getnonce.c:17-27 | fewer ticks apart than the range is wide, with no wrap in between, two draws differ |
| Nonce.DrawsDifferIffCoprime | src/lib/chals/getnonce.c:17-27 | and that holds for all such draws iff the step and the width have no common factor |
| Nonce.StepIsPrime | src/lib/config.h:24-24 | the step 3917 has no factor but itself |
| Nonce.DrawsDifferOverWrap | src/lib/chals/getnonce.c:17-27 | with wraps it holds for all draws iff the width divides 2^64 as well |
| Nonce.DrawsCoverIff | src/lib/chals/getnonce.c:17-27 | as many draws as the range is wide give every nonce of the range iff the counter does not wrap among them or the width divides 2^64 |
| Nonce.MiningWidthIsCoprime | src/mine.c:303-313 | the step and the widths of the solvers' ranges have no common factor, and as many draws wrap once at most |
| Nonce.MiningDrawsOverWrap | src/mine.c:303-313 | those widths do not divide 2^64, and two draws of a solver over a wrap can agree |
| Nonce.RangesPartition | src/mine.c:303-313 | every nonce from NONCEMIN to NONCEMAX belongs to the range of exactly one solver |

## Left out

- Tpool.Tpool.Steal: a null pointer followed is a result, after which nothing is claimed.
- Tpool.Tpool.constructor: the number of processors is a parameter; failing allocations, failing thread creation and TP_MINTHREADS are not modelled, nor is `exit_tpool`.
- Tpool.Tpool.Round: the two nested loops of `redistribute_threads` are two methods; pools and threads are records in arrays rather than linked objects.
- HeapSort.HeapSort64: asks for at least one element, as the C code does; on none its counter would wrap.
- SmoothSort.SmoothSort64: asks for at least one element, as the C code does; p is unbounded (see SmoothWord.WordFits) and c is an int whose -1 stands for the wrapped size_t.
- MergeSort.MergeSort64: indices are unbounded; 2 * i and j + 2 * i cannot wrap for arrays of 8-byte elements that fit a 64-bit address space.
- Challenge.SortList: the part of the workspace in use is an array of its own; growing the workspace is not modelled. The `SL_QUICKSORT` branch calls the C library and is left out.
- Challenge.ShortestPath: the random numbers are a finite sequence and running out of them is a failure, so the placement loops end if the numbers suffice and are not claimed to end otherwise.
- Challenge.SolveShortestPath: the numbers are drawn before the grid is made instead of one by one.
- ShortPath.Search: the text is an unbounded sequence; that it fits the buffer `sol`, and growing the cells and the grid, are not modelled. Labels are unbounded ints.
- PathQueue.Cell.constructor: the cells are separate objects with a ghost number in place of one C array, and a queue never holds the same cell twice.
- Futex: sequentially consistent steps; weak memory ordering is not modelled. The number of sleepers woken is one, as the code asks.
- Handshake: the lock is the abstract one that Futex.RefinesLock justifies, with one controller per thread; the counter of the condition variable does not wrap, its mutex is set once so EINVAL cannot happen, and each call of the pool's function is taken to return.
- Mbuf: both panics are results rather than the end of the program; calls are taken one at a time, though `mbuf` is called before the mutex of ws.c is taken; a slot lost by `ws_send` when its connection has gone (ws.c:444) is not modelled.
- Mbuf.Mbufs.Enqueue: asks for a slot that `mbuf` has just filled, as its callers do.
- Mbuf.Mbufs.Pop: is stated for slots in order, which they are until an empty message is queued.
- Fragments.Conn.Fragment: after a panic or an overrun nothing is claimed; `size_t` sums of lengths are unbounded.
- Nonce.DrawsDifferOverWrap: is stated, like Nonce.DrawsCoverIff, for ranges no wider than 2^64 / 3917, in which as many draws as the range is wide wrap once at most.
- XorSwap.Xor: exclusive-or is defined bit by bit on integers below 2^64; Mt64 uses 64-bit vectors.
- Mt64: the shared default state used for a null pointer is an object like any other.
- Seeds, hashes and wallets (mkseed, sha256, rsa, wallet): thin wrappers around OpenSSL.
- Network, event loop, parsing and the command line (ws.c, ca, mine.c, register.c, main.c, parse.c): plumbing over libraries that are not part of this model.
- strlcpy, reallocarray, bin2hex, hex2bin and printf helpers: only easy members.
