# AoC_Core in Dafny

A model of the reusable core of the AoC_Core library: its graph searches
(A*, Dijkstra, breadth-first search, each in the current version under
`Core/` and the older version at the repository root), the keyed priority
queue `PriorityDictionary`, the IntCode interpreters, the galloping binary
searches, the combination enumerators, the sequence helpers, the
non-empty list, the grids, the edge-list graph builder, and the integer
geometry of points, directions, cubes and cuboids.

The searches work on an implicit graph given by an expander callback,
modelled as a total function `N -> seq<(N, nat)>` (or `N -> seq<N>` for the
breadth-first search, whose steps all count 1).  Every record a search keeps
goes into an arena, and a record's predecessor is its arena index, so
`GetHistory` is "walk the indices back to the origin" and a path's steps
are that walk reversed.  The C5 interval heap is modelled by the class
`IntervalHeaps.IntervalHeap`: a map from opaque handles to items, with a
rank function standing for the comparer.

Modules, one per file:

| file | module | models |
|---|---|---|
| wrappers.dfy | Wrappers, IntWidths | error kinds for the exceptions; 32/64-bit wrap-around, C# division |
| graphs.dfy | Graphs | walks, closed node sets, the combiner constructors |
| interval_heap.dfy | IntervalHeaps | the C5 interval heap used by the searches |
| search_arena.dfy | SearchArena | predecessor arena, path reconstruction, what a search promises |
| astar.dfy | AStar | Core/AStar.cs and AStar.cs |
| dijkstra.dfy | Dijkstra | Core/Dijkstra.cs |
| dijkstra_legacy.dfy | LegacyDijkstra | Dijkstra.cs |
| bfs.dfy | BreadthFirst | Core/BreadthFirstSearch.cs and BreadthFirstSearch.cs |
| priority_dictionary.dfy | PriorityDictionaries | PriorityDictionary.cs |
| intcode_decoding.dfy | IntCodeDecoding | the instruction word decoding shared by the three IntCode machines |
| intcode.dfy | IntCode | Core/IntCodeComputer.cs |
| intcode_long.dfy | LongCode | LongCodeComputer.cs |
| intcode_array.dfy | ArrayIntCode | IntCodeComputer.cs |
| binary_search.dfy | BinarySearches | Core/BinarySearchInt.cs, BinarySearchLong.cs, BinarySearch.cs |
| combinations.dfy | Combinatorics | Core/Combinatorics/TupleCombinations.cs |
| sequences.dfy | Sequences | Core/LinqHelpers.cs: pairs, triples, runs, chunks, prefix sums, every k-th element, sub-sequence search |
| legacy_sequences.dfy | LegacySequences | LinqHelpers.cs: the older equality `Chunks` |
| dictionaries.dfy | Dictionaries | the dictionary helpers of Core/LinqHelpers.cs and LinqHelpers.cs |
| tuple_converters.dfy | TupleConverters | Core/TupleConverters.cs and `Diff` of LinqHelpers.cs |
| non_empty_list.dfy | NonEmptyLists | Core/NonEmptyList.cs |
| drawing.dfy | Drawing | the `System.Drawing` `Point` and `Size` the grid code uses |
| directions.dfy | Directions, LegacyDirections | Core/Direction.cs and Direction.cs |
| point_moves.dfy | PointMoves | Core/PointExtensions.cs |
| points.dfy | Point3D, Point4D | Core/Point3.cs, Point3.cs, Core/Point4.cs, Point4.cs |
| cuboids.dfy | Cuboids, Cubes | Core/Cuboid.cs and Core/Cube.cs |
| grids.dfy | Grids | Core/FiniteGrid2D.cs and Core/WrappingXGrid2D.cs |
| legacy_grid.dfy | LegacyGrids | FiniteGrid2D.cs |
| memo_grid.dfy | MemoGrids | Core/Grid.cs |
| edge_graph.dfy | EdgeGraphs | Core/Graph.cs |

What the searches promise (`SearchArena.Answer`): every reported path starts
at the origin, follows the expander step by step, ends at a target, has
length `|Steps| - 1` and the cost of its edges; no target is reported twice;
and when fewer than `minResults` paths come back the whole region reachable
from the origin was explored and every target in it was reported.  The
explored nodes always lie inside every expander-closed set that holds the
origin.

## Model

| member | source | states |
|---|---|---|
| Graphs.CombinedSpec | BreadthFirstSearch.cs:21-27 | a node is a successor under the combiner constructor iff some edge of the node combines to it; nulls are dropped, so there are at most as many successors as edges |
| Graphs.WeightedSpec | Dijkstra.cs:20-26 | under the weighted combiner constructor, (m, c) is a successor iff some edge of cost c combines to m |
| IntervalHeaps.ExtremesExist | Core/AStar.cs:82 | a non-empty queue has a least and a greatest entry under the rank |
| IntervalHeaps.IntervalHeap.Add | PriorityDictionary.cs:85 | the item is stored under a handle not in use before; nothing else changes |
| IntervalHeaps.IntervalHeap.AddAll | Dijkstra.cs:77 | every item is stored under its own new handle, in order; old entries are kept |
| IntervalHeaps.IntervalHeap.DeleteMin | Core/Dijkstra.cs:89 | removes and returns an entry of least rank and nothing else |
| IntervalHeaps.IntervalHeap.DeleteMax | PriorityDictionary.cs:49 | removes and returns an entry of greatest rank and nothing else |
| IntervalHeaps.IntervalHeap.FindMin | PriorityDictionary.cs:45 | returns an entry of least rank |
| IntervalHeaps.IntervalHeap.FindMax | PriorityDictionary.cs:55 | returns an entry of greatest rank |
| IntervalHeaps.IntervalHeap.Find | Core/AStar.cs:91 | finds the entry under a handle iff the handle is in use |
| IntervalHeaps.IntervalHeap.Replace | Core/AStar.cs:94 | replaces the entry under a handle, keeping the handle |
| IntervalHeaps.IntervalHeap.Delete | PriorityDictionary.cs:103 | removes exactly the entry under the handle |
| SearchArena.SingleNodePath | Core/AStar.cs:149-154 | the path of the origin alone: Steps = [origin], Length 0 |
| SearchArena.History | Core/AStar.cs:206-214 | the predecessor chain starts at the record's own node |
| SearchArena.PathOfIsWalk | Core/AStar.cs:156-163 | a record's path starts at the origin, ends at the record, has Length = \|Steps\| - 1, follows the expander and costs the sum of its edges |
| SearchArena.ItemsInClosed | Core/AStar.cs:126-132 | every node a search visits lies in every expander-closed set that holds the origin |
| SearchArena.ChildrenSpec | Core/Dijkstra.cs:103-106 | the successor records are exactly the unvisited successors, each a child of the popped record at its cost plus the edge cost |
| SearchArena.Child | Core/Dijkstra.cs:152-157 | a child record: its node, its predecessor's index, predecessor cost + edge cost |
| SearchArena.Complete | Core/Dijkstra.cs:92-101 | the reported records of a well-made arena are correct paths to distinct targets, exhaustive when the arena is closed |
| SearchArena.Conclude | Core/AStar.cs:110-135 | the final search state yields `Answer` |
| AStar.CompareTo | Core/AStar.cs:198-204 | null compares below; otherwise the sign follows the overall estimates Cost + Remaining |
| AStar.OverallEstimate | Core/AStar.cs:193 | never below the cost so far nor the remaining estimate; `CompareTo` and `Frontier.PopMinNode` state that the queue is ordered by it |
| AStar.RelaxKeepsLinked | Core/AStar.cs:86-102 | relaxing or inserting a successor keeps every queued record a genuine step from a popped record, carrying the heuristic of its node |
| AStar.PoliciesAgree | AStar.cs:65-80 | away from the origin, keeping the old Remaining (Core/AStar.cs:93) and taking the new heuristic (AStar.cs:105) relax the same way |
| AStar.Frontier.QueueNewNode | Core/AStar.cs:74-79 | queues the record under a new handle and records the handle in `openSet` |
| AStar.Frontier.PopMinNode | Core/AStar.cs:80-85 | removes a record of least overall estimate from the queue and its node from `openSet` |
| AStar.Frontier.QueueOrUpdateNode | Core/AStar.cs:86-102 | an open node is replaced under the same handle only by a strictly cheaper route; an unseen node is queued with its heuristic |
| AStar.AStarSearch.Legacy | AStar.cs:19-24 | the older search, which relaxes with the new record's heuristic and gives the origin Remaining 0 |
| AStar.AStarSearch.OriginNode | AStar.cs:163-168 | the origin record has cost 0 and no predecessor; the older constructor ignores `remainder` |
| AStar.AStarSearch.SearchStep | Core/AStar.cs:110-132 | one turn: the popped record has the least estimate, is visited and reported once, and its unvisited successors are relaxed |
| AStar.AStarSearch.FindAll | Core/AStar.cs:54-136 | a null heuristic is rejected; otherwise the result satisfies `Answer`, every path is a cheapest route when the heuristic is consistent, and the explored nodes lie in every closed set holding the origin |
| AStar.AStarSearch.FindFirst | Core/AStar.cs:36-43 | the first result of `FindAll` with 1, a correct path, and a cheapest one under a consistent heuristic; none only when no reachable node is a target |
| Dijkstra.CompareTo | Core/Dijkstra.cs:164-169 | null compares below; otherwise the sign follows the costs |
| Dijkstra.ZeroSeedsSpec | Core/Dijkstra.cs:58 | the cost-0 seeds: none iff no seed costs 0, two or more iff two seeds cost 0 |
| Dijkstra.SingleOrigin | Core/Dijkstra.cs:57-58 | `Single` succeeds iff exactly one seed costs 0, and yields its node |
| Dijkstra.PositiveSeeds | Core/Dijkstra.cs:63 | exactly the seeds of positive cost |
| Dijkstra.DijkstraSearch.PopUnvisited | Core/Dijkstra.cs:85-90 | deletes least entries until one is unvisited; that one has least cost among the unvisited entries; the deleted ones were visited; an empty queue fails |
| Dijkstra.DijkstraSearch.SearchStep | Core/Dijkstra.cs:81-113 | one turn: the popped record is unvisited and cheapest, is visited and reported once, and its unvisited successors are queued |
| Dijkstra.DijkstraSearch.Run | Core/Dijkstra.cs:48-117 | with one seed the origin is queued; with several the origin is visited unreported and the positive seeds are its children; the result satisfies `Answer` over that seeded graph |
| Dijkstra.DijkstraSearch.FindAllSeeded | Core/Dijkstra.cs:48-117 | as written: a bad seed list is an invalid operation; `NoSuchItem` comes only once the whole region was explored with fewer than `minResults` paths found; otherwise `Answer`, every path cheapest and the paths cheapest first |
| Dijkstra.DijkstraSearch.FindAll | Core/Dijkstra.cs:37-45 | as written, from the seed (origin, 0): out of fuel, `NoSuchItem` only once the region is exhausted, or `Answer` with cheapest paths in cost order |
| Dijkstra.DijkstraSearch.FindFirst | Core/Dijkstra.cs:29-35 | as written: a correct and cheapest path; no path, or `NoSuchItem` when stale entries remain, only when the closed explored region holds no target |
| LegacyDijkstra.AddCost | Dijkstra.cs:120-125 | `uint` addition: below 2^32, congruent to the sum, equal to it without overflow |
| LegacyDijkstra.WrapPathOfIsWalk | Dijkstra.cs:99-104 | a record's path starts at the origin and follows the expander; its cost is the sum of its edge costs modulo 2^32 |
| LegacyDijkstra.ExpandKeepsAll | Dijkstra.cs:72-75 | the visited set holds only the seed object, which is older than every successor object, so no successor is filtered out |
| LegacyDijkstra.TargetPathsSpec | Dijkstra.cs:79-81 | every path the `foreach` adds is sound, and every target among the successors gets one |
| LegacyDijkstra.DijkstraSearch.Combining | Dijkstra.cs:20-26 | the expander is the weighted combiner construction |
| LegacyDijkstra.DijkstraSearch.ReportTargets | Dijkstra.cs:79-81 | appends one path per generated target, in order |
| LegacyDijkstra.DijkstraSearch.SearchStep | Dijkstra.cs:65-85 | one turn: the popped record has least cost, all its successors are queued, targets among them are reported, and the stop test is `results >= minResults` |
| LegacyDijkstra.DijkstraSearch.FindAll | Dijkstra.cs:47-88 | every reported path is sound, the origin comes first when it is a target, and an emptied queue means the explored region is closed and all its targets reported |
| LegacyDijkstra.DijkstraSearch.FindFirst | Dijkstra.cs:38-44 | a sound path, the origin's when it is a target, or none only when some closed region holding the origin has no target |
| BreadthFirst.Units | Core/BreadthFirstSearch.cs:177-184 | every step of the breadth-first search counts 1 |
| BreadthFirst.DistanceIsLength | Core/BreadthFirstSearch.cs:239-261 | Distance(child) = Distance(parent) + 1, so a record's Distance is its path's Length = \|Steps\| - 1 |
| BreadthFirst.DedupeDistinct | Core/BreadthFirstSearch.cs:84-87 | the next layer holds distinct, unvisited nodes |
| BreadthFirst.DedupeFirst | Core/BreadthFirstSearch.cs:216-237 | deduplication by node keeps the first record of each node |
| BreadthFirst.DedupeCovers | Core/BreadthFirstSearch.cs:84-87 | every unvisited successor is in the next layer |
| BreadthFirst.ExpandSpec | Core/BreadthFirstSearch.cs:177-184 | `SequentialExpand` yields exactly the unvisited successors of the layer, each a child of its parent |
| BreadthFirst.ExpandTupleFlatten | Core/BreadthFirstSearch.cs:186-193 | the tuple form flattens to the same records |
| BreadthFirst.LayeredOrder | Core/BreadthFirstSearch.cs:56-104 | results come by nondecreasing Length, each a shortest route, and no nearer target is skipped |
| BreadthFirst.ReachableExactly | Core/BreadthFirstSearch.cs:141-165 | the listed nodes are exactly the reachable ones |
| BreadthFirst.BreadthFirstSearch.Combining | BreadthFirstSearch.cs:21-27 | the expander is the combiner construction |
| BreadthFirst.BreadthFirstSearch.FindAll2 | Core/BreadthFirstSearch.cs:56-104 | a null predicate is rejected; the origin's path comes first when it is a target; results are correct, shortest and in layer order; a short list means exhaustive; each node is expanded once |
| BreadthFirst.BreadthFirstSearch.FindAll | Core/BreadthFirstSearch.cs:47-54 | `FindAll2` with the predicate present |
| BreadthFirst.BreadthFirstSearch.FindFirst | Core/BreadthFirstSearch.cs:29-36 | a shortest correct path, or none only when no route from the origin reaches a target |
| BreadthFirst.BreadthFirstSearch.FindLeafs | Core/BreadthFirstSearch.cs:107-140 | reports exactly the visited nodes whose expansion yields no unvisited successor |
| BreadthFirst.BreadthFirstSearch.FindReachable | Core/BreadthFirstSearch.cs:141-165 | every reachable node exactly once, the origin first |
| PriorityDictionaries.CompareByValue | PriorityDictionary.cs:117-128 | entries compare by value alone |
| PriorityDictionaries.PriorityDictionary.Count | PriorityDictionary.cs:80 | the dictionary, the handle table and the heap have the same size |
| PriorityDictionaries.PriorityDictionary.Get | PriorityDictionary.cs:60 | the stored value, or `KeyNotFoundException` |
| PriorityDictionaries.PriorityDictionary.PeekMin | PriorityDictionary.cs:45 | an entry of least value, contents unchanged |
| PriorityDictionaries.PriorityDictionary.PeekMax | PriorityDictionary.cs:55 | an entry of greatest value, contents unchanged |
| PriorityDictionaries.PriorityDictionary.PopMin | PriorityDictionary.cs:37-43 | removes an entry of least value from all three structures |
| PriorityDictionaries.PriorityDictionary.PopMax | PriorityDictionary.cs:47-53 | removes an entry of greatest value from all three structures |
| PriorityDictionaries.PriorityDictionary.Add | PriorityDictionary.cs:82-88 | a new key enters all three structures; a duplicate throws after the heap insert, which leaves an orphan pair in the heap and the dictionary invalid (see Findings) |
| PriorityDictionaries.PriorityDictionary.AddGuarded | PriorityDictionary.cs:82-88 | as evidently intended: a duplicate key is rejected before the heap is touched, so the three structures stay in step and a rejected Add changes nothing |
| PriorityDictionaries.DuplicateAddScenario | PriorityDictionary.cs:84-87 | adding key 1 twice throws on the second Add and leaves two pairs in the heap beside one key in the dictionary; the guarded Add leaves one of each |
| PriorityDictionaries.PriorityDictionary.Set | PriorityDictionary.cs:62-73 | an existing key keeps its handle and gets the new value; a new key is added |
| PriorityDictionaries.PriorityDictionary.Remove | PriorityDictionary.cs:101-106 | deletes the key everywhere; a missing key throws |
| PriorityDictionaries.PriorityDictionary.Clear | PriorityDictionary.cs:89-95 | all three structures end empty |
| IntCodeDecoding.Decode | Core/IntCodeComputer.cs:160-173 | the decoding loop yields `Decoded`: opcode = code % 100 and mode i = code / 100 / 10^i % 10, in C#'s truncating arithmetic |
| IntCodeDecoding.DecodeEncode | Core/IntCodeComputer.cs:160-173 | a word built from an opcode below 100 and four mode digits decodes to exactly that opcode and those modes |
| IntCodeDecoding.ModeNumberDigit | Core/IntCodeComputer.cs:168-172 | digit i of the mode number, taken by repeated division, is mode i |
| IntCodeDecoding.NegativeWordHasNoOpcode | Core/IntCodeComputer.cs:164 | a negative word decodes to an opcode of at most 0, which names no instruction |
| IntCode.InitialMemory | Core/IntCodeComputer.cs:25-29 | the new machine is well formed, cell i holds `initialState[i]`, and `Memory` lists the initial state in order |
| IntCode.OverriddenCells | Core/IntCodeComputer.cs:36-43 | after overrides with distinct keys each overridden cell holds its pair's value and every other cell is unchanged |
| IntCode.OverriddenValid | Core/IntCodeComputer.cs:36-43 | overrides keep the machine well formed; overrides of existing cells keep the order of `Memory` |
| IntCode.PutMemory | Core/IntCodeComputer.cs:11 | writing an existing cell changes that entry of `Memory` in place; writing a new cell appends it |
| IntCode.PutCells | Core/IntCodeComputer.cs:135 | a write changes exactly the written cell |
| IntCode.TouchCells | Core/IntCodeComputer.cs:120 | `GetOrAdd(key, 0)` creates the cell and changes no value |
| IntCode.NextArg | Core/IntCodeComputer.cs:117-129 | reads the next word and advances IP; position, immediate and relative modes give the operand, any other mode is an error |
| IntCode.EvalPairReads | Core/IntCodeComputer.cs:138-139 | both operands come, left to right, from the two words after the opcode |
| IntCode.BinaryEffect | Core/IntCodeComputer.cs:131-136 | the ALU result goes to the raw address in the third word, whatever its mode; IP moves past it; no other cell changes |
| IntCode.InputEffect | Core/IntCodeComputer.cs:141-145 | Load writes the dequeued input to the raw address in its word; an empty queue throws `InvalidOperationException` |
| IntCode.ActionEffect | Core/IntCodeComputer.cs:147-148 | Store appends its operand to the outputs; SetRelativeBase adds it to the relative base with 32-bit wrap-around |
| IntCode.JumpEffect | Core/IntCodeComputer.cs:91-96 | IP becomes the second operand iff the first is nonzero (JmpIfTrue) or zero (JmpIfFalse), else it moves past both |
| IntCode.StepArithmetic | Core/IntCodeComputer.cs:71-83 | one Add/Mul/LessThan/Equals step: IP + 4 and exactly the destination cell changes to the ALU result |
| IntCode.StepInput | Core/IntCodeComputer.cs:84-86 | one Load step: IP + 2, the first input is consumed into the destination, or the step throws on an empty queue |
| IntCode.StepAction | Core/IntCodeComputer.cs:87-89 | one Store or SetRelativeBase step: IP + 2, outputs or relative base updated, memory values unchanged |
| IntCode.StepJump | Core/IntCodeComputer.cs:91-96 | one jump step: IP is the target when the condition holds and IP + 3 otherwise |
| IntCode.StepHalt | Core/IntCodeComputer.cs:109-110 | Halt only fetches: the step count and IP advance and nothing else changes |
| IntCode.StepUnsetFetch | Core/IntCodeComputer.cs:151 | fetching an opcode from an unset address throws `KeyNotFoundException` |
| IntCode.StepUnknownOpcode | Core/IntCodeComputer.cs:111-112 | an unknown opcode throws `InvalidOperationException` |
| IntCode.StepUnknownMode | Core/IntCodeComputer.cs:127 | an unknown mode on the first operand throws `InvalidOperationException` |
| IntCode.StepCounts | Core/IntCodeComputer.cs:73 | every step, Halt included, adds 1 to `StepCount` |
| IntCode.StepValid | Core/IntCodeComputer.cs:11-12 | a step keeps the machine well formed: the key list enumerates the memory map without repeats |
| IntCode.RunStepBound | Core/IntCodeComputer.cs:65-69 | `Run(n)` makes at most n steps, and ends early without an exception only after executing Halt |
| IntCode.RunStepsValid | Core/IntCodeComputer.cs:65-69 | running keeps the machine well formed |
| IntCode.RunUntilOutputResult | Core/IntCodeComputer.cs:56-62 | the loop returns null only after Halt, with the output queue unchanged; a value it returns was dequeued from the front of the queue right after a Store appended to it |
| IntCode.RunWithFirstOutput | Core/IntCodeComputer.cs:53-63 | from an empty output queue, a value `RunWith` returns leaves the queue empty again: it is the one output the run produced |
| IntCode.IntCodeComputer.constructor | Core/IntCodeComputer.cs:25-29 | the machine over the initial state |
| IntCode.IntCodeComputer.WithInput | Core/IntCodeComputer.cs:31-34 | the machine with the first input queued |
| IntCode.IntCodeComputer.WithOverride | Core/IntCodeComputer.cs:36-43 | the machine with the overrides applied in order |
| IntCode.IntCodeComputer.GetNextArg | Core/IntCodeComputer.cs:117-129 | updates the fields as `NextArg` says |
| IntCode.IntCodeComputer.ExecuteInstruction | Core/IntCodeComputer.cs:131-136 | updates the fields as the binary instruction does |
| IntCode.IntCodeComputer.ExecuteInput | Core/IntCodeComputer.cs:141-145 | updates the fields as Load does |
| IntCode.IntCodeComputer.ExecuteAction | Core/IntCodeComputer.cs:147-148 | updates the fields as Store or SetRelativeBase does |
| IntCode.IntCodeComputer.ExecuteJump | Core/IntCodeComputer.cs:91-96 | updates the fields as the jump does |
| IntCode.IntCodeComputer.ExecuteStep | Core/IntCodeComputer.cs:71-114 | the new state and outcome are those of `Step` |
| IntCode.IntCodeComputer.Run | Core/IntCodeComputer.cs:65-69 | the new state and outcome are those of `RunSteps` |
| IntCode.IntCodeComputer.RunWith | Core/IntCodeComputer.cs:53-63 | the new state and result are those of `RunWithInput` |
| LongCode.NextArg | LongCodeComputer.cs:115-127 | the word is narrowed to `int` before use; modes as in the `int` machine |
| LongCode.ImmediateNarrowed | LongCodeComputer.cs:118-123 | an immediate operand is its word wrapped to 32 bits, and equals the word only when it fits |
| LongCode.NextAddr | LongCodeComputer.cs:128-139 | the write address is the word (position) or relative base + word (relative); any other mode throws `InvalidOperationException` |
| LongCode.Checked64 | LongCodeComputer.cs:77-80 | a result is kept iff it fits in `long`, otherwise `OverflowException` |
| LongCode.CheckedArithmetic | LongCodeComputer.cs:76-81 | Add and Mul are exact when the result fits in `long` and throw `OverflowException` otherwise |
| LongCode.CompleteCells | LongCodeComputer.cs:141-146 | the result goes to the write address of the next word; an immediate write mode throws |
| LongCode.BinaryEffect | LongCodeComputer.cs:141-149 | the operands, then the checked result to the write address; overflow throws before the address is read |
| LongCode.InputEffect | LongCodeComputer.cs:151-155 | the write address is taken first, then the input is dequeued into it |
| LongCode.ActionEffect | LongCodeComputer.cs:103-105 | SetRelativeBase narrows `relativeBase + a` to `int`; Store appends its operand |
| LongCode.JumpEffect | LongCodeComputer.cs:89-94 | a taken jump sets IP to the second operand narrowed to `int` |
| LongCode.StepArithmetic | LongCodeComputer.cs:69-81 | one arithmetic step, with overflow and write-mode errors |
| LongCode.StepInput | LongCodeComputer.cs:82-84 | one Load step through the write address |
| LongCode.StepAction | LongCodeComputer.cs:85-87 | one Store or SetRelativeBase step |
| LongCode.StepJump | LongCodeComputer.cs:89-94 | one jump step |
| LongCode.StepHaltOrUnknown | LongCodeComputer.cs:107-111 | an unset fetch throws `KeyNotFoundException`, Halt only fetches, an unknown opcode throws |
| LongCode.StepValid | LongCodeComputer.cs:10-11 | a step keeps the machine well formed |
| LongCode.RunStepBound | LongCodeComputer.cs:63-67 | `Run(n)` makes at most n steps and ends early without an exception only at Halt |
| LongCode.RunUntilOutputResult | LongCodeComputer.cs:51-61 | the loop returns null only after Halt, with the output queue unchanged; a value it returns was dequeued from the front right after a Store appended to it |
| LongCode.LargeImmediateTruncated | LongCodeComputer.cs:118 | the program `104, 2^50, 99` outputs 0, not 2^50 |
| LongCode.WideOperandKeepsImmediates | LongCodeComputer.cs:118-126 | with the word kept as a `long`, immediates survive, and words that fit in `int` read as before |
| LongCode.LongCodeComputer.GetNextAddr | LongCodeComputer.cs:128-139 | updates the fields as `NextAddr` says |
| LongCode.LongCodeComputer.ExecuteStep | LongCodeComputer.cs:69-112 | the new state and outcome are those of `Step` |
| LongCode.LongCodeComputer.Run | LongCodeComputer.cs:63-67 | the new state and outcome are those of `RunSteps` |
| LongCode.LongCodeComputer.RunWith | LongCodeComputer.cs:51-61 | the new state and result are those of `RunWithInput` |
| ArrayIntCode.OverriddenCells | IntCodeComputer.cs:22-28 | each override key holds its value and every other cell keeps the initial value |
| ArrayIntCode.NextArgReads | IntCodeComputer.cs:87-98 | an in-range word in mode 0 or 1 gives the cell it names or the word itself |
| ArrayIntCode.StepArithmetic | IntCodeComputer.cs:100-104 | the destination is read from the word after the opcode and the operands from the next two, with modes 1 and 2; an out-of-range destination throws |
| ArrayIntCode.StepUnknownMode | IntCodeComputer.cs:96 | an operand mode other than 0 and 1 throws |
| ArrayIntCode.StepInput | IntCodeComputer.cs:106-109 | Load stores `Inputs[_inputIdx++]`; an exhausted list throws `ArgumentOutOfRangeException` |
| ArrayIntCode.StepOutput | IntCodeComputer.cs:60-63 | Store outputs `Memory[Memory[IP]]`, ignoring its mode |
| ArrayIntCode.StepJump | IntCodeComputer.cs:65-70 | a jump sets IP to the second operand when its condition holds |
| ArrayIntCode.StepHalt | IntCodeComputer.cs:79-80 | Halt ends `Run` after the fetch |
| ArrayIntCode.StepOutsideMemory | IntCodeComputer.cs:112 | an IP outside the array throws `IndexOutOfRangeException` |
| ArrayIntCode.StepUnknownOpcode | IntCodeComputer.cs:81-82 | an unknown opcode throws `InvalidOperationException` |
| ArrayIntCode.RunStepsFollows | IntCodeComputer.cs:9 | the memory never grows or shrinks, the input list is untouched, its index and the outputs only grow |
| ArrayIntCode.RunStepBound | IntCodeComputer.cs:42-48 | `Run(n)` makes at most n passes, and a run still going at the end made exactly n |
| ArrayIntCode.RunHalted | IntCodeComputer.cs:79-80 | a run that reports Halt stopped right after fetching a Halt word |
| ArrayIntCode.SquareProgramAsWritten | IntCodeComputer.cs:101 | the program `2, 4, 4, 5, 99, 0` overwrites its Halt and throws on the second pass |
| ArrayIntCode.OperandsFirstArithmetic | IntCodeComputer.cs:100-104 | with the operands read first, the destination is the third word after the opcode |
| ArrayIntCode.SquareProgramOperandsFirst | IntCodeComputer.cs:101 | read operands-first, the same program stores 99 × 99 = 9801 in cell 5 |
| ArrayIntCode.ArrayIntCodeComputer.constructor | IntCodeComputer.cs:17-20 | the memory is a fresh copy of the initial array |
| ArrayIntCode.ArrayIntCodeComputer.WithOverride | IntCodeComputer.cs:22-28 | a fresh copy with the overrides written into it |
| ArrayIntCode.ArrayIntCodeComputer.RunOnce | IntCodeComputer.cs:46-83 | one pass of the loop updates the array and fields as `Step` says |
| ArrayIntCode.ArrayIntCodeComputer.Run | IntCodeComputer.cs:42-85 | the new state is that of `RunSteps`, and an exception is its error |
| BinarySearches.NarrowIsWrap | Core/BinarySearchInt.cs:30 | `Narrow` is the 32- or 64-bit two's-complement wrap-around of a sum of two values of the type |
| BinarySearches.BisectStep | Core/BinarySearchInt.cs:39-46 | one round: both halves have a smaller gap, and the bracket bisects as the half its probe picks |
| BinarySearches.BisectGap | Core/BinarySearchInt.cs:37-48 | bisection ends with an unchecked gap of at most 1 |
| BinarySearches.BisectEnds | Core/BinarySearchInt.cs:41-45 | the lower end is the given one or a probe that did not match, the upper end the given one or a probe that matched |
| BinarySearches.BisectInside | Core/BinarySearchInt.cs:37-48 | on a bracket that does not wrap both ends stay inside it and end adjacent |
| BinarySearches.BisectFindsSwitch | Core/BinarySearchInt.cs:36-48 | with the lower end known false and the upper known true, on a predicate that switches once, bisection ends at the switch |
| BinarySearches.StepsizeValue | Core/BinarySearchInt.cs:29-31 | the stepsize after k doublings is 2^(k+1) while it fits, then the most negative value, then 0 |
| BinarySearches.GallopFound | Core/BinarySearchInt.cs:29-31 | a gallop that stops stops at the first matching probe |
| BinarySearches.GallopFirstMatch | Core/BinarySearchInt.cs:29-31 | the first matching probe is where the gallop stops |
| BinarySearches.GallopNotFound | Core/BinarySearchInt.cs:29-31 | a gallop that never stops tried every stepsize up to its wrap to 0, none matching |
| BinarySearches.GallopNoMatch | Core/BinarySearchInt.cs:29-31 | when no probe matches the gallop never stops |
| BinarySearches.GallopStep | Core/BinarySearchInt.cs:30-31 | a probe that does not match ends the gallop at stepsize 0 and otherwise passes it to the doubled stepsize |
| BinarySearches.StepsizeHalves | Core/BinarySearchInt.cs:29-31 | a positive stepsize is 2 on the first probe and twice the previous stepsize after it |
| BinarySearches.HalfStepIsDiv | Core/BinarySearchInt.cs:33 | the half step of the bracket is C#'s truncating `stepsize / 2` |
| BinarySearches.GallopBracket | Core/BinarySearchInt.cs:29-33 | the last probe matched, and the half-step probe did not unless no doubling happened |
| BinarySearches.OpenSearchBracket | Core/BinarySearchInt.cs:24-34 | as written: adjacent ends above the start, the upper matching, and the lower not matching unless the first probe start + 2 matched, when it is start + 1, never tested |
| BinarySearches.FirstSkipsStartPlusOne | Core/BinarySearchInt.cs:19 | `FindFirst` of x > 0 from 0 brackets (1, 2) and returns 2, though 1 matches |
| BinarySearches.LastSkipsStartPlusOne | Core/BinarySearchInt.cs:21 | `FindLast` of x < 1 from 0 brackets (1, 2) and returns 1, though 1 does not match |
| BinarySearches.LongSearchStepsizeWraps | BinarySearchLong.cs:28-30 | with the `int` stepsize no probe from a start in [0, 2^31] passes 2^32, so searching x > 2^32 never ends |
| BinarySearches.OpenSearchFixedFindsSwitch | Core/BinarySearchInt.cs:24-34 | corrected: adjacent ends, lower not matching, upper matching, and nothing from the start to the lower end matches on a predicate that switches once |
| BinarySearches.LongStepsizeFindsSwitch | BinarySearchLong.cs:28-32 | corrected with a `long` stepsize, searching x > 2^32 from 0 ends at (2^32, 2^32 + 1) |
| BinarySearches.SearchInterval | Core/BinarySearchInt.cs:37-48 | the bisection loop returns `Bisect` of its bracket |
| BinarySearches.SearchOpenInterval | Core/BinarySearchInt.cs:24-34 | a matching start throws `ArgumentOutOfRangeException`; otherwise the gallop and the bisection return `OpenSearch` |
| BinarySearches.BinarySearchInt.FindFirst | Core/BinarySearchInt.cs:19 | the upper end of the open search for `true` |
| BinarySearches.BinarySearchInt.FindFirstBetween | Core/BinarySearchInt.cs:20 | the upper end of the bisection of the caller's bracket, unchecked |
| BinarySearches.BinarySearchInt.FindLast | Core/BinarySearchInt.cs:21 | the lower end of the open search for `false` |
| BinarySearches.BinarySearchInt.FindLastBetween | Core/BinarySearchInt.cs:22 | the lower end of the bisection of the caller's bracket, unchecked |
| BinarySearches.BinarySearchLong.FindFirst | BinarySearchLong.cs:20 | the upper end of the open search over `long` with an `int` stepsize |
| BinarySearches.BinarySearchLong.FindLast | BinarySearchLong.cs:21 | the lower end of that search for `false` |
| BinarySearches.BinarySearch.FindFirst | BinarySearch.cs:15-39 | a matching start is returned at once; otherwise the upper end of the open search |
| TupleConverters.Diff32 | Core/TupleConverters.cs:9 | the unchecked `int` difference of a pair fits in `int` and added back to the first item gives the second |
| TupleConverters.Diff64 | Core/TupleConverters.cs:11 | the same for a `long` pair, modulo 2^64 |
| TupleConverters.DiffSeq32 | Core/TupleConverters.cs:15-16 | one difference per overlapping pair (none for fewer than two elements); each, added to its element, gives the next element |
| TupleConverters.DiffSeq64 | Core/TupleConverters.cs:17-18 | the same for `long` sequences |
| TupleConverters.Wrap32Diff | Core/TupleConverters.cs:9 | subtracting wrapped values and wrapping is the wrapped exact difference |
| TupleConverters.DiffUndoesCumulativeSum32 | Core/TupleConverters.cs:15-16 | differencing the (wrapped) running sums of `CumulativeSum` gives back the input after its first element |
| TupleConverters.ToTuple2 | Core/TupleConverters.cs:41 | succeeds exactly on lists of at least two elements; a shorter list is an index-out-of-range error |
| TupleConverters.ToTuple3 | Core/TupleConverters.cs:42 | succeeds exactly on lists of at least three elements; otherwise index out of range |
| TupleConverters.ToTuple4 | Core/TupleConverters.cs:43 | succeeds exactly on lists of at least four elements; otherwise index out of range |
| TupleConverters.TupleRoundTrip | Core/TupleConverters.cs:41-47 | a tuple read from its own elements followed by anything is that tuple, and a tuple read from a list is the list's prefix |
| Dictionaries.Dictionary.constructor | Core/LinqHelpers.cs:39 | the dictionary holds the given entries |
| Dictionaries.GetOrAdd | Core/LinqHelpers.cs:39-45 | a present key returns its value and leaves the dictionary as it was; a missing key gets `factory(key)`, which is stored and returned, and nothing else changes |
| Dictionaries.GetOrAddValue | Core/LinqHelpers.cs:48-54 | the same with a fixed default value for a missing key |
| Dictionaries.AddToList | Core/LinqHelpers.cs:57-63 | a present key's list gets the value appended; a missing key gets the one-element list; no other entry changes |
| Dictionaries.AddOrModify | Core/LinqHelpers.cs:67-73 | a present key's value is replaced by `modifier(value)`, a missing key gets `modifier(initValue)`; no other entry changes |
| Dictionaries.CountTwice | Core/LinqHelpers.cs:39-73 | counting with `AddOrModify(key, 0, c => c + 1)` raises that key's count by one and leaves other keys alone; two later `GetOrAdd` reads agree |
| MemoGrids.Grid2.constructor | Core/Grid.cs:10-23 | a new grid has null bounds, sits at the origin, keeps the callback and has an empty cache |
| MemoGrids.Grid2.Get | Core/Grid.cs:25-33 | a cached point returns its cached value and changes nothing; an uncached one returns the callback's value and caches it |
| MemoGrids.Grid2.Set | Core/Grid.cs:28-34 | the point's cached value becomes the written one and no other point changes |
| MemoGrids.ReadTwice | Core/Grid.cs:31-35 | a second read returns the first read's value, a first read of an uncached point is the callback's value, and a write is what the next read sees |
| MemoGrids.PopulatedScenario | Core.Test/GridTests.cs:16-29 | a new grid sits at the origin and with the callback `x + y` the cell (1, 1) reads 2 |
| LegacySequences.Chunks | LinqHelpers.cs:215-241 | the chunks are maximal runs of equal elements that concatenate to the input, none of them empty |
| LegacySequences.ChunkingsAgree | LinqHelpers.cs:215-241 | on a non-empty input the older and the current `Chunks` (Core/LinqHelpers.cs:252-275) agree; on an empty input the older yields nothing and the current one empty chunk |
| Drawing.Offset | Direction.cs:27 | `p + size` gives a point whose coordinates are `int` values (unchecked addition) |
| Drawing.OffsetBack | Direction.cs:27 | moving a point by a size and back by its negation returns the point, even across the wrap-around |
| Drawing.OffsetExact | Direction.cs:27 | without overflow the move is plain componentwise addition |
| Drawing.OffsetInjective | Direction.cs:27 | two sizes whose components differ by at most 2 move a point to the same place only when they are equal |
| Drawing.WrapNear | Direction.cs:27 | 32-bit wrap-around never identifies two values at most 2 apart |
| Drawing.Inflate | Core/FiniteGrid2D.cs:65 | when nothing overflows, inflating by `dx`, `dy` moves the right edge out by `dx` and the bottom edge by `dy` |
| Directions.ToSize | Core/Direction.cs:42-50 | a table lookup: exactly the four named directions have a size, each a unit step; any other value is a missing key |
| Directions.Rem4 | Core/Direction.cs:52-54 | C#'s `% 4`: the ordinary remainder for non-negative values, a remainder in (-4, 0] with the sign of the operand otherwise |
| Directions.Rem4IsRem | Core/Direction.cs:52-54 | `Rem4` is the general truncating C# remainder by 4 |
| Directions.TurnClockwiseNamed | Core/Direction.cs:52 | a named direction turned clockwise by a non-negative count is the named direction `times` steps on, modulo 4 |
| Directions.TurnClockwise | Core/Direction.cs:52 | a C# remainder by 4 (between -3 and 3) that is `times` steps on from the direction modulo 4 whenever the unchecked sum does not wrap; `TurnClockwiseNamed`, `TurnsCompose`, `FourTurns` and `NegativeTurn` build on it |
| Directions.TurnCounterClockwise | Core/Direction.cs:53 | a C# remainder by 4 that is `3 * times` steps on from the direction modulo 4 when nothing wraps; `TurnCounterClockwiseNamed` and `TurnBack` state that this is `times` steps back and undoes the clockwise turn |
| Directions.Opposite | Core/Direction.cs:54 | a named direction goes to the other named direction two steps on; `OppositeTwice` states that it is an involution and `ToSizeOpposite` that its size is the negated size |
| Directions.TurnCounterClockwiseNamed | Core/Direction.cs:53 | a counter-clockwise turn goes `times` steps back modulo 4 while `3 * times` fits in `int` |
| Directions.TurnsCompose | Core/Direction.cs:52 | turning by `a` and then by `b` is turning by `a + b` |
| Directions.FourTurns | Core/Direction.cs:52 | four clockwise quarter turns come back to the start |
| Directions.QuarterTurn | Core/Direction.cs:52 | a clockwise quarter turn goes to the next member, and from `Down` to `Left` |
| Directions.FullTurn | Core/Direction.cs:52-53 | a turn by four, either way, changes nothing |
| Directions.TurnBack | Core/Direction.cs:52-53 | the counter-clockwise turn undoes the clockwise turn by the same count, and the other way round |
| Directions.OppositeTwice | Core/Direction.cs:54 | the opposite of a named direction is another named direction whose opposite is the original |
| Directions.NegativeTurn | Core/Direction.cs:52 | a negative count can give a negative remainder, a value that names no direction |
| Directions.TurnLeftBackwards | Core/Direction.cs:52 | `Left` turned clockwise by -1 is the value -1, not `Down` |
| Directions.ToSizeOpposite | Core/Direction.cs:50-54 | the size of the opposite direction is the negated size |
| Directions.DirectionLists | Core/Direction.cs:16-37 | `All4` lists the four directions once each; `Vertical` and `Horizontal` split it; vertical steps have no width, horizontal ones no height; anti-reading steps go back, reading steps forward; `All8` lists the eight members in declaration order |
| LegacyDirections.MoveTo | Direction.cs:26-27 | a point moves exactly for a named direction; any other value is a missing key |
| LegacyDirections.TurnClockwise | Direction.cs:29 | a named direction goes to the different named direction one step on; `AgreesWithCurrent` states it is the current turn by one and `TurnsUndo` that the counter-clockwise turn undoes it |
| LegacyDirections.TurnCounterClockwise | Direction.cs:30 | a named direction goes to the different named direction three steps on (one back); `AgreesWithCurrent` and `TurnsUndo` as for the clockwise turn |
| LegacyDirections.Opposite | Direction.cs:31 | a named direction goes to the different named direction two steps on; `AgreesWithCurrent` states it is the current `Opposite` and `TurnsUndo` that it is an involution |
| LegacyDirections.ToSize | Direction.cs:18-26 | a value exactly for the named directions, and then the unit size of the current table; `MoveTo` builds on it |
| LegacyDirections.TurnsUndo | Direction.cs:29-31 | the older quarter turns undo each other and the opposite is an involution on named directions |
| LegacyDirections.AgreesWithCurrent | Direction.cs:29-31 | the older turns and opposite are the current ones by a count of one, for every `int` value |
| LegacyDirections.MoveToBack | Direction.cs:26-31 | a step and a step in the opposite direction come back to the start, whatever the wrap-around |
| LegacyGrids.FiniteGrid2D.constructor | FiniteGrid2D.cs:26-37 | the bounds are the width-by-height rectangle at the origin and the cells are exactly its points, each holding the callback's value |
| LegacyGrids.FiniteGrid2D.Init | FiniteGrid2D.cs:13-17 | a grid with the given bounds and cells |
| LegacyGrids.FiniteGrid2D.FromRows | FiniteGrid2D.cs:38-45 | all-empty rows make `Max` throw; otherwise one cell per element at its row and column, holding it, inside bounds at the origin that reach the widest row and the last non-empty row |
| LegacyGrids.FiniteGrid2D.Copy | FiniteGrid2D.cs:46-50 | the copy has the source's bounds and cells |
| LegacyGrids.FiniteGrid2D.Count | FiniteGrid2D.cs:14 | the never-assigned `Count` is always 0 |
| LegacyGrids.FiniteGrid2D.Get | FiniteGrid2D.cs:52-60 | a stored point reads its value; any other point is a missing key |
| LegacyGrids.FiniteGrid2D.Set | FiniteGrid2D.cs:55-61 | the point's cell becomes the value (added when missing) and no other cell changes |
| LegacyGrids.FiniteGrid2D.GetValueOrDefault | FiniteGrid2D.cs:64-65 | the stored value, or the default for a point without a cell |
| LegacyGrids.FiniteGrid2D.Get4NeighborsOf | FiniteGrid2D.cs:67-68 | exactly the four orthogonal neighbours that lie inside the bounds, as a subsequence of the moves Left, Up, Right, Down in that order |
| LegacyGrids.CountScenario | FiniteGrid2D.cs:14-37 | a 2x2 grid stores four cells while `Count` reports 0 |
| Cuboids.IntersectLine | Core/Cuboid.cs:44-50 | the axis intersection is valid exactly when both ranges are non-empty and overlap |
| Cuboids.TopRight | Core/Cuboid.cs:22 | the exclusive far corner: for a box that fits, the location moved by the three extents |
| Cuboids.Size | Core/Cuboid.cs:24 | a value is always the exact product of the three extents, and `OverflowException` comes only when a partial product leaves `long`; `SizeFits` and `SizeOverflows` show both cases happen |
| Cuboids.Intersect | Core/Cuboid.cs:26-43 | a non-null result starts at a point of both boxes; `IntersectExactly`, `IntersectNone` and `IntersectCommutes` state that it holds exactly the common points and does not depend on the order |
| Cuboids.IntersectLineMembers | Core/Cuboid.cs:44-50 | a coordinate lies in the axis intersection iff it lies in both half-open ranges |
| Cuboids.IntersectCommutes | Core/Cuboid.cs:26-43 | `a.Intersect(b)` equals `b.Intersect(a)` |
| Cuboids.IntersectExactly | Core/Cuboid.cs:26-43 | for boxes that fit, a non-null intersection fits, has positive extents and holds exactly the points in both boxes |
| Cuboids.AxisFits | Core/Cuboid.cs:39-50 | on one axis, a valid intersection of two `int` ranges has a length that fits in `int` and bounds the common coordinates |
| Cuboids.IntersectNone | Core/Cuboid.cs:34-35 | for boxes that fit, a null intersection means no point lies in both |
| Cuboids.SizeFits | Core/Cuboid.cs:24 | with extents below 2^21 the checked volume does not overflow and is the product of the extents |
| Cuboids.SizeOverflows | Core/Cuboid.cs:24 | a box of extents 2^31-1, 2^31-1, 4 makes the checked volume overflow `long` (an `OverflowException`), not wrap |
| Cuboids.IntersectionVolume | Core/Cuboid.cs:24-43 | a non-null intersection of fitting boxes has a positive volume when the volume is representable |
| Cuboids.VolumePositive | Core/Cuboid.cs:24 | a box with positive extents has a positive volume whenever the volume does not overflow |
| Cubes.Octants | Core/Cube.cs:61-69 | eight sub-cubes |
| Cubes.TopRight | Core/Cube.cs:16 | the exclusive far corner: for a cube that fits, the corner moved by the side on every axis |
| Cubes.Center | Core/Cube.cs:25 | for a cube that fits, the corner moved by half the side on every axis; `CenterInside` states it lies in the cube |
| Cubes.Contains | Core/Cube.cs:72-77 | for a cube that fits, half-open membership in `[corner, corner + side)` on each axis |
| Cubes.ClosestPointTo | Core/Cube.cs:100-156 | the result lies on an ordered segment and is the query itself when the query does; `ClosestPoint` states it is the nearest point of the segment |
| Cubes.OctantAt | Core/Cube.cs:61-69 | octant k of a fitting cube has half the side and starts at the corner moved by half the side along exactly the axes its position in `Split` order names |
| Cubes.Split | Core/Cube.cs:56-70 | a null cube is an argument-null error; otherwise eight cubes, each of half the side (C# division) |
| Cubes.GetEdges | Core/Cube.cs:35-54 | twelve edges |
| Cubes.ClosestPoint | Core/Cube.cs:100-156 | the point an ordered edge picks lies on it, is no farther (in Manhattan distance) from the query than any point of the edge, and is the query itself when the query is on the edge |
| Cubes.CenterInside | Core/Cube.cs:16-77 | a cube that fits, with side at least 1, contains its corner and its centre |
| Cubes.EdgesInside | Core/Cube.cs:35-77 | each edge of a fitting cube runs from the corner to the last point inside along its axis, and the point it picks for any query lies in the cube |
| Cubes.OctantInside | Core/Cube.cs:56-77 | every point of an octant of a fitting cube lies in the cube |
| Cubes.SplitPartitions | Core/Cube.cs:56-77 | for an even side, every point of the cube lies in exactly one octant, the one its halves name |
| Cubes.OctantHolds | Core/Cube.cs:56-77 | for an even side, the octant a point's halves name holds the point |
| Point3D.EqualityAgrees | Core/Point3.cs:20-70 | field-wise `Equals` is value equality; `==`, `!=` and `Equals(object)` agree with it (a non-point or null is never equal); `IsEmpty` holds exactly at (0, 0, 0) |
| Point3D.Equals | Core/Point3.cs:25 | true exactly for equal points |
| Point3D.EqualsObject | Core/Point3.cs:29 | true exactly for a boxed equal point; null and other objects are never equal |
| Point3D.OperatorEquals | Core/Point3.cs:62-65 | true exactly for equal points |
| Point3D.OperatorNotEquals | Core/Point3.cs:67-70 | true exactly for different points |
| Point3D.IsEmpty | Core/Point3.cs:20 | true exactly at (0, 0, 0) |
| Point3D.TranslateByTuple | Core/Point3.cs:32-33 | agrees with the three-argument overload for every tuple; `TranslateAdds` relates it to `+` |
| Point3D.TranslateByPoint | Core/Point3.cs:37-38 | an `int` point, the exact componentwise sum when nothing overflows |
| Point3D.Plus | Core/Point3.cs:72-73 | `+` is translation by the right operand; `MinusUndoesPlus` states `-` undoes it |
| Point3D.Minus | Core/Point3.cs:75-76 | an `int` point, the exact difference when nothing overflows; `MinusUndoesPlus` and `MinusIsPlusInverse` state that it undoes `+` and adds the inverse |
| Point3D.Inverse | Core/Point3.cs:78 | an `int` point, the exact negation when nothing overflows; `MinusIsPlusInverse` states it is an involution |
| Point3D.FromArray | Core/Point3.cs:40-49 | `ArgumentNullException` exactly for a null array, an error whenever three elements do not start at the offset, otherwise those three elements; `FromArrayReads` and `FromArrayRoundTrip` complete it |
| Point3D.TranslateBy | Core/Point3.cs:31 | the translated point has `int` coordinates (unchecked addition) |
| Point3D.TranslateAdds | Core/Point3.cs:31-73 | without overflow a translation adds componentwise, and the tuple and point overloads and `+` agree |
| Point3D.MinusUndoesPlus | Core/Point3.cs:72-76 | `(l + r) - r == l` for all `int` coordinates, whatever the wrap-around |
| Point3D.MinusIsPlusInverse | Core/Point3.cs:75-78 | `l - r == l + r.Inverse()` and the inverse is an involution, for all `int` coordinates |
| Point3D.WrapBack | Core/Point3.cs:72-76 | unchecked adding and then subtracting the same amount returns an `int` value |
| Point3D.WrapNegate | Core/Point3.cs:75-78 | unchecked subtraction is unchecked addition of the unchecked negation, and negating twice returns an `int` value |
| Point3D.FromArrayReads | Core/Point3.cs:40-49 | a null array is an argument-null error; otherwise the point is read exactly when three elements start at the offset, and holds them; a short array with a sane offset fails the length check, and a negative offset that passes it fails on the index |
| Point3D.FromArrayRoundTrip | Core/Point3.cs:40-49 | a point written into an array at some offset is read back from that offset |
| Point3D.GetNeighborsDiag | Core/Point3.cs:52-60 | 26 neighbours |
| Point3D.DeltaDigits | Core/Point3.cs:54-57 | the loop's delta at entry `k` is the base-3 digits of `k`, each shifted down by one |
| Point3D.DeltaOf | Core/Point3.cs:54-57 | every delta in {-1, 0, 1}^3 is reached at the entry its digits spell |
| Point3D.DeltasDistinct | Core/Point3.cs:54-58 | distinct loop entries give distinct deltas, and only the middle entry gives the zero delta that is skipped |
| Point3D.TranslateInjective | Core/Point3.cs:31 | translations by deltas that differ by at most 2 per axis meet only when the deltas are equal, even across the wrap-around |
| Point3D.NeighborsDistinct | Core/Point3.cs:52-60 | the 26 neighbours are pairwise distinct and never the point itself |
| Point3D.NeighborsExactly | Core/Point3.cs:52-60 | away from the edges of `int`, a point is a neighbour iff it is another point at most one step away on every axis |
| Point3D.NeighborNear | Core/Point3.cs:52-60 | every neighbour is another point at most one step away on every axis |
| Point3D.NearNeighbor | Core/Point3.cs:52-60 | every other point at most one step away on every axis is among the neighbours |
| Point4D.EqualityAgrees | Core/Point4.cs:23-67 | field-wise `Equals` is value equality; `==`, `!=` and `Equals(object)` agree with it; `IsEmpty` holds exactly at the zero point |
| Point4D.Equals | Core/Point4.cs:32 | true exactly for equal points |
| Point4D.EqualsObject | Core/Point4.cs:30 | true exactly for a boxed equal point; null and other objects are never equal |
| Point4D.OperatorEquals | Core/Point4.cs:59-62 | true exactly for equal points |
| Point4D.OperatorNotEquals | Core/Point4.cs:64-67 | true exactly for different points |
| Point4D.IsEmpty | Core/Point4.cs:23 | true exactly at (0, 0, 0, 0) |
| Point4D.FromArray | Core/Point4.cs:37-46 | `ArgumentNullException` exactly for a null array, an error whenever four elements do not start at the offset, otherwise those four elements; `FromArrayReads` completes it |
| Point4D.TranslateBy | Core/Point4.cs:36 | the translated point has `int` coordinates (unchecked addition) |
| Point4D.TranslateBack | Core/Point4.cs:36 | translating and translating back returns every point, even across the wrap-around |
| Point4D.FromArrayReads | Core/Point4.cs:37-46 | as for `Point3`, with four elements: the point is read exactly when four elements start at the offset, and the same three errors otherwise |
| Point4D.GetNeighborsDiag | Core/Point4.cs:48-57 | 80 neighbours |
| Point4D.DeltaDigits | Core/Point4.cs:50-54 | the loop's delta at entry `k` is the base-3 digits of `k`, each shifted down by one |
| Point4D.DeltaOf | Core/Point4.cs:50-54 | every delta in {-1, 0, 1}^4 is reached at the entry its digits spell |
| Point4D.DeltasDistinct | Core/Point4.cs:50-55 | distinct loop entries give distinct deltas, and only the middle entry gives the zero delta that is skipped |
| Point4D.TranslateInjective | Core/Point4.cs:36 | translations by deltas that differ by at most 2 per axis meet only when the deltas are equal |
| Point4D.NeighborsDistinct | Core/Point4.cs:48-57 | the 80 neighbours are pairwise distinct and never the point itself |
| Point4D.NeighborsExactly | Core/Point4.cs:48-57 | away from the edges of `int`, a point is a neighbour iff it is another point at most one step away on every axis |
| Point4D.NeighborNear | Core/Point4.cs:48-57 | every neighbour is another point at most one step away on every axis |
| Point4D.NearNeighbor | Core/Point4.cs:48-57 | every other point at most one step away on every axis is among the neighbours |
| PointMoves.MoveTo | Core/PointExtensions.cs:12-20 | a point moves exactly for a named direction; any other value is a missing key |
| PointMoves.MoveBy | Core/PointExtensions.cs:21 | an `int` point, the exact move by (dx, dy) when nothing overflows; `MoveByBack` states the opposite move returns it |
| PointMoves.ManhattanDistTo | Core/PointExtensions.cs:33-34 | `OverflowException` exactly when a wrapped difference is `int.MinValue`, and otherwise the sum of the absolute differences when nothing wraps; `DistSymmetric`, `DistExact` and `DistMetric` state symmetry, exactness and the metric laws |
| PointMoves.ManhattanDistTo3 | Core/PointExtensions.cs:35-36 | `OverflowException` exactly when one of the three wrapped differences is `int.MinValue`; `Dist3Symmetric` and `Dist3Exact` state symmetry and exactness |
| PointMoves.MoveLURD | Core/PointExtensions.cs:22-23 | four points, one per table entry |
| PointMoves.MoveLURDDiag | Core/PointExtensions.cs:24-31 | eight points, one per size |
| PointMoves.Abs32 | Core/PointExtensions.cs:32 | `Math.Abs` on `int`: fails with an overflow exactly on `int.MinValue`, and is otherwise the non-negative one of `x` and `-x` |
| PointMoves.SumAbs | Core/PointExtensions.cs:32-34 | succeeds exactly when neither operand is `int.MinValue` |
| PointMoves.Manhattan | Core/PointExtensions.cs:32 | succeeds exactly when neither coordinate is `int.MinValue` |
| PointMoves.StepBack | Core/PointExtensions.cs:20 | one coordinate moved `k` units forward and `k` back is where it started, whatever wraps |
| PointMoves.MoveToBack | Core/PointExtensions.cs:20 | moving `steps` in a direction and `steps` in the opposite one returns every point |
| PointMoves.StepsForward | Core/PointExtensions.cs:20 | a coordinate moved `a` and then `b` units forward is moved by the unchecked `a + b` |
| PointMoves.StepsBackward | Core/PointExtensions.cs:20 | the same for moves backward |
| PointMoves.TwoStepsBack | Core/PointExtensions.cs:20 | two unchecked moves backward land where the exact difference wraps to |
| PointMoves.OneStepBack | Core/PointExtensions.cs:20 | one unchecked move backward by an unchecked sum lands where the exact difference wraps to |
| PointMoves.ComposeLeft | Core/PointExtensions.cs:20 | moving `Left` by `a` and then by `b` is moving `Left` by the unchecked `a + b` |
| PointMoves.ComposeUp | Core/PointExtensions.cs:20 | the same for `Up` |
| PointMoves.ComposeRight | Core/PointExtensions.cs:20 | the same for `Right` |
| PointMoves.ComposeDown | Core/PointExtensions.cs:20 | the same for `Down` |
| PointMoves.MoveToExact | Core/PointExtensions.cs:20-21 | without overflow a move is `steps` unit steps; a move of one step is the older `MoveTo` of Direction.cs, and a move is `MoveBy` by the scaled size |
| PointMoves.MoveToUnnamed | Core/PointExtensions.cs:20 | an unnamed direction is a missing key in both `MoveTo`s |
| PointMoves.MoveByBack | Core/PointExtensions.cs:21 | `MoveBy(dx, dy)` and then `MoveBy(-dx, -dy)` returns every point |
| PointMoves.LURDIsMoveTo | Core/PointExtensions.cs:20-23 | the four neighbours are the one-step moves in the order Left, Up, Right, Down |
| PointMoves.LURDDistinct | Core/PointExtensions.cs:22-23 | the four neighbours are distinct and differ from the point, even at the edges of `int` |
| PointMoves.LURDExactly | Core/PointExtensions.cs:22-23 | away from the edges of `int`, the four neighbours are exactly the points at Manhattan distance 1 |
| PointMoves.DiagDistinct | Core/PointExtensions.cs:24-31 | the eight neighbours are distinct and differ from the point, even at the edges of `int` |
| PointMoves.DiagExactly | Core/PointExtensions.cs:22-31 | away from the edges of `int`, the eight neighbours are exactly the other points at Chebyshev distance 1, and include the four |
| PointMoves.ManhattanIsDistToOrigin | Core/PointExtensions.cs:32-34 | `Manhattan` is the distance to (0, 0) |
| PointMoves.AbsWrapNegate | Core/PointExtensions.cs:33-34 | an unchecked difference and its negation have the same `Math.Abs`, exception included |
| PointMoves.SumAbsCong | Core/PointExtensions.cs:32-34 | operands with equal `Math.Abs` give equal sums |
| PointMoves.AbsDiffSymmetric | Core/PointExtensions.cs:33-34 | `Math.Abs` of an unchecked difference does not depend on the order of the operands |
| PointMoves.SumAbsSwap | Core/PointExtensions.cs:33-34 | the sum of two such absolute differences does not depend on the order of the operands |
| PointMoves.DistSymmetric | Core/PointExtensions.cs:33-34 | `p.ManhattanDistTo(o) == o.ManhattanDistTo(p)` for all points, overflow included |
| PointMoves.DistExact | Core/PointExtensions.cs:33-34 | between small points the distance is the exact Manhattan distance |
| PointMoves.DistMetric | Core/PointExtensions.cs:33-34 | between small points the distance is zero only from a point to itself and satisfies the triangle inequality |
| PointMoves.ManhattanEdges | Core/PointExtensions.cs:32 | `Manhattan` of (int.MinValue, 0) throws an overflow, and of (int.MaxValue, int.MaxValue) wraps to -2 |
| PointMoves.Dist3Symmetric | Core/PointExtensions.cs:35-36 | the three-dimensional distance is symmetric for all points, overflow included |
| PointMoves.Dist3Exact | Core/PointExtensions.cs:35-36 | for coordinates below 2^28 in size the three-dimensional distance is exact, and zero only from a point to itself |
| NonEmptyLists.ListIndexOf | Core/NonEmptyList.cs:67 | `List<T>.IndexOf`: -1 exactly when the item is missing, otherwise the first position holding it |
| NonEmptyLists.NonEmptyList.constructor | Core/NonEmptyList.cs:17-20 | a one-element list holding the head |
| NonEmptyLists.NonEmptyList.FromSource | Core/NonEmptyList.cs:21-25 | an empty source makes `First()` throw; otherwise the list holds the source's elements in order |
| NonEmptyLists.NonEmptyList.Count | Core/NonEmptyList.cs:39 | the number of elements, never below 1 |
| NonEmptyLists.NonEmptyList.Get | Core/NonEmptyList.cs:29-32 | the element at the index, or an out-of-range error for any index outside the list |
| NonEmptyLists.NonEmptyList.Set | Core/NonEmptyList.cs:33-36 | replaces the element at an index inside the list, and fails out of range leaving the list alone otherwise |
| NonEmptyLists.NonEmptyList.Add | Core/NonEmptyList.cs:42-45 | appends the item at the end |
| NonEmptyLists.NonEmptyList.Clear | Core/NonEmptyList.cs:47-50 | always fails as not supported |
| NonEmptyLists.NonEmptyList.Contains | Core/NonEmptyList.cs:52-55 | true exactly when the item is in the list |
| NonEmptyLists.NonEmptyList.IndexOf | Core/NonEmptyList.cs:65-68 | as written: a present item gives its first position, a missing item gives 0 |
| NonEmptyLists.NonEmptyList.IndexOfOrMissing | Core/NonEmptyList.cs:65-68 | as the `IList` contract has it: -1 exactly for a missing item, otherwise its first position |
| NonEmptyLists.NonEmptyList.Insert | Core/NonEmptyList.cs:70-81 | an index from 0 to `Count` puts the item there, shifting the rest; any other index fails out of range and changes nothing |
| NonEmptyLists.NonEmptyList.RemoveAt | Core/NonEmptyList.cs:94-110 | an index outside the list fails out of range; removing from a one-element list is not supported; otherwise exactly that element goes |
| NonEmptyLists.NonEmptyList.Remove | Core/NonEmptyList.cs:83-92 | as written: on a longer list a present item's first occurrence goes, and a missing item removes the head, both reported as removed; a one-element list throws |
| NonEmptyLists.NonEmptyList.RemoveOrMissing | Core/NonEmptyList.cs:83-92 | with the `IList` contract: a missing item changes nothing and reports `false`; a present item's first occurrence goes (not supported on a one-element list) |
| NonEmptyLists.IndexOfMissingIsHead | Core/NonEmptyList.cs:65-68 | in [1, 2], `IndexOf(3)` is 0 though the head is not 3, while the corrected index is -1 |
| NonEmptyLists.Enumerator.constructor | Core/NonEmptyList.cs:120-125 | a new enumerator is before the first element |
| NonEmptyLists.Enumerator.MoveNext | Core/NonEmptyList.cs:131-145 | inside the list it hands out the next element and advances; past the end it fails and parks the index at `Count + 1` |
| NonEmptyLists.Enumerator.CurrentObject | Core/NonEmptyList.cs:149-158 | throws index-out-of-range exactly before the first element and past the last |
| NonEmptyLists.Enumerator.Reset | Core/NonEmptyList.cs:160-164 | back before the first element |
| NonEmptyLists.Enumerate | Core/NonEmptyList.cs:63-145 | enumerating until `MoveNext` fails yields the list's elements in order |
| NonEmptyLists.OneToFour | Core.Test/NonEmptyListTests.cs:26 | the collection initialiser `{ 2, 3, 4 }` on a head 1 gives [1, 2, 3, 4] |
| NonEmptyLists.RemovalScenario | Core.Test/NonEmptyListTests.cs:24-37 | [1, 2, 3, 4] has count 4, loses 2, then its head, then its second element, leaving [3]; `Clear` and removing the last element are not supported |
| Sequences.Copies | Core/LinqHelpers.cs:225-250 | `n` copies of one element: length `n`, every element equal to it |
| Sequences.Runs | Core/LinqHelpers.cs:225-250 | on an empty input the single entry `(-1, default)`; otherwise a run-length encoding of the input: positive counts, decoding to the input, neighbouring runs holding different elements |
| Sequences.RunStart | Core/LinqHelpers.cs:236-247 | after the first element the open run is that element with count 1 |
| Sequences.RunSame | Core/LinqHelpers.cs:247 | an element equal to the reference adds one to the open run's count |
| Sequences.RunNew | Core/LinqHelpers.cs:241-247 | a different element closes the open run and opens a run of its own |
| Sequences.RunFinish | Core/LinqHelpers.cs:249 | after the last element, closing the open run gives a run-length encoding of the input |
| Sequences.ExpandAppend | Core/LinqHelpers.cs:243-249 | decoding distributes over appending one run |
| Sequences.FlattenAppend | Core/LinqHelpers.cs:269-275 | concatenating the chunks distributes over appending one chunk |
| Sequences.Chunks | Core/LinqHelpers.cs:252-276 | an empty input gives one empty chunk; otherwise the chunks are non-empty runs of equal elements, neighbouring chunks differ, and they concatenate to the input |
| Sequences.ChunkExtend | Core/LinqHelpers.cs:263-273 | an element equal to the open chunk's reference (or the first element) extends the open chunk |
| Sequences.ChunkClose | Core/LinqHelpers.cs:267-273 | a different element closes the open chunk and opens a chunk holding it |
| Sequences.ChunkFinish | Core/LinqHelpers.cs:275 | at the end, closing the open chunk gives a chunking of a non-empty input, and one empty chunk for an empty input |
| Sequences.ChunksOfString | Core/LinqHelpers.cs:278-295 | the string version: one empty chunk for the empty string, otherwise the same chunking as the generic `Chunks` (Core.Test/LinqTests.cs:21-24 checks examples) |
| Sequences.SliceAt | Core/LinqHelpers.cs:286-293 | one pass of the index loop keeps the slices a chunking of the prefix read so far |
| Sequences.SliceClose | Core/LinqHelpers.cs:288-292 | a character differing from the one at `startIdx` closes the slice `[startIdx..i)` and opens one at `i` |
| Sequences.SliceExtend | Core/LinqHelpers.cs:286-288 | a character equal to the one at `startIdx` extends the open slice |
| Sequences.SliceFinish | Core/LinqHelpers.cs:294 | the final slice from `startIdx` completes a chunking of a non-empty string, and is the one empty chunk of an empty string |
| Sequences.FlattenLast | LinqHelpers.cs:239-240 | the last element of the concatenation is the last element of the last, non-empty chunk |
| Sequences.ChunkingPrefix | Core/LinqHelpers.cs:252-276 | dropping the last chunk of a chunking leaves a chunking of the rest of the input |
| Sequences.ChunkingUnique | Core/LinqHelpers.cs:252-276 | a sequence has exactly one chunking, so every implementation meeting the contract returns the same chunks |
| Sequences.SuffixBlocked | Core/LinqHelpers.cs:252-276 | a constant suffix of a chunked input is no longer than the last chunk |
| Sequences.RunChunksFlatten | Core/LinqHelpers.cs:225-276 | the chunks the runs stand for concatenate to the runs' decoding |
| Sequences.RunsAreChunks | Core/LinqHelpers.cs:225-276 | `Runs` and `Chunks` of the same input agree: run i counts the elements of chunk i and holds its element |
| Sequences.ChunksOfSize | Core/LinqHelpers.cs:298-329 | a size below 1 is an argument error; otherwise non-empty chunks of exactly `size` elements, the last possibly shorter, concatenating to the input |
| Sequences.SizedChunkAt | Core/LinqHelpers.cs:298-329 | chunk k of a sized chunking is the slice starting at `k * size`, so the chunking is determined by the input |
| Sequences.SizedLength | Core/LinqHelpers.cs:298-329 | chunks of exactly `size` elements cover `count * size` elements |
| Sequences.PairwiseWithOverlap | Core/LinqHelpers.cs:158-173 | `n - 1` pairs (none for fewer than two elements), pair i being elements i and i+1 |
| Sequences.OverlapPairsRebuild | Core/LinqHelpers.cs:158-173 | the first element followed by the pairs' second components gives back the input |
| Sequences.Pairwise | Core/LinqHelpers.cs:175-193 | `n / 2` pairs, pair i being elements 2i and 2i+1; a trailing odd element is dropped |
| Sequences.PairsRebuild | Core/LinqHelpers.cs:175-193 | the pairs, read in order, give back the input without its odd last element |
| Sequences.Triplewise | Core/LinqHelpers.cs:195-219 | `n / 3` triples of consecutive elements; one or two leftovers are dropped |
| Sequences.CumulativeSum32 | Core/LinqHelpers.cs:373-382 | output i is the sum of inputs 0..i, wrapped to 32 bits as `sum += item` does |
| Sequences.CumulativeSum64 | Core/LinqHelpers.cs:383-392 | output i is the sum of inputs 0..i, wrapped to 64 bits |
| Sequences.PrefixSumsStep | Core/LinqHelpers.cs:373-392 | consecutive prefix sums differ by the next input |
| Sequences.RemOfNonNegative | Core/LinqHelpers.cs:418 | for a non-negative dividend C#'s `%` is the remainder modulo the divisor's absolute value |
| Sequences.SmallRem | Core/LinqHelpers.cs:418 | a counter at most the step size wraps to 0 exactly at the step size |
| Sequences.StepBy | Core/LinqHelpers.cs:411-420 | after skipping `skipFirst`, a step of 0 yields the first element and then divides by zero; any other step yields exactly the elements at `0, m, 2m, ...` for `m` its absolute value, none missed |
| Sequences.IndexWhere | Core/LinqHelpers.cs:26-31 | the positions whose element satisfies the predicate, each once and in increasing order |
| Sequences.ExceptFor | Core/LinqHelpers.cs:33-36 | the input with every element equal to the exception removed and all others kept with their multiplicities |
| Sequences.KeepMatching | Core/LinqHelpers.cs:350 | the `Where` step keeps exactly the candidates that match `y[i]` at offset i |
| Sequences.KeepMatchingIncreasing | Core/LinqHelpers.cs:350 | filtering keeps the candidates in increasing order |
| Sequences.StartingIndex | Core/LinqHelpers.cs:343-354 | `x.Count - y.Count + 1 < 0` makes `Enumerable.Range` throw; otherwise exactly the starts where `y` occurs in `x`, in increasing order |
| Sequences.ProductFromWraps | Core/LinqHelpers.cs:93-101 | the aggregate from a `long` seed is the seed times the exact product, wrapped to 64 bits |
| Sequences.Product | Core/LinqHelpers.cs:93-101 | the exact product of the elements wrapped to 64 bits, as the unchecked `long` aggregate from 1 gives it |
| Sequences.ProductIsWrappedProd | Core/LinqHelpers.cs:93-101 | `Product` is the exact product wrapped to 64 bits, and exact whenever the product fits a `long` |
| Sequences.OneBasedModulo32 | Core/LinqHelpers.cs:103 | fails exactly for ring size 0 (division by zero) and for `int.MinValue % -1`; otherwise an `int` |
| Sequences.OneBasedModulo64 | Core/LinqHelpers.cs:104 | the same in 64-bit arithmetic |
| Sequences.OneBasedInRange | Core/LinqHelpers.cs:103-104 | when `x + r - 1` is non-negative, the result lies in 1..r and is congruent to x modulo r |
| Sequences.OneBasedModulo32InRange | Core/LinqHelpers.cs:103 | for a positive ring size and a non-negative, non-wrapping `x + r - 1`, the `int` version succeeds, lies in 1..r and is congruent to x |
| Sequences.OneBasedModulo64InRange | Core/LinqHelpers.cs:104 | the same for the `long` version |
| Sequences.OneBasedModuloNegative | Core/LinqHelpers.cs:103 | below the guarded range the result leaves 1..r: -6 in a ring of 3 gives 0 |
| Sequences.OneBasedModuloMinRing | Core/LinqHelpers.cs:103 | the final `+ 1` wraps for ring size `int.MinValue`: 0 in that ring gives `int.MinValue` |
| Grids.FillRange | Core/FiniteGrid2D.cs:69-81 | the nested loop over a row range and a column range stores the callback's value at exactly the cells in the ranges and keeps every other entry |
| Grids.Fill | Core/FiniteGrid2D.cs:69-81 | as written: rows run from `Left` below `Height` and columns from `Top` below `Width`; exactly those cells take the callback's value, every other entry is kept |
| Grids.FillBounds | Core/FiniteGrid2D.cs:69-81 | as evidently intended: exactly the cells inside the bounds take the callback's value, every other entry is kept |
| Grids.FillAtOrigin | Core/FiniteGrid2D.cs:69-81 | for bounds at the origin the loop as written visits exactly the cells inside the bounds |
| Grids.InflatedFillOverreaches | Core/FiniteGrid2D.cs:60-81 | inflating a 3x3 grid by one gives bounds (-1, -1, 5, 5), and the loop as written also fills (4, 4), which lies outside them |
| Grids.ShiftedFillEmpty | Core/FiniteGrid2D.cs:69-81 | for bounds (10, 0, 3, 3) the loop as written fills no cell, though (10, 0) lies inside |
| Grids.Keep | Core/FiniteGrid2D.cs:124-128 | `Where`: the points of the input that pass the test, as a subsequence of the input in its order, and all of them when all pass |
| Grids.WrapCoord | Core/FiniteGrid2D.cs:101 | `((coord % limit) + limit) % limit`: fails with a division by zero for limit 0 and with an overflow for `int.MinValue % -1`, and succeeds otherwise |
| Grids.WrapCoordInRange | Core/FiniteGrid2D.cs:101 | for a positive limit up to 2^30 the result is the residue of the coordinate in [0, limit) |
| Grids.RemOfNonNegative | Core/FiniteGrid2D.cs:101 | C#'s `%` of a non-negative dividend by a positive divisor is the ordinary remainder |
| Grids.WrapCoordPeriodic | Core/FiniteGrid2D.cs:101 | coordinates a limit apart wrap to the same value |
| Grids.ModShift | Core/FiniteGrid2D.cs:101 | adding the divisor does not change the remainder |
| Grids.Neighbors4 | Core/FiniteGrid2D.cs:124-125 | exactly the four orthogonal neighbours that lie inside the bounds, as a subsequence of the moves Left, Up, Right, Down in that order |
| Grids.Neighbors8 | Core/FiniteGrid2D.cs:127-128 | exactly the eight surrounding points that lie inside the bounds, as a subsequence of the diagonal moves in their row-by-row order |
| Grids.NeighborsInterior | Core/FiniteGrid2D.cs:124-125 | an interior cell has all four neighbours, in the order Left, Up, Right, Down |
| Grids.MovesFromOrigin | Core/PointExtensions.cs:22-23 | the four moves from (0, 0) are (-1, 0), (0, -1), (1, 0), (0, 1) |
| Grids.NeighborsAtCorner | Core/FiniteGrid2D.cs:124-125 | the top-left cell has only its right and lower neighbours |
| Grids.Range32 | Core/FiniteGrid2D.cs:180-191 | `Enumerable.Range`: fails out of range for a negative count or a last value past `int.MaxValue`, otherwise `count` consecutive values from `start` |
| Grids.EdgePoints | Core/FiniteGrid2D.cs:174-198 | an unnamed direction has no edge points |
| Grids.EdgeInside | Core/FiniteGrid2D.cs:174-198 | for bounds whose edges fit in `int`, each named direction's edge is the whole top row, bottom row, left column or right column, inside the bounds |
| Grids.RowCellsStep | Core/FiniteGrid2D.cs:48-49 | storing item x of row y extends the cells read so far by one |
| Grids.RowCellsNext | Core/FiniteGrid2D.cs:48-49 | the end of a row starts the next one |
| Grids.FiniteGrid2D.constructor | Core/FiniteGrid2D.cs:40-44 | the grid keeps the bounds and holds the cells `Fill` as written visits, each with the callback's value |
| Grids.FiniteGrid2D.OfSize | Core/FiniteGrid2D.cs:28-38 | bounds at the origin of the given size, and exactly their cells, each with the callback's value |
| Grids.FiniteGrid2D.WithinBounds | Core/FiniteGrid2D.cs:40-44 | as evidently intended: exactly the cells inside the bounds, wherever they lie |
| Grids.FiniteGrid2D.Init | Core/FiniteGrid2D.cs:16-25 | a grid with the given bounds and cells |
| Grids.FiniteGrid2D.FromRows | Core/FiniteGrid2D.cs:46-53 | all-empty rows make `Max` throw; otherwise item x of row y is cell (x, y), every cell lies in bounds at the origin, and the bounds reach the largest stored coordinates |
| Grids.FiniteGrid2D.Copy | Core/FiniteGrid2D.cs:54-59 | the copy has the source's bounds and cells |
| Grids.FiniteGrid2D.Inflated | Core/FiniteGrid2D.cs:60-67 | bounds grown by the inflation on every side; the cells `Fill` as written visits hold the source's value, or the fill value where the source has none |
| Grids.FiniteGrid2D.Get | Core/FiniteGrid2D.cs:86-94 | a stored point reads its value; any other point is a missing key |
| Grids.FiniteGrid2D.Contains | Core/FiniteGrid2D.cs:84 | for bounds whose far edges fit in `int`, half-open membership in the bounds on both axes |
| Grids.FiniteGrid2D.ContainsItem | Core/FiniteGrid2D.cs:162-163 | true exactly when the indexer reads the item's value at its point |
| Grids.FiniteGrid2D.Set | Core/FiniteGrid2D.cs:89-95 | the point's cell becomes the value (added when missing) and no other cell changes |
| Grids.FiniteGrid2D.GetValueOrDefault | Core/FiniteGrid2D.cs:98-99 | the stored value, or the default for a point without a cell |
| Grids.FiniteGrid2D.GetValueWraparound | Core/FiniteGrid2D.cs:101-108 | both coordinates wrapped by width and height, then the getter; a failing wrap gives its exception |
| Grids.FiniteGrid2D.GetTupleWraparound | Core/FiniteGrid2D.cs:109-114 | succeeds exactly when `GetValueWraparound` does, with the wrapped point, which is stored and holds the value |
| Grids.FiniteGrid2D.SetValueWraparound | Core/FiniteGrid2D.cs:116-122 | a zero width or height throws and changes nothing; otherwise the wrapped cell takes the value, and reading back wraparound gives it |
| Grids.FiniteGrid2D.Get4NeighborsOf | Core/FiniteGrid2D.cs:124-125 | exactly the four orthogonal neighbours the grid contains, in the order of the moves |
| Grids.FiniteGrid2D.Get8NeighborsOf | Core/FiniteGrid2D.cs:127-128 | exactly the eight surrounding points the grid contains, in the order of the diagonal moves |
| Grids.FiniteGrid2D.GetPointWith8Neighbors | Core/FiniteGrid2D.cs:130-135 | nine values, row by row: the surrounding cells in reading order with the point itself in the middle, each the default where there is no cell |
| Grids.FiniteGrid2D.Line | Core/FiniteGrid2D.cs:154-158 | the points `start + n * direction` for n = 1, 2, ... while the grid contains them, stopping at the first one it does not (or after `int.MaxValue` points) |
| Grids.FiniteGrid2D.GetEdge | Core/FiniteGrid2D.cs:174-199 | the values of the edge cells in order; a failing `Range` gives its exception, and a missing cell throws missing-key exactly when some edge point has no cell |
| Grids.FiniteGrid2D.Count | Core/FiniteGrid2D.cs:17 | the number of stored cells, zero exactly for an empty grid |
| Grids.FiniteGrid2D.Add | Core/FiniteGrid2D.cs:160 | a new key is stored with its value; a key already present is an argument error and changes nothing |
| Grids.FiniteGrid2D.Clear | Core/FiniteGrid2D.cs:161 | no cells remain |
| Grids.FiniteGrid2D.Remove | Core/FiniteGrid2D.cs:170 | as written: the key is removed whatever value it holds, reporting whether it was present |
| Grids.FiniteGrid2D.RemoveMatching | Core/FiniteGrid2D.cs:162-170 | as `ICollection` intends: only an entry that `Contains((pos, value))` reports is removed; otherwise nothing changes |
| Grids.WraparoundIsModulo | Core/FiniteGrid2D.cs:101-108 | for widths and heights up to 2^30, `GetValueWraparound` reads the cell at the coordinates' residues |
| Grids.RemoveMismatch | Core/FiniteGrid2D.cs:162-170 | on a one-cell grid holding 7, `Contains((origin, 8))` is false yet `Remove((origin, 8))` deletes the cell and reports success; the matching removal keeps it |
| Grids.WrappingXGrid2D.OfSize | Core/WrappingXGrid2D.cs:17-35 | bounds at the origin of the given size and exactly their cells, each with the callback's value |
| Grids.WrappingXGrid2D.Copy | Core/WrappingXGrid2D.cs:42-45 | the source's bounds and cells, the width being the bounds' width |
| Grids.WrappingXGrid2D.FromRows | Core/WrappingXGrid2D.cs:15-40 | while the base constructor runs `Width` is `int.MaxValue`, so every item lands at its own column: the cells are those of the base row constructor, and all-empty rows throw |
| Grids.WrappingXGrid2D.Wrap | Core/WrappingXGrid2D.cs:47 | as written: fails for width 0 (and `int.MinValue % -1`); otherwise the row is kept and the column's remainder is smaller than the width in size and not positive for a negative column |
| Grids.WrappingXGrid2D.Contains | Core/WrappingXGrid2D.cs:49 | the row lies from `Y` below `Height`; `WrapKeepsContains` states that the column never matters |
| Grids.WrapKeepsContains | Core/WrappingXGrid2D.cs:47-49 | wrapping a point keeps it inside exactly when it was, and every column of a row is inside together |
| Grids.WrappingXGrid2D.Get | Core/WrappingXGrid2D.cs:51-53 | the value at the wrapped point; a missing key exactly when the wrapped point has no cell |
| Grids.WrappingXGrid2D.Set | Core/WrappingXGrid2D.cs:54 | the wrapped point takes the value and reads back; a failing wrap changes nothing |
| Grids.WrappingXGrid2D.GetValueOrDefault | Core/WrappingXGrid2D.cs:57-58 | the value at the wrapped point, or the default where it has no cell; fails only when the wrap does |
| Grids.WrappingXGrid2D.Get4NeighborsOf | Core/FiniteGrid2D.cs:124-125 | exactly the four orthogonal neighbours whose row lies inside, through the overridden `Contains` (Core/WrappingXGrid2D.cs:49), in the order of the moves |
| Grids.WrappingXGrid2D.GetWrapped | Core/WrappingXGrid2D.cs:47-53 | as evidently intended: the cell at the column's residue in [0, width) |
| Grids.WrapIsModulo | Core/WrappingXGrid2D.cs:47 | for a non-negative column and positive width the wrap as written is the residue |
| Grids.WrapPeriodic | Core/WrappingXGrid2D.cs:47-53 | non-negative columns a width apart read the same cell |
| Grids.LeftNeighborMissing | Core/WrappingXGrid2D.cs:47-53 | in a full 3x3 wrapping grid, (-1, 0) is a reported neighbour of the origin but reading it throws missing-key, while the intended read gives cell (2, 0) |
| Grids.RemainderExamples | Core/WrappingXGrid2D.cs:47 | C#'s `-1 % 3` is -1 and `2 % 3` is 2, while the base grid's `Wrap(-1, 3)` is 2 |
| Grids.WrappedNeighborsPresent | Core/WrappingXGrid2D.cs:47-53 | with the intended wrap, every neighbour a full wrapping grid reports holds a cell |
| Combinatorics.ResetIndices | Core/Combinatorics/TupleCombinations.cs:45-241 | the starting indices have one entry per position: `0, …, k-2` and then `k-2` again (`0, 0` for pairs, `0, 1, 1` for triples) |
| Combinatorics.PivotFrom | Core/Combinatorics/TupleCombinations.cs:221-234 | the downward scan finds the highest position at or below `i` under its ceiling `n - k + i`, every position above it being at its ceiling, or -1 when there is none |
| Combinatorics.Advance | Core/Combinatorics/TupleCombinations.cs:226-230 | positions before the pivot are kept, the pivot is raised by one and each later position is one above its predecessor |
| Combinatorics.Select | Core/Combinatorics/TupleCombinations.cs:211-217 | one element per index, the element the index selects |
| Combinatorics.Gap | Core/Combinatorics/TupleCombinations.cs:221-234 | entries of a combination grow by at least one per position |
| Combinatorics.CombinationCeiling | Core/Combinatorics/TupleCombinations.cs:223 | entry `i` of a k-combination of `0..n-1` lies between `i` and the ceiling `n - k + i` the scan tests |
| Combinatorics.WeakMonotone | Core/Combinatorics/TupleCombinations.cs:45-241 | indices of the enumerators' shape never decrease and are never negative |
| Combinatorics.CombinationIsWeak | Core/Combinatorics/TupleCombinations.cs:221-234 | every combination has the enumerators' shape |
| Combinatorics.PointwiseBelow | Core/Combinatorics/TupleCombinations.cs:226-230 | a sequence equal up to a position and pointwise at most another from there on is equal to it or lexicographically below it |
| Combinatorics.NextIsCombination | Core/Combinatorics/TupleCombinations.cs:221-234 | a step taken from indices of the enumerators' shape yields a combination of `0..n-1` |
| Combinatorics.NextIsGreater | Core/Combinatorics/TupleCombinations.cs:221-234 | a step moves strictly forward in lexicographic order |
| Combinatorics.NextIsLeast | Core/Combinatorics/TupleCombinations.cs:221-234 | a step skips no combination: any combination above the indices is the next one or lies above it |
| Combinatorics.NoPivotIsLast | Core/Combinatorics/TupleCombinations.cs:235 | when `MoveNext` returns false no combination lies above the indices: the enumeration is complete |
| Combinatorics.ResetIsFirst | Core/Combinatorics/TupleCombinations.cs:238-244 | the starting indices lie below every combination, so the first step reaches the first one |
| Combinatorics.ResetCanAdvance | Core/Combinatorics/TupleCombinations.cs:219-244 | with `2 <= k <= n` the first `MoveNext` succeeds and yields `0, 1, …, k-1` |
| Combinatorics.PairTotal | Core/Combinatorics/TupleCombinations.cs:55-69 | the number of pairs is never negative |
| Combinatorics.TripleTotal | Core/Combinatorics/TupleCombinations.cs:122-147 | the number of triples is never negative |
| Combinatorics.PairTotalClosed | Core/Combinatorics/TupleCombinations.cs:55-69 | m values give m(m-1)/2 pairs |
| Combinatorics.TripleTotalClosed | Core/Combinatorics/TupleCombinations.cs:122-147 | m values give m(m-1)(m-2)/6 triples |
| Combinatorics.PairStep | Core/Combinatorics/TupleCombinations.cs:55-69 | each successful pair step moves exactly one place on in lexicographic order |
| Combinatorics.PairMovesForward | Core/Combinatorics/TupleCombinations.cs:57-66 | a pair step raises `IndexB`, or raises `IndexA` and sets `IndexB` above it |
| Combinatorics.PairLast | Core/Combinatorics/TupleCombinations.cs:68 | the pair on which `MoveNext` stops is the n(n-1)/2-th |
| Combinatorics.TripleStep | Core/Combinatorics/TupleCombinations.cs:122-147 | each successful triple step moves exactly one place on in lexicographic order |
| Combinatorics.TripleMovesForward | Core/Combinatorics/TupleCombinations.cs:128-145 | a triple step raises `IndexC`, or `IndexB` keeping `IndexA`, or `IndexA` |
| Combinatorics.TripleNextCases | Core/Combinatorics/TupleCombinations.cs:124-146 | the shared step is the triple `MoveNext` branch by branch: `IndexC < maxc`, else `IndexB < maxb`, else `IndexA < maxa`, else false |
| Combinatorics.TripleLast | Core/Combinatorics/TupleCombinations.cs:146 | the triple on which `MoveNext` stops is the n(n-1)(n-2)/6-th |
| Combinatorics.NewTupleCombinations2 | Core/Combinatorics/TupleCombinations.cs:18-24 | fewer than two values is an invalid operation; otherwise the values are kept |
| Combinatorics.PairEnumerator.constructor | Core/Combinatorics/TupleCombinations.cs:42-47 | keeps the values and starts at indices `0, 0` |
| Combinatorics.PairEnumerator.Current | Core/Combinatorics/TupleCombinations.cs:49 | the pair of elements at the two indices |
| Combinatorics.PairEnumerator.MoveNext | Core/Combinatorics/TupleCombinations.cs:55-69 | returns true exactly when a position can grow, and then the indices are the next pair, a combination; otherwise nothing changes |
| Combinatorics.PairEnumerator.Reset | Core/Combinatorics/TupleCombinations.cs:71-75 | the indices are `0, 0` again |
| Combinatorics.CountPairs | Core/Combinatorics/TupleCombinations.cs:14-76 | enumerating pairs fails for fewer than two values and otherwise yields n(n-1)/2 of them |
| Combinatorics.NewTupleCombinations3 | Core/Combinatorics/TupleCombinations.cs:83-89 | fewer than three values is an invalid operation; otherwise the values are kept |
| Combinatorics.TripleEnumerator.constructor | Core/Combinatorics/TupleCombinations.cs:108-114 | keeps the values and starts at indices `0, 1, 1` |
| Combinatorics.TripleEnumerator.Current | Core/Combinatorics/TupleCombinations.cs:116 | the triple of elements at the three indices |
| Combinatorics.TripleEnumerator.MoveNext | Core/Combinatorics/TupleCombinations.cs:122-147 | returns true exactly when a position can grow, and then the indices are the next triple, a combination; otherwise nothing changes |
| Combinatorics.TripleEnumerator.Reset | Core/Combinatorics/TupleCombinations.cs:149-154 | the indices are `0, 1, 1` again |
| Combinatorics.CountTriples | Core/Combinatorics/TupleCombinations.cs:79-155 | enumerating triples fails for fewer than three values and otherwise yields n(n-1)(n-2)/6 of them |
| Combinatorics.NewFastCombinations | Core/Combinatorics/TupleCombinations.cs:170-177 | fewer than three values is an invalid operation whatever the length; otherwise values and length are kept |
| Combinatorics.StartIndices | Core/Combinatorics/TupleCombinations.cs:240-241 | a new array holding `0, …, k-1` with the last entry lowered by one |
| Combinatorics.FastEnumerator.constructor | Core/Combinatorics/TupleCombinations.cs:196-202 | keeps values and length, resets to the starting indices, and `Current` wraps the element array just made |
| Combinatorics.FastEnumerator.ComputeCurrent | Core/Combinatorics/TupleCombinations.cs:211-217 | elements before `start` are kept; from `start` on each element is the value its index selects |
| Combinatorics.FastEnumerator.AdvanceFrom | Core/Combinatorics/TupleCombinations.cs:226-230 | the index array becomes the advanced indices |
| Combinatorics.FastEnumerator.StepAt | Core/Combinatorics/TupleCombinations.cs:226-232 | at the pivot, the indices become the next combination and the elements follow them |
| Combinatorics.FastEnumerator.MoveNext | Core/Combinatorics/TupleCombinations.cs:219-236 | returns true exactly when a position can grow, and then the indices are the next combination with the elements they select; otherwise both arrays are unchanged |
| Combinatorics.FastEnumerator.Reset | Core/Combinatorics/TupleCombinations.cs:238-244 | as written: new index and element arrays at the starting indices, so `Current` no longer wraps the element array in use |
| Combinatorics.FastEnumerator.ResetInPlace | Core/Combinatorics/TupleCombinations.cs:238-244 | as evidently intended: the arrays already in use return to the starting indices and their elements |
| Combinatorics.Open | Core/Combinatorics/TupleCombinations.cs:179-243 | `GetEnumerator` succeeds exactly for lengths from 2 to one more than the number of values; length 0 fails with index out of range, the other bad lengths with argument out of range |
| Combinatorics.CountPairCombinations | Core/Combinatorics/TupleCombinations.cs:165-245 | for at least three values, the 2-combinations number n(n-1)/2; fewer values are an invalid operation |
| Combinatorics.CombinationsWork | Core.Test/TupleCombinatoricsTests.cs:23-37 | five values give ten 2-combinations |
| Combinatorics.CombinationsDoNotAllocate | Core.Test/TupleCombinatoricsTests.cs:16-21 | the first two steps over `1..5` show `[1, 2]` and then `[1, 3]` through the same array |
| Combinatorics.StaleCurrentAfterReset | Core/Combinatorics/TupleCombinations.cs:201-244 | after two steps, a `Reset` and a step, `Current` still shows `[1, 3]` while the enumerator's elements are `[1, 2]` |
| Combinatorics.CurrentAfterResetInPlace | Core/Combinatorics/TupleCombinations.cs:238-244 | resetting in place, the same sequence of calls shows `[1, 2]` |
| EdgeGraphs.GraphEdge.constructor | Core/Graph.cs:75-80 | the edge keeps its value, source and destination |
| EdgeGraphs.GraphNode.constructor | Core/Graph.cs:59-66 | the node keeps its value and starts with empty incoming and outgoing lists |
| EdgeGraphs.GraphNode.Neighbors | Core/Graph.cs:69 | one entry per incoming and outgoing edge; every source of an incoming edge and every destination of an outgoing edge is listed, and nothing else |
| EdgeGraphs.Sources | Core/Graph.cs:69 | the source of each edge, in order |
| EdgeGraphs.Destinations | Core/Graph.cs:69 | the destination of each edge, in order |
| EdgeGraphs.Leaving | Core/Graph.cs:28 | exactly the edges of the list that leave the node, in list order |
| EdgeGraphs.Arriving | Core/Graph.cs:29 | exactly the edges of the list that arrive at the node, in list order |
| EdgeGraphs.LeavingAppend | Core/Graph.cs:27-29 | appending an edge appends it to the leaving list of its source and the arriving list of its destination only |
| EdgeGraphs.NoneLeaving | Core/Graph.cs:18-66 | a node no edge touches has empty lists |
| EdgeGraphs.ToDictionary | Core/Graph.cs:49-50 | succeeds exactly when no two elements share a key, then maps each element's key to it; a repeated key is an argument error |
| EdgeGraphs.Graph.Init | Core/Graph.cs:38-40 | the graph holds the given dictionaries |
| EdgeGraphs.Graph.Create | Core/Graph.cs:47-53 | fails with an argument error exactly when a node key or an edge value repeats; otherwise nodes are keyed by value and edges by value |
| EdgeGraphs.StepLinked | Core/Graph.cs:20-30 | after a step every node key is an endpoint of some edge read so far |
| EdgeGraphs.StepJoined | Core/Graph.cs:22-27 | after a step each edge object read so far joins the nodes of its two keys |
| EdgeGraphs.StepLists | Core/Graph.cs:27-29 | after a step every node's outgoing and incoming lists are exactly the edges read so far that leave and arrive at it, in order |
| EdgeGraphs.EdgeList | Core/Graph.cs:15-27 | the edge objects in input order, one per edge value |
| EdgeGraphs.NodeFor | Core/Graph.cs:18 | `GetOrAdd`: an existing key gives its node unchanged; a new key gives a fresh node with empty lists, recorded in the dictionary and in insertion order |
| EdgeGraphs.Attach | Core/Graph.cs:28-29 | the edge is appended to the source's outgoing and the destination's incoming list; with distinct endpoints their other lists are kept |
| EdgeGraphs.EndpointsFor | Core/Graph.cs:22-24 | both endpoint keys are in the dictionary afterwards, the old nodes are kept, and any added node is fresh with empty lists |
| EdgeGraphs.ListedAdd | Core/Graph.cs:18-32 | recording a node under a new key keeps `Values` listing every node once |
| EdgeGraphs.UniqueEdges | Core/Graph.cs:50 | the edge objects have distinct values exactly when the input edge values are distinct |
| EdgeGraphs.NodesFromList | Core/Graph.cs:32-49 | re-keying `Dictionary.Values` by node value gives back the dictionary |
| EdgeGraphs.EdgesFromList | Core/Graph.cs:32-50 | keying the edge list by value gives every input edge, and the edge objects in input order |
| EdgeGraphs.Finish | Core/Graph.cs:32-53 | the graph constructor's dictionaries describe the graph the loop built |
| EdgeGraphs.ListsOfNodes | Core/Graph.cs:64-66 | lists kept beside the nodes key by key are the nodes' own lists |
| EdgeGraphs.AddEdge | Core/Graph.cs:20-30 | one loop turn keeps the built shape for one more edge |
| EdgeGraphs.FromEdges | Core/Graph.cs:11-33 | fails with an argument error exactly when an edge value repeats; otherwise one node per distinct endpoint key, one edge object per input edge between the nodes of its keys, and each node's lists are exactly its leaving and arriving edges, in input order |
| EdgeGraphs.BuiltWired | Core/Graph.cs:11-33 | a built graph spelled out edge by edge over the ordered edge objects |
| EdgeGraphs.NeighborsAreLinked | Core/Graph.cs:69 | in a built graph another node is a neighbour exactly when some input edge runs between their keys, in either direction |
| EdgeGraphs.WiredNeighbors | Core/Graph.cs:69 | the same over the spelled-out form |
| EdgeGraphs.NeighborsInGraph | Core/Graph.cs:69 | every neighbour of a node of a built graph is the graph's node for its key |
| EdgeGraphs.WiredNeighborsInGraph | Core/Graph.cs:69 | the same over the spelled-out form |
| EdgeGraphs.NodeComparerOnBuilt | Core/Graph.cs:52-104 | with the default key comparer, nodes of a built graph compare equal exactly when they are the same object, and null equals only null |
| EdgeGraphs.NodesEqual | Core/Graph.cs:98-104 | a null node equals only null; `NodeComparerOnBuilt` states that on a built graph it is node identity |
| EdgeGraphs.NodeHash | Core/Graph.cs:106-110 | the key hash of the node's value; `NodeHashAgrees` states that equal nodes hash alike |
| EdgeGraphs.NodeHashAgrees | Core/Graph.cs:98-110 | nodes the comparer calls equal hash alike whenever the key comparer and the key hash agree |
| Graphs.Reverse | Core/AStar.cs:160 | `Enumerable.Reverse`: the same length, element k being element \|s\|-1-k of the input |
| IntervalHeaps.IntervalHeap.constructor | Core/AStar.cs:70 | a new heap over the given order, holding nothing |
| IntervalHeaps.IntervalHeap.Count | PriorityDictionary.cs:80 | zero exactly when the heap holds nothing |
| PriorityDictionaries.PriorityDictionary.constructor | PriorityDictionary.cs:20-29 | an empty dictionary, handle table and heap over the given value order |
| PriorityDictionaries.InjectiveCard | PriorityDictionary.cs:80 | a map whose values are pairwise distinct has as many values as keys, so the handle table and the heap agree in size |
| SearchArena.ResultsCheapest | Core/AStar.cs:110-135 | the paths reported from an arena of cheapest records are cheapest routes to their targets |
| SearchArena.ResultsShortest | Core/Dijkstra.cs:81-117 | the paths reported from an arena of cheapest records that entered in cost order are cheapest and come cheapest first |
| SearchArena.CheapestAppend | Core/Dijkstra.cs:92 | appending a record that carries the cost of a cheapest walk keeps the arena cheapest |
| SearchArena.HistoryExtend | Core/AStar.cs:206-214 | appending a record leaves the history of every earlier record alone |
| SearchArena.AppendPopped | Core/AStar.cs:124-125 | appending a well-made record keeps the arena well made and every earlier path unchanged |
| SearchArena.AppendAll | Core/BreadthFirstSearch.cs:84-87 | appending a whole layer of well-made records keeps the arena well made |
| SearchArena.ResultsAppend | Core/Dijkstra.cs:94-95 | appending a record with a new node keeps the nodes distinct and reports it exactly when it is a target |
| SearchArena.ResultsSound | Core/Dijkstra.cs:128-137 | each reported path is the walk of its record: from the origin, along the expander, to a target, at its cost |
| SearchArena.ExpandedClosed | Core/Dijkstra.cs:103-106 | once every step out of the visited records stays among them, the visited set is closed |
| AStar.AStarSearch.constructor | Core/AStar.cs:27-32 | keeps the expander; the current search |
| AStar.Frontier.constructor | Core/AStar.cs:70-72 | an empty queue and an empty `openSet` |
| AStar.ConsistentAlong | Core/AStar.cs:198-204 | along any walk a consistent heuristic promises at a node no less than the rest of the walk costs plus the heuristic at its end |
| AStar.WalkCostsAtLeast | Core/AStar.cs:80-85 | with a consistent heuristic, every walk to the node of the least-estimate record costs at least that record |
| AStar.PopCheapest | Core/AStar.cs:80-124 | with a consistent heuristic, the record `PopMinNode` returns carries the cost of a cheapest walk to its node |
| AStar.RelaxLowers | Core/AStar.cs:86-102 | `QueueOrUpdateNode` keeps every open node open at no higher cost, and leaves the stepped-to node open at no more than the route through the step |
| AStar.Finish | Core/AStar.cs:110-135 | the end state of the loop yields `Answer`, and with a consistent heuristic every path is cheapest |
| AStar.AStarSearch.Explore | Core/AStar.cs:110-135 | the loop of `FindAll`: runs out of fuel, or its result satisfies `Answer`, with cheapest paths under a consistent heuristic, and the explored nodes lie in every closed set holding the origin |
| AStar.AStarSearch.QueueSuccessors | Core/AStar.cs:126-132 | every unvisited successor of the popped record goes through `QueueOrUpdateNode`, in the expander's order |
| Dijkstra.WalkCostsAtLeast | Core/Dijkstra.cs:85-90 | every walk to the node of the least unvisited queued record costs at least that record |
| Dijkstra.PopCheapest | Core/Dijkstra.cs:85-92 | the record the do-while pops carries the cost of a cheapest walk to its node |
| Dijkstra.PopCosts | Core/Dijkstra.cs:85-92 | appending the popped record keeps the arena cheapest and in cost order |
| Dijkstra.FrontierStep | Core/Dijkstra.cs:103-106 | queueing the popped record's unvisited successors puts every step out of the grown arena on the queue at no more than its route |
| Dijkstra.StartCosts | Core/Dijkstra.cs:57-77 | the cost invariant holds at the start, with one seed or several |
| Dijkstra.DijkstraSearch.constructor | Core/Dijkstra.cs:22-27 | keeps the expander |
| Dijkstra.DijkstraSearch.Explore | Core/Dijkstra.cs:81-117 | the loop from a start state: runs out of fuel, or its result satisfies `Answer` with every path cheapest and the paths cheapest first; `drained` means the whole region was explored |
| Dijkstra.DijkstraSearch.FindAllSeededChecked | Core/Dijkstra.cs:48-117 | corrected, with an emptiness check before each delete: a bad seed list is an invalid operation; otherwise out of fuel, or `Answer` with cheapest paths in cost order |
| Dijkstra.DijkstraSearch.FindAllChecked | Core/Dijkstra.cs:37-45 | corrected: fails only when the fuel runs out; otherwise `Answer` with cheapest paths in cost order |
| Dijkstra.DijkstraSearch.FindFirstChecked | Core/Dijkstra.cs:29-35 | corrected: a correct and cheapest path to a target, or none exactly when the explored region is closed and holds no target |
| Dijkstra.StaleGraph | Core/Dijkstra.cs:86-90 | the graph a→b (1), a→c (5), b→c (1), on which a stale entry is left behind |
| Dijkstra.StaleTrace | Core/Dijkstra.cs:81-106 | on that graph from `a`, once `a`, `b`, `c` are visited the queue holds only the stale entry for `c` at 5, and `{a, b, c}` is closed |
| Dijkstra.StaleEntryExample | Core/Dijkstra.cs:86-90 | the next turn deletes the stale entry and then deletes from the empty queue: `NoSuchItem` |
| LegacyDijkstra.DijkstraSearch.constructor | Dijkstra.cs:32-35 | keeps the expander |
| BreadthFirst.BreadthFirstSearch.constructor | Core/BreadthFirstSearch.cs:20-24 | keeps the expander |
| BreadthFirst.Shortest | Core/BreadthFirstSearch.cs:56-104 | a record's distance is at most the length of any route from the origin to its node |
| BreadthFirst.LayeredSorted | Core/BreadthFirstSearch.cs:56-104 | the paths come by nondecreasing length |
| BreadthFirst.LayeredShortest | Core/BreadthFirstSearch.cs:56-104 | no route from the origin reaches a reported target in fewer steps |
| BreadthFirst.LayeredComplete | Core/BreadthFirstSearch.cs:56-104 | every target no farther away than the last reported one was reported |
| BreadthFirst.NearestFirst | Core/BreadthFirstSearch.cs:29-36 | the first path of a breadth-first order is no longer than any route to any target |
| BreadthFirst.FinishLayers | Core/BreadthFirstSearch.cs:56-104 | the end state of the loop: correct paths in breadth-first order, exhaustive when the last layer was empty, and the explored nodes inside every closed set holding the origin |
| BreadthFirst.LeafNow | Core/BreadthFirstSearch.cs:124-130 | a layer record has no unvisited successor exactly when all its successors were found no farther away |
| BreadthFirst.BreadthFirstSearch.ReportLayer | Core/BreadthFirstSearch.cs:89-95 | the `foreach` appends a path for each target of the new layer, in order, keeping the earlier results |
| BreadthFirst.BreadthFirstSearch.Layers | Core/BreadthFirstSearch.cs:78-103 | the layer loop of `FindAll2`: the arena is built layer by layer, the results are the paths of exactly its targets in order with the origin's first when it is a target, the fuel stops it only after `fuel` layers, and fewer than `minResults` results otherwise means no layer is left |
| BreadthFirst.BreadthFirstSearch.GatherLeaves | Core/BreadthFirstSearch.cs:124-130 | records with children add them to the next layer; records without are reported as leaves, in order |
| BreadthFirst.BreadthFirstSearch.GatherLayer | Core/BreadthFirstSearch.cs:153-161 | every non-empty list of children joins the next layer |
| IntCode.Memory | Core/IntCodeComputer.cs:11 | `_memory.Values.ToArray()`: one value per key, in insertion order |
| IntCode.EvalPair | Core/IntCodeComputer.cs:138-139 | reading both operands changes neither outputs, inputs nor relative base |
| IntCode.Execute | Core/IntCodeComputer.cs:76-113 | the switch keeps the step count and the instruction just fetched |
| IntCode.OperandAgrees | Core/IntCodeComputer.cs:122-128 | machines whose cells read alike and whose relative bases agree read every operand alike |
| IntCode.StepOutputs | Core/IntCodeComputer.cs:56-60 | after a step that did not fail, the outputs grew by one value exactly when the step was Store |
| IntCode.RunAfterBound | Core/IntCodeComputer.cs:65-69 | the rest of a run after a step makes at most the remaining number of steps |
| IntCode.RunUntilOutputAfterResult | Core/IntCodeComputer.cs:56-62 | the rest of the `RunWith` loop returns null only after Halt and otherwise the value its Store step appended |
| IntCode.IntCodeComputer.SetCell | Core/IntCodeComputer.cs:135-144 | `_memory[key] = v`: the state is the write of the key |
| IntCode.IntCodeComputer.GetOrAdd | Core/IntCodeComputer.cs:120-143 | `GetOrAdd(key, 0)` returns the cell's value and adds a 0 cell when missing |
| IntCode.IntCodeComputer.EvaluateInstruction | Core/IntCodeComputer.cs:138-139 | reads both operands left to right as `EvalPair` says |
| IntCode.IntCodeComputer.WriteNextCell | Core/IntCodeComputer.cs:134-135 | the result goes to the address in the next word, IP past it |
| IntCode.IntCodeComputer.Dispatch | Core/IntCodeComputer.cs:76-113 | the new state and outcome are those of the switch `Execute` |
| IntCode.IntCodeComputer.RunUntilOutputLoop | Core/IntCodeComputer.cs:56-62 | the new state and result are those of `RunUntilOutput` |
| LongCode.EvalPair | LongCodeComputer.cs:148-149 | reading both operands changes neither outputs, inputs nor relative base |
| LongCode.Execute | LongCodeComputer.cs:74-111 | the switch keeps the step count and the instruction just fetched |
| LongCode.OperandAgrees | LongCodeComputer.cs:120-126 | machines whose cells read alike and whose relative bases agree read every operand alike |
| LongCode.StoreImmediate | LongCodeComputer.cs:85-123 | Store in immediate mode outputs its operand word narrowed to `int` |
| LongCode.LargeNumberFetch | LongCodeComputer.cs:72 | the first word of `104, 2^50, 99` decodes to Store with an immediate operand |
| LongCode.LargeImmediateKeptWide | LongCodeComputer.cs:118-123 | for that program the intended wide read gives 2^50 where the narrowing read gives 0 |
| LongCode.StepCounts | LongCodeComputer.cs:71 | every step adds 1 to `StepCount`, wrapping at 32 bits |
| LongCode.RunAfterBound | LongCodeComputer.cs:63-67 | the rest of a run after a step makes at most the remaining number of steps |
| LongCode.RunStepsValid | LongCodeComputer.cs:10-11 | a run keeps the key list in step with the dictionary |
| LongCode.StepOutputs | LongCodeComputer.cs:54-58 | after a step that did not fail, the outputs grew by one value exactly when the step was Store |
| LongCode.LongCodeComputer.constructor | LongCodeComputer.cs:24-28 | the machine over the initial state |
| LongCode.LongCodeComputer.WithInput | LongCodeComputer.cs:30-33 | the machine with the first input queued |
| LongCode.LongCodeComputer.WithOverride | LongCodeComputer.cs:35-41 | the machine with the overrides applied in order |
| LongCode.LongCodeComputer.SetCell | LongCodeComputer.cs:145 | `_memory[key] = v`: the state is the write of the key |
| LongCode.LongCodeComputer.GetOrAdd | LongCodeComputer.cs:118-131 | `GetOrAdd(key, 0)` returns the cell's value and adds a 0 cell when missing |
| LongCode.LongCodeComputer.GetNextArg | LongCodeComputer.cs:115-127 | updates the fields as `NextArg` says |
| LongCode.LongCodeComputer.EvaluateInstruction | LongCodeComputer.cs:148-149 | reads both operands left to right as `EvalPair` says |
| LongCode.LongCodeComputer.ExecuteInstruction | LongCodeComputer.cs:141-146 | the checked result, then the write address: as `Binary` says |
| LongCode.LongCodeComputer.WriteResult | LongCodeComputer.cs:144-145 | the value goes to the write address of the next word, or the write mode throws |
| LongCode.LongCodeComputer.ExecuteInput | LongCodeComputer.cs:151-155 | updates the fields as Load does |
| LongCode.LongCodeComputer.ExecuteAction | LongCodeComputer.cs:86-104 | updates the fields as Store or SetRelativeBase does |
| LongCode.LongCodeComputer.ExecuteJump | LongCodeComputer.cs:89-94 | updates the fields as the jump does |
| LongCode.LongCodeComputer.Dispatch | LongCodeComputer.cs:74-111 | the new state and outcome are those of the switch `Execute` |
| LongCode.LongCodeComputer.RunUntilOutputLoop | LongCodeComputer.cs:54-60 | the new state and result are those of `RunUntilOutput` |
| ArrayIntCode.Overridden | IntCodeComputer.cs:22-28 | writing the overrides keeps the memory's length |
| ArrayIntCode.StepCounts | IntCodeComputer.cs:46 | every pass adds 1 to `StepCount`, wrapping at 32 bits |
| ArrayIntCode.StepHalted | IntCodeComputer.cs:79-80 | a pass that returned fetched a Halt right before the pointer and changed nothing else |
| ArrayIntCode.RunAfterBound | IntCodeComputer.cs:42-48 | the rest of a run after a pass makes at most the remaining number of passes |
| ArrayIntCode.RunAfterHalted | IntCodeComputer.cs:79-80 | a run that reports Halt stopped right after fetching a Halt word |
| ArrayIntCode.SquareProgramFetch | IntCodeComputer.cs:112 | the first word of `2, 4, 4, 5, 99, 0` is Mul in position mode |
| ArrayIntCode.SquareProgramFirstStep | IntCodeComputer.cs:101 | as written, Mul writes 0 at index 4, over the Halt |
| ArrayIntCode.SquareProgramSecondStep | IntCodeComputer.cs:81-82 | the overwritten Halt is opcode 0, which throws |
| ArrayIntCode.ArrayIntCodeComputer.NextWordRead | IntCodeComputer.cs:61-90 | `Memory[InstructionPointer++]`, or an index error outside the array |
| ArrayIntCode.ArrayIntCodeComputer.WriteCell | IntCodeComputer.cs:101-108 | `Memory[address] = v`, or an index error outside the array |
| ArrayIntCode.ArrayIntCodeComputer.GetNextArg | IntCodeComputer.cs:87-98 | updates the fields as `NextArg` says |
| ArrayIntCode.ArrayIntCodeComputer.EvaluateInstruction | IntCodeComputer.cs:103-104 | reads both operands left to right as `EvalPair` says |
| ArrayIntCode.ArrayIntCodeComputer.ExecuteInstruction | IntCodeComputer.cs:100-101 | the destination word first, then the operands, as `Binary` says |
| ArrayIntCode.ArrayIntCodeComputer.ExecuteInput | IntCodeComputer.cs:106-109 | updates the fields as Load does |
| ArrayIntCode.ArrayIntCodeComputer.StoreOutput | IntCodeComputer.cs:60-63 | updates the fields as Store does |
| ArrayIntCode.ArrayIntCodeComputer.ExecuteJump | IntCodeComputer.cs:65-70 | updates the fields as the jump does |
| BinarySearches.Narrow | Core/BinarySearchInt.cs:30-41 | unchecked arithmetic yields a value of the type |
| BinarySearches.Bisect | Core/BinarySearchInt.cs:37-48 | the bracket the loop ends with has both ends in the type |
| BinarySearches.Stepsize | Core/BinarySearchInt.cs:29-31 | every stepsize is a value of its type |
| BinarySearches.StepsizeWrapsToZero | Core/BinarySearchInt.cs:31 | after as many doublings as the type has bits, less one, the stepsize is 0 |
| BinarySearches.Gallop | Core/BinarySearchInt.cs:29-31 | the doubling loop stops, if at all, before the stepsize has wrapped to 0 |
| BinarySearches.Bracket | Core/BinarySearchInt.cs:24-34 | the bracket handed to the bisection has both ends in the type |
| BinarySearches.BracketFixed | Core/BinarySearchInt.cs:24-34 | the corrected bracket has both ends in the type |
| BinarySearches.BisectResult | Core/BinarySearchInt.cs:33 | a bracket's exception passes on; otherwise its bisection |
| BinarySearches.GallopStopped | Core/BinarySearchInt.cs:30 | the probe the gallop stopped at matched |
| BinarySearches.GallopPassed | Core/BinarySearchInt.cs:30-31 | the probe before it did not |
| BinarySearches.OpenSearchGallopStops | Core/BinarySearchInt.cs:29-33 | once the doubling loop stops at stepsize s, the search bisects `start + s/2` to `start + s` |
| BinarySearches.OpenSearchGallopNever | Core/BinarySearchInt.cs:29-31 | when the doubling loop never stops, the search never returns |
| BinarySearches.LongStepsizeGallop | BinarySearchLong.cs:28-30 | with a `long` stepsize, searching x > 2^32 from 0 gallops to 2^33 |
| BinarySearches.LongStepsizeBracket | BinarySearchLong.cs:28-32 | and leaves 2^32 to 2^33 to bisect |
| BinarySearches.LongStepsizeBisect | BinarySearchLong.cs:36-46 | bisecting 2^32 to 2^33 ends at the switch |
| BinarySearches.BinarySearchInt.constructor | Core/BinarySearchInt.cs:14-17 | keeps the predicate |
| BinarySearches.BinarySearchLong.constructor | BinarySearchLong.cs:15-18 | keeps the predicate |
| BinarySearches.BinarySearch.constructor | BinarySearch.cs:10-13 | keeps the predicate |
| IntWidths.Wrap32 | Core/IntCodeComputer.cs:73-106 | unchecked `int` arithmetic: a value of `int` congruent to the input modulo 2^32, the input itself when it fits |
| IntWidths.Wrap32Add | Core/IntCodeComputer.cs:106 | wrapping an intermediate sum changes nothing |
| IntWidths.Wrap64 | LongCodeComputer.cs:104 | unchecked `long` arithmetic: a value of `long` congruent to the input modulo 2^64, the input itself when it fits |
| IntWidths.Wrap64Add | LongCodeComputer.cs:104 | wrapping an intermediate 64-bit sum changes nothing |
| IntWidths.WrapU32 | Dijkstra.cs:120-125 | `uint` arithmetic: below 2^32, congruent to the input, the input itself when it fits |
| IntWidths.Div | Core/BinarySearchInt.cs:33-41 | C#'s `/` truncates toward zero: it is Euclidean division for non-negative operands and never exceeds the dividend in size |
| IntWidths.Rem | Core/FiniteGrid2D.cs:101 | C#'s `%`: dividend = quotient × divisor + remainder, smaller than the divisor in size, with the dividend's sign |

## Left out

- Parallel breadth-first expansion (`ParallelExpand`, `PerformParallelSearch`): concurrency; only the sequential path is modelled.
- Progress reporting, stopwatches and console output: no effect on results.
- Floating-point costs and heuristics of the searches are natural numbers; `uint` costs of Dijkstra.cs are natural numbers below 2^32 with explicit wrap-around.
- The caller's equality comparer is Dafny equality on nodes, and hash-set iteration order is insertion order.
- Every search loop carries a `fuel` bound on the number of records it pops or expands and returns `OutOfFuel` when it is spent; the C# loops have no bound and do not terminate on an infinite graph without enough targets.
- AStar.CompareTo: the older `CompareTo` of AStar.cs has no null check; the heap never passes null, so only the current one is modelled.
- LegacyDijkstra.DijkstraSearch.FindAll: the paths carry the wrapped cost of their record; the older `DijkstraPath` does not expose it.
- The older search of Dijkstra.cs re-expands nodes reached again (its visited filter never fires), so on a graph with a cycle and fewer than `minResults` targets its queue never empties; the model bounds this by fuel.
- The IntCode machines are pure state transformers (`Machine` values) with a class around them whose methods update the fields as the functions say; the `Dictionary<int,int>` memory of Core/IntCodeComputer.cs and the `Dictionary<int,long>` memory of LongCodeComputer.cs are each a map plus the list of its keys in insertion order.
- BreadthFirst.BreadthFirstSearch.FindAll2: its target predicate is a predicate on the node, not on the `NodeWithPredecessor` record, so a predicate that inspects a record's predecessor chain (and the `FindFirst` overload taking one) is not modelled: the model has the node-only predicate of `FindAll` and the null check.
- IntCode.RunUntilOutput: `RunWith` loops until Halt or an output with no bound; the model carries a `fuel` bound on its steps and returns `OutOfFuel` when it is spent.
- IntCode.OverriddenCells: the per-cell effect of the override constructor is stated for overrides with distinct keys; with repeated keys the last pair wins, which the model computes but does not state.
- ArrayIntCode.ArrayIntCodeComputer.WithOverride: requires every override key inside the array; the C# constructor throws `IndexOutOfRangeException` half-way through instead.
- The relative-base program of the LongCode tests (a program that outputs a copy of itself) is not proved to do so: its run is about a hundred steps.
- `Inputs`/`Outputs` of the machines are sequences; `GetInput`/`SetOutput` hooks and the console are not modelled.
- The binary searches take an `int -> bool` predicate; the parameters must fit the C# type (`int` or `long`), and `Narrow` models unchecked wrap-around only for sums and differences of two values of that type, which is every use in the source.
- BinarySearches.SearchOpenInterval: a gallop whose stepsize wraps to 0 loops for ever in C#; the model returns `OutOfFuel` there.
- The number of predicate calls a search makes is not modelled.

- AStar.AStarSearch.FindAll: that every path found is a cheapest route is proved for a consistent heuristic (one that never drops by more than an edge's cost); with any other heuristic the contract states only that each path is a correct path to a target with its true cost.
- AStar.AStarSearch.FindFirst: a cheapest route is promised only for a consistent heuristic, as for `FindAll`.
- Parsing through regular expressions and `Convert.ChangeType` (Core/ParseHelpers.cs, `ParseInts`/`ParseLongs` of LinqHelpers.cs, `MatchRegexGroups` of Core/LinqHelpers.cs, the string `ToTuple2`/`3`/`4` of Core/TupleConverters.cs): thin wrappers over library parsing.
- Reading and writing grids from files (Core/Grid2D.cs, Grid2D.cs): file I/O.
- Floating-point and SIMD geometry (`EuklidDistTo` and the angle `TurnClockwise` of Core/PointExtensions.cs, the `Vector3`/`Vector128` conversions of Core/Point3.cs, the `double` `Diff`): floating point.
- The `System.Drawing` wrappers of Core/DrawingExtensions.cs other than `Inflate`, every `ToString`, and the console-key `ToDirection`: presentation only.
- `RepeatIndefinitely` (an infinite stream), `Repeat(source, count)` (the whole sequence `count` times), `MinMax`, `Histogram`, `GetOrEmpty`, `CenterItem`, `AreAllEqual`, `WhereNotNull`, `PointsInBoundingRect`, `Select2D`, `SelectArray` of the two LinqHelpers files: one-line delegations to LINQ that no modelled operation uses.
- `WithXY`, `CartesianProduct` and `ToEnumerable` of the LinqHelpers files are not modelled as operations of their own: they are inlined where modelled code uses them, `WithXY` in the two row constructors (`Grids.FiniteGrid2D.FromRows`, `LegacyGrids.FiniteGrid2D.FromRows`) and `CartesianProduct` and `ToEnumerable` in `Grids.EdgePoints`.
- The root Cube.cs (its `LineSegmentX` and `GetEdges` do not type-check) and the root Graph.cs (an unfinished stub); the Cube and Graph of Core/ are modelled.
- IPath.cs and Core/IPath.cs: interfaces without behaviour; the path records of each search have their fields.
- The enumerators and `CopyTo` of the grids and of the older FiniteGrid2D.cs: iteration order of a `Dictionary`; the grid is a map.
- `CopyTo` of Core/NonEmptyList.cs (copying the head and then the tail into a caller's array at an offset): array copying into foreign storage; the list's contents are its sequence.
- The node types of the searches are value types (`!new`): reference identity of C# nodes is not modelled.
- Sequences.Runs: only the default equality comparer is modelled (Dafny equality); the optional `EqualityComparer<T>` argument of Core/LinqHelpers.cs:225 is not.
- Sequences.Chunks: likewise only the default comparer; the optional comparer of Core/LinqHelpers.cs:252 is not modelled.
- Sequences.ChunksOfString: likewise only the default comparer; the optional comparer of Core/LinqHelpers.cs:278 is not modelled.
- Sequences.ChunksOfSize: the chunks are values; the source's chunks are lazy views sharing one enumerator, so a caller that materialises the outer sequence before reading the chunks gets one item per chunk (the enumerator's current one). The contract holds for a caller that reads each chunk before the next.
- Dictionaries.AddToList: the lists are values in the map; the source appends to the stored `List` object in place, so every alias of that list the caller holds sees the new element, which the model does not capture.
- Sequences.ExceptFor: the model removes every element equal to the exception; the source keeps every null element (even for a null exception) and compares through the element's own `Equals`, neither of which is modelled.

## Findings

| source | as written | input that shows it | evidently intended | confidence | as-written member | corrected member |
|---|---|---|---|---|---|---|
| Core/Dijkstra.cs:86-90 | the do-while deletes from the queue without checking that it is empty | origin `a`, edges a→b (1), a→c (5), b→c (1), no target: after `c` is popped at cost 2 the queue holds only the stale entry `c` at 5, which is deleted, and the next `DeleteMin` runs on an empty queue and throws | stop when the queue holds no unvisited entry and return the paths found | high (not executed) | Dijkstra.DijkstraSearch.FindAllSeeded, Dijkstra.DijkstraSearch.FindAll, Dijkstra.DijkstraSearch.FindFirst, Dijkstra.StaleTrace, Dijkstra.StaleEntryExample | Dijkstra.DijkstraSearch.FindAllSeededChecked, Dijkstra.DijkstraSearch.FindAllChecked, Dijkstra.DijkstraSearch.FindFirstChecked |
| LongCodeComputer.cs:118 | every argument word is cast to `int` before use, so an immediate operand loses its high bits | the program `104, 1125899906842624, 99` outputs 0 (2^50 truncated) where the test at Core.Test/LongCodeComputerTests.cs:199-206 expects 1125899906842624 | read the word as a `long` and narrow only addresses | high (not executed) | LongCode.LargeImmediateTruncated | LongCode.WideOperandKeepsImmediates, LongCode.LargeImmediateKeptWide |
| IntCodeComputer.cs:100-101 | the destination `Memory[Memory[IP++]]` is read before the two operands, so the destination comes from the first parameter word | the program `2, 4, 4, 5, 99, 0` multiplies cells 4 and 5 into cell 4 (0), overwriting its Halt, and the next pass throws | read both operands first and write to the address in the third parameter word, giving `2, 4, 4, 5, 99, 9801` | high (not executed) | ArrayIntCode.SquareProgramAsWritten | ArrayIntCode.OperandsFirstArithmetic, ArrayIntCode.SquareProgramOperandsFirst |
| Core/BinarySearchInt.cs:29-33 | the gallop's first probe is `lowerLimit + 2`; when it matches, the bisection starts from `lowerLimit + 1` as if it were known false | `FindFirst` of x > 0 from 0 returns 2, though 1 matches; `FindLast` of x < 1 from 0 returns 1, though 1 does not match | bisect from `lowerLimit` when the first probe matches | high (not executed) | BinarySearches.FirstSkipsStartPlusOne, BinarySearches.LastSkipsStartPlusOne, BinarySearches.OpenSearchBracket | BinarySearches.OpenSearchFixedFindsSwitch |
| BinarySearchLong.cs:28-30 | the stepsize of the `long` search is an `int`, which wraps to the most negative value and then to 0 after 31 doublings | `FindFirst` of x > 2^32 from 0 never returns: no probe passes 2^32 and the stepsize ends at 0 | a `long` stepsize | high (not executed) | BinarySearches.LongSearchStepsizeWraps | BinarySearches.LongStepsizeFindsSwitch |
| Core/NonEmptyList.cs:65-68,83-92 | `IndexOf` adds one to the tail's `-1` for a missing item, so it answers 0, and `Remove` then removes the head | in the list [1, 2], `IndexOf(3)` is 0 and `Remove(3)` removes 1 and returns true | -1 for a missing item, and no removal | high (not executed) | NonEmptyLists.NonEmptyList.IndexOf, NonEmptyLists.NonEmptyList.Remove, NonEmptyLists.IndexOfMissingIsHead | NonEmptyLists.NonEmptyList.IndexOfOrMissing, NonEmptyLists.NonEmptyList.RemoveOrMissing |
| Core/FiniteGrid2D.cs:71-73 | the row counter runs from `Left` below `Height` and the column counter from `Top` below `Width` | bounds (10, 0, 3, 3) fill nothing; inflating a 3x3 grid by one gives bounds (-1, -1, 5, 5) and the walk fills (4, 4), outside them | rows from `Top` below `Bottom`, columns from `Left` below `Right` | high (not executed) | Grids.Fill, Grids.InflatedFillOverreaches, Grids.ShiftedFillEmpty | Grids.FillBounds |
| Core/WrappingXGrid2D.cs:47 | `p.X % Width` is C#'s truncating remainder, negative for a negative X | in a full 3x3 grid, (-1, 0) is a neighbour the grid reports as contained, but reading it throws `KeyNotFoundException` | a non-negative residue, so (-1, 0) reads (2, 0) | high (not executed) | Grids.WrappingXGrid2D.Get, Grids.LeftNeighborMissing | Grids.WrappingXGrid2D.GetWrapped, Grids.WrappedNeighborsPresent |
| Core/FiniteGrid2D.cs:170 | `Remove` of a (position, value) pair deletes the position whatever value it holds | on a grid holding 7 at the origin, `Remove((origin, 8))` deletes the cell and returns true, though `Contains((origin, 8))` is false | remove only a matching pair | high (not executed) | Grids.FiniteGrid2D.Remove, Grids.RemoveMismatch | Grids.FiniteGrid2D.RemoveMatching |
| Core/Combinatorics/TupleCombinations.cs:201,240-245 | `Reset` allocates a new `current` array, while `Current` still wraps the one from the constructor | values [1, 2, 3, 4, 5], length 2: two `MoveNext`, `Reset`, `MoveNext`; `Current` shows [1, 3] while the enumerator has selected [1, 2] | reset the existing array in place | high (not executed) | Combinatorics.FastEnumerator.Reset, Combinatorics.StaleCurrentAfterReset | Combinatorics.FastEnumerator.ResetInPlace, Combinatorics.CurrentAfterResetInPlace |
| PriorityDictionary.cs:84-87 | `Add` puts the pair into the heap before `_handles.Add` rejects a duplicate key, so the throw leaves an orphan pair in the heap | `Add(1, 5)` then `Add(1, 7)`: the second call throws `ArgumentException` and leaves two pairs in the heap beside one key in the dictionary | reject a duplicate key before the heap is touched, so a failed `Add` changes nothing | high (not executed) | PriorityDictionaries.PriorityDictionary.Add, PriorityDictionaries.DuplicateAddScenario | PriorityDictionaries.PriorityDictionary.AddGuarded |
