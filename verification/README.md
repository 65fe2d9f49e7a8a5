# Cost-weighted cycle solvers in Dafny

This project models the core of the Evolutionary-Computation repository. The
repository holds C, C++ and Python solvers for a node-selection cycle problem:

- An instance is a square distance matrix plus a cost for every node.
- A solution is a cycle through about half of the nodes, `ceil(n / 2)` of them.
- A solution's objective is the length of the closed cycle plus the costs of
  the nodes it visits.

The model covers:

- **Objective.** Tour cost and its breakdown (`utils.c`, `Solution::evaluate`).
- **Move evaluations.** The deltas of the three moves, with corrected
  definitions where the code is wrong:
  - exchanging a tour node with an outside node;
  - swapping two tour nodes;
  - the 2-opt edge exchange.
- **Constructions.** Random, nearest neighbour at the end or anywhere,
  greedy cycle and greedy 2-regret, in both the C suite and the C++ classes.
- **Local search.** Steepest and greedy variants in C and C++, with:
  - the candidate-move restriction;
  - the list-of-moves search with its successor/predecessor links and sorted
    move list;
  - iterated local search with its random 2-opt perturbation;
  - the C++ perturbation and greedy-cycle repair.
- **Run bookkeeping.** Best, worst and total cost over runs, and the summary
  statistics.
- **Python tooling.**
  - Reading a result file and deriving an experiment name (`run.py`).
  - Validating a result and rotating a tour (`run.py`).
  - Node and edge similarity between solutions (`lab8/analyze.py`).

Modelling conventions:

- Modulo is taken as the code writes it; the modelled function and the C
  expression are proved equal (`Tours.SuccPredMod`, `Solutions.CRem`).
- Randomness is an oracle parameter: `rand()`, `std::shuffle` and the
  uniform distributions are all draws.
- The C structs and C++ objects are immutable Dafny values, updated
  functionally.
- The candidate, move-list and generator classes call a snake_case solution
  interface that `Solution.cpp` implements in camelCase. The model maps each
  call to the `Solution.cpp` operation of the same meaning, for example
  `exchange_2_edges` to `exchangeTwoEdges`.

| file | module | models |
|---|---|---|
| tours.dfy | Tours | instances, tour predicates, cyclic successor/predecessor, reversal and swap |
| cost.dfy | Costs | the objective and its decomposition lemmas |
| greedy_utils.dfy | GreedyUtils | `utils.c`: cost loops, shuffle, validity check |
| utils.dfy | Utils | `Utils.h`: contains, mean, statistics |
| base_solver.dfy | BaseSolver | `BaseSolver.cpp`: instance name and node count |
| solution.dfy | Solutions | `Solution.cpp`: the tour object and its delta evaluations |
| records.dfy | Records | best / worst / total bookkeeping shared by every solver |
| ranking.dfy | Ranking | sorting by key (qsort / std::sort) and first-minimum scans |
| local_search.dfy | LocalSearch | `local_search.c` move evaluations and segment reversal |
| local_search_run.dfy | LocalSearchRun | `local_search.c` neighbourhoods, steepest / greedy search, solver |
| delta_local_search.dfy | DeltaLocalSearch | `delta_local_search.c` links, move updates, sorted move list |
| cm_local_search.dfy | CandidateLocalSearch | `cm_local_search.c` candidate edges and candidate search |
| cm_solver.dfy | CandidateSolver | `CMLocalSearchSolver.cpp` candidate lists, node lookup, search |
| lm_solver.dfy | MoveListSolver | `LMLocalSearchSolver.cpp` move queue, applicability, search |
| solver.dfy | LocalSearchSolver | `LocalSearchSolver.cpp` scans, basic search, perturbation, repair |
| constructions.dfy | Constructions | `algorithms.c` constructions and their solve loops |
| generators.dfy | Generators | `NearestNeighbor.cpp`, `GreedyCycle.cpp`, `RandomSolution.cpp` |
| ils.dfy | IteratedLocalSearch | `ils.c` perturbation and the ILS loop |
| analysis.dfy | Analysis | `lab8/analyze.py` solution sets and similarity |
| results.dfy | ResultFiles | `run.py` result files, names, validation, rotation |

## Model

| member | source | states |
|---|---|---|
| Tours.SuccPredMod | 01_greedy_heuristics/src/local_search.c:375-378 | the successor and predecessor index functions equal the C expressions `(i + 1) % n` and `(i - 1 + n) % n` and are inverse to each other |
| Tours.Succ | 01_greedy_heuristics/src/local_search.c:375-376 | the cyclic successor index stays inside the tour |
| Tours.Pred | 01_greedy_heuristics/src/local_search.c:377-378 | the cyclic predecessor index stays inside the tour |
| Tours.Pick | 01_greedy_heuristics/src/utils.c:29-38 | a draw reduced like `rand() % size` is an index below `size` |
| Tours.Reverse | 01_greedy_heuristics/src/local_search.c:449-467 | the reversed tour has the same length, holds the mirrored element at every index and is a permutation |
| Tours.ReverseRange | 01_greedy_heuristics/src/local_search.c:449-467 | reversing a segment mirrors exactly that segment, leaves both sides unchanged and permutes the tour |
| Tours.Swap | 01_greedy_heuristics/src/local_search.c:489-494 | swapping two positions exchanges exactly those two elements and permutes the sequence |
| Tours.DistinctSwap | 01_greedy_heuristics/src/local_search.c:489-494 | a swap keeps a tour free of repeated nodes |
| Tours.DistinctReverseRange | 01_greedy_heuristics/src/local_search.c:449-467 | a segment reversal keeps a tour free of repeated nodes |
| Tours.AllNodes | 01_greedy_heuristics/src/local_search.c:96-99 | the identity list holds every node below `n` exactly once |
| Tours.InRangePermutation | 01_greedy_heuristics/src/local_search.c:96-104 | a permutation of an in-range tour is in range |
| Tours.DistinctReplace | 01_greedy_heuristics/src/local_search.c:469-487 | replacing a tour node with an outside node keeps the nodes distinct |
| Tours.DistinctPermutation | 01_greedy_heuristics/src/utils.c:29-38 | a permutation of a duplicate-free sequence is duplicate-free |
| Tours.TargetSize | 01_greedy_heuristics/src/algorithms.c:149 | the solution size `(n + 1) / 2` is the least size covering at least half the nodes |
| Costs.TourCost | 01_greedy_heuristics/src/utils.c:3-13 | the objective: consecutive distances, the edge from the last node back to the first, and the node costs; `GreedyUtils.CalculateCost` states that the C loop computes it |
| Costs.LinLenConcat | 01_greedy_heuristics/src/utils.c:3-13 | the path length of a concatenation is the two path lengths plus the joining edge |
| Costs.NodeCostsConcat | 01_greedy_heuristics/src/utils.c:3-13 | node costs add up over a concatenation |
| Costs.LinLenReverse | 01_greedy_heuristics/src/utils.c:3-13 | with a symmetric matrix a reversed path has the same length |
| Costs.NodeCostsReverse | 01_greedy_heuristics/src/utils.c:3-13 | reversal keeps the node costs |
| Costs.CostSplit3 | 01_greedy_heuristics/src/utils.c:3-13 | the cost of a tour split around one node, as the sum of its pieces, joins and closing edge |
| Costs.CostSplit5 | 01_greedy_heuristics/src/utils.c:3-13 | the cost of a tour split around two nodes, as the sum of its pieces |
| Costs.CostSplitSegment | 01_greedy_heuristics/src/utils.c:3-13 | the cost of a tour split around a segment, as the sum of its pieces |
| Costs.CostAroundPair | 01_greedy_heuristics/src/utils.c:3-13 | the cost of a tour as the part untouched by two nodes plus the four edges and two costs around them |
| Costs.CostAroundSegment | 01_greedy_heuristics/src/utils.c:3-13 | the cost of a tour as the part untouched by a segment plus its two boundary edges |
| Costs.CostOfReversedTour | 01_greedy_heuristics/src/utils.c:3-13 | with a symmetric matrix, traversing a tour backwards costs the same |
| Costs.CostOfSingleton | 01_greedy_heuristics/src/utils.c:3-13 | a one-node tour costs its self-distance plus its node cost |
| Costs.CostRotate | 01_greedy_heuristics/src/utils.c:3-13 | rotating a tour does not change its cost |
| Costs.CostNonNegative | 01_greedy_heuristics/src/utils.c:3-13 | with non-negative data every tour has non-negative cost |
| GreedyUtils.CalculateCostBreakdown | 01_greedy_heuristics/src/utils.c:15-27 | the loop yields the closed path length and the node costs, whose sum is the tour cost |
| GreedyUtils.CalculateCost | 01_greedy_heuristics/src/utils.c:3-13 | the loop yields the tour cost |
| GreedyUtils.ShuffleArray | 01_greedy_heuristics/src/utils.c:29-38 | the Fisher-Yates loop returns a permutation of its input, and leaves inputs of length 0 or 1 alone |
| GreedyUtils.IsValidSolution | 01_greedy_heuristics/src/utils.c:125-145 | true exactly when every node is in range and no node repeats |
| Utils.Contains | src/Utils.h:19-22 | true exactly when the value occurs in the vector |
| Utils.Mean | src/Utils.h:24-29 | 0 for no values, otherwise the number that times the count gives the sum |
| Utils.MeanBetween | src/Utils.h:24-29 | the mean of values lies between any lower and upper bound of them |
| Utils.SumBounds | src/Utils.h:24-29 | a sum of bounded values is bounded by count times the bounds |
| Utils.Extremes | src/Utils.h:39-40 | the least and greatest values are elements that bound every element |
| Utils.CalculateStats | src/Utils.h:31-42 | zeros for no values; otherwise min and max are elements bounding all values and the mean lies between them |
| BaseSolver.FindLastOf | src/BaseSolver.cpp:20-23 | the last position holding a character of the set, or -1 when no character after it (or at all) belongs to the set |
| BaseSolver.FileName | src/BaseSolver.cpp:20-23 | the file name is a separator-free suffix of the path |
| BaseSolver.InstanceName | src/BaseSolver.cpp:24-27 | the instance name is a prefix of the file name; it is the whole name when there is no dot, and otherwise stops exactly at the last dot |
| BaseSolver.InstanceNameOfFile | src/BaseSolver.cpp:20-27 | for `dir/stem.ext`, with a dot-free extension, the instance name is `stem` |
| BaseSolver.NewBase | src/BaseSolver.cpp:11-31 | the constructor keeps the instance, the name derived from the path and, for a well-formed instance, the node count |
| Tours.Elements | src/Solution.cpp:10-15 | the membership set holds exactly the tour's nodes; the same set is the node set of a solutions row (`lab8/analyze.py`) |
| Solutions.Empty | src/Solution.h:18 | a fresh solution is valid and holds no nodes |
| Solutions.CRem | src/Solution.cpp:81-91 | C++ `%` truncates toward zero: it agrees with `%` for non-negative operands and is negated for negative ones |
| Solutions.AddNodeValid | src/Solution.cpp:10-15 | `addNode` appends the node, keeps the node set in step and keeps a duplicate-free tour duplicate-free when the node is new |
| Solutions.RemoveNodeValid | src/Solution.cpp:17-23 | `removeNode` drops exactly the node at an in-range index and changes nothing for an index out of range |
| Solutions.RemoveNodesValid | src/Solution.cpp:25-31 | `removeNodes` erases the clipped range starting at an in-range index and changes nothing otherwise |
| Solutions.SetNodesValid | src/Solution.cpp:43-48 | `setNodes` installs the given nodes and rebuilds the node set to match |
| Solutions.ContainsIsMembership | src/Solution.cpp:33-36 | the set lookup answers tour membership |
| Solutions.IndexHelpers | src/Solution.cpp:75-91 | the node, next-index and previous-index accessors are the cyclic neighbours |
| Solutions.ExchangeNodeAtIndexValid | src/Solution.cpp:102-108 | replacing the node at an in-range index with an outside node keeps the solution valid and duplicate-free |
| Solutions.IntraExchangesValid | src/Solution.cpp:110-135 | swapping two nodes and exchanging two edges permute the tour and keep it valid and duplicate-free |
| Solutions.ExchangeTwoEdgesOrder | src/Solution.cpp:123-135 | `exchangeTwoEdges` reverses the nodes strictly after the first edge up to the second, in either argument order |
| Solutions.Evaluate | src/Solution.cpp:137-154 | the loop yields the tour cost |
| Solutions.MostBeneficialNode | src/Solution.cpp:156-176 | -1 when no allowed node scores below `INT_MAX`; otherwise the first allowed node of least distance plus cost |
| Solutions.CalculateDeltaInterRouteExact | src/Solution.cpp:178-201 | on tours of two or more nodes, the inter-route delta is the exact cost change of the replacement |
| Solutions.IntraRouteNodesFirstLast | src/Solution.cpp:203-258 | as written, swapping the first and last of four nodes is reported as +2 while the real change is 0 |
| Solutions.IntraRouteNodesAgrees | src/Solution.cpp:203-258 | the corrected evaluation agrees with the code on every pair except on two-node tours and on the pair whose second index precedes the first cyclically |
| Solutions.CalculateDeltaIntraRouteNodesExact | src/Solution.cpp:203-258 | with a symmetric matrix the corrected node-swap delta is the exact cost change of swapping positions `i < j`, the first-and-last pair included |
| Solutions.NodesEndsFormula | src/Solution.cpp:203-258 | for the first-and-last pair the corrected C++ delta equals the C node-swap delta |
| Solutions.NodesInnerFormula | src/Solution.cpp:203-258 | for every other pair the C++ delta equals the C node-swap delta |
| Solutions.CalculateDeltaInterRouteNodesCandidatesExact | src/Solution.cpp:260-299 | the candidate delta, for either neighbour direction, is the exact cost change of putting the candidate at the index it reports |
| Solutions.CalculateDeltaIntraRouteEdgesExact | src/Solution.cpp:301-320 | the 2-opt delta is the exact cost change of `exchangeTwoEdges` |
| Solutions.EdgesFormula | src/Solution.cpp:301-320 | the C++ 2-opt delta equals the C one |
| LocalSearch.TwoNodesExchangeOnTwoNodeTour | 01_greedy_heuristics/src/local_search.c:370-417 | as written, swapping the nodes of a two-node tour is reported as -2 while the real change is 0 |
| LocalSearch.TwoNodesExchangeAgrees | 01_greedy_heuristics/src/local_search.c:370-417 | the corrected delta agrees with the code except on two-node tours, where the code reports minus twice the edge |
| LocalSearch.DeltaTwoNodesExchangeExact | 01_greedy_heuristics/src/local_search.c:370-417 | the corrected node-swap delta is the exact cost change of the swap |
| LocalSearch.ExchangeOnTwoNodes | 01_greedy_heuristics/src/local_search.c:370-417 | swapping the two nodes of a two-node tour leaves its cost unchanged |
| LocalSearch.ExchangeEnds | 01_greedy_heuristics/src/local_search.c:393-402 | the corrected delta is exact for the first and last positions |
| LocalSearch.ExchangeAdjacent | 01_greedy_heuristics/src/local_search.c:383-392 | the corrected delta is exact for neighbouring positions |
| LocalSearch.ExchangeApart | 01_greedy_heuristics/src/local_search.c:403-414 | the corrected delta is exact for positions that are not neighbours |
| LocalSearch.DeltaTwoEdgesExchangeExact | 01_greedy_heuristics/src/local_search.c:419-447 | with a symmetric matrix the 2-opt delta, 0 for the same or adjacent edges, is the exact cost change of reversing the segment after the first edge up to the second, for every `i < j` |
| LocalSearch.TwoEdgesEnds | 01_greedy_heuristics/src/local_search.c:438-446 | the 2-opt delta is the two new edges minus the two removed ones at the ends of the reversed segment |
| LocalSearch.InterRouteExchangeOnOneNodeTour | 01_greedy_heuristics/src/local_search.c:469-487 | as written, replacing the node of a one-node tour is reported as +2 while the real change is 0 |
| LocalSearch.InterRouteExchangeAgrees | 01_greedy_heuristics/src/local_search.c:469-487 | the corrected delta agrees with the code on tours of two or more nodes and is below it by the two phantom edges on a one-node tour |
| LocalSearch.DeltaInterRouteExchangeExact | 01_greedy_heuristics/src/local_search.c:469-487 | the corrected replacement delta is the exact cost change |
| LocalSearch.PosBijective | 01_greedy_heuristics/src/local_search.c:449-467 | counting positions from the segment start is a bijection on indices |
| LocalSearch.SegmentLength | 01_greedy_heuristics/src/local_search.c:449-467 | the wrapped segment length is between 1 and the tour size, and is the full size exactly when the end precedes the start |
| LocalSearch.ReverseSegment | 01_greedy_heuristics/src/local_search.c:449-467 | the in-place loop permutes the tour; a segment shorter than the tour is mirrored, wrapping included; a full-length segment leaves the tour unchanged; a non-wrapping segment is `ReverseRange` |
| LocalSearchRun.NeighbourhoodMembers | 01_greedy_heuristics/src/local_search.c:130-183 | the move list holds exactly the intra pairs of the chosen kind and the exchanges of a tour position with an outside node |
| LocalSearchRun.MoveDeltaExact | 01_greedy_heuristics/src/local_search.c:185-205 | for every listed move, the model's evaluation `MoveDelta` (the corrected deltas) is the exact cost change of applying it |
| LocalSearchRun.MoveDeltaAgrees | 01_greedy_heuristics/src/local_search.c:130-175 | `MoveDelta` equals the evaluation the C loops call, the as-written deltas, on every tour of three or more nodes; 2-opt always agrees, exchanges from two nodes on, node swaps except on two nodes |
| LocalSearchRun.AsWrittenSwapNeverSettles | 01_greedy_heuristics/src/local_search.c:116-135 | on a two-node tour with node swaps, the C loop lists the swap, the as-written delta reports it improving by −2·d, and applying it gives another such tour at the same cost, so `while (improvement)` never ends |
| LocalSearchRun.InterMoveExact | 01_greedy_heuristics/src/local_search.c:469-487 | the corrected exchange delta is the exact change of the replacement |
| LocalSearchRun.NodesMoveExact | 01_greedy_heuristics/src/local_search.c:370-417 | the corrected node-swap delta is the exact change of the swap |
| LocalSearchRun.EdgesMoveExact | 01_greedy_heuristics/src/local_search.c:419-467 | a 2-opt delta is the exact change of the reversal |
| LocalSearchRun.ApplyMoveKeepsTour | 01_greedy_heuristics/src/local_search.c:188-205 | applying any listed move keeps the tour duplicate-free, in range and of the same size |
| LocalSearchRun.IsInSolution | 01_greedy_heuristics/src/local_search.c:496-504 | true exactly when the node is in the tour |
| LocalSearchRun.SwapNodes | 01_greedy_heuristics/src/local_search.c:489-494 | exchanges the two positions and nothing else |
| LocalSearchRun.ApplyMoveInPlace | 01_greedy_heuristics/src/local_search.c:188-205 | the in-place update produces the functional move result |
| LocalSearchRun.FindBestMove | 01_greedy_heuristics/src/local_search.c:123-184 | -1 when no move improves; otherwise the first move of least negative delta |
| LocalSearchRun.FindFirstImproving | 01_greedy_heuristics/src/local_search.c:275-320 | -1 when no move improves; otherwise the first improving move in list order |
| LocalSearchRun.ShuffleMoves | 01_greedy_heuristics/src/local_search.c:506-517 | the shuffle is a permutation of the move list |
| LocalSearchRun.NoListedImprovement | 01_greedy_heuristics/src/local_search.c:206-208 | when no listed move improves under `MoveDelta`, no move of the neighbourhood lowers the cost |
| LocalSearchRun.ImprovingStep | 01_greedy_heuristics/src/local_search.c:185-205 | a move improving under `MoveDelta` yields a valid tour whose cost is the old cost plus the delta, strictly lower |
| LocalSearchRun.ListMoves | 01_greedy_heuristics/src/local_search.c:113-183 | the (possibly shuffled) list holds the same moves as the neighbourhood, and is the neighbourhood itself for steepest search |
| LocalSearchRun.SearchRound | 01_greedy_heuristics/src/local_search.c:113-208 | a round under `MoveDelta` either strictly improves with exact cost tracking, or certifies a local optimum and changes nothing |
| LocalSearchRun.Improve | 01_greedy_heuristics/src/local_search.c:113-323 | the search under `MoveDelta` ends at a local optimum no worse than the start, with the tracked cost exact; this is the C search on tours of three or more nodes |
| LocalSearchRun.RandomStart | 01_greedy_heuristics/src/local_search.c:85-104 | the shuffled start is a duplicate-free in-range tour of the target size |
| LocalSearchRun.Solve | 01_greedy_heuristics/src/local_search.c:59-366 | one run per solution, each a local optimum of the target size with exact cost, and the record is the fold of the runs; the C solver for five or more nodes |
| Records.Update | 01_greedy_heuristics/src/algorithms.c:79-109 | adding a run adds its cost to the total, and moves best and worst only to that cost and only in their direction |
| Records.RecordAllBounds | 01_greedy_heuristics/src/local_search.c:325-350 | after all runs, best and worst bound every run cost, the total is the sum, and the `INT_MAX` / `INT_MIN` sentinels remain only when no run beats them |
| Records.RecordAllBest | 01_greedy_heuristics/src/local_search.c:325-340 | the best cost and tour come from the first run achieving the least cost |
| Records.RecordAllWorst | 01_greedy_heuristics/src/local_search.c:341-350 | the worst cost and tour come from the first run achieving the greatest cost |
| Ranking.SortByKeySorted | 01_greedy_heuristics/src/cm_local_search.c:278-318 | sorting by key yields a key-ordered permutation of the input |
| Ranking.SortByKeyOrdered | src/CMLocalSearchSolver.cpp:229-233 | the sort output is ordered by key |
| Ranking.SortByKeyPerm | src/CMLocalSearchSolver.cpp:229-233 | the sort output is a permutation of the input |
| Ranking.InsertByKeySorted | src/CMLocalSearchSolver.cpp:229-233 | inserting into a key-ordered list keeps it ordered and adds exactly that element |
| Ranking.PrefixSmallest | 01_greedy_heuristics/src/cm_local_search.c:310-315 | in a key-ordered list every kept prefix element has a key no greater than any dropped element |
| Ranking.FirstMin | 01_greedy_heuristics/src/algorithms.c:764-784 | the first position of the least value below the bound, or -1 when no value is below it |
| Ranking.MinBelow | 01_greedy_heuristics/src/algorithms.c:348-375 | the least value, capped by the bound, is a lower bound attained unless it is the bound |
| DeltaLocalSearch.InitLinks | 01_greedy_heuristics/src/delta_local_search.c:130-138 | the successor and predecessor arrays give every tour node its cyclic neighbours and leave other entries alone |
| DeltaLocalSearch.LinksWalk | 01_greedy_heuristics/src/delta_local_search.c:130-138 | following successor links from the first node walks the tour in order, and predecessor undoes successor |
| DeltaLocalSearch.ApplyInterMove | 01_greedy_heuristics/src/delta_local_search.c:483-505 | the exchange replaces the node in the tour, unlinks the old node and touches only the links around it |
| DeltaLocalSearch.ApplyInterMoveLinks | 01_greedy_heuristics/src/delta_local_search.c:483-505 | after an exchange the links again describe the new tour |
| DeltaLocalSearch.ApplyTwoOptMove | 01_greedy_heuristics/src/delta_local_search.c:453-481 | the 2-opt move reverses the segment, and the relinking loop makes the links describe the new tour |
| DeltaLocalSearch.Relink | 01_greedy_heuristics/src/delta_local_search.c:467-481 | the relinking loop links every node of the reversed stretch to its new successor and predecessor |
| DeltaLocalSearch.TwoOptLinks | 01_greedy_heuristics/src/delta_local_search.c:467-481 | after relinking the reversed segment, every node's links are its new cyclic neighbours |
| DeltaLocalSearch.UpdateMove | 01_greedy_heuristics/src/delta_local_search.c:508-571 | -1 exactly when a stored edge no longer exists; 1 exactly when both exist with the same orientation (flipped when reversed); 0 otherwise |
| DeltaLocalSearch.UpdateMoveOnTour | 01_greedy_heuristics/src/delta_local_search.c:508-571 | the same classification stated on tour positions instead of links |
| DeltaLocalSearch.RemovedNodeDropsMoves | 01_greedy_heuristics/src/delta_local_search.c:503-504 | a stored move whose first or second edge starts at the exchanged-out node is discarded |
| DeltaLocalSearch.RemovedEndDropsMoves | 01_greedy_heuristics/src/delta_local_search.c:486-504 | a stored move whose first or second edge ends at the exchanged-out node is discarded, when both edges start on the new tour |
| DeltaLocalSearch.Insert | 01_greedy_heuristics/src/delta_local_search.c:591-621 | the move goes after all smaller deltas and before the first not-smaller one, adding exactly that move and keeping the list sorted |
| DeltaLocalSearch.InsertKeepsOrder | 01_greedy_heuristics/src/delta_local_search.c:591-621 | inserting before the first not-smaller delta keeps the list sorted |
| DeltaLocalSearch.DeleteNode | 01_greedy_heuristics/src/delta_local_search.c:648-674 | unlinking removes exactly one entry and keeps the others in order |
| DeltaLocalSearch.DeleteNodeKeepsOrder | 01_greedy_heuristics/src/delta_local_search.c:648-674 | deleting an entry keeps the list sorted by delta |
| DeltaLocalSearch.GetSmallest | 01_greedy_heuristics/src/delta_local_search.c:624-630 | none for an empty list; otherwise the head, whose delta is least in a sorted list |
| DeltaLocalSearch.DeleteSmallest | 01_greedy_heuristics/src/delta_local_search.c:632-644 | removing the smallest drops exactly the head |
| DeltaLocalSearch.DeleteSmallestIsDeleteHead | 01_greedy_heuristics/src/delta_local_search.c:632-674 | deleting the smallest is deleting the node at the head, and keeps the list sorted |
| DeltaLocalSearch.ScanList | 01_greedy_heuristics/src/delta_local_search.c:149-202 | the scan keeps a sub-multiset of the stored moves; it either returns a move whose edges both exist in the same direction, or leaves only moves whose edges exist in mixed directions |
| DeltaLocalSearch.ScanListKeepsOrder | 01_greedy_heuristics/src/delta_local_search.c:149-202 | the list left by the scan is still sorted by delta |
| CandidateLocalSearch.ComputeCandidateEdges | 01_greedy_heuristics/src/cm_local_search.c:278-318 | one candidate row per node |
| CandidateLocalSearch.CandidateRowSpec | 01_greedy_heuristics/src/cm_local_search.c:278-318 | each row holds the requested number of distinct nodes in order of distance plus cost, none dearer than any node left out |
| CandidateLocalSearch.CandidateRowExcludesSelf | 01_greedy_heuristics/src/cm_local_search.c:290-296 | when the list is shorter than the node count and every other node scores below `INT_MAX`, the node never lists itself, because its own entry is set to `INT_MAX` |
| CandidateLocalSearch.IsCandidateEdge | 01_greedy_heuristics/src/cm_local_search.c:320-335 | true exactly when either end lists the other as a candidate |
| CandidateLocalSearch.DeltaTwoEdgesExchangeCandidate | 01_greedy_heuristics/src/cm_local_search.c:337-378 | the 2-opt delta when the move introduces a candidate edge, 0 otherwise |
| CandidateLocalSearch.DeltaInterRouteExchangeCandidate | 01_greedy_heuristics/src/cm_local_search.c:380-415 | the exchange delta when the move introduces a candidate edge, 0 otherwise |
| CandidateLocalSearch.InitFlags | 01_greedy_heuristics/src/cm_local_search.c:139-142 | the in-solution flags mark exactly the tour's nodes |
| CandidateLocalSearch.FlagsAfterExchange | 01_greedy_heuristics/src/cm_local_search.c:195-205 | clearing the old node's flag and setting the new one keeps the flags exact |
| CandidateLocalSearch.FlagsAfterPermutation | 01_greedy_heuristics/src/cm_local_search.c:195-205 | a 2-opt move leaves the flags exact |
| CandidateLocalSearch.CandidateNeighbourhoodMembers | 01_greedy_heuristics/src/cm_local_search.c:174-193 | the move list holds exactly every 2-opt pair and every exchange with an unflagged candidate |
| CandidateLocalSearch.ApplyCandidateMove | 01_greedy_heuristics/src/cm_local_search.c:195-205 | applying a candidate move yields the move result and keeps the flags exact |
| CandidateLocalSearch.CandidateStep | 01_greedy_heuristics/src/cm_local_search.c:195-205 | a candidate move keeps the tour duplicate-free and in range; the cost changes exactly by the delta on tours of two or more nodes and by at most the delta on a one-node tour |
| CandidateLocalSearch.CandidateRound | 01_greedy_heuristics/src/cm_local_search.c:145-213 | a round either strictly lowers the tracked cost or reports a candidate optimum and changes nothing |
| CandidateLocalSearch.CandidateImprove | 01_greedy_heuristics/src/cm_local_search.c:145-213 | the search ends at a candidate optimum no worse than its start; the tracked cost bounds the real cost and equals it except on a one-node tour |
| CandidateLocalSearch.NoCandidateEdgesImprovement | 01_greedy_heuristics/src/cm_local_search.c:337-378 | at a candidate optimum no 2-opt move introducing a candidate edge lowers the cost |
| CandidateLocalSearch.NoCandidateExchangeImprovement | 01_greedy_heuristics/src/cm_local_search.c:380-415 | at a candidate optimum no exchange introducing a candidate edge lowers the cost |
| CandidateLocalSearch.CandidateSolve | 01_greedy_heuristics/src/cm_local_search.c:51-263 | one run per solution, each a duplicate-free in-range candidate optimum of the target size whose cost is exact for more than two nodes, with the record folded over the runs |
| CandidateSolver.Others | src/CMLocalSearchSolver.cpp:223-228 | the nodes other than the given one, each once |
| CandidateSolver.ConstructCandidateNodes | src/CMLocalSearchSolver.cpp:219-239 | one candidate row per node |
| CandidateSolver.CandidateNodesSpec | src/CMLocalSearchSolver.cpp:219-239 | each row lists the requested number of distinct other nodes in order of distance plus cost, none dearer than a node left out |
| CandidateSolver.CandidateNodesCheapest | src/CMLocalSearchSolver.cpp:229-236 | no listed candidate is dearer than an unlisted node |
| CandidateSolver.ConstructedListsInRange | src/CMLocalSearchSolver.cpp:219-239 | every constructed list holds only node ids |
| CandidateSolver.ConstructNodeLookup | src/CMLocalSearchSolver.cpp:203-212 | the lookup maps exactly the tour's nodes to their last position, and to their only position on a duplicate-free tour |
| CandidateSolver.LookupFindsPosition | src/CMLocalSearchSolver.cpp:214-217 | the index lookup returns the node's position |
| CandidateSolver.LookupAfterInter | src/CMLocalSearchSolver.cpp:180-188 | after an exchange the lookup is again exact for the new tour, while the removed node's stale entry survives |
| CandidateSolver.UpdateNodeLookupIntraEdges | src/CMLocalSearchSolver.cpp:190-197 | entries outside the reversed stretch are kept and each node inside gets its new position |
| CandidateSolver.LookupAfterEdges | src/CMLocalSearchSolver.cpp:190-197 | after a 2-opt move the lookup is exact for the new tour |
| CandidateSolver.PickBest | src/CMLocalSearchSolver.cpp:89-118 | the least-delta found move, the first of its value, or the "no move" marker when none improves |
| CandidateSolver.EdgeMovesOk | src/CMLocalSearchSolver.cpp:72-118 | every 2-opt move the scan finds is a legal pair whose delta is the cost change |
| CandidateSolver.NodeMovesOk | src/CMLocalSearchSolver.cpp:120-163 | every exchange the scan finds brings in an outside node with the cost change as its delta |
| CandidateSolver.CandidateDeltaAgrees | src/Solution.cpp:260-299 | the candidate delta equals the plain inter-route delta at the index it reports |
| CandidateSolver.ByNodeEdgeMovesIntroduce | src/CMLocalSearchSolver.cpp:80-118 | with rows indexed by node, every found 2-opt move introduces a candidate edge |
| CandidateSolver.ByNodeNodeMovesIntroduce | src/CMLocalSearchSolver.cpp:129-163 | with rows indexed by node, every found exchange introduces a candidate edge |
| CandidateSolver.ByPositionScansNonCandidateMove | src/CMLocalSearchSolver.cpp:83 | with rows indexed by tour position, as written, the scan evaluates a 2-opt move that introduces no candidate edge |
| CandidateSolver.ApplyCandidateMove | src/CMLocalSearchSolver.cpp:165-178 | the named move is applied and the lookup kept exact; an unknown name changes nothing |
| CandidateSolver.CandidatesRound | src/CMLocalSearchSolver.cpp:27-70 | a round either strictly lowers the evaluation with the tour, or proves the scans exhausted and changes nothing |
| CandidateSolver.ApplyImproving | src/CMLocalSearchSolver.cpp:55-66 | applying the chosen move keeps the state valid and changes the cost by its delta |
| CandidateSolver.RunCandidates | src/CMLocalSearchSolver.cpp:27-70 | the loop ends with no improving scanned move, cost no worse than the start and an exact evaluation |
| MoveListSolver.Encode | src/LMLocalSearchSolver.cpp:192-208 | a move is a six-field vector with the delta first and the type last |
| MoveListSolver.Decode | src/LMLocalSearchSolver.cpp:192-208 | a vector decodes exactly when it has six fields |
| MoveListSolver.EncodeDecode | src/LMLocalSearchSolver.cpp:192-208 | decoding an encoded move returns it, and encoding a decoded vector returns it |
| MoveListSolver.LexTotal | src/LMLocalSearchSolver.h:15 | the vector order of the priority queue is total |
| MoveListSolver.LexTrans | src/LMLocalSearchSolver.h:15 | the vector order is transitive |
| MoveListSolver.MinIndex | src/LMLocalSearchSolver.h:15 | an index whose move is least in the queue order |
| MoveListSolver.PopMin | src/LMLocalSearchSolver.cpp:51-53 | popping removes one occurrence of a least move and keeps the rest |
| MoveListSolver.PopMinSmallestDelta | src/LMLocalSearchSolver.cpp:51-53 | the popped move has the smallest delta in the queue |
| MoveListSolver.EdgeExchangesSound | src/LMLocalSearchSolver.cpp:264-290 | every pushed 2-opt move records its nodes and a delta equal to the value of its edges |
| MoveListSolver.EdgeExchangesComplete | src/LMLocalSearchSolver.cpp:264-290 | every improving non-adjacent 2-opt pair is pushed, and only improving 2-opt moves are pushed |
| MoveListSolver.NodeExchangesSound | src/LMLocalSearchSolver.cpp:300-328 | every pushed exchange records its nodes and a delta equal to the value of its edges |
| MoveListSolver.NodeExchangesComplete | src/LMLocalSearchSolver.cpp:300-328 | every improving exchange with an outside node is pushed, and only such moves |
| MoveListSolver.FindNodeIdx | src/Solution.cpp:93-100 | -1 exactly when the node is absent; otherwise its first position |
| MoveListSolver.IsApplicable | src/LMLocalSearchSolver.cpp:78-188 | an applicable move gives in-range indices; an inapplicable one gives -1; only edge moves may be kept |
| MoveListSolver.EdgeMoveClassified | src/LMLocalSearchSolver.cpp:78-151 | a 2-opt move applies exactly when both edges exist in the same direction, and is kept exactly when both exist in mixed directions |
| MoveListSolver.EdgeMoveApplied | src/LMLocalSearchSolver.cpp:78-151 | an applicable 2-opt move is evaluated at its two edges, and its stored delta is the present value of those edges |
| MoveListSolver.EdgeMoveEnds | src/LMLocalSearchSolver.cpp:78-151 | the returned indices sit at the recorded edges, read forwards or backwards |
| MoveListSolver.EdgeMoveAllowed | src/LMLocalSearchSolver.cpp:78-151 | the indices of an applicable 2-opt move are not adjacent |
| MoveListSolver.NodeMoveApplicableIf | src/LMLocalSearchSolver.cpp:152-188 | an exchange whose three nodes are still consecutive and whose new node is outside applies |
| MoveListSolver.NodeMoveApplicableOnlyIf | src/LMLocalSearchSolver.cpp:152-188 | an exchange applies only in that shape |
| MoveListSolver.NodeMoveClassified | src/LMLocalSearchSolver.cpp:152-188 | an exchange is never kept and applies exactly in that shape |
| MoveListSolver.NodeMoveApplied | src/LMLocalSearchSolver.cpp:152-188 | an applicable exchange replaces the recorded middle node, and its stored delta is the present exchange delta |
| MoveListSolver.AppliedTour | src/LMLocalSearchSolver.cpp:209-242 | edge moves exchange two edges and node moves replace the middle node |
| MoveListSolver.AppliedImproves | src/LMLocalSearchSolver.cpp:209-242 | applying an applicable improving move keeps the tour valid and changes its cost by the delta |
| MoveListSolver.PushesSound | src/LMLocalSearchSolver.cpp:226-240 | every move pushed after an application is sound for the new tour |
| MoveListSolver.StepKeeps | src/LMLocalSearchSolver.cpp:47-73 | one loop step keeps the queue invariant; an applied move lowers the evaluation by its delta; otherwise the tour is untouched and the moves are conserved except a dropped one |
| MoveListSolver.Run | src/LMLocalSearchSolver.cpp:47-73 | the loop keeps the invariant, never raises the evaluation, and stops with an empty queue or with its fuel spent |
| MoveListSolver.InitLM | src/LMLocalSearchSolver.cpp:25-45 | the reset starts from the given tour with an empty temporary list |
| MoveListSolver.InitLMInv | src/LMLocalSearchSolver.cpp:257-298 | the initial queue satisfies the invariant |
| LocalSearchSolver.Scan | src/LocalSearchSolver.cpp:310-438 | the scan reports 0 and no move exactly when no pair improves; otherwise an allowed pair with its true delta, of least delta for steepest search and the first improving one for greedy search, with no earlier pair as good |
| LocalSearchSolver.ScanDone | src/LocalSearchSolver.cpp:310-438 | the finished scan's delta bounds every pair, and is the pair's delta when negative |
| LocalSearchSolver.FindBest | src/LocalSearchSolver.cpp:310-438 | the iterators stay permutations and are unchanged for steepest search; the result is as for the scan |
| LocalSearchSolver.ScanCovers | src/LocalSearchSolver.cpp:310-438 | when scanning iterators that cover every index and node finds no improving pair, no move of that kind improves |
| LocalSearchSolver.CoversPermutation | src/LocalSearchSolver.cpp:320-321 | shuffled iterators still cover all indices and nodes |
| LocalSearchSolver.ApplyMoveNamed | src/LocalSearchSolver.cpp:440-454 | an unknown move name changes nothing |
| LocalSearchSolver.WrappedPairNotImproving | src/Solution.cpp:203-258 | on two-node tours and on the first-and-last pair the wrong evaluation is never negative, so the search never applies those swaps |
| LocalSearchSolver.ImprovingMove | src/LocalSearchSolver.cpp:440-454 | applying a found move keeps the tour valid and changes its cost by the delta |
| LocalSearchSolver.OneNodeReplacement | src/Solution.cpp:178-201 | on a one-node tour the real change of a replacement is at most the inter delta |
| LocalSearchSolver.Search | src/LocalSearchSolver.cpp:310-438 | a negative result is an allowed in-range move with its true delta; zero certifies no improving move of that kind |
| LocalSearchSolver.Round | src/LocalSearchSolver.cpp:276-297 | the round returns the chosen neighbourhood's improving move, or certifies both neighbourhoods exhausted |
| LocalSearchSolver.RunBasic | src/LocalSearchSolver.cpp:234-308 | the search ends at a tour with no improving exchange or intra move of the chosen kind, no worse than its start, with exact evaluation |
| LocalSearchSolver.NoInterImprovement | src/LocalSearchSolver.cpp:310-352 | at the end no exchange with an outside node lowers the cost |
| LocalSearchSolver.NoEdgesImprovement | src/LocalSearchSolver.cpp:397-438 | at the end no 2-opt move lowers the cost |
| LocalSearchSolver.NoNodesImprovement | src/LocalSearchSolver.cpp:354-395 | at the end no node swap other than the first-and-last pair lowers the cost; that pair is mispriced by the node evaluation as written |
| LocalSearchSolver.PerturbBestSolution | src/LocalSearchSolver.cpp:87-107 | the perturbed tour is a permutation of the old one and the stored evaluation stays exact |
| LocalSearchSolver.CycleEdges | src/LocalSearchSolver.cpp:155-161 | the edge list pairs every node with the next and closes the cycle |
| LocalSearchSolver.InsertionRow | src/LocalSearchSolver.cpp:173-188 | scanning one node's edges keeps the best-insertion invariant |
| LocalSearchSolver.BestInsertion | src/LocalSearchSolver.cpp:165-192 | none when no insertion is below `INT_MAX`; otherwise the first outside node and edge of least insertion cost |
| LocalSearchSolver.GreedyInsertion | src/LocalSearchSolver.cpp:163-202 | nodes are only appended; the edge list is, up to order and orientation, the edge list of a closed tour through exactly the solution's nodes; stopping short means no insertion is possible |
| LocalSearchSolver.InsertNext | src/LocalSearchSolver.cpp:163-202 | one round of the loop: the best pair is inserted with the invariant kept, or the loop stops (the `break`) because no insertion is possible |
| LocalSearchSolver.InsertStep | src/LocalSearchSolver.cpp:194-201 | one insertion appends a new node and keeps the phase invariant, the edge list a cycle through the nodes included |
| LocalSearchSolver.InsertStepCycle | src/LocalSearchSolver.cpp:194-201 | replacing a listed edge by the two edges to a new node keeps the list a cycle through the nodes, now with the new node |
| LocalSearchSolver.InsertKeepsCycle | src/LocalSearchSolver.cpp:194-201 | the new cycle is the old tour with the node put between the replaced edge's two ends |
| LocalSearchSolver.CycleEdgeAt | src/LocalSearchSolver.cpp:194-196 | every listed edge of a cycle joins two consecutive nodes of its tour, in one direction or the other |
| LocalSearchSolver.InsertIntoCycle | src/LocalSearchSolver.cpp:197-199 | inserting a node into a tour swaps one undirected edge for the two through the node |
| LocalSearchSolver.ReplaceEdge | src/LocalSearchSolver.cpp:194-199 | erasing an edge and pushing the two edges to the new node changes the undirected edges the same way |
| LocalSearchSolver.CycleEdgesIsCycle | src/LocalSearchSolver.cpp:155-161 | the starting edge list is a cycle through the starting nodes |
| LocalSearchSolver.InsertKeepsEdges | src/LocalSearchSolver.cpp:197-199 | replacing an edge by two edges through the new node keeps both ends of every edge on the longer tour |
| LocalSearchSolver.FindLink | src/LocalSearchSolver.cpp:210-229 | the first edge touching the node and its other end, or none when no edge touches it |
| LocalSearchSolver.Reorder | src/LocalSearchSolver.cpp:204-231 | the ordering loop as written: the first edge touching the last node is erased and its other end appended, `None` where no edge touches it and the loop never ends; `ReorderFollowsEdges` states what it yields |
| LocalSearchSolver.ReorderFollowsEdges | src/LocalSearchSolver.cpp:204-231 | every consecutive pair in the rebuilt order is an edge of the list |
| LocalSearchSolver.GreedyCycleRepair | src/LocalSearchSolver.cpp:153-232 | the repair grows the tour by appending, its edges are a cycle through exactly the solution's nodes, and any rebuilt order follows the edges |
| Constructions.MinTies | 01_greedy_heuristics/src/algorithms.c:195-214 | the least value and exactly the candidates attaining it |
| Constructions.MaxTies | 01_greedy_heuristics/src/algorithms.c:510-530 | the greatest value and exactly the candidates attaining it |
| Constructions.MinTiesInOrder | 01_greedy_heuristics/src/algorithms.c:195-214 | the ties are the candidates of least value in scan order |
| Constructions.MaxTiesInOrder | 01_greedy_heuristics/src/algorithms.c:513-530 | the ties are the candidates of greatest value in scan order |
| Constructions.InsertAt | 01_greedy_heuristics/src/algorithms.c:386-392 | the shifting loop puts the node at the position and moves the rest up by one |
| Constructions.InsertAtIsInsertedAt | 01_greedy_heuristics/src/algorithms.c:386-392 | the shifted array is the tour with the node inserted, one more of that node and nothing else changed |
| Constructions.InsertCost | 01_greedy_heuristics/src/algorithms.c:352-360 | inserting a node between two neighbours raises the cost by the increase the code computes |
| Constructions.InsertKeepsTour | 01_greedy_heuristics/src/algorithms.c:386-393 | inserting an unvisited node keeps the tour duplicate-free and in range |
| Constructions.ScanSlotsSmallest | 01_greedy_heuristics/src/algorithms.c:764-784 | the smallest insertion cost is that of the first least slot, and the insertion position is just after that slot; with no slot below `INT_MAX` the scan reports `INT_MAX` and -1 |
| Constructions.ScanSlotsSecond | 01_greedy_heuristics/src/algorithms.c:764-784 | the second-smallest is the least over the other slots |
| Constructions.Regret | 01_greedy_heuristics/src/algorithms.c:786-794 | the regret is non-negative and 0 when there is only one slot |
| Constructions.RegretCandCheapest | 01_greedy_heuristics/src/algorithms.c:764-785 | the smallest cost the regret scan finds is no more than inserting the node at any position |
| Constructions.RegretCandValue | 01_greedy_heuristics/src/algorithms.c:787-794 | with two or more slots the regret is the second-smallest minus the smallest insertion cost |
| Constructions.IncreaseInInt | 01_greedy_heuristics/src/algorithms.c:352-360 | for instances whose data fit in a quarter of `INT_MAX`, an insertion increase stays strictly between the sentinels |
| Constructions.CandidatesMembers | 01_greedy_heuristics/src/algorithms.c:195-214 | the candidate list holds exactly the unvisited nodes with their heuristic entries |
| Constructions.ChoiceValid | 01_greedy_heuristics/src/algorithms.c:221-226 | every tie the draw may pick is an unvisited node with an in-range position |
| Constructions.TiesOverflowSlots | 01_greedy_heuristics/src/algorithms.c:345-373 | the ties are (node, position) pairs and can outnumber the `num_nodes` array slots: three nodes at zero distance and cost give four ties in the first anywhere-insertion step |
| Constructions.NoTiesOnlyWhenFull | 01_greedy_heuristics/src/algorithms.c:215-219 | the tie list is empty exactly when every node is visited |
| Constructions.EndChoiceNearest | 01_greedy_heuristics/src/algorithms.c:190-226 | end insertion appends a node nearest to the current last node |
| Constructions.InsertChoiceCheapest | 01_greedy_heuristics/src/algorithms.c:343-392 | nearest-neighbour-anywhere and greedy-cycle insertion produce a tour no dearer than inserting any unvisited node at any position, and its cost rises by the chosen value |
| Constructions.InsertAlternative | 01_greedy_heuristics/src/algorithms.c:546-596 | the chosen value is no more than the increase of inserting any unvisited node at any position |
| Constructions.RegretChoiceLargest | 01_greedy_heuristics/src/algorithms.c:795-808 | the chosen node has the largest regret |
| Constructions.RegretChoiceCheapest | 01_greedy_heuristics/src/algorithms.c:764-826 | the regret choice inserts at that node's cheapest position |
| Constructions.SeedAsWrittenFacts | 01_greedy_heuristics/src/algorithms.c:510-545 | as written the seed is the start plus an other node farthest from it; it fails exactly when every distance from the start is below the initial -1 |
| Constructions.SeedOverfillsTwoNodes | 01_greedy_heuristics/src/algorithms.c:538-546 | with two nodes, as written the seed holds two nodes where the target size is one |
| Constructions.SeedFits | 01_greedy_heuristics/src/algorithms.c:510-545 | the corrected seed holds the start and a farthest node when the target size allows two nodes, otherwise the start alone; it is duplicate-free, in range, and fails exactly as the code does |
| Constructions.FarthestCands | 01_greedy_heuristics/src/algorithms.c:510-530 | each candidate of the farthest-node scan carries its distance from the start |
| Constructions.GrowStep | 01_greedy_heuristics/src/algorithms.c:147-826 | each construction step adds one unvisited node at a valid position, keeping the partial tour valid |
| Constructions.NearestChainExtend | 01_greedy_heuristics/src/algorithms.c:190-226 | appending a node nearest to the last one extends a nearest-neighbour chain |
| Constructions.Construct | 01_greedy_heuristics/src/algorithms.c:147-826 | each heuristic builds a duplicate-free in-range tour of the target size containing the start; end insertion builds a nearest-neighbour chain; greedy cycle and 2-regret use the corrected seed, which differs from the C on two nodes |
| Constructions.SolveFrom | 01_greedy_heuristics/src/algorithms.c:163-283 | runs from one start node are valid and extend the record as its fold; end and anywhere insertion produce one run per requested solution; greedy cycle and 2-regret use the corrected seed, which differs from the C on two nodes |
| Constructions.Solve | 01_greedy_heuristics/src/algorithms.c:147-283 | every run is a valid tour of the target size with its cost, at most one per start node and solution (exactly that for end and anywhere insertion), and the record is the fold of the runs; greedy cycle and 2-regret use the corrected seed, which differs from the C on two nodes |
| Constructions.RandomSearch | 01_greedy_heuristics/src/algorithms.c:29-130 | one valid random tour per solution, with the record folded over them |
| Generators.NearestNeighborGenerate | src/NearestNeighbor.cpp:13-25 | starting at the start node, each next node is the first unvisited one of least distance plus cost |
| Generators.NearestFromExtend | src/Solution.cpp:156-176 | appending the first unvisited node of least score keeps the tour a nearest-neighbour chain |
| Generators.SecondNode | src/GreedyCycle.cpp:15-17 | the second node is the first other node of least distance plus cost |
| Generators.GreedyCycleGenerate | src/GreedyCycle.cpp:13-88 | the tour starts with the start and the best second node, its edges are a cycle through exactly its nodes, and any rebuilt order follows them |
| Generators.SweepFollowsEdges | src/GreedyCycle.cpp:66-85 | each sweep step extends the order along an edge of the list |
| Generators.OrderAsWritten | src/GreedyCycle.cpp:66-85 | the ordering loop as written: repeated sweeps that skip the edge moved into an erased slot, `None` when a sweep erases nothing and the loop never ends; `OrderFollowsEdges` states what it yields |
| Generators.OrderFollowsEdges | src/GreedyCycle.cpp:66-85 | the rebuilt order follows the edge list |
| Generators.Dedup | src/RandomSolution.cpp:10-27 | keeping first occurrences yields the same nodes without repeats |
| Generators.DedupPrefix | src/RandomSolution.cpp:17-26 | the distinct nodes of a prefix of the draws are a prefix of the distinct nodes of all draws |
| Generators.SomeMissing | src/RandomSolution.cpp:17-26 | a duplicate-free tour shorter than the node count misses some node |
| Generators.RandomGenerate | src/RandomSolution.cpp:10-27 | the first distinct draws give the tour, or none when the draws run out first |
| IteratedLocalSearch.PerturbStep | 01_greedy_heuristics/src/ils.c:21-47 | one perturbation step permutes the tour |
| IteratedLocalSearch.Perturbed | 01_greedy_heuristics/src/ils.c:21-47 | any number of steps permutes the tour |
| IteratedLocalSearch.SwapInward | 01_greedy_heuristics/src/ils.c:38-45 | the inward swap loop mirrors exactly the segment |
| IteratedLocalSearch.SwapInwardIsReverse | 01_greedy_heuristics/src/ils.c:38-45 | the mirrored segment is the segment reversal |
| IteratedLocalSearch.PerturbMove | 01_greedy_heuristics/src/ils.c:23-46 | the in-place step produces the functional step |
| IteratedLocalSearch.Perturb | 01_greedy_heuristics/src/ils.c:21-47 | `k` steps (none for negative `k`) permute the tour |
| IteratedLocalSearch.PerturbedKeepsTour | 01_greedy_heuristics/src/ils.c:21-47 | perturbation keeps a tour duplicate-free and in range |
| IteratedLocalSearch.FoldAllAgrees | 01_greedy_heuristics/src/ils.c:158-215 | the ILS bookkeeping agrees with the shared run record in best cost, worst cost, total and best tour; the worst tour differs, since ILS stores the inner search's worst tour beside `worstCost = local_res.bestCost` |
| IteratedLocalSearch.AsRuns | 01_greedy_heuristics/src/ils.c:158-185 | each search result contributes its best tour and cost as a run |
| IteratedLocalSearch.FoldAllBounds | 01_greedy_heuristics/src/ils.c:158-215 | best and worst bound every search result |
| IteratedLocalSearch.Solve | 01_greedy_heuristics/src/ils.c:108-243 | one search before the loop plus one per round, with best and worst bounding them all |
| Analysis.SortedPair | lab8/analyze.py:161 | an edge is stored with its smaller end first |
| Analysis.SortedPairSymmetric | lab8/analyze.py:161 | an edge is stored the same whichever way it is traversed |
| Analysis.EdgeSet | lab8/analyze.py:158-164 | the edge set holds exactly the tour's cyclic edges |
| Analysis.EdgeSetBound | lab8/analyze.py:158-164 | a tour has at most as many edges as nodes |
| Analysis.EdgeSetReverse | lab8/analyze.py:158-164 | a reversed tour has the same edge set |
| Analysis.EdgeSetReversed | lab8/analyze.py:158-164 | a tour read backwards has the same edge set |
| Analysis.EdgeList | lab8/analyze.py:158-163 | the edge list has one sorted edge per node: each consecutive pair, then the first and last node |
| Analysis.FromRow | lab8/analyze.py:147-156 | a row of at least two values splits into tour and evaluation, with the node and edge sets of the tour |
| Analysis.ReadData | lab8/analyze.py:167-173 | all rows but the last become the solutions and the last the best one; reading fails exactly when there are no rows or a row has fewer than two values |
| Analysis.Similarity | lab8/analyze.py:178-188 | defined exactly for the two known measures |
| Analysis.SimilarityProperties | lab8/analyze.py:178-188 | similarity is symmetric and bounded by both solutions' set sizes |
| Analysis.IntersectionBound | lab8/analyze.py:188 | an intersection is no larger than either set |
| Analysis.ComparisonList | lab8/analyze.py:195-204 | `BEST` compares with the best solution alone and `AVERAGE` with every solution |
| Analysis.Without | lab8/analyze.py:243 | the comparison list minus the solution itself |
| Analysis.WithoutAbsent | lab8/analyze.py:243 | filtering out a solution that is not in the list leaves it unchanged |
| Analysis.AverageExcludesSelf | lab8/analyze.py:243 | in the average version, every other solution is compared, in order |
| Analysis.BestNeverExcluded | lab8/analyze.py:243 | in the best version, the best solution is never excluded |
| ResultFiles.LastFieldOf | run.py:25 | the last path field is the text after the last separator |
| ResultFiles.LastField | run.py:25 | the last field is a separator-free suffix, the whole text when there is no separator |
| ResultFiles.RStrip | run.py:25 | `rstrip` removes the longest suffix made only of characters from the set |
| ResultFiles.AsWrittenOfFile | run.py:25 | as written the name is the stem with every trailing character of `_result.txt` removed |
| ResultFiles.ExperimentNameAsWritten | run.py:25 | as written the name is a prefix of the file name that ends in no character of `_result.txt` |
| ResultFiles.FileOfPath | run.py:25 | the file name of `dir/name_result.txt` is `name_result.txt` |
| ResultFiles.RStripDrops | run.py:25 | dropping a tail of set characters first does not change what `rstrip` leaves |
| ResultFiles.GreedyCycleNameMangled | run.py:25 | as written `GreedyCycle_result.txt` is named `GreedyCyc` |
| ResultFiles.StripGreedyCycle | run.py:25 | `rstrip` of `GreedyCycle` with the suffix characters leaves `GreedyCyc` |
| ResultFiles.RStripSuffix | run.py:25 | a tail made only of characters from the set does not change what `rstrip` leaves |
| ResultFiles.ExperimentName | run.py:25 | the corrected name is the file name without the suffix when it ends with it, and the whole file name otherwise |
| ResultFiles.ExperimentNameOfFile | run.py:25 | the corrected name is the file name minus the `_result.txt` suffix |
| ResultFiles.NamesAgree | run.py:25 | the `rstrip` name equals the corrected name exactly when the experiment's name is empty or does not end in one of the characters of `_result.txt` |
| ResultFiles.DigitsRoundTrip | run.py:22-34 | reading the decimal digits of a number gives the number back |
| ResultFiles.ParseShow | run.py:22-34 | parsing a written integer, padded or not, returns it |
| ResultFiles.ParseSignedShow | run.py:22-34 | parsing a written integer, sign included, returns it |
| ResultFiles.TokensOfJoin | run.py:22-34 | splitting a space-joined list of integers and parsing each word returns the list |
| ResultFiles.TokensCons | run.py:32-33 | a space followed by a written integer and a readable rest parses to that integer followed by the rest |
| ResultFiles.TourLineReads | run.py:32-33 | the tour line as `write_Result_to_file` prints it, each node followed by a space, parses back to the tour |
| ResultFiles.ValueLineReads | run.py:26-31 | a written value line parses back to its integer |
| ResultFiles.TextLineReads | run.py:28 | the text after the colon of the average line is read back unchanged |
| ResultFiles.ReadFields | run.py:22-34 | seven lines whose fields parse give the result built from those fields, named by `rstrip` as written |
| ResultFiles.ReadAlgorithmResult | run.py:22-34 | a successful read names the experiment with `rstrip('_result.txt')` of the file name, as written, and takes path length and node costs from lines 5 and 6, after their last colon |
| ResultFiles.ReadWrittenResult | run.py:22-34 | reading a file written in the result format, tour line as the C writer prints it, returns its values, under the `rstrip` name |
| ResultFiles.ShortFileFails | run.py:22-34 | a file of fewer than six lines cannot be read |
| ResultFiles.ValidateResult | run.py:51-74 | no verdict where the Python fails: an empty tour or a node outside the instance; otherwise valid exactly when the recomputed path length and node costs equal the recorded ones |
| ResultFiles.ShiftSolution | run.py:37-43 | no result for an empty tour; otherwise the rotation starting at the first occurrence of the least node |
| ResultFiles.MinIndex | run.py:40 | the first position of the least value |
| ResultFiles.ShiftKeepsTour | run.py:37-43 | the rotation keeps the length, the nodes and the cost, and starts with the least node |

## Left out

- Reading instance files, writing result files, CSV and plotting, and every
  `printf`/`std::cout`: input and output are not modelled. Parsed data and
  written data are parameters.
- Integer overflow in C and C++ `int`: the model uses mathematical integers.
  The constructions and generators assume distances and costs below a
  quarter of `INT_MAX`, so the `INT_MAX` / `INT_MIN` sentinels never collide
  with real values.
- `rand()`, `std::shuffle`, the uniform distributions and the clock are oracle
  parameters. A draw reduced `% m` is modelled exactly; the distribution
  itself is not.
- The ILS time limit is a round count. The inner local search is an oracle
  parameter, required only to keep the tour length.
- Greedy2RegretWeighted and the local-search greedy-2-regret start use
  `double` weights and are not modelled. The C local search models only the
  random start.
- `double` results: `averageCost` and `Utils::mean` are exact reals, and
  `np.average` and `np.corrcoef` are not modelled.
- `ReadAlgorithmResult` keeps the average line as text.
- The node count `totalNodes * fractionNodes` is a parameter; the `double`
  product is not modelled.
- IsSpace covers space, tab, newline and carriage return only. Python
  `int()` also accepts underscores and non-ASCII digits; these are not
  modelled.
- The delta_local_search.c copies of the delta and reversal functions
  (lines 381-449) are identical to the local_search.c ones modelled in
  LocalSearch.
- The main list-of-moves loop of delta_local_search.c (lines 143-324) is
  modelled through its pieces: the scan, the move update, the sorted list
  and the link updates. The whole loop is not modelled.
- The solver methods that only hold `double` timing or output
  (`print_Result`, `free_Result`, the creators) are not modelled.
- Ranking.SortByKey: `qsort` is not stable. The model's insertion sort fixes
  one tie order, which is not the stable one: each element goes after the
  equal keys already placed. Every contract about the candidate lists holds
  for any order of ties.
- CandidateLocalSearch.CandidateSolve: `compare_node_values` subtracts two
  ints, which can overflow. The model compares exactly.
- CandidateLocalSearch.CandidateSolve requires a candidate list no longer
  than the node count, since the C code reads past the sorted array
  otherwise.
- MoveListSolver.Run takes a fuel bound: the queue loop is not proved to
  terminate. Its contract covers a run cut short by the fuel.
- Generators.RandomGenerate reads a finite list of draws and returns none
  when they hold too few distinct nodes, where the C++ loop would keep
  drawing.
- LocalSearchSolver.GreedyCycleRepair and Generators.GreedyCycleGenerate:
  the edge list is proved to be a cycle through the nodes, but the order
  rebuilt from it is not claimed to be a Hamiltonian cycle, only a walk
  along the edges.
- LocalSearchRun.Improve, CandidateLocalSearch.CandidateImprove,
  CandidateSolver.RunCandidates, MoveListSolver.Run and
  LocalSearchSolver.RunBasic (and the round and step members they call)
  assume non-negative distances and node costs, which bound the cost from
  below for the termination measure. Distances are non-negative by their
  `sqrt` construction; node costs are read from the instance file
  unchecked. The same members assume a symmetric matrix, and all but
  LocalSearchRun.Improve a zero diagonal, which that construction also
  gives.
- LocalSearchSolver.PerturbBestSolution requires at least 100 nodes, since
  the code draws edge indices from 0 to 99 whatever the tour size.
- Constructions.Construct draws from the whole tie list. The C keeps ties in
  `best_nodes[num_nodes]` and `best_positions[num_nodes]`, but a tie is a
  (node, position) pair, so there can be more ties than slots and the C then
  writes past the arrays (`TiesOverflowSlots`). The model does not bound the
  list.
- Constructions.Construct, Constructions.SolveFrom and Constructions.Solve
  seed with the corrected `Seed`. On two nodes the C greedy-cycle and 2-regret
  solvers record the tour [start, farthest] and its two-edge cost
  (algorithms.c:538-546, 606-619 and 836-851). The model records [start].
- MoveListSolver.InitLM takes the starting tour as a parameter. The code's
  `reset` always draws it with `RandomSolution::generate(200, 100)`: 100 of
  the nodes 0..199, whatever the instance size.
- LocalSearchRun.Improve and LocalSearchRun.Solve evaluate moves with the
  corrected deltas (`MoveDelta`). That is the C evaluation on tours of three
  or more nodes (`MoveDeltaAgrees`), so they are the C search from five
  nodes on. With 3 or 4 nodes and node swaps the tour has two nodes; when
  they are at positive distance the C loop never ends
  (`AsWrittenSwapNeverSettles`), while the model ends. With 1 or
  2 nodes the C code judges exchanges with phantom edges; the model judges
  them exactly.
- LocalSearchRun.SearchRound, LocalSearchRun.NoListedImprovement and
  LocalSearchRun.ImprovingStep: the same corrected evaluation, so on two-node
  tours with node swaps and on one-node tours they describe the corrected
  search, not the C one.
- LocalSearchRun.MoveDeltaExact, LocalSearchRun.InterMoveExact and
  LocalSearchRun.NodesMoveExact: exactness is stated for the corrected
  deltas; the as-written ones are not exact on one- and two-node tours.
- `destroyAndRepairBestSolution` and `destroyAndRepairBestSolutionV2`
  (src/LocalSearchSolver.cpp:109-151), the destroy step of the C++
  large-neighbourhood search, and the `LSNLocalSearchSolver` loop that
  calls them are not modelled: they cut random runs of nodes with a seeded
  generator against a wall-clock limit. The `removeNodes` edit and the
  greedy-cycle repair they are built from are modelled.
- LocalSearchSolver.RunBasic takes the random choice of neighbourhood order
  as a parameter.

## Findings

| source | as written | input that shows it | evidently intended | confidence | as-written member | corrected member |
|---|---|---|---|---|---|---|
| 01_greedy_heuristics/src/local_search.c:370-417 | the node-swap delta on a two-node tour counts the shared edge twice and reports −2·d; with 3 or 4 nodes and node swaps the search loop therefore never terminates (`LocalSearchRun.AsWrittenSwapNeverSettles`) | tour [0, 1], d(0,1) = 1, no costs: reported −2, real change 0 | 0: on a two-node tour the swap changes nothing | not executed | LocalSearch.TwoNodesExchangeOnTwoNodeTour | LocalSearch.DeltaTwoNodesExchangeExact |
| 01_greedy_heuristics/src/local_search.c:469-487 | on a one-node tour the replacement delta adds the phantom edges to and from the new node | tour [0], new node 1, d = 1 off the diagonal: reported +2, real change 0 | the change of self-loop and node cost | not executed | LocalSearch.InterRouteExchangeOnOneNodeTour | LocalSearch.DeltaInterRouteExchangeExact |
| src/Solution.cpp:203-258 | swapping the first and last nodes is treated as non-adjacent, so the shared edge is counted wrongly | four nodes, unit distances: reported +2, real change 0 | the exact change, as for adjacent nodes | not executed | Solutions.IntraRouteNodesFirstLast | Solutions.CalculateDeltaIntraRouteNodesExact |
| src/CMLocalSearchSolver.cpp:83 | the candidate list is indexed by tour position rather than by the node at it | tour [1, 2, 3, 0], candidate lists [[3], [0], [1], [2]]: position 0 holds node 1 but reads node 0's list [3], so the scan evaluates the 2-opt move (0, 2), which adds the edges 1–3 and 2–0, neither a candidate edge | index by the node at the position | not executed | CandidateSolver.ByPositionScansNonCandidateMove | CandidateSolver.ByNodeEdgeMovesIntroduce |
| 01_greedy_heuristics/src/algorithms.c:345-373 | ties go into arrays of `num_nodes` entries, but there is one tie per (node, position) pair | three nodes at zero distance and cost, tour [0]: four ties, three slots | room for every tie | not executed | Constructions.TiesOverflowSlots | Constructions.ChoiceValid |
| 01_greedy_heuristics/src/algorithms.c:538-546 | greedy cycle and greedy 2-regret always add a farthest second node | two nodes: target size 1, seed holds 2 nodes | seed with a second node only when the target size allows it | not executed | Constructions.SeedOverfillsTwoNodes | Constructions.SeedFits |
| run.py:25 | `rstrip('_result.txt')` strips a character set, not a suffix | `GreedyCycle_result.txt` gives `GreedyCyc` | remove the `_result.txt` suffix | not executed | ResultFiles.GreedyCycleNameMangled | ResultFiles.ExperimentNameOfFile |

The result reader keeps the `rstrip` name as written. `ResultFiles.NamesAgree`
shows it equals the corrected name for names such as `..._TSPA` and `..._TSPB`.
