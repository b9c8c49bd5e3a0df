# Vamana / filtered DiskANN core in Dafny

This project models the algorithmic core of a Vamana-style approximate
nearest-neighbour index and its filtered and stitched variants. The
original is C++ and works on a vector of `Node*`. The model keeps every
node in one sequence, the arena (`Graph.Arena`), and a pointer becomes a
position in it. A node's `id` is ordinary data and need not equal its
position. The source sometimes confuses the two, and the model keeps the
two apart so that those places show.

The parts modelled:

- **Distances** (`Distance`). The Euclidean distance is kept as its
  square. The scaled comparison `a * d1 <= d2` of the pruning rules is
  decided exactly on the squares by `Dominates`.
- **Ordering** (`Selection`). `std::sort` and `nth_element` + `resize`
  are stated relationally: the result is a rearrangement, and nothing
  dropped is strictly closer than anything kept.
- **Beam searches** (`GreedySearch`, `FilteredGreedySearch`). The first
  scans its list for the nearest unvisited entry. The second pops a
  priority queue and admits only nodes whose first coordinate is a query
  filter.
- **Neighbour pruning** (`RobustPrune`, `FilteredRobustPrune`).
  `FilteredRobustPrune` includes its endless `continue`.
- **Entry points** (`Medoid`, `FindMedoid`). These are the k-means
  approximate medoid and the per-filter sampled medoid with usage
  counters.
- **Random choices** (`Shuffle`). The Fisher–Yates shuffle is driven by
  an explicit list of draws. Every random choice of the source is such a
  list.
- **Builders**:
  - `Vamana`;
  - `FilteredVamana`;
  - `StitchedVamana`, which builds one graph per tag and then prunes
    globally;
  - `StitchedImproved`, which groups by filter, interconnects the groups,
    builds per group, then prunes and erases foreign edges.
- **The brute-force oracle** (`BruteForce`) and **recall** (`Recall`).
- **The row/node converters** (`FileManipulation`).

Where the source can fail, the model returns `Result`. The `Error`
values are:

- an exception (`EmptyCluster`, `InvalidClusterCount`, `EmptyInput`,
  `LargestClusterEmpty`);
- a read past the end of a vector (`OutOfRange`);
- a loop that never ends (`Diverges`);
- a finite list of random draws that ran out (`DrawsExhausted`). This
  stands for the source drawing forever, or for a caller that supplied
  too few draws.

## Model

| member | source | states |
|---|---|---|
| Distance.SqDist | modules/greedysearch.cpp:4-10 | the squared distance is never negative and reads `b` only at `a`'s positions, as the loop over `a->coords.size()` does |
| Distance.SqDistSymmetric | modules/greedysearch.cpp:4-10 | over equal dimensions the distance is symmetric |
| Distance.SqDistSelf | modules/greedysearch.cpp:4-10 | a point is at distance zero from itself |
| Distance.SqDistZeroIff | modules/greedysearch.cpp:4-10 | the distance is zero exactly when `b` agrees with `a` on `a`'s positions |
| Distance.SqDistExample | tests/astiched_test.cpp:14-18 | {1,2,3} and {4,5,6} are √27 apart (squared distance 27) |
| Distance.DominatesIsScaledRootComparison | modules/robustprune.cpp:47 | `Dominates` on squared distances holds exactly when `alpha * d1 <= d2` holds on the true distances, for every alpha, including negative ones |
| Selection.SortByKey | modules/robustprune.cpp:33 | `std::sort` by distance: the result is ordered by key and is a permutation of the input |
| Selection.Split | modules/greedysearch.cpp:104-113 | `nth_element` at `n`: the first part has `min(n, |s|)` entries, both parts together are a permutation of the input, and no entry of the first part is farther than one of the second |
| Selection.Truncate | modules/greedysearch.cpp:104-113 | `resize(n)` after `nth_element`: `min(n, |s|)` entries, and the input unchanged when it is not longer than `n` |
| Selection.TruncateKeepsNearest | modules/greedysearch.cpp:122-130 | truncation keeps only input entries, and none of them is farther than an entry it drops |
| Selection.TruncateSub | modules/greedysearch.cpp:122-130 | truncation keeps each entry at most as often as the input has it |
| Selection.TruncateValuesSub | modules/greedysearch.cpp:122-130 | the values kept by truncation are a sub-multiset of the input's values |
| Selection.ValuesMultiset | modules/robustprune.cpp:37-41 | a selection that is a sub-multiset of keyed entries names each node at most as often as the pool does |
| Shuffle.Swap | modules/filteredvamana.cpp:16 | `swap(permutation[i], permutation[j])` exchanges the two positions and leaves all others alone |
| Shuffle.SwapPermutes | modules/filteredvamana.cpp:16 | a swap is a permutation |
| Shuffle.ShuffleFromPermutes | modules/filteredvamana.cpp:14-17 | the swaps of the shuffle loop, for `i` from the last position down to 1 with `j = draw % (i + 1)`, form a permutation |
| Shuffle.FisherYatesPermutes | modules/filteredvamana.cpp:4-27 | `fisherYatesShuffle` leaves a permutation of its input |
| Shuffle.PermutationOfRange | modules/vamana.cpp:93-105 | a permutation of 0..n-1 lists each of 0..n-1 exactly once and nothing else |
| Shuffle.FisherYatesOrder | modules/vamana.cpp:93-105 | the shuffled processing order visits every point exactly once |
| GreedySearch.Closest | modules/greedysearch.cpp:68-89 | the pick is `None` exactly when every entry of `L` is visited; otherwise it is an unvisited entry with no unvisited entry nearer, and every earlier unvisited entry is strictly farther (the first minimum under strict `<`) |
| GreedySearch.Expand | modules/greedysearch.cpp:96-101 | the appended entries are out-neighbours of the visited node that are not yet visited, each with its distance to the query |
| GreedySearch.ExpandComplete | modules/greedysearch.cpp:96-101 | every unvisited out-neighbour of the visited node is appended, with its distance |
| GreedySearch.Step | modules/greedysearch.cpp:66-113 | one iteration visits exactly one new node, the closest unvisited one; every entry of the new list was listed before or is an unvisited out-neighbour of that node; the list is trimmed to `list_size` |
| GreedySearch.Explore | modules/greedysearch.cpp:66-119 | the loop ends (each round visits a new arena node) with every listed entry visited; the list is within `list_size` unless no round ran; the first pick is visited |
| GreedySearch.ExploreTraced | modules/greedysearch.cpp:64 | every listed entry and every visited node is the start node or an out-neighbour of a visited node |
| GreedySearch.Run | modules/greedysearch.cpp:60-119 | from start `s` the loop visits `s` and ends with every entry visited; the final list holds at most `list_size` entries, or is the start entry alone |
| GreedySearch.RunTraced | modules/greedysearch.cpp:96-101 | everything the search ends with was reached from the start node through visited nodes |
| GreedySearch.GreedySearch | modules/greedysearch.cpp:54-131 | a null start gives the empty result; otherwise the result has exactly min(`k`, size of the final list) nodes, each a visited node listed in the final list with its distance, and no entry of the final list that is dropped is strictly nearer to the query than a returned one |
| GreedySearch.Answer | modules/greedysearch.cpp:122-131 | the `nth_element` and `resize(k)` step: exactly min(`k`, size of the list) nodes, each listed with its distance, and no dropped entry strictly nearer than a kept one |
| GreedySearch.AnswerSub | modules/greedysearch.cpp:122-131 | the returned nodes are drawn from the list: each at most as often as the list holds it |
| GreedySearch.GreedySearchSub | modules/greedysearch.cpp:122-131 | the search returns the final list of its loop cut to `k`, and its result is a sub-multiset of that list's nodes |
| GreedySearch.GreedySearchOne | modules/greedysearch.cpp:122-130 | with k = 1 the result is a single entry of the final list that is nearest to the query among all its entries |
| GreedySearch.ExampleRun | tests/greedysearch_test.cpp:14-24 | on the test's three-node graph with list size 3 the search visits all three nodes and ends with all three entries |
| GreedySearch.GreedySearchExample | tests/greedysearch_test.cpp:14-24 | the test's query returns node 0 or node 1: both are √0.5 from the query, and `nth_element` does not decide between them, so the test's expectation of node 0 is not guaranteed |
| FilteredGreedySearch.Top | modules/filteredgreedysearch.cpp:30 | `pq.top()` is an entry no other queued entry precedes in (distance, position) order |
| FilteredGreedySearch.Start | modules/filteredgreedysearch.cpp:10-17 | the start list holds exactly the non-null start nodes whose first coordinate is a query filter, each with its distance |
| FilteredGreedySearch.Admitted | modules/filteredgreedysearch.cpp:43-48 | the pushed entries are exactly the unvisited out-neighbours whose first coordinate is a query filter |
| FilteredGreedySearch.Pop | modules/filteredgreedysearch.cpp:30-32 | the popped entry is a minimum of the queue, and the rest is the queue without it |
| FilteredGreedySearch.QueueNonEmpty | modules/filteredgreedysearch.cpp:28-30 | while an unvisited entry is listed the queue is not empty, so `pq.top()` is defined |
| FilteredGreedySearch.Step | modules/filteredgreedysearch.cpp:28-58 | an iteration skips a visited top (the queue shrinks, nothing else changes) or visits exactly that node and keeps the list within `list_size`; every listed and queued entry stays admitted |
| FilteredGreedySearch.Explore | modules/filteredgreedysearch.cpp:28-58 | the loop ends with every listed entry visited; each newly visited node is an admitted arena node; the list is within `list_size` once a node was visited |
| FilteredGreedySearch.FilteredGreedySearch | modules/filteredgreedysearch.cpp:6-70 | each result is an arena node whose first coordinate is a query filter; with no admitted start node the result is empty; otherwise the result has exactly min(`k`, size of the final list) nodes drawn from that list (as a sub-multiset), and no dropped entry of it is strictly nearer to the query than a returned one |
| FilteredGreedySearch.Final | modules/filteredgreedysearch.cpp:8-58 | the list the loop ends with: every entry visited, every visited node an admitted arena node, and empty when no start node is admitted |
| RobustPrune.Keyed | modules/robustprune.cpp:27-30 | every pool member is paired with its distance from the node, in pool order |
| RobustPrune.Prune | modules/robustprune.cpp:44-52 | the inner loop keeps no entry that the kept entry dominates |
| RobustPrune.PruneSub | modules/robustprune.cpp:44-52 | the inner loop only erases |
| RobustPrune.PruneKeeps | modules/robustprune.cpp:44-52 | the inner loop erases nothing that the kept entry does not dominate |
| RobustPrune.PruneSorted | modules/robustprune.cpp:44-52 | the inner loop keeps the order of the entries it keeps |
| RobustPrune.Select | modules/robustprune.cpp:37-53 | the outer loop keeps at most `max_neighbours` entries, and the front entry first when there is room |
| RobustPrune.SelectSub | modules/robustprune.cpp:37-53 | the outer loop keeps only pool entries, each at most as often as the pool has it |
| RobustPrune.SelectDiverse | modules/robustprune.cpp:46-52 | no kept entry dominates one kept after it |
| RobustPrune.SelectSorted | modules/robustprune.cpp:33-53 | from a sorted pool the kept entries come in non-decreasing distance |
| RobustPrune.SelectComplete | modules/robustprune.cpp:37-53 | every pool entry is kept, or dominated by a kept one, or left out because the list is full |
| RobustPrune.RobustPrune | modules/robustprune.cpp:18-54 | the new list has at most `max_neighbours` nodes, drawn from candidates ++ old neighbours, in non-decreasing distance, none dominated by an earlier one |
| RobustPrune.RobustPruneAt | modules/robustprune.cpp:18-54 | only the node's own out-neighbour list changes, and it has at most `max_neighbours` entries |
| RobustPrune.RobustPruneNearestFirst | modules/robustprune.cpp:33-41 | with a non-empty pool and room for one, the first kept neighbour is a pool member nearest to the node |
| RobustPrune.RobustPruneSelfLoop | modules/robustprune.cpp:28-52 | the node is not removed from its pool: when it is a candidate and nothing else is at distance zero, the result is exactly [node], a self-loop |
| RobustPrune.RobustPruneDuplicates | modules/robustprune.cpp:46-52 | duplicates are not removed: with alpha > 1 a candidate listed twice at a positive distance is kept twice |
| RobustPrune.DominatedByIff | modules/robustprune.cpp:44-52 | an entry is removed by the kept entries exactly when one of them dominates it |
| RobustPrune.PruneAll | modules/robustprune.cpp:44-52 | an entry dominating every remaining one empties the pool |
| RobustPrune.SelectAlone | modules/robustprune.cpp:37-53 | when the front entry dominates all others it is the only one kept |
| RobustPrune.SelectFront | modules/robustprune.cpp:37-42 | with room, the first entry kept is the nearest one of the sorted pool |
| RobustPrune.NearestKeptFirst | modules/robustprune.cpp:18-42 | the first new neighbour is a candidate at least as near to `p` as every other candidate |
| RobustPrune.ZeroDominates | modules/robustprune.cpp:47 | an entry at distance 0 dominates every entry for any α |
| RobustPrune.AloneAtZero | modules/robustprune.cpp:18-54 | when `p` itself is a candidate and no other candidate sits on it, `p` is its own only neighbour |
| RobustPrune.SelfNotDominated | modules/robustprune.cpp:47 | with α > 1 an entry at a positive distance does not dominate itself |
| FilteredRobustPrune.Scan | modules/filteredrobustprune.cpp:54-66 | a normal pass of the inner loop keeps only entries the test keeps, and never lengthens the pool |
| FilteredRobustPrune.ScanOkIff | modules/filteredrobustprune.cpp:54-66 | the inner loop fails exactly when some entry fails the test, and a failing front entry gives its own error |
| FilteredRobustPrune.ScanFails | modules/filteredrobustprune.cpp:54-66 | the inner loop fails only with an error its test can give |
| FilteredRobustPrune.ScanSub | modules/filteredrobustprune.cpp:54-66 | the inner loop only erases |
| FilteredRobustPrune.ScanKeeps | modules/filteredrobustprune.cpp:54-66 | the inner loop erases nothing the test keeps |
| FilteredRobustPrune.ScanSorted | modules/filteredrobustprune.cpp:54-66 | the inner loop keeps the order of what it keeps |
| FilteredRobustPrune.FSelect | modules/filteredrobustprune.cpp:43-67 | a normal run of the outer loop chooses the front entry first and, when the bound is above the count, at most the remaining bound |
| FilteredRobustPrune.FSelectSub | modules/filteredrobustprune.cpp:43-67 | the outer loop chooses only pool entries, each at most as often as the pool has it |
| FilteredRobustPrune.FSelectKeptAfter | modules/filteredrobustprune.cpp:55-66 | diversity: no chosen entry is dropped by the test of an entry chosen before it |
| FilteredRobustPrune.FSelectSorted | modules/filteredrobustprune.cpp:39-67 | from a sorted pool the chosen entries are in non-decreasing distance |
| FilteredRobustPrune.FSelectZeroUnbounded | modules/filteredrobustprune.cpp:50-52 | a bound of 0 is never hit by the equality test, so it behaves like no bound |
| FilteredRobustPrune.FSelectOk | modules/filteredrobustprune.cpp:43-67 | when no pair of pool entries makes the test fail, the loops end normally |
| FilteredRobustPrune.FSelectComplete | modules/filteredrobustprune.cpp:43-67 | in a normal run every pool entry is chosen, dropped by a chosen one, or left out after the bound was reached |
| FilteredRobustPrune.JudgeDivergesIff | modules/filteredrobustprune.cpp:57-59 | the inner loop stalls exactly when the node's first coordinate and the examined entry's first coordinate both differ from the kept node's |
| FilteredRobustPrune.KeepMeans | modules/filteredrobustprune.cpp:60-65 | an entry is kept only when `a * d(closest, x) > d(node, x)` and it is not the kept node |
| FilteredRobustPrune.OtherIds | modules/filteredrobustprune.cpp:22-28 | the erase loop removes exactly the entries whose id is the node's own and keeps the others |
| FilteredRobustPrune.OtherIdsSub | modules/filteredrobustprune.cpp:22-28 | the erase loop keeps each remaining entry as often as the pool has it |
| FilteredRobustPrune.SortedOthers | modules/filteredrobustprune.cpp:17-39 | the pool the loops choose from is candidates ++ old neighbours without the node's own id, keyed by distance from the node and sorted |
| FilteredRobustPrune.ChosenNodes | modules/filteredrobustprune.cpp:43-67 | a normal run returns at most `max_neighbours` nodes when that is at least 1, in non-decreasing distance, pairwise diverse, each from the pool and none with the node's id |
| FilteredRobustPrune.FilteredRobustPrune | modules/filteredrobustprune.cpp:16-68 | a failure is only the `coords.at(0)` throw or the stalled inner loop; a normal run gives at most `max_neighbours` neighbours (for a bound of at least 1), drawn from candidates ++ old neighbours, none with the node's own id, in non-decreasing distance, and with `a * d(ci, cj) > d(node, cj)` for ci chosen before cj |
| FilteredRobustPrune.FilteredRobustPruneEmpty | modules/filteredrobustprune.cpp:43 | with no candidates and no neighbours the new list is empty |
| FilteredRobustPrune.FilteredRobustPruneSub | modules/filteredrobustprune.cpp:16-68 | a normal run names each pool member at most as often as the pool, so no duplicates arise that were not in the pool |
| FilteredRobustPrune.FilteredRobustPruneZero | modules/filteredrobustprune.cpp:50-52 | `max_neighbours = 0` gives the same result as a bound beyond the pool |
| FilteredRobustPrune.FilteredRobustPruneOneFilter | modules/filteredrobustprune.cpp:57-59 | when every pool member shares the node's first coordinate, the loops always end |
| FilteredRobustPrune.FilteredRobustPruneAt | modules/filteredrobustprune.cpp:16-68 | the call fails exactly when the prune does, and only with the `coords.at(0)` throw or the stalled inner loop; otherwise only the node's out-neighbour list changes, it has no self-loop, and it is within the bound |
| FilteredRobustPrune.DiagonalDiverges | modules/filteredrobustprune.cpp:57-59 | three nodes on a diagonal with distinct first coordinates: pruning node 0 against nodes 1 and 2 with room for two never returns |
| FilteredRobustPrune.JudgeSameFilter | modules/filteredrobustprune.cpp:53-59 | when the kept node's first coordinate equals `p`'s the inner test never stalls |
| FilteredRobustPrune.SameFilterNeverFails | modules/filteredrobustprune.cpp:43-67 | candidates sharing `p`'s first coordinate can never make the loop stall |
| FilteredRobustPrune.DiagonalStall | modules/filteredrobustprune.cpp:57-59 | on the diagonal example the first inner test stalls |
| FilteredRobustPrune.DiagonalLoop | modules/filteredrobustprune.cpp:43-67 | on the diagonal example the outer loop never returns |
| FilteredRobustPrune.FSelectScanErr | modules/filteredrobustprune.cpp:43-67 | a stall in the inner loop stops the whole prune when the count has not reached the bound |
| FilteredRobustPrune.FSelectFails | modules/filteredrobustprune.cpp:43-67 | the outer loop fails only with an error its test can give |
| FilteredRobustPrune.FTestFails | modules/filteredrobustprune.cpp:57-66 | the pruning test fails only by the `coords.at(0)` throw or by the `continue` that never advances |
| FilteredRobustPrune.ChosenFails | modules/filteredrobustprune.cpp:43-67 | the selection loops of the prune fail only with one of those two errors |
| Medoid.Centroid | modules/medoid.cpp:4-26 | an empty cluster throws (`EmptyCluster`); a member with fewer coordinates than `cluster[0]` is a read past its end; otherwise the centroid has `cluster[0]`'s dimension |
| Medoid.CentroidBounded | modules/medoid.cpp:14-23 | each centroid coordinate lies between the least and greatest value of that coordinate in the cluster, as a mean does |
| Medoid.CentroidOfCopies | modules/medoid.cpp:14-23 | the centroid of copies of one point is that point |
| Medoid.FirstMin | modules/medoid.cpp:116-121 | the scan with strict `<` returns a minimum, and the first one on ties |
| Medoid.Largest | modules/medoid.cpp:99-104 | the scan with strict `>` returns a largest cluster, and the first one on ties |
| Medoid.Nearest | modules/medoid.cpp:52-60 | a node goes to a nearest centroid, the lowest index on ties |
| Medoid.Members | modules/medoid.cpp:51-62 | a cluster lists, in input order, only nodes assigned to it |
| Medoid.MembersComplete | modules/medoid.cpp:51-62 | every node assigned to a cluster is listed in it |
| Medoid.Assign | modules/medoid.cpp:45-62 | the assignment pass yields one cluster per centroid, over input positions |
| Medoid.AssignPartition | modules/medoid.cpp:45-62 | the clusters partition the input: every node is in the cluster of its nearest centroid, only there, and in input order |
| Medoid.RecenterMeans | modules/medoid.cpp:64-76 | an empty cluster keeps its old centroid; a non-empty one gets `findCentroid` of its members |
| Medoid.RecenterMoved | modules/medoid.cpp:64-79 | the loop stops early exactly when no non-empty cluster's centroid moved |
| Medoid.LloydAssigned | modules/medoid.cpp:44-80 | the returned clusters are the assignment to the centroids of the last round, and an early stop means the centroids had settled |
| Medoid.KMeansClustering | modules/medoid.cpp:29-88 | `k` outside 1..n throws (`InvalidClusterCount`); otherwise exactly `k` clusters over input positions |
| Medoid.KMeansPartition | modules/medoid.cpp:44-62 | with at least one round the clusters partition the input by nearest final centroid, ties to the lowest index |
| Medoid.KMeansNoRounds | modules/medoid.cpp:44 | with `maxIterations <= 0` all `k` clusters are empty |
| Medoid.KMeansOne | modules/medoid.cpp:29-88 | with k = 1 the single cluster holds every node, in order |
| Medoid.MedoidPosition | modules/medoid.cpp:98-122 | the result is a member of the first largest cluster, or the `runtime_error` exactly when that cluster is empty |
| Medoid.MedoidPositionNearest | modules/medoid.cpp:110-122 | the chosen member is nearest the largest cluster's centroid, the first such on ties |
| Medoid.LargestNonEmpty | modules/medoid.cpp:106-108 | when every node sits in its nearest centroid's cluster and there is a node, the largest cluster is not empty |
| Medoid.ApproximateMedoid | modules/medoid.cpp:91-126 | empty input throws (`EmptyInput`); a result is the id (not the position) of an input node |
| Medoid.ApproximateMedoidResult | modules/medoid.cpp:91-126 | the call fails exactly on empty input, a bad `k`, or too few draws, so the `runtime_error` is unreachable; a result is the id of the member `MedoidPosition` picks |
| Medoid.ApproximateMedoidOne | modules/medoid.cpp:91-126 | with k = 1 the result is the id of the first node nearest the mean of all nodes |
| Medoid.ExampleMedoid | tests/vamana_test.cpp:114-144 | the test's four nodes with k = 1 give id 1, which is also the exact minimum-total-distance medoid the test compares with |
| Medoid.NearestOf | modules/medoid.cpp:45-62 | every point is given the index of a nearest centroid |
| Graph.Gather | modules/medoid.cpp:66-69 | the elements at the given indices, in index order: a cluster's points are those at its member positions |
| Medoid.KMeansAssigned | modules/medoid.cpp:29-88 | the clusters returned are the assignment of the points to some `k` centroids of the right dimension |
| FindMedoid.MatchingAt | modules/findmedoid.cpp:26-30 | the collected positions are below the bound and all carry the filter, in input order |
| FindMedoid.MatchingAtComplete | modules/findmedoid.cpp:26-30 | every position with the filter is collected |
| FindMedoid.MatchingNonEmpty | modules/findmedoid.cpp:11-12 | a filter taken from some point matches at least one point, so the branch at lines 32-35 never runs |
| FindMedoid.Sample | modules/findmedoid.cpp:37-45 | the sample has `min(|P_f|, τ)` ids; only a needed shuffle can run out of draws |
| FindMedoid.SampleFromMatches | modules/findmedoid.cpp:37-45 | the sample takes only matching ids, each at most as often as `P_f` has it |
| FindMedoid.LeastUsed | modules/findmedoid.cpp:47-52 | `min_element` by counter returns a least-used sample entry, the first on ties |
| FindMedoid.VisitFails | modules/findmedoid.cpp:37-52 | a filter's round fails exactly when τ = 0 (the `min_element` of an empty sample is dereferenced) or the shuffle lacks draws |
| FindMedoid.VisitChooses | modules/findmedoid.cpp:47-56 | the chosen id is a least-used member of the sample and matches the filter; `M[f]` becomes it; its counter goes up by one and no other counter changes |
| FindMedoid.LoopMaps | modules/findmedoid.cpp:22-57 | every visited filter gains a map entry naming a point of that filter, and no other key appears |
| FindMedoid.FindMedoidMaps | modules/findmedoid.cpp:4-60 | the keys are exactly the distinct filters of `P`, and `M[f]` is the id of a point with filter `f` |
| FindMedoid.FindMedoidZeroTau | modules/findmedoid.cpp:39-52 | with τ = 0 and at least one point the call fails |
| FindMedoid.FindMedoidOk | modules/findmedoid.cpp:4-60 | with τ ≥ 1 and enough draws the call succeeds |
| FindMedoid.Matching | modules/findmedoid.cpp:26-30 | the ids of the points carrying the filter, in input order |
| FindMedoid.VisitCounted | modules/findmedoid.cpp:47-56 | the usage counters stay a counter per point id |
| FindMedoid.LoopOk | modules/findmedoid.cpp:22-57 | with τ ≥ 1 and enough draws every visit of a listed filter succeeds |
| Vamana.Pick | modules/vamana.cpp:13-21 | the rejection loop for one node ends with `R` distinct positions, none equal to the node's id, or runs out of draws |
| Vamana.InitFrom | modules/vamana.cpp:12-22 | nodes before `i` are untouched and each later node gains `R` distinct new neighbours after its old ones, none at the position equal to its id |
| Vamana.InitializeRandomGraph | modules/vamana.cpp:4-23 | with `R >= |nodes|` nothing changes; otherwise every node keeps its old list and gains `R` distinct neighbours, none at the position equal to its id |
| Vamana.InitializeRandomGraphShape | modules/vamana.cpp:4-23 | only out-lists change, references stay valid, fresh nodes end with degree at most R, and with ids equal to positions no self-loop is added |
| Vamana.ExactMedoid | modules/vamana.cpp:46-59 | the medoid scan returns the position of least total distance to the others, the first on ties |
| Vamana.StartNode | modules/vamana.cpp:35-78 | the start is one of the first `n` nodes; case 0 fails only with no draw left, case 1 only when the subset is empty (`subset[0]` of an empty vector) or draws run short, case 2 never |
| Vamana.StartNodeMedoid | modules/vamana.cpp:38-78 | case 1 uses `min(subsetSize, n)` positions `draw % n`; other non-zero cases use 0..n-1; the start is the subset member of least total distance |
| Vamana.ReverseStep | modules/vamana.cpp:115-126 | only `q` changes; when there is room `p` is appended, otherwise `q` is re-pruned over its list plus `p`, ending within R (R ≥ 1) and without a self-loop; a failure is a failure of that prune |
| Vamana.ReverseStepKeeps | modules/vamana.cpp:115-126 | a reverse-edge step keeps the degree bound R and the absence of self-loops |
| Vamana.Reverse | modules/vamana.cpp:115-127 | the reverse-edge loop changes only out-lists and leaves `p` itself alone; a failure is a prune failure |
| Vamana.ReverseCaps | modules/vamana.cpp:115-127 | a node within R (for R ≥ 1) and without a self-loop stays so through the reverse-edge loop |
| Vamana.ReverseKeeps | modules/vamana.cpp:115-127 | the reverse-edge loop keeps the degree bound R and the absence of self-loops |
| Vamana.InsertNodeCandidates | modules/vamana.cpp:109-112 | the search is called with k = 1, so the pruner gets at most one search result besides `p`'s old neighbours |
| Vamana.InsertNode | modules/vamana.cpp:105-128 | processing one point changes only out-lists and keeps references valid; a failure is a prune failure |
| Vamana.InsertNodeCaps | modules/vamana.cpp:105-127 | after processing a point, that point and every node already within R (for R ≥ 1) and without a self-loop are so |
| Vamana.InsertNodeKeeps | modules/vamana.cpp:105-128 | processing one point keeps the degree bound R and the absence of self-loops |
| Vamana.Build | modules/vamana.cpp:105-128 | processing the points in order changes only out-lists; a failure is a prune failure |
| Vamana.BuildKeeps | modules/vamana.cpp:105-128 | after each point the degree bound R and the absence of self-loops still hold |
| Vamana.BuildCaps | modules/vamana.cpp:105-128 | after the build every processed point, and every node that was within R (for R ≥ 1) and without a self-loop, is so |
| Vamana.VamanaIndexing | modules/vamana.cpp:25-129 | the build changes only out-lists and keeps references valid |
| Vamana.VamanaIndexingSteps | modules/vamana.cpp:25-129 | a build with `n > 0` is the random graph, then a start node among the first `n`, then every one of 0..n-1 processed exactly once in shuffled order |
| Vamana.VamanaIndexingNone | modules/vamana.cpp:32-33 | with n = 0 the result is the random graph alone |
| Vamana.VamanaIndexingKeeps | modules/vamana.cpp:25-129 | starting from fresh nodes every out-degree is at most R (R ≥ 1), and with ids equal to positions there is no self-loop |
| FilteredVamana.Include | modules/filteredvamana.cpp:73-79 | `unordered_set::insert` adds the element unless it is there, and keeps the set free of repeats |
| FilteredVamana.ShuffledPointsPermutes | modules/filteredvamana.cpp:4-27 | the shuffled point order lists every point exactly once |
| FilteredVamana.FindAt | modules/filteredvamana.cpp:54 | `find_if` returns the first point with the id, or the end |
| FilteredVamana.Seeds | modules/filteredvamana.cpp:47-58 | a point's start set is at most the single point whose id is its filter's medoid; it is empty exactly when the filter has no medoid or no point carries that id |
| FilteredVamana.SearchFrom | modules/filteredvamana.cpp:60-62 | the search is called with k = 0, so it returns nothing |
| FilteredVamana.LinkStep | modules/filteredvamana.cpp:78-86 | a reverse link adds `p` to `G[q]` (creating the key if absent) and changes only out-lists of the arena |
| FilteredVamana.ReverseLinksAdds | modules/filteredvamana.cpp:78-87 | the reverse-link loop only adds: every neighbour becomes a key whose set contains `p` |
| FilteredVamana.ReverseLinksNone | modules/filteredvamana.cpp:78-87 | with no neighbours the reverse-link loop changes nothing |
| FilteredVamana.PlaceEdgeless | modules/filteredvamana.cpp:64-87 | with an empty search result the point's step re-prunes its own neighbours and records an empty set in G |
| FilteredVamana.InsertPoint | modules/filteredvamana.cpp:46-88 | one point's step, with the actual search call, is the edgeless step |
| FilteredVamana.EmptySets | modules/filteredvamana.cpp:41-43 | every point becomes a key with an empty set |
| FilteredVamana.SweepEdgeless | modules/filteredvamana.cpp:46-88 | over an edgeless G the main loop only re-prunes each point and adds its key |
| FilteredVamana.PruneEachOthers | modules/filteredvamana.cpp:69-70 | re-pruning the points leaves every node that is not one of them as it was |
| FilteredVamana.PruneEachSettles | modules/filteredvamana.cpp:69-70 | after the loop each of the distinct points has its own list within R (R ≥ 1) and without a self-loop |
| FilteredVamana.PruneAllSettles | modules/filteredvamana.cpp:69-70 | when the points are all nodes, every node ends within R (R ≥ 1) and without a self-loop |
| FilteredVamana.PruneEachFresh | modules/filteredvamana.cpp:69-70 | on nodes without neighbours the re-prunes change nothing |
| FilteredVamana.FilteredVamana | modules/filteredvamana.cpp:30-91 | `findmedoid` failures propagate; the shuffle needs its draws; the order lists every point once; G has exactly the points as keys and no edges; the nodes end within R (R ≥ 1) and without self-loops; fresh nodes come back unchanged |
| FilteredVamana.IncludeAll | modules/filteredvamana.cpp:73-75 | inserting a list into a set gives exactly the union |
| FilteredVamana.AddKeys | modules/filteredvamana.cpp:78 | `adjacency_list[point]` creates each point's key with an empty set: the keys become the old keys and the points, and an edgeless map stays edgeless |
| FilteredVamana.Pass | modules/filteredvamana.cpp:46-88 | the main loop computes the sweep over the points in the shuffled order |
| StitchedVamana.Without | modules/stichedvamana.cpp:10-16 | the positions other than `v`; for a list without repeats it drops at most that one entry and stays free of repeats |
| StitchedVamana.DistinctBelow | modules/stichedvamana.cpp:10-16 | distinct values below `n` that avoid `id` number at most `n`, less one when `id < n` |
| StitchedVamana.PickNeedsRoom | modules/stichedvamana.cpp:4-17 | the unguarded loop can finish only when `R` (plus one for the node's own index) fits in the node count |
| StitchedVamana.InitTo | modules/stichedvamana.cpp:7-17 | the first `i` members gain neighbours; nothing outside them changes, and references stay valid |
| StitchedVamana.InitializeRandomGraph | modules/stichedvamana.cpp:4-18 | on a subset, only members gain neighbours; only out-lists change; references stay valid |
| StitchedVamana.InitToAdds | modules/stichedvamana.cpp:7-17 | each member keeps its old list and gains `R` distinct subset members, none at the subset index equal to its id |
| StitchedVamana.InitShape | modules/stichedvamana.cpp:4-18 | fresh members end with degree at most R, and with ids equal to subset positions no self-loop is added |
| StitchedVamana.InitStalls | modules/stichedvamana.cpp:4-17 | without the R ≥ n guard, `R` too large for the subset makes the loop run forever (the draws run out) |
| StitchedVamana.ReverseStep | modules/stichedvamana.cpp:66-77 | only the neighbour changes; it ends within R; with room `p` is simply appended |
| StitchedVamana.Reverse | modules/stichedvamana.cpp:66-78 | the reverse-edge loop keeps every touched neighbour within R, and leaves other nodes untouched |
| StitchedVamana.Search | modules/stichedvamana.cpp:60 | the search with k = 1 yields at most one arena node |
| StitchedVamana.Link | modules/stichedvamana.cpp:63-78 | after `RobustPrune` and the reverse edges, `p` is within R and no node that was within R leaves it |
| StitchedVamana.Insert | modules/stichedvamana.cpp:56-79 | processing one point bounds its degree by R and keeps other bounded nodes bounded |
| StitchedVamana.Build | modules/stichedvamana.cpp:56-79 | every processed point, and every node already within R, ends within R |
| StitchedVamana.InsertMembers | modules/stichedvamana.cpp:56-79 | processing the shuffled subset indices leaves every one of the first `n` members within R |
| StitchedVamana.SubsetMedoid | modules/stichedvamana.cpp:28 | the medoid of a subset is the id of one of its members (not its position), and needs a valid `k` and enough draws |
| StitchedVamana.StartAndOrder | modules/stichedvamana.cpp:25-54 | `k > |subset|` fails; when no member's id is below the subset size the id-as-index read at line 29 is out of range; otherwise the start is a member and the order lists each of 0..n-1 once |
| StitchedVamana.SubsetBuild | modules/stichedvamana.cpp:20-80 | n = 0 returns the random graph; too few draws, too large a `k` or ids that are not subset positions fail; otherwise only out-lists change, the first `n` members end within R, and fresh distinct members all end within R |
| StitchedVamana.Subset | modules/stichedvamana.cpp:95-100 | a node is in the subset for a label exactly when the label is among its tags, in input order without repeats |
| StitchedVamana.SubsetSameData | modules/stichedvamana.cpp:95-100 | the subsets depend only on node data, not on edges built so far |
| StitchedVamana.Record | modules/stichedvamana.cpp:104-106 | each subset member's entry becomes the set of its out-neighbours; other entries stay |
| StitchedVamana.BuildTag | modules/stichedvamana.cpp:94-107 | a label with fewer than 100 nodes fails (`kMeansClustering` with k = 100); otherwise the keys grow by the subset, and each member maps to its out-neighbours |
| StitchedVamana.BuildTags | modules/stichedvamana.cpp:94-107 | no labels gives the empty graph; any label with fewer than 100 nodes fails; otherwise the keys are exactly the nodes that carry some label |
| StitchedVamana.PruneNode | modules/stichedvamana.cpp:111 | the global prune of one node changes only its list, which ends without a self-loop and within `R_stiched` (≥ 1) |
| StitchedVamana.PruneAll | modules/stichedvamana.cpp:110-115 | after the global loop every node is a key mapping to its out-neighbours, with no self-loop and at most `R_stiched` of them (≥ 1) |
| StitchedVamana.StitchedVamana | modules/stichedvamana.cpp:82-118 | no nodes gives an empty graph; any label with fewer than 100 nodes fails; otherwise the keys are exactly the nodes, each mapped to its pruned out-neighbours, without self-loops and within `R_stiched` (≥ 1) |
| StitchedImproved.MatchingAtIncreasing | modules/stitched_vamana_with_improvements.cpp:8-11 | a filter's group lists node positions in strictly increasing (input) order |
| StitchedImproved.GroupShape | modules/stitched_vamana_with_improvements.cpp:8-11 | `commonFilter[f]` holds exactly the nodes whose filter is `f`, each once, and is non-empty for every filter that occurs |
| StitchedImproved.GroupsPartition | modules/stitched_vamana_with_improvements.cpp:8-11 | over the distinct filters the groups partition the nodes: each node is in the group of its own filter and no other |
| StitchedImproved.SwapShuffle | modules/stitched_vamana_with_improvements.cpp:19-22 | the swap shuffle with `rand() % size` keeps the length of the filter list |
| StitchedImproved.SwapFromPermutes | modules/stitched_vamana_with_improvements.cpp:19-22 | every suffix of swaps only rearranges the list |
| StitchedImproved.SwapShufflePermutes | modules/stitched_vamana_with_improvements.cpp:16-22 | the shuffled filters are a permutation of the distinct filters, still without repeats |
| StitchedImproved.PairsFrom | modules/stitched_vamana_with_improvements.cpp:24-25 | the loop pairs from row `i` on are exactly the `(a, b)` with `i <= a < b < n`, in row-major order |
| StitchedImproved.Pairs | modules/stitched_vamana_with_improvements.cpp:24-25 | the double loop visits every pair `a < b` of filter indices exactly once |
| StitchedImproved.PairsFromCount | modules/stitched_vamana_with_improvements.cpp:24-25 | the loop runs `n(n-1)/2` times |
| StitchedImproved.EdgeCountSetOut | modules/stitched_vamana_with_improvements.cpp:36-37 | replacing one out-list changes the edge count by the difference of the lengths |
| StitchedImproved.Bridge | modules/stitched_vamana_with_improvements.cpp:36-37 | one random pair adds `b` to `a`'s list and `a` to `b`'s and touches nothing else |
| StitchedImproved.BridgeCrosses | modules/stitched_vamana_with_improvements.cpp:33-37 | a bridge between two groups adds exactly two edges, each going to the other group |
| StitchedImproved.CrossesTransitive | modules/stitched_vamana_with_improvements.cpp:30-38 | repeated bridges between the same groups still only append edges across them |
| StitchedImproved.Connect | modules/stitched_vamana_with_improvements.cpp:30-38 | connecting two groups changes only out-lists, keeps references valid, and fails only when the draws run out |
| StitchedImproved.ConnectEdges | modules/stitched_vamana_with_improvements.cpp:30-38 | between two disjoint non-empty groups `R_stitched` iterations add exactly `2 R_stitched` edges, all across the two groups |
| StitchedImproved.ConnectAll | modules/stitched_vamana_with_improvements.cpp:24-40 | the pair loop changes only out-lists, keeps references valid, and fails only when draws run out |
| StitchedImproved.ConnectAllStep | modules/stitched_vamana_with_improvements.cpp:24-40 | a successful pair loop is its first connection followed by the rest |
| StitchedImproved.CrossesMixes | modules/stitched_vamana_with_improvements.cpp:26-37 | edges across the groups of two distinct filters only go to nodes of another filter |
| StitchedImproved.MixesTransitive | modules/stitched_vamana_with_improvements.cpp:24-40 | appending cross-filter edges twice still appends only cross-filter edges |
| StitchedImproved.GroupedDisjoint | modules/stitched_vamana_with_improvements.cpp:8-11 | groups of distinct filters are non-empty and share no node |
| StitchedImproved.ConnectAllCount | modules/stitched_vamana_with_improvements.cpp:24-40 | over distinct groups every listed pair adds exactly `2 R_stitched` edges |
| StitchedImproved.ConnectAllMixes | modules/stitched_vamana_with_improvements.cpp:24-40 | every node keeps its old list and gains only neighbours of a different filter |
| StitchedImproved.ConnectPairs | modules/stitched_vamana_with_improvements.cpp:24-40 | with `m` groups the interconnection adds exactly `R_stitched · m · (m-1)` edges, all to other filters, and nothing else changes |
| StitchedImproved.Interconnect | modules/stitched_vamana_with_improvements.cpp:4-40 | the shuffled order is a permutation of the filters; `R_stitched · m · (m-1)` cross-filter edges are appended; too few draws for the shuffle fails |
| StitchedImproved.GroupInit | modules/vamana.cpp:4-23 | the guarded random graph: with `R` at least the group's size nothing changes, otherwise it is the unguarded one; only members change |
| StitchedImproved.GroupBuild | modules/stitched_vamana_with_improvements.cpp:44-46 | one group is built by the indexing of modules/vamana.cpp:25-129, which prunes with `FilteredRobustPrune`: only out-lists change and references stay valid; every member, and every node already so, ends within `R_small` (for `R_small` ≥ 1) and without a self-loop; a failure is running out of draws or a prune failure, and with enough draws and `R_small` at least the group size only a prune failure |
| StitchedImproved.BuildGroups | modules/stitched_vamana_with_improvements.cpp:44-46 | after the per-filter builds every member of every group is within `R_small` (for `R_small` ≥ 1) and without a self-loop, only out-lists change, and a failure is running out of draws or a prune failure |
| StitchedImproved.KeepFilter | modules/stitched_vamana_with_improvements.cpp:53-56 | after the erase a neighbour remains exactly when it was there and has the node's filter |
| StitchedImproved.KeepFilterOrder | modules/stitched_vamana_with_improvements.cpp:53-56 | `remove_if` keeps the survivors in their original order |
| StitchedImproved.KeepFilterIdempotent | modules/stitched_vamana_with_improvements.cpp:53-56 | erasing a second time changes nothing |
| StitchedImproved.PruneAndErase | modules/stitched_vamana_with_improvements.cpp:51-56 | only node `p` changes, and it ends with neighbours of its own filter only, no self-loop, and at most `R_stitched` (≥ 1) |
| StitchedImproved.PruneAndEraseAll | modules/stitched_vamana_with_improvements.cpp:50-57 | after the final loop every node is settled that way |
| StitchedImproved.StitchedImproved | modules/stitched_vamana_with_improvements.cpp:3-60 | no nodes changes nothing; too few draws for the shuffle fails; otherwise only out-lists change and every node ends with neighbours of its own filter only, no self-loop, and at most `R_stitched` (≥ 1) |
| BruteForce.AsInt32 | modules/brute_force.cpp:34 | an unsigned id stored in an `int` is its 32-bit two's-complement value |
| BruteForce.AsUint32 | modules/brute_force.cpp:50 | an `int` pushed into `vector<uint32_t>` is reduced modulo 2^32, unchanged when it fits |
| BruteForce.IdRoundTrip | modules/brute_force.cpp:34-50 | an id taken through `int` and back is the id modulo 2^32 |
| BruteForce.Insert | modules/brute_force.cpp:39 | inserting into a sorted list keeps it sorted |
| BruteForce.InsertPermutes | modules/brute_force.cpp:39 | insertion adds exactly the one pair |
| BruteForce.Sort | modules/brute_force.cpp:39 | the pairs end in (distance, id) order |
| BruteForce.SortPermutes | modules/brute_force.cpp:39 | sorting only rearranges the pairs |
| BruteForce.SortedUnique | modules/brute_force.cpp:39 | two sorted arrangements of the same pairs are equal |
| BruteForce.SortUnique | modules/brute_force.cpp:39 | any sorted permutation of the pairs is the result, so `std::sort`'s algorithm does not matter |
| BruteForce.Candidates | modules/brute_force.cpp:31-36 | one (distance, id) pair per node of the query's filter, in input order |
| BruteForce.KnnRow | modules/brute_force.cpp:28-56 | a node with more coordinates than the query reads out of range; a negative `k` loops forever; otherwise the row has `k` ids, padded with UINT32_MAX after `min(k, matches)` |
| BruteForce.KnnRowNearest | modules/brute_force.cpp:39-52 | the real ids are those of the first `min(k, matches)` pairs of the sorted matching nodes |
| BruteForce.KnnRowSound | modules/brute_force.cpp:31-52 | every real id is (modulo 2^32) the id of a node with the query's filter |
| BruteForce.BruteForceKnn | modules/brute_force.cpp:20-61 | one row per query, in query order, succeeding exactly when every row does |
| BruteForce.NegativeK | modules/brute_force.cpp:47-51 | a negative `k` with at least one query never finishes |
| FileManipulation.NodesFromRows | modules/file_manipulation.cpp:74-86 | reading fails exactly when a row is shorter than two entries; otherwise node `i` has id `i`, the filter of entry 0 and the coordinates from entry 2 on, with no edges |
| FileManipulation.QueriesFrom | modules/file_manipulation.cpp:88-105 | every kept query is a row of type other than 2 and 3 with id its row index, filter entry 1 and coordinates from entry 4; a row that cannot be read fails |
| FileManipulation.QueriesFromRows | modules/file_manipulation.cpp:88-105 | the same for the whole file: success exactly when every row can be read |
| FileManipulation.QueriesFromComplete | modules/file_manipulation.cpp:91-102 | the kept ids are ascending and are exactly the indices of the rows not dropped |
| FileManipulation.QueriesFromRowsComplete | modules/file_manipulation.cpp:88-105 | no kept query is lost or reordered |
| FileManipulation.NeighbourIds | modules/file_manipulation.cpp:117-120 | one float per out-neighbour, its id, in list order |
| FileManipulation.NodeRow | modules/file_manipulation.cpp:111-123 | a row has one filter entry, the coordinates and one entry per neighbour |
| FileManipulation.VectorsFromNodes | modules/file_manipulation.cpp:107-127 | one row per node, in node order |
| FileManipulation.NodeRowLayout | modules/file_manipulation.cpp:113-121 | entry 0 is the filter, the coordinates follow, then the neighbours' ids |
| FileManipulation.BaseRowsThrough | modules/file_manipulation.cpp:74-127 | reading base rows and writing them back drops entry 1 (the timestamp) and keeps every other entry |
| FileManipulation.ToUnsigned | modules/file_manipulation.cpp:157 | a float converted to `unsigned int` truncates, and is undefined below zero or from 2^32 on |
| FileManipulation.Decode | modules/file_manipulation.cpp:155-165 | the neighbour entries decode exactly when each names an existing node |
| FileManipulation.CreateGraph | modules/file_manipulation.cpp:129-172 | reading succeeds exactly when every row has at least 100 entries and every neighbour entry names a node; each node then has 99 coordinates |
| FileManipulation.NeighboursRoundTrip | modules/file_manipulation.cpp:117-165 | a node's written neighbour entries decode to its out-neighbours |
| FileManipulation.CreateGraphRoundTrip | modules/file_manipulation.cpp:107-172 | a graph written and read back keeps ids, filters and edges, but only the first 99 of its 100 coordinates |
| FileManipulation.CreateGraphDropsCoordinate | modules/file_manipulation.cpp:141 | a node whose 100th coordinate is 1 reads back with different coordinates |
| FileManipulation.CreateGraphFull | modules/file_manipulation.cpp:129-172 | the intended reader with `begin() + 101`: 100 coordinates per node |
| FileManipulation.CreateGraphFullRoundTrip | modules/file_manipulation.cpp:107-172 | with the intended reader, writing and reading back returns the graph (without tags) |
| Recall.RetrievedIds | no_filter_main.cpp:9-11 | the set holds the `int` of every retrieved id and has at most one entry per node |
| Recall.RetrievedIdsSource | no_filter_main.cpp:9-11 | every id in the set comes from a retrieved node |
| Recall.ToInt32 | no_filter_main.cpp:14 | a ground-truth float becomes an `int` in range, truncated; out of range it is undefined |
| Recall.Hits | no_filter_main.cpp:14-18 | the hit count is at most the ground-truth length |
| Recall.HitsArePositions | no_filter_main.cpp:14-18 | the count is the number of ground-truth positions whose id was retrieved, so a repeated id counts every time |
| Recall.HitsDistinct | no_filter_main.cpp:14-18 | over distinct ground-truth ids the count is the number of ids both lists share |
| Recall.GroundTruthIds | no_filter_main.cpp:14 | the conversion succeeds exactly when every value fits, and then converts each entry |
| Recall.Ratio | no_filter_main.cpp:21 | the quotient is non-negative, times `n` gives `a`, and is at most 1 when `a <= n` |
| Recall.ComputeRecall | no_filter_main.cpp:4-22 | an unconvertible ground-truth value is undefined; nothing retrieved gives NaN; otherwise the value times the number retrieved is the hit count |
| Recall.RecallAtMostOne | no_filter_main.cpp:4-22 | with distinct ground-truth ids the recall is at most 1 |
| Recall.RecallDividesByRetrieved | no_filter_main.cpp:21 | the fraction is over the retrieved nodes: one true neighbour in two retrieved scores 0.5 |
| Recall.RecallCountsRepeats | no_filter_main.cpp:14-18 | a repeated ground-truth id counts twice: one retrieved node against `[7, 7]` scores 2 |

## Left out

- Floating point. Coordinates, distances and ratios are reals, so float rounding is not modelled. `sqrt` is not modelled either: distances are compared as squares, which is exact for the comparisons the source makes (`Distance.DominatesIsScaledRootComparison`).
- The 1e-4 convergence test of `kMeansClustering` (modules/medoid.cpp:70) is kept with its threshold: `Medoid.Moved` compares the squared distance with 1e-8, which is the same test without the square root. The EPSILON filter comparison of modules/findmedoid.cpp:28 is read as equality, since that tolerance only exists because of float rounding.
- Randomness. `rand`, `srand(time)`, `mt19937` and `std::shuffle` become explicit lists of draws. A list that runs out gives `DrawsExhausted`. This also stands for the unguarded rejection loop of modules/stichedvamana.cpp:10-16 that never ends when `R` leaves no room.
- Hash-container iteration order. The order of `unordered_set<float>` in modules/findmedoid.cpp and modules/stitched_vamana_with_improvements.cpp, and of the tag set in modules/stichedvamana.cpp, is an input list. Each contract holds for every such order. A set of neighbours in `DirectedGraph` is a duplicate-free list in insertion order.
- The scratch `distance` field of `Node` is not part of the arena. The pruners write it before they read it, so no result depends on an earlier value. Keeping it would only add a side effect that nothing observes.
- Undefined behaviour that the model reaches is one error value, `OutOfRange`. This covers `at()` past the end, a row or subset read past its end, an uninitialised `neighbor` pointer, a float-to-integer conversion out of range, and the `min_element` of an empty range. The model does not say what a real run would then do. Coordinate vectors of different lengths are not such a case: `euclidean` then reads past the shorter vector, and the members below rule that input out with a precondition instead.
- GreedySearch.GreedySearch: requires every node to have at most as many coordinates as the query (`Fits`). The source computes `euclidean` on any node, reading past the query's end when a node is longer; that read is not modelled.
- RobustPrune.RobustPrune: requires all nodes to have as many coordinates as node 0 (`Uniform`). With mixed lengths the source's `euclidean` reads past a shorter vector; that read is not modelled.
- FilteredRobustPrune.FilteredRobustPrune: requires `Uniform` for the same reason. Its `coords.at(0)` throw on a node without coordinates is modelled (`OutOfRange`), but only among nodes of one common length.
- Medoid.KMeansClustering: requires every point to have as many coordinates as the first (`SameDims`). The source's `euclidean` and centroid sums read past a shorter point; that is not modelled. Medoid.ApproximateMedoid carries the same precondition for the same reason.
- FilteredGreedySearch.FilteredGreedySearch: requires `coords[0]` of every arena node (`HasFirst`) and `Fits`. The source reads `coords[0]` only of the start nodes and the out-neighbours it meets (modules/filteredgreedysearch.cpp:14 and 44), so an arena with an unreached node without coordinates is outside the model though the source handles it.
- Vamana.VamanaIndexing, StitchedVamana.StitchedVamana, StitchedImproved.StitchedImproved and FilteredVamana.FilteredVamana: require `Uniform`, inherited from the prunes and searches they call; arenas with mixed coordinate lengths are not modelled.
- Ids above 2^24 lose precision as `float` in modules/file_manipulation.cpp:119 and in the recall ground truth. The model converts exactly.
- I/O is not modelled: `ReadBin`, `SaveVectorToBinary`, `ReadGroundTruth`, `ReadGraph`, `SaveKNN`, the `load_*vecs` readers and the dataset readers. The converters that build nodes from rows already in memory are modelled.
- The printing of the medoid at modules/stichedvamana.cpp:31-41 and the `cout` lines of the builders are not modelled. The command-line `main` functions (argument parsing, timing, printing) are not modelled either.
- The threaded variants (modules/stitchedvamana.cpp, modules/greedysearch_threads.cpp, modules/robustprune_threads.cpp) are not modelled. Their only difference from the sequential builders is concurrency, and the per-node prune threads race on the shared `distance` field.
- Older copies of the same functions with different meanings are not modelled: Vamana.cpp, greedysearch.cpp, robustprune.cpp, trash.cpp and modules/Vamana.cpp. The model follows the modules/ versions that include/vamana.h declares.
- The tests' own reimplementations are not modelled (tests/greedytest.cpp, tests/robusttest.cpp, bruteforce/brute_test.cpp, bruteforce/graph_test.cpp). The header files, which only declare, are not modelled either. One `Node` type replaces their mutually inconsistent definitions.
- Two test expectations are not encoded, because the code disagrees with them:
  - tests/filteredgreedysearch_test.cpp filters on the `filter` field, while the code uses `coords[0]`;
  - the 3- and 4-node cases of tests/stichedvamana_test.cpp:119-140 would hit the k = 100 throw (`StitchedVamana.BuildTag`).
- The `k` parameters of `VamanaIndexingAlgorithm` in modules/vamana.cpp:25 and of `FilteredVamana` are dropped, since neither body reads them.
- The `medoidCase` of modules/vamana.cpp is an input like the others. Sums of true (square-rooted) distances in medoid cases 1 and 2 use a distance function `euclid` passed in, since `sqrt` is not modelled. Nothing constrains `euclid`: `Vamana.ExactMedoid` picks the least sum for whatever function is passed, so the model does not state that the choice agrees with `Distance.SqDist`.
- Recall.ComputeRecall: the empty retrieved list divides by zero and gives NaN. This is the result `Ok(None)`, not a precondition. Since the source handles that input, the model gives it an answer rather than ruling it out.
- RobustPrune.RobustPrune: `std::sort` of the candidates by distance (modules/robustprune.cpp:33) is not stable, so among equidistant candidates the source may try them in any order. The model sorts them in one fixed order (`Selection.SortByKey`: of two equal entries the later comes first), so which of several equidistant candidates is kept first is the model's choice, not a promise of the source.
- FilteredRobustPrune.FilteredRobustPrune: the same holds for its `std::sort` (modules/filteredrobustprune.cpp:39): the order among equidistant candidates, and so which of them is kept, is fixed by the model.
- FilteredGreedySearch.Top: the source's `priority_queue` of `pair<double, Node*>` with `greater<>` (modules/filteredgreedysearch.cpp:19) breaks equal distances by pointer address, which the model does not have. The model breaks them by arena position instead, so which of several equidistant entries is popped first need not match a real run.
- GreedySearch.GreedySearch: `nth_element` leaves ties in no particular order. The contract therefore states only that no dropped entry is strictly nearer than a kept one, not which of several equally near entries is returned (`GreedySearch.GreedySearchExample` shows the consequence for the test at tests/greedysearch_test.cpp:14-24).
- Vamana.VamanaIndexing: `L` and `R` are `int` in modules/vamana.cpp:25 and are modelled as `nat`. A negative `R` converts to a huge `size_t` in the guard at modules/vamana.cpp:7 (so the random graph is skipped) and in the cap checks (so `FilteredRobustPrune` never caps); none of this is modelled.
- StitchedVamana.StitchedVamana: the `int` parameters `L_small`, `R_small` and `R_stitched` are modelled as `nat`; negative values and their conversions to `size_t` are not modelled.
- StitchedImproved.StitchedImproved: the `int` parameters `L_small`, `R_small` and `R_stitched` are modelled as `nat`. A negative `R_stitched` would skip the bridging loop and convert to a huge cap in the final prune; this is not modelled.
- StitchedVamana.SubsetBuild: the failure cases are stated one way only (each listed cause fails). The contract does not state that nothing else fails, because the k-means draw count depends on the subset's contents.
- FilteredVamana.FilteredVamana: since the search is called with k = 0, the reverse-edge branch of modules/filteredvamana.cpp:78-87 never runs in the builder. `FilteredVamana.LinkStep` and `FilteredVamana.ReverseLinksAdds` model it on their own, including the `G[neighbor]` rebuilt from the list the prune took by value.

## Findings

| source | as written | input that shows it | evidently intended | confidence | as-written member | corrected member |
|---|---|---|---|---|---|---|
| modules/file_manipulation.cpp:141 | `CreateGraph` copies coordinates from `begin() + 1` to `begin() + 100`, i.e. 99 values, and then reads neighbours from entry 101, so entry 100 is never read | one node with 100 coordinates, the last of them 1.0 and the rest 0.0: `createVectorFromNodes` writes 100 coordinates, and reading back yields 99 | `begin() + 101`, so that 100 coordinates round-trip through `createVectorFromNodes` | high, by proof; not executed | FileManipulation.CreateGraphDropsCoordinate | FileManipulation.CreateGraphFullRoundTrip |
