# K-means document clustering engine, modelled in Dafny

This project models the engine of a K-means text-clustering tool: the C++ class `KMeans`
(`lib/KMeans.hpp`, `lib/KMeans.cpp`). Callers use it as follows:

- Raw documents are added as sparse attribute/value lists.
- `run` turns them into L2-normalised sparse vectors.
- It seeds K centroids from randomly drawn points.
- It then repeats an assignment pass until the number the pass returns is at most the
  update threshold.
- An assignment pass puts each point into the cluster of its nearest centroid by cosine
  dissimilarity, scanning the centroids in order and stopping early at a near-zero
  dissimilarity.
- When enough points moved, the pass also updates the centroids. Empty clusters are
  repaired first, by taking points from clusters that hold more than one.
- Finally, `run` collects the clusters and the point-to-cluster map.
- `evaluate` tallies each cluster's members against labelled classes, for purity and entropy.

## Modules

| file | module | models |
|---|---|---|
| `types.dfy` | `KMeansTypes` | `Point`, `_S_Point` (`SPoint`), `_Centroid` (`Centroid`), the iteration record, symbolic vectors |
| `nearest.dfy` | `Nearest` | the nearest-centroid scan with its early exit |
| `moves.dfy` | `Moves` | what one pass records: moved count, touched ids, rebuilt lists, objective |
| `membership.dfy` | `Membership` | the partition the member lists keep, and how a donation preserves it |
| `seeding.dfy` | `Seeding` | centroid seeding: draws with repeats skipped |
| `repair.dfy` | `Repair` | `_updateCentroids`: the split of touched clusters, both repair passes, recomputation |
| `collect.dfy` | `Collection` | collecting the clustering lists and the point-to-cluster map |
| `evaluation.dfy` | `Evaluation` | the counting part of `evaluate` |
| `engine.dfy` | `Engine` | the class `KMeans` with its fields and public operations, `run` and its steps |

Modelling choices:

- The engine is a Dafny class, `Engine.KMeans`. Its fields mirror the C++ members, and its
  methods reassign them.
- Points and centroids are values in two sequences (`sPts`, `centroids`). A member list is a
  sequence of indices into `sPts`, standing in for the C++ `_S_Point *` entries. The front of a
  `std::deque` is index 0.
- Each iteration runs on local values in module-level methods (`Solve`, `Cluster`,
  `Iterate`, `AssignmentPass`, `UpdateCentroids`). `Run` prepares the fields, and
  `SolveAndStore` clusters the prepared points and installs the results in the fields.
- Floating-point vectors are symbolic. A point's vector is named by the attribute and value
  lists it is built from. A centroid's vector is either a copy of one point's vector or the
  mean of its members' vectors.
- Cosine dissimilarity is a function parameter `dis` with values in [0, 2].
- The early-exit tolerance (the literal 3e-16) is a parameter `tol`.
- The random generator is replaced by a supplied sequence of draws.

## Model

| member | source | states |
|---|---|---|
| KMeansTypes.MaxElement | lib/KMeans.cpp:84 | the largest attribute index: an element of the non-empty list that no element exceeds |
| KMeansTypes.SetMinimum | lib/KMeans.cpp:282 | a non-empty id set has a least element, where `std::set` iteration starts |
| Nearest.Dissims | lib/KMeans.cpp:245-247 | one dissimilarity per centroid, in centroid order, computed from the point's vector and the centroid's vector and norm |
| Nearest.ScanLength | lib/KMeans.cpp:245-256 | the scan covers a non-empty prefix; every centroid before the last one scanned is above tol; the scan covers all centroids or ends at one within tol |
| Nearest.NearestCentroid | lib/KMeans.cpp:243-256 | the loop returns the position IsNearest describes (the first strict minimum of the scanned prefix) and that position's dissimilarity |
| Nearest.NearestIsUnique | lib/KMeans.cpp:249-253 | at most one position satisfies IsNearest, so the choice is deterministic |
| Nearest.FirstMinimum | lib/KMeans.cpp:249-253 | the first position attaining the minimum of a prefix |
| Nearest.NearestExists | lib/KMeans.cpp:244-256 | every non-empty centroid list has a nearest centroid |
| Nearest.EarlyExitIsWithinTolerance | lib/KMeans.cpp:254-255 | when the scan stops early, the chosen dissimilarity is itself within tol |
| Nearest.NearestIsAlmostMinimal | lib/KMeans.cpp:244-256 | the chosen dissimilarity exceeds no centroid's by more than tol |
| Nearest.DissimsIgnoreMembers | lib/KMeans.cpp:236-247 | dissimilarities depend on the centroids' vectors and norms only, so clearing and refilling member lists during a pass does not change the choice |
| Moves.CountDiffZero | lib/KMeans.cpp:259-264 | the moved count is 0 exactly when no field changed, and it is at most the number of points |
| Moves.TouchedMembers | lib/KMeans.cpp:259-264 | an id is touched exactly when some point moved to it, or moved away from it and it was not "unassigned" |
| Moves.TouchedEmptyIffNoMove | lib/KMeans.cpp:259-264 | nothing is touched exactly when no point moved |
| Moves.TouchedInRange | lib/KMeans.cpp:259-264 | when old fields are unassigned or below K and new fields are below K, every touched id is a valid cluster position |
| Moves.PassStep | lib/KMeans.cpp:239-266 | handling point i adds exactly its move, its touched ids and its list entry |
| Moves.MembersRevHolds | lib/KMeans.cpp:258 | the rebuilt list of cluster k holds exactly the points whose field is k |
| Moves.UnnamedUntouched | lib/KMeans.cpp:259-263 | an id that no field names, before or after the pass, is not touched |
| Moves.MembersRevNone | lib/KMeans.cpp:258 | a cluster that no point's field names gets an empty rebuilt list |
| Moves.MembersRevDecreasing | lib/KMeans.cpp:258 | the rebuilt list is strictly decreasing (latest first), so it repeats no point |
| Moves.ObjectiveAgrees | lib/KMeans.cpp:257 | the objective over the first n points depends on those points only |
| Moves.ObjectiveBound | lib/KMeans.cpp:257 | termwise within tol implies the objective is within n·tol |
| Moves.StepIsAlmostMinimal | lib/KMeans.cpp:244-257 | a point's objective term is within tol of any other choice for that point |
| Moves.PassObjectiveIsMinimal | lib/KMeans.cpp:244-257 | the objective of the assignment a pass picks is within n·tol of any other assignment of the same points to the same centroids |
| Membership.ListedExactlyOnce | lib/KMeans.hpp:55 | in a partition, a point is in a list exactly when its field names that list, and it appears there once |
| Membership.MembersBelow | lib/KMeans.cpp:392-408 | the first m lists together hold as many entries as there are points whose field is below m |
| Membership.PartitionCoversAll | lib/KMeans.cpp:392-425 | in a partition, the cluster sizes add up to the number of points |
| Membership.EmptyListUnnamed | lib/KMeans.hpp:55 | in a partition, no point's field names a cluster whose list is empty |
| Membership.DonorExists | lib/KMeans.cpp:314-336 | with no more clusters than points, an empty cluster implies that some cluster holds more than one point, so the fallback search finds a donor |
| Membership.MembersRevPartition | lib/KMeans.cpp:236-266 | lists rebuilt by a pass partition the points whenever every field names a cluster |
| Membership.MovePreservesPartition | lib/KMeans.cpp:302-307 | moving the front member of one cluster to the front of another, and updating its field, keeps the partition |
| Seeding.Dedup | lib/KMeans.cpp:210-223 | the kept draws hold exactly the values drawn |
| Seeding.DedupDistinct | lib/KMeans.cpp:213-216 | no drawn value is kept twice |
| Seeding.DedupPrefix | lib/KMeans.cpp:210-223 | the values kept after a prefix of the draws are a prefix of those kept after all of them |
| Seeding.DedupStep | lib/KMeans.cpp:212-223 | one more draw is kept at the end exactly when it is new |
| Seeding.DrawsRemain | lib/KMeans.cpp:210-223 | while fewer than K distinct values have been seen and the draws hold at least K, a draw remains |
| Seeding.DedupSize | lib/KMeans.cpp:210-223 | as many draws are kept as there are distinct values |
| Collection.RevIds | lib/KMeans.cpp:166-168 | the collected ids of a list: the last member first, one id per member |
| Collection.RecordSpec | lib/KMeans.cpp:169 | recording a list adds exactly its members' ids, all mapped to the cluster, and keeps the other keys |
| Collection.RecordedValue | lib/KMeans.cpp:163-170 | after the first k clusters, a point whose field is below k is mapped to its field |
| Collection.RecordedKeys | lib/KMeans.cpp:163-170 | every key of the map is the id of some point |
| Collection.RecordedAll | lib/KMeans.cpp:160-172 | after all clusters, every point's id maps to its cluster, and there are no other keys |
| Collection.CollectCluster | lib/KMeans.cpp:164-170 | the loop over one list yields RevIds of it and records its ids |
| Collection.CollectAll | lib/KMeans.cpp:160-172 | position r of the clusters list holds the ids of cluster |cs| - 1 - r, and the map is every list recorded in turn |
| Collection.CollectSolution | lib/KMeans.cpp:160-172 | the collected lists in reversed cluster order, and a map from every point's id to its cluster with no other keys |
| Evaluation.CategoryMapSpec | lib/KMeans.cpp:370-381 | a point has a category exactly when some label holds it, and its category is the last-ranked label holding it |
| Evaluation.BuildCategoryMap | lib/KMeans.cpp:370-381 | the loops build CategoryMap, so every category is in range and names a label holding the point |
| Evaluation.Categories | lib/KMeans.cpp:396-405 | each member's category, or NoCategory when no label holds it |
| Evaluation.Row | lib/KMeans.cpp:387-404 | cell j of a row counts the members in category j |
| Evaluation.RowSumPlusUngrouped | lib/KMeans.cpp:394-405 | a row's cells plus the unlabelled count add up to the cluster's size |
| Evaluation.TallyCluster | lib/KMeans.cpp:394-406 | the loop yields the row and the unlabelled count, which together account for every member |
| Evaluation.TallyStep | lib/KMeans.cpp:396-405 | one member adds one to its category's cell, or to the unlabelled count |
| Evaluation.MaxCell | lib/KMeans.cpp:407-415 | the result is nonnegative, no cell exceeds it, and it is 0 or one of the cells |
| Evaluation.MaxCellAtMostSum | lib/KMeans.cpp:407-422 | the largest cell is at most the row's sum, so the purity numerator is at most the cluster's size |
| Evaluation.EvaluateCluster | lib/KMeans.cpp:392-422 | a cluster's row, its unlabelled count and its largest cell, as ClusterTally relates them |
| Repair.EvolvedRefl | lib/KMeans.cpp:289-339 | no repair at all is a repair of no cluster |
| Repair.EvolvedTrans | lib/KMeans.cpp:289-339 | two rounds of repairs together are one round over both sets of clusters |
| Repair.HadMore | lib/KMeans.cpp:325-333 | a cluster holding more than one point after repairs was not repaired and held more than one point before |
| Repair.DonateKeeps | lib/KMeans.cpp:302-309 | a donation keeps the partition, the ids and the vectors, and repairs exactly the receiving cluster |
| Repair.SplitTouched | lib/KMeans.cpp:282-288 | touched ids split exactly into clusters left empty and the others (TouchedSplit), each list strictly decreasing, with sizes adding up to the touched count |
| Repair.TouchedSplitUnique | lib/KMeans.cpp:282-288 | two pairs of lists that both split the same touched ids are the same pair, so the split, and with it the update, is determined by the touched set |
| Repair.DescendingUnique | lib/KMeans.cpp:282-288 | two strictly decreasing lists with the same elements are equal |
| Repair.DonatedStart | lib/KMeans.cpp:289-294 | before the first donation, the repair state holds with nothing repaired |
| Repair.DonatedStep | lib/KMeans.cpp:300-310 | one donation repairs the next empty cluster, keeps the repair state, and leaves any cluster of at most one member at most one |
| Repair.FirstDonorFrom | lib/KMeans.cpp:323-336 | the first cluster at or after k holding more than one point, or -1 exactly when there is none |
| Repair.FirstDonor | lib/KMeans.cpp:323-336 | the loop finds FirstDonorFrom(cs, 0) |
| Repair.DrainOf | lib/KMeans.cpp:298-310 | one donor's turn as a function of the state: the points and clusters keep their counts and in-range members, and the empty clusters left are a suffix of those given |
| Repair.Drain | lib/KMeans.cpp:298-310 | the loop ends in the state DrainOf gives: one donor gives its front point to the next empty cluster while it holds more than one and empty clusters remain |
| Repair.DonorPassOf | lib/KMeans.cpp:294-312 | the first pass as a function: every touched cluster that kept members takes its DrainOf turn in order, stopping once no empty cluster is left; the empty clusters left are a suffix of those given |
| Repair.DonorPass | lib/KMeans.cpp:294-312 | the loop ends in the state DonorPassOf gives; it keeps the repair state, and if empty clusters remain every touched cluster that kept members is down to one member |
| Repair.DonorTurn | lib/KMeans.cpp:296-311 | donor n's turn is DrainOf from the current state; if empty clusters remain, donors 0 to n are down to one member |
| Repair.FallbackOf | lib/KMeans.cpp:314-338 | the second pass as a function: each remaining empty cluster in turn takes a point from FirstDonorFrom(cs, 0), stopping once there is none; one donor entry per repaired cluster (the donors and the clusters still empty add up to those given), the latest donor first, and the clusters still empty are the tail of those given |
| Repair.FallbackPass | lib/KMeans.cpp:314-338 | the loop ends in the state FallbackOf gives, with the donors pushed in front; each donor held more than one point; once none does, the rest stay empty |
| Repair.RepairOf | lib/KMeans.cpp:289-339 | both passes in turn: the counts and in-range members are kept, and every donor is a cluster position |
| Repair.RecomputeCentroids | lib/KMeans.cpp:345-352 | exactly the listed clusters get the mean of their members' vectors and its norm (RecomputedAll); a cluster listed twice gets the same value again |
| Repair.RecomputeListed | lib/KMeans.cpp:333-352 | the list is the fallback donors followed by the touched clusters that kept members; below the threshold nothing is recomputed and the count is 0, otherwise every listed centroid is recomputed and the count is the list's length |
| Repair.DonatedTrans | lib/KMeans.cpp:289-339 | a round followed by a round over what it left empty is one round |
| Repair.KeepsMembers | lib/KMeans.cpp:345-351 | a cluster that had members, or was repaired, still has members, so the mean never divides by zero |
| Repair.RepairEmpty | lib/KMeans.cpp:289-339 | the result is RepairOf of the split; both passes keep the repair state; the fallback donors held more than one point and were not repaired; with no more clusters than points, no cluster is left empty |
| Repair.NoneLeft | lib/KMeans.cpp:314-338 | with no more clusters than points, a round that ends with every cluster at most one member has no empty cluster left |
| Repair.UpdateCount | lib/KMeans.cpp:341-354 | the update returns 0, or a count between the threshold and the number of touched clusters |
| Repair.UpdateCentroids | lib/KMeans.cpp:275-355 | the result is UpdateOf of the split of the touched ids: the list is the fallback donors, one per cluster the fallback repaired, followed by the touched clusters that kept members; the partition and vectors are kept; only touched empty clusters are repaired (all of them when there are no more clusters than points); the listed clusters are recomputed exactly when the list reaches the threshold; the count is 0 below the threshold and otherwise the list's length |
| Repair.UnlistedUpdateKeeps | lib/KMeans.cpp:289-354 | an update that lists no cluster leaves the points and the clusters as they were: no donor, no fallback donation, nothing recomputed |
| Repair.UpdateKeepsUntouched | lib/KMeans.cpp:279-352 | an empty cluster outside the touched set is still empty after the update |
| Repair.UnrepairedEmptyStays | lib/KMeans.cpp:289-352 | an empty cluster that no donation repaired is still empty after the update |
| Repair.FallbackDonorCounted | lib/KMeans.cpp:314-354 | two points in cluster 0 and an empty touched cluster 1, threshold 0: cluster 0 gives a point in the fallback, is listed as its donor, and the count is 1 |
| Engine.KMeans.constructor | lib/KMeans.cpp:13-17 | K as given, no points, threshold 0, dim -1, nothing vectorised, clustered or completed |
| Engine.KMeans.SetNumberOfClusters | lib/KMeans.cpp:29-32 | K becomes the given value |
| Engine.KMeans.SetCentroidUpdateThreshold | lib/KMeans.cpp:44-47 | the threshold becomes the given value, or 0 when that is negative |
| Engine.KMeans.AddDataPoint | lib/KMeans.cpp:74-91 | returns 1, 2 or 3 for an empty point, mismatched lists or a repeated id, checked in that order, leaving the store unchanged; otherwise stores the point, counts it, and raises dim to its largest attribute; always clears the completed flag |
| Engine.KMeans.Vectorize | lib/KMeans.cpp:182-197 | one unassigned, normalised vector per stored point, under its own id |
| Engine.KMeans.VectorizeAsWritten | lib/KMeans.cpp:186-189 | fresh vectors pushed in front of the old list, which is kept |
| Engine.RerunDuplicatesPoints | lib/KMeans.cpp:120-125 | vectorising again without clearing lists a stored point twice, and the list outgrows the store |
| Engine.VectorizationCovers | lib/KMeans.cpp:186-196 | a vectorisation holds a vector for every stored id |
| Engine.KMeans.Prepare | lib/KMeans.cpp:103-127 | K is capped at the number of points; after a completed run the centroids, clusters, map and history are emptied and the points are ForgetStale of the old ones; otherwise the points are vectorised afresh, every field unassigned, and the solution fields are emptied too (the corrected behaviour, see Findings); either way the points are a vectorisation of the store |
| Engine.ForgetStale | lib/KMeans.cpp:109-118 | the points keep ids and vectors, every field is unassigned or below K, and a field below K is kept |
| Engine.ForgetStaleKeepsPartition | lib/KMeans.cpp:109-118 | when K is not below the earlier run's number of clusters, forgetting stale fields changes nothing, as in the source |
| Engine.StaleFieldTouched | lib/KMeans.cpp:259-262 | a point whose field names no current cluster is moved by the pass, and its stale id is marked touched |
| Engine.KMeans.Run | lib/KMeans.cpp:98-180 | with no points: returns 0 and changes nothing, the solution fields included; otherwise K is capped, and the run completes with K centroids partitioning the points, an iteration history in which every count but the last exceeds the threshold, the last objective value, and the collected solution; the iterations recorded in the ghost trace lead from the prepared points and the seeded centroids to the stored ones, each as Iterate specifies |
| Engine.KMeans.SolveAndStore | lib/KMeans.cpp:130-179 | clustering the prepared points and storing the results completes the run with a Solution that starts from the prepared points, which stay a vectorisation of the store |
| Engine.KMeans.Install | lib/KMeans.cpp:174-179 | the results become the fields and the run is marked complete, with the class invariant kept |
| Engine.KMeans.Evaluate | lib/KMeans.cpp:357-425 | with labels ranked by size, each cluster's row, unlabelled count and largest cell; the purity numerator is their sum and at most the number of points |
| Engine.Tabulate | lib/KMeans.cpp:392-423 | one ClusterTally per cluster, in order; the purity numerator is the sum of the largest cells and at most the number of listed members |
| Engine.Seeded | lib/KMeans.cpp:215-218 | centroid k is numbered base + k, has no members, and copies the vector of the point chosen for it, with norm 1 |
| Engine.SeededIds | lib/KMeans.cpp:219 | the chosen points' ids, the last chosen (centroid 0's) first |
| Engine.SeededFresh | lib/KMeans.cpp:215-218 | freshly seeded centroids are numbered by position and empty |
| Engine.InitializeCentroids | lib/KMeans.cpp:199-225 | the centroids are seeded from the first K distinct draws, every one a valid point index, and `initial` lists their ids |
| Engine.SeedDraw | lib/KMeans.cpp:211-222 | one draw keeps the seeding state: a new value becomes centroid i - 1, and a repeat is skipped and drawn again |
| Engine.SeedingStep | lib/KMeans.cpp:211-222 | a repeat changes only the draw count; a new value picks the next centroid from its point |
| Engine.DrawableAsWritten | lib/KMeans.cpp:207 | the values the generator can return, as set up: the valid point indices and the number of points itself |
| Engine.DrawCanOverrun | lib/KMeans.cpp:207 | for every point list, some DrawableAsWritten value is not an index of it |
| Engine.Solve | lib/KMeans.cpp:129-172 | seeding, the clustering loop and collection together give a Solution on the same vectors, with the iterations recorded from the seeded centroids |
| Engine.Cluster | lib/KMeans.cpp:139-158 | between 1 and maxIterations iterations, one history entry each; every count but the last exceeds the threshold, and the last is at most the threshold unless the bound was reached; the points end partitioned, with the same vectors; the trace starts at the given state, ends at the returned one, and iteration t leads from trace[t] to trace[t + 1] returning info[t], as Iterate specifies (Ran) |
| Engine.Step | lib/KMeans.cpp:141-149 | one iteration from the last recorded state keeps the numbering, the vectors and the partition, and extends the record by that iteration |
| Engine.Iterate | lib/KMeans.cpp:227-273 | the pass places every point (PassDone); below the threshold its moved count and result are returned; otherwise the update runs on the touched clusters, split as SplitTouched splits them, and its UpdateOf result and count are returned |
| Engine.AssignmentPass | lib/KMeans.cpp:233-267 | every point gets its nearest centroid; the lists are rebuilt exactly; the objective sums the chosen dissimilarities; the moved count and the touched ids are those the fields' changes give |
| Engine.ClearMembers | lib/KMeans.cpp:236-237 | every member list emptied, nothing else changed |
| Engine.PlacePoint | lib/KMeans.cpp:239-266 | handling point i extends the pass invariant to the first i + 1 points |
| Engine.RecordMove | lib/KMeans.cpp:258-265 | a point whose field differs is counted, marks its old cluster (unless unassigned) and new cluster as touched, and takes the new field; otherwise nothing changes |
| Engine.PassStart | lib/KMeans.cpp:234-237 | after clearing, the pass invariant holds for no points |
| Engine.PassInvariantStep | lib/KMeans.cpp:239-266 | placing point i at its nearest centroid keeps the pass invariant |
| Engine.PassEnd | lib/KMeans.cpp:239-267 | at the end of the pass, the lists partition the points and the totals cover all of them |
| Engine.PassDoneKeeps | lib/KMeans.cpp:239-267 | a pass keeps the centroid numbering and the points' vectors |
| Engine.PassAvoids | lib/KMeans.cpp:239-266 | a cluster that no point finds nearest ends the pass with no members, and no field names it |
| Engine.PassIsIdempotent | lib/KMeans.cpp:233-267 | a second pass over what a pass produced moves no point and rebuilds every list as it was |
| Engine.ZeroCountKeepsPass | lib/KMeans.cpp:268-354 | with threshold 0, an iteration that returns 0 moved no point, so the update changed nothing and the iteration's result is the pass's |
| Engine.StableAtZero | lib/KMeans.cpp:227-273 | with threshold 0, after an iteration that returns 0, one more pass moves no point and leaves every cluster as it is |
| Engine.SolutionIsStable | lib/KMeans.cpp:145-158 | a solution reached with threshold 0 before the iteration bound is a fixed point of the assignment pass |
| Engine.UntouchedEmptyStays | lib/KMeans.cpp:259-288 | a cluster that no field names and no point finds nearest is never touched, so the iteration leaves it empty and no field names it |
| Engine.PassThenUpdateAvoid | lib/KMeans.cpp:239-352 | a cluster that no field names and no point finds nearest is left empty and unnamed by the pass, is not touched, and is not reached by the update |
| Engine.ConstantPicksFirst | lib/KMeans.cpp:244-253 | with a dissimilarity that is the same for every centroid, no point finds a centroid past 0 nearest |
| Engine.ConstantDissimilarityStep | lib/KMeans.cpp:244-288 | with a constant dissimilarity every point finds cluster 0 nearest, so a cluster k >= 1 that no field names stays empty and unnamed through an iteration |
| Engine.ConstantDissimilarityKeepsEmpty | lib/KMeans.cpp:145-158 | with a constant dissimilarity, a cluster k >= 1 that no initial field names is named by no field after any number of iterations, and is empty after each |
| Engine.ConstantDissimilarityRun | lib/KMeans.cpp:98-180 | a run from unassigned fields with a constant dissimilarity ends with every cluster but cluster 0 empty, though K is at most the number of points |
| Engine.VectorizationKept | lib/KMeans.cpp:145-158 | iterations change fields only, so the points stay a vectorisation of the store |

## Left out

- Floating point is not modelled. Vector entries, norms, means, the dot product, the
  `log2` entropy and the purity division are symbolic or left out. Evaluation's model stops
  at the integer counts (rows, unlabelled counts, largest cells, the purity numerator).
- The early-exit constant 3e-16 is the parameter `tol`. The scan's starting value 3 is kept,
  and the dissimilarity type is bounded by 2, so the first centroid always sets the minimum.
- The random generator is left out. `std::mt19937` with `setRandomSeed` and
  `UNASSIGNED_RANDOM_SEED_FLAG` becomes a supplied sequence of draws.
  Engine.KMeans.Run requires enough distinct draws, where the source would keep drawing.
- Engine.KMeans.Run: the do-while loop has no termination argument in the source. The model
  bounds it by a `maxIterations` parameter. When the bound is reached, the last count may
  still exceed the threshold.
- Engine.KMeans.Run: requires `nClusters >= 1`. With K = 0 the source writes through an
  unset `tar_centroid`, which is undefined behaviour.
- Engine.KMeans.Run: a repeated run after `setNumberOfClusters` lowered K starts from the
  corrected state, where the fields naming clusters at or past the new K are unassigned
  (see Findings). The source keeps those fields and then indexes past its centroid list.
- Engine.KMeans.Run: with a threshold above 0, or when the iteration bound stops the loop,
  the run can end while points still move, so no stability is promised then.
  SolutionIsStable promises it only for threshold 0 before the bound.
- Engine.KMeans.Prepare: when a run's completed flag is false, the model starts from a fresh
  point list and empties the centroids, history and clusters. The source keeps all four
  (see Findings).
- Engine.KMeans.Run: requires every draw to be a valid point index. The source's range
  admits one more value; see Findings.
- Engine.KMeans.Evaluate: the table has one row per centroid. The source sizes it by K and
  fills the rows of its centroids. The two differ in three cases:
  - before any run, or after a run on an empty store, the source has K rows of zeros and the
    model none;
  - when `setNumberOfClusters` raised K after a run, the source has extra rows of zeros;
  - when it lowered K, the source indexes past its table, which is undefined behaviour.
- 32-bit integer overflow is not modelled: counts, ids and `_dim` are unbounded integers.
- `std::unordered_map` iteration order is not fixed. Vectorize and BuildCategoryMap pick
  ids in an arbitrary order; the vectorised list's order is unspecified.
- Ties in `std::sort` of the labels are not fixed. The ranking is a parameter, and
  `IsRanking` states what `std::sort` guarantees.
- Elapsed times (`_total_time_taken` and the third field of `_iter_info`), the log stream,
  `setLogStream`, `log`, `setRandomSeed`, the getters and the destructor are not modelled.
  They are I/O, clock reads, accessors and memory management.
- The printed output of `evaluate` is not modelled. The `std::cerr` line it writes for each
  unlabelled member is output only.
- Aliasing is not modelled. Member lists hold indices into the point list, so a
  point shared by a list and `_s_pts` is one index, not one object.
- `Eigen` and the program's driver (`main.cpp`, `preprocess.py`, `run.py`) are not part of
  this model.

Observations from the source that the contracts state as written:

- The clusters list is collected with `push_front`, so position r holds cluster K - 1 - r,
  not cluster r as the header's comment says.
- A cluster that no point entered or left is never checked for emptiness, so an untouched
  empty cluster stays empty (UntouchedEmptyStays). Identical documents show it: with a constant
  dissimilarity every point picks cluster 0, and a run from unassigned fields ends with every
  other cluster empty (ConstantDissimilarityRun). No cluster repair reaches them, since they
  are never touched.
- The update count is the length of the recompute list, which holds one donor entry per
  cluster the fallback repaired. A cluster that gives several points in the fallback is
  listed, counted and recomputed once per point given. A fallback donor is never a touched
  cluster that kept members: those are down to one member once the first pass leaves empty
  clusters.
- The threshold is compared with the number of moved points before the update, and with the
  number of updated clusters after it.

## Findings

| source | as written | input that shows it | evidently intended | confidence | as-written member | corrected member |
|---|---|---|---|---|---|---|
| lib/KMeans.cpp:120-125 | a run whose `_completed` flag is false vectorises the points and pushes them onto `_s_pts` without clearing what an earlier run left (also the old centroids, history and clusters) | run, then `addDataPoint` (even a rejected one, which still clears the flag), then run again: every earlier point is listed twice | start the run from a fresh vectorisation, as the completed branch does by clearing | not executed | Engine.KMeans.VectorizeAsWritten, Engine.RerunDuplicatesPoints | Engine.KMeans.Prepare |
| lib/KMeans.cpp:109-118, 259-262, 284 | a completed run is cleared without resetting the points' fields, so after `setNumberOfClusters` lowers K a field can name a cluster at or past K; the pass then moves that point and marks the stale id as touched, and `_updateCentroids` reads `_centroids[cid]` past the end | run with K = 3, `setNumberOfClusters(2)`, run again: a point left in cluster 2 is marked touched with id 2, and `_centroids[2]` is out of range | reset the fields of a cleared run (or forget those naming no current cluster) | not executed | Engine.StaleFieldTouched | Engine.KMeans.Prepare |
| lib/KMeans.cpp:207 | `std::uniform_int_distribution<int>(0, size())` includes `size()` itself | any run where the generator returns the number of points: `_s_pts[size()]` reads past the end | draw from 0 to `size() - 1` | not executed | Engine.DrawableAsWritten, Engine.DrawCanOverrun | Engine.InitializeCentroids |
