# Verified model of SILVA's versioned spatial indexes

A Dafny model of three parts of SILVA, and proofs about them.

**The multi-version Morton quadtree.** A version is a binary trie over the 64
interleaved bits of (x, y); leaves are sorted by (Morton code, id). The heap
model (`Mvq`, `Ranges`, `Diffs`, `Nearest`, `Joins`, `Merges`, `Versions`) uses
node objects whose fields the operations overwrite as the source does: a commit
copies the touched paths and shares the rest. Each node carries a ghost trie
value; `Tries` defines on such values the canonical form, and the central fact
is that a canonical tree is exactly what `build` makes of its points. From that
follow history independence, exact counts, the safety of the unchecked casts in
the collapse, exactly which subtrees a commit shares, and that diff and commit
undo each other. `RefCount` models the shared-pointer heap on its own, for
`gc_nocheck`.

**The Hilbert codec.** Words are natural numbers with the C operators written
out bit by bit (`Words`), left shifts dropping what passes bit 63. `Transposes`
and `LogTranspose` prove the two forms of the bit transpose equal,
`Grays` and `Rotations` the building blocks, `Hilbert` both round trips for all
dimensions and widths that fit a word, `HilbertCurve` the adjacency of
consecutive indices in every number of dimensions, and `HilbertOrder` that the
comparison which never computes an index agrees with the order along the curve,
also where the index would not fit a word. `HilbertScale` relates that order to
the indices of coarser grids.

**The version log with compaction.** `Rlog` and `RlogDiff` model version nodes
with parent pointers; `Logs` and `LogDiffs` state what a query view, a
compaction and an LCA-based diff mean over the list of a version's ancestors.

Points have an id and two coordinates in [0, 2^32). A version is a multiset of
points: inserting an existing point keeps both copies, and a deletion removes
one copy per match. Leaf size and k are at least 1. With integer coordinates
the left box's upper edge, one epsilon below the split, is the last integer
before it.

Three findings about the code:

* The version log ignores the order of its entries: a point whose deletion is
  still in the log when it is inserted again is not shown
  (`Logs.ReinsertionIsLost`). Whether the deletion is still there depends on the
  ratio; with one point it is for every ratio above 1, and not at the default
  of 1 (`Rlog.PutBackRun`). A later compaction caches what is shown, so the
  point stays lost until it is inserted once more (`Logs.LossIsPermanent`). The
  exact condition is in `Logs.ExactIffNeverRevives`, and for a single call in
  `Logs.StepExact`.
* A commit may copy a subtree neither batch touches: when the deletion collapses
  its father into a leaf and the insertion makes it grow again
  (`Regrowth.CollapseAndRegrow`). `Mvq.Tree.Commit` has the exact condition.
* Box pruning in the spatial join is only sound for distances that are not
  negative (`Joins.PruningNeedsDistance`), since hits are decided by the squared
  distance; for a negative one the join reports fewer pairs (`Joins.MissedHit`).

To verify: `dafny verify dfyconfig.toml`.

## Model

| member | source | states |
|---|---|---|
| Points.InterleaveBits | include/silva/geo/point.hpp:78-95 | the 32-step loop of masked shifts returns the Morton code of the point |
| Points.BitInterleave | include/silva/geo/point.hpp:78-95 | what a code is: its odd bits are the bits of x, its even bits those of y |
| Points.InterleaveInjective | include/silva/geo/point.hpp:78-95 | different coordinates have different codes |
| Points.InterleaveMonotone | include/silva/geo/point.hpp:78-95 | the code grows with each coordinate |
| Points.MsbOrder | include/silva/geo/point.hpp:42-45 | the xor/msb comparison decides by the coordinate that holds the most significant differing bit of the codes |
| Points.MortonLessIsCodeOrder | include/silva/geo/operations.hpp:201-208 | `morton_less` is the order of the codes, and only equal coordinates tie |
| Cells.SplitByBit | include/silva/geo/operations.hpp:46-68 | on any range whose clear-bit points come first, binary search plus scan returns the first point with the bit set |
| Cells.HalfBit | include/silva/geo/operations.hpp:46-68 | the tested bit of a code in an aligned cell is set exactly in the right half of the cell |
| Cells.SplitCell | include/silva/geo/operations.hpp:46-68 | on a sorted run inside a cell the split cuts the run at the middle of the cell |
| Sequences.SortedUnique | include/silva/geo/operations.hpp:462-490 | a sorted run is determined by its points, so results do not depend on the order of arrival |
| Sequences.SortedByCodeAndId | include/silva/geo/operations.hpp:476-479 | what sorted means: codes never fall, and within a code ids never fall |
| Operations.DiffType.AddPoint | include/silva/geo/point.hpp:173-180 | the point is appended to the added side, or to the removed side under `reverse`; the other side is unchanged; no write past a buffer |
| Operations.DiffType.RemovePoint | include/silva/geo/point.hpp:181-188 | the mirror image of AddPoint |
| Operations.DiffType.Compact | include/silva/geo/point.hpp:189-192 | both buffers shrink to exactly what was written |
| Operations.MergePts | include/silva/geo/operations.hpp:371-423 | comparing two runs appends the filtered differences a - b and b - a to the right sides of the result, under either orientation |
| Operations.MergePtsFresh | include/silva/geo/operations.hpp:433-441 | buffers sized by the two runs always suffice, and the result is the two multiset differences |
| Operations.GetDeleteP | include/silva/geo/operations.hpp:313-362 | what is left of a run after deleting one copy per matching batch point, filtered |
| Sequences.MinusContents | include/silva/geo/operations.hpp:313-362 | on sorted runs the merge-style difference is the multiset difference |
| Sequences.MergeContents | include/silva/index/mvq.hpp:1360-1374 | merging keeps every point of both runs, with multiplicity |
| Tries.BuiltIsCanonical | include/silva/index/mvq.hpp:425-444 | build keeps the points and makes a canonical tree: points in their cells, leaf sizes in range, every num_pts exact |
| Tries.CanonicalIsBuilt | include/silva/index/mvq.hpp:425-444 | a canonical tree is, node for node, what build makes of its own points |
| Tries.SamePointsSameTree | include/silva/index/mvq.hpp:425-444 | two versions with the same points are the same tree |
| Tries.RootOrder | include/silva/geo/operations.hpp:476-479 | the points of every version lie in the order of their codes, and within a code of their ids |
| Tries.CommittedContents | include/silva/index/mvq.hpp:1002-1021 | a commit leaves the old points minus the deleted ones, one copy per match, plus the inserted ones |
| Tries.DeletedIsRoot | include/silva/index/mvq.hpp:1410-1479 | what a deletion leaves is null or canonical again, so an insertion may follow |
| Mvq.Tree.NodeCopy | include/silva/index/mvq.hpp:569-597 | the copy is a new object with the same points, shape and sons; the original is not written |
| Mvq.Tree.Build | include/silva/index/mvq.hpp:425-444 | builds, from new objects only, the tree of a sorted run |
| Mvq.Tree.CreateInternal | include/silva/index/mvq.hpp:408-418 | an interior node over two sons, with their exact total |
| Mvq.Tree.DeleteMergeNodes | include/silva/index/mvq.hpp:398-406 | hangs two sons under a node that is in neither and sets its exact count |
| Mvq.Tree.InsertNode | include/silva/index/mvq.hpp:1355-1401 | inserting a sorted batch gives the tree built from the merged points, writing only the copy it was handed; untouched subtrees stay the same objects |
| Mvq.Tree.InsertInte | include/silva/index/mvq.hpp:1377-1399 | the interior case of the insertion |
| Mvq.Tree.DeleteNode | include/silva/index/mvq.hpp:1410-1479 | deleting a sorted batch gives the tree built from the remaining points, null once none is left; untouched subtrees stay the same objects |
| Mvq.Tree.DeleteInte | include/silva/index/mvq.hpp:1424-1479 | the interior case of the deletion, collapse included |
| Mvq.CollapseCases | include/silva/index/mvq.hpp:1446-1474 | which tree the two updated halves must collapse to, and that both are leaves when they fit one leaf |
| Mvq.Tree.Collapse | include/silva/index/mvq.hpp:1446-1478 | the collapse produces exactly that tree, dropping, promoting or merging nodes; the two casts to leaf are safe |
| Mvq.Tree.BatchInsert | include/silva/index/mvq.hpp:1403-1408 | inserting into a copied root leaves the old version intact and yields the version of the merged points |
| Mvq.Tree.BatchDelete | include/silva/index/mvq.hpp:1481-1487 | deleting from a copied root leaves the old version intact and yields the version of the remaining points |
| Mvq.Tree.Commit | include/silva/index/mvq.hpp:1002-1021 | the new version holds the old points less the deleted ones, one copy per match, plus the inserted ones, in the tree built from them; no field of any old node changes and every node is new or an old one; a subtree of both versions that no batch point falls into is the same object in both if and only if more than leaf_size points are left, after the deletion, in the cell of its father |
| Mvq.UntouchedSubtree | include/silva/index/mvq.hpp:1379-1399 | for one batch: a subtree both trees have and no batch point falls into is the same object in both |
| Mvq.ReachesByCount | include/silva/index/mvq.hpp:425-444 | a canonical version has an interior node above a path exactly when the points in the cell of that node are more than leaf_size |
| Mvq.SharingDecided | include/silva/index/mvq.hpp:1002-1021 | how the two batches of a commit decide sharing: the father survives the deletion and the subtree is kept, or it collapses and the subtree is rebuilt from new nodes |
| Regrowth.CollapseAndRegrow | include/silva/index/mvq.hpp:1461-1468 | three points at leaf_size 2, one deleted and another inserted in the left half: the right son, which neither batch touches, is a different object afterwards |
| Versions.RunIsReplay | include/silva/index/mvq.hpp:1002-1021 | after any sequence of commits the version holds exactly the replayed points and is the tree built from them |
| Versions.HistoryIndependent | include/silva/index/mvq.hpp:1002-1021 | two runs that should end with the same points end with the same tree |
| Versions.VersionHistory.constructor | benchmarks/runners/mvq_runner.hpp:23-34 | the history starts with the base version, which holds exactly the given points; null for none |
| Versions.VersionHistory.Commit | benchmarks/runners/mvq_runner.hpp:53-56 | over whole runs: the new version holds the last one's points less the deleted and plus the inserted ones; every version of the history stays intact, equal to what replaying its prefix of the changes gives; earlier nodes are never written; any two consecutive versions share exactly the subtrees Mvq.Tree.Commit names |
| RefCount.RefHeap.NewNode | include/silva/index/mvq.hpp:586-591 | a new node in an empty version root keeps the use counts exact |
| RefCount.RefHeap.Assign | include/silva/index/mvq.hpp:1451-1452 | overwriting a pointer: exactly the named root or son field changes, the other son and all other cells stay or are freed, use counts stay exact, and exactly what nothing uses any more is freed |
| RefCount.RefHeap.Release | include/silva/index/mvq.hpp:452-466 | a shared pointer going away: exact use counts are kept, cells are only freed, nothing ranked above the cell changes |
| RefCount.RefHeap.Reset | include/silva/index/mvq.hpp:452-466 | resetting a pointer variable alone clears exactly that root or son field and sweeps the heap down to what is still held |
| RefCount.RefHeap.GcNocheck | include/silva/index/mvq.hpp:452-466 | `gc_nocheck` on any pointer variable sweeps the heap to the same specification as Reset, though it clears son pointers on the way |
| RefCount.SweptUnique | include/silva/index/mvq.hpp:452-466 | only one heap meets that specification, so `gc_nocheck` leaves the same live heap and counts as dropping the root |
| RefCount.ReachedStays | include/silva/index/mvq.hpp:452-466 | a cell on any chain from a pointer still held survives unchanged |
| RefCount.SweptIsReached | include/silva/index/mvq.hpp:452-466 | afterwards the live cells are exactly those reached from what is still held: no leak |
| RefCount.RefHeap.DropVersion | include/silva/index/mvq.hpp:1004-1008 | dropping one version root: what the other roots reach is untouched, every other cell is free |
| Geometry.BoxRelationExact | include/silva/geo/operations.hpp:101-117 | the box relation is negative exactly when the boxes share no place and positive exactly when the smaller lies in the larger |
| Geometry.BoxesFollowCodes | include/silva/geo/operations.hpp:292-311 | the two recomputed boxes share out the current box exactly as the codes share out the cell |
| Geometry.PrefixOfHalf | include/silva/geo/operations.hpp:292-311 | the split bit sends a point to the half whose coordinate prefix it has, x at even heights and y at odd ones |
| Geometry.LocatedHalves | include/silva/geo/operations.hpp:292-311 | the recomputed boxes and prefixes contain every point of the two halves |
| Geometry.BoxSqrDisBound | include/silva/geo/operations.hpp:140-147 | the distance to a box never exceeds the distance to a point in it |
| Geometry.BoxSqrDisAttained | include/silva/geo/operations.hpp:140-147 | and some place in the box is exactly that far |
| Geometry.BoxesWithinDisExact | include/silva/geo/operations.hpp:133-138 | boxes pass the test exactly when they hold places no farther apart than the distance along either axis |
| Geometry.PrunedPairs | include/silva/geo/operations.hpp:133-138 | boxes that are pruned hold no pair within the distance |
| Ranges.RangeCountNode | include/silva/index/mvq.hpp:804-837 | counts exactly the points in the query box, although contained and disjoint boxes are not visited |
| Ranges.RangeReportNode | include/silva/index/mvq.hpp:852-877 | appends exactly the points in the query box, in Morton order, behind what was already reported |
| Ranges.RangeCount | include/silva/index/mvq.hpp:845-849 | the number of points between the corners of the query box, both included; a null version counts 0 where its boxes are apart, the only case in which the code does not dereference it |
| Ranges.RangeReport | include/silva/index/mvq.hpp:885-888 | behind what the buffer held: each point between the corners of the query box as often as the version holds it, by code and within a code by id; the rest of the buffer is not written |
| Diffs.LeafInteDiff | include/silva/index/mvq.hpp:1044-1067 | a run against a subtree of another shape: the two exact differences |
| Diffs.Diff | include/silva/index/mvq.hpp:1115-1168 | whatever the two shapes and whatever they share, the two exact sorted differences |
| Diffs.TwoVersionDiff | include/silva/index/mvq.hpp:1219-1224 | for two versions: the multiset differences of their points in both directions, each by code and within a code by id |
| Diffs.DiffExact | include/silva/index/mvq.hpp:1115-1168 | the two sides are the multiset differences in both directions, sorted and disjoint |
| Diffs.DiffThenCommit | include/silva/index/mvq.hpp:1002-1021 | committing the difference of two versions onto the first gives the second one's tree |
| Diffs.CommitThenDiff | include/silva/index/mvq.hpp:1219-1224 | conversely the difference from a version to its commit holds no more than the two batches |
| Diffs.SpatialLeafInteDiff | include/silva/index/mvq.hpp:1070-1113 | the leaf-against-interior case inside a query box, in both orientations of the result |
| Diffs.SpatialDiff | include/silva/index/mvq.hpp:1170-1217 | the difference inside a query box is the full difference filtered by the box, for every combination of null, leaf and interior |
| Diffs.SpatialTwoVersionDiff | include/silva/index/mvq.hpp:1227-1229 | for two versions, behind what the buffers held: each point between the corners of the query box goes to `add` as often as the second version has it more, to `remove` as often as the first one has, by code and within a code by id |
| Nearest.KnnNode | include/silva/index/mvq.hpp:947-996 | branch and bound from any queue that is an answer so far: afterwards it is an answer with the subtree included |
| Nearest.KnnReport | include/silva/index/mvq.hpp:940-945 | min(k, n) points of the version are kept with their squared distances in coordinates; a point left out is farther than every point kept, or as far with no larger id |
| Nearest.WorstFirst | include/silva/geo/operations.hpp:168-176 | the queue is ordered by distance, the farthest on top, and of equally far points the smallest id |
| Nearest.OfferBetter | include/silva/index/mvq.hpp:953-966 | replacing the top of a full queue by a better candidate keeps the answer right |
| Nearest.SkipFar | include/silva/index/mvq.hpp:972-995 | a subtree farther than the top of a full queue cannot contribute |
| Nearest.AnswersAgree | include/silva/geo/operations.hpp:168-175 | any two answers differ only in candidates that tie |
| Joins.SpatialJoin | include/silva/index/mvq.hpp:1254-1324 | whatever the distance, appends only hits of a nested loop over both subtrees, each at most as often; for distances that are not negative exactly those, despite pruning and unequal depths |
| Joins.TwoVersionSpatialJoin | include/silva/index/mvq.hpp:1326-1332 | for two versions, in coordinates: a pair of different ids within the distance is reported once for every way of picking its two points, no other pair ever; for negative distances at most that |
| Joins.HitCount | include/silva/index/mvq.hpp:1263-1274 | what the nested loop finds, in coordinates: each pair of different ids whose squared distance is at most the squared bound, with the product of the multiplicities |
| Joins.PruningNeedsDistance | include/silva/geo/operations.hpp:133-138 | pruning by boxes loses no hit of any two boxes if and only if the distance is not negative |
| Joins.MissedHit | include/silva/index/mvq.hpp:1326-1332 | for every negative distance, a join of two one-point versions that reports nothing although the nested loop finds the pair |
| Merges.FilterDiffResults | include/silva/geo/operations.hpp:6-37 | on any two runs, the classification by the two sorted runs; where ids are unique, an id on both sides of a difference is an update, on one side an insertion or a deletion |
| Merges.MergeByIdWithConflict | include/silva/geo/operations.hpp:653-694 | on any two runs, the combination of the two sorted runs; where ids are unique, points that only one run holds or both agree on are kept once and disagreeing points go to the conflicts |
| Merges.CombineSymmetric | include/silva/geo/operations.hpp:653-694 | naming the runs the other way round changes neither |
| Merges.Merge3 | include/silva/index/mvq.hpp:1232-1251 | for any three versions, the merged tree and the three conflict lists, from the two differences against the base |
| Merges.DeltaMeaning | include/silva/index/mvq.hpp:1233-1237 | what a branch inserted, deleted and updated, in terms of the versions themselves |
| Merges.HalfDeleteMeaning | include/silva/index/mvq.hpp:1242-1243 | a deletion takes effect unless the other branch moved the point |
| Merges.MergedInsertMeaning | include/silva/index/mvq.hpp:1239-1239 | a new point arrives unless the branches disagree about its id; disagreements are exactly the reported conflicts |
| Merges.MergeExact | include/silva/index/mvq.hpp:1232-1251 | exactly which points a merge holds, in ids and membership, for any two branches with unique ids: base points no branch deletes without the other moving them, and new points unless disputed; updates are not applied |
| Merges.InsertConflicts | include/silva/index/mvq.hpp:1239-1239 | the insertion conflicts are exactly the points with one new id at two places |
| Merges.UpdateConflicts | include/silva/index/mvq.hpp:1240-1240 | the update conflicts are exactly the points with one base id moved to two places |
| Merges.DeleteConflicts | include/silva/index/mvq.hpp:1242-1243 | the deletion conflicts are exactly a base point one branch deletes together with the place the other moves it to |
| Merges.ConflictPairs | include/silva/geo/operations.hpp:653-694 | conflicts come in pairs of one id, the first branch's point first, by increasing id |
| Merges.MergeSymmetric | include/silva/index/mvq.hpp:1232-1251 | swapping the branches gives the same tree |
| Merges.MergeKeepsUniqueIds | include/silva/index/mvq.hpp:1232-1251 | the merged version has unique ids, so merges can be iterated |
| Merges.DisagreementIsReported | include/silva/index/mvq.hpp:1239-1239 | two branches that put a new id at two places: both points are reported and neither is in the result |
| Transposes.BitTranspose | src/hilbert.c:103-121 | what the transpose means: bit b of field d becomes bit d of field b |
| Transposes.TransposeInvolution | src/hilbert.c:50-122 | transposing by (nDims, nBits) and then by (nBits, nDims) is the identity |
| Transposes.BitTransposePlain | src/hilbert.c:103-121 | the bit-by-bit form computes the transpose |
| LogTranspose.BitTransposeLog | src/hilbert.c:52-102 | the halving form computes the same transpose for all dimensions and widths, odd ones included |
| LogTranspose.HalveOdd | src/hilbert.c:71-85 | one halving round of odd width, the top bits going straight to the result |
| LogTranspose.HalveEven | src/hilbert.c:86-94 | one halving round of even width |
| LogTranspose.NewMask | src/hilbert.c:65-68 | the next mask, a difference of shifted field ends, covers exactly the lower halves |
| Rotations.RotateBack | src/hilbert.c:44-48 | rotating left and rotating right undo each other |
| Rotations.AdjustRotation | src/hilbert.c:30-38 | the masking and shifting loop computes (rotation + 1 + ffs(bits)) mod nDims, as its comment says |
| Rotations.FfsIsLowest | src/hilbert.c:32-35 | ffs names the lowest set bit |
| Grays.FoldShifts | src/hilbert.c:166-167 | the loop of doubling shifts inverts one shifted xor |
| Grays.GrayOfUngray | src/hilbert.c:235-236 | a shifted xor of its inverse is the word |
| Grays.GrayInjective | src/hilbert.c:156-156 | a shifted xor loses nothing |
| Hilbert.BitNthBits | src/hilbert.c:155-155 | the quotient of two words of ones has a one in every nDims-th place |
| Hilbert.Lockstep | src/hilbert.c:158-165 | fed the turned digits, the inverse transducer goes through the same rotations and flips |
| Hilbert.TurnedThere | src/hilbert.c:221-231 | the two digit transducers undo each other |
| Hilbert.TurnToCoords | src/hilbert.c:157-165 | the digit loop of `hilbert_i2c` is the transducer |
| Hilbert.TurnToIndex | src/hilbert.c:221-230 | the digit loop of `hilbert_c2i` is the inverse transducer |
| Hilbert.HilbertI2C | src/hilbert.c:138-181 | `hilbert_i2c` stores the point of the index in the first nDims coordinates and nothing elsewhere |
| Hilbert.HilbertC2I | src/hilbert.c:197-241 | `hilbert_c2i` returns the index of the point |
| Hilbert.RoundTrip | src/hilbert.c:1201-1203 | `hilbert_c2i` after `hilbert_i2c` is the identity, for every nDims and nBits that fit a word |
| Hilbert.RoundTripBack | src/hilbert.c:1201-1203 | `hilbert_i2c` after `hilbert_c2i` is the identity |
| HilbertCurve.PointIsWalk | src/hilbert.c:138-181 | the codec's point is where a walk down nested cells ends, each cell halved along every axis and each level reflecting and rotating the axes |
| HilbertCurve.NextCell | src/hilbert.c:157-165 | where the walk leaves one subcell and enters the next, the two corners meet: it crosses along one axis and stays along the others |
| HilbertCurve.Continuous | src/hilbert.c:1185-1199 | in any number of dimensions, however the curve lies in a cell, consecutive places of the walk differ by one along one axis and agree along all others |
| HilbertCurve.Adjacent | src/hilbert.c:1185-1199 | for every nDims and nBits that fit a word, the points of i and i + 1 differ by exactly 1 in exactly one coordinate |
| HilbertCurve.Endpoints | src/hilbert.c:138-181 | for every nDims and nBits that fit a word, the curve starts at the origin and ends at the far end of the last axis |
| HilbertCurve.TopHalves | src/hilbert.c:138-181 | the top bits of the coordinates are the Gray code of the top digit of the index, the first coordinate lowest |
| HilbertOrder.FirstLevelDecides | src/hilbert.c:545-556 | the first differing level decides the order of the indices, upright or reversed by the parity kept on the way |
| HilbertOrder.IndexFromLevels | src/hilbert.c:197-241 | where the codec applies, the index is the place along the curve given by the levels of coordinate bits, the cases of one dimension and of one bit included |
| HilbertOrder.HilbertCmp | src/hilbert.c:528-574 | `hilbert_cmp` returns -1, 0 or 1 as the two points follow each other along the curve, without computing a place and for any number of bits; 0 exactly for equal points; where nDims * nBits fits a word, as the two indices compare |
| HilbertScale.CellOnCurve | src/hilbert.c:540-562 | the curve refines itself: the place of the coarser cell a point lies in is the place of the point less its low digits, at any size |
| HilbertScale.CellIndex | src/hilbert.c:197-241 | so the place of a point too fine for a word starts with the index `hilbert_c2i` gives its coarser cell |
| Logs.ExactIffNeverRevives | include/silva/baselines/rlog_tree.hpp:78-106 | all versions of a line show what replay gives if and only if no version inserts an id removed since the base it logs against |
| Logs.StepExact | include/silva/baselines/rlog_tree.hpp:135-148 | one version at a time: the view is exact if and only if the inserted ids avoid the removed ids of the parent's view |
| Logs.ExactWithoutReinsertion | include/silva/baselines/rlog_tree.hpp:78-106 | histories that never re-insert a removed id are shown exactly, wherever bases were cached |
| Logs.RatiosDoNotMatter | include/silva/baselines/rlog_tree.hpp:115-133 | so two runs of one history show the same, whatever ratios decided their compactions |
| Logs.ReinsertionIsLost | include/silva/baselines/rlog_tree.hpp:86-105 | if the deletion of a point is still in the log when the point is inserted again, the view does not show it |
| Logs.LossIsPermanent | include/silva/baselines/rlog_tree.hpp:115-133 | a point a version does not show comes back in no later version, whatever is compacted, unless it is inserted again |
| Logs.ReplayIsPermanent | include/silva/baselines/rlog_tree.hpp:78-106 | replay meanwhile keeps the point, unless its id is removed |
| Rlog.GetQueryView | include/silva/baselines/rlog_tree.hpp:78-106 | the walk finds the nearest cached base; the two passes return exactly the ids removed in between and the later inserts that survive them, oldest version first |
| Logs.VisiblePoints | include/silva/baselines/rlog_tree.hpp:78-106 | a version shows the points of the nearest base and of the versions since whose ids no version since removed |
| Rlog.CheckCompact | include/silva/baselines/rlog_tree.hpp:115-133 | a base is cached if and only if the log size is at least p times the base size; it is what the version showed, and the log size starts again at 0 over its size |
| Rlog.SettledShowsTheSame | include/silva/baselines/rlog_tree.hpp:115-133 | compaction changes neither the view nor the replay |
| Rlog.MapInit | include/silva/baselines/rlog_tree.hpp:108-113 | a root with its points as base, no log and that base size |
| Rlog.MapInsert | include/silva/baselines/rlog_tree.hpp:135-148 | a new version below its parent with its deltas; it is compacted if and only if the parent's log size plus the batch is at least p times the parent's base size, and otherwise carries exactly these two sizes |
| Rlog.MapDelete | include/silva/baselines/rlog_tree.hpp:150-163 | the same for a deletion |
| Rlog.PutBackRun | include/silva/baselines/rlog_tree.hpp:108-163 | `map_init`, `map_delete` and `map_insert` of one point at one ratio: the view shows the point if and only if the ratio is at most 1, although replay always has it |
| RlogDiff.CommonAncestor | include/silva/baselines/rlog_tree.hpp:246-253 | the depth-equalising climb finds the lowest common ancestor, or null if there is none |
| RlogDiff.TraceBranch | include/silva/baselines/rlog_tree.hpp:258-272 | the trace from a version to the ancestor computes the signed states and remembers the points |
| LogDiffs.TracedIsNet | include/silva/baselines/rlog_tree.hpp:258-272 | under proper histories the traced state of an id is its net change over the branch |
| LogDiffs.LastIsNoted | include/silva/baselines/rlog_tree.hpp:258-272 | of several points traced under one id the last one is remembered |
| LogDiffs.OthersStay | include/silva/baselines/rlog_tree.hpp:258-272 | a point remembered under an id stays remembered while no point of that id is traced |
| LogDiffs.SignsAreExact | include/silva/baselines/rlog_tree.hpp:279-292 | the difference of two traced states names exactly the points one version holds and the other does not |
| LogDiffs.ProperIsExact | include/silva/baselines/rlog_tree.hpp:78-106 | histories that remove live points and insert fresh ids are shown exactly |
| RlogDiff.MapSpatialDiff | include/silva/baselines/rlog_tree.hpp:240-293 | for any two versions: the remembered points in the box whose traced state up to the lowest common ancestor rose go to `add`, those whose state fell to `remove`, each once; for versions of one tree with proper histories and no id used for two points these are exactly the in-box points the second shows and the first does not, and conversely; from null, the changes since the base of the version's own root; to null, nothing |

## Left out

- Floating point: fractional and negative coordinates, epsilon comparisons and the boxes they give; coordinates and distances are integers.
- The Morton code is a function of the coordinates, not a stored field that could be stale, and ids are natural numbers of any size.
- Parallel scheduling, granularity cutoffs, memory counters and timers: both branches run one after the other.
- Sorting and merging from the standard library and ParlayLib, the priority queue and the R-tree are taken by what they promise; the R-tree is the list of its values in build order, since Boost's iteration order is not specified.
- Mvq.Tree.Collapse: the writes at mvq.hpp:1475-1477 to a node that was just replaced go to a dead object here; whether its memory is still alive is not modelled, nor are the leaf-creating statements whose result is overwritten.
- Mvq.Tree.Commit: releasing the intermediate version is proved in the separate reference-count model and is not a step of this method.
- RefCount.RefHeap.GcNocheck: the cells hold only son pointers; records and counts of points do not matter to it.
- Null and one empty leaf are both the empty version, at the root only; `Diffs.DiffThenCommit` therefore does not promise null back.
- Ranges.RangeCount: a null version is excluded unless the world box and the query box are apart, because the code dereferences it otherwise.
- Merges.FilterDiffResults: equal ids keep the order of the run they came in; the code sorts by id with a parallel sort, so points of one id may come in any order.
- Merges.Merge3: updates are classified and their conflicts reported, but not applied, as in the source, which returns conflicts only; the resulting base points that stay are stated in `Merges.MergeExact`.
- Hilbert.HilbertI2C: half words are taken to be 64 bits wide, as `unsigned long` is on the platforms the build targets.
- HilbertOrder.HilbertCmp: bits are read from coordinate values, not from bytes of either endianness. With 64 dimensions the rotation shifts by 64, which C leaves undefined; here it gives 0.
- The Hilbert functions on boxes, on the next index in a box, on increments and on IEEE doubles.
- Rlog.MapInsert: a null parent is excluded, because compaction is then always triggered and dereferences a base that was never cached; a ratio that is not a number is excluded with floating point.
- RlogDiff.MapSpatialDiff: for versions of different trees, and for histories that are not proper, the result is stated by the traces and not by what the versions show; the base points of another tree are never visited.
- Range and nearest-neighbour queries on the version log: they apply the view proved here to the R-tree and add only filtering.
- In-place insertion and deletion, `garbage_collect`, `collect_records` into buffers, the tree hashes, statistics and printing: diagnostics, unused, or outside the canonical form.
- The other indexes (PaC-trees, the kd-tree log, the Boost R-tree wrapper), loaders, benchmarks, plotting and the command line.
