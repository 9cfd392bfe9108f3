# Exact k-truss maintenance: a verified model

The repository keeps the trussness of every edge of a changing graph: `tau[e]` is the largest
k such that e belongs to a k-truss, a set of edges each of which lies in at least k-2 triangles
inside the set. It has two maintainers (one operation at a time, and whole batches on a worker
pool), a static bucket peel that both start from and are compared with, and, among its
baselines, an asynchronous h-index algorithm for the same values.

This project models these programs in Dafny and proves that they compute that specification,
for every graph and every sequence of updates.

## How the project is laid out

| file | what it holds |
|---|---|
| Truss.dfy, FiniteSets.dfy | triangle systems, trussness as a definition over all edge sets, the local operator F, locality, one-edge sensitivity |
| SimpleGraph.dfy | simple graphs with edge ids, their triangles, edge keys, independence of trussness from ids |
| Stamps.dfy, HashTable.dfy, DynamicGraph.dfy | the dynamic graph: epoch marks, the open-addressing table, adjacency with back-pointers, the id free list |
| Peeling.dfy, StaticDecomposition.dfy | 16-bit values, the peeling invariant and the static bucket peel |
| LocalEvaluation.dfy, Worklist.dfy, Regions.dfy | F(e) as the program evaluates it, worklists, regions and closures |
| Demotion.dfy, RegionGrowth.dfy, CalmOps.dfy, Shelter.dfy, PerEdge.dfy | the per-edge maintainer: the demotion worklist, the region of an insertion, when the limited evaluation does no harm, and the object |
| TriangleClosure.dfy, RegionalPeel.dfy, TriangleCharging.dfy, InsertionCounts.dfy, EdgeOps.dfy, Batch.dfy | the batch maintainer |
| Cliques.dfy | complete graphs, on which the 16-bit values and the limited evaluation fail |
| Agreement.dfy | merged batches, unmerged batches, single operations and recomputation against each other |
| WorkerPool.dfy | the worker pool as a state machine over interleaved steps |
| Galloping.dfy, AsyncHIndex.dfy | the galloping intersection and the asynchronous h-index truss |
| Interleaving.dfy | the asynchronous h-index truss with its visits interleaved access by access |
| Books.dfy | book graphs, on which the intersection buffers are too short |

The reading order of the argument is: `Truss.Trussness` is the definition. `PeelInv` (with `PopIsExact`,
`LevelUp`, `PeelOne`) is the one peeling argument, used by the static peel with an empty boundary and by the
region peel with a frozen one. `StableBelow` and `FAboveTruss` are the one fixpoint argument, used by the
demotion worklist and by the asynchronous loop. A maintainer's `Valid()` says that the graph representation is
consistent, no scratch mark is left, and `tau` and `sup` of every live edge are its trussness and its triangle
count; every operation of the batch maintainer keeps it. The per-edge maintainer always keeps all of it but
the exactness of `tau` (`Sound`); exactly when it keeps that, too, is stated for each operation. `tau` is 16
bits wide: the static peel and the batch maintainer hold the trussness modulo 2^16 (`Word`) of every edge of
every graph, which is the trussness exactly when every trussness is below 2^16.

Parallel loops of the batch maintainer and of the static support count are modelled as loops that
take the remaining jobs in an arbitrary order (`:|` from the set of jobs still to do), so what is
proved holds for any order of whole jobs; that the pool runs each job exactly once is proved
separately for every interleaving of its steps.

## Results that differ from a first reading of the program

- A merged batch is not sequential processing. Presence is judged before the batch, so an edge
  that is absent, inserted and then deleted stays in. `EdgeOps.MergedIsSequentialIff` gives the exact
  condition under which the two agree, `EdgeOps.ConflictExample` the smallest case where they do not.
- 16-bit values. For the static peel, the region peel and the batch maintainer nothing is assumed about
  triangle counts. `Peeling.StoredExactIff` and `Batch.BatchMaintainer.ExactIffFits` say when the stored
  values are the trussness; the complete graph with 65536 vertices stores 0 for every edge
  (`Cliques.WordsFail`). No edge in more than 65533 triangles is a sufficient bound (`Peeling.FewTrianglesFit`).
- The local evaluation stops at 65000. `LocalEvaluation.EvalExactWhen` shows that it equals F for every 16-bit
  value array exactly for edges with at most 64998 triangles; a cut-off evaluation is still at or above the
  trussness of an edge if that is at most 65000. So it matters only which edges get evaluated. An insertion
  ends with exact values if and only if no edge with a trussness above 65000 lies in the triangle closure of
  the new edge or shares an end with an edge of the closure whose raised value has to fall again
  (`InsertCalm`); a removal, if and only if none is a triangle partner of the removed edge or shares an end
  with an edge that loses trussness (`RemoveCalm`). Edges elsewhere may have any 16-bit trussness, and ids
  play no part (`CalmOps.CalmByKeys`). Both hold around a sheltered edge: one in a triangle-closed set of
  edges such that everything that shares an end with the set has a trussness of at most 65000
  (`Shelter.ShelteredStep`). `Cliques.EvaluationFails` gives a graph beyond the limit,
  `Cliques.InsertionFails` an insertion that goes wrong.
- The galloping search doubles its jump in 32 bits. `Galloping.GallopingIff` says for which ranges it is
  right whatever they hold; `Galloping.WrapExample` is a range of 99 elements at the end of the offsets on
  which it reads element 28.
- README.md:15-16 of the repository describes the batch maintainer as a two-phase frontier fixpoint. The
  code closes the seeds under triangle adjacency and peels that region; the code is what is modelled.
- The closed region has no boundary, so the boundary events of the region peel never occur in a run. The
  peel is nevertheless proved right for arbitrary regions with a correct boundary.
- While a batch is being inserted, counts are too high for edges on triangles with several new edges.
  `InsertionCounts.OverCount` says by how much and for which edges; the peel of the region sets them right.
- The asynchronous algorithm stores trussness less two. Its intersection writes into buffers of 2^21 elements
  without a check: `AsyncHIndex.BuffersIff` says that all writes are inside them exactly when no edge lies in more
  triangles, and `Books.BuffersOverflow` gives a graph where one is not.
- The visits of the asynchronous algorithm race with each other. `Interleaving.EveryInterleaving` says that no
  interleaving of their accesses loses a notice, that the computation ends, and that it ends with exact values.

## Model

| member | source | states |
|---|---|---|
| Truss.Trussness | src/main.cpp:53-68 | the value every maintained `tau` is compared with: the largest k for which some edge set contains e and gives each of its edges k-2 triangles inside the set |
| Truss.CoreSupports | src/truss_static.h:86-110 | the edges of trussness at least k form a k-truss together |
| Truss.GreatestFixpoint | src/fixpoint.h:4-25 | trussness is a fixpoint of F, and any values that F supports everywhere are at most the trussness |
| Truss.FMonotone | src/fixpoint.h:4-25 | F(e) never falls when the values of e's triangle partners rise |
| Truss.StableBelow | src/incremental.h:61-86 | values each of which F supports cannot exceed the trussness, so a drained worklist leaves nothing too high |
| Truss.FAboveTruss | src/incremental.h:61-86 | re-evaluating an edge while all values are at or above the trussness never goes below it |
| Truss.Locality | src/batch.h:201-238 | trussness inside a triangle-closed set depends only on the triangles inside that set |
| Truss.RestrictToClosed | src/batch.h:240-352 | peeling a triangle-closed region on its own gives the trussness of the whole graph |
| Truss.OneEdgeSensitivity | src/incremental.h:98-153 | one edge more or less changes the trussness of every other edge by at most one |
| SimpleGraph.ThirdVertex | src/graph.h:173-184 | every triangle on an edge comes from a common neighbour of its ends, with the two edges to it |
| SimpleGraph.DeleteEdges | src/batch.h:416-422 | deleting edges destroys exactly the triangles that use one of them |
| SimpleGraph.KeyInjective | src/graph.h:26-28 | two endpoint pairs have the same key exactly when they are the same unordered pair |
| SimpleGraph.KeyRoundTrip | src/batch.h:371-375 | the key does not depend on the order of the ends, and splitting it into two halves gives the ends back in order |
| SimpleGraph.Renaming | src/main.cpp:53-68 | renaming edge ids changes no trussness |
| SimpleGraph.TrussByKeys | src/main.cpp:53-68 | the trussness of an edge is determined by the set of edge keys alone, so graphs with different id histories can be compared |
| SimpleGraph.DegreeByKeys | src/truss_static.h:10-24 | so is its triangle count |
| Stamps.StampSet.constructor | src/common.h:35-39 | a new stamp set has no marks |
| Stamps.StampSet.NextEpoch | src/common.h:40-46 | forgets all marks, also when the 32-bit epoch counter wraps around to zero |
| Stamps.StampSet.Mark | src/common.h:47-50 | adds one vertex with its edge id to the marks of this epoch and changes no other mark |
| Stamps.StampSet.Test | src/common.h:51-51 | true exactly for the vertices marked since the last new epoch |
| Stamps.StampSet.MarkedEid | src/common.h:52-52 | the edge id recorded with the mark |
| HashTable.EmptySlot | src/graph.h:79-95 | a table with more slots than used ones has an empty slot, where every probe must stop |
| HashTable.MissMeansAbsent | src/graph.h:86-95 | a probe that reaches an empty slot proves the key absent: tombstones never hide a live key |
| HashTable.InsertSlot | src/graph.h:72-77 | writing an absent key into the first free slot, tombstone or empty, of its probe path adds it to the map and keeps every probe path gap-free |
| HashTable.DeleteSlot | src/graph.h:97-109 | a tombstone removes one key from the map and leaves all probe paths intact |
| HashTable.FreeSlot | src/graph.h:72-77 | the insertion probe terminates at a slot that is not live, with no empty slot before it on the path |
| HashTable.KeySlot | src/graph.h:86-95 | the lookup probe terminates at the key's slot if it is in the map, else at an empty slot |
| HashTable.LiveEntries | src/graph.h:55-63 | the entries saved for a rehash are the map: each key once, with its value |
| DynamicGraph.DynGraph.constructor | src/graph.h:31-53 | the graph without edges satisfies the representation invariant |
| DynamicGraph.DynGraph.InitHash | src/graph.h:45-53 | an empty map in a power-of-two table of at least twice the capacity |
| DynamicGraph.DynGraph.RawInsert | src/graph.h:72-77 | the map gains the absent key, and at most one more slot is in use |
| DynamicGraph.DynGraph.Rehash | src/graph.h:55-70 | moving to a fresh table keeps the map and drops the tombstones from the count |
| DynamicGraph.DynGraph.HashInsert | src/graph.h:79-84 | the map gains the absent key and at least half of the slots stay empty |
| DynamicGraph.DynGraph.Find | src/graph.h:86-95 | the id stored under the key, or -1; also before the table is set up |
| DynamicGraph.DynGraph.HashDelete | src/graph.h:97-109 | the map loses the key if it had it |
| DynamicGraph.DynGraph.Has | src/graph.h:111-111 | true exactly when a live edge joins the two vertices |
| DynamicGraph.DynGraph.ReserveEdges | src/graph.h:36-43 | more ids without more edges: the graph is the same and the new ids are dead |
| DynamicGraph.DynGraph.AddEdge | src/graph.h:114-139 | the graph gains exactly the edge ab under an id that was not in use; lists, slots, free list, edge count and table stay consistent with it, and no id is lost |
| DynamicGraph.DynGraph.RemoveEdge | src/graph.h:141-169 | the graph loses exactly this edge, whose id goes to the free list; the swapped entries' slots are re-pointed and everything stays consistent |
| DynamicGraph.RemoveHalf | src/graph.h:144-163 | moving the last entry into the hole and re-pointing its slot keeps all entries and all slots but those of the removed half right |
| DynamicGraph.AppendHalves | src/graph.h:132-135 | appending both halves of a new edge keeps every entry at the place its slot names |
| DynamicGraph.DynGraph.CommonNeighbours | src/graph.h:173-184 | lists the common neighbours of two vertices, each once, with the ids of the two edges to it, whatever marks were left before |
| DynamicGraph.CommonAreTriangles | src/graph.h:173-184 | for the ends of an edge, that is a list of its triangles, each once |
| DynamicGraph.DynGraph.EdgeTriangles | src/graph.h:173-184 | lists every triangle on an edge exactly once with the right partner ids |
| StaticDecomposition.CountVertex | src/truss_static.h:33-53 | gives every edge whose smaller end is u its triangle count and touches no other edge's count |
| StaticDecomposition.ComputeSupports | src/truss_static.h:26-57 | the triangle counts of all live edges, for any order in which the vertices are handled; dead ids stay at zero |
| Peeling.PopIsExact | src/truss_static.h:88-92 | an unpeeled edge whose counter has come down to the level s has trussness exactly s+2 |
| Peeling.LevelUp | src/truss_static.h:86-88 | when no counter is at the level any more, all remaining edges have trussness at least s+3 |
| Peeling.PeelOne | src/truss_static.h:91-108 | removing an edge of the level, with its triangles taken off the counters, keeps the peeling invariant |
| Peeling.StoredExactIff | src/truss_static.h:91-91 | the 16-bit values are the trussness exactly when every trussness is below 2^16 |
| Peeling.FewTrianglesFit | src/truss_static.h:77-80 | which holds when no edge lies in more than 65533 triangles |
| Cliques.CliqueTruss | src/truss_static.h:59-112 | every edge of the complete graph on n vertices has trussness n |
| Cliques.WordsFail | src/truss_static.h:91-91 | on the complete graph with 65536 vertices every stored value is 0 and no trussness fits |
| Peeling.LowerCounts | src/truss_static.h:100-107 | clamped decrements keep every counter above the level exact and every counter at the level an upper bound |
| Peeling.RequeueOk | src/truss_static.h:100-107 | after a decrement the edge waits in the bucket of its new counter, while its stale entries remain |
| Peeling.ScanPast | src/truss_static.h:88-90 | a stale entry or one of a dead edge can be skipped without losing an edge |
| StaticDecomposition.DropTriangles | src/truss_static.h:93-108 | takes exactly the live triangles of the peeled edge off the counters of their two other edges |
| StaticDecomposition.InitialBuckets | src/truss_static.h:77-82 | every live edge waits in the bucket of its triangle count, and there is one bucket per count up to the largest |
| StaticDecomposition.ScanBucket | src/truss_static.h:86-110 | one level of the peel: from the invariant at level s to the invariant at level s+1 |
| StaticDecomposition.StaticTruss | src/truss_static.h:59-112 | for every graph, the static decomposition gives every live edge its trussness modulo 2^16 and its triangle count |
| Agreement.VerifyNow | src/main.cpp:53-68 | the program's own comparison with a recomputation accepts exactly the values that are the trussness modulo 2^16, and so exactly the trussness when that fits |
| LocalEvaluation.SortKeepsCounts | src/fixpoint.h:16-16 | sorting downwards keeps, for every threshold, how many values reach it |
| LocalEvaluation.CountWitnesses | src/fixpoint.h:9-14 | the collected minima that reach k are as many as the triangles that witness k |
| LocalEvaluation.FFromSorted | src/fixpoint.h:17-23 | F(e) is at least k exactly when the value in position k-3 of the sorted minima reaches k |
| LocalEvaluation.EvalTrussness | src/fixpoint.h:4-25 | the re-evaluation returns the smaller of F(e) and 65000, and so F(e) for every edge in at most 64998 triangles |
| LocalEvaluation.EvalExactWhen | src/fixpoint.h:18-23 | it equals F(e) for every 16-bit value array if and only if e has at most 64998 triangles |
| LocalEvaluation.ExactSurvivesIff | src/fixpoint.h:18-23 | evaluating exact values returns them for every edge if and only if no trussness exceeds 65000 |
| LocalEvaluation.FewTrianglesEvaluate | src/fixpoint.h:18-23 | which holds when no edge lies in more than 64998 triangles |
| Cliques.EvaluationFails | src/fixpoint.h:18-23 | the complete graph with 65001 vertices has values that fit 16 bits but exceed the evaluation |
| Cliques.InsertionFails | src/incremental.h:88-179 | inserting the last edge of the complete graph with 65001 vertices is not calm, so the values are not exact afterwards |
| Demotion.EvaluatedAbove | src/incremental.h:69-69 | an evaluation cut off at a limit is at or above every trussness within the limit |
| Demotion.DemoteStep | src/incremental.h:76-81 | lowering an edge to any value not below its trussness keeps all values at or above the trussness and can unsettle only edges that share a triangle with it |
| Demotion.DemotionProgress | src/incremental.h:64-82 | with evaluations cut off at any limit that no trussness exceeds, every worklist step keeps the demotion invariant and lowers the pair (sum of all values, number of queued edges) |
| Demotion.AnyQueueOrder | src/incremental.h:61-86 | whichever queued edge is taken each time, an empty queue means exact values, for any such limit |
| Demotion.DemotionConfluent | src/incremental.h:61-86 | any two demotion runs that drain their queues end with the same values |
| Demotion.DemotingDone | src/incremental.h:61-86 | once the queue is empty the values are the trussness if and only if the start was calm: no edge queued at the start, and none that shares an end with an edge whose value has to fall, has a trussness above 65000 |
| PerEdge.PerEdgeMaintainer.constructor | src/incremental.h:32-40 | for every graph whose trussness fits 16 bits, the maintainer starts with exact values and counts |
| PerEdge.PerEdgeMaintainer.Fixpoint | src/incremental.h:61-86 | from values that are at or above the trussness and stable wherever not queued (provided nothing queued exceeds trussness 65000), the worklist terminates with an empty queue, raises no value, and ends with exact values if and only if the start was calm |
| RegionGrowth.NewEdgeBound | src/incremental.h:96-106 | the trussness of the new edge is at most one more than the best of its witnesses |
| RegionGrowth.RaiseStep | src/incremental.h:151-158 | min(sup+2, tau+1) is never below the old value; the 16 bits of it that are stored keep the region valid: every raised value is at or above the new trussness unless that is beyond 65000 |
| RegionGrowth.SeedValues | src/incremental.h:96-139 | the new edge gets min(W+2, k0+1), or 2 without triangles, its partners get min(sup+2, tau+1), each as far as 16 bits hold it, and make up the start of the region, and all counts are right for the enlarged graph, whatever its trussness |
| PerEdge.PerEdgeMaintainer.CloseRegion | src/incremental.h:140-166 | the region becomes the least triangle-closed set around the new edge, every old edge in it has the value min(sup+2, tau+1) in 16 bits, and the value of the new edge is left alone |
| RegionGrowth.ReadyToDemote | src/incremental.h:169-174 | after the growth, if no trussness in the region exceeds 65000, all values are at or above the new trussness and unqueued edges are stable, so demotion may start |
| RegionGrowth.InsertCalmIff | src/incremental.h:88-174 | the grown region is a calm start for demotion if and only if the insertion is calm, a condition on the graph alone: no edge of the triangle closure of the new edge, and no edge that shares an end with an edge of the closure whose raised value has to fall, has a trussness above 65000 |
| PerEdge.PerEdgeMaintainer.Insert | src/incremental.h:88-179 | insertion adds exactly the requested edge or reports that it is present or a loop, and all counts are right; all values are exact again if and only if the operation is calm, and then every old value rose by at most one |
| PerEdge.LoseTriangles | src/incremental.h:190-201 | the survivors' counts drop by their destroyed triangles, and every edge of those triangles is queued once |
| PerEdge.PerEdgeMaintainer.Remove | src/incremental.h:181-207 | removal deletes exactly the requested edge or reports it missing, and all counts are right; all values are exact again if and only if the operation is calm, and then every value of a survivor fell by at most one |
| CalmOps.RemoveCalmIff | src/incremental.h:181-207 | what a removal queues is a calm start for demotion if and only if no triangle partner of the removed edge, and no edge that shares an end with an edge that loses trussness, has a trussness above 65000 in the remaining graph |
| CalmOps.CalmByKeys | src/debug_bisect.cpp:66-91 | whether an insertion or a removal is calm depends on the edge keys alone, not on ids |
| Shelter.ShelteredInsert | src/incremental.h:88-179 | an insertion is calm if the new edge lies in a triangle-closed set of edges such that no edge that shares an end with the set has a trussness above 65000 |
| Shelter.ShelteredRemove | src/incremental.h:181-207 | so is a removal, although the condition is on the graph before it |
| Shelter.ShelteredStep | src/incremental.h:88-207 | in terms of keys: any operation on an edge that is sheltered in the larger of the two graphs is calm |
| Shelter.EvaluableSheltered | src/fixpoint.h:18-23 | where no trussness exceeds 65000 every edge is sheltered |
| Shelter.WithinLimitCalm | src/incremental.h:88-207 | any operation is calm if no trussness exceeds 65000 in the graph with its edge |
| PerEdge.PerEdgeMaintainer.Run | src/debug_bisect.cpp:66-91 | after any sequence of calm operations the edges are those of plain sequential processing and every value and count is exact |
| PerEdge.PerEdgeMaintainer.ValuesByKeys | src/debug_bisect.cpp:66-91 | the maintained value of an edge is a function of the edge set alone |
| TriangleClosure.CloseSeeds | src/batch.h:201-238 | the region is the least triangle-closed set of live edges around the live seeds: it holds every live seed and lies in every triangle-closed set that does; it is listed without repeats, and all temporary marks are taken back |
| TriangleClosure.CollectRound | src/batch.h:211-227 | one round of the closure, jobs in any order, collects every triangle partner of the frontier that is not in the region yet, and only edges on a triangle with the region |
| Batch.OutsideAgrees | src/batch.h:201-238 | edges outside a closed region on whose triangles two graphs agree have the same trussness and the same triangle count in both |
| Batch.DeletionOutside | src/batch.h:393-431 | a deletion changes nothing outside a closed region that holds every survivor that lost a triangle |
| Batch.InsertionOutside | src/batch.h:490-502 | an insertion changes nothing outside a closed region that holds the new edges |
| RegionalPeel.CountRegion | src/batch.h:241-261 | in any order of jobs, psup gets the region's triangle counts and exactly the outside edges on a triangle with the region are recorded as boundary |
| RegionalPeel.SortOrdered | src/batch.h:270-274 | the events end up in order of level, still one per edge |
| RegionalPeel.PrepareEvents | src/batch.h:270-280 | every boundary edge has one event, at the level of its trussness, in order of levels |
| RegionalPeel.LiveTriangle | src/batch.h:303-305 | a triangle that passes the three-way test for dead partners was still there, and a triangle that touches the region passes exactly when it was still there |
| RegionalPeel.RunEvents | src/batch.h:293-314 | the boundary edges of a level leave with their triangles before the bucket is scanned |
| RegionalPeel.ScanRegion | src/batch.h:315-340 | one bucket: every region edge of the level gets its value and is popped once |
| RegionalPeel.PeelLevels | src/batch.h:292-341 | all levels: the region has its trussness modulo 2^16, nothing outside is touched, and as many edges were popped as the region has |
| RegionalPeel.PeelList | src/batch.h:240-352 | for any listed region of live edges with correct values on its boundary, the peel assigns the true trussness modulo 2^16 and triangle count to all of it and to nothing else, never reports an incomplete peel, and restores its scratch flags |
| TriangleCharging.ChargerUnique | src/batch.h:401-401 | a destroyed triangle has at most one deleted edge that may charge it |
| TriangleCharging.ChargerExists | src/batch.h:401-401 | and it has one, its least deleted edge |
| TriangleCharging.ChargeOne | src/batch.h:402-407 | a charge finds both counters above zero and keeps survivors' counters exact |
| TriangleCharging.AllCharged | src/batch.h:396-415 | when all deleted edges have been handled, exactly the destroyed triangles have been charged |
| TriangleCharging.ChargeAll | src/batch.h:393-415 | in any order of jobs: survivors' counters become their new triangle counts and the underflow exit is not taken; an edge is a seed if and only if some destroyed triangle has it as an edge other than its least deleted edge, or, with the extra seeds, it shares an end with a deleted edge |
| EdgeOps.MergedIsSequentialIff | src/batch.h:354-391 | merged and sequential processing leave the same edges if and only if every key both inserted and deleted is last operated on against its old state |
| EdgeOps.BatchKeysAre | src/batch.h:355-364 | after a merged batch the edges are the old ones that no operation deletes and the absent ones that some operation inserts |
| EdgeOps.SeqKeysAre | src/batch.h:384-391 | after the operations one by one the edges are the old ones that no operation deletes and those that some operation inserts and none after it deletes |
| EdgeOps.NoConflict | src/batch.h:354-391 | in particular for batches that do not both insert and delete one key, whatever their order and repetitions |
| EdgeOps.ConflictExample | src/batch.h:356-364 | inserting an absent edge and deleting it again: the merged batch keeps it, sequential processing does not |
| EdgeOps.SingleBatch | src/batch.h:384-391 | a batch of one operation is that operation |
| Batch.BatchMaintainer.constructor | src/batch.h:130-167 | the maintainer starts with the trussness modulo 2^16 and the triangle count of every edge, and with ids up to the reserve, 16 more, and at most 2^32-2 |
| Batch.BatchMaintainer.GrowStructures | src/batch.h:505-534 | growing keeps all values and counts, sets no scratch flag, and adds dead ids only |
| Batch.BatchMaintainer.AttachAll | src/batch.h:434-461 | the new edges get distinct unused ids, the graph gains exactly them, and old values and counts stay |
| InsertionCounts.CollectMates | src/batch.h:467-478 | in any order of jobs, the recorded pairs mention every edge once for each other new edge that shares a triangle with it, and each new edge gets its triangle count |
| InsertionCounts.BumpMates | src/batch.h:480-489 | every count rises by the number of times its edge is mentioned, and the delta counts hold that number |
| InsertionCounts.OverCount | src/batch.h:467-489 | the count so recorded is never below the triangle count in the enlarged graph, and equals it if and only if no triangle on the edge has several new edges |
| InsertionCounts.Mated | src/batch.h:467-478 | an edge is reported to exactly if it shares a triangle with another new edge |
| Batch.BatchMaintainer.RecordMates | src/batch.h:462-500 | exactly how far every count goes up, and that the seeds are exactly the new edges and the edges counted up |
| Batch.BatchMaintainer.PhaseDeletions | src/batch.h:393-431 | deletes exactly the given edges, leaves zeros recorded for them, and makes all values (modulo 2^16) and counts exact for what is left |
| Batch.BatchMaintainer.PhaseInsertions | src/batch.h:433-505 | adds exactly the given edges and makes all values (modulo 2^16) and counts exact, although counts are too high in between |
| Batch.BatchMaintainer.Settle | src/batch.h:426-430 | closing the seeds and peeling the region makes all values (modulo 2^16) and counts exact, provided they are exact outside the closure |
| Batch.BatchMaintainer.Normalise | src/batch.h:355-364 | the two sets are the present keys some operation deletes and the absent keys some operation inserts |
| Batch.BatchMaintainer.ApplyBatch | src/batch.h:354-382 | for every graph, after a batch the edges are (old minus deleted present) plus inserted absent and every value is the trussness modulo 2^16, every count the triangle count |
| Batch.BatchMaintainer.ApplyBatchNoMerge | src/batch.h:384-391 | operation by operation the edges are those of sequential processing and all values (modulo 2^16) and counts are exact |
| Batch.BatchMaintainer.Run | src/debug_bisect.cpp:66-91 | after any sequence of batches the edges are those the batches ask for and all values (modulo 2^16) and counts are exact |
| Batch.StreamNext | src/debug_bisect.cpp:66-91 | those are the edges after all but the last batch, changed by the last batch |
| Batch.BatchMaintainer.ExactIffFits | src/debug_bisect.cpp:66-91 | between batches the maintained values are the trussness if and only if every trussness in the graph is below 2^16 |
| Batch.BatchMaintainer.ValuesByKeys | src/debug_bisect.cpp:66-91 | the maintained value of an edge is a function of the edge set alone |
| Agreement.SameValues | src/debug_bisect.cpp:66-91 | a batch and a per-edge maintainer with the same edges hold the same value for every endpoint pair, whatever their ids |
| Agreement.ThreeWays | src/batch.h:354-391 | one batch applied merged, unmerged and operation by operation ends with the same edges and the same values per endpoint pair whenever the order of operations on one key cannot matter and the operations, one by one, are calm |
| WorkerPool.InvKeeps | src/batch.h:67-128 | every step of every thread keeps the protocol invariant |
| WorkerPool.Reachable | src/batch.h:67-128 | the invariant holds after any schedule, for any number of workers, including spurious wake-ups |
| WorkerPool.RunsEachIndexOnce | src/batch.h:104-128 | for the latest call in any sequence of steps, of count c: when it has returned (or may), its body has run for each index below c exactly once and for no other, under a body number equal to the number of calls made so far, and every worker has left the epoch |
| WorkerPool.NeverTwice | src/batch.h:104-128 | at no time has the latest call, of count c, run its body for an index beyond c or for one index twice |
| WorkerPool.ShutdownJoins | src/batch.h:94-102 | when the shutdown returns every thread of the pool has ended |
| WorkerPool.StopIsFinal | src/batch.h:94-102 | the main thread is in the shutdown, or through with it, exactly if the destructor has been called |
| WorkerPool.ResetsAreSafe | src/batch.h:110-115 | whenever the body or a counter is about to be reset, every worker has finished the previous epoch |
| WorkerPool.BodyIsCurrent | src/batch.h:75-84 | a worker inside the body runs the body and count of the current call |
| WorkerPool.NoDeadlock | src/batch.h:67-128 | in every reachable state of run_jobs or the shutdown some thread can take a step towards its end: no wake-up is lost |
| WorkerPool.CanComplete | src/batch.h:67-128 | from every reachable state run_jobs can be completed, and the shutdown once it has begun, by steps of the threads alone |
| WorkerPool.CallCompletes | src/batch.h:104-128 | between calls run_jobs can be called with any count, and the call can be completed |
| WorkerPool.ShutdownCompletes | src/batch.h:94-102 | after the call of the destructor the shutdown can be completed, with all threads ended |
| WorkerPool.EverySchedule | src/batch.h:67-128 | under every schedule the threads make only a bounded number of steps, other than spurious wake-ups and waiting looks at the reports, before the call ends; each spurious wake-up adds at most five |
| Galloping.BinarySearch | baselines/AccTrussDecomposition/h-idx/pnd/main.h:250-272 | the lower bound of a value in an increasing range |
| Galloping.GallopingSearch | baselines/AccTrussDecomposition/h-idx/pnd/main.h:274-304 | for a range whose jumps fit 32 bits, the lower bound of a value in a non-empty increasing range, by the rounds of the source with every read inside the range |
| Galloping.GallopingIff | baselines/AccTrussDecomposition/h-idx/pnd/main.h:274-304 | all searches of all contents of a range end with the lower bound and read only inside the range if and only if every power of two j >= 4 with lo + j/2 < hi - 1 has lo + j < 2^32 |
| Galloping.WrapExample | baselines/AccTrussDecomposition/h-idx/pnd/main.h:274-304 | in the range from 2^32-100 to 2^32-1 the jump of 128 wraps around and the search reads element 28 |
| Galloping.ShortRangesFit | baselines/AccTrussDecomposition/h-idx/pnd/main.h:274-304 | 2*hi - lo <= 2^32 + 2 is enough for every search that starts in the range |
| Galloping.SetIntersectGalloping | baselines/AccTrussDecomposition/h-idx/pnd/local23_yche.cpp:64-93 | writes the offsets of exactly the common values of two ranges into the two buffers, each once and in order, and returns their number, whenever the buffers have room for that many; always terminates |
| Galloping.CommonBound | baselines/AccTrussDecomposition/h-idx/pnd/local23_yche.cpp:64-93 | there are no more common values than elements in either range |
| Galloping.MatchCount | baselines/AccTrussDecomposition/h-idx/pnd/local23_yche.cpp:76-93 | at no time are there more matches than common values, and in the end there are as many |
| AsyncHIndex.TrianglesOf | baselines/AccTrussDecomposition/h-idx/pnd/local23_yche.cpp:174-189 | for an edge in at most 2^21 triangles, the matched offsets, read through the reverse links, are the triangles of the edge, each once |
| AsyncHIndex.WritesAreTriangles | baselines/AccTrussDecomposition/h-idx/pnd/local23_yche.cpp:81-83 | the intersection for an edge writes as many buffer elements as the edge has triangles |
| AsyncHIndex.BuffersIff | baselines/AccTrussDecomposition/h-idx/pnd/local23_yche.cpp:176-184 | all writes to the buffers, of 2048*1024 elements each, are inside them for all edges if and only if no edge lies in more than 2^21 triangles |
| Books.BookIndex | baselines/AccTrussDecomposition/h-idx/pnd/local23_yche.cpp:64-93 | the compressed adjacency of two joined vertices with m common neighbours is a well-formed input |
| Books.SpineTriangles | baselines/AccTrussDecomposition/h-idx/pnd/local23_yche.cpp:64-93 | the joined pair lies in m triangles |
| Books.BuffersOverflow | baselines/AccTrussDecomposition/h-idx/pnd/local23_yche.cpp:176-184 | with 2^21+1 common neighbours the intersection writes to element 2^21, behind the end of its buffers |
| AsyncHIndex.HIndexIsF | baselines/AccTrussDecomposition/h-idx/pnd/local23_yche.cpp:174-234 | the h-index of the triangle minima is F(e) shifted by two |
| AsyncHIndex.OnlineStep | baselines/AccTrussDecomposition/h-idx/pnd/local23_yche.cpp:188-225 | one more value keeps: h is the h-index of the values seen, the counters and the map count those above it |
| AsyncHIndex.OnlineHIndex | baselines/AccTrussDecomposition/h-idx/pnd/local23_yche.cpp:174-234 | the single pass ends with the h-index of all minima |
| AsyncHIndex.MapInitialHI | baselines/AccTrussDecomposition/h-idx/pnd/local23_yche.cpp:174-234 | replaces one value by F less two, changes no other, and reports whether it fell |
| AsyncHIndex.ScanTriangles | baselines/AccTrussDecomposition/h-idx/pnd/local23_yche.cpp:252-276 | stops early only if the old value is supported; otherwise the counters cover all triangles and all partners are listed |
| AsyncHIndex.LargestBelow | baselines/AccTrussDecomposition/h-idx/pnd/local23_yche.cpp:278-285 | adding the counters downwards finds the h-index below the old value |
| AsyncHIndex.UpdateAndNotify | baselines/AccTrussDecomposition/h-idx/pnd/local23_yche.cpp:236-244 | sets one value and flags exactly the edge itself and the listed partners whose value is not below the new one |
| AsyncHIndex.EfficientUpdate | baselines/AccTrussDecomposition/h-idx/pnd/local23_yche.cpp:246-293 | changes something exactly when F no longer supports the value; then the value becomes F less two and exactly the partners at or above it are notified |
| AsyncHIndex.NotifySuffices | baselines/AccTrussDecomposition/h-idx/pnd/local23_yche.cpp:236-244 | partners below the new value need no notice: no edge that still has to drop is missed |
| AsyncHIndex.VisitKeeps | baselines/AccTrussDecomposition/h-idx/pnd/local23_yche.cpp:375-387 | a visit keeps all values at or above the trussness and all unflagged edges stable, and a change lowers the sum of the values |
| AsyncHIndex.NmLocal23 | baselines/AccTrussDecomposition/h-idx/pnd/local23_yche.cpp:346-406 | from triangle counts of at most 2^21 the loop terminates with every value two below the trussness |
| AsyncHIndex.AnyOrder | baselines/AccTrussDecomposition/h-idx/pnd/local23_yche.cpp:372-389 | edges visited whole in any order: values stay at or above the trussness, no more visits lower a value than the sum of the starting values, and without flags the values are exact |
| Interleaving.StoreOk | baselines/AccTrussDecomposition/h-idx/pnd/local23_yche.cpp:278-288 | the value that a complete scan stores, found among values read at different times, is never below the final value, and below the old one after the initial round |
| Interleaving.SeenSupports | baselines/AccTrussDecomposition/h-idx/pnd/local23_yche.cpp:265-274 | a scan that stopped early has left the value supported, if what it saw still holds |
| Interleaving.StoresHIndex | baselines/AccTrussDecomposition/h-idx/pnd/local23_yche.cpp:278-288 | the value that a complete scan stores is the h-index of the values read |
| Interleaving.MoveKeeps | baselines/AccTrussDecomposition/h-idx/pnd/local23_yche.cpp:236-293 | any single read or write of any visit, whatever the others are doing, keeps every value at or above its final value and every edge that may have to drop flagged, about to be flagged, or under a visit that will see why |
| Interleaving.RoundOver | baselines/AccTrussDecomposition/h-idx/pnd/local23_yche.cpp:372-389 | when a round is over every edge is flagged or its value is supported |
| Interleaving.FinishedIsExact | baselines/AccTrussDecomposition/h-idx/pnd/local23_yche.cpp:372-404 | a round that changes nothing leaves every value two below the trussness |
| Interleaving.NeverStuck | baselines/AccTrussDecomposition/h-idx/pnd/local23_yche.cpp:346-404 | until then some visit can go on or the next round can begin |
| Interleaving.EveryInterleaving | baselines/AccTrussDecomposition/h-idx/pnd/local23_yche.cpp:346-404 | from the triangle counts, under every interleaving of the accesses of all visits of the initial round and the later ones: no value falls below its final one, no notice is lost, the number of accesses is bounded, and where the computation ends the values are exact |
| Interleaving.IndexedProblem | baselines/AccTrussDecomposition/h-idx/pnd/local23_yche.cpp:246-261 | every indexed graph is an instance: the visits come to the triangles of every edge, each once |

## Left out

- Command line, files, streams, graph generation, timing, statistics counters and the edge-watching output: input and output only. `DynGraph::load` builds a graph by `add_edge` and is not modelled.
- The helpers `expand_local`, `eval_wmax`, `eval_wmax_pot` and the promoting mode of `fixpoint`, the arrays that only they use (`ubc`, `in_next`, `bufs`), and the two history snapshots of the batch header: nothing in the build calls them.
- Weak memory: jobs of a parallel loop are atomic steps in any order with one stamp set instead of one per thread and one result list instead of one per thread; the pool protocol is modelled with sequentially consistent accesses to its shared variables. The unsynchronised writes of `ub_in` in the region closure are covered only as such atomic jobs.
- The sequential path of `run_jobs` for fewer than 32768 jobs is the loop itself; the pool's 64-bit job counter is unbounded in the model.
- `splitmix64` is an arbitrary total hash function, `std::sort` an insertion sort, and `std::unordered_set` a set enumerated in any order.
- Batch.BatchMaintainer.ApplyBatch: the edges of the resulting graph together with the ids that `reserve_edges` passed over must be fewer than 2^32-1 (`DynGraph.Room`); ids are 32-bit and the last one marks a dead edge.
- Batch.BatchMaintainer.Run: the same limit for every batch of the stream.
- Batch.BatchMaintainer.ApplyBatchNoMerge: the same limit after every operation.
- PerEdge.PerEdgeMaintainer.Insert: a free id or one below 2^32-1 must be left; endpoints are vertices of the graph. The values it starts from must be exact, as they are after every operation that ends with exact values; what further operations do after one that does not is left open.
- PerEdge.PerEdgeMaintainer.Remove: the values it starts from must be exact, too.
- PerEdge.PerEdgeMaintainer.Run: the same limits for every operation, and each operation is calm (`StepCalm`), the exact condition under which it leaves exact values.
- Galloping.SetIntersectGalloping: every search that starts in one of the two ranges must satisfy the condition of `GallopingIff` (`Searchable`), and the buffers must have room for the common values; the source checks neither.
- AsyncHIndex.NmLocal23: the compressed adjacency, the reverse links and the triangle counts it starts from are preconditions (`createOrdered`, `createRevLink` and `count_triangles` are not part of this model); no count exceeds 2^21, the exact condition for the fixed buffers. The method visits edges in index order and whole; any order of whole visits is `AsyncHIndex.AnyOrder`, and visits that overlap in time are `Interleaving.EveryInterleaving`.
- Interleaving.EveryInterleaving: accesses to the shared values and flags are single sequentially consistent steps, although the source makes them without synchronisation; the private part of a visit (intersection, counters) happens with the access before it; every edge may be visited at any time of a round, whatever the number of threads.
- Batch.BatchMaintainer.GrowStructures: `cap_edges` is advanced after the arrays have grown, where the program advances it just before; nothing reads it in between.
- The fields of the maintainers and of the graph are immutable sequences that the methods replace; the objects are updated in place, the storage of a single array is not.
- The other baselines (third-party libraries, CUDA and Python glue, other decompositions): foreign code or weaker repeats of the same peeling argument.
