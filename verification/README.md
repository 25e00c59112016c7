# Clearra core: a verified model

Clearra solves perfect clears of a falling-block puzzle exactly. Its C core runs two
search engines and a layer of caches that must not change their answers:

* **packing** covers the cells that are still missing with tetrominoes (an exact cover
  search with a memo, component composition, pruners and work sharing), and
* **build-up** decides in which order the chosen placements can really be built, and
  counts the build variants together with the hold queue.

This project models that core in Dafny and proves what the engines promise: the fast
forms return exactly what the plain definitions say, for every input, every run and
every reachable state.

## How the model is laid out

| part | files |
|---|---|
| boards, line clears, the two coordinate frames | `Frame.dfy`, `BuildRun.dfy` |
| realization feasibility | `Realization.dfy`, `Closure.dfy`, `Propagation.dfy`, `Structural.dfy`, `OrderSearch.dfy`, `Feasibility.dfy` |
| exact cover | `Cover.dfy`, `Composition.dfy`, `Shares.dfy`, `Accumulator.dfy`, `ComponentTable.dfy`, `Decomposition.dfy`, `CellSupport.dfy`, `ExactCover.dfy`, `CoverSearch.dfy` |
| additive invariant | `AdditiveInvariant.dfy` |
| counting build variants | `BuildTree.dfy`, `CompletionMemo.dfy`, `VariantSearch.dfy`, `NodeIndex.dfy`, `GeometryDag.dfy`, `DagSearch.dfy`, `GeometryExport.dfy`, `Variants.dfy`, `Pruning.dfy` |
| from the packed candidate to the answer | `BuildableStream.dfy`, `QueueStream.dfy` |
| hold queue and transition cache | `HoldQueue.dfy`, `TransitionCache.dfy`, `CachedStep.dfy` |
| shared tools | `Options.dfy`, `Bits.dfy`, `Sets.dfy`, `Nibbles.dfy`, `Folding.dfy` |

Conventions:

* A 64-bit mask is a set of cells, a 16-bit row mask a set of rows. A subset of
  operations that indexes an array stays a number (`Bits.dfy` gives its members);
  packed four-bit counters stay numbers too (`Nibbles.dfy`).
* A solution family is a set of sets of row ids; the invalid reference is the empty
  family and the empty-path reference is the family of the empty set.
* Hash functions, bucket functions, prefix mixing, the choice of pivot, retention
  budgets and "is there room" answers are parameters. Results hold for all of them.
* Integer widths are written out where they matter: 16-bit generations and 32-bit epochs
  wrap, four-bit fields must not overflow, signatures add modulo 64.
* `Folding.dfy` holds a marker that keeps quantified definitions folded until a proof
  mentions it. It has no meaning of its own.

## Main results

1. `Feasibility.Analyze`: the verdict is exact. FEASIBLE carries an order whose every
   prefix really locks, and required predecessors that every build obeys; INFEASIBLE means
   that no order with any choice of realizations can be built, although states are marked
   visited by subset alone.
2. `BuildRun.RunTracks` and `BuildRun.AcceptedRunConservesCells`: along every run the
   board is the compression of everything placed by exactly the rows filled, and an
   accepted run fills exactly the rows it clears.
3. `BuildableStream.ConsumePath`: a packed candidate is accepted exactly when the piece
   window admits its size, the supply keeps to its bag pattern and it can be built. The analysis may drop it and its required predecessors make the build-up search
   skip operations; neither loses a build. Every accepting path of the build-up search is a
   build of the feasibility problem (`BuildableStream.PathIsBuild`), so it obeys the
   predecessors (`BuildableStream.ObeyedPredecessorsAreSafe`), so skipping on them changes
   nothing (`Pruning.PruningLosesNothing`). `QueueStream.ConsumeFromQueue` and
   `QueueStream.CountFromQueue` are the instances over a queue with hold. There every variant
   takes its pieces from the queue (`QueueStream.VariantUsesQueue`).
4. `DagSearch.RunDirect` and `DagSearch.RunThroughDag`: the memoised direct search and the
   search over the hold-free DAG count and retain the same build variants in the same order.
   These are defined without a search and without required predecessors
   (`Variants.AllVariantsAreMet`). The DAG never consults predecessors, so its result holds
   for all of them. The direct search meets every variant where skipping is harmless, that
   is where every accepting path obeys them (`Variants.SafeExactlyWhenPathsObey`), and
   result 3 establishes this for the predecessors the program uses.
5. `CoverSearch.RunSearch` and `CoverSearch.Search.SearchExactCover`: pivot branching
   with memo, composition and binary-counter unions returns exactly the row sets that
   partition the cells and match an allowed piece multiset, for every pruning decision
   that is sound (`ExactCover.SoundPolicy`). The answers of the runs of a divided search
   partition the undivided answer (`CoverSearch.RunsPartitionTheResult`), provided the pivot
   depends on the state alone. Of the program's own pruners only the additive one is shown
   to be sound here, under the condition of result 6 (`AdditiveInvariant.DecideWithInvariant`).
6. `AdditiveInvariant.SoundExactlyWhenCountsAreExact`: the additive pruner can be trusted
   exactly when a family of multisets is given or the window holds no more pieces than the
   target. It is wrong otherwise (see below).
7. `GeometryExport.ExportedLanguage`: the exported language spells exactly the accepting
   move sequences.

## A property that does not hold

The additive invariant is meant to report IMPOSSIBLE only for states without a cover.
Without a family of multisets, though, the only count it allows for a piece is the one that
empties the window (`core-c/src/packing/geometry_piece_family_domain.c:119-121`). With more
pieces in the window than the target needs, every state is therefore called impossible,
while the leaf test of the search accepts any counts up to the window
(`core-c/src/packing/geometry_piece_family_domain.c:82-84`).

* `AdditiveInvariant.FourLinesHaveACover` and `AdditiveInvariant.FourLinesAreCalledImpossible`
  give an input: four lines of width four, four horizontal I rows, five I pieces in the window.
* `AdditiveInvariant.SurplusIsCalledImpossible`: with pieces to spare this happens to every
  cover of every catalog.
* `AdditiveInvariant.SoundExactlyWhenCountsAreExact` gives the exact condition: a family is
  given, or the window total is at most the target. Soundness there ranges over all rows of
  four cells; `AdditiveInvariant.VerdictCanBeWrong` uses rows that need not be tetrominoes.

The search accepts windows larger than its target
(`core-c/src/packing/geometry_exact_cover.c:701-702`) and consults the invariant from four
missing pieces on without testing that condition
(`core-c/src/packing/geometry_exact_cover.c:443-479`). For such a rule the program's pruning
is not a sound decision, and result 5 says nothing about it. Materialising a candidate
without a family demands that the whole window is used, so no candidate is lost this way:
`AdditiveInvariant.NoCandidateIsLost` holds for every rule.

## Model

| member | source | states |
|---|---|---|
| `Frame.RankCountsBelow` | core-c/src/buildup/y_adjustment.c:22-30 | a row's compressed index is its index minus the number of deleted rows below it |
| `Frame.CompressDisjoint` | core-c/src/board/board64.c:114-128 | masks that avoid the deleted rows collide in the compressed frame exactly when they overlap in the target frame |
| `Frame.CompressCompose` | core-c/src/packing/target_frame_projection.c:86-119 | clearing in two stages is clearing once by the union of the deleted target rows |
| `Frame.FullRowsCompress` | core-c/src/board/board64.c:132-179 | a surviving row is full in one frame exactly when it is full in the other |
| `Frame.ClearLines` | core-c/src/board/board64.c:132-179 | the read/write-cursor loop gives the board compressed by exactly its full rows, those rows and their number |
| `Frame.TargetRowForCurrentRow` | core-c/src/packing/target_frame_projection.c:3-20 | a compressed row has a target row exactly when enough rows survive, and it is the inverse of renumbering |
| `Frame.UnrankOfRank` | core-c/src/buildup/buildup_search.c:640-660 | renumbering a surviving row and looking its target row up again is the identity |
| `Frame.MergeDeletedRows` | core-c/src/packing/target_frame_projection.c:86-119 | the deleted rows grow by the target rows of the cleared ones, and it fails exactly when one has none |
| `Frame.PlacementKeepsFramesInStep` | core-c/src/board/board64.c:132-204 | placing and clearing in the compressed frame shows the enlarged target board with exactly its full rows deleted |
| `BuildRun.AdjustOperation` | core-c/src/buildup/y_adjustment.c:82-176 | the cell-by-cell loop returns the compressed mask, which fits the layout, with its anchor, and rejects in exactly the cases of `Adjusted` |
| `BuildRun.UpdateLineClearState` | core-c/src/buildup/buildup_search.c:660-695 | the loop adds the target rows of the cleared rows to mask and counters, and rejects exactly when one has no target row or the count disagrees |
| `BuildRun.TryOperation` | core-c/src/buildup/buildup_geometry_transition.c:101-310 | the imperative step computes the function `Step`, whose meaning is given by the run lemmas below |
| `BuildRun.StepTracks` | core-c/src/buildup/buildup_geometry_transition.c:101-310 | on a state that shows a target board a step succeeds exactly when its four filters pass, places a disjoint mask and shows the enlarged board |
| `BuildRun.RunTracks` | core-c/src/buildup/buildup_geometry_transition.c:101-310 | from a state that shows a target board, every run of successful steps ends in the compression of all placed cells by exactly the rows they fill, with agreeing counters and disjoint masks |
| `BuildRun.RunTracksFromAnyBoard` | core-c/src/buildup/buildup_geometry_transition.c:101-310 | the same from any initial board once one piece is placed, rows full from the start included |
| `BuildRun.NoSurvivingRowIsFull` | core-c/src/board/board64.c:132-179 | a state that shows a target board, so every state of a run, has no full row left |
| `BuildRun.OrderDoesNotMatter` | core-c/src/buildup/buildup_geometry_transition.c:101-310 | from any initial board, two runs that place the same cells end in the same board and clear state |
| `BuildRun.EmptyBoardMeansFilledRows` | core-c/src/buildup/buildup_search.c:600-607 | the goal is met exactly when the placed cells are the deleted rows, completely filled |
| `BuildRun.AcceptedRunConservesCells` | core-c/src/buildup/buildup_search.c:600-607 | from any initial board of height at most 16, an accepted run places disjoint masks, fills exactly the deleted rows, and width times cleared lines equals initial cells plus mask sizes |
| `Closure.CloseRequiredPredecessors` | core-c/src/buildup/realization_feasibility.c:503-527 | the in-place pivot loop leaves the transitive closure and fails exactly on a cycle |
| `Closure.OrderObeysWalks` | core-c/src/buildup/realization_feasibility.c:503-527 | an order that obeys a predecessor relation obeys its closure |
| `Closure.OrderForbidsCycle` | core-c/src/buildup/realization_feasibility.c:503-568 | a relation obeyed by an order of all elements has no cycle |
| `Realization.InstantiateIsCompression` | core-c/src/packing/geometry_realization_domain.c:28-108 | an instantiated realization is the compression of its cells, fits the layout, and its minimum deleted rows are deleted |
| `Realization.FormulaGivesFullRows` | core-c/src/buildup/realization_domain_propagation.c:5-26 | for disjoint masks the contributor formula on a set of operations gives exactly the full rows of its target board |
| `Realization.CompileRowContributors` | core-c/src/buildup/realization_feasibility.c:459-501 | contributor sets of every clearable row; refused exactly when a row is full from the start |
| `Realization.DeletedRowsForState` | core-c/src/buildup/realization_domain_propagation.c:5-26 | the loop collects exactly the clearable rows whose contributors are all placed |
| `Propagation.TransitionSupport` | core-c/src/buildup/realization_domain_propagation.c:115-153 | a transition is supported exactly when an active realization fits it, and recording collects all of them |
| `Propagation.MayStep` | core-c/src/buildup/realization_domain_propagation.c:195-212 | decides the structural transition |
| `Propagation.ForwardPass` | core-c/src/buildup/realization_domain_propagation.c:264-288 | one ascending pass stamps exactly the structurally reachable subsets |
| `Propagation.BackwardPass` | core-c/src/buildup/realization_domain_propagation.c:294-323 | one descending pass stamps exactly the reachable subsets that can still finish and records exactly the realizations used from them |
| `Propagation.NarrowDomains` | core-c/src/buildup/realization_domain_propagation.c:325-347 | a realization stays active exactly when some complete order uses it, and every domain keeps one |
| `Propagation.Propagate` | core-c/src/buildup/realization_domain_propagation.c:223-352 | SUPPORTED is returned exactly when a complete structural order exists, with both stamps and the narrowing exact |
| `Propagation.EndsMeet` | core-c/src/buildup/realization_domain_propagation.c:290-292 | the start can finish exactly when the full set is reachable |
| `Structural.CompileRequiredPredecessors` | core-c/src/buildup/realization_feasibility.c:529-568 | required predecessors are the closure of the base relation, refused exactly when it is inconsistent or cyclic |
| `Structural.CommonPredecessors` | core-c/src/buildup/realization_domain_propagation.c:155-193 | the in-place pass leaves exactly the predecessors shared by all active realizations, as if it read the old array; refused exactly for an empty or inconsistent domain |
| `Structural.PlayedTracksTarget` | core-c/src/buildup/realization_feasibility.c:231-334 | the position after real placements depends on the set placed alone |
| `Structural.BuildableMasksAreDisjoint` | core-c/src/buildup/realization_feasibility.c:231-334 | a candidate that can be built at all has disjoint masks |
| `Structural.StepObeysContributors` | core-c/src/buildup/realization_domain_propagation.c:75-113 | in a buildable order every realization stands in the clear state of the formula with the contributors of its rows placed |
| `Structural.BuildableOrderObeysBase` | core-c/src/buildup/realization_feasibility.c:529-568 | a buildable order obeys the base relation, so compilation never rejects a buildable candidate |
| `Structural.BuildableOrderIsStructural` | core-c/src/buildup/realization_domain_propagation.c:195-212 | a buildable order is a structural order in any domains that keep its choices |
| `OrderSearch.SearchOrder` | core-c/src/buildup/realization_feasibility.c:638-725 | with states marked by subset alone, success leaves a complete path and failure proves that no order completes the state |
| `OrderSearch.SearchFromStart` | core-c/src/buildup/realization_feasibility.c:638-725 | the search from nothing placed is complete and sound |
| `Feasibility.Workspace.EnsureCapacity` | core-c/src/buildup/realization_feasibility.c:92-129 | planes grow to fresh ones with every stamp and the generation zero, or stay as they are |
| `Feasibility.Workspace.AdvanceGeneration` | core-c/src/buildup/realization_feasibility.c:155-167 | afterwards no state carries the current stamp, also when the counter wraps |
| `Feasibility.MatchIsPlacement` | core-c/src/buildup/realization_feasibility.c:231-334 | a realization that matches in the replay really locks there and leads to the board and clear state the formula predicts |
| `Feasibility.ReplayIsNeverIncomplete` | core-c/src/buildup/realization_feasibility.c:231-334 | the board to replay fits the layout and every cleared row has a target row, so the replay always answers match or no match |
| `Feasibility.PathIsABuild` | core-c/src/buildup/realization_feasibility.c:336-384 | a path of the search is a sequence of real placements |
| `Feasibility.BuildCompletes` | core-c/src/buildup/realization_feasibility.c:638-725 | a build that the filters keep is a complete path of the search |
| `Feasibility.CompilePriority` | core-c/src/buildup/realization_feasibility.c:594-636 | all operations once, ordered by lowest target row and then index |
| `Feasibility.RefineDomains` | core-c/src/buildup/realization_feasibility.c:727-902 | an unsupported propagation means that nothing can be built, a supported one loses no build |
| `Feasibility.CommonPredecessorsAreObeyed` | core-c/src/buildup/realization_domain_propagation.c:155-193 | every build already obeys the predecessors that the pass adds |
| `Feasibility.CommonPredecessorsHaveNoCycle` | core-c/src/buildup/realization_domain_propagation.c:155-193 | after a supported propagation the common predecessors have no cycle |
| `Feasibility.TightenPredecessors` | core-c/src/buildup/realization_feasibility.c:503-527 | replacing and closing the predecessors never fails and keeps every build |
| `Feasibility.Analyze` | core-c/src/buildup/realization_feasibility.c:727-902 | FEASIBLE gives an order that can be built and required predecessors that every build obeys, INFEASIBLE means no order can be built, UNKNOWN exactly for uncompiled domains or an initially full row |
| `Cover.CoverSplit` | core-c/src/packing/geometry_exact_cover.c:484-541 | removing a row from a cover leaves a cover of the residual state, and the row passes the feasibility test |
| `Cover.CoverJoin` | core-c/src/packing/geometry_exact_cover.c:533-535 | adding a fitting row to a cover of the residual state gives a cover |
| `Cover.WrongSizeMeansNoCover` | core-c/src/packing/geometry_exact_cover.c:143-154 | a cell count that is not four times the missing pieces admits no cover |
| `Cover.CoverOfNothing` | core-c/src/packing/geometry_exact_cover.c:126-142 | with no cells left only the empty cover remains, exactly when depth and counts are accepted |
| `Cover.AdvanceTracks` | core-c/src/packing/geometry_piece_family_domain.c:51-73 | the incremental active set is the set of members with at least the used count of every piece |
| `Cover.FeasibleMeansFits` | core-c/src/packing/geometry_exact_cover.c:54-77 | a row is feasible exactly when it lies in the cells and the raised counts can still be completed |
| `Composition.PackCountsInjective` | core-c/src/packing/geometry_exact_cover.c:40-52 | packed four-bit counts determine the counts, so a memo key determines its state |
| `Composition.PackCountsAdd` | core-c/src/packing/geometry_component_composer.c:325-338 | raising a count adds one unit of its field |
| `Composition.UnpackOfPack` | core-c/src/packing/geometry_component_composer.c:117-120 | reading the fields of a signature gives back the counts |
| `Composition.CoverRestricts` | core-c/src/packing/geometry_component_composer.c:455-470 | a cover that respects a component is a partition of it with fitting counts and a cover of the rest under the raised counts |
| `Composition.CoverComposes` | core-c/src/packing/geometry_component_composer.c:514-535 | such a partition joined with a cover of the rest is a cover of the whole |
| `Shares.OwnershipStep` | core-c/src/packing/geometry_exact_cover.c:79-86 | following the pivot row hands the rest of a cover to the same run, and only the prefix test at the dividing depth turns covers away |
| `Shares.SharesPartitionTheCovers` | core-c/src/packing/geometry_exact_cover.c:79-86 | families that hold the shares 0 to n-1 of a state are pairwise disjoint and together are all covers |
| `Accumulator.AddFamily` | core-c/src/packing/geometry_component_composer.c:175-200 | the levels in use are the bits of the number of families added, carrying loses nothing and the 32 levels suffice below 2^32 families |
| `Accumulator.Finish` | core-c/src/packing/geometry_component_composer.c:202-226 | the result is the union of everything added |
| `Accumulator.AddBranch` | core-c/src/packing/geometry_exact_cover.c:530-563 | the levels collect one branch more and nothing else, an empty branch is skipped |
| `ComponentTable.SolutionTable.Insert` | core-c/src/packing/geometry_component_solution_table.c:177-219 | the family is merged under its signature and nothing else changes |
| `ComponentTable.SolvesBranches` | core-c/src/packing/geometry_component_composer.c:304-348 | a partial solution of a component extends exactly through the rows over its pivot |
| `ComponentTable.SelectPivot` | core-c/src/packing/geometry_component_composer.c:74-111 | the open cell with the fewest feasible rows, lowest on ties; refused exactly when some cell has none |
| `Decomposition.FindRoot` | core-c/src/packing/geometry_component_decomposition.c:23-34 | returns the root and compresses paths without changing any root |
| `Decomposition.UnionCells` | core-c/src/packing/geometry_component_decomposition.c:36-48 | merges exactly two classes under the smaller root |
| `Decomposition.UniteRow` | core-c/src/packing/geometry_component_decomposition.c:99-106 | the classes become the finest ones that also keep this row together |
| `Decomposition.CollectParts` | core-c/src/packing/geometry_component_decomposition.c:111-134 | one part per class, lowest cell first; the limit of 64 is never met |
| `Decomposition.SortParts` | core-c/src/packing/geometry_component_decomposition.c:50-69 | the in-place insertion sort permutes the parts into strict order by size and lowest cell |
| `Decomposition.Decompose` | core-c/src/packing/geometry_component_decomposition.c:71-137 | the finest partition of the remaining cells that keeps every feasible row whole, sorted, with exactly the unsupported cells; refused exactly for cells outside the required fill |
| `Decomposition.MakeCompositionPlan` | core-c/src/packing/geometry_component_decomposition.c:139-177 | a plan exists exactly for an ordered partition with several parts and no unsupported cell, and splits the first part off |
| `CellSupport.BuildCellSupport` | core-c/src/packing/geometry_catalog.c:510-580 | the counting passes give every cell one contiguous list of exactly its rows in row order, which is the index the search branches over; refused exactly when a row leaves the board |
| `CellSupport.SliceHas` | core-c/src/packing/geometry_exact_cover.c:480-486 | the slice of the index that the search visits for a pivot holds exactly the rows through it |
| `ExactCover.MemoStays` | core-c/src/packing/geometry_exact_cover.c:582-588 | storing an answer keeps every memo entry right for every state with its key |
| `ExactCover.SkippedRow` | core-c/src/packing/geometry_exact_cover.c:488-515 | a row that is passed over belongs to no cover of this run through the pivot |
| `ExactCover.TakenRow` | core-c/src/packing/geometry_exact_cover.c:516-541 | a row that is taken contributes exactly the covers of this run through it |
| `ExactCover.UnsupportedMeansNoCover` | core-c/src/packing/geometry_component_composer.c:381-392 | a cell without a feasible row leaves no cover |
| `ExactCover.OddPartMeansNoCover` | core-c/src/packing/geometry_component_composer.c:393-408 | a part whose size is no multiple of four leaves no cover |
| `ExactCover.ProductsAreCovers` | core-c/src/packing/geometry_component_composer.c:495-550 | the products over all signatures are exactly the covers of the whole |
| `CoverSearch.PathFamily` | core-c/src/packing/geometry_component_composer.c:228-246 | the family with the chosen rows as its one member |
| `CoverSearch.AdvanceSignature` | core-c/src/packing/geometry_component_composer.c:130-153 | the active members after a whole signature are those of the summed counts, and it never fails on counts that fit |
| `CoverSearch.Search.Enumerate` | core-c/src/packing/geometry_component_composer.c:248-349 | files exactly the partitions of the component that fit, under their packed counts; counts and path are restored and no field overflows |
| `CoverSearch.Search.Remember` | core-c/src/packing/geometry_exact_cover.c:582-588 | whatever is stored keeps every memo entry the complete family of its key |
| `CoverSearch.Search.SearchExactCover` | core-c/src/packing/geometry_exact_cover.c:88-590 | under a sound pruning decision, returns exactly the covers of the state that belong to this run and restores the counts |
| `CoverSearch.Search.BranchOnPivot` | core-c/src/packing/geometry_exact_cover.c:480-581 | visiting only the slice of the pivot unites exactly the covers of this run over all rows through it |
| `CoverSearch.Search.AnalyseComponents` | core-c/src/packing/geometry_component_composer.c:362-418 | reports no cover only when there is none, and a split that every cover respects |
| `CoverSearch.Search.TryComposition` | core-c/src/packing/geometry_component_composer.c:351-569 | when composition applies its answer is the one of pivot branching |
| `CoverSearch.Search.MultiplyEntries` | core-c/src/packing/geometry_component_composer.c:495-550 | unites the products of every entry with the covers of the remainder under the raised counts |
| `CoverSearch.RunSearch` | core-c/src/packing/geometry_exact_cover.c:636-836 | under a sound pruning decision and, in a divided search, a pivot fixed by the state: a run returns exactly the covers of the required cells that belong to it and fit the piece window; no answer exactly for a dividing depth outside the search or more than fifteen pieces |
| `CoverSearch.RunsPartitionTheResult` | core-c/src/packing/geometry_exact_cover.c:636-836 | the answers of runs 0 to n-1 and of one undivided run on the same problem: all of them exist or none does, the divided ones are pairwise disjoint and their union is the undivided one |
| `AdditiveInvariant.MaskSignature` | core-c/src/invariant/geometry_additive_invariant.c:23-44 | the loop computes the weight sum of the cells modulo 64 |
| `AdditiveInvariant.SignatureAdds` | core-c/src/invariant/geometry_additive_invariant.c:23-44 | signatures add modulo 64 over disjoint cells |
| `AdditiveInvariant.RotateAdds` | core-c/src/invariant/geometry_additive_invariant.c:69-74 | rotating a 64-bit set adds a constant modulo 64 to every member |
| `AdditiveInvariant.SignatureSumset` | core-c/src/invariant/geometry_additive_invariant.c:76-90 | the loop of rotations is the set of all sums modulo 64 |
| `AdditiveInvariant.NextPiece` | core-c/src/invariant/geometry_additive_invariant.c:122-158 | the table after one more piece kind holds exactly the totals reachable with allowed counts |
| `AdditiveInvariant.BankReachesTarget` | core-c/src/invariant/geometry_additive_invariant.c:92-168 | true exactly when the signature of the cells is a reachable total |
| `AdditiveInvariant.CoverPasses` | core-c/src/invariant/geometry_additive_invariant.c:92-168 | a state with a cover passes every bank, whatever the weights, when the counts are exact |
| `AdditiveInvariant.VerdictIsSound` | core-c/src/invariant/geometry_additive_invariant.c:170-217 | with exact counts a state called impossible has no cover |
| `AdditiveInvariant.SurplusNeverPasses` | core-c/src/packing/geometry_piece_family_domain.c:108-122 | without a family and with pieces to spare no state passes any bank |
| `AdditiveInvariant.SurplusIsCalledImpossible` | core-c/src/invariant/geometry_additive_invariant.c:170-217 | without a family and with pieces to spare every state of every catalog is called impossible, on boards of every width |
| `AdditiveInvariant.FourLinesHaveACover` | core-c/src/invariant/geometry_additive_invariant.c:170-217 | four lines of width four and five I pieces: the four horizontal I rows cover them |
| `AdditiveInvariant.FourLinesAreCalledImpossible` | core-c/src/packing/geometry_exact_cover.c:443-456 | that same state, with four pieces missing as the search demands before it asks, is called impossible |
| `AdditiveInvariant.VerdictCanBeWrong` | core-c/src/invariant/geometry_additive_invariant.c:170-217 | every rule with pieces to spare has rows of four cells, which need not be tetrominoes, with a cover that is called impossible |
| `AdditiveInvariant.SoundExactlyWhenCountsAreExact` | core-c/src/invariant/geometry_additive_invariant.c:170-217 | IMPOSSIBLE is right about every choice of four-cell rows under a rule exactly when a family is given or the window total is at most the target |
| `AdditiveInvariant.NoCandidateIsLost` | core-c/src/packing/packing_candidate_materializer.c:113-131 | under every rule an impossible state has no cover that the materialiser would accept |
| `AdditiveInvariant.PropagateInvariant` | core-c/src/invariant/geometry_additive_invariant.c:170-217 | reports the first bank that fails, supported exactly when all pass, invalid exactly for empty cells or a piece count outside 1 to 15 |
| `AdditiveInvariant.PruningIsSound` | core-c/src/packing/geometry_exact_cover.c:456-477 | with exact counts, pruning on the verdict is a sound decision in the sense that the cover search needs |
| `AdditiveInvariant.DecideWithInvariant` | core-c/src/packing/geometry_exact_cover.c:443-479 | with exact counts, a sound decision stays sound when the verdict may overrule it from four missing pieces on |
| `CompletionMemo.ProbesAreDistinct` | core-c/src/buildup/buildup_completion_memo.c:309-311 | the probes of a key below the capacity visit distinct buckets |
| `CompletionMemo.AllProbesTaken` | core-c/src/buildup/buildup_completion_memo.c:310-327 | a chain that meets neither its key nor a free bucket would need every bucket |
| `CompletionMemo.Memo.Lookup` | core-c/src/buildup/buildup_completion_memo.c:297-327 | a hit is exactly the value last stored for this key in this generation |
| `CompletionMemo.Memo.Insert` | core-c/src/buildup/buildup_completion_memo.c:329-365 | stores or overwrites the value; a saturated memo stays unchanged; below full load a bucket is always found |
| `CompletionMemo.Memo.NextGeneration` | core-c/src/buildup/buildup_completion_memo.c:175-188 | a new generation is empty, also when the 16-bit counter wraps |
| `BuildTree.DeadHasNone` | core-c/src/buildup/buildup_geometry_dag.c:987-997 | a state from which no accepting state can be reached has no completed variant under any hold state |
| `VariantSearch.Search.RecordSuccess` | core-c/src/buildup/buildup_search.c:701-732 | one more variant is counted, and retained while there is room |
| `VariantSearch.Search.Recall` | core-c/src/buildup/buildup_search.c:104-118 | a memo answer counts exactly the completions it stands for and skips nothing that would be retained |
| `VariantSearch.Search.Remember` | core-c/src/buildup/buildup_search.c:303-311 | what is filed is the exact number of completions |
| `VariantSearch.Search.SearchOrder` | core-c/src/buildup/buildup_search.c:79-313 | counts all completions of a state and retains the first ones in order; with the stop flag exactly the first |
| `NodeIndex.Index.Reset` | core-c/src/buildup/buildup_geometry_dag.c:129-168 | clearing only the touched buckets empties the whole index |
| `NodeIndex.Index.GrowBestEffort` | core-c/src/buildup/buildup_geometry_dag.c:347-406 | with or without room the nodes stay as they are and every one is still found through its bucket |
| `NodeIndex.Index.FindOrInsert` | core-c/src/buildup/buildup_geometry_dag.c:431-468 | returns the node of the key, appending exactly one node if it is new |
| `GeometryDag.Dag.ExpandNode` | core-c/src/buildup/buildup_geometry_dag.c:485-605 | leaves the node and all below it with exactly their moves as edges in order, accepting and live flags exact, and touches no other node |
| `GeometryDag.Dag.Prepare` | core-c/src/buildup/buildup_geometry_dag.c:652-721 | after a reset every node of the new DAG is finished and the root is the initial state with all operations |
| `Pruning.OperationIsBranches` | core-c/src/buildup/buildup_search.c:47-55 | where unready operations lead nowhere, an operation contributes the same whether or not required predecessors are consulted |
| `Pruning.PruningLosesNothing` | core-c/src/buildup/buildup_search.c:47-55 | from a safe state the search with required predecessors meets the same variants in the same order as the search without them |
| `DagSearch.GroupIsOperation` | core-c/src/buildup/buildup_geometry_dag.c:1081-1089 | a maximal group of edges with one operation is exactly the moves of that operation |
| `DagSearch.SearchNode` | core-c/src/buildup/buildup_geometry_dag.c:987-1145 | the search from a DAG node counts and retains the completions of its state in the order of the direct search |
| `DagSearch.RunDirect` | core-c/src/buildup/buildup_search.c:79-313 | for every hash, capacity and saturation of the memo, count and retained variants are those of the plain enumeration, and from a safe state those of the enumeration without required predecessors |
| `DagSearch.RunThroughDag` | core-c/src/buildup/buildup_geometry_dag.c:1147-1158 | for every problem, count and retained variants over the DAG are those of the plain enumeration without required predecessors |
| `Variants.CompletionsAreVariants` | core-c/src/buildup/buildup_search.c:79-313 | the enumeration contains a sequence of steps exactly when it is a build variant by definition and its steps respect the required predecessors |
| `Variants.AllVariantsAreMet` | core-c/src/buildup/buildup_search.c:79-313 | without required predecessors the enumeration contains exactly the build variants |
| `Variants.SafeExactlyWhenPathsObey` | core-c/src/buildup/buildup_search.c:47-55 | skipping operations before their required predecessors is harmless exactly when every accepting path obeys them |
| `Variants.CountedVariantsConserveCells` | core-c/src/buildup/buildup_search.c:600-607 | every counted variant is a real build run that fills exactly the rows it clears |
| `BuildableStream.RealizationsForClearState` | core-c/src/packing/geometry_realization_domain.c:158-237 | the loop lists exactly the realizations that lock in a clear state, in catalog order; with numbered realizations its test for duplicates never drops one |
| `BuildableStream.StepIsPlacement` | core-c/src/buildup/buildup_geometry_transition.c:101-310 | a successful step with an instantiated realization is a placement of the feasibility problem and leads to the same board and clear state |
| `BuildableStream.PathIsBuild` | core-c/src/buildup/buildup_search.c:79-313 | every accepting move sequence of the build-up search is a build of the feasibility problem |
| `BuildableStream.ObeyedPredecessorsAreSafe` | core-c/src/packing/geometry_buildable_stream.c:102-116 | required predecessors that every build obeys never make the build-up search skip a build |
| `BuildableStream.InfeasibleHasNoVariant` | core-c/src/packing/geometry_buildable_stream.c:82-88 | a candidate without a build has no variant under any piece supply and reachability |
| `BuildableStream.Exists` | core-c/src/buildup/buildup_worker.c:388-435 | from safe predecessors the existence search finds exactly the candidates with placements, admitted by the window and the bag pattern, that can be built |
| `BuildableStream.ConsumePath` | core-c/src/packing/geometry_buildable_stream.c:55-126 | a candidate is accepted exactly when the window and the bag pattern admit it and some sequence of placements with available pieces builds it, whatever the verdict and whether or not an infeasible one may drop it |
| `GeometryExport.FinalizeLayout` | core-c/src/buildup/buildup_geometry_dag.c:613-650 | dense indices for the root and the live nodes in arena order, with exact node and edge counts |
| `GeometryExport.Export` | core-c/src/buildup/buildup_geometry_dag.c:845-935 | one record per exported node with its depth and one contiguous slice of its live edges |
| `GeometryExport.SliceOfNode` | core-c/src/buildup/buildup_geometry_dag.c:892-930 | the slice of a node holds exactly its live edges in order |
| `GeometryExport.LiveMeansAccepting` | core-c/src/buildup/buildup_geometry_dag.c:494-498 | a node is live exactly when an accepting node can be reached |
| `GeometryExport.WordsArePaths` | core-c/src/buildup/buildup_geometry_dag.c:485-605 | the paths from a DAG node are exactly the accepting move sequences from its state |
| `GeometryExport.ExportKeepsWords` | core-c/src/buildup/buildup_geometry_dag.c:845-935 | the accepting paths of an exported node are exactly those of its DAG node, in order |
| `GeometryExport.ExportedLanguage` | core-c/src/buildup/buildup_geometry_dag.c:845-935 | the export of a finished DAG is well formed, and its record of a node spells exactly the accepting move sequences from that state |
| `GeometryExport.EdgesRaiseDepth` | core-c/src/buildup/buildup_geometry_dag.c:898-917 | every exported edge leads one level deeper |
| `QueueStream.VariantIsRun` | core-c/src/buildup/buildup_search.c:151-300 | the hold states of a variant are a run of the hold automaton that plays its pieces |
| `QueueStream.VariantUsesQueue` | core-c/src/buildup/buildup_search.c:151-300 | what a variant plays and holds in the end is exactly what it has drawn from the queue, and its bag is exact from the first draw on |
| `QueueStream.CountFromQueue` | core-c/src/buildup/buildup_search.c:79-313 | the search over a queue counts and retains exactly the variants of the candidate, each of which takes its pieces from the queue |
| `QueueStream.ConsumeFromQueue` | core-c/src/buildup/buildup_worker.c:22-53 | a candidate is accepted from a queue exactly when the window admits it, a queue from bags keeps to them and some order of placements with hold builds it |
| `HoldQueue.RefreshBag` | core-c/src/buildup/hold_queue_verifier.c:241-266 | epoch and packed remainder are those of the queue from the cursor to the end of its bag |
| `HoldQueue.LeftFits` | core-c/src/buildup/hold_queue_verifier.c:237-241 | no four-bit field of a remainder overflows |
| `HoldQueue.TakeIsExact` | core-c/src/buildup/hold_queue_verifier.c:268-279 | from an exact key the next piece can be taken, and within a bag the result is the exact key one position on |
| `HoldQueue.ConsumeBag` | core-c/src/buildup/hold_queue_verifier.c:281-332 | the loop computes the incremental update of the bag from whatever key, and never fails for draws inside the queue, since a missing piece is found again after a re-read |
| `HoldQueue.ConsumedIsExact` | core-c/src/buildup/hold_queue_verifier.c:281-332 | from an exact key, a zero key or a stale epoch the incremental update equals a recomputation at the new cursor, across bag ends and the queue end |
| `HoldQueue.EnumerateBranches` | core-c/src/buildup/hold_queue_verifier.c:453-543 | from whatever bag, the table holds for every wanted piece exactly its ways, whatever else is wanted; an error exactly for an invalid held piece |
| `HoldQueue.PlaysConservePieces` | core-c/src/supply/hold_automaton.c:4-45 | what is played and held is what was held and drawn |
| `HoldQueue.RunsConservePieces` | core-c/src/supply/hold_automaton.c:4-45 | along every run of branches, the pieces played and held are those held at the start and drawn since |
| `HoldQueue.RunsKeepTheBag` | core-c/src/buildup/hold_queue_verifier.c:281-332 | along every run of branches from a usable bag, such as the zero key of a new problem, the bag stays usable, and from the first draw on it is what a recomputation gives |
| `HoldQueue.VerifyBagPattern` | core-c/src/buildup/hold_queue_verifier.c:591-641 | a queue drawn from bags passes exactly when it is not empty, holds only the seven pieces and no bag repeats one |
| `TransitionCache.AnswerIsFresh` | core-c/src/buildup/buildup_geometry_transition_cache.c:305-348 | a hit repeats the most recent insert for its key since the last reset, and its trace is of the same insert |
| `TransitionCache.Cache.Lookup` | core-c/src/buildup/buildup_geometry_transition_cache.c:305-348 | returns exactly what the sequence of inserts since the last reset determines |
| `TransitionCache.Cache.Insert` | core-c/src/buildup/buildup_geometry_transition_cache.c:350-406 | appends one insert, replaces its slot and settles its cold stamp; incomplete results are ignored |
| `TransitionCache.Cache.EnsureCold` | core-c/src/buildup/buildup_geometry_transition_cache.c:209-236 | a late sidecar changes no answer |
| `TransitionCache.Cache.AdvanceEpoch` | core-c/src/buildup/buildup_geometry_transition_cache.c:125-132 | a new epoch forgets everything, also when the 32-bit counter wraps and only hot stamps are cleared |
| `TransitionCache.Cache.Prepare` | core-c/src/buildup/buildup_geometry_transition_cache.c:134-195 | entries survive or are all forgotten, as asked |
| `CachedStep.StepIgnoresCount` | core-c/src/buildup/buildup_geometry_transition.c:44-100 | a result stored without the number of placed pieces gives the step back for every number |
| `CachedStep.HitIsStep` | core-c/src/buildup/buildup_geometry_transition.c:44-100 | a hit is what the step would compute now |
| `CachedStep.StepThroughCache` | core-c/src/buildup/buildup_geometry_transition.c:44-310 | the cached step is the step, whatever has been inserted and overwritten before, and the cache stays truthful |
| `CachedStep.MovesThroughCache` | core-c/src/buildup/buildup_search.c:216-260 | listing the realizations and trying each through the cache gives exactly the moves of the build-up search |

## Left out

- Cancellation, node and memory budgets, profiling, allocation failure: a completed run is modelled, other statuses make no claim.
- Digests, cache identities and evidence records: hashes are parameters, and nothing is proved about evidence values.
- CoverSearch.RunSearch: assumes that pruning decisions are sound, and that the pivot of a divided search depends on cells and counts alone; neither is proved of the program's propagators, and the first fails for a window with pieces to spare and no family.
- Full-placement domain, bumper, Hall bound, column projection and projection reachability: taken as one decision with a soundness contract in `ExactCover.SoundPolicy`.
- The row filter of `core-c/src/apdp/geometry_apdp.c`: part of that decision; its own soundness is not claimed.
- Solution family internals: append, union and product are the set operations.
- Residual memo internals: a partial map that may refuse an entry.
- Reachability and kick search, piece shapes, trace and kick evidence copying: parameters or dropped.
- Standard bag automaton draws: only concrete queues are modelled.
- Root transition cache of the direct search and the operation variant cache: not modelled, transitions are computed anew.
- Catalog sorting and skeleton grouping: they would only add easier members.
- Memory scopes, release queue, GPU buffers and context teardown: outside the two engines.
- Board128, Board256 and GPU descriptors: they repeat the 64-bit code.
- Counters of 64 bits: variant counts are unbounded, so the overflow exit of the count is not modelled.
- Feasibility.Workspace.EnsureCapacity: always keeps three planes; the code allocates one when no row can be cleared.
- Realization.DeletedRowsForState: the search uses its value as a function of the compiled contributors (`Feasibility.Formula`) and does not call the loop.
- CoverSearch.Search.Enumerate: a table that runs out of memory in the middle, and the rollback after it, are not modelled.
- CoverSearch.Search.TryComposition: falls back to branching when there is no room for a table, but not from the middle of an enumeration.
- ComponentTable.SelectPivot: counts the feasible rows of a cell over all rows instead of over its slice.
- VariantSearch.Search.RecordSuccess: the exits for an overflow of the 64-bit count and for the count limit are not modelled.
- BuildableStream.ConsumePath: which supplies keep to a bag pattern is a parameter, settled for queues by `QueueStream.ConsumeFromQueue`; ends with the answer; materialising and publishing the candidate, and the statuses of a search that did not complete, are not modelled.
- BuildableStream.RealizationsForClearState: the bound on the number of variants is not modelled; that a catalog numbers its realizations is assumed.
- HoldQueue.VerifyBagPattern: an incomplete piece source and the standard bag automaton end with other statuses, which are not modelled.
- CompletionMemo.Memo.Insert: choosing a capacity and keeping probe statistics are not modelled; every positive capacity is covered.
- TransitionCache.Cache.Prepare: a change of capacity starts a new cache.
- NodeIndex.Index.GrowBestEffort: bucket chains are sequences, newest first, instead of linked nodes.
