# Verification of d4's counters and of the graph code and delta debuggers around them

d4 counts the models of CNF formulas. This project models its search procedures, the data structures they lean on and the
vendored algorithms next to it, and proves what they compute. Formulas, weights and assignments are mathematical values;
objects whose methods update fields are classes, in-place algorithms work on arrays.

**Counting.** `Counting` defines a weighted projected count by recursion over the variables, and `ModelSum` proves it
equal to the sum, over the set of projected models, of the product of literal weights. `Residual`, `Components` and
`Search` prove the laws of the search (units, free variables, separation, branching, caching), `Operation` the arithmetic
on branch results. `DpllCounter` is the counter itself: assumption stack, component search that is suspended when it
finds nothing, decision nodes over several literals, early stop, cache. Its `Run` returns the weighted projected model
count, so caches of either kind, evictions and component search cannot be seen in the result. `ComponentFinder` is the
union-find over variables and clauses, `Caching` the hash tables and `DataInfos` the packed header they compare.

**Other methods on the same semantics.** `MaxSharpSat` (with `MaxCounting` and `MaxResidual`) maximises over one block
and counts the rest, and `ZeroWeights` says when zero weights may be assumed away; `ProjMc` (with `ProjSplit`,
`ProjCover`, `ProjProblem`, and `ProjRun` for the whole way from problem to count) splits mixed clauses with selectors
and counts by a disjoint cover; `Erosion` rewrites soft clauses, which `ClauseReader` reads, so that their models are
centres of Hamming balls. `CounterSetup` builds the counters the other methods call, and `ReferenceOracles` shows that
what is asked of solver, heuristic and encoder can be met.

**Graphs.** `FlowNetwork`, `FlowSearch`, `FlowCutter`: unit flows, residual searches, growing cuts that are minimum cuts.
`ContractionState`, `ContractionGraph`, `ChordalSupergraph`: union-find, rings and compacted arc lists that report
exactly the fill paths. `GreedyOrder`, `ShortcutOrder`, `TreeOrder`, `BackArc`, `IdSort`: elimination orders, reverse
arcs, stable counting sort, over the arc lists of `SimpleGraph`. `EquivExtractor`: fusion of classes that share
variables.

**Circuits and delta debuggers.** `Circuit`, `DimacsEncoder`, `CircuitCount`: the circuit encoder keeps the count, so a
counter run on its output counts accepted inputs. `DeltaLists`, `DeltaDebugger`: the four ddmin modes; `DeltaLevels`
follows one minimisation from level to level, `DeltaHistory` the passes over the clauses from round to round.
`ParallelReduce`, `ParallelShrink`: the multi-threaded clause debugger; its literal-shrinking workers are a state
machine over atomic steps, because what a worker sees of the others depends on the schedule; `ShrinkProposals` follows
what they propose over whole runs, `ShrinkCoverage` which clauses they take up.

`Cnf`, `FiniteSets` and `Wrappers` hold the shared vocabulary.

Four places where the code does less than its names, comments or assertions promise, each with an input and with the exact
condition under which it keeps the promise:

- `compute_greedy_min_shortcut_order` rescores only the neighbours of the contracted node, although other scores can drop
  (`ShortcutOrder.ContractedScore`), so the order need not be greedy in the current scores (`ShortcutOrder.NotGreedy`).
  Keys are exact unless a contraction met two non-adjacent common neighbours (`ShortcutOrder.RecordedExact`,
  `ShortcutOrder.MinimalUnlessStale`), and chordal graphs are exactly those where no order of contractions does
  (`ShortcutOrder.ChordalExact`).
- `qbfdd.py` stops after an unsuccessful reduction round with the comment that no more minimisation is possible, although
  clauses minimised early in the previous pass are not tried again (`DeltaHistory.StopsTooEarly`). No literal is left
  exactly when no candidate refused in the last pass fails next to the final clauses (`DeltaHistory.ResultMinimality`); a
  monotone test guarantees it (`DeltaHistory.MonotoneMinimal`).
- The flow cutter's `init` checks an invariant that holds exactly when the target can be reached from the source
  (`FlowCutter.BasicCutter.Init`, `FlowCutter.StartApart`).
- Max#SAT assumes every literal of weight zero false, which is right exactly when the hidden variables have no such literal
  (`ZeroWeights.ZerosExact`, `ZeroWeights.HiddenZero`); otherwise it solves the formula in which those are false
  (`MaxSharpSat.MaxSharpSAT.Run`).

## Model

| member | source | states |
|---|---|---|
| `DpllCounter.DpllStyleMethod.Run` | src/methods/DpllStyleMethod.hpp:499-557 | the whole run returns the weighted projected model count of the formula, with the cache and the component search on or off |
| `DpllCounter.DpllStyleMethod.Compute` | src/methods/DpllStyleMethod.hpp:499-519 | the count of the residual formula under the assumptions, unless the warm start has refuted the formula, and then 0 |
| `DpllCounter.DpllStyleMethod.Count` | src/methods/DpllStyleMethod.hpp:527-543 | counting under assumptions returns the weighted number of projected models that satisfy them; the stack then holds exactly the given assumptions and the trail is empty |
| `DpllCounter.DpllStyleMethod.Compute_` | src/methods/DpllStyleMethod.hpp:382-431 | returned value times the weight of the reported units and free variables is the residual count; stack and trail are restored; the recursion terminates |
| `DpllCounter.DpllStyleMethod.ComputeComponents` | src/methods/DpllStyleMethod.hpp:398-420 | the components together contribute the product of their residual counts |
| `DpllCounter.DpllStyleMethod.ComputeComponent` | src/methods/DpllStyleMethod.hpp:402-415 | a component answered from the cache has the same count as one computed, and takes no decision; within the size limit the cache holds the answer afterwards, and every cached answer stays right |
| `DpllCounter.DpllStyleMethod.ComputeDecisionNode` | src/methods/DpllStyleMethod.hpp:439-486 | the branches of a multi-literal decision node sum to the count of the component |
| `DpllCounter.DpllStyleMethod.ComputeBranch` | src/methods/DpllStyleMethod.hpp:452-478 | branch i counts the models that falsify the earlier literals and satisfy literal i; stopping early drops only a remainder that counts 0 |
| `DpllCounter.DpllStyleMethod.ComputeConnectedComponent` | src/methods/DpllStyleMethod.hpp:336-369 | whether or not component search is suspended, the result is a split of the open variables; it is the finest one unless the search was suspended and no retry is due; when the search is suspended and when it resumes is stated exactly |
| `Search.ScaledIsCount` | src/methods/DpllStyleMethod.hpp:382-431 | units, free variables, hidden ones expelled, and component counts recombine to the residual count |
| `Search.AfterUnits` | src/methods/DpllStyleMethod.hpp:382-396 | once the units are on the trail the variables left are closed under the open clauses and smaller in number |
| `Search.BranchReady` | src/methods/DpllStyleMethod.hpp:452-466 | each iteration pushes assumptions on an unassigned decision literal, so the recursive call is made in a legal state |
| `Search.BranchCounted` | src/methods/DpllStyleMethod.hpp:452-478 | counting branch i moves exactly its share from what remains to the sum so far |
| `Search.FreshEntrySound` | src/methods/DpllStyleMethod.hpp:402-415 | an entry stored for one component answers every component with the same encoding |
| `Search.WholeCount` | src/methods/DpllStyleMethod.hpp:499-519 | counting all variables without assumptions is counting the models of the input |
| `ModelSum.CountIsModelSum` | src/problem/ProblemManager.hpp:206-220 | the recursive count used in the proofs is the sum over the set of projected models of the product of their literal weights |
| `Residual.UnitsLaw` | src/methods/DpllStyleMethod.hpp:387-396 | assigning implied literals multiplies the count by their weights |
| `Residual.SplitLaw` | src/methods/CountingOperation.hpp:83-96 | parts that no open clause connects count independently |
| `Residual.FreeLaw` | src/problem/ProblemManager.hpp:206-220 | variables in no open clause contribute the sum of their literal weights each |
| `Residual.BranchLaw` | src/methods/DpllStyleMethod.hpp:452-478 | the two values of a projected literal split the count |
| `Residual.HiddenLaw` | src/methods/DpllStyleMethod.hpp:445-450 | with no projected variable left, a satisfiable rest counts 1 |
| `Residual.SameOpenClausesSameCount` | src/methods/DpllStyleMethod.hpp:402-415 | the count of a component depends on its variables and its open clauses only |
| `Counting.Sum` | src/methods/CountingOperation.hpp:61-73 | counts of alternatives that no projected assignment shares add up |
| `Counting.Product` | src/methods/CountingOperation.hpp:83-96 | counts of variable-disjoint factors multiply |
| `Components.ComponentsMultiply` | src/methods/CountingOperation.hpp:83-96 | the product of the component counts is the count of their union |
| `Components.SplitCount` | src/methods/DpllStyleMethod.hpp:398-420 | free variables and components together give the count of the open part |
| `Operation.ComputeWeightUnitFree` | src/problem/ProblemManager.hpp:206-220 | the loop computes the product of the weights of all units and free variables |
| `Operation.ManageDeterministOr` | src/methods/CountingOperation.hpp:61-73 | sums the scaled branch values |
| `Operation.ManageDecomposableAnd` | src/methods/CountingOperation.hpp:83-96 | multiplies the component values |
| `Operation.KeptLitsWeight` | src/methods/DpllStyleMethod.hpp:201-211 | expelling hidden literals leaves the weight of the list in the measure where hidden literals weigh 1 |
| `Operation.KeptVarsWeight` | src/methods/DpllStyleMethod.hpp:183-191 | likewise for free variables |
| `ComponentFinder.CnfManager.ComputeConnectedComponent` | src/formulaManager/cnf/CnfManager.cpp:120-220 | the union-find over variables and clauses returns a split that no split refines; all marks, parents and positions are clean again |
| `ComponentFinder.CnfManager.FindRoot` | src/formulaManager/cnf/CnfManager.cpp:120-192 | following and halving parent links reaches the root of the class and keeps all classes |
| `ComponentFinder.CnfManager.Attach` | src/formulaManager/cnf/CnfManager.cpp:137-178 | afterwards clause and variable share a class and nothing that shared one is separated |
| `ComponentFinder.CnfManager.Connect` | src/formulaManager/cnf/CnfManager.cpp:128-184 | after the sweep every unassigned variable shares a class with each open clause that mentions it |
| `ComponentFinder.CnfManager.Collect` | src/formulaManager/cnf/CnfManager.cpp:186-212 | variables are grouped by class; singletons in no open clause are free |
| `ComponentFinder.CnfManager.ComputeTrivialConnectedComponent` | src/formulaManager/FormulaManager.cpp:78-92 | one component with every unassigned variable that some open clause mentions, the others free, is a split |
| `ComponentFinder.FreeVariableIsFree` | src/formulaManager/FormulaManager.cpp:78-92 | a variable in no open clause is free in the sense the count needs |
| `ComponentFinder.LightIsFree` | src/formulaManager/cnf/CnfManager.cpp:186-212 | a class of one variable and no clause belongs to a variable no open clause mentions |
| `Caching.CacheManager.SearchInCache` | src/caching/CacheManager.hpp:203-223 | a due cleaning evicts exactly the candidates it selects and sets the size limit; then a hit, an entry inserted under the same header and data, occurs exactly when such a candidate is left |
| `Caching.CacheManager.AddInCache` | src/caching/CacheManager.hpp:190-198 | the entry becomes a candidate of its hash value and is remembered as inserted; all other candidates stay, except that a no-collision slot is overwritten |
| `Caching.CacheManager.BucketAlreadyExist` | src/caching/CacheList.hpp:85-101 | finds an entry with equal header and data exactly when the candidates hold one |
| `Caching.CacheManager.PushInHashTable` | src/caching/CacheNoCollision.hpp:67-83 | a list gains the entry and keeps the others; a no-collision slot holds the new entry only; candidates of all other slots stay |
| `Caching.CacheManager.RemoveEntry` | src/caching/CacheList.hpp:137-155 | eviction removes exactly the candidates the predicate selects, by in-place compaction or slot reset |
| `Caching.KeepHolds` | src/caching/CacheList.hpp:137-155 | the compacted bucket list has exactly the elements the predicate does not select |
| `DataInfos.PackInjective` | src/caching/DataInfo.cpp:39-50 | packed headers are equal exactly when all four fields are |
| `DataInfos.Unpack` | src/caching/DataInfo.cpp:39-50 | the getters return the packed fields |
| `MaxSharpSat.MaxSharpSAT.Run` | src/methods/MaxSharpSAT.hpp:853-938 | no assignment of the max block scores more than the returned count, and the returned valuation scores exactly it, in the formula where hidden literals of weight zero are false; without such literals that is the given formula |
| `MaxSharpSat.MaxSharpSAT.Compute` | src/methods/MaxSharpSAT.hpp:853-905 | assuming zero-weight literals false and scaling by units and free variables yields the best score under the assumed zeros of hidden variables alone |
| `MaxSharpSat.ZerosIrrelevant` | src/methods/MaxSharpSAT.hpp:869-893 | a best score and valuation found with all literals of weight zero assumed false are best when only those of hidden variables are |
| `MaxSharpSat.ForcedSolved` | src/methods/MaxSharpSAT.hpp:869-893 | assuming the zeros of hidden variables is adding their negations as unit clauses |
| `ZeroWeights.ZerosExact` | src/methods/MaxSharpSAT.hpp:869-893 | assuming the literals of weight zero false keeps the answers of all formulas exactly when every hidden literal weighs something |
| `ZeroWeights.HiddenZero` | src/methods/MaxSharpSAT.hpp:869-893 | a unit clause on a hidden literal of weight zero: the search answers 0 without a valuation, although some valuation scores more |
| `MaxSharpSat.MaxSharpSAT.SearchMaxValuation` | src/methods/MaxSharpSAT.hpp:483-603 | value and valuation, scaled by the reported units and free variables, solve the residual maximisation |
| `MaxSharpSat.MaxSharpSAT.SelectVariable` | src/heuristics/scoringVariable/ScoringMethod.cpp:104-121 | the first open decision variable with the highest score, and none exactly when none is open |
| `MaxSharpSat.MaxSharpSAT.SearchComponent` | src/methods/MaxSharpSAT.hpp:560-579 | a component is solved from the cache, without a decision, or by a decision node whose result the cache holds afterwards |
| `MaxSharpSat.MaxSharpSAT.CountComponent` | src/methods/MaxSharpSAT.hpp:721-729 | the same below the block: a cached count is the count, and a new one is stored |
| `MaxSharpSat.MaxSharpSAT.SearchMaxSharpSatDecision` | src/methods/MaxSharpSAT.hpp:633-683 | the better of the two values of a block variable solves the component; without one it is counted |
| `MaxSharpSat.MaxSharpSAT.CountInd_` | src/methods/MaxSharpSAT.hpp:695-737 | below the block the scaled value is the projected count |
| `MaxSharpSat.MaxSharpSAT.CountIndDecisionNode` | src/methods/MaxSharpSAT.hpp:747-785 | the two values of a counted variable sum to the count of the component |
| `MaxSharpSat.MaxSharpSAT.OrOnMaxVar` | src/methods/MaxSharpSAT.hpp:430-440 | writes exactly the block variables of the given list into the valuation |
| `MaxSharpSat.MaxSharpSAT.FixFree` | src/methods/MaxSharpSAT.hpp:514-522 | free block variables take their heavier literal and multiply the value by it |
| `MaxSharpSat.MaxSharpSAT.FixUnits` | src/methods/MaxSharpSAT.hpp:524-531 | block units are copied into the valuation and weighed on the spot |
| `MaxSharpSat.MaxSharpSAT.AssumeZeros` | src/methods/MaxSharpSAT.hpp:870-883 | the pushed assumptions are exactly the negations of the literals of weight zero; as pushAssumption asserts, no variable is assumed twice |
| `MaxSharpSat.ScaledIsBest` | src/methods/MaxSharpSAT.hpp:483-603 | units, free variables and component results recombine to a best score and a valuation that attains it |
| `MaxSharpSat.DecisionSolved` | src/methods/MaxSharpSAT.hpp:633-683 | comparing the two scaled branches gives the maximum over both |
| `MaxCounting.BestProduct` | src/methods/MaxSharpSAT.hpp:556-590 | the maximum distributes over variable-disjoint parts because scores are not negative |
| `MaxCounting.BestBranch` | src/methods/MaxSharpSAT.hpp:633-683 | the better of the two conditioned maxima is the maximum |
| `MaxCounting.BestOffBlock` | src/methods/MaxSharpSAT.hpp:637-650 | with no block variable left the best score is the projected count |
| `MaxResidual.BestUnits` | src/methods/MaxSharpSAT.hpp:509-547 | assigning implied literals multiplies the best score by their weight and fixes them in the valuation |
| `MaxResidual.BestSplit` | src/methods/MaxSharpSAT.hpp:556-590 | separated parts are maximised independently and their valuations joined |
| `MaxResidual.BestParts` | src/methods/MaxSharpSAT.hpp:509-590 | free variables and components together solve the open part |
| `ProjRun.CountProjected` | src/methods/ProjMCMethod.hpp:86-134 | separation, set-up of solver, component search, cache and inner counter, and run together return the weighted projected model count of the given problem |
| `ProjRun.CountAsWired` | src/methods/ProjMCMethod.hpp:115-130 | with component search and inner counter built on the original problem, as the constructor does it, the whole run returns its weighted projected model count too |
| `ProjMc.ProjMCMethod.Run` | src/methods/ProjMCMethod.hpp:578-586 | the run returns the weighted projected model count of the problem it was built on, split or not |
| `ProjMc.NothingToChoose` | src/methods/ProjMCMethod.hpp:340-352 | without selectors among the variables, as when components are searched on the unsplit formula, no selector is chosen |
| `ProjProblem.SeparateVariables` | src/methods/ProjMCMethod.hpp:86-145 | splitting the clauses keeps the weighted projected model count and yields a well-formed selector structure with at most one new variable per clause |
| `ProjMc.ProjMCMethod.Compute_` | src/methods/ProjMCMethod.hpp:474-571 | the residual count under the assumptions, through units, components, refinement, cover and recursion |
| `ProjMc.ProjMCMethod.CountSingle` | src/methods/ProjMCMethod.hpp:510-571 | one component: extraction of selectors from a model, their refinement to a minimal choice if asked for, then the cover, give its count |
| `ProjMc.ProjMCMethod.CountCover` | src/methods/ProjMCMethod.hpp:530-571 | the inner count plus one recursive call per false selector is the count: every projected assignment is counted once |
| `ProjMc.ProjMCMethod.CountFalsified` | src/methods/ProjMCMethod.hpp:539-562 | a call counts the assignments that satisfy the earlier parts and falsify this one |
| `ProjMc.ProjMCMethod.Refine` | src/methods/ProjMCMethod.hpp:396-464 | true selectors stay true, the chosen ones are satisfiable together throughout, and no false one can be added |
| `ProjMc.ProjMCMethod.ExtractSelectorFalsifiedNProj` | src/methods/ProjMCMethod.hpp:340-367 | selectors whose remainders the model satisfies are true, the others false, each once |
| `ProjMc.ProjMCMethod.AllSat` | src/methods/ProjMCMethod.hpp:348-358 | the scan says exactly whether the model satisfies every remainder of the selector |
| `ProjMc.ProjMCMethod.PushFalsified` | src/methods/ProjMCMethod.hpp:543-554 | the stack gains the negations of the part, and the flag says exactly when the part cannot be falsified |
| `ProjMc.FlipModel` | src/methods/ProjMCMethod.hpp:340-367 | a selector whose remainders hold may be turned true in a model |
| `ProjMc.TrueOnesSuffice` | src/methods/ProjMCMethod.hpp:396-464 | next to a minimal choice every model of the true selectors falsifies the others |
| `ProjCover.CoverStep` | src/methods/ProjMCMethod.hpp:539-562 | the models split into those with the selector false and those that falsify its projected part |
| `ProjCover.ProjectedClausesDecide` | src/methods/ProjMCMethod.hpp:520-538 | with every selector decided, the projected clauses alone decide which projected assignments extend to models |
| `ProjSplit.Splitter.PartitionFormula` | src/methods/ProjMCMethod.hpp:242-277 | clauses are distributed over projected, unprojected and mixed ones, in order |
| `ProjSplit.Splitter.ManageMixedClauses` | src/methods/ProjMCMethod.hpp:285-331 | every mixed clause becomes (part or s) and (not s or rest) with one fresh selector for all clauses with the same part |
| `ProjSplit.PartitionKeeps` | src/methods/ProjMCMethod.hpp:242-277 | the three parts hold exactly the clauses of the formula |
| `ProjSplit.SplitEquivalence` | src/methods/ProjMCMethod.hpp:285-331 | an assignment satisfies the formula exactly when some selector values satisfy the split one |
| `CounterSetup.CountModels` | src/methods/Erosion.hpp:131-150 | a counter with fresh solver, cache and component search, asked for all variables without assumptions, returns the weighted model count of the formula of the round |
| `ReferenceOracles.SettingsExist` | src/methods/DpllStyleMethod.hpp:382-431 | what the counters ask of solver, heuristic and encoder can be met: without a cache for problems of any size, with one for all problems of fewer variables than a header can count bytes |
| `Erosion.RunGiven` | src/methods/Erosion.hpp:104-162 | the lines are the counts for the soft and hard clauses as written, with repeated literals and tautologies: reading them makes them fit the rounds |
| `ClauseReader.ReadClause` | src/problem/cnf/ParserErosionDimacs.cpp:86-97 | after sorting, the one-pass loop recognises exactly the tautologies and otherwise keeps every literal once |
| `ClauseReader.ReadClauses` | src/problem/cnf/ParserErosionDimacs.cpp:86-106 | the clauses read have one literal per variable and the models of the clauses written |
| `Erosion.Run` | src/methods/Erosion.hpp:104-162 | line k of the output is the weighted count of the models all of whose neighbours within Hamming distance k satisfy the soft clauses; the run ends exactly at depth or at the first 0; each count is one of a fresh DPLL counter |
| `Erosion.Erode` | src/methods/Erosion.hpp:41-96 | false is returned exactly when a unit clause is met; otherwise the models are those of all shortened clauses, the clauses are some of them, and none lies within a later one |
| `Erosion.RoundIsBall` | src/methods/Erosion.hpp:41-70 | satisfying all shortened clauses is the same as every assignment within distance 1 satisfying the given ones |
| `Erosion.BallStep` | src/methods/Erosion.hpp:125-162 | a ball of radius k + 1 is good exactly when the balls of radius k around all neighbours are |
| `Erosion.AfterErosion` | src/methods/Erosion.hpp:125-162 | round by round the clauses describe the balls of the current radius, or none is left |
| `Erosion.UnitExhausts` | src/methods/Erosion.hpp:47-60 | a unit clause means that no ball of the next radius is left |
| `Erosion.ReductionKeepsModels` | src/methods/Erosion.hpp:66-94 | clearing subsumed clauses changes no model |
| `Erosion.ErodedCountShrinks` | src/methods/Erosion.hpp:125-162 | with nonnegative weights the counts never increase from round to round |
| `FlowCutter.CurrentCutIsMinimum` | 3rdParty/flowCutter/src/flow_cutter.h:461-471 | the arcs of the current cut are as many as the flow value, and no cut between the sides has fewer |
| `FlowCutter.BasicCutter.Init` | 3rdParty/flowCutter/src/flow_cutter.h:364-383 | the state satisfies the invariant (conserved unit flow between disjoint sides, reachable sets explored, the smaller side closed) exactly when some path leads from the source to the target; the state after the other case is stated too |
| `FlowCutter.StartApart` | 3rdParty/flowCutter/src/flow_cutter.h:364-383 | two separate edges: the target side takes over a node that it does not count as reachable |
| `FlowCutter.AugmentedIfConnected` | 3rdParty/flowCutter/src/flow_cutter.h:586-639 | flow is augmented at the start exactly when the source is connected to the target |
| `FlowCutter.BasicCutter.Advance` | 3rdParty/flowCutter/src/flow_cutter.h:402-431 | keeps all that, adds a node to the sides, ends exactly when the side owns half of the nodes or no head of its front scores above -2^31, and finds a larger cut exactly when the other side reaches the pierced node |
| `FlowCutter.BasicCutter.DoesNextAdvanceIncreaseCut` | 3rdParty/flowCutter/src/flow_cutter.h:435-452 | answers exactly whether the next step ends or pierces a node that the other side reaches |
| `FlowCutter.PierceAugments` | 3rdParty/flowCutter/src/flow_cutter.h:402-452 | flow is augmented after piercing exactly when the other side reached the pierced node before |
| `FlowCutter.BasicCutter.GrowReachableSets` | 3rdParty/flowCutter/src/flow_cutter.h:514-588 | augmenting until the pierced side no longer reaches the other keeps the flow valid and recomputes exactly the reachable nodes; the loop terminates |
| `FlowCutter.BasicCutter.GrowAssimilatedSets` | 3rdParty/flowCutter/src/flow_cutter.h:590-622 | the smaller side takes over all it reaches, its front becomes its cut, the flow value stays |
| `FlowCutter.BasicCutter.AugmentPath` | 3rdParty/flowCutter/src/flow_cutter.h:332-341 | walking the predecessors moves one unit of surplus from the start to the node hit |
| `FlowCutter.BasicCutter.GetCurrentCutSide` | 3rdParty/flowCutter/src/flow_cutter.h:461-471 | returns the side that owns all it reaches, the smaller one if both do |
| `FlowCutter.BasicCutter.SelectPierceNode` | 3rdParty/flowCutter/src/flow_cutter.h:488-506 | returns the head of the first best scored arc of the front that leaves both sides; none exactly when every such head scores -2^31 or less, so with higher scores exactly when there is no such head |
| `FlowCutter.BasicCutter.ShrinkCutFront` | 3rdParty/flowCutter/src/flow_cutter.h:271-282 | keeps exactly the arcs whose head is still outside |
| `FlowCutter.UnitFlow.Increase` | 3rdParty/flowCutter/src/flow_cutter.h:126-135 | one unit more on the arc, one less on its back arc |
| `FlowCutter.UnitFlow.Decrease` | 3rdParty/flowCutter/src/flow_cutter.h:137-145 | one unit less on the arc, one more on its back arc |
| `FlowCutter.AugmentKeeps` | 3rdParty/flowCutter/src/flow_cutter.h:539-576 | an augmentation keeps conservation, disjointness and closedness and raises the flow value by one |
| `FlowCutter.ReachesApart` | 3rdParty/flowCutter/src/flow_cutter.h:514-588 | when one side cannot reach the other, their reachable sets are disjoint |
| `FlowNetwork.FlowBoundsCuts` | 3rdParty/flowCutter/src/flow_cutter.h:625-676 | weak duality: the flow value is at most the size of any cut between the sides |
| `FlowNetwork.SurplusIsCutFlow` | 3rdParty/flowCutter/src/flow_cutter.h:625-676 | the net flow out of a set is the flow across its cut |
| `FlowNetwork.ChangedSurplus` | 3rdParty/flowCutter/src/flow_cutter.h:126-145 | pushing along an arc moves surplus from its head to its tail and changes nothing else |
| `FlowSearch.PseudoDepthFirstSearch` | 3rdParty/flowCutter/src/flow_cutter.h:62-87 | without a hit exactly the nodes reachable by residual arcs are inside; with one the predecessors form a residual tree to it |
| `FlowSearch.BreadthFirstSearch` | 3rdParty/flowCutter/src/flow_cutter.h:90-115 | the same with a queue |
| `ChordalSupergraph.ComputeChordalSupergraph` | 3rdParty/flowCutter/src/contraction_graph.h:166-182 | arc (x, y) is reported, once, exactly when x < y and some path from x to y has all inner nodes before x; the result is the largest upward degree |
| `ChordalSupergraph.NodeContractionGraph.ForallNeighborsThenContractNode` | 3rdParty/flowCutter/src/contraction_graph.h:150-162 | contracting v visits exactly the later ends of fill paths from v |
| `ChordalSupergraph.NeighborsAreFill` | 3rdParty/flowCutter/src/contraction_graph.h:150-162 | neighbours of the contracted class are the later ends of fill paths |
| `ChordalSupergraph.ContractStep` | 3rdParty/flowCutter/src/contraction_graph.h:150-162 | joining the earlier neighbours of v turns the components of the nodes before v into those of the nodes up to v |
| `ChordalSupergraph.LaterNeighborsAdjacent` | 3rdParty/flowCutter/src/contraction_graph.h:166-182 | later neighbours of a node are adjacent: the reported graph is chordal |
| `ChordalSupergraph.EdgesAreFill` | 3rdParty/flowCutter/src/contraction_graph.h:166-182 | the reported graph contains the given one |
| `ContractionGraph.EdgeContractionGraph.ComputeNeighborhoodOf` | 3rdParty/flowCutter/src/contraction_graph.h:26-86 | walks the ring, compacts the arc lists in place and finds exactly the classes related to v; the quotient graph stays described |
| `ContractionGraph.EdgeContractionGraph.CompactAdjacency` | 3rdParty/flowCutter/src/contraction_graph.h:32-68 | one arc list keeps one arc per new neighbour class and nothing else is touched |
| `ContractionGraph.EdgeContractionGraph.RewireArcsFromSecondToFirst` | 3rdParty/flowCutter/src/contraction_graph.h:16-20 | splicing rings and linking parents merges exactly the two classes |
| `ContractionGraph.EdgeContractionGraph.Representative` | 3rdParty/flowCutter/src/contraction_graph.h:70-86 | path compression returns the representative and keeps all classes |
| `ContractionGraph.EdgeContractionGraph.PlaceArcs` | 3rdParty/flowCutter/src/contraction_graph.h:104-128 | the counting sort puts every arc into the range of its tail |
| `ContractionState.Splice` | 3rdParty/flowCutter/src/contraction_graph.h:16-20 | exchanging two successors joins two rings into one |
| `ContractionState.Bypass` | 3rdParty/flowCutter/src/contraction_graph.h:36-60 | skipping emptied nodes leaves a shorter ring |
| `ContractionState.JoinForest` | 3rdParty/flowCutter/src/contraction_graph.h:16-20 | linking one root below the other represents the merged classes |
| `GreedyOrder.ContractNode` | 3rdParty/flowCutter/src/greedy_order.cpp:88-99 | the neighbours of the node become adjacent to each other, the node disappears, lists stay sorted, loop-free and symmetric |
| `GreedyOrder.EliminateNext` | 3rdParty/flowCutter/src/greedy_order.cpp:88-99 | after any sequence of contractions two nodes are adjacent exactly when a path through contracted nodes links them |
| `GreedyOrder.SetUnionAndRemoveElement` | 3rdParty/flowCutter/src/greedy_order.cpp:58-86 | the merge of two sorted lists without two elements, sorted |
| `GreedyOrder.ComputeNumberOfShortcuts` | 3rdParty/flowCutter/src/greedy_order.cpp:102-115 | half of the summed differences is the number of missing pairs among the neighbours |
| `GreedyOrder.PairsTwice` | 3rdParty/flowCutter/src/greedy_order.cpp:102-115 | every missing edge is counted from both ends |
| `GreedyOrder.BuildDynArray` | 3rdParty/flowCutter/src/greedy_order.cpp:12-25 | sorted symmetric lists with exactly the given arcs |
| `GreedyOrder.ComputeGreedyMinDegreeOrder` | 3rdParty/flowCutter/src/greedy_order.cpp:117-141 | every node once, and each has the fewest neighbours in the elimination graph of those before it |
| `ShortcutOrder.ComputeGreedyMinShortcutOrder` | 3rdParty/flowCutter/src/greedy_order.cpp:143-170 | every node once, always a smallest recorded key; the choice has minimal current score exactly unless a stale key hides a smaller one, and at every step on chordal graphs |
| `ShortcutOrder.EliminateByShortcuts` | 3rdParty/flowCutter/src/greedy_order.cpp:156-167 | takes a smallest key; neighbours are scored again, other keys are left as they are |
| `ShortcutOrder.ContractedScore` | 3rdParty/flowCutter/src/greedy_order.cpp:88-115 | contracting a node never raises the score of a node that is not its neighbour, and keeps it exactly when no two non-adjacent nodes are neighbours of both |
| `ShortcutOrder.RecordedExact` | 3rdParty/flowCutter/src/greedy_order.cpp:156-167 | a recorded key is never below the current score, and equal to it exactly when no contraction since the last rescoring lowered it |
| `ShortcutOrder.MinimalUnlessStale` | 3rdParty/flowCutter/src/greedy_order.cpp:156-167 | the node taken has minimal current score exactly when no other node has a smaller one behind a stale key |
| `ShortcutOrder.HoleBefore` | 3rdParty/flowCutter/src/greedy_order.cpp:88-99 | a chordless cycle of the contracted graph stems from one of the graph before |
| `ShortcutOrder.ChordalFresh` | 3rdParty/flowCutter/src/greedy_order.cpp:143-170 | on chordal graphs all recorded keys are exact at every step |
| `ShortcutOrder.ChordalExact` | 3rdParty/flowCutter/src/greedy_order.cpp:143-170 | a graph is chordal exactly when no order of contractions ever makes a recorded key wrong |
| `ShortcutOrder.HoleStales` | 3rdParty/flowCutter/src/greedy_order.cpp:143-170 | contracting the nodes of a chordless cycle up to the last three makes a key wrong |
| `ShortcutOrder.NotGreedy` | 3rdParty/flowCutter/src/greedy_order.cpp:143-170 | on the complete bipartite graph of three and three nodes every run takes, as its second node, one of score 104 although nodes of score 3 are left |
| `TreeOrder.ComputeTreeGraphOrder` | 3rdParty/flowCutter/src/cch_order.h:48-86 | on a tree with two or more nodes every node is placed once, each but the last with exactly one neighbour after it |
| `TreeOrder.PlaceLeaves` | 3rdParty/flowCutter/src/cch_order.h:64-83 | the placed order is a leaf order: every node once, one neighbour later, none for the last |
| `TreeOrder.TakeLeaf` | 3rdParty/flowCutter/src/cch_order.h:64-83 | taking a leaf off a tree leaves a tree |
| `TreeOrder.LeafExists` | 3rdParty/flowCutter/src/cch_order.h:68-83 | a nonempty tree has a node with at most one neighbour, so the stack cannot run empty early |
| `TreeOrder.Lower` | 3rdParty/flowCutter/src/cch_order.h:73-81 | degrees are those in what remains, and the stack holds exactly its leaves |
| `BackArc.ComputeBackArcPermutation` | 3rdParty/flowCutter/src/back_arc.h:10-42 | maps every arc of a simple symmetric graph to its reverse |
| `BackArc.BackArcInvolution` | 3rdParty/flowCutter/src/back_arc.h:33-38 | such a map is an involution without fixed points |
| `BackArc.Adjacent` | 3rdParty/flowCutter/src/back_arc.h:26-38 | after both passes the two copies of an edge stand at positions 2i and 2i + 1 |
| `BackArc.SecondPass` | 3rdParty/flowCutter/src/back_arc.h:26-31 | a stable pass by tail after one by head sorts lexicographically |
| `IdSort.StableSortCopyById` | 3rdParty/flowCutter/src/id_sort.h:10-25 | the output is the concatenation of the buckets of the identifiers |
| `IdSort.SortStable` | 3rdParty/flowCutter/src/id_sort.h:10-25 | each bucket keeps its original order |
| `IdSort.SortAscending` | 3rdParty/flowCutter/src/id_sort.h:10-25 | the output is sorted by identifier |
| `DeltaDebugger.Debugger.Ddmin` | scripts/qbfdd.py:624-818 | in all four modes: ends, returns a sublist that is unchanged or still fails; if two or more items remain no single one can be removed, and none fails alone unless parts are not tried; reference counts are those of the result; every level cuts the list left by the level before into the number of parts its mode asks for |
| `DeltaDebugger.Debugger.TestLevel` | scripts/qbfdd.py:665-797 | parts are tried before complements, and parts not at all in the simple modes; the level keeps the first tried list that fails, and keeps its list if none does |
| `DeltaLevels.LevelsMinimal` | scripts/qbfdd.py:624-645 | a sequence of levels that has ended leaves a list from which no single item can be removed; outside the simple modes no item fails alone either |
| `DeltaLevels.LevelBound` | scripts/qbfdd.py:656-816 | where the number of parts grows there are fewer than twice as many levels as items, whatever fails |
| `DeltaDebugger.Debugger.Rounds` | scripts/qbfdd.py:346-468 | rounds end; the result is unchanged or fails; unless only literals are treated, no single one of two or more clauses can be removed; no literal can be removed either exactly when no refused candidate of the last pass fails next to the final clauses, in particular when the last round changed nothing or the test is monotone |
| `DeltaDebugger.Debugger.MinimizeClauses` | scripts/qbfdd.py:429-467 | a pass treats every clause once against the formula of that moment, and either shortens the failing formula or leaves it as it is |
| `DeltaHistory.PassMinimality` | scripts/qbfdd.py:429-467 | all clauses are minimal after a pass exactly when no candidate refused in it fails in its result |
| `DeltaHistory.ResultMinimality` | scripts/qbfdd.py:346-468 | the same for the result of a whole run and its last pass, across the reduction round in between |
| `DeltaHistory.MonotoneMinimal` | scripts/qbfdd.py:346-468 | if putting literals back into a failing formula keeps it failing, every run ends with minimal clauses |
| `DeltaHistory.StopsTooEarly` | scripts/qbfdd.py:395-403 | a test for which every run from two binary clauses ends although another literal could be removed |
| `DeltaDebugger.Debugger.TestAll` | scripts/qbfdd.py:673-797 | returns the first of the parts, or of their complements, that fails, and none before it does; finds nothing only if none fails or no variable is declared; skipped cached outcomes are those of the test |
| `DeltaDebugger.Debugger.Reduce` | scripts/qbfdd.py:1195-1323 | the kept list is the part or its complement, and the counts are its literal occurrences |
| `DeltaDebugger.Discount` | scripts/qbfdd.py:1213-1236 | takes exactly the dropped literals off the counts and never goes below zero |
| `DeltaLists.OccursPlaces` | scripts/qbfdd.py:1213-1236 | the reference count of a variable is the number of places that hold it or its negation |
| `DeltaDebugger.Split` | scripts/qbfdd.py:1170-1192 | n consecutive nonempty parts that make up the list |
| `DeltaDebugger.GetIndices` | scripts/qbfdd.py:1132-1144 | first positions of the items, which identify the list |
| `DeltaDebugger.Coarser` | scripts/qbfdd.py:806-810 | the inverse modes strictly reduce the number of parts |
| `DeltaLevels.FinestTried` | scripts/qbfdd.py:1238-1240 | at the finest granularity the parts are the single items, and the complements the lists with one item removed |
| `DeltaLists.CandidateShorter` | scripts/qbfdd.py:1170-1192 | every tried list is a nonempty shorter sublist with at least n - 1 items for a complement |
| `DeltaLists.CandidateOccurs` | scripts/qbfdd.py:1213-1240 | literals tried and literals dropped add up to those of the list |
| `ParallelShrink.ShrinkSafe` | scripts/cnfuzzdd2009/mtcnfdd.c:782-852 | under every interleaving, whenever the mutex is free the formula is the original or runs as expected, differs only by literals turned FALSE, and the counters add up to their number |
| `ParallelShrink.ShrinkEnds` | scripts/cnfuzzdd2009/mtcnfdd.c:782-907 | no schedule goes on forever, and one that cannot go on has finished with the mutex free |
| `ParallelShrink.ShrinkForward` | scripts/cnfuzzdd2009/mtcnfdd.c:820-848 | what is FALSE when the mutex is free stays FALSE |
| `ParallelShrink.StepKeeps` | scripts/cnfuzzdd2009/mtcnfdd.c:782-852 | every atomic step of every worker keeps the invariant |
| `ParallelShrink.NoDeadlock` | scripts/cnfuzzdd2009/mtcnfdd.c:820-848 | some worker can move until all have finished |
| `ParallelShrink.SettledStep` | scripts/cnfuzzdd2009/mtcnfdd.c:822-847 | only an accepted proposal changes what the formula settles to, a refused one is undone completely |
| `ParallelShrink.SpawnInv` | scripts/cnfuzzdd2009/mtcnfdd.c:857-890 | the workers start on disjoint ranges |
| `ShrinkCoverage.EveryRowTried` | scripts/cnfuzzdd2009/mtcnfdd.c:782-890 | in a run that has finished, every clause was taken up by some worker, whatever the number of threads |
| `ShrinkCoverage.NoRowTwice` | scripts/cnfuzzdd2009/mtcnfdd.c:782-890 | no clause is ever taken up twice, by one worker or by two |
| `ShrinkProposals.ProposalExact` | scripts/cnfuzzdd2009/mtcnfdd.c:790-816 | over any run, what a worker takes to the shared formula differs from the row it fetched exactly at the literals whose local test succeeded, and every literal that was not FALSE has been tested |
| `ShrinkProposals.PassCloses` | scripts/cnfuzzdd2009/mtcnfdd.c:802-818 | a worker asks for the mutex exactly when some local test of its pass succeeded |
| `ShrinkProposals.CheckedIsProposed` | scripts/cnfuzzdd2009/mtcnfdd.c:820-830 | the row that is checked in the shared formula is the copy that was proposed |
| `ShrinkProposals.SoloShrink` | scripts/cnfuzzdd2009/mtcnfdd.c:782-852 | a single worker never undoes a proposal, every literal it leaves was refused next to the formula of that moment, and every literal granted is FALSE at the end |
| `ShrinkProposals.SoloExists` | scripts/cnfuzzdd2009/mtcnfdd.c:782-852 | such a run exists for every formula and test |
| `ParallelReduce.Reducer.Reduce` | scripts/cnfuzzdd2009/mtcnfdd.c:615-763 | the clauses left are some of the given ones in order and run as expected unless unchanged; the rounds are recorded: widths are halved, the last round on a nonempty list has width 1, and if it removed nothing, as in thorough mode it must, no single clause can be removed; ends |
| `ParallelReduce.LeftRefused` | scripts/cnfuzzdd2009/mtcnfdd.c:560-610 | with one thread every clause a round of width 1 leaves was refused next to the clauses kept at that moment, and every clause it drops was granted |
| `ParallelReduce.Reducer.ReduceRound` | scripts/cnfuzzdd2009/mtcnfdd.c:640-740 | all results together are taken exactly if they run; otherwise a best worker result first and what merges into it; a round removes as many clauses as it says, runs as expected if any, and finds every clause needed if none at width 1 |
| `ParallelReduce.Reducer.ReduceWorker` | scripts/cnfuzzdd2009/mtcnfdd.c:560-610 | a worker decides the windows of its own range one after the other: each is dropped exactly if the formula runs without it next to what was kept before; removals are counted |
| `ParallelReduce.Reducer.TryMerge` | scripts/cnfuzzdd2009/mtcnfdd.c:453-555 | starting from the best result, further removals are kept only if the formula runs as expected; merged down to single slots, every removal of another worker is made or was refused alone; ends for every width |
| `ParallelReduce.Reducer.MergeWindow` | scripts/cnfuzzdd2009/mtcnfdd.c:509-545 | a window is removed from both arrays exactly if the formula runs without it, and otherwise from neither |
| `ParallelReduce.Reducer.MergePass` | scripts/cnfuzzdd2009/mtcnfdd.c:500-548 | a pass tries every listed removal: it is made, or a window of at most that width with it was refused |
| `ParallelReduce.Reducer.CollectRemoved` | scripts/cnfuzzdd2009/mtcnfdd.c:474-490 | lists the removals outside the base range without overrunning its buffer |
| `ParallelReduce.Reducer.Join` | scripts/cnfuzzdd2009/mtcnfdd.c:672-700 | the joined array has all removals of all workers |
| `ParallelReduce.Reducer.Compact` | scripts/cnfuzzdd2009/mtcnfdd.c:745-752 | the remaining clauses move to the front in order |
| `CircuitCount.EncodingCounts` | scripts/circuit_fuzzer/to_dimacs.py:4-61 | with unit weights the model count of the emitted file is the number of input assignments that make all targets true |
| `CircuitCount.ModelsAreInputs` | scripts/circuit_fuzzer/to_dimacs.py:28-61 | models of the file and accepted inputs correspond one to one |
| `DimacsEncoder.GatesToDimacs` | scripts/circuit_fuzzer/to_dimacs.py:4-61 | the emitted clauses are the definitional ones over ids 1..n, and the declared clause count is theirs |
| `DimacsEncoder.DeclaredVariables` | scripts/circuit_fuzzer/to_dimacs.py:8-9 | the declared number of variables is the number of ids exactly when no two gates share an output |
| `DimacsEncoder.GateMeaning` | scripts/circuit_fuzzer/to_dimacs.py:31-57 | the clauses of a gate hold exactly when its output equals the value of its inputs |
| `DimacsEncoder.EncodingMeaning` | scripts/circuit_fuzzer/to_dimacs.py:28-61 | the file is satisfied exactly when all gate equations hold and all targets are true |
| `DimacsEncoder.GetGid` | scripts/circuit_fuzzer/to_dimacs.py:13-21 | known names keep their id, a new one gets the next; the literal is negative exactly for a leading - |
| `DimacsEncoder.LitPolarity` | scripts/circuit_fuzzer/to_dimacs.py:13-21 | a leading - gives the negated literal of the same variable |
| `Circuit.Polarity` | scripts/circuit_fuzzer/gate_list.py:15-20 | a leading - negates a name and nothing else does: it keeps the absolute name and flips the value |
| `Circuit.NegatedValue` | scripts/circuit_fuzzer/gate_list.py:23-28 | negate_name flips the value and keeps the absolute name, unless the name starts with -- |
| `Circuit.NegateTwice` | scripts/circuit_fuzzer/gate_list.py:23-28 | negating twice gives the name back exactly if it does not start with -- |
| `Circuit.GateList.AddGate` | scripts/circuit_fuzzer/gate_list.py:39-54 | the input names are those no gate drives |
| `Circuit.GateList.AddTrueGate` | scripts/circuit_fuzzer/gate_list.py:56-62 | the same after adding a target |
| `Circuit.Determined` | scripts/circuit_fuzzer/gate_list.py:39-54 | in an ordered list the inputs determine every gate |
| `Circuit.EvaluateHolds` | scripts/circuit_fuzzer/gate_list.py:39-54 | evaluating gate by gate satisfies every gate equation |
| `EquivExtractor.FuseClasses` | src/utils/EquivExtractor.cpp:109-147 | the classes end nonempty, disjoint and without duplicates, cover the initial ones, are connected through them, and all marks are cleared |
| `EquivExtractor.FusionIsConnectivity` | src/utils/EquivExtractor.cpp:109-147 | two variables end in one class exactly when a chain of sharing initial classes links them |
| `EquivExtractor.FuseInto` | src/utils/EquivExtractor.cpp:110-137 | restarting after every merge ends with a class disjoint from all later ones |
| `EquivExtractor.DropEmpty` | src/utils/EquivExtractor.cpp:139-147 | compaction keeps exactly the nonempty classes in order |

## Left out

Interfaces given by contracts instead of code:

- The SAT solver (`solve`, `whichAreUnits`, `getModel`), unit detection, warm start, branching heuristics, phases and scores, the bucket encoder: functions of the visible state and a tick that stands for hidden state, with contracts (`solve` decides, units are implied, selected literals are unassigned decision literals on distinct variables and none only if none remain, equal buckets encode equal open clauses, for the components the cache is asked about). `ReferenceOracles.SettingsExist` shows that the contracts can be met.
- The occurrence lists of the formula manager are recomputed as the open clauses containing a literal; their incremental upkeep, pure literal elimination and blocked clause detection are not modelled.
- `ComponentFinder.CnfManager.PreUpdate`: assigns literals only, because the saved stacks, the occurrence upkeep and the in-processing that may add pure literals are not modelled.
- `ComponentFinder.CnfManager.PostUpdate`: unassigns literals only, for the same reason.
- Heaps of the greedy orders are modelled by the keys they hold; `std::sort` by an insertion sort function, `std::set_difference` by counting.

Restrictions and simplifications:

- Weights are exact reals; 32-bit and 64-bit wrap-around of counters, floating-point rounding, time limits and logging are not modelled, and the counters kept for statistics have no stated value. Clauses are nonempty, as the parser demands, and a variable's weight is the sum of its literal weights, as src/problem/cnf/ProblemManagerCnf.cpp sets it.
- Cache memory: release of data blocks and memory limits are not modelled, evictions are.
- `MaxSharpSat.MaxSharpSAT.Run`: valuations are values, not slices of the shared arena; the running bound, the scale, the threshold, greedy and and-node digging only steer phases and reports and are not modelled. Weights are nonnegative; no variable has two literals of weight zero, because the solver wrappers assert that no variable is assumed twice (src/solvers/cnf/WrapperMinisat.cpp, src/solvers/cnf/WrapperGlucose.cpp).
- `ProjMc.ProjMCMethod.Run`: covers two wirings. On the split formula (`ProjRun.CountProjected`) components are searched with the selectors and the inner counter gets the projected clauses, as the comments intend. On the original problem (`ProjRun.CountAsWired`) both are built on all clauses, as the constructor has it (src/methods/ProjMCMethod.hpp, lines 119-121 and 184-191); there the solver, which holds the split clauses, is described by its answers about the original variables, which the split does not change (`ProjSplit.SplitEquivalence`). The early stop of the cover loop cannot occur in the model.
- `ProjRun.CountProjected`: requires a problem with selected variables, for which the method exists.
- `FlowCutter.BasicCutter.GrowAssimilatedSets`: node sets are values that are copied, so sharing between the reachable and the assimilated set is not captured; predecessors are recorded here too.
- `Erosion.Run`: requires one literal per variable and nonempty clauses, which reading establishes (`Erosion.RunGiven`); clause hashes are not used, and tokens and comments of the file format are not part of the model.
- `ChordalSupergraph.ComputeChordalSupergraph`: requires the symmetric graph the code asserts.
- `TreeOrder.ComputeTreeGraphOrder`: requires two nodes; a single node is handled by the caller before this function. Connectedness is stated by cuts, not by a search.
- `DeltaDebugger.Debugger.Ddmin`: QDIMACS compliance (`_update`, `_forall`), quantifier shifting, the one-by-one modes and timeouts are not modelled; the test is deterministic, and lists of indices stand for the strings used as cache keys.
- `ParallelReduce.Reducer.Reduce`: each round uses fresh buffers for the workers; since they read the shared clauses only and write their own copy, their interleaving is not modelled. Start widths are natural numbers; freed memory, files and the renumbering of variables are not modelled.
- `ParallelShrink.ShrinkSafe`: rows are present (reduction has moved the removed ones out), and reading a clause for printing is one step whose outcome the schedule chooses.
- `CircuitCount.EncodingCounts`: requires gates in topological order with distinct outputs; without distinct outputs the declared number of variables is wrong (`DimacsEncoder.DeclaredVariables`). Text output is a list of clauses.
- `EquivExtractor.FuseClasses`: starts from given nonempty classes without duplicates; finding them with the solver is not modelled.

Not modelled at all:

- `QbfCounter`, `MinSharpSAT`, `ExistRandomExist`, the cache server stub, d-DNNF compilation and node managers, Skolem solutions: unfinished, or variants of what is modelled.
- PaToH and its partitioner, `MultiCutter`, `DistanceAwareCutter`, separators and tree decompositions built on the cutter, `getCenterGraph`, path graph orders.
- Parsers, options, factories, demos, signal handling.
