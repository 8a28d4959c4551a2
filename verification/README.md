# Infomap: what the incremental forms must equal

Infomap clusters a flow network by moving nodes between modules until a codelength stops falling.
It is fast because it never recomputes what it can update: module flows, codelength sums, the index of
modules per physical node, layer maps, aggregated links and link rows are all kept up to date step by
step. This project models that machinery and proves that the fast forms agree with short from-scratch
definitions in every reachable state.

Flows are real numbers. `Code.PLogP` is an arbitrary function, with `PLogP(0) == 0` where an empty
module is dropped; only `TreeCodelength` and `LossyMeaning` assume a logarithm behind it. Link weights in
the link store have an arbitrary addition, so that equal results there mean equal bits. Random choices
(order of visits, extra candidates) are nondeterministic, so what is proved holds for all of them; given
these choices and the module each node chooses, `Sweeps` and `SearchSteps` determine every later state.

## Files

| files | what they model |
|---|---|
| `Sums`, `FlowNetwork`, `Partitions` | sums over the members of a module; flow data of a module from scratch; the objective of a partition; termination measures |
| `MapEquation`, `BiasedMapEquation` | the codelength terms, predicted and hoisted deltas, updates, and the terms for the number of modules |
| `LinkTables`, `Sweeps`, `Optimizer` | link flow around a node, what a visit, a sweep and the core loop may do, best moves with drag-along, the serial and the parallel sweep, consolidation and restore |
| `Consolidation` | the network of modules as an exact quotient |
| `SearchSteps`, `TwoLevelSearch`, `SuperLevels`, `RecursivePartition`, `DepthBias` | repeated aggregation, fine and coarse tuning, super modules, the recursive task graph, what its depth bias can do |
| `BoundaryFlow`, `FlowTree`, `TreeCodelength` | initial enter and exit flow, aggregation on a tree of any shape, codelength of a tree |
| `MemoryIndex`, `MemMapEquation`, `MemoryConsolidation`, `MemoryOptimizer` | memory networks: the sorted index per physical node, the contributions and their flag, whole runs |
| `LayerTeleports`, `LayerPairs`, `LayerConsolidation`, `RegularizedMultilayer` | regularized multilayer networks: layer maps per module, layered closed form and what it means pair by pair, whole runs |
| `Logarithms`, `LossyMapEquation`, `LossyMeaning`, `LossyOptimizer` | the lossy objective with noise modules, what loss and entropy are, whole runs |
| `Passes` | what a run of passes may make of a network |
| `LinkLists`, `LinkStore` | the flat buffer, the rows and the nested map of a state network |
| `ObjectPool` | the chunk allocator |
| `InfoTree`, `TreeSurgery`, `HardPartition` | linked child lists, splicing, flattening, collapse and restore |

Classes keep the fields the program updates in place; their methods are proved against functions on
values, and the theorems are about those functions. `Exact` says that every kept value equals its
from-scratch value, `Valid` adds what holds of the list of empty modules.

## Where the code does less than its names or comments say

Each of these is proved, with the exact condition wherever the outcome depends on one.

- The list of empty modules keeps its length, but a predefined move pops it without looking which
  module is filled. It goes on naming the empty modules exactly if the filled one is on top
  (`LinkTables.EmptyListNamesMoved`, `LinkTables.EmptyListDrifts`). The parallel sweep rebuilds it.
- The two forms of adding recorded teleportation exchange enter and exit flow of a new module. Their sum is
  the same (`LinkTables.AddTeleportationFlow`, `LinkTables.AddTeleportationFlowToAll`), and the exit part alone
  is used only from the table, where it ranks near-equal candidates (`Optimizers.Optimizer.ChooseMove`).
- The memory update is right exactly if the contribution it uses is the true change; the flag is what makes
  it so (`MemMapEquations.MemMapEquation.UpdateCodelengthOnMovingNode`).
- A fine-tune without effective loops may keep a codelength below that of the tree it leaves in place, by no
  more than the improvement threshold. It keeps the tree's whenever that threshold is no larger than the
  single-node threshold (`TwoLevelSearch.Search.FineTune`); for every smaller single-node threshold below two
  bits, a network with a total flow of one shows the difference (`TreeCodelength.FineTuneCanStayBelow`). A search
  reaches that state when it starts from given modules of single nodes with an aggregation limit of one level,
  where the loop at src/core/InfomapBase.cpp:2531 is not entered before the tuning.
- With the entropy correction on, recomputing a two-level tree differs from the tracked value by a fixed drift
  (`TreeCodelength.DriftIsDifference`). On deeper trees every module of modules below the root adds one codeword
  to it (`TreeCodelength.CorrectionOfTree`), as the comment at src/core/BiasedMapEquation.cpp:152-168 says with
  the root term corrected; the code charges the root for all its children, and the model follows the code.
- In undirected clustering with recorded teleportation, aggregation adds teleportation to every module at
  src/core/InfomapBase.cpp:2478-2490 that the leaves do not get at 2372-2392. Without teleport weights the exit
  flow of a module is then too large by its teleport flow, the root's too, and right exactly if that is zero
  (`FlowTrees.AggregatedIsModuleData`, `FlowTrees.ExcessWithoutWeights`, `FlowTrees.RecordedPairLeaves`).
- Removing a link when rows were already built from the nested map leaves the rows as they were; the store
  stays valid exactly otherwise (`LinkStores.LinkStore.RemoveLink`).
- With the depth bias on, recursion can accept a longer code. On networks it can exactly if a modular solution
  is preferred and the bias one level down is larger than the improvement threshold
  (`DepthBias.NeverLongerExactly`). Sub-searches run without the bias, and without a preferred number of modules,
  because `cloneAsNonMain` at src/io/Config.h:209-295 copies neither. So the switch to one module at
  src/core/InfomapBase.cpp:2272-2290 keeps longer sub-results out unless a modular solution is preferred
  (`DepthBias.SwitchKeepsShort`), and a super level never lets one through (`DepthBias.LevelKeepsShort`).
- A node added after a read has no row until an accepted link or the first conversion to the nested map
  reopens the rows; until then `indexOfId` has no right answer for it (`LinkStores.LateExactly`).
- Teleportation within layers is added whether or not recorded teleportation is switched on
  (src/core/RegularizedMultilayerMapEquation.cpp:338-404), and the closed form counts it in both cases
  (`LayerPairs.InternalsArePairs`).
- The number of aggregated links forgets the duplicates that were merged before a link reopens the rows
  (`LinkStores.TallyIsAll`).

## Model

| member | source | states |
|---|---|---|
| FlowNetwork.ModuleDataMove | src/core/MapEquation.h:429-461 | Moving a node changes the from-scratch data of exactly two modules: the old one loses the node and gets back the flow between them on enter and exit, the new one gains the node and gives that flow up. Links, recorded teleportation and both directions included; every other module is unchanged. |
| FlowNetwork.InternalTeleportMove | src/core/MapEquation.h:265-308 | The recorded teleportation inside a module, T*W less every member's own t*w, changes by the mixed products of the moving node with the remaining members. |
| FlowNetwork.ModuleDataSingle | src/core/InfomapOptimizer.h:372-395 | A module with one member has that member's data, so starting from the nodes' own data is exact. |
| FlowNetwork.ModuleDataEmpty | src/core/InfomapOptimizer.h:1002-1020 | A module without members has no flow at all. |
| FlowNetwork.FlowBetweenSame | src/core/InfomapOptimizer.h:889-902 | Flow between a node and a module depends only on who the members of that module are. |
| Partitions.KeptByMove | src/core/MapEquation.h:429-461 | One move with exact deltas keeps all module data and member counts equal to their from-scratch values. |
| Partitions.KeptSingletons | src/core/InfomapOptimizer.h:372-395 | Nodes' own data, one member each and no empty module are the from-scratch values of the singleton partition. |
| MapEquations.MapEquation.InitNetwork | src/core/MapEquation.h:122-149 | The constant terms are the sum over the leaf nodes and the exit flow of the root. |
| MapEquations.MapEquation.CalculateCodelengthTerms | src/core/MapEquation.h:513-534 | The loop computes each of the five sums of the map equation over the modules. |
| MapEquations.MapEquation.CalculateCodelength | src/core/MapEquation.h:219-232 | Afterwards every term and the codelength are the from-scratch values. |
| MapEquations.DeltaIsExact | src/core/MapEquation.h:310-357 | The predicted change of codelength is the difference of two from-scratch codelengths, after and before. |
| MapEquations.HoistedIsUnhoisted | src/core/MapEquation.h:359-427 | The form with the old side hoisted out of the candidate loop gives the same number for every candidate, in any state of the terms. |
| MapEquations.MapEquation.UpdateCodelengthOnMovingNode | src/core/MapEquation.h:429-461 | The update turns exact terms into exact terms, changes exactly two modules, and moves the codelength by exactly the predicted delta. |
| BiasedMapEquations.NumActiveMoved | src/core/BiasedMapEquation.cpp:184-197 | The branch table for the module count counts exactly the non-empty modules after every move. |
| BiasedMapEquations.BiasedMapEquation.InitPartition | src/core/BiasedMapEquation.cpp:94-137 | The bias terms and the module count start exact. |
| BiasedMapEquations.BiasedMapEquation.UpdateCodelengthOnMovingNode | src/core/BiasedMapEquation.cpp:259-283 | Codelength with bias moves by exactly the predicted delta, and the bias terms again belong to the number of non-empty modules; the count is exact whenever one of the terms is on. |
| BiasedMapEquations.BiasedDeltaIsExact | src/core/BiasedMapEquation.cpp:199-257 | The predicted change with bias terms is the difference of two biased codelengths from scratch, with the number of modules counted anew. |
| BiasedMapEquations.BiasedMapEquation.ConsolidateModules | src/core/BiasedMapEquation.cpp:285-297 | Counting the consolidated modules gives the number that the moves arrived at, and leaves the codelength alone. |
| BiasedMapEquations.BiasParameters.NumModuleCostMeans | src/core/BiasedMapEquation.cpp:103-108 | The cost of the number of modules is zero exactly at the preferred number and grows by one for every module away from it, in both directions. |
| BiasedMapEquations.HoistedBiasedIsUnhoisted | src/core/BiasedMapEquation.cpp:199-257 | Hoisted and unhoisted biased deltas agree for every candidate. |
| LinkTables.TeleportEntry | src/core/MapEquation.h:265-308 | Link flow plus the teleportation entry is all the flow between the node and the module, own module or other. |
| LinkTables.LinkDeltas | src/core/InfomapOptimizer.h:411-445 | The two loops over out- and inlinks with recorded teleportation added give the exact deltas of a given pair of modules. |
| LinkTables.AddTeleportationFlow | src/core/MapEquation.h:265-282 | The form for two given modules adds exactly the teleportation between node and module to the sum of both parts. |
| LinkTables.AddTeleportationFlowToAll | src/core/MapEquation.h:284-308 | The form for the whole table makes every entry exact, although it exchanges the enter and exit parts of new modules, and the exit part is the flow out along links plus what the node teleports to the other members. |
| LinkTables.CollectLinks | src/core/InfomapOptimizer.h:519-553 | The table holds exactly the flow along links. Its modules are those with a link, the node's own, and the modules of the nodes drawn at random, which add no flow. |
| LinkTables.OfferEmptyModule | src/core/InfomapOptimizer.h:545-556 | The last module on the list is offered exactly to a node that is not alone, without flow, and nothing else is added; so a last member is never offered a module without members. |
| LinkTables.CountLinksInto | src/core/InfomapOptimizer.h:632-652 | The number of links between a node and the other members of a module, in either direction, and the node the last of them leads to. |
| LinkTables.EmptyListCounts | src/core/InfomapOptimizer.h:447-453 | The list of empty modules keeps the right length in every move, so the pop never finds it empty. |
| LinkTables.EmptyListNamesMoved | src/core/InfomapOptimizer.h:447-453 | The list still names exactly the empty modules if and only if a module that is filled is the one on top of the list. |
| LinkTables.EmptyListDrifts | src/core/InfomapOptimizer.h:447-453 | Moving three single nodes to the predefined modules 2, 2 and 0, a run from the singletons, ends with a list that names the filled module 0 and not the empty module 1. |
| LinkTables.RandomizedIndexVector | src/core/InfomapOptimizer.h:500-503 | Whatever the random numbers, the order of visits lists every node once. |
| Sweeps.ChosenNearBest | src/core/InfomapOptimizer.h:564-618 | A module that the search may end with costs at most the threshold and is beaten by no module that the node has to be offered by more than twice the threshold. |
| Sweeps.MarkNeighboursDirty | src/core/InfomapOptimizer.h:634-661 | Exactly the nodes joined to the moved one by a link, in either direction, become dirty. |
| Sweeps.QuietSweep | src/core/InfomapOptimizer.h:496-678 | A serial sweep without moves leaves the assignment, and every node that it does not skip in a module that the search may end with: no offered module is better by more than twice the threshold. |
| Sweeps.CommittedMarks | src/core/InfomapOptimizer.h:873-978 | After the commit phase, in any order and with any choices: members and list of empty modules are those of the assignment, and its log has one exact commit for every accepted proposal, which skipped the recheck exactly if its modules were untouched. |
| Sweeps.QuietSweepStays | src/core/InfomapOptimizer.h:464-494 | A sweep of either kind that reports no moves leaves the assignment. |
| Sweeps.RunGoesOn | src/core/InfomapOptimizer.h:477-491 | The core loop: an effective sweep goes on unless it uses up the limit, and any other sweep ends the run. |
| Optimizers.Optimizer.CodelengthIsObjective | src/core/MapEquation.h:227-232 | In every state the tracked codelength is the objective computed from scratch on the current assignment. |
| Optimizers.Optimizer.InitPartition | src/core/InfomapOptimizer.h:372-395 | Every incrementally kept value starts exact, with each node in a module of its own. |
| Optimizers.Optimizer.CommitMove | src/core/InfomapOptimizer.h:655-668 | A move with exact deltas keeps module data, member counts, terms and bias exact, changes one assignment, and changes the codelength by the prediction. |
| Optimizers.Optimizer.MakeMove | src/core/InfomapOptimizer.h:447-461 | The same with the list of empty modules, whose length stays right. |
| Optimizers.Optimizer.MoveNodeToPredefinedModule | src/core/InfomapOptimizer.h:410-462 | Moves the node, and only it, to the given module, or reports that it is there; everything stays exact. |
| Optimizers.Optimizer.MoveActiveNodesToPredefinedModules | src/core/InfomapOptimizer.h:397-408 | Ends in exactly the given partition, with everything exact, and with the list of empty modules that the run of pops and pushes leaves. |
| Optimizers.Optimizer.CollectDeltas | src/core/InfomapOptimizer.h:519-562 | Every candidate of the node comes with all the flow between them and the strength of the connection; its own module, every module it has a link with and an empty one are among them, and no others but random ones. |
| Optimizers.Optimizer.PredictedIsChange | src/core/InfomapOptimizer.h:564-618 | What is predicted for any move of a node, with all bias terms, is the difference of the objective from scratch after and before it. |
| Optimizers.Optimizer.ChooseMove | src/core/InfomapOptimizer.h:564-618 | The search ends with a module that no candidate beats by more than the threshold and that improves by more than the threshold unless it is staying; among near-equals the most strongly connected candidate is preferred, compared by the objective from scratch. A node alone in its module never chooses an empty one. |
| Optimizers.Optimizer.TryMoveNode | src/core/InfomapOptimizer.h:607-665 | A visit leaves the node in, or moves it to, a module that the search may end with, drags along the one node left alone if exactly one link leads there, marks the neighbours of moved nodes dirty, clears the mark of a node that stays, and reports how many moved: the state after it is determined by the choice. |
| Optimizers.Optimizer.TryMoveEachNodeIntoBestModule | src/core/InfomapOptimizer.h:496-678 | A serial sweep visits every node once in any order. It skips a node exactly if the node is not dirty or, in the first loop, shares its module, and the state it ends in is that of the visits one after the other. |
| Optimizers.DeltaStillExact | src/core/InfomapOptimizer.h:889-902 | A delta found on the snapshot is exact on the current assignment as long as the members of its module are the same. |
| Optimizers.Optimizer.ProposeMoves | src/core/InfomapOptimizer.h:714-860 | All proposals are exact against one and the same snapshot and go to modules the search may end with. A node without a proposal was to be skipped, or the search may end with its own module; only such nodes stop being dirty. |
| Optimizers.Optimizer.AcceptMove | src/core/InfomapOptimizer.h:894-905 | A committed move changes the objective from scratch by its prediction, and stamps its two modules as touched in this sweep. |
| Optimizers.Optimizer.CommitProposal | src/core/InfomapOptimizer.h:887-969 | The outcome of every proposal is decided by the assignment it meets: accepted without a recheck exactly if neither module was touched, skipped for an invalid target exactly if the counts refuse it, and otherwise accepted exactly if the recomputed objective improves by more than the threshold. The skip for a changed module is never taken. |
| Optimizers.Optimizer.CommitProposals | src/core/InfomapOptimizer.h:873-978 | The commit phase in any order commits exactly the proposals that pass these tests at the assignment they meet, and counts every outcome. |
| Optimizers.Optimizer.TryMoveEachNodeIntoBestModuleInParallel | src/core/InfomapOptimizer.h:680-999 | For every commit order the final state is that of the proposals tested and committed one after the other, the counts are those of the outcomes, the log replays every commit exactly where it is applied, moved nodes and their neighbours are dirty, and the list of empty modules is rebuilt to name exactly the empty ones. |
| Optimizers.Optimizer.OptimizeActiveNetwork | src/core/InfomapOptimizer.h:464-494 | At least one sweep is made. All but the last moved something and fell by more than the threshold; the last did not, or used up the limit. So many effective loops times the threshold is no more than the codelength can fall to the least objective of any partition, so the loop ends without a limit too. |
| Optimizers.Optimizer.ConsolidateModules | src/core/InfomapOptimizer.h:1002-1089 | The small network stands for the large one, has one node per non-empty module, and its singleton objective is the tracked codelength. |
| Optimizers.Optimizer.RestoreConsolidatedOptimizationPointIfNoImprovement | src/core/InfomapOptimizer.h:1091-1099 | The consolidated terms come back exactly if asked for or if the codelength is not better by more than the threshold. |
| Consolidation.InsertLinkSorted | src/core/InfomapOptimizer.h:1035-1058 | Aggregating a link keeps one entry per pair of modules, in order. |
| Consolidation.SortedMeans | src/core/InfomapOptimizer.h:1035-1058 | In order means by source and then by target, with one entry per pair. |
| Consolidation.ModuleLinksSorted | src/core/InfomapOptimizer.h:1035-1058 | Module links are sorted without duplicates; in undirected clustering each pair has its smaller module first. |
| Consolidation.ModuleLinksInternal | src/core/InfomapOptimizer.h:1035-1058 | Flow inside any group of modules is the flow inside each plus the aggregated flow between them, opposite links merged or not. |
| Consolidation.QuotientTeleport | src/core/MapEquation.h:265-308 | T*W less the members' own products telescopes over two levels. |
| Consolidation.ConsolidatedRepresents | src/core/InfomapOptimizer.h:1002-1089 | Exact quotient: every further grouping of the modules has the flow data that the same grouping of the nodes below has. |
| Consolidation.RepresentsCompose | src/core/InfomapOptimizer.h:1002-1089 | Consolidating twice is an exact quotient of the original nodes. |
| Consolidation.ObjectiveRepresented | src/core/InfomapOptimizer.h:1002-1089 | A grouping of the small network has the objective of the same grouping of the large one, although it offers fewer modules. |
| Consolidation.ConsolidatedObjective | src/core/InfomapOptimizer.h:1002-1089 | Starting over on the modules reproduces the codelength; dropped empty modules contribute nothing. |
| Consolidation.NumberModules | src/core/InfomapOptimizer.h:1008-1028 | Module nodes are allocated exactly for modules with members, numbered by first appearance. |
| Consolidation.AggregateModuleLinks | src/core/InfomapOptimizer.h:1035-1058 | The loop over the edges computes the aggregated links. |
| Partitions.ObjectiveOfSingletons | src/core/InfomapOptimizer.h:372-395 | With every node alone the objective does not depend on the names of the modules. |
| Partitions.ImprovementMerges | src/core/InfomapBase.cpp:2531-2560 | A codelength that differs from the singleton start needs strictly fewer modules than nodes. |
| Partitions.ObjectiveBounded | src/core/InfomapBase.cpp:2226-2265 | The objective of every partition of a network lies between a lowest and a highest value. |
| Partitions.ObjectiveAttained | src/core/InfomapBase.cpp:2226-2265 | Some partition has the lowest of these values and some partition the highest, so there is a least and a greatest objective. |
| TwoLevelSearch.Search.OptimizeTopNetwork | src/core/InfomapBase.cpp:2531-2553 | A round runs the core loop on the modules from single nodes. What it reaches becomes the top modules exactly if there were none before or it is better by more than the threshold, and then there are strictly fewer; otherwise the tree and the consolidated terms are restored. |
| TwoLevelSearch.Search.FindTopModulesRepeatedly | src/core/InfomapBase.cpp:2519-2563 | Rounds are made until one does not improve, one module is left or the level limit is reached, each from where the one before ended; the number of levels reported is that of the rounds that improved. It terminates because the number of top modules falls, and ends at the objective of the leaf assignment. |
| TwoLevelSearch.Search.FineTune | src/core/InfomapBase.cpp:2568-2604 | The core loop runs on the leaf nodes from the top modules. With an effective loop what it reaches becomes the tree. Without one the tree is unchanged, and the codelength kept is the tree's own if and only if the terms were restored, which depends on the codelength the sweeps reached; it always is if the improvement threshold is no larger than the single-node threshold. |
| TwoLevelSearch.Search.FormerModules | src/core/InfomapBase.cpp:2665-2672 | The former module of each sub-module puts the leaf nodes back exactly where they were. |
| TwoLevelSearch.Search.PutSubModulesBack | src/core/InfomapBase.cpp:2655-2677 | With the sub-modules put back every leaf node is in the module it came from, and the codelength is the objective of the former modules. |
| TwoLevelSearch.Search.CoarseTune | src/core/InfomapBase.cpp:2606-2686 | The sub-modules become nodes, go back to their former modules, and are swept from there; what the core loop reaches becomes the top modules. |
| TwoLevelSearch.Search.Tune | src/core/InfomapBase.cpp:2226-2265 | Fine-tune and coarse-tune in turn, each followed by merging if it had an effective loop, until one module is left, the limit is reached, or a round from the first coarse-tune on does not improve by both tests. All but two of the rounds, times the threshold, fit into what the codelength can fall. |
| TwoLevelSearch.Search.FineRound | src/core/InfomapBase.cpp:2235-2247 | One fine-tune, and merging exactly if it had an effective loop. |
| TwoLevelSearch.Search.CoarseRound | src/core/InfomapBase.cpp:2248-2252 | One coarse-tune, unless it is switched off, and merging exactly if it had an effective loop. |
| SearchSteps.BothTried | src/core/InfomapBase.cpp:2226-2265 | Without a limit and with several modules at the end, at least one fine-tune and one coarse-tune were made. |
| TwoLevelSearch.Search.Partition | src/core/InfomapBase.cpp:2211-2265 | The whole two-level search: modules are found first unless the tree has them, then tuned as above; all but two tuning rounds times the threshold fit between the greatest and the least objective of any partition of the network, and the codelength ends within the threshold of the tree's. |
| BoundaryFlow.InitTeleportFlow | src/core/InfomapBase.cpp:2337-2379 | Starting from zero, teleport data of all leaf nodes and the sum of dangling flow. |
| BoundaryFlow.DanglingMeans | src/core/InfomapBase.cpp:2337-2379 | A node without outlinks, as long as links have flow, is one that no link flow leaves. |
| BoundaryFlow.InitEnterExitFlow | src/core/InfomapBase.cpp:2337-2394 | Enter and exit flow of every leaf node are its link flow and its part of the recorded teleportation. |
| BoundaryFlow.UndirectedBorder | src/core/MapEquation.h:429-461 | Undirected, the incrementally kept enter and exit flow of any module are half of the flow of the links across its border each, less the teleportation inside the module if it is recorded. |
| BoundaryFlow.DirectedBorder | src/core/MapEquation.h:429-461 | Directed, they are the flow of the links out of and into the module plus the recorded teleportation out of and into it. |
| FlowTrees.FlowTree.AggregateUp | src/core/InfomapBase.cpp:2404-2424 | After the post-order pass every node has the sums of the leaves below it. |
| FlowTrees.FlowTree.AddLink | src/core/InfomapBase.cpp:2430-2476 | On a tree of any shape the climb from both ends adds the flow to exactly the modules that contain one end and not the other. |
| FlowTrees.FlowTree.AddRecordedTeleportation | src/core/InfomapBase.cpp:2478-2490 | Recorded teleportation between each module and the rest of the network. |
| FlowTrees.FlowTree.AggregateFlowValuesFromLeafToRoot | src/core/InfomapBase.cpp:2396-2491 | Every module ends with the sums and the border flow of the leaves below it. |
| FlowTrees.RootHasNoBorder | src/core/InfomapBase.cpp:2396-2491 | No link crosses the border of the root. |
| FlowTrees.AggregatedIsModuleData | src/core/InfomapBase.cpp:2396-2491 | The aggregated data of a module on any tree is what the optimizer keeps for the module with the same leaves, on directed networks with a total flow of one. In undirected clustering with recorded teleportation it is larger by an exit and an enter excess, so it is the same exactly where both are zero. |
| FlowTrees.ExcessWithoutWeights | src/core/InfomapBase.cpp:2372-2392 | Without teleport weights, which undirected flow does not set, the enter flow agrees and the exit flow is too large by the module's teleport flow, so it agrees exactly if that is zero. |
| FlowTrees.RecordedPairLeaves | src/core/InfomapBase.cpp:2478-2490 | Two linked nodes with a total flow of one: nothing leaves the root as the optimizer keeps it, and aggregation lets all teleport flow leave it. |
| TreeCodelength.CalcCodelengthOnModuleOfLeafNodes | src/core/MapEquation.h:463-481 | The normalised codelength of a module of leaf nodes equals the expanded sum of logarithms, for flow zero or not negligible. |
| TreeCodelength.CalcCodelengthOnModuleOfModules | src/core/MapEquation.h:483-511 | The loop gives the expanded sum over the enter flows of the children. |
| TreeCodelength.ScoreSuperLevel | src/core/MapEquation.h:463-511 | Scoring modules as leaves with their enter flow for flow equals scoring a module of modules, and both give the expanded sum. |
| TreeCodelength.TransformNodeFlowToEnterFlow | src/core/InfomapBase.cpp:2892-2900 | Flow becomes enter flow, nothing else changes, and the parent gets the sum. |
| TreeCodelength.CalcCodelengthOnTree | src/core/InfomapBase.cpp:2493-2504 | On a tree of any depth the loop over its nodes gives the sum of the codebooks of all modules, each with the correction per child, or of all but the root. |
| TreeCodelength.TreeTotal | src/core/InfomapBase.cpp:2493-2504 | The codebooks of a tree of any depth come to the use of all codebooks less one codeword for every node below the root, each counted once, and are corrected for exactly the number of these nodes. |
| TreeCodelength.CorrectionOfTree | src/core/BiasedMapEquation.cpp:146-169 | The correction of a tree less the tracked one for its modules of leaf nodes: one codeword for the root, one for every module of modules below it, and the leaves the tree has more than the network counts. |
| TreeCodelength.TwoLevelTotal | src/core/InfomapBase.cpp:2493-2504 | On two levels the codebooks come to the map equation of the top modules plus the correction for every module and leaf. |
| TreeCodelength.DriftIsDifference | src/core/BiasedMapEquation.cpp:146-182 | Recomputed less tracked correction is the drift, which is zero when the bias is off. |
| TreeCodelength.Recompute | src/core/InfomapBase.cpp:2493-2504 | Recomputing a tree the search arrived at gives the tracked codelength plus the drift, hence the same value with the bias off. |
| TreeCodelength.FineTuneCanStayBelow | src/core/InfomapBase.cpp:2568-2604 | For every single-node threshold below the improvement threshold and below two bits, a network with a total flow of one on which a fine-tune keeps a codelength strictly below that of the tree it leaves in place. |
| MemoryIndex.FindModuleMemNodes | src/core/MapEquation.h:71-76 | The position of the first entry not below the module; the module is present exactly if it is there. |
| MemoryIndex.RemovedIs | src/core/MemMapEquation.cpp:396-404 | Taking a node out of an entry keeps the row sorted and exact; the entry goes exactly when its last node goes. |
| MemoryIndex.InsertedIs | src/core/MemMapEquation.cpp:406-413 | Putting a node in keeps the row sorted and exact, whether the module had an entry or not. |
| MemoryIndex.MemCountsMove | src/core/MemMapEquation.cpp:391-415 | A move changes the number of carriers of exactly the physical nodes the moving node carries. |
| MemMapEquations.MemMapEquation.InitPartitionOfPhysicalNodes | src/core/MemMapEquation.cpp:203-225 | The index starts exact: one row per physical node, sorted, one entry per node that carries it. |
| MemMapEquations.MemMapEquation.CalculateNodeFlowLogNodeFlow | src/core/MemMapEquation.cpp:240-248 | Summing over the rows gives the codewords of the partition, because entries that are absent would add nothing. |
| MemMapEquations.MemMapEquation.InitPartition | src/core/MemMapEquation.cpp:64-69 | Index, codewords and terms start exact and the flag is cleared. |
| MemMapEquations.MemMapEquation.AddMemoryContributions | src/core/MemMapEquation.cpp:285-328 | Every module gets exactly the contribution of the physical nodes that it shares with the moving node; exactly the modules that share one are added to the candidates. |
| MemMapEquations.RoutesAgree | src/core/MemMapEquation.cpp:285-456 | The precomputed contributions and those computed during the move both give the true change of the codewords. |
| MemMapEquations.NodeFlowLogMove | src/core/MemMapEquation.cpp:363-389 | The true change is the difference of the from-scratch codewords after and before. |
| MemMapEquations.MemoryDeltaIsExact | src/core/MemMapEquation.cpp:332-361 | The predicted change with memory contributions is the difference of two memory codelengths from scratch, each with the codewords of its own partition. |
| MemMapEquations.MemMapEquation.UpdatePhysicalNodes | src/core/MemMapEquation.cpp:391-415 | The index is exact for the new assignment; the old module is found in every row. |
| MemMapEquations.MemMapEquation.AddMemoryContributionsAndUpdatePhysicalNodes | src/core/MemMapEquation.cpp:417-456 | The same, and the contributions of the move are added to both deltas. |
| MemMapEquations.MemMapEquation.UpdateCodelengthOnMovingNode | src/core/MemMapEquation.cpp:363-389 | Index and terms are always exact afterwards; the codewords are exact if and only if the contribution used is the true change. |
| MemMapEquations.HoistedMemoryIsUnhoisted | src/core/MemMapEquation.cpp:332-361 | Hoisted and unhoisted memory deltas agree for every candidate. |
| MemoryConsolidation.ConsolidatePhysicalNodes | src/core/MemMapEquation.cpp:458-474 | Every entry of the index goes to an existing new node, none twice, and the new nodes carry exactly what their modules carried. |
| MemoryConsolidation.GroupedNodeFlowLog | src/core/MemMapEquation.cpp:458-474 | Every further grouping of the new nodes has the codewords of the same grouping of the old ones. |
| MemoryConsolidation.ConsolidatedMemoryObjective | src/core/MemMapEquation.cpp:458-474 | Starting over on the consolidated memory network reproduces the objective. |
| MemoryOptimizers.MemoryOptimizer.UsedIsTrue | src/core/MemMapEquation.cpp:363-389 | With the flag telling the truth about the deltas, the update uses the true change, whichever route computed it. |
| MemoryOptimizers.MemoryOptimizer.CommitMove | src/core/InfomapOptimizer.h:655-668 | A move keeps everything exact, uses the flag up, and changes the codelength by the prediction when the contributions were precomputed. |
| MemoryOptimizers.MemoryOptimizer.MoveNodeToPredefinedModule | src/core/InfomapOptimizer.h:410-462 | A predefined move with zero contributions is exact because the flag is not set. |
| MemoryOptimizers.MemoryOptimizer.CollectDeltas | src/core/InfomapOptimizer.h:519-562 | All candidates have exact flow, exact contributions and the strength of their connection, and the flag is set; the candidates are the modules that have a link or share a physical node with the node, its own, an empty one, and random ones. |
| MemoryOptimizers.MemoryOptimizer.ChooseMove | src/core/InfomapOptimizer.h:564-618 | The search ends with a module that no candidate beats by more than the threshold and that improves by more than the threshold unless it is staying; among near-equals the most strongly connected candidate is preferred, compared by the memory objective from scratch. |
| MemoryOptimizers.MemoryOptimizer.TryMoveNode | src/core/InfomapOptimizer.h:607-665 | Everything stays exact, and a visit leaves the node in, or moves it to, a module that the search may end with, drags along the one node left alone if exactly one link leads there, marks the neighbours of moved nodes dirty, clears the mark of a node that stays, and reports how many moved: the state after it is determined by the choice. |
| MemoryOptimizers.MemoryOptimizer.TryMoveEachNodeIntoBestModule | src/core/InfomapOptimizer.h:496-678 | A serial sweep on the memory objective visits every node once in any order and skips exactly the nodes that are not dirty or, in the first loop, share their module. |
| MemoryOptimizers.MemoryOptimizer.OptimizeActiveNetwork | src/core/InfomapOptimizer.h:464-494 | At least one sweep is made. All but the last moved something and fell by more than the threshold; the last did not, or used up the limit. So many effective loops times the threshold is no more than the codelength can fall to the least objective of any partition, so the loop ends without a limit too. |
| MemoryOptimizers.MemoryObjectiveBounded | src/core/InfomapBase.cpp:2226-2265 | Some partition has the least memory objective of all. |
| MemoryOptimizers.MemoryOptimizer.ConsolidateModules | src/core/InfomapOptimizer.h:1002-1089 | The small memory network stands for the large one and reproduces the codelength. |
| MemoryOptimizers.MemoryOptimizer.Run | src/core/InfomapBase.cpp:2519-2563 | Any sequence of passes is made up to the first whose modules do not fit its network. Each pass runs the core loop, from single nodes or the given modules, on the network that stands for the first one at the assignment reached so far; the assignment of the original nodes is the composition of all levels, and the tracked codelength is its memory objective from scratch. |
| Passes.FlattenedNext | src/core/InfomapBase.cpp:2553-2560 | Consolidating once more composes the modules of the original nodes with the new ones. |
| LossyMapEquations.ChosenTypes | src/core/LossyMapEquation.cpp:110-134 | The running sums range over exactly the modules whose loss exceeds lambda times their entropy. |
| LossyMapEquations.MinimumOverTypes | src/core/LossyMapEquation.cpp:100-134 | The codelength with one word for the members of every noise module, plus lambda times their entropy: for the chosen types it is the full codelength less the corrections, and for no choice of types is it less. |
| LossyMapEquations.LossyMapEquation.CodelengthIsMinimum | src/core/LossyMapEquation.h:41-49 | In every reachable state the reported rate is the codelength with one word for the members of every noise module, the reported distortion is their entropy, and the reported codelength is the least such sum over all choices of types. |
| LossyMapEquations.LossesAreSaved | src/core/LossyMapEquation.h:23-29 | The losses of the modules typed as noise are what sharing one word among their members takes off the codelength. |
| LossyMeaning.LossIsNaming | src/core/LossyMapEquation.h:129-131 | The loss of a module is what naming its members costs, each in proportion to its share of the flow: minus the sum of p log(p / P). It is never negative. |
| LossyMeaning.WordsOfModules | src/core/LossyMapEquation.cpp:91-134 | With the flow logs of the leaves the visit words of the code are one shared word for every noise module and the words of the members for every other. |
| LossyMeaning.NeighbourWeights | src/core/LossyMapEquation.cpp:64-72 | Outlinks and inlinks are added up per distinct neighbour. |
| LossyMeaning.InitNetwork | src/core/LossyMapEquation.cpp:44-88 | Every leaf gets its flow times the entropy of a step along its links, and the codeword of its flow; the root gets the totals. |
| LossyMeaning.EntropyIsSurprise | src/core/LossyMapEquation.cpp:79-82 | The entropy is the expected surprise of the next node, each neighbour in proportion to its weight, and never negative. |
| LossyMeaning.WritingDoesNotMatter | src/core/LossyMapEquation.cpp:54-62 | It depends only on the weight between the leaf and each other node. |
| LossyMeaning.DirectionDoesNotMatter | src/core/LossyMapEquation.cpp:54-62 | So it does not matter in which direction an undirected link is listed. |
| LossyMeaning.SplittingDoesNotMatter | src/core/LossyMapEquation.cpp:54-62 | Nor whether it is listed once or in parts. |
| LossyMapEquations.LossyMapEquation.InitPartition | src/core/LossyMapEquation.cpp:91-134 | Per-module vectors and sums start exact. |
| LossyMapEquations.LossyMapEquation.UpdateCodelengthOnMovingNode | src/core/LossyMapEquation.cpp:224-264 | Removing and re-adding the terms of two modules keeps every sum exact and changes the codelength by the predicted delta. |
| LossyMapEquations.HoistedLossyIsUnhoisted | src/core/LossyMapEquation.cpp:167-222 | Hoisted and unhoisted lossy deltas agree for every candidate. |
| LossyMapEquations.LossyDeltaIsExact | src/core/LossyMapEquation.cpp:167-222 | The predicted change, corrections included, is the difference of two lossy codelengths from scratch. |
| LossyOptimizers.ConsolidatedLossyObjective | src/core/LossyMapEquation.cpp:266-280 | Starting over on the consolidated network reproduces the lossy objective. |
| LossyOptimizers.LossyObjectiveRepresented | src/core/LossyMapEquation.cpp:266-280 | Every further grouping of the consolidated nodes has the lossy objective of the same grouping of the nodes below. |
| LossyOptimizers.LossyOptimizer.PredictedIsChange | src/core/InfomapOptimizer.h:564-618 | What is predicted for any move is the difference of the lossy objective from scratch after and before it. |
| LossyOptimizers.LossyOptimizer.ChooseMove | src/core/InfomapOptimizer.h:564-618 | The search ends with a module that no candidate beats by more than the threshold and that improves by more than the threshold unless it is staying; among near-equals the most strongly connected candidate is preferred, compared by the lossy objective from scratch. |
| LossyOptimizers.LossyOptimizer.CommitMove | src/core/InfomapOptimizer.h:655-668 | A move with exact deltas keeps flows, entropies and all sums exact and changes the codelength by the prediction. |
| LossyOptimizers.LossyOptimizer.MoveNodeToPredefinedModule | src/core/InfomapOptimizer.h:410-462 | A predefined move lands on the lossy objective, from scratch, of the reassigned partition. |
| LossyOptimizers.LossyOptimizer.TryMoveNode | src/core/InfomapOptimizer.h:607-665 | In terms of the lossy objective, a visit leaves the node in, or moves it to, a module that the search may end with, drags along the one node left alone if exactly one link leads there, marks the neighbours of moved nodes dirty, clears the mark of a node that stays, and reports how many moved: the state after it is determined by the choice. |
| LossyOptimizers.LossyOptimizer.TryMoveEachNodeIntoBestModule | src/core/InfomapOptimizer.h:496-678 | A serial sweep on the lossy objective visits every node once in any order and skips exactly the nodes that are not dirty or, in the first loop, share their module. |
| LossyOptimizers.LossyOptimizer.OptimizeActiveNetwork | src/core/InfomapOptimizer.h:464-494 | At least one sweep is made. All but the last moved something and fell by more than the threshold; the last did not, or used up the limit. So many effective loops times the threshold is no more than the codelength can fall to the least objective of any partition, so the loop ends without a limit too. |
| LossyOptimizers.LossyObjectiveBounded | src/core/InfomapBase.cpp:2226-2265 | Some partition has the least lossy objective of all. |
| LossyOptimizers.LossyOptimizer.ConsolidateModules | src/core/InfomapOptimizer.h:1002-1089 | The consolidated network stands for the one below, carries the sums of its members and reproduces the lossy codelength. |
| LossyOptimizers.LossyOptimizer.Run | src/core/InfomapBase.cpp:2519-2563 | Any sequence of passes is made up to the first whose modules do not fit its network. Each pass runs the core loop, from single nodes or the given modules, on the network that stands for the first one at the assignment reached so far; the assignment of the original nodes is the composition of all levels, and the tracked codelength is its lossy objective from scratch. |
| LayerTeleports.LayeredModuleDataMove | src/core/RegularizedMultilayerMapEquation.cpp:338-404 | A move changes module data by the flow between node and module with the teleportation within every layer included, for exactly two modules. |
| LayerTeleports.LayeredKeptByMove | src/core/RegularizedMultilayerMapEquation.cpp:437-464 | One move with exact deltas keeps the layered closed form of all modules. |
| LayerTeleports.LayeredSingletons | src/core/InfomapOptimizer.h:372-395 | Nodes' own data are the layered closed form of the singleton partition. |
| LayerTeleports.LayerDataEmpty | src/core/FlowData.h:165-200 | The node count of a module in a layer is zero exactly if no member is in the layer, and then its sums are zero too. |
| LayerTeleports.LayerRowMeans | src/core/RegularizedMultilayerMapEquation.cpp:466-488 | The layer map of a module has an entry exactly for the layers of its members. |
| LayerTeleports.RemovedStep | src/core/RegularizedMultilayerMapEquation.cpp:476-488 | Taking a node's layer out of its module finds the entry with enough nodes in it, and erases it exactly when its last node goes. |
| LayerTeleports.AddedStep | src/core/RegularizedMultilayerMapEquation.cpp:466-474 | Adding a node's layer keeps the layer map exact. |
| LayerTeleports.LayerPartsAre | src/core/RegularizedMultilayerMapEquation.cpp:338-404 | Looking up only the layers of the moving node gives the teleportation over all layers. |
| LayerPairs.BetweensArePairs | src/core/RegularizedMultilayerMapEquation.cpp:335-404 | What the layers add to the flow between a node and a module is, pair by pair, what the node and the other members teleport to one another: flow of one times weight of the other, in every layer they share. |
| LayerPairs.InternalsArePairs | src/core/RegularizedMultilayerMapEquation.cpp:335-404 | What the layers take off the boundary flow of a module is the same, summed over all pairs of different members. |
| LayerPairs.LayeredBorder | src/core/RegularizedMultilayerMapEquation.cpp:437-464 | On a network whose nodes count all teleportation within layers, enter and exit flow of a module are the flow of the links across its border plus what its members get from and send to the nodes outside it, in the layers they share. |
| LayerPairs.OneLayerRecorded | src/utils/FlowCalculator.cpp:1064-1087 | The flow calculation gives such a network: every node in one layer, the weights of a layer adding up to one. |
| LayerPairs.LayerExitsArePassed | src/core/RegularizedMultilayerMapEquation.cpp:366-404 | The exit parts of the layers together are what the node sends to the other members. |
| RegularizedMultilayer.RegularizedMultilayerMapEquation.RemoveLayerTeleFlow | src/core/RegularizedMultilayerMapEquation.cpp:476-488 | The old module's layer map becomes that of the members left; nothing is ever missing. |
| RegularizedMultilayer.RegularizedMultilayerMapEquation.AddLayerTeleFlow | src/core/RegularizedMultilayerMapEquation.cpp:466-474 | The new module's layer map becomes that of its members with the node. |
| RegularizedMultilayer.RegularizedMultilayerMapEquation.InitPartitionLayerTeleFlowData | src/core/RegularizedMultilayerMapEquation.cpp:226-235 | Every layer map starts exact. |
| RegularizedMultilayer.RegularizedMultilayerMapEquation.AddTeleportationFlow | src/core/RegularizedMultilayerMapEquation.cpp:335-364 | The form for two given modules makes both deltas exact, layers included. |
| RegularizedMultilayer.RegularizedMultilayerMapEquation.AddTeleportationFlowToAll | src/core/RegularizedMultilayerMapEquation.cpp:366-404 | The form for the table makes the delta of every candidate exact, layers included, and its exit part is the strength of the connection: links, recorded teleportation, and what the node sends to the other members in the layers they share. |
| RegularizedMultilayer.RegularizedMultilayerMapEquation.UpdateCodelengthOnMovingNode | src/core/RegularizedMultilayerMapEquation.cpp:437-464 | Terms, codewords, physical node index and layer maps are all exact afterwards, and the codelength moves by the flow delta less the contribution used. |
| RegularizedMultilayer.LayeredOptimizer.CommitMove | src/core/InfomapOptimizer.h:655-668 | A move with exact layered deltas and the right flag keeps every module at the layered closed form. |
| RegularizedMultilayer.LayeredOptimizer.MoveNodeToPredefinedModule | src/core/InfomapOptimizer.h:410-462 | A predefined move keeps everything exact, layers and memory index included. |
| RegularizedMultilayer.LayeredOptimizer.CollectDeltas | src/core/InfomapOptimizer.h:519-562 | All candidates of a node, which are the modules that have a link or share a physical node with it, its own, an empty one, and random ones, have exact flow over links, recorded teleportation and layers, exact memory contributions, and the strength of their connection. |
| RegularizedMultilayer.LayeredOptimizer.PredictedIsChange | src/core/InfomapOptimizer.h:564-618 | What is predicted for any move is the difference of the layered objective from scratch after and before it. |
| RegularizedMultilayer.LayeredOptimizer.ChooseMove | src/core/InfomapOptimizer.h:564-618 | The search ends with a module that no candidate beats by more than the threshold and that improves by more than the threshold unless it is staying; among near-equals the most strongly connected candidate is preferred, compared by the layered objective from scratch. |
| RegularizedMultilayer.LayeredOptimizer.TryMoveNode | src/core/InfomapOptimizer.h:607-665 | Everything stays exact, and a visit leaves the node in, or moves it to, a module that the search may end with, drags along the one node left alone if exactly one link leads there, marks the neighbours of moved nodes dirty, clears the mark of a node that stays, and reports how many moved: the state after it is determined by the choice. |
| RegularizedMultilayer.LayeredOptimizer.TryMoveEachNodeIntoBestModule | src/core/InfomapOptimizer.h:496-678 | A serial sweep on the layered objective visits every node once in any order and skips exactly the nodes that are not dirty or, in the first loop, share their module. |
| RegularizedMultilayer.LayeredOptimizer.OptimizeActiveNetwork | src/core/InfomapOptimizer.h:464-494 | At least one sweep is made. All but the last moved something and fell by more than the threshold; the last did not, or used up the limit. So many effective loops times the threshold is no more than the codelength can fall to the least objective of any partition, so the loop ends without a limit too. |
| RegularizedMultilayer.LayeredObjectiveBounded | src/core/InfomapBase.cpp:2226-2265 | Some partition has the least layered objective of all. |
| LayerConsolidation.CollectLayers | src/core/RegularizedMultilayerMapEquation.cpp:573-582 | The new node lists each layer of its module once, with the module's sums, in any order. |
| LayerConsolidation.LayeredQuotient | src/core/RegularizedMultilayerMapEquation.cpp:557-583 | Exact quotient with layers: every further grouping of the new nodes has the layered data of the same grouping of the old ones. |
| LayerConsolidation.MembersOfRowSums | src/core/RegularizedMultilayerMapEquation.cpp:557-583 | Summing over members first or over layers first is the same. |
| RegularizedMultilayer.LayeredOptimizer.ConsolidateModules | src/core/RegularizedMultilayerMapEquation.cpp:557-583 | The consolidated layered memory network stands for the one below and reproduces the codelength. |
| RegularizedMultilayer.LayeredOptimizer.Run | src/core/InfomapBase.cpp:2519-2563 | Any sequence of passes is made up to the first whose modules do not fit its network. Each pass runs the core loop, from single nodes or the given modules, on the network that stands for the first one at the assignment reached so far; the assignment of the original nodes is the composition of all levels, and the tracked codelength is its layered objective from scratch. |
| LinkLists.EagerIsFold | src/core/StateNetwork.cpp:167-201 | Eager insertion gives every pair the left fold of its weights in order of arrival; addition is not assumed associative or commutative. |
| LinkLists.SortOrder | src/core/StateNetwork.cpp:482-500 | The order of the sort, ties by arrival. |
| LinkLists.SortingIsStable | src/core/StateNetwork.cpp:482-500 | Sorting keeps the weights of every pair in the order they arrived. |
| LinkLists.SortedEager | src/core/StateNetwork.cpp:482-500 | So sorting the buffer does not change the map it stands for. |
| LinkLists.SortedListing | src/core/StateNetwork.h:234-241 | A strictly sorted list is the listing of its map, every link once. |
| LinkLists.OffsetsMonotone | src/core/StateNetwork.cpp:500-554 | Row offsets are monotone, from zero to the number of links. |
| LinkLists.RowOfLink | src/core/StateNetwork.cpp:500-554 | Every link lies in the row of its source. |
| LinkLists.RowEntries | src/core/StateNetwork.cpp:500-554 | A row is strictly sorted by target and its entries are links with their weights. |
| LinkLists.RowComplete | src/core/StateNetwork.cpp:500-554 | A row has all links of its node and is empty exactly for a dangling node. |
| LinkStores.LinkStore.AddNode | src/core/StateNetwork.cpp:48-71 | Adding a node leaves the links alone. |
| LinkStores.LinkStore.AddLink | src/core/StateNetwork.cpp:115-165 | In buffer and map mode, before and after rows were built: refused, filtered, or the map grows by exactly this link, both ends become nodes, and it is counted. |
| LinkStores.LinkStore.AddLinkToMap | src/core/StateNetwork.cpp:167-201 | The nested map accumulates, and reports whether the pair is new. |
| LinkStores.LinkStore.BuildCsrFromBuffer | src/core/StateNetwork.cpp:482-554 | Sorting and merging the flat buffer gives rows that hold exactly the contents, and the number of merged links. |
| LinkStores.LinkStore.BuildCsrFromMap | src/core/StateNetwork.cpp:581-615 | Writing the nested map out gives rows that hold exactly the contents. |
| LinkStores.LinkStore.FinalizeLinks | src/core/StateNetwork.cpp:465-480 | Builds rows only if there are none, without changing the contents. |
| LinkStores.LinkStore.Definalize | src/core/StateNetwork.cpp:556-579 | Rows moved back into the buffer stand for the same contents, and are counted anew. |
| LinkStores.LinkStore.EnsureMapBuild | src/core/StateNetwork.cpp:617-645 | Turning rows or buffer into the nested map keeps the contents. |
| LinkStores.LinkStore.ForEachLink | src/core/StateNetwork.h:234-241 | A finalizing read builds the rows if they are open, leaves them alone if not, and lists exactly what they hold, which is the contents in strict order. |
| LinkStores.LinkStore.NumLinks | src/core/StateNetwork.h:261-267 | The number of links is the size of the map, in every mode. |
| LinkStores.LinkStore.RemoveLink | src/core/StateNetwork.cpp:219-262 | Removes exactly the given pair; the store stays valid if and only if there were no rows built from the nested map already or nothing was removed. |
| LinkStores.LinkStore.UndirectedToDirected | src/core/StateNetwork.cpp:264-290 | Leaves a directed network alone. Otherwise it adds the reverse of every link that was there before, each once. It stops exactly if the weight of a link between two nodes is refused, and has then added the reversed links before the first refused one. |
| LinkStores.ExpansionMeans | src/core/StateNetwork.cpp:264-290 | Every pair gets the weight of the opposite pair added exactly once. |
| LinkStores.ExpansionSymmetric | src/core/StateNetwork.cpp:264-290 | The expanded store has a link exactly if it has the opposite one, with the same weight if addition is commutative. |
| LinkStores.LinkStore.Run | src/core/StateNetwork.cpp:115-201 | For every interleaving of additions, reads, counts and conversions, reading lists the eager map of the accepted links, bit for bit. The rows behind it are in order of their nodes, row after row, and empty exactly for nodes that no accepted link leaves; the nodes without a row are the late ones. |
| LinkStores.LateExactly | src/core/StateNetwork.cpp:465-480 | A node has no row if and only if it was added while rows were built and nothing, an accepted link or the first conversion to the nested map, reopened them afterwards. |
| LinkStores.TallyIsAll | src/core/StateNetwork.h:242-259 | Links and aggregated links together are all accepted ones, as long as no link reopens rows that were merged; `Run` gives the count in every case. |
| ObjectPools.ObjectPool.LiveIsUsedLessFree | src/core/ObjectPool.h:76-97 | Live objects are the used slots less the free list. |
| ObjectPools.ObjectPool.NextRawSlot | src/core/ObjectPool.h:79-97 | A fresh slot that is not live; a chunk is added exactly if the last one is full. |
| ObjectPools.ObjectPool.Alloc | src/core/ObjectPool.h:104-117 | A live slot is never handed out again, nothing live is moved or changed, and a chunk is added exactly if there is no room. |
| ObjectPools.ObjectPool.Free | src/core/ObjectPool.h:119-127 | Ends exactly one object and makes room for one more; freeing nothing does nothing. |
| ObjectPools.ObjectPool.Reserve | src/core/ObjectPool.h:134-145 | Adds one chunk of just the missing size, and only if the room does not suffice. |
| ObjectPools.ObjectPool.AllocReserved | src/core/ObjectPool.h:104-145 | After a reservation for n, n allocations add no chunk and get n distinct slots that were not live. |
| ObjectPools.ObjectPool.Run | src/core/ObjectPool.h:104-145 | For every history of allocations, deletions and reservations the objects held are exactly those made and not deleted, each in its slot with its value, and no chunk is added as long as the history never asks for more room than there was at the start. |
| InfoTrees.ChildAddedLinked | src/core/InfoNode.cpp:164-177 | Linking in a last child keeps parents, siblings, ends and degrees well formed. |
| InfoTrees.AddChild | src/core/InfoNode.cpp:164-177 | The pointer writes append exactly this child. |
| InfoTrees.SpliceLinked | src/core/InfoNode.cpp:229-267 | Taking a node out and putting its children in its place keeps every list well formed. |
| InfoTrees.ReplaceWithChildren | src/core/InfoNode.cpp:229-267 | The pointer surgery splices the children in place, in order; a leaf or a root stays untouched. |
| TreeSurgery.LiftedMeans | src/core/InfoNode.cpp:214-227 | Lifting the grandchildren keeps the leaves in order and takes one off the height, down to one. |
| TreeSurgery.ReplaceChildrenWithGrandChildren | src/core/InfoNode.cpp:214-227 | Replaces exactly the children that are modules and reports their number. |
| TreeSurgery.LiftedTree | src/core/InfoNode.cpp:214-227 | After the pass the pointers show the lifted tree. |
| TreeSurgery.RemoveModules | src/core/InfomapBase.cpp:2920-2944 | Terminates on ragged trees after one pass per level of modules on the deepest path, with exactly the leaves, in order, below the root. |
| TreeSurgery.RemoveSubModules | src/core/InfomapBase.cpp:2946-2975 | Terminates on ragged trees after one pass per level below the top modules on the deepest path. The root keeps its top modules, each with exactly the leaves that were below it, in order. |
| TreeSurgery.ReplaceChildrenWithOneNode | src/core/InfoNode.cpp:186-212 | Puts one node between root and children and takes their level out; each refusal happens exactly in its own case. |
| TreeSurgery.PutBetween | src/core/InfoNode.cpp:186-212 | The pointers after hanging all children under the new node. |
| HardPartitions.CollapseChildren | src/core/InfoNode.cpp:415-422 | The list of children is put aside whole and counted. |
| HardPartitions.ExpandChildren | src/core/InfoNode.cpp:424-436 | The list put aside comes back, unless there are children, which is an error and changes nothing. |
| HardPartitions.CalcChildDegree | src/core/InfoNode.cpp:349-363 | Walking the siblings counts the list. |
| HardPartitions.RestoreHardPartition | src/core/InfomapBase.cpp:2307-2331 | Every original leaf comes back once, in order, under the parent of its super-leaf, and the counts are right. |
| HardPartitions.RestoredLeaves | src/core/InfomapBase.cpp:2307-2331 | The leaves of the restored tree are what the super-leaves stood for, in order. |
| HardPartitions.OriginalsOnce | src/core/InfomapBase.cpp:2307-2331 | No original leaf comes back twice. |
| RecursivePartition.RunTaskOutcome | src/core/InfomapBase.cpp:3196-3367 | Running one task does not change what will stand in its record. |
| RecursivePartition.StepOutcome | src/core/InfomapBase.cpp:3027-3056 | One step of any schedule keeps the final records and leaves one task less. |
| RecursivePartition.RunTasks | src/core/InfomapBase.cpp:3024-3056 | Every schedule ends with the records of the depth-first recursion, after the same number of steps. |
| RecursivePartition.FlowsAdd | src/core/InfomapBase.cpp:3256-3266 | The flow of a queue of sub-modules counts each of them once. |
| RecursivePartition.LevelSplits | src/core/InfomapBase.cpp:3071-3120 | A list of record trees costs its own level plus the trees of the next. |
| RecursivePartition.AggregateLevels | src/core/InfomapBase.cpp:3071-3125 | The level by level aggregation ends at the settled start plus the index and leaf codelengths of all records, and at the right level; after each level it reports what is settled plus the module codelengths of the level. |
| RecursivePartition.RecordSaves | src/core/InfomapBase.cpp:3230-3275 | With the depth bias off every accepted sub-partition saves more than the threshold. |
| RecursivePartition.GoodSubIsKept | src/core/InfomapBase.cpp:3230-3275 | With the depth bias off a sub-partition that is not trivial and saves more than the threshold is kept, and the records of the module come to no more than it. |
| RecursivePartition.BiasUpToTarget | src/core/InfomapBase.cpp:69-76 | The bias is positive exactly up to the target depth, half a step at the target itself, and every level takes one step off it; without a target or strength it is zero. |
| RecursivePartition.RecursivelyPartition | src/core/InfomapBase.cpp:2994-3129 | The total over any schedule. It never exceeds the start if the bias one level below the start is no larger than the threshold, and with the bias off it falls by the threshold for every accepted sub-partition. |
| RecursivePartition.RecordShort | src/core/InfomapBase.cpp:3230-3275 | A task whose accepted sub-partitions are not longer than the modules they replace ends no longer than its module, whatever the bias. |
| DepthBias.PhysicalFits | src/core/InfomapBase.cpp:2337-2394 | On every network that starts from link flow, what leaves or enters a half of a module crosses its border or goes between the halves, and no module is entered more than it is visited. |
| DepthBias.CoarseTree | src/core/InfomapBase.cpp:2750-2811 | The tree that stays when the modules below a super level are removed costs more than one level by no more than the super level cost more than the index codebook it replaced. |
| DepthBias.LevelKeepsShort | src/core/InfomapBase.cpp:2750-2811 | So an accepted super level leaves a coarse tree that is shorter than one level by more than the threshold, whatever was found below it. |
| DepthBias.SwitchKeepsShort | src/core/InfomapBase.cpp:2272-2290 | Where a modular solution is not preferred, no run of the recursion on a network ends longer than it started, whatever the bias. |
| DepthBias.BiasLengthens | src/core/InfomapBase.cpp:3240-3246 | Where the bias one level down is larger than the threshold and a modular solution is preferred, a path of four nodes, in a network with a total flow of one, is split into two halves that cost more than the path in one module. |
| DepthBias.NeverLongerExactly | src/core/InfomapBase.cpp:3240-3246 | With given settings no run on any network ends longer than it started if and only if no modular solution is preferred or the bias one level down is no larger than the improvement threshold. |
| SuperLevels.SuperSearch.MergeTopModules | src/core/InfomapBase.cpp:2771-2790 | Merging gives a network that stands for the modules the search started from. |
| SuperLevels.GoesOnMeans | src/core/InfomapBase.cpp:2791-2811 | The search goes on upwards exactly if two pairs of top modules were merged, each into a super module of its own. |
| SuperLevels.SuperSearch.FindHierarchicalSuperModules | src/core/InfomapBase.cpp:2711-2814 | Every added level has strictly fewer top modules whatever made it pass, so it ends, and merges the modules exactly as its search says; each search that added a level passed every test, and the reason given for ending is the test that failed. Without the bias each level shortens the code by more than the threshold. |

## Left out

- Rounding, SIMD batches and NaN: flows are real numbers; only link weights have an arbitrary addition.
- Self-links: dropped before the optimization (src/core/InfomapBase.cpp:1914), so a network here has none.
- Order of candidates, and so the choice among equal ones, and random numbers: nondeterministic.
- Order of links: a node's links are visited in the order of one edge list, not of its own list, and the order of candidates is any order; no sum here depends on it.
- Unsigned wrap-around of counters and ids: natural numbers, shown never to fall below zero where the code decrements.
- TwoLevelSearch.Search.FindSubModules: leaves the sub-modules arbitrary, because the nested search that finds them is another instance of the same program.
- SuperLevels.SuperSearch.FindHierarchicalSuperModules: takes what each nested super search found as a parameter, for the same reason.
- RecursivePartition.RecursivelyPartition: takes the result of a sub-search as a function of the module, as every sub-search starts from the same seed; cancellation of tasks is not modelled.
- FlowTrees.AggregatedIsModuleData: needs a total flow of one on directed networks, which the flow calculation provides.
- LinkStores.LinkStore.AddLink: does not keep running totals of weights and self-links.
- TreeCodelength.TreeTotal: is about trees whose modules hold leaf nodes or modules, not both, which the comment at src/core/InfoNode.h:366 leaves open; `CalcCodelengthOnTree` is about any tree and follows the first child.
- TreeSurgery.RemoveSubModules: does not recompute the codelength of the flattened tree, which `CalcCodelengthOnTree` is for.
- DepthBias.NeverLongerExactly: is without the entropy correction, without recorded teleportation and without the regularized prior on a network without links; what the two-level search of a sub-search finds is any split of its module.
- HardPartitions.RestoreHardPartition: is given the list of leaves that the tree iterator produces.
- Module codelengths stored on the tree at the end of `partition`; its switch to one module is modelled in `DepthBias`, where it decides what sub-searches return.
- The configuration of a sub-search or super search beyond its depth bias and preferred number of modules, and the reparenting of children under a new sub-partition (src/core/InfomapBase.cpp:3267-3340): the tasks keep records and no tree.
- `findHierarchicalSuperModulesFast`, `normalizeTreePaths`, `initTree` and reading of initial partitions.
- Parallel sweeps for the memory, lossy and layered objectives, which the program runs serially.
- Re-indexing of physical nodes and memory networks inside sub-networks (`initPhysicalNodes`).
- Random core loop limits (`randomizeCoreLoopLimit`) and the tuning flag of the core loop limit, which the program never sets.
- Lossy objective of single modules of a tree (`calcCodelength`), and of sub-networks, whose leaves keep the numbers of the full network.
- `MetaMapEquation`, whose content is in a collection class of its own.
- `VectorMap`: the table of deltas is a map whose `add` accumulates.
- Flow calculation, parsing, writers, iterators, logging, configuration and the language bindings.
