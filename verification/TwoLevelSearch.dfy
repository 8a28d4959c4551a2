/** The two-level search: repeated aggregation of modules, and the tuning loop around it.

    topNetwork is the network of the current top modules and assignment the top module of every
    leaf node. Through every step the top network stands exactly for the leaf network. */
module TwoLevelSearch {
  import opened Sums
  import opened FlowNetwork
  import opened MapEquations
  import opened BiasedMapEquations
  import opened Partitions
  import opened Consolidation
  import opened Optimizers
  import opened LinkTables
  import opened Sweeps
  import opened SearchSteps

  /** Leaf nodes in the same sub-module were in the same module. */
  lemma {:induction false} FormerWithin(former: seq<nat>, subModules: seq<nat>, assignment: seq<nat>)
    requires SubModulesOf(subModules, former) && SameGrouping(assignment, subModules)
    ensures |former| == |assignment| == |subModules|
    ensures forall i, j :: 0 <= i < |assignment| && 0 <= j < |assignment| && assignment[i] == assignment[j] ==>
              former[i] == former[j]
  {
  }

  class Search {
    const optimizer: Optimizer
    const leafNetwork: Network
    const innerParallelization: bool

    var haveModules: bool
    var topNetwork: Network
    var assignment: seq<nat>

    constructor (optimizer: Optimizer, leafNetwork: Network, innerParallelization: bool)
      requires leafNetwork.Valid() && |leafNetwork.nodes| > 0
      ensures this.optimizer == optimizer && this.leafNetwork == leafNetwork
      ensures this.innerParallelization == innerParallelization
      ensures TreeOk() && !haveModules
    {
      this.optimizer, this.leafNetwork, this.innerParallelization := optimizer, leafNetwork, innerParallelization;
      haveModules, topNetwork, assignment := false, leafNetwork, Identity(|leafNetwork.nodes|);
      new;
      RepresentsItself(leafNetwork);
      IdentityOnto(|leafNetwork.nodes|);
    }

    /** The tree below the root: one level of leaves, or one level of modules above them. */
    ghost predicate TreeOk()
      reads this
    {
      && |leafNetwork.nodes| > 0 && leafNetwork.Valid()
      && Represents(leafNetwork, assignment, topNetwork)
      && (!haveModules ==> topNetwork == leafNetwork && assignment == Identity(|leafNetwork.nodes|))
      && |topNetwork.nodes| <= |leafNetwork.nodes| && leafNetwork.Partition(assignment)
      && |topNetwork.nodes| > 0
    }

    ghost predicate Ready()
      reads this, optimizer, optimizer.objective, optimizer.objective.base,
            optimizer.consolidatedObjective, optimizer.consolidatedObjective.base
    {
      && optimizer.Configured() && optimizer.StampsOk()
      && optimizer.objective.base.exitNetworkFlowLog
         == optimizer.objective.base.code.PLogP(optimizer.objective.base.exitNetworkFlow)
      && TreeOk()
      && (haveModules ==>
            && optimizer.consolidatedObjective.GetCodelength()
               == Objective(optimizer.Constants(), leafNetwork, assignment)
            && ConsolidatedReady() && ConsolidatedSetting() == optimizer.Constants())
    }

    ghost predicate ConsolidatedReady()
      reads this, optimizer, optimizer.consolidatedObjective, optimizer.consolidatedObjective.base
    {
      var o := optimizer.consolidatedObjective;
      o.base.exitNetworkFlowLog == o.base.code.PLogP(o.base.exitNetworkFlow)
    }

    function ConsolidatedSetting(): Setting
      reads this, optimizer, optimizer.consolidatedObjective, optimizer.consolidatedObjective.base
    {
      var o := optimizer.consolidatedObjective;
      Setting(o.base.code, o.bias, o.base.exitNetworkFlow, o.base.nodeFlowLogNodeFlow)
    }

    function TreeNow(): TopTree
      reads this
    {
      TopTree(haveModules, topNetwork, assignment)
    }

    function SetupNow(loopLimit: nat, maxLevels: nat): Setup
      reads optimizer, optimizer.objective, optimizer.objective.base
    {
      Setup(optimizer.Constants(), leafNetwork, optimizer.minimumSingleNodeImprovement,
            optimizer.minimumCodelengthImprovement, optimizer.numRandomMoves > 0, innerParallelization, loopLimit,
            maxLevels)
    }

    /** Consolidate the optimizer's partition of the network that stands for the leaf network by
        the given grouping. */
    method Consolidate(grouping: seq<nat>)
      requires optimizer.Exact() && optimizer.StampsOk() && |optimizer.index| > 0 && |leafNetwork.nodes| > 0
      requires Represents(leafNetwork, grouping, optimizer.net)
      modifies this, optimizer.objective, optimizer.consolidatedObjective, optimizer.consolidatedObjective.base
      ensures Ready() && haveModules && optimizer.Constants() == old(optimizer.Constants())
      ensures |topNetwork.nodes| == NumModules(optimizer.net, optimizer.index)
      ensures optimizer.objective.GetCodelength() == old(optimizer.objective.GetCodelength())
      ensures optimizer.objective.GetCodelength() == Objective(optimizer.Constants(), leafNetwork, assignment)
      ensures optimizer.index == old(optimizer.index)
      ensures Grouped(leafNetwork, grouping, optimizer.index, TreeNow())
    {
      hide BiasedMapEquation.Tracks, Kept, Objective, Represents, NumModules, BiasedMapEquation.GetCodelength,
           Optimizer.StampsOk, Optimizer.Configured;
      KeptSizes(optimizer.net, optimizer.index, optimizer.moduleFlowData, optimizer.moduleMembers);
      optimizer.ConstantsOk();
      var small, grouped := optimizer.ConsolidateModules();
      RepresentedSizes(leafNetwork, grouping, optimizer.net);
      RepresentedSizes(optimizer.net, grouped, small);
      ObjectiveOfAggregation(optimizer.Constants(), leafNetwork, grouping, optimizer.net, grouped, small);
      haveModules, topNetwork, assignment := true, small, Compose(grouping, grouped);
      RepresentedSizes(leafNetwork, assignment, topNetwork);
      SameCodelength(optimizer.consolidatedObjective, optimizer.objective, optimizer.moduleFlowData,
          optimizer.moduleMembers);
    }

    /** Reapply the core algorithm on the network of modules, until that no longer helps, one module is left or
        the level limit (0 for none) is reached. Every aggregation after the first has strictly fewer modules,
        which is why this ends. */
    method FindTopModulesRepeatedly(maxLevels: nat, loopLimit: nat, firstLoop: bool)
      returns (numLevelsConsolidated: nat, ghost passes: seq<TopPass>)
      requires Ready()
      requires haveModules ==>
                 optimizer.objective.GetCodelength() == Objective(optimizer.Constants(), leafNetwork, assignment)
      modifies this, optimizer, optimizer.objective, optimizer.objective.base,
               optimizer.consolidatedObjective, optimizer.consolidatedObjective.base
      ensures Ready() && optimizer.Constants() == old(optimizer.Constants())
      ensures TopModulesFound(old(SetupNow(loopLimit, maxLevels)), firstLoop, old(TreeNow()), passes, TreeNow(),
                              numLevelsConsolidated)
      ensures haveModules <==> old(haveModules) || passes != []
      ensures haveModules ==>
                optimizer.objective.GetCodelength() == Objective(optimizer.Constants(), leafNetwork, assignment)
      ensures old(haveModules) ==>
                optimizer.objective.GetCodelength() <= old(optimizer.objective.GetCodelength())
      ensures old(haveModules) ==>
                (|topNetwork.nodes| < old(|topNetwork.nodes|) || assignment == old(assignment))
    {
      hide Objective, Represents, BiasedMapEquation.GetCodelength, Optimizer.Exact, EmptyListOk,
           Optimizer.StampsOk, NumModules, PassesOk, Optimised, Grouped, OptimizerTerrain, Optimizer.Constants,
           Onto, Search.ConsolidatedReady, Optimizer.Configured;
      ghost var setup, start := SetupNow(loopLimit, maxLevels), TreeNow();
      ghost var setting := optimizer.Constants();
      optimizer.ConfiguredParts();
      PassesStart(setup, firstLoop, start);
      numLevelsConsolidated, passes := if haveModules then 1 else 0, [];
      var aggregationLevel := 0;
      while |topNetwork.nodes| > 1 && (maxLevels == 0 || numLevelsConsolidated != maxLevels)
        invariant Ready() && optimizer.Constants() == setting && setting.bias.totalDegree != 0.0
        invariant PassesOk(setup, firstLoop, start, passes, TreeNow()) && !Reverted(passes)
        invariant aggregationLevel == |passes| && numLevelsConsolidated == LevelsOf(start) + |passes|
        invariant haveModules <==> old(haveModules) || passes != []
        invariant haveModules ==>
                    optimizer.objective.GetCodelength() == Objective(setting, leafNetwork, assignment)
        invariant old(haveModules) ==>
                    optimizer.objective.GetCodelength() <= old(optimizer.objective.GetCodelength())
        invariant old(haveModules) ==>
                    (|topNetwork.nodes| < old(|topNetwork.nodes|) || assignment == old(assignment))
        invariant old(haveModules) ==> |topNetwork.nodes| <= old(|topNetwork.nodes|)
        decreases !haveModules, |topNetwork.nodes|
      {
        ghost var before := TreeNow();
        var improved, numLoops;
        ghost var run;
        improved, numLoops, run :=
          OptimizeTopNetwork(if aggregationLevel > 0 then 20 else loopLimit, firstLoop && aggregationLevel == 0, setup,
                             aggregationLevel);
        if !improved {
          ghost var p := TopPass(before, run, numLoops, false, TreeNow());
          PassesGrow(setup, firstLoop, start, passes, p);
          passes := passes + [p];
          break;
        }
        Consolidate(assignment);
        ghost var p := TopPass(before, run, numLoops, true, TreeNow());
        PassesGrow(setup, firstLoop, start, passes, p);
        passes := passes + [p];
        numLevelsConsolidated := numLevelsConsolidated + 1;
        aggregationLevel := aggregationLevel + 1;
      }
    }

    /** One round on the network of the top modules. If there were modules before and the codelength is not
        better than theirs by more than the threshold, their codelength terms are restored. */
    method OptimizeTopNetwork(loopLimit: nat, firstLoop: bool, ghost setup: Setup, ghost aggregationLevel: nat)
      returns (improved: bool, numLoops: nat, ghost run: CoreRun)
      requires Ready() && |topNetwork.nodes| > 1
      requires setup == SetupNow(setup.coreLoopLimit, setup.maxLevels)
      requires loopLimit == setup.LoopLimit(aggregationLevel)
      modifies optimizer, optimizer.objective, optimizer.objective.base
      ensures optimizer.Constants() == old(optimizer.Constants()) && optimizer.StampsOk() && optimizer.Configured()
      ensures optimizer.consolidatedObjective.GetCodelength() == old(optimizer.consolidatedObjective.GetCodelength())
      ensures Optimised(setup, topNetwork, firstLoop, aggregationLevel, FreshState(|topNetwork.nodes|), run, numLoops)
      ensures improved <==>
                !haveModules
                || setup.TerrainOf(topNetwork).objective(run.Last().list.index)
                   < setup.TerrainOf(topNetwork).objective(Identity(|topNetwork.nodes|)) - setup.threshold
      ensures !improved ==> Ready() && haveModules
      ensures !improved ==>
                optimizer.objective.GetCodelength() == Objective(optimizer.Constants(), leafNetwork, assignment)
      ensures improved ==>
                && optimizer.Exact() && optimizer.net == topNetwork && |optimizer.index| == |topNetwork.nodes|
                && Represents(leafNetwork, assignment, topNetwork) && run.Last().list.index == optimizer.index
      ensures improved && haveModules ==>
                && NumModules(topNetwork, optimizer.index) < |topNetwork.nodes|
                && optimizer.objective.GetCodelength() < Objective(optimizer.Constants(), leafNetwork, assignment)
    {
      hide Objective, Represents, BiasedMapEquation.GetCodelength, EmptyListOk, Kept, NumModules,
           BiasedMapEquation.Tracks, OptimizerTerrain, CoreRunOk, FreshState;
      ghost var setting := optimizer.Constants();
      RepresentedSizes(leafNetwork, assignment, topNetwork);
      optimizer.InitPartition(topNetwork);
      numLoops, run := optimizer.OptimizeActiveNetwork(loopLimit, firstLoop, innerParallelization);
      KeptSizes(optimizer.net, optimizer.index, optimizer.moduleFlowData, optimizer.moduleMembers);
      optimizer.CodelengthInTerrain();
      improved := true;
      if haveModules {
        optimizer.CodelengthIsObjective();
        optimizer.ConstantsOk();
        KeptValid(optimizer.net, optimizer.index, optimizer.moduleFlowData, optimizer.moduleMembers);
        ObjectiveOfTop(setting, leafNetwork, assignment, topNetwork);
        TerrainObjective(setting, topNetwork, setup.threshold, setup.random, Identity(|topNetwork.nodes|));
        var restored := optimizer.RestoreConsolidatedOptimizationPointIfNoImprovement(false);
        if restored {
          CopiedCodelength(optimizer.objective, optimizer.consolidatedObjective);
          improved := false;
        } else {
          ImprovementMerges(setting, topNetwork, optimizer.index);
        }
      }
    }

    // ----- Tuning -----

    /** Tune the leaf nodes from the current modules. Without an effective loop the tree stays. The codelength
        terms of the tree come back exactly if the partition the sweeps reached is not better by more than the
        single-node threshold; otherwise the codelength kept is that of the partition reached, and below the
        tree's by no more than the improvement threshold. So it is the tree's whenever the improvement threshold
        is no larger than the single-node threshold. */
    method FineTune(loopLimit: nat, ghost maxLevels: nat)
      returns (numEffectiveLoops: nat, restored: bool, ghost run: CoreRun)
      requires Ready() && haveModules
      modifies this, optimizer, optimizer.objective, optimizer.objective.base,
               optimizer.consolidatedObjective, optimizer.consolidatedObjective.base
      ensures Ready() && haveModules && optimizer.Constants() == old(optimizer.Constants())
      ensures optimizer.Constants().bias.totalDegree != 0.0
      ensures LowestObjective(optimizer.Constants(), leafNetwork) <= optimizer.objective.GetCodelength()
      ensures FineTuned(old(SetupNow(loopLimit, maxLevels)), old(TreeNow()), run, numEffectiveLoops, restored,
                        optimizer.objective.GetCodelength(), TreeNow())
      ensures numEffectiveLoops > 0 ==>
                optimizer.objective.GetCodelength() == Objective(optimizer.Constants(), leafNetwork, assignment)
      ensures numEffectiveLoops == 0 ==>
                && optimizer.objective.GetCodelength() <= Objective(optimizer.Constants(), leafNetwork, assignment)
                && optimizer.objective.GetCodelength()
                   >= Objective(optimizer.Constants(), leafNetwork, assignment) - optimizer.minimumCodelengthImprovement
    {
      hide Objective, Represents, BiasedMapEquation.GetCodelength, EmptyListOk, Kept, NumModules, Grouped,
           BiasedMapEquation.Tracks, LowestObjective, HighestObjective, OptimizerTerrain, CoreRunOk, ListAfter;
      ghost var setting, setup := optimizer.Constants(), SetupNow(loopLimit, maxLevels);
      optimizer.InitPartition(leafNetwork);
      optimizer.MoveActiveNodesToPredefinedModules(assignment);
      optimizer.CodelengthIsObjective();
      numEffectiveLoops, run := optimizer.OptimizeActiveNetwork(loopLimit, false, innerParallelization);
      optimizer.ConstantsOk();
      optimizer.CodelengthInTerrain();
      KeptValid(optimizer.net, optimizer.index, optimizer.moduleFlowData, optimizer.moduleMembers);
      TerrainObjective(setting, leafNetwork, setup.threshold, setup.random, assignment);
      restored := false;
      if numEffectiveLoops == 0 {
        optimizer.CodelengthIsObjective();
        ObjectiveBounded(setting, leafNetwork, optimizer.index);
        ObjectiveBounded(setting, leafNetwork, assignment);
        restored := optimizer.RestoreConsolidatedOptimizationPointIfNoImprovement(false);
        if restored {
          CopiedCodelength(optimizer.objective, optimizer.consolidatedObjective);
        }
      } else {
        KeptSizes(optimizer.net, optimizer.index, optimizer.moduleFlowData, optimizer.moduleMembers);
        RepresentsItself(leafNetwork);
        Consolidate(Identity(|leafNetwork.nodes|));
        ObjectiveBounded(setting, leafNetwork, assignment);
        TerrainObjective(setting, leafNetwork, setup.threshold, setup.random, assignment);
      }
    }

    /** Some partition of every module into sub-modules, named by one of their leaf nodes. The
        program finds it by a search inside each module. */
    method FindSubModules() returns (subModules: seq<nat>)
      requires TreeOk()
      ensures SubModulesOf(subModules, assignment)
    {
      subModules := [];
      for i := 0 to |assignment|
        invariant |subModules| == i
        invariant forall k :: 0 <= k < i ==>
                    subModules[k] < |assignment| && assignment[subModules[k]] == assignment[k]
      {
        assert 0 <= i < |assignment| && assignment[i] == assignment[i];
        var r :| 0 <= r < |assignment| && assignment[r] == assignment[i];
        subModules := subModules + [r];
      }
    }

    /** Make the sub-modules of all modules the top modules. */
    method ConsolidateSubModules() returns (subModules: seq<nat>)
      requires Ready() && haveModules
      modifies this, optimizer, optimizer.objective, optimizer.objective.base,
               optimizer.consolidatedObjective, optimizer.consolidatedObjective.base
      ensures Ready() && haveModules && optimizer.Constants() == old(optimizer.Constants())
      ensures SubModulesOf(subModules, old(assignment)) && SameGrouping(assignment, subModules)
      ensures Grouped(leafNetwork, Identity(|leafNetwork.nodes|), subModules, TreeNow())
    {
      hide Objective, Represents, BiasedMapEquation.GetCodelength, EmptyListOk, Kept, NumModules,
           BiasedMapEquation.Tracks;
      subModules := FindSubModules();
      optimizer.InitPartition(leafNetwork);
      optimizer.MoveActiveNodesToPredefinedModules(subModules);
      RepresentsItself(leafNetwork);
      Consolidate(Identity(|leafNetwork.nodes|));
    }

    /** Put the sub-modules back into the former modules: the optimizer has the sub-modules for its nodes, every
        leaf node is back in the module it came from, and the codelength is that of the former modules. */
    method PutSubModulesBack() returns (subModules: seq<nat>, modules: seq<nat>)
      requires Ready() && haveModules
      modifies this, optimizer, optimizer.objective, optimizer.objective.base,
               optimizer.consolidatedObjective, optimizer.consolidatedObjective.base
      ensures Ready() && haveModules && optimizer.Constants() == old(optimizer.Constants())
      ensures optimizer.Valid() && optimizer.net == topNetwork && |optimizer.index| == |topNetwork.nodes|
      ensures SubModulesOf(subModules, old(assignment)) && SameGrouping(assignment, subModules)
      ensures Grouped(leafNetwork, Identity(|leafNetwork.nodes|), subModules, TreeNow())
      ensures |modules| == |topNetwork.nodes| && forall j :: 0 <= j < |modules| ==> modules[j] < |modules|
      ensures optimizer.index == modules && optimizer.StateNow() == StartState(modules)
      ensures forall i :: 0 <= i < |assignment| ==> assignment[i] < |modules|
      ensures Compose(assignment, modules) == old(assignment)
      ensures |old(assignment)| == |leafNetwork.nodes| && optimizer.Constants().bias.totalDegree != 0.0
      ensures optimizer.objective.GetCodelength() == Objective(optimizer.Constants(), leafNetwork, old(assignment))
    {
      hide Objective, Represents, BiasedMapEquation.GetCodelength, EmptyListOk, Optimizer.Exact, NumModules,
           SameGrouping, Optimizer.Constants, Grouped;
      ghost var setting := optimizer.Constants();
      optimizer.ConfiguredParts();
      var former := assignment;
      ghost var numFormer := |topNetwork.nodes|;
      RepresentedSizes(leafNetwork, former, topNetwork);
      subModules := ConsolidateSubModules();
      FormerWithin(former, subModules, assignment);
      RepresentedSizes(leafNetwork, assignment, topNetwork);
      modules := FormerModules(former, assignment, |topNetwork.nodes|, numFormer);
      optimizer.InitPartition(topNetwork);
      optimizer.MoveActiveNodesToPredefinedModules(modules);
      optimizer.CodelengthIsObjective();
      optimizer.ConstantsOk();
      ObjectiveRepresented(setting, leafNetwork, assignment, topNetwork, modules);
    }

    /** Tune sub-modules instead of leaf nodes: put them back into the former modules and optimize from
        there. Without an effective loop the codelength is within the improvement threshold of the former. */
    method CoarseTune(loopLimit: nat, ghost maxLevels: nat)
      returns (numEffectiveLoops: nat, ghost subModules: seq<nat>, ghost sub: TopTree, ghost former: seq<nat>,
               ghost run: CoreRun)
      requires Ready() && haveModules
      modifies this, optimizer, optimizer.objective, optimizer.objective.base,
               optimizer.consolidatedObjective, optimizer.consolidatedObjective.base
      ensures Ready() && haveModules && optimizer.Constants() == old(optimizer.Constants())
      ensures CoarseTuned(old(SetupNow(loopLimit, maxLevels)), old(TreeNow()), subModules, sub, former, run,
                          numEffectiveLoops, TreeNow())
      ensures optimizer.objective.GetCodelength() == Objective(optimizer.Constants(), leafNetwork, assignment)
      ensures numEffectiveLoops == 0 ==>
                optimizer.objective.GetCodelength()
                >= Objective(optimizer.Constants(), leafNetwork, old(assignment))
                   - optimizer.minimumCodelengthImprovement
    {
      hide Objective, Represents, BiasedMapEquation.GetCodelength, EmptyListOk, Kept, NumModules,
           BiasedMapEquation.Tracks, Grouped, OptimizerTerrain, CoreRunOk, ListAfter, SameGrouping;
      var found, modules := PutSubModulesBack();
      subModules, sub, former := found, TreeNow(), modules;
      numEffectiveLoops, run := optimizer.OptimizeActiveNetwork(loopLimit, false, innerParallelization);
      KeptSizes(optimizer.net, optimizer.index, optimizer.moduleFlowData, optimizer.moduleMembers);
      Consolidate(assignment);
    }

    /** The former module of every sub-module, read off any of its leaf nodes. */
    static method FormerModules(former: seq<nat>, sub: seq<nat>, numSub: nat,
                                ghost numFormer: nat) returns (modules: seq<nat>)
      requires |former| == |sub| && Onto(sub, numSub) && Onto(former, numFormer)
      requires forall i, j :: 0 <= i < |sub| && 0 <= j < |sub| && sub[i] == sub[j] ==> former[i] == former[j]
      ensures |modules| == numSub && Compose(sub, modules) == former
      ensures forall j :: 0 <= j < numSub ==> modules[j] < numSub
    {
      modules := seq(numSub, (j: nat) => 0);
      for i := 0 to |sub|
        invariant |modules| == numSub
        invariant forall k :: 0 <= k < i ==> modules[sub[k]] == former[k]
      {
        modules := modules[sub[i] := former[i]];
      }
      forall j | 0 <= j < numSub ensures modules[j] < numFormer {
        assert j in sub;
      }
      forall m | 0 <= m < numFormer ensures m in modules {
        assert m in former;
        var i :| 0 <= i < |former| && former[i] == m;
        assert modules[sub[i]] == m;
      }
      OntoSize(modules, numFormer);
    }

    /** One round of fine-tuning, with the aggregation that follows an effective loop. */
    method FineRound(maxLevels: nat, loopLimit: nat, ghost noCoarseTune: bool) returns (ghost r: Round)
      requires Ready() && haveModules
      modifies this, optimizer, optimizer.objective, optimizer.objective.base,
               optimizer.consolidatedObjective, optimizer.consolidatedObjective.base
      ensures Ready() && haveModules && optimizer.Constants() == old(optimizer.Constants())
      ensures optimizer.Constants().bias.totalDegree != 0.0
      ensures r.before == old(TreeNow()) && r.after == TreeNow() && r.codelength == optimizer.objective.GetCodelength()
      ensures r.tuning.FineTuning?
      ensures RoundOk(old(SetupNow(loopLimit, maxLevels)), noCoarseTune, r, old(optimizer.objective.GetCodelength()))
      ensures LowestObjective(optimizer.Constants(), leafNetwork) <= optimizer.objective.GetCodelength()
      ensures optimizer.objective.GetCodelength() <= Objective(optimizer.Constants(), leafNetwork, assignment)
      ensures optimizer.objective.GetCodelength()
           >= Objective(optimizer.Constants(), leafNetwork, assignment) - optimizer.minimumCodelengthImprovement
    {
      hide Objective, Represents, BiasedMapEquation.GetCodelength, EmptyListOk, Optimizer.Exact, NumModules,
           BiasedMapEquation.Tracks, LowestObjective, HighestObjective, Optimizer.StampsOk, OptimizerTerrain, FineTuned,
           TopModulesFound, Optimizer.Constants;
      ghost var setup, before := SetupNow(loopLimit, maxLevels), TreeNow();
      optimizer.ConfiguredParts();
      var numEffectiveLoops, restored;
      ghost var run, passes, numLevels;
      numEffectiveLoops, restored, run := FineTune(loopLimit, maxLevels);
      ghost var tuned := TreeNow();
      LeafObjective(setup);
      passes, numLevels := [], 0;
      if numEffectiveLoops > 0 {
        var levels;
        levels, passes := FindTopModulesRepeatedly(maxLevels, loopLimit, false);
        numLevels := levels;
        ObjectiveBounded(optimizer.Constants(), leafNetwork, assignment);
        LeafObjective(setup);
      }
      r := Round(before, FineTuning(run, restored, tuned), numEffectiveLoops, passes, numLevels, TreeNow(),
                 optimizer.objective.GetCodelength());
    }

    /** The objective of the leaf nodes in the current modules. */
    lemma {:induction false} LeafObjective(setup: Setup)
      requires Ready() && haveModules && setup == SetupNow(setup.coreLoopLimit, setup.maxLevels)
      ensures optimizer.Constants().bias.totalDegree != 0.0
      ensures setup.ObjectiveOf(assignment) == Objective(optimizer.Constants(), leafNetwork, assignment)
    {
      hide Objective, OptimizerTerrain, Represents;
      TerrainObjective(setup.setting, leafNetwork, setup.threshold, setup.random, assignment);
    }

    /** One round of coarse-tuning, with the aggregation that follows an effective loop. */
    method CoarseRound(maxLevels: nat, loopLimit: nat, noCoarseTune: bool) returns (ghost r: Round)
      requires Ready() && haveModules
      requires optimizer.objective.GetCodelength() <= Objective(optimizer.Constants(), leafNetwork, assignment)
      requires optimizer.objective.GetCodelength()
            >= Objective(optimizer.Constants(), leafNetwork, assignment) - optimizer.minimumCodelengthImprovement
      modifies this, optimizer, optimizer.objective, optimizer.objective.base,
               optimizer.consolidatedObjective, optimizer.consolidatedObjective.base
      ensures Ready() && haveModules && optimizer.Constants() == old(optimizer.Constants())
      ensures optimizer.Constants().bias.totalDegree != 0.0
      ensures r.before == old(TreeNow()) && r.after == TreeNow() && r.codelength == optimizer.objective.GetCodelength()
      ensures !r.tuning.FineTuning?
      ensures RoundOk(old(SetupNow(loopLimit, maxLevels)), noCoarseTune, r, old(optimizer.objective.GetCodelength()))
      ensures noCoarseTune ==> optimizer.objective.GetCodelength() == old(optimizer.objective.GetCodelength())
      ensures !noCoarseTune ==>
                LowestObjective(optimizer.Constants(), leafNetwork) <= optimizer.objective.GetCodelength()
      ensures optimizer.objective.GetCodelength() <= Objective(optimizer.Constants(), leafNetwork, assignment)
      ensures optimizer.objective.GetCodelength()
           >= Objective(optimizer.Constants(), leafNetwork, assignment) - optimizer.minimumCodelengthImprovement
    {
      hide Objective, Represents, BiasedMapEquation.GetCodelength, EmptyListOk, Optimizer.Exact, NumModules,
           BiasedMapEquation.Tracks, LowestObjective, HighestObjective, Optimizer.StampsOk, OptimizerTerrain,
           CoarseTuned, TopModulesFound, Optimizer.Constants;
      ghost var setup, before := SetupNow(loopLimit, maxLevels), TreeNow();
      optimizer.ConfiguredParts();
      if noCoarseTune {
        r := Round(before, NoTuning, 0, [], 0, before, optimizer.objective.GetCodelength());
        return;
      }
      var numEffectiveLoops;
      ghost var subModules, sub, former, run, passes, numLevels;
      numEffectiveLoops, subModules, sub, former, run := CoarseTune(loopLimit, maxLevels);
      ghost var tuned := TreeNow();
      LeafObjective(setup);
      passes, numLevels := [], 0;
      if numEffectiveLoops > 0 {
        var levels;
        levels, passes := FindTopModulesRepeatedly(maxLevels, loopLimit, false);
        numLevels := levels;
        LeafObjective(setup);
      }
      ObjectiveBounded(optimizer.Constants(), leafNetwork, assignment);
      r := Round(before, CoarseTuning(subModules, sub, former, run, tuned), numEffectiveLoops, passes, numLevels,
                 TreeNow(), optimizer.objective.GetCodelength());
    }

    /** The tuning loop: fine-tune and coarse-tune in turn, until neither improves enough. It takes at
        most two rounds more than the codelength can fall by the improvement threshold. */
    method Tune(maxLevels: nat, loopLimit: nat, tuneIterationLimit: nat, noCoarseTune: bool, requiredFall: real)
      returns (numRounds: nat, ghost rounds: seq<Round>)
      requires Ready() && haveModules
      requires optimizer.objective.GetCodelength() == Objective(optimizer.Constants(), leafNetwork, assignment)
      modifies this, optimizer, optimizer.objective, optimizer.objective.base,
               optimizer.consolidatedObjective, optimizer.consolidatedObjective.base
      ensures Ready() && haveModules && optimizer.Constants() == old(optimizer.Constants())
      ensures Tuned(old(SetupNow(loopLimit, maxLevels)), tuneIterationLimit, noCoarseTune, requiredFall,
                    old(TreeNow()), old(optimizer.objective.GetCodelength()), rounds)
      ensures numRounds == |rounds| && TreeNow() == TreeAfter(old(TreeNow()), rounds)
      ensures optimizer.objective.GetCodelength()
           == CodelengthAfter(old(optimizer.objective.GetCodelength()), rounds)
      ensures optimizer.objective.GetCodelength() <= Objective(optimizer.Constants(), leafNetwork, assignment)
      ensures optimizer.objective.GetCodelength() >= Objective(optimizer.Constants(), leafNetwork, assignment)
                                                     - optimizer.minimumCodelengthImprovement
      ensures optimizer.Constants().bias.totalDegree != 0.0
      ensures numRounds <= 2
           || Fall(numRounds - 2, optimizer.minimumCodelengthImprovement)
              <= old(optimizer.objective.GetCodelength()) - LowestObjective(optimizer.Constants(), leafNetwork)
    {
      hide Objective, Represents, BiasedMapEquation.GetCodelength, EmptyListOk, Optimizer.Exact, NumModules,
           BiasedMapEquation.Tracks, LowestObjective, HighestObjective, StepsLeft, Optimizer.StampsOk, Fall,
           Optimizer.Constants, RoundOk, RoundsOk, Reference, Settled, OptimizerTerrain;
      ghost var setting, setup, startTree := optimizer.Constants(), SetupNow(loopLimit, maxLevels), TreeNow();
      optimizer.ConfiguredParts();
      var threshold := optimizer.minimumCodelengthImprovement;
      ghost var lowest := LowestObjective(setting, leafNetwork);
      ObjectiveBounded(setting, leafNetwork, assignment);
      var oldCodelength := optimizer.objective.GetCodelength();
      ghost var first := oldCodelength;
      StepsNonNegative(first, lowest, threshold);
      numRounds, rounds := 0, [];
      RoundsStart(setup, tuneIterationLimit, noCoarseTune, requiredFall, startTree, first);
      var doFineTune, coarseTuned := true, false;
      while |topNetwork.nodes| > 1 && numRounds + 1 != tuneIterationLimit
        invariant Ready() && haveModules && optimizer.Constants() == setting && threshold > 0.0
        invariant optimizer.objective.GetCodelength() <= Objective(setting, leafNetwork, assignment)
        invariant optimizer.objective.GetCodelength() >= Objective(setting, leafNetwork, assignment) - threshold
        invariant oldCodelength >= lowest && optimizer.objective.GetCodelength() >= lowest
        invariant numRounds == |rounds| && doFineTune == (|rounds| % 2 == 0) && coarseTuned == (|rounds| >= 2)
        invariant RoundsOk(setup, tuneIterationLimit, noCoarseTune, requiredFall, startTree, first, rounds)
        invariant !Settled(setup, requiredFall, first, rounds)
        invariant oldCodelength == Reference(setup, requiredFall, first, rounds)
        invariant TreeNow() == TreeAfter(startTree, rounds)
        invariant optimizer.objective.GetCodelength() == CodelengthAfter(first, rounds)
        invariant StepsLeft(oldCodelength, lowest, threshold) + numRounds
               <= StepsLeft(first, lowest, threshold) + (if coarseTuned || !doFineTune then 1 else 0)
        invariant StepsLeft(oldCodelength, lowest, threshold) >= 0
        decreases StepsLeft(oldCodelength, lowest, threshold), !coarseTuned, doFineTune
      {
        numRounds := numRounds + 1;
        ghost var r;
        if doFineTune {
          r := FineRound(maxLevels, loopLimit, noCoarseTune);
        } else {
          coarseTuned := true;
          r := CoarseRound(maxLevels, loopLimit, noCoarseTune);
        }
        RoundsGrow(setup, tuneIterationLimit, noCoarseTune, requiredFall, startTree, first, rounds, r);
        rounds := rounds + [r];
        var newCodelength := optimizer.objective.GetCodelength();
        var isImprovement := newCodelength <= oldCodelength - threshold && newCodelength < oldCodelength - requiredFall;
        if !isImprovement {
          if coarseTuned {
            break;
          }
        } else {
          StepTaken(oldCodelength, newCodelength, lowest, threshold);
          oldCodelength := newCodelength;
        }
        doFineTune := !doFineTune;
      }
      if numRounds > 2 { StepsFit(first, lowest, threshold, numRounds - 2); }
    }

    /** The two-level search: aggregate modules, then tune. All but two of the rounds of tuning fit into the
        distance from the greatest to the least objective of the network. */
    method Partition(maxLevels: nat, loopLimit: nat, tuneIterationLimit: nat, noCoarseTune: bool, requiredFall: real,
                     isMain: bool)
      returns (numLevels: nat, numRounds: nat, ghost passes: seq<TopPass>, ghost found: TopTree,
               ghost rounds: seq<Round>)
      requires Ready() && |topNetwork.nodes| > 1
      requires haveModules ==>
                 optimizer.objective.GetCodelength() == Objective(optimizer.Constants(), leafNetwork, assignment)
      modifies this, optimizer, optimizer.objective, optimizer.objective.base,
               optimizer.consolidatedObjective, optimizer.consolidatedObjective.base
      ensures Ready() && haveModules && optimizer.Constants() == old(optimizer.Constants())
      ensures TopModulesFound(old(SetupNow(loopLimit, maxLevels)), isMain && tuneIterationLimit != 1, old(TreeNow()),
                              passes, found, numLevels)
      ensures Tuned(old(SetupNow(loopLimit, maxLevels)), tuneIterationLimit, noCoarseTune, requiredFall, found,
                    old(SetupNow(loopLimit, maxLevels)).ObjectiveOf(found.assignment), rounds)
      ensures numRounds == |rounds| && TreeNow() == TreeAfter(found, rounds)
      ensures optimizer.objective.GetCodelength() <= Objective(optimizer.Constants(), leafNetwork, assignment)
      ensures optimizer.objective.GetCodelength() >= Objective(optimizer.Constants(), leafNetwork, assignment)
                                                     - optimizer.minimumCodelengthImprovement
      ensures optimizer.Constants().bias.totalDegree != 0.0
      ensures numRounds <= 2
           || Fall(numRounds - 2, optimizer.minimumCodelengthImprovement)
              <= HighestObjective(optimizer.Constants(), leafNetwork)
                 - LowestObjective(optimizer.Constants(), leafNetwork)
    {
      hide Objective, Represents, BiasedMapEquation.GetCodelength, Optimizer.Exact, LowestObjective,
           HighestObjective, Optimizer.StampsOk, Fall, Optimizer.Constants, Tuned, OptimizerTerrain, PassesOk;
      ghost var setup := SetupNow(loopLimit, maxLevels);
      numLevels, passes := FindTopModulesRepeatedly(maxLevels, loopLimit, isMain && tuneIterationLimit != 1);
      found := TreeNow();
      optimizer.ConfiguredParts();
      LeafObjective(setup);
      ObjectiveBounded(optimizer.Constants(), leafNetwork, assignment);
      numRounds, rounds := Tune(maxLevels, loopLimit, tuneIterationLimit, noCoarseTune, requiredFall);
    }
  }

  lemma {:induction false} RepresentedSizes(net: Network, q: seq<nat>, small: Network)
    requires Represents(net, q, small)
    ensures net.Valid() && small.Valid() && |q| == |net.nodes| && Onto(q, |small.nodes|)
    ensures |small.nodes| <= |net.nodes| && net.Partition(q)
    ensures |net.nodes| > 0 ==> |small.nodes| > 0
  {
    OntoSize(q, |small.nodes|);
    if |net.nodes| > 0 {
      assert q[0] < |small.nodes|;
    }
  }

  /** Aggregating twice, the objective of the top modules is that of the partition of the leaves. */
  lemma {:induction false} ObjectiveOfAggregation(setting: Setting, leaf: Network, q: seq<nat>, middle: Network,
                                                  r: seq<nat>, small: Network)
    requires Represents(leaf, q, middle) && Represents(middle, r, small)
    requires setting.code.PLogP(0.0) == 0.0 && setting.bias.totalDegree != 0.0
    ensures leaf.Valid() && small.Valid() && |q| == |leaf.nodes| && |r| == |middle.nodes|
    ensures forall i :: 0 <= i < |q| ==> q[i] < |r|
    ensures Represents(leaf, Compose(q, r), small)
    ensures Objective(setting, leaf, Compose(q, r)) == Objective(setting, small, Identity(|small.nodes|))
  {
    hide Represents, Objective, Network.Valid;
    RepresentedSizes(leaf, q, middle);
    RepresentedSizes(middle, r, small);
    RepresentsCompose(leaf, q, middle, r, small);
    var c := Compose(q, r);
    RepresentedSizes(leaf, c, small);
    ObjectiveRepresented(setting, leaf, c, small, Identity(|small.nodes|));
    assert Compose(c, Identity(|small.nodes|)) == c;
  }

  /** The network of the top modules, each alone, has the objective of the partition of the leaves. */
  lemma {:induction false} ObjectiveOfTop(setting: Setting, leaf: Network, q: seq<nat>, top: Network)
    requires Represents(leaf, q, top)
    requires setting.code.PLogP(0.0) == 0.0 && setting.bias.totalDegree != 0.0
    ensures leaf.Valid() && top.Valid() && |q| == |leaf.nodes|
    ensures Objective(setting, leaf, q) == Objective(setting, top, Identity(|top.nodes|))
  {
    RepresentedSizes(leaf, q, top);
    ObjectiveRepresented(setting, leaf, q, top, Identity(|top.nodes|));
    assert Compose(q, Identity(|top.nodes|)) == q;
  }

  lemma {:induction false} CopiedCodelength(copy: BiasedMapEquation, objective: BiasedMapEquation)
    requires copy.SameAs(objective)
    ensures copy.GetCodelength() == objective.GetCodelength()
    ensures copy.base.exitNetworkFlowLog == objective.base.exitNetworkFlowLog
    ensures copy.base.exitNetworkFlow == objective.base.exitNetworkFlow && copy.base.code == objective.base.code
    ensures Setting(copy.base.code, copy.bias, copy.base.exitNetworkFlow, copy.base.nodeFlowLogNodeFlow)
         == Setting(objective.base.code, objective.bias, objective.base.exitNetworkFlow,
             objective.base.nodeFlowLogNodeFlow)
  {
  }

  lemma {:induction false} SameCodelength(copy: BiasedMapEquation, objective: BiasedMapEquation,
                                          modules: seq<FlowData>, members: seq<nat>)
    requires copy.SameAs(objective) && objective.Tracks(modules, members)
    ensures copy.GetCodelength() == objective.GetCodelength()
    ensures copy.base.exitNetworkFlowLog == copy.base.code.PLogP(copy.base.exitNetworkFlow)
    ensures objective.base.exitNetworkFlowLog == objective.base.code.PLogP(objective.base.exitNetworkFlow)
    ensures Setting(copy.base.code, copy.bias, copy.base.exitNetworkFlow, copy.base.nodeFlowLogNodeFlow)
         == Setting(objective.base.code, objective.bias, objective.base.exitNetworkFlow,
             objective.base.nodeFlowLogNodeFlow)
  {
  }

  lemma {:induction false} IdentityOnto(n: nat)
    ensures Onto(Identity(n), n)
  {
    forall j | 0 <= j < n ensures j in Identity(n) {
      assert Identity(n)[j] == j;
    }
  }
}
