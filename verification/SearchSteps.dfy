/** What the steps of a two-level search may do, on values: one aggregation of the top modules, the repeated
    aggregation, a fine-tune, a coarse-tune, and the tuning loop. Given the runs of the core loop, the sub-modules of
    the coarse-tunes and the numbers the new modules get, everything else is determined. */
module SearchSteps {
  import opened Sums
  import opened FlowNetwork
  import opened MapEquations
  import opened BiasedMapEquations
  import opened Partitions
  import opened Consolidation
  import opened LinkTables
  import opened Sweeps
  import opened Optimizers

  /** The leaf network, the objective and the settings of a search. */
  datatype Setup = Setup(
    setting: Setting,
    leaf: Network,
    threshold: real,
    improvement: real,
    random: bool,
    parallel: bool,
    coreLoopLimit: nat,
    maxLevels: nat)
  {
    ghost function TerrainOf(net: Network): Terrain
    {
      OptimizerTerrain(setting, net, threshold, random)
    }

    ghost function ObjectiveOf(assignment: seq<nat>): real
    {
      TerrainOf(leaf).objective(assignment)
    }

    /** Above the first aggregation level the limit is fixed. */
    function LoopLimit(aggregationLevel: nat): nat
    {
      if aggregationLevel > 0 then 20 else coreLoopLimit
    }
  }

  /** The tree below the root: the network of the top modules, and the top module of every leaf node. */
  datatype TopTree = TopTree(haveModules: bool, top: Network, assignment: seq<nat>)

  /** The modules of a partition of a network that stands for the leaf network have become the top modules. */
  ghost predicate Grouped(leaf: Network, grouping: seq<nat>, index: seq<nat>, after: TopTree)
  {
    && after.haveModules && Represents(leaf, after.assignment, after.top)
    && |after.assignment| == |grouping| && (forall i :: 0 <= i < |grouping| ==> grouping[i] < |index|)
    && SameGrouping(after.assignment, Compose(grouping, index))
  }

  /** The core loop was run on this network from this start. */
  ghost predicate Optimised(setup: Setup, net: Network, firstLoop: bool, aggregationLevel: nat, start: SweepState,
                            run: CoreRun, numEffective: nat)
  {
    && CoreRunOk(setup.TerrainOf(net), firstLoop, setup.parallel, setup.improvement, setup.LoopLimit(aggregationLevel),
                 run, numEffective)
    && run.First() == start
  }

  // ----- Repeated aggregation -----

  /** One round on the network of the top modules. */
  datatype TopPass = TopPass(before: TopTree, run: CoreRun, numLoops: nat, improved: bool, after: TopTree)

  /** The modules reached become the top modules, unless there were modules before and they are not better by more
      than the threshold. */
  ghost predicate TopPassOk(setup: Setup, firstLoop: bool, aggregationLevel: nat, p: TopPass)
  {
    var top, t := p.before.top, setup.TerrainOf(p.before.top);
    && Optimised(setup, top, firstLoop && aggregationLevel == 0, aggregationLevel, FreshState(|top.nodes|), p.run,
                 p.numLoops)
    && var reached := p.run.Last().list.index;
       && (p.improved <==>
             !p.before.haveModules || t.objective(reached) < t.objective(Identity(|top.nodes|)) - setup.threshold)
       && (if p.improved then Grouped(setup.leaf, p.before.assignment, reached, p.after) else p.after == p.before)
  }

  function LevelsOf(tree: TopTree): nat
  {
    if tree.haveModules then 1 else 0
  }

  /** There is something to merge, and the level limit (0 for none) is not reached. */
  predicate GoesOn(setup: Setup, tree: TopTree, numLevels: nat)
  {
    |tree.top.nodes| > 1 && (setup.maxLevels == 0 || numLevels != setup.maxLevels)
  }

  /** The passes so far: each starts where the one before ended, and all but the last improved. */
  ghost predicate PassesOk(setup: Setup, firstLoop: bool, start: TopTree, passes: seq<TopPass>, end: TopTree)
  {
    if passes == [] then end == start
    else
      var n, last := |passes| - 1, passes[|passes| - 1];
      && PassesOk(setup, firstLoop, start, passes[..n], last.before) && end == last.after
      && GoesOn(setup, last.before, LevelsOf(start) + n) && TopPassOk(setup, firstLoop, n, last)
      && (n > 0 ==> passes[n - 1].improved)
  }

  predicate Reverted(passes: seq<TopPass>)
  {
    passes != [] && !passes[|passes| - 1].improved
  }

  function NumConsolidated(passes: seq<TopPass>): nat
  {
    if Reverted(passes) then |passes| - 1 else |passes|
  }

  /** Passes are made until one does not improve, one module is left or the level limit is reached. */
  ghost predicate TopModulesFound(setup: Setup, firstLoop: bool, start: TopTree, passes: seq<TopPass>, end: TopTree,
                                  numLevels: nat)
  {
    && PassesOk(setup, firstLoop, start, passes, end)
    && numLevels == LevelsOf(start) + NumConsolidated(passes)
    && (Reverted(passes) || !GoesOn(setup, end, numLevels))
  }

  lemma {:induction false} PassesStart(setup: Setup, firstLoop: bool, start: TopTree)
    ensures PassesOk(setup, firstLoop, start, [], start)
  {
  }

  lemma {:induction false} PassesGrow(setup: Setup, firstLoop: bool, start: TopTree, passes: seq<TopPass>, p: TopPass)
    requires PassesOk(setup, firstLoop, start, passes, p.before) && !Reverted(passes)
    requires GoesOn(setup, p.before, LevelsOf(start) + |passes|) && TopPassOk(setup, firstLoop, |passes|, p)
    ensures PassesOk(setup, firstLoop, start, passes + [p], p.after)
  {
    hide TopPassOk;
    assert (passes + [p])[..|passes|] == passes;
  }

  // ----- Tuning -----

  datatype Tuning =
    | FineTuning(run: CoreRun, restored: bool, tree: TopTree)
    | CoarseTuning(subModules: seq<nat>, sub: TopTree, former: seq<nat>, run: CoreRun, tree: TopTree)
    | NoTuning

  /** The codelength after a fine-tune without effective loops, from the objective of the tree and that of the
      partition the sweeps reached. */
  ghost predicate KeptAfterFineTune(kept: real, restored: bool, tree: real, reached: real, single: real,
                                    threshold: real)
  {
    && (restored <==> reached >= tree - single)
    && kept == (if restored then tree else reached)
    && tree - threshold <= kept <= tree
    && (threshold <= single ==> kept == tree)
  }

  /** The leaf nodes are put in their modules and swept. Without an effective loop the tree stays. */
  ghost predicate FineTuned(setup: Setup, before: TopTree, run: CoreRun, numLoops: nat, restored: bool, kept: real,
                            after: TopTree)
  {
    && (forall i :: 0 <= i < |before.assignment| ==> before.assignment[i] < |before.assignment|)
    && Optimised(setup, setup.leaf, false, 0, StartState(before.assignment), run, numLoops)
    && var reached := run.Last().list.index;
       if numLoops == 0 then
         && after == before
         && KeptAfterFineTune(kept, restored, setup.ObjectiveOf(before.assignment), setup.ObjectiveOf(reached),
                              setup.threshold, setup.improvement)
       else
         && !restored && Grouped(setup.leaf, Identity(|before.assignment|), reached, after)
         && kept == setup.ObjectiveOf(after.assignment)
  }

  /** Every leaf node is in a sub-module that lies within its module, and has the number of a leaf node there. */
  ghost predicate SubModulesOf(subModules: seq<nat>, assignment: seq<nat>)
  {
    && |subModules| == |assignment|
    && forall i :: 0 <= i < |assignment| ==>
         subModules[i] < |assignment| && assignment[subModules[i]] == assignment[i]
  }

  /** The sub-modules, in the former modules, are swept, and what they reach becomes the top modules. */
  ghost predicate CoarseTuned(setup: Setup, before: TopTree, subModules: seq<nat>, sub: TopTree, former: seq<nat>,
                              run: CoreRun, numLoops: nat, after: TopTree)
  {
    && SubModulesOf(subModules, before.assignment)
    && Grouped(setup.leaf, Identity(|before.assignment|), subModules, sub)
    && |former| == |sub.top.nodes| && (forall j :: 0 <= j < |former| ==> former[j] < |former|)
    && Compose(sub.assignment, former) == before.assignment
    && Optimised(setup, sub.top, false, 0, StartState(former), run, numLoops)
    && Grouped(setup.leaf, sub.assignment, run.Last().list.index, after)
  }

  /** One round of tuning: the tuning itself, and the aggregation that follows if it had an effective loop. */
  datatype Round = Round(before: TopTree, tuning: Tuning, numLoops: nat, passes: seq<TopPass>, numLevels: nat,
                         after: TopTree, codelength: real)

  ghost predicate Merged(setup: Setup, r: Round, tuned: TopTree)
  {
    TopModulesFound(setup, false, tuned, r.passes, r.after, r.numLevels)
    && r.codelength == setup.ObjectiveOf(r.after.assignment)
  }

  ghost predicate RoundOk(setup: Setup, noCoarseTune: bool, r: Round, codelength: real)
  {
    match r.tuning
    case FineTuning(run, restored, tuned) =>
      if r.numLoops > 0 then
        && FineTuned(setup, r.before, run, r.numLoops, restored, setup.ObjectiveOf(tuned.assignment), tuned)
        && Merged(setup, r, tuned)
      else
        FineTuned(setup, r.before, run, 0, restored, r.codelength, tuned) && r.passes == [] && r.after == tuned
    case CoarseTuning(subModules, sub, former, run, tuned) =>
      && !noCoarseTune && CoarseTuned(setup, r.before, subModules, sub, former, run, r.numLoops, tuned)
      && if r.numLoops > 0 then Merged(setup, r, tuned)
         else r.passes == [] && r.after == tuned && r.codelength == setup.ObjectiveOf(tuned.assignment)
    case NoTuning =>
      noCoarseTune && r.numLoops == 0 && r.passes == [] && r.after == r.before && r.codelength == codelength
  }

  // ----- The tuning loop -----

  /** A round improves if the codelength falls by at least the threshold and by more than the required fall. */
  predicate Improves(setup: Setup, requiredFall: real, oldCodelength: real, newCodelength: real)
  {
    newCodelength <= oldCodelength - setup.improvement && newCodelength < oldCodelength - requiredFall
  }

  /** The codelength that the next round has to improve on. */
  function Reference(setup: Setup, requiredFall: real, start: real, rounds: seq<Round>): real
  {
    if rounds == [] then start
    else
      var before, last := Reference(setup, requiredFall, start, rounds[..|rounds| - 1]), rounds[|rounds| - 1];
      if Improves(setup, requiredFall, before, last.codelength) then last.codelength else before
  }

  function CodelengthAfter(start: real, rounds: seq<Round>): real
  {
    if rounds == [] then start else rounds[|rounds| - 1].codelength
  }

  function TreeAfter(start: TopTree, rounds: seq<Round>): TopTree
  {
    if rounds == [] then start else rounds[|rounds| - 1].after
  }

  /** The last of these rounds came after a coarse-tune, or was one, and did not improve. */
  predicate Settled(setup: Setup, requiredFall: real, start: real, rounds: seq<Round>)
  {
    && |rounds| >= 2
    && !Improves(setup, requiredFall, Reference(setup, requiredFall, start, rounds[..|rounds| - 1]),
                 rounds[|rounds| - 1].codelength)
  }

  predicate MayTune(tree: TopTree, numRounds: nat, tuneIterationLimit: nat)
  {
    |tree.top.nodes| > 1 && numRounds + 1 != tuneIterationLimit
  }

  /** Fine-tune and coarse-tune in turn, each from where the one before ended. */
  ghost predicate RoundsOk(setup: Setup, tuneIterationLimit: nat, noCoarseTune: bool, requiredFall: real,
                           startTree: TopTree, start: real, rounds: seq<Round>)
  {
    rounds == []
    || (var n, last := |rounds| - 1, rounds[|rounds| - 1];
        && RoundsOk(setup, tuneIterationLimit, noCoarseTune, requiredFall, startTree, start, rounds[..n])
        && last.before == TreeAfter(startTree, rounds[..n]) && MayTune(last.before, n, tuneIterationLimit)
        && (last.tuning.FineTuning? <==> n % 2 == 0)
        && RoundOk(setup, noCoarseTune, last, CodelengthAfter(start, rounds[..n]))
        && !Settled(setup, requiredFall, start, rounds[..n]))
  }

  /** The rounds end when one module is left, at the limit, or when a round from the first coarse-tune on does not
      improve. */
  ghost predicate Tuned(setup: Setup, tuneIterationLimit: nat, noCoarseTune: bool, requiredFall: real,
                        startTree: TopTree, start: real, rounds: seq<Round>)
  {
    && RoundsOk(setup, tuneIterationLimit, noCoarseTune, requiredFall, startTree, start, rounds)
    && (Settled(setup, requiredFall, start, rounds)
        || !MayTune(TreeAfter(startTree, rounds), |rounds|, tuneIterationLimit))
  }

  lemma {:induction false} RoundsStart(setup: Setup, tuneIterationLimit: nat, noCoarseTune: bool, requiredFall: real,
                                       startTree: TopTree, start: real)
    ensures RoundsOk(setup, tuneIterationLimit, noCoarseTune, requiredFall, startTree, start, [])
    ensures !Settled(setup, requiredFall, start, []) && Reference(setup, requiredFall, start, []) == start
  {
  }

  lemma {:induction false} RoundsGrow(setup: Setup, tuneIterationLimit: nat, noCoarseTune: bool, requiredFall: real,
                                      startTree: TopTree, start: real, rounds: seq<Round>, r: Round)
    requires RoundsOk(setup, tuneIterationLimit, noCoarseTune, requiredFall, startTree, start, rounds)
    requires r.before == TreeAfter(startTree, rounds) && MayTune(r.before, |rounds|, tuneIterationLimit)
    requires r.tuning.FineTuning? <==> |rounds| % 2 == 0
    requires RoundOk(setup, noCoarseTune, r, CodelengthAfter(start, rounds))
    requires !Settled(setup, requiredFall, start, rounds)
    ensures RoundsOk(setup, tuneIterationLimit, noCoarseTune, requiredFall, startTree, start, rounds + [r])
    ensures Reference(setup, requiredFall, start, rounds + [r])
         == if Improves(setup, requiredFall, Reference(setup, requiredFall, start, rounds), r.codelength)
            then r.codelength else Reference(setup, requiredFall, start, rounds)
    ensures Settled(setup, requiredFall, start, rounds + [r])
       <==> rounds != [] && !Improves(setup, requiredFall, Reference(setup, requiredFall, start, rounds), r.codelength)
  {
    hide RoundOk;
    assert (rounds + [r])[..|rounds|] == rounds;
  }

  /** Without a limit, and with several modules throughout, both kinds of tuning are tried. */
  lemma {:induction false} BothTried(setup: Setup, noCoarseTune: bool, requiredFall: real, startTree: TopTree,
                                     start: real, rounds: seq<Round>)
    requires Tuned(setup, 0, noCoarseTune, requiredFall, startTree, start, rounds)
    ensures |rounds| >= 2 || |TreeAfter(startTree, rounds).top.nodes| <= 1
  {
  }
}
