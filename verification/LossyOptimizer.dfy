/** The optimizer on the lossy objective, and runs of it: the moves of the first-order optimizer, with the
    entropy and flow sums of every module kept beside its flow. */
module LossyOptimizers {
  import opened Sums
  import opened FlowNetwork
  import opened MapEquations
  import opened BiasedMapEquations
  import opened Partitions
  import opened Consolidation
  import opened LinkTables
  import opened Sweeps
  import opened Passes
  import opened LossyMapEquations

  // ----- Networks that stand for one another -----

  /** The small network stands for the large one, and its nodes carry the sums of their members. */
  ghost predicate LossyRepresents(net: Network, nodes: seq<LossyData>, q: seq<nat>, small: Network,
                                  smallNodes: seq<LossyData>)
  {
    && Represents(net, q, small) && |nodes| == |net.nodes| && |smallNodes| == |small.nodes| <= |net.nodes|
    && Entropies(smallNodes) == MembersAll(Entropies(nodes), q, |small.nodes|)
    && FlowLogs(smallNodes) == MembersAll(FlowLogs(nodes), q, |small.nodes|)
  }

  lemma {:induction false} LossyRepresentsItself(net: Network, nodes: seq<LossyData>)
    requires net.Valid() && |nodes| == |net.nodes|
    ensures LossyRepresents(net, nodes, Identity(|net.nodes|), net, nodes)
  {
    hide Represents, Network.Valid;
    RepresentsItself(net);
    SingletonData(nodes);
    var all := AllLossyData(nodes, Identity(|nodes|));
    forall i | 0 <= i < |nodes|
      ensures Members(Entropies(nodes), Identity(|nodes|), i) == nodes[i].entropy
      ensures Members(FlowLogs(nodes), Identity(|nodes|), i) == nodes[i].flowLogFlow
    {
      assert all[i] == nodes[i];
    }
    assert Entropies(nodes) == MembersAll(Entropies(nodes), Identity(|nodes|), |nodes|);
    assert FlowLogs(nodes) == MembersAll(FlowLogs(nodes), Identity(|nodes|), |nodes|);
  }

  lemma {:induction false} MembersAllCompose(w: seq<real>, q: seq<nat>, r: seq<nat>, n: nat)
    requires |w| == |q| && forall i :: 0 <= i < |q| ==> q[i] < |r|
    ensures MembersAll(MembersAll(w, q, |r|), r, n) == MembersAll(w, Compose(q, r), n)
  {
    forall m: nat | m < n ensures Members(MembersAll(w, q, |r|), r, m) == Members(w, Compose(q, r), m) {
      MembersCompose(w, q, r, m);
    }
    assert |MembersAll(MembersAll(w, q, |r|), r, n)| == |MembersAll(w, Compose(q, r), n)|;
  }

  lemma {:induction false} LossyRepresentsCompose(net: Network, nodes: seq<LossyData>, q: seq<nat>,
                                                  middle: Network, middleNodes: seq<LossyData>, r: seq<nat>,
                                                  small: Network, smallNodes: seq<LossyData>)
    requires LossyRepresents(net, nodes, q, middle, middleNodes)
    requires LossyRepresents(middle, middleNodes, r, small, smallNodes)
    ensures forall i :: 0 <= i < |q| ==> q[i] < |r|
    ensures LossyRepresents(net, nodes, Compose(q, r), small, smallNodes)
  {
    hide Represents, MembersAll;
    RepresentsValid(net, q, middle);
    RepresentsValid(middle, r, small);
    RepresentsCompose(net, q, middle, r, small);
    MembersAllCompose(Entropies(nodes), q, r, |small.nodes|);
    MembersAllCompose(FlowLogs(nodes), q, r, |small.nodes|);
  }

  /** The modules picked are all that have members, so the sums are the same over the picked ones. */
  lemma {:induction false} LossySumSelect(term: LossyTerm, code: LossyCode, modules: seq<FlowData>,
                                          lossy: seq<LossyData>, ids: seq<nat>,
                                          picked: seq<FlowData>, pickedLossy: seq<LossyData>)
    requires code.code.PLogP(0.0) == 0.0 && |modules| == |lossy| && |picked| == |pickedLossy| == |ids| && Distinct(ids)
    requires forall j :: 0 <= j < |ids| ==>
               ids[j] < |modules| && picked[j] == modules[ids[j]] && pickedLossy[j] == lossy[ids[j]]
    requires forall m :: 0 <= m < |modules| && m !in ids ==> modules[m] == ZERO_FLOW && lossy[m] == LossyData(0.0, 0.0)
    ensures LossySum(term, code, picked, pickedLossy) == LossySum(term, code, modules, lossy)
  {
    EmptyModuleTerm(term, code);
    hide LossyTermOf, Sum;
    SumSelect(LossyTerms(term, code, modules, lossy), ids, LossyTerms(term, code, picked, pickedLossy));
  }

  lemma {:induction false} EmptyModuleTerm(term: LossyTerm, code: LossyCode)
    requires code.code.PLogP(0.0) == 0.0
    ensures LossyTermOf(term, code, ZERO_FLOW.flow, LossyData(0.0, 0.0)) == 0.0
  {
    assert code.lambda * 0.0 == 0.0;
  }

  /** A grouping of the small network has the lossy objective of the same grouping of the large one. */
  lemma {:induction false} LossyObjectiveRepresented(code: LossyCode, exitNetworkFlow: real, nodeFlowLog: real,
                                                     net: Network, nodes: seq<LossyData>, q: seq<nat>,
                                                     small: Network, smallNodes: seq<LossyData>, g: seq<nat>)
    requires LossyRepresents(net, nodes, q, small, smallNodes) && small.Partition(g) && code.code.PLogP(0.0) == 0.0
    ensures net.Valid() && small.Valid() && |q| == |net.nodes| && forall i :: 0 <= i < |q| ==> q[i] < |g|
    ensures LossyObjective(code, exitNetworkFlow, nodeFlowLog, small, smallNodes, g)
         == LossyObjective(code, exitNetworkFlow, nodeFlowLog, net, nodes, Compose(q, g))
  {
    RepresentsValid(net, q, small);
    hide Objective, Codelength, LossySum, AllLossyData, MembersAll, Network.Valid, ModuleData, Represents;
    var setting := Setting(code.code, NO_BIAS, exitNetworkFlow, nodeFlowLog);
    ObjectiveRepresented(setting, net, q, small, g);
    WithoutBias(setting, small, g);
    WithoutBias(setting, net, Compose(q, g));
    LossySumRepresented(code, net, nodes, q, small, smallNodes, g);
  }

  lemma {:induction false} LossySumRepresented(code: LossyCode, net: Network, nodes: seq<LossyData>, q: seq<nat>,
                                               small: Network, smallNodes: seq<LossyData>, g: seq<nat>)
    requires LossyRepresents(net, nodes, q, small, smallNodes) && small.Partition(g) && code.code.PLogP(0.0) == 0.0
    ensures net.Valid() && small.Valid() && |q| == |net.nodes| && forall i :: 0 <= i < |q| ==> q[i] < |g|
    ensures LossySum(Saved, code, AllModuleData(small, g), AllLossyData(smallNodes, g))
         == LossySum(Saved, code, AllModuleData(net, Compose(q, g)), AllLossyData(nodes, Compose(q, g)))
  {
    RepresentsValid(net, q, small);
    hide LossySum, MembersAll, Network.Valid, ModuleData, Members;
    var h := Compose(q, g);
    var ids := Identity(|g|);
    forall m | 0 <= m < |g| ensures m in ids {
      assert ids[m] == m;
    }
    forall m: nat | m < |g| ensures AllLossyData(smallNodes, g)[m] == AllLossyData(nodes, h)[m] {
      MembersCompose(Entropies(nodes), q, g, m);
      MembersCompose(FlowLogs(nodes), q, g, m);
    }
    forall m: nat | |g| <= m < |h|
      ensures AllModuleData(net, h)[m] == ZERO_FLOW && AllLossyData(nodes, h)[m] == LossyData(0.0, 0.0)
    {
      ModuleDataEmpty(net, h, m);
      MembersZero(Entropies(nodes), h, m);
      MembersZero(FlowLogs(nodes), h, m);
    }
    LossySumSelect(Saved, code, AllModuleData(net, h), AllLossyData(nodes, h), ids, AllModuleData(small, g),
                   AllLossyData(smallNodes, g));
  }

  /** The data of the modules that have members, in the order of their numbers, are the sums of the members. */
  lemma {:induction false} ConsolidatedLossy(net: Network, nodes: seq<LossyData>, index: seq<nat>, ids: seq<nat>,
                                             position: seq<nat>, small: Network, picked: seq<LossyData>)
    requires Numbering(index, ids, position) && |nodes| == |index| == |net.nodes| && |small.nodes| == |ids|
    requires Represents(net, Compose(index, position), small) && |ids| <= |index|
    requires |picked| == |ids| && forall j :: 0 <= j < |ids| ==>
              ids[j] < |index| && picked[j] == AllLossyData(nodes, index)[ids[j]]
    ensures LossyRepresents(net, nodes, Compose(index, position), small, picked)
  {
    hide Represents, Members;
    var q := Compose(index, position);
    forall j: nat | j < |ids|
      ensures picked[j].entropy == Members(Entropies(nodes), q, j)
      ensures picked[j].flowLogFlow == Members(FlowLogs(nodes), q, j)
    {
      forall i | 0 <= i < |index| ensures index[i] == ids[j] <==> q[i] == j {
        assert ids[position[index[i]]] == index[i];
      }
      MembersRelabel(Entropies(nodes), index, ids[j], q, j);
      MembersRelabel(FlowLogs(nodes), index, ids[j], q, j);
    }
    assert Entropies(picked) == MembersAll(Entropies(nodes), q, |ids|);
    assert FlowLogs(picked) == MembersAll(FlowLogs(nodes), q, |ids|);
  }

  /** Starting over on the consolidated network gives the objective of the partition that was consolidated. */
  lemma {:induction false} ConsolidatedLossyObjective(code: LossyCode, exitNetworkFlow: real, nodeFlowLog: real,
                                                      net: Network, undirected: bool,
                                                      nodes: seq<LossyData>, picked: seq<LossyData>, index: seq<nat>,
                                                      ids: seq<nat>, position: seq<nat>)
    requires net.Valid() && net.Partition(index) && |nodes| == |index| && Numbering(index, ids, position)
    requires code.code.PLogP(0.0) == 0.0
    requires |picked| == |ids| && forall j :: 0 <= j < |ids| ==>
              ids[j] < |index| && picked[j] == AllLossyData(nodes, index)[ids[j]]
    ensures EdgesOk(ModuleLinks(net.edges, index, undirected), |position|)
    ensures var small := Consolidated(net, index, undirected, ids, position);
            && small.Valid() && |small.nodes| == |ids|
            && LossyObjective(code, exitNetworkFlow, nodeFlowLog, small, picked, Identity(|ids|))
               == LossyObjective(code, exitNetworkFlow, nodeFlowLog, net, nodes, index)
  {
    hide Codelength, Objective, ModuleLinks, NumModules, LossySum, AllModuleData, AllLossyData;
    var setting := Setting(code.code, NO_BIAS, exitNetworkFlow, nodeFlowLog);
    ConsolidatedObjective(setting, net, index, undirected, ids, position);
    var small := Consolidated(net, index, undirected, ids, position);
    WithoutBias(setting, net, index);
    WithoutBias(setting, small, Identity(|ids|));
    SavedByModules(code, net, nodes, index, ids, position, small.nodes, picked);
    SingletonData(picked);
    SingletonModules(small);
  }

  lemma {:induction false} SavedByModules(code: LossyCode, net: Network, nodes: seq<LossyData>, index: seq<nat>,
                                          ids: seq<nat>, position: seq<nat>, modules: seq<FlowData>,
                                          picked: seq<LossyData>)
    requires net.Valid() && net.Partition(index) && |nodes| == |index| && Numbering(index, ids, position)
    requires code.code.PLogP(0.0) == 0.0 && |modules| == |picked| == |ids|
    requires forall j :: 0 <= j < |ids| ==> ids[j] < |index| && modules[j] == AllModuleData(net, index)[ids[j]]
    requires forall j :: 0 <= j < |ids| ==> picked[j] == AllLossyData(nodes, index)[ids[j]]
    ensures LossySum(Saved, code, modules, picked)
         == LossySum(Saved, code, AllModuleData(net, index), AllLossyData(nodes, index))
  {
    hide LossySum, Numbering, Network.Valid;
    NumberingPicks(net, index, ids, position);
    forall m | 0 <= m < |index| && m !in ids ensures AllLossyData(nodes, index)[m] == LossyData(0.0, 0.0) {
      assert AllMembers(index, |index|)[m] == 0;
      CountZero(index, m);
      MembersZero(Entropies(nodes), index, m);
      MembersZero(FlowLogs(nodes), index, m);
    }
    LossySumSelect(Saved, code, AllModuleData(net, index), AllLossyData(nodes, index), ids, modules, picked);
  }

  lemma {:induction false} QuotientSize(net: Network, q: seq<nat>, small: Network)
    requires Represents(net, q, small)
    ensures |small.nodes| <= |net.nodes| == |q|
  {
    OntoSize(q, |small.nodes|);
  }

  lemma {:induction false} NumberingSizes(index: seq<nat>, ids: seq<nat>, position: seq<nat>)
    requires Numbering(index, ids, position)
    ensures |position| == |index| && forall i :: 0 <= i < |index| ==> index[i] < |position|
  {
  }

  // ----- The optimizer -----

  ghost function LowestLossyObjective(code: LossyCode, exitNetworkFlow: real, nodeFlowLog: real, net: Network,
                                      nodes: seq<LossyData>): real
    requires net.Valid() && |net.nodes| == |nodes|
  {
    Lowest((index: seq<nat>) => if net.Partition(index)
                                then LossyObjective(code, exitNetworkFlow, nodeFlowLog, net, nodes, index) else 0.0,
           |net.nodes|, [])
  }

  /** The lossy objective of every partition is at least the lowest, and some partition attains it. */
  lemma {:induction false} LossyObjectiveBounded(code: LossyCode, exitNetworkFlow: real, nodeFlowLog: real,
                                                 net: Network, nodes: seq<LossyData>, index: seq<nat>)
    returns (least: seq<nat>)
    requires net.Valid() && |net.nodes| == |nodes| && net.Partition(index)
    ensures net.Partition(least)
    ensures LossyObjective(code, exitNetworkFlow, nodeFlowLog, net, nodes, least)
         == LowestLossyObjective(code, exitNetworkFlow, nodeFlowLog, net, nodes)
         <= LossyObjective(code, exitNetworkFlow, nodeFlowLog, net, nodes, index)
  {
    hide LossyObjective, Network.Valid;
    var f := (i: seq<nat>) => if net.Partition(i)
                              then LossyObjective(code, exitNetworkFlow, nodeFlowLog, net, nodes, i) else 0.0;
    LowestIsBound(f, |net.nodes|, [], index);
    least := LowestAttained(f, |net.nodes|, []);
  }

  /** What the sweeps see of a network under the lossy objective. */
  ghost function LossyTerrain(code: LossyCode, exitNetworkFlow: real, nodeFlowLog: real, net: Network,
                              nodes: seq<LossyData>, threshold: real, random: bool): Terrain
  {
    Terrain(
      net.edges, threshold,
      (index: seq<nat>) =>
        if net.Valid() && net.Partition(index) && |net.nodes| == |nodes|
        then LossyObjective(code, exitNetworkFlow, nodeFlowLog, net, nodes, index) else 0.0,
      (index: seq<nat>, a: nat, m: nat) =>
        if net.Valid() && net.Partition(index) && a < |index| then LinkExit(net, index, a, m) else 0.0,
      (list: ListState, a: nat, m: nat) =>
        && net.Valid() && |net.nodes| == |list.index| == |list.members| && a < |list.index|
        && list.index[a] < |list.index| && Candidate(net, list.index, list.members, list.emptyModules, a, m),
      random)
  }

  lemma {:induction false} LossyTerrainParts(code: LossyCode, exitNetworkFlow: real, nodeFlowLog: real, net: Network,
                                             nodes: seq<LossyData>, threshold: real, random: bool, index: seq<nat>)
    requires net.Valid() && net.Partition(index) && |net.nodes| == |nodes|
    ensures var t := LossyTerrain(code, exitNetworkFlow, nodeFlowLog, net, nodes, threshold, random);
            && t.objective(index) == LossyObjective(code, exitNetworkFlow, nodeFlowLog, net, nodes, index)
            && t.threshold == threshold && t.edges == net.edges
  {
  }

  class LossyOptimizer {
    const objective: LossyMapEquation
    const minimumSingleNodeImprovement: real
    const minimumCodelengthImprovement: real
    const undirectedClustering: bool
    const numRandomMoves: nat

    var net: Network
    var nodes: seq<LossyData>
    var index: seq<nat>
    var moduleFlowData: seq<FlowData>
    var moduleMembers: seq<nat>
    var emptyModules: seq<nat>
    var dirty: seq<bool>

    constructor (objective: LossyMapEquation, minimumSingleNodeImprovement: real, minimumCodelengthImprovement: real,
                 undirectedClustering: bool, numRandomMoves: nat)
      requires objective.base.code.PLogP(0.0) == 0.0 && minimumSingleNodeImprovement >= 0.0
      ensures Configured() && this.objective == objective
      ensures this.minimumSingleNodeImprovement == minimumSingleNodeImprovement
      ensures this.minimumCodelengthImprovement == minimumCodelengthImprovement
      ensures this.undirectedClustering == undirectedClustering && this.numRandomMoves == numRandomMoves
    {
      this.objective := objective;
      this.minimumSingleNodeImprovement := minimumSingleNodeImprovement;
      this.minimumCodelengthImprovement := minimumCodelengthImprovement;
      this.undirectedClustering, this.numRandomMoves := undirectedClustering, numRandomMoves;
      net := Network([], [], false);
      nodes, index, moduleFlowData, moduleMembers, emptyModules, dirty := [], [], [], [], [], [];
    }

    ghost predicate Configured()
    {
      objective.base.code.PLogP(0.0) == 0.0 && minimumSingleNodeImprovement >= 0.0
    }

    /** Everything kept incrementally equals its from-scratch value on the current assignment. */
    ghost predicate Exact()
      reads this, objective, objective.base
    {
      && Configured()
      && Kept(net, index, moduleFlowData, moduleMembers)
      && objective.Tracks(moduleFlowData, nodes, index)
    }

    ghost predicate Valid()
      reads this, objective, objective.base
    {
      Exact() && EmptyListOk(emptyModules, moduleMembers) && |dirty| == |index|
    }

    /** Assignment, members and list of empty modules. */
    ghost function ListNow(): ListState
      reads `index, `moduleMembers, `emptyModules
    {
      ListState(index, moduleMembers, emptyModules)
    }

    /** The same with the nodes worth a visit. */
    ghost function StateNow(): SweepState
      reads `index, `moduleMembers, `emptyModules, `dirty
    {
      SweepState(ListNow(), dirty)
    }

    lemma {:induction false} ListNowOk()
      requires Valid()
      ensures ListNow().Ok() && StateNow().Ok()
    {
      hide NumZeros, AllModuleData, LossyMapEquation.Tracks, EmptyListOk, LossyOptimizer.Configured;
    }

    /** What the sweeps see of the current network. */
    ghost function TerrainNow(): Terrain
      reads `net, `nodes, objective.base
    {
      LossyTerrain(objective.Coding(), objective.base.exitNetworkFlow, objective.base.nodeFlowLogNodeFlow, net, nodes,
                   minimumSingleNodeImprovement, numRandomMoves > 0)
    }

    lemma {:induction false} CodelengthInTerrain()
      requires Exact()
      ensures objective.GetCodelength() == TerrainNow().objective(index)
      ensures TerrainNow().threshold == minimumSingleNodeImprovement && TerrainNow().edges == net.edges
    {
      hide LossyObjective, LossyMapEquation.Tracks, LossyTerrain, LossyMapEquation.GetCodelength;
      CodelengthIsObjective();
      KeptValid(net, index, moduleFlowData, moduleMembers);
      LossyTerrainParts(objective.Coding(), objective.base.exitNetworkFlow, objective.base.nodeFlowLogNodeFlow, net,
                        nodes, minimumSingleNodeImprovement, numRandomMoves > 0, index);
    }

    /** What stays the same through a run besides the network. */
    ghost function Constants(): (real, real)
      reads objective.base
    {
      (objective.base.exitNetworkFlow, objective.base.nodeFlowLogNodeFlow)
    }

    ghost predicate Sized()
      reads `net, `nodes, `index, `moduleMembers
    {
      && net.Valid() && |net.nodes| == |index| == |nodes| == |moduleMembers|
      && forall i :: 0 <= i < |index| ==> index[i] < |index|
    }

    lemma {:induction false} ExactSizes()
      requires Exact()
      ensures Sized() && |moduleFlowData| == |index| == |objective.moduleLossy|
    {
    }

    /** The lossy objective, from scratch, of any modules of the current network. */
    ghost function ObjectiveOf(modules: seq<nat>): real
      requires Sized() && |modules| == |index|
      reads `net, `nodes, `index, `moduleMembers, objective.base
    {
      LossyObjective(objective.Coding(), objective.base.exitNetworkFlow, objective.base.nodeFlowLogNodeFlow, net, nodes,
                     modules)
    }

    lemma {:induction false} CodelengthIsObjective()
      requires Exact()
      ensures Sized() && objective.GetCodelength() == ObjectiveOf(index)
    {
      ExactSizes();
      hide Codelength, TermSum, LossySum;
    }

    /** The least objective of the partitions of the current network. */
    ghost function LowestOfNetwork(): real
      requires net.Valid() && |net.nodes| == |nodes|
      reads this, objective.base
    {
      LowestLossyObjective(objective.Coding(), objective.base.exitNetworkFlow, objective.base.nodeFlowLogNodeFlow, net,
                           nodes)
    }

    lemma {:induction false} CodelengthBounded()
      requires Exact()
      ensures net.Valid() && |net.nodes| == |nodes| && LowestOfNetwork() <= objective.GetCodelength()
    {
      hide LossyObjective, LowestLossyObjective, LossyMapEquation.GetCodelength;
      ExactSizes();
      CodelengthIsObjective();
      var least := LossyObjectiveBounded(objective.Coding(), objective.base.exitNetworkFlow,
          objective.base.nodeFlowLogNodeFlow, net, nodes, index);
    }

    method InitPartition(network: Network, lossy: seq<LossyData>)
      requires Configured() && network.Valid() && |lossy| == |network.nodes|
      requires objective.base.exitNetworkFlowLog == objective.base.code.PLogP(objective.base.exitNetworkFlow)
      modifies this, objective, objective.base
      ensures Valid() && net == network && nodes == lossy && index == Identity(|network.nodes|)
      ensures StateNow() == FreshState(|network.nodes|)
      ensures Constants() == old(Constants())
    {
      hide Kept, Identity, Ones, LossyMapEquation.Tracks, NumZeros;
      KeptSingletons(network);
      net, nodes := network, lossy;
      index, moduleFlowData := Identity(|net.nodes|), net.nodes;
      moduleMembers, emptyModules := Ones(|net.nodes|), [];
      dirty := seq(|net.nodes|, (i: nat) => true);
      objective.InitPartition(net.nodes, lossy);
    }

    // ----- One move -----

    /** What is predicted for a move is the change of the lossy objective from scratch. */
    lemma {:induction false} PredictedIsChange(a: nat, oldDelta: DeltaFlow, newDelta: DeltaFlow)
      requires Exact() && a < |index| && oldDelta.moduleId == index[a]
      requires ExactDelta(net, index, a, oldDelta) && ExactDelta(net, index, a, newDelta)
      ensures Sized() && |moduleFlowData| == |index| == |objective.moduleLossy| && newDelta.moduleId < |index|
      ensures Predicted(a, oldDelta, newDelta)
           == ObjectiveOf(index[a := newDelta.moduleId]) - objective.GetCodelength()
    {
      CodelengthIsObjective();
      ExactSizes();
      hide LossyMapEquation.Tracks, LossyMapEquation.GetDeltaCodelengthOnMovingNode, Codelength, LossySum, AllLossyData,
           AllModuleData, FlowBetween, Moved, MembersMoved, LossyMapEquation.GetCodelength;
      if newDelta.moduleId == index[a] {
        assert index[a := newDelta.moduleId] == index;
      } else {
        KeptByMove(net, index, moduleFlowData, moduleMembers, a, oldDelta, newDelta);
        LossyDeltaIsExact(objective, net.nodes[a], nodes[a], oldDelta, newDelta, moduleFlowData, nodes, index, a);
      }
    }

    ghost function Predicted(a: nat, oldDelta: DeltaFlow, newDelta: DeltaFlow): real
      requires a < |net.nodes| == |nodes| && |moduleFlowData| == |objective.moduleLossy|
      requires oldDelta.moduleId < |moduleFlowData| && newDelta.moduleId < |moduleFlowData|
      reads `net, `nodes, `moduleFlowData, objective, objective.base
    {
      if oldDelta.moduleId == newDelta.moduleId then 0.0
      else objective.GetDeltaCodelengthOnMovingNode(net.nodes[a], nodes[a], oldDelta, newDelta, moduleFlowData)
    }

    /** A move with exact deltas keeps everything exact and changes the codelength by what was predicted. */
    method CommitMove(a: nat, oldDelta: DeltaFlow, newDelta: DeltaFlow)
      requires a < |index| && oldDelta.moduleId == index[a] && newDelta.moduleId != index[a]
      requires Exact() && ExactDelta(net, index, a, oldDelta) && ExactDelta(net, index, a, newDelta)
      modifies `index, `moduleFlowData, `moduleMembers, objective, objective.base
      ensures Exact() && index == old(index)[a := newDelta.moduleId] && Constants() == old(Constants())
      ensures |old(moduleMembers)| == |old(index)| && newDelta.moduleId < |old(index)|
      ensures old(moduleMembers)[oldDelta.moduleId] > 0
      ensures moduleMembers == MembersMoved(old(moduleMembers), oldDelta.moduleId, newDelta.moduleId)
      ensures |net.nodes| == |nodes| == |old(index)| == |old(moduleFlowData)| == |old(objective.moduleLossy)|
      ensures objective.GetCodelength() == old(objective.GetCodelength() + Predicted(a, oldDelta, newDelta))
    {
      hide Kept, ExactDelta, LossyMapEquation.Tracks, LossyMapEquation.GetDeltaCodelengthOnMovingNode, Moved, MoveOk,
           LossyMapEquation.GetCodelength, Network.Valid;
      ExactSizes();
      KeptByMove(net, index, moduleFlowData, moduleMembers, a, oldDelta, newDelta);
      moduleFlowData :=
        objective.UpdateCodelengthOnMovingNode(net.nodes[a], nodes[a], oldDelta, newDelta, moduleFlowData, nodes,
            index, a);
      moduleMembers := moduleMembers[oldDelta.moduleId := moduleMembers[oldDelta.moduleId] - 1];
      moduleMembers := moduleMembers[newDelta.moduleId := moduleMembers[newDelta.moduleId] + 1];
      index := index[a := newDelta.moduleId];
    }

    /** A move that also keeps the list of empty modules at its length. */
    method MakeMove(a: nat, oldDelta: DeltaFlow, newDelta: DeltaFlow)
      requires a < |index| && oldDelta.moduleId == index[a] && newDelta.moduleId != index[a]
      requires Valid() && ExactDelta(net, index, a, oldDelta) && ExactDelta(net, index, a, newDelta)
      modifies `index, `moduleFlowData, `moduleMembers, `emptyModules, objective, objective.base
      ensures Valid() && index == old(index)[a := newDelta.moduleId] && Constants() == old(Constants())
      ensures newDelta.moduleId < |index| && old(Sized())
      ensures |old(moduleFlowData)| == |old(index)| == |old(objective.moduleLossy)|
      ensures objective.GetCodelength() == old(objective.GetCodelength() + Predicted(a, oldDelta, newDelta))
      ensures ListNow().Ok() && old(ListNow()).Ok() && ListNow() == ListMoved(old(ListNow()), a, newDelta.moduleId)
    {
      hide Kept, ExactDelta, MembersMoved, NumZeros, LossyMapEquation.Tracks, LossyMapEquation.GetCodelength,
           LossyOptimizer.Predicted, Network.Valid;
      ListNowOk();
      ExactSizes();
      ExactDeltaBound(net, index, a, newDelta);
      KeptSizes(net, index, moduleFlowData, moduleMembers);
      var oldM, newM := index[a], newDelta.moduleId;
      EmptyListCounts(emptyModules, moduleMembers, oldM, newM);
      ghost var listAfter := EmptyListMoved(emptyModules, moduleMembers, oldM, newM);
      if moduleMembers[newM] == 0 {
        emptyModules := emptyModules[..|emptyModules| - 1];
      }
      if moduleMembers[oldM] == 1 {
        emptyModules := emptyModules + [oldM];
      }
      assert emptyModules == listAfter;
      CommitMove(a, oldDelta, newDelta);
      ListNowOk();
    }

    /** A move to a given module changes the objective by the difference of its two values from scratch. */
    method MoveNodeToPredefinedModule(a: nat, newM: nat) returns (moved: bool)
      requires Valid() && a < |index| && newM < |index|
      modifies `index, `moduleFlowData, `moduleMembers, `emptyModules, objective, objective.base
      ensures Valid() && Constants() == old(Constants())
      ensures index == old(index)[a := newM] && moved == (old(index)[a] != newM)
      ensures old(Sized()) && objective.GetCodelength() == old(ObjectiveOf(index[a := newM]))
      ensures old(ListNow()).Ok() && ListNow() == ListMoved(old(ListNow()), a, newM)
    {
      hide Kept, ExactDelta, LossyMapEquation.Tracks, LossyMapEquation.GetCodelength, LossyOptimizer.ObjectiveOf,
           LossyOptimizer.Predicted, Network.Valid;
      CodelengthIsObjective();
      ListNowOk();
      var oldM := index[a];
      if newM == oldM {
        assert index[a := newM] == index;
        return false;
      }
      CarriedByKept(net, index, moduleFlowData, moduleMembers);
      var oldDelta, newDelta := LinkDeltas(net, index, moduleFlowData, a, oldM, newM);
      PredictedIsChange(a, oldDelta, newDelta);
      MakeMove(a, oldDelta, newDelta);
      return true;
    }

    method MoveActiveNodesToPredefinedModules(modules: seq<nat>)
      requires Valid() && net.Partition(modules)
      modifies `index, `moduleFlowData, `moduleMembers, `emptyModules, objective, objective.base
      ensures Valid() && index == modules && Constants() == old(Constants())
      ensures old(ListNow()).Ok() && |old(index)| == |modules|
      ensures ListNow() == ListAfter(old(ListNow()), modules, |modules|)
    {
      hide LossyOptimizer.Exact, EmptyListOk, LossyOptimizer.ObjectiveOf, ListState.Ok, ListMoved, ListAfter;
      SameLength();
      ListNowOk();
      ghost var start := ListNow();
      ListAfterNone(start, modules);
      for i := 0 to |index|
        invariant Valid() && |index| == |modules| && Constants() == old(Constants())
        invariant ListNow() == ListAfter(start, modules, i)
        invariant forall k :: 0 <= k < i ==> index[k] == modules[k]
      {
        var moved := MoveNodeToPredefinedModule(i, modules[i]);
        ListAfterNext(start, modules, i);
      }
    }

    lemma {:induction false} SameLength()
      requires Exact()
      ensures |index| == |net.nodes|
    {
    }

    // ----- Moves to the best module -----

    method CollectDeltas(a: nat) returns (deltaFlow: map<nat, DeltaFlow>)
      requires Valid() && a < |index|
      ensures index[a] in deltaFlow
      ensures forall m :: m in deltaFlow ==>
                deltaFlow[m].moduleId == m < |index| && ExactDelta(net, index, a, deltaFlow[m])
      ensures Sized() && forall m :: Candidate(net, index, moduleMembers, emptyModules, a, m) ==> m in deltaFlow
      ensures forall m :: m in deltaFlow ==>
                Candidate(net, index, moduleMembers, emptyModules, a, m) || (numRandomMoves > 0 && m in index)
      ensures net.Partition(index)
      ensures forall m :: m in deltaFlow ==> deltaFlow[m].deltaExit == LinkExit(net, index, a, m)
    {
      hide LossyMapEquation.Tracks, TableFor, ExactDelta, LinkedTo, Network.Valid, LinkExit;
      ExactSizes();
      CarriedByKept(net, index, moduleFlowData, moduleMembers);
      var links, picked := CollectLinks(net, index, a, numRandomMoves);
      deltaFlow := OfferEmptyModule(net, index, moduleMembers, emptyModules, a, links);
      deltaFlow := AddTeleportationFlowToAll(net, index, moduleFlowData, a, deltaFlow);
    }

    /** So it is the change of the objective that the sweeps see. */
    lemma {:induction false} PredictedInTerrain(a: nat, oldDelta: DeltaFlow, newDelta: DeltaFlow)
      requires Exact() && a < |index| && oldDelta.moduleId == index[a]
      requires ExactDelta(net, index, a, oldDelta)
      requires ExactDelta(net, index, a, newDelta)
      ensures a < |net.nodes| == |nodes| && |index| == |moduleFlowData| == |objective.moduleLossy|
      ensures newDelta.moduleId < |index|
      ensures oldDelta.moduleId < |moduleFlowData|
      ensures Predicted(a, oldDelta, newDelta)
           == ObjectiveWith(TerrainNow(), index, a, newDelta.moduleId) - TerrainNow().objective(index)
    {
      hide LossyObjective, LossyMapEquation.Tracks, LossyMapEquation.GetCodelength, LossyTerrain,
           LossyOptimizer.Predicted, ExactDelta;
      ExactSizes();
      PredictedIsChange(a, oldDelta, newDelta);
      CodelengthInTerrain();
      KeptValid(net, index, moduleFlowData, moduleMembers);
      LossyTerrainParts(objective.Coding(), objective.base.exitNetworkFlow, objective.base.nodeFlowLogNodeFlow, net,
                        nodes, minimumSingleNodeImprovement, numRandomMoves > 0, index[a := newDelta.moduleId]);
    }

    /** What the search over the table of candidates has found. */
    ghost predicate Searched(a: nat, deltaFlow: map<nat, DeltaFlow>, greedy: DeltaFlow, strongest: DeltaFlow)
      requires a < |index| == |net.nodes| == |nodes| && |moduleFlowData| == |index| == |objective.moduleLossy|
      requires index[a] in deltaFlow && index[a] < |index|
      requires forall m :: m in deltaFlow ==> deltaFlow[m].moduleId == m < |index|
      reads this, objective, objective.base
    {
      var own := deltaFlow[index[a]];
      && greedy.moduleId in deltaFlow && greedy == deltaFlow[greedy.moduleId]
      && (greedy.moduleId != index[a] ==> Predicted(a, own, greedy) < -minimumSingleNodeImprovement)
      && (forall m :: m in deltaFlow ==>
            Predicted(a, own, greedy) <= Predicted(a, own, deltaFlow[m]) + minimumSingleNodeImprovement)
      && strongest.moduleId in deltaFlow && strongest == deltaFlow[strongest.moduleId]
      && (strongest.moduleId != index[a] ==> own.deltaExit < strongest.deltaExit)
      && (forall m :: m in deltaFlow ==> deltaFlow[m].deltaExit <= strongest.deltaExit)
    }

    /** The better of the two is a module that the node may choose. */
    lemma {:induction false} SearchedChosen(a: nat, deltaFlow: map<nat, DeltaFlow>, greedy: DeltaFlow,
                                            strongest: DeltaFlow)
      requires Exact() && Sized() && a < |index| == |moduleFlowData| == |objective.moduleLossy| && index[a] in deltaFlow
      requires net.Valid() && net.Partition(index)
      requires forall m :: m in deltaFlow ==> deltaFlow[m].moduleId == m < |index|
      requires forall m :: m in deltaFlow ==>
                 && ExactDelta(net, index, a, deltaFlow[m])
                 && deltaFlow[m].deltaExit == LinkExit(net, index, a, m)
      requires forall m :: Candidate(net, index, moduleMembers, emptyModules, a, m) ==> m in deltaFlow
      requires forall m :: m in deltaFlow ==>
                 Candidate(net, index, moduleMembers, emptyModules, a, m)
                 || (numRandomMoves > 0 && m in index)
      requires Searched(a, deltaFlow, greedy, strongest)
      ensures Chosen(TerrainNow(), ListNow(), a,
                     if Predicted(a, deltaFlow[index[a]], strongest)
                        <= Predicted(a, deltaFlow[index[a]], greedy) + minimumSingleNodeImprovement
                     then strongest.moduleId else greedy.moduleId)
    {
      hide LossyOptimizer.Exact, LossyOptimizer.Predicted, ExactDelta, LinkExit, Candidate, LossyObjective,
           LossyMapEquation.GetCodelength,
           Network.Valid;
      var t, list, own := TerrainNow(), ListNow(), deltaFlow[index[a]];
      var offered, g, s := deltaFlow.Keys, greedy.moduleId, strongest.moduleId;
      CodelengthInTerrain();
      forall m | m in deltaFlow
        ensures Predicted(a, own, deltaFlow[m]) == ObjectiveWith(t, index, a, m) - t.objective(index)
        ensures t.exit(index, a, m) == deltaFlow[m].deltaExit
      {
        PredictedInTerrain(a, own, deltaFlow[m]);
      }
      assert Offered(t, list, a, offered);
      assert Greedy(t, index, a, offered, g);
      assert Strongest(t, index, a, offered, s);
      assert ChosenAmong(t, index, a, offered, g, s, Preferred(t, index, a, g, s));
    }

    /** The best candidate, with a preference for the most strongly connected one among equals. */
    method ChooseMove(a: nat) returns (oldDelta: DeltaFlow, best: DeltaFlow)
      requires Valid() && a < |index|
      ensures Sized() && |moduleFlowData| == |index| == |objective.moduleLossy|
      ensures oldDelta.moduleId == index[a] && best.moduleId < |index|
      ensures ExactDelta(net, index, a, oldDelta)
      ensures ExactDelta(net, index, a, best)
      ensures Chosen(TerrainNow(), ListNow(), a, best.moduleId)
    {
      hide LossyMapEquation.Tracks, Kept, EmptyListOk, ExactDelta, LossyMapEquation.GetCodelength,
           LossyMapEquation.GetDeltaCodelengthOnMovingNode,
           LossyMapEquation.GetDeltaCodelengthOnMovingNodeHoisted, MapEquation.HoistOldSide,
           Candidate, LossyOptimizer.ObjectiveOf, LinkExit, Chosen, LossyTerrain;
      ExactSizes();
      var deltaFlow := CollectDeltas(a);
      oldDelta := deltaFlow[index[a]];
      best := oldDelta;
      var bestDeltaCodelength := 0.0;
      var strongest := oldDelta;
      var deltaCodelengthOnStrongest := 0.0;
      var eps := minimumSingleNodeImprovement;
      var oldSide := objective.base.HoistOldSide(net.nodes[a], oldDelta, moduleFlowData);
      var todo := deltaFlow.Keys;
      while todo != {}
        invariant todo <= deltaFlow.Keys
        invariant best.moduleId in deltaFlow && best == deltaFlow[best.moduleId]
        invariant bestDeltaCodelength == Predicted(a, oldDelta, best) <= 0.0
        invariant best.moduleId != index[a] ==> bestDeltaCodelength < -eps
        invariant strongest.moduleId in deltaFlow && strongest == deltaFlow[strongest.moduleId]
        invariant deltaCodelengthOnStrongest == Predicted(a, oldDelta, strongest)
        invariant oldDelta.deltaExit <= strongest.deltaExit
        invariant strongest.moduleId != index[a] ==> oldDelta.deltaExit < strongest.deltaExit
        invariant forall m :: m in deltaFlow && m !in todo ==>
                    && bestDeltaCodelength <= Predicted(a, oldDelta, deltaFlow[m]) + eps
                    && deltaFlow[m].deltaExit <= strongest.deltaExit
        decreases todo
      {
        var otherModule :| otherModule in todo;
        todo := todo - {otherModule};
        if otherModule != index[a] {
          var candidate := deltaFlow[otherModule];
          HoistedLossyIsUnhoisted(objective, net.nodes[a], nodes[a], oldDelta, candidate, moduleFlowData);
          var deltaCodelength :=
            objective.GetDeltaCodelengthOnMovingNodeHoisted(net.nodes[a], nodes[a], oldDelta, oldSide, candidate,
                moduleFlowData);
          if deltaCodelength < bestDeltaCodelength - eps {
            best, bestDeltaCodelength := candidate, deltaCodelength;
          }
          if candidate.deltaExit > strongest.deltaExit {
            strongest, deltaCodelengthOnStrongest := candidate, deltaCodelength;
          }
        }
      }
      SearchedChosen(a, deltaFlow, best, strongest);
      if strongest.moduleId != best.moduleId && deltaCodelengthOnStrongest <= bestDeltaCodelength + eps {
        best := strongest;
      }
    }

    /** Visit one node: move it to its best module, and drag along the one node it leaves behind alone if
        exactly one of its links leads there. */
    method TryMoveNode(a: nat) returns (numMoved: nat, ghost to: nat)
      requires Valid() && a < |index|
      modifies `index, `moduleFlowData, `moduleMembers, `emptyModules, `dirty, objective, objective.base
      ensures Valid() && |index| == |old(index)|
      ensures Constants() == old(Constants())
      ensures old(StateNow()).Ok() && a < |old(dirty)| && to < |old(dirty)|
      ensures Chosen(old(TerrainNow()), old(ListNow()), a, to)
      ensures StateNow() == if to == old(index)[a] then old(StateNow()).(dirty := old(dirty)[a := false])
                            else AfterMove(old(TerrainNow()), old(StateNow()), a, to)
      ensures numMoved == MovedBy(old(TerrainNow()), old(StateNow()), Visit(a, to))
    {
      hide Kept, LossyMapEquation.Tracks, EmptyListOk, LossyMapEquation.GetCodelength, LossyOptimizer.ObjectiveOf,
           LossyOptimizer.Predicted, LossyMapEquation.GetDeltaCodelengthOnMovingNode,
           LossyOptimizer.Configured, ExactDelta, LossyTerrain, Chosen, ListMoved, InModule, Neighbours, Marked,
           ListState.Ok;
      ExactSizes();
      KeptSizes(net, index, moduleFlowData, moduleMembers);
      KeptValid(net, index, moduleFlowData, moduleMembers);
      ListNowOk();
      CodelengthInTerrain();
      numMoved, to := 0, index[a];
      var oldDelta, best := ChooseMove(a);
      to := best.moduleId;
      if best.moduleId == index[a] {
        dirty := dirty[a := false];
        return;
      }
      var oldModule := index[a];
      MakeMove(a, oldDelta, best);
      numMoved := 1;
      KeptValid(net, index, moduleFlowData, moduleMembers);
      KeptSizes(net, index, moduleFlowData, moduleMembers);
      dirty := MarkNeighboursDirty(net.edges, dirty, a);
      var numLinked, nodeInOldModule := CountLinksInto(net, index, a, oldModule);
      if numLinked == 1 && moduleMembers[oldModule] == 1 {
        var moved := MoveNodeToPredefinedModule(nodeInOldModule, best.moduleId);
        numMoved := 2;
        if |Neighbours(net.edges, nodeInOldModule)| > 1 {
          dirty := MarkNeighboursDirty(net.edges, dirty, nodeInOldModule);
        }
      }
    }

    /** One sweep over the nodes, in any order. In the first loop nodes do not leave modules that others have
        moved to. */
    method TryMoveEachNodeIntoBestModule(firstLoop: bool) returns (numMoved: nat, ghost visits: seq<Visit>)
      requires Valid()
      modifies `index, `moduleFlowData, `moduleMembers, `emptyModules, `dirty, objective, objective.base
      ensures Valid() && |index| == |old(index)|
      ensures Constants() == old(Constants())
      ensures SweptSerially(old(TerrainNow()), firstLoop, old(StateNow()), visits, StateNow(), numMoved)
    {
      hide LossyOptimizer.Exact, EmptyListOk, LossyMapEquation.GetCodelength, Chosen, LossyTerrain, AfterMove,
           MovedBy, VisitsOk, AfterVisits,
           MovedByAll, SweepState.Ok;
      ghost var t, start := TerrainNow(), StateNow();
      ListNowOk();
      numMoved, visits := 0, [];
      VisitsStart(t, firstLoop, start);
      var order := RandomizedIndexVector(|index|);
      for i := 0 to |order|
        invariant Valid() && |index| == |start.dirty| == |order|
        invariant Constants() == old(Constants())
        invariant |visits| == i && forall k :: 0 <= k < i ==> visits[k].node == order[k]
        invariant start.Ok() && VisitsOk(t, firstLoop, start, visits)
        invariant StateNow() == AfterVisits(t, firstLoop, start, visits)
        invariant numMoved == MovedByAll(t, firstLoop, start, visits)
      {
        var a := order[i];
        ghost var v, before := Visit(a, index[a]), StateNow();
        ListNowOk();
        MembersNow(a);
        if dirty[a] && !(firstLoop && moduleMembers[index[a]] > 1) {
          var n;
          ghost var to;
          n, to := TryMoveNode(a);
          v := Visit(a, to);
          numMoved := numMoved + n;
        } else {
          StayedPut(t, before, v);
        }
        VisitsGrow(t, firstLoop, start, visits, v);
        visits := visits + [v];
      }
    }

    lemma {:induction false} MembersNow(a: nat)
      requires Exact() && a < |index|
      ensures index[a] < |index| == |moduleMembers| && moduleMembers[index[a]] == Count(index, index[a])
    {
      hide LossyMapEquation.Tracks;
      KeptSizes(net, index, moduleFlowData, moduleMembers);
    }

    /** Sweep until nothing moves, too little improves, or the limit is reached. The effective sweeps fit into the
        distance to the least objective, so they end without a limit too. */
    method OptimizeActiveNetwork(loopLimit: nat, firstLoop: bool)
      returns (numEffectiveLoops: nat, ghost run: CoreRun)
      requires Valid() && (loopLimit > 0 || minimumCodelengthImprovement > 0.0)
      modifies `index, `moduleFlowData, `moduleMembers, `emptyModules, `dirty, objective, objective.base
      ensures Valid() && |index| == |old(index)|
      ensures Constants() == old(Constants())
      ensures CoreRunOk(old(TerrainNow()), firstLoop, false, minimumCodelengthImprovement, loopLimit, run,
                        numEffectiveLoops)
      ensures run.First() == old(StateNow()) && run.Last() == StateNow()
      ensures net.Valid() && |net.nodes| == |nodes|
      ensures Fall(numEffectiveLoops, minimumCodelengthImprovement)
           <= old(objective.GetCodelength()) - LowestOfNetwork()
      ensures loopLimit > 0 && numEffectiveLoops == loopLimit ==>
                objective.GetCodelength()
                <= old(objective.GetCodelength()) - Fall(loopLimit, minimumCodelengthImprovement)
    {
      hide LossyOptimizer.Exact, EmptyListOk, LossyMapEquation.GetCodelength, LowestLossyObjective, Fall, StepsLeft,
           Network.Valid, LossyTerrain,
           SweepMade, SoFar, CoreRunOk, Grown, SweptSerially;
      ghost var t, improvement := TerrainNow(), minimumCodelengthImprovement;
      numEffectiveLoops, run := 0, CoreRun([StateNow()], [], []);
      RunStarts(t, firstLoop, false, improvement, StateNow());
      FallMore(0, minimumCodelengthImprovement);
      var coreLoopCount := 0;
      var oldCodelength := objective.GetCodelength();
      CodelengthBounded();
      CodelengthInTerrain();
      ghost var lowest, start := LowestOfNetwork(), oldCodelength;
      while true
        invariant Valid() && |index| == |old(index)|
        invariant oldCodelength == objective.GetCodelength() == t.objective(index)
        invariant coreLoopCount == numEffectiveLoops && (loopLimit > 0 ==> coreLoopCount < loopLimit)
        invariant Constants() == old(Constants())
        invariant SoFar(t, firstLoop, false, improvement, run, numEffectiveLoops, old(StateNow()), StateNow())
        invariant lowest <= oldCodelength <= start - Fall(numEffectiveLoops, minimumCodelengthImprovement)
        decreases if loopLimit > 0 then loopLimit - coreLoopCount
                  else StepsLeft(oldCodelength, lowest, minimumCodelengthImprovement)
      {
        coreLoopCount := coreLoopCount + 1;
        ghost var before := StateNow();
        var numNodesMoved;
        ghost var visits;
        numNodesMoved, visits := TryMoveEachNodeIntoBestModule(firstLoop);
        CodelengthBounded();
        CodelengthInTerrain();
        SerialMade(t, firstLoop, before, visits, StateNow(), numNodesMoved);
        RunGoesOn(t, firstLoop, false, improvement, loopLimit, run, numEffectiveLoops, old(StateNow()), before,
                  Serial(visits), StateNow(), numNodesMoved);
        run := Grown(run, Serial(visits), StateNow(), numNodesMoved);
        if numNodesMoved == 0 || objective.GetCodelength() >= oldCodelength - minimumCodelengthImprovement {
          break;
        }
        if loopLimit == 0 {
          StepTaken(oldCodelength, objective.GetCodelength(), lowest, minimumCodelengthImprovement);
        }
        FallMore(numEffectiveLoops, minimumCodelengthImprovement);
        numEffectiveLoops := numEffectiveLoops + 1;
        oldCodelength := objective.GetCodelength();
        if coreLoopCount == loopLimit {
          break;
        }
      }
    }

    // ----- Consolidation -----

    /** Turn the current modules into the nodes of a smaller network that stands for this one. */
    method ConsolidateModules() returns (small: Network, smallNodes: seq<LossyData>, assignment: seq<nat>)
      requires Exact() && |index| > 0
      ensures LossyRepresents(net, nodes, assignment, small, smallNodes) && |small.nodes| > 0
      ensures |assignment| == |index|
      ensures forall i, j :: 0 <= i < |index| && 0 <= j < |index| ==>
                (assignment[i] == assignment[j] <==> index[i] == index[j])
      ensures small.Valid() && objective.GetCodelength()
           == LossyObjective(objective.Coding(), objective.base.exitNetworkFlow, objective.base.nodeFlowLogNodeFlow,
                             small, smallNodes, Identity(|small.nodes|))
    {
      hide MapEquation.Tracks, Represents, ModuleLinks, Codelength, LossyObjective, LossySum, AllLossyData,
           LossyMapEquation.GetCodelength, LossyRepresents;
      KeptSizes(net, index, moduleFlowData, moduleMembers);
      var ids, modules, position := NumberModules(index);
      var links := AggregateModuleLinks(net, index, undirectedClustering);
      ConsolidatedRepresents(net, index, undirectedClustering, ids, position);
      var picked := PickModules(moduleFlowData, ids);
      small := Network(picked, Rename(links, position), net.recordedTeleportation);
      assert small == Consolidated(net, index, undirectedClustering, ids, position);
      assignment := Compose(index, position);
      SameGroups(index, ids, position);
      smallNodes := objective.ConsolidateModules(ids);
      StartsOver(ids, position, small, smallNodes);
    }

    /** The consolidated network stands for this one, and starts at the codelength reached. */
    lemma {:induction false} StartsOver(ids: seq<nat>, position: seq<nat>, small: Network, smallNodes: seq<LossyData>)
      requires Exact() && Numbering(index, ids, position) && |small.nodes| == |smallNodes| == |ids|
      requires Represents(net, Compose(index, position), small) && |position| == |net.nodes|
      requires EdgesOk(ModuleLinks(net.edges, index, undirectedClustering), |position|)
      requires small == Consolidated(net, index, undirectedClustering, ids, position)
      requires forall j :: 0 <= j < |ids| ==>
                 ids[j] < |objective.moduleLossy| && smallNodes[j] == objective.moduleLossy[ids[j]]
      ensures LossyRepresents(net, nodes, Compose(index, position), small, smallNodes)
      ensures small.Valid() && objective.GetCodelength()
           == LossyObjective(objective.Coding(), objective.base.exitNetworkFlow, objective.base.nodeFlowLogNodeFlow,
                             small, smallNodes, Identity(|small.nodes|))
    {
      hide MapEquation.Tracks, Represents, LossyObjective, AllLossyData, LossyMapEquation.GetCodelength, Numbering,
           Compose, Consolidated, ModuleLinks, Kept, Network.Valid;
      CodelengthIsObjective();
      NumberingSizes(index, ids, position);
      QuotientSize(net, Compose(index, position), small);
      ConsolidatedLossy(net, nodes, index, ids, position, small, smallNodes);
      RepresentsValid(net, Compose(index, position), small);
      var code, exitFlow, nodeFlowLog :=
        objective.Coding(), objective.base.exitNetworkFlow, objective.base.nodeFlowLogNodeFlow;
      ConsolidatedLossyObjective(code, exitFlow, nodeFlowLog, net, undirectedClustering, nodes, smallNodes, index, ids,
                                 position);
    }

    // ----- Whole runs -----

    /** Modules of the wrong size, or outside the network, are refused. */
    method PerformPass(pass: Pass) returns (ok: bool, ghost run: CoreRun, ghost numEffective: nat)
      requires Valid() && StateNow() == FreshState(|index|)
      modifies `index, `moduleFlowData, `moduleMembers, `emptyModules, `dirty, objective, objective.base
      ensures Valid() && |index| == |old(index)|
      ensures ok <==> pass.Fits(|old(index)|)
      ensures ok && pass.loopLimit == 0 ==> index == pass.Start(|index|).list.index
      ensures ok && pass.loopLimit > 0 ==>
                && CoreRunOk(old(TerrainNow()), pass.firstLoop, false, minimumCodelengthImprovement, pass.loopLimit,
                             run,
                             numEffective)
                && run.First() == pass.Start(|index|) && run.Last().list.index == index
      ensures !ok ==> index == old(index)
      ensures Constants() == old(Constants())
    {
      hide LossyOptimizer.Exact, EmptyListOk, LossyTerrain, CoreRunOk, ListAfter, FreshState, ListState.Ok;
      SameLength();
      run, numEffective := NO_RUN, 0;
      if pass.predefined.Some? {
        var modules := pass.predefined.value;
        if !pass.Fits(|index|) {
          return false, run, numEffective;
        }
        MoveActiveNodesToPredefinedModules(modules);
      }
      StartIs(pass, |index|);
      assert StateNow() == pass.Start(|index|);
      if pass.loopLimit > 0 {
        var loops;
        loops, run := OptimizeActiveNetwork(pass.loopLimit, pass.firstLoop);
        numEffective := loops;
      }
      return true, run, numEffective;
    }

    /** One pass on the network that stands for the first one, and the network that stands for it afterwards.
        A pass that does not fit leaves everything at the partition reached before. */
    method MakePass(ghost network: Network, ghost lossy: seq<LossyData>, ghost assignment: seq<nat>,
                    small: Network, smallNodes: seq<LossyData>, pass: Pass)
      returns (ok: bool, q: seq<nat>, next: Network, nextNodes: seq<LossyData>, ghost level: Level)
      requires Configured() && network.Valid() && |network.nodes| == |lossy|
      requires small.Valid() && |small.nodes| > 0 && |smallNodes| == |small.nodes|
      requires LossyRepresents(network, lossy, assignment, small, smallNodes)
      requires objective.base.exitNetworkFlowLog == objective.base.code.PLogP(objective.base.exitNetworkFlow)
      modifies this, objective, objective.base
      ensures Constants() == old(Constants())
      ensures objective.base.exitNetworkFlowLog == objective.base.code.PLogP(objective.base.exitNetworkFlow)
      ensures |assignment| == |network.nodes| && forall i :: 0 <= i < |assignment| ==> assignment[i] < |q|
      ensures |q| == |small.nodes| && (ok <==> pass.Fits(|q|))
      ensures !ok ==> q == Identity(|q|) && next == small && nextNodes == smallNodes
      ensures ok ==>
                && pass.Allows(minimumCodelengthImprovement, level) && level.modules == q
                && level.terrain
                   == LossyTerrain(objective.Coding(), objective.base.exitNetworkFlow,
                                   objective.base.nodeFlowLogNodeFlow, small, smallNodes, minimumSingleNodeImprovement,
                                   numRandomMoves > 0)
      ensures next.Valid() && |next.nodes| > 0 && |nextNodes| == |next.nodes|
      ensures LossyRepresents(network, lossy, Compose(assignment, q), next, nextNodes)
      ensures objective.GetCodelength()
           == LossyObjective(objective.Coding(), objective.base.exitNetworkFlow, objective.base.nodeFlowLogNodeFlow,
                             network, lossy, Compose(assignment, q))
    {
      hide LossyOptimizer.Valid, LossyOptimizer.Exact, LossyRepresents, LossyObjective, Network.Valid, Pass.Fits,
           Compose, LossyMapEquation.GetCodelength, LossyTerrain, CoreRunOk, Pass.Start;
      InitPartition(small, smallNodes);
      ghost var terrain, run, numEffective := TerrainNow(), NO_RUN, 0;
      ok, run, numEffective := PerformPass(pass);
      ValidParts();
      if ok {
        ghost var reached := index;
        next, nextNodes, q := ConsolidateModules();
        NextPass(network, lossy, assignment, small, smallNodes, q, next, nextNodes);
        assert SameGrouping(q, reached);
      } else {
        q, next, nextNodes := index, small, smallNodes;
        StillSingle(network, lossy, assignment);
      }
      level := Level(terrain, run, numEffective, q);
    }

    /** Every pass was made on a network that stands for the first one. */
    ghost predicate GroundsOk(constants: (real, real), network: Network, lossy: seq<LossyData>,
                              levels: seq<seq<nat>>, made: seq<Level>, grounds: seq<(Network, seq<LossyData>)>)
    {
      && |made| == |grounds| == |levels|
      && forall k :: 0 <= k < |made| ==>
           && levels[k] == made[k].modules
           && LossyRepresents(network, lossy, Flattened(|network.nodes|, levels[..k]), grounds[k].0, grounds[k].1)
           && made[k].terrain
              == LossyTerrain(objective.Coding(), constants.0, constants.1, grounds[k].0, grounds[k].1,
                              minimumSingleNodeImprovement, numRandomMoves > 0)
    }

    lemma {:induction false} GroundsGrow(constants: (real, real), network: Network, lossy: seq<LossyData>,
                                         levels: seq<seq<nat>>, made: seq<Level>,
                                         grounds: seq<(Network, seq<LossyData>)>, level: Level, net: Network,
                                         nodes: seq<LossyData>)
      requires GroundsOk(constants, network, lossy, levels, made, grounds)
      requires LossyRepresents(network, lossy, Flattened(|network.nodes|, levels), net, nodes)
      requires level.terrain
            == LossyTerrain(objective.Coding(), constants.0, constants.1, net, nodes, minimumSingleNodeImprovement,
                            numRandomMoves > 0)
      ensures GroundsOk(constants, network, lossy, levels + [level.modules], made + [level], grounds + [(net, nodes)])
    {
      hide LossyRepresents, Flattened, LossyTerrain;
      forall k | 0 <= k <= |levels| ensures (levels + [level.modules])[..k] == levels[..k] {
      }
      assert levels[..|levels|] == levels;
    }

    lemma {:induction false} NoGrounds(constants: (real, real), network: Network, lossy: seq<LossyData>)
      ensures GroundsOk(constants, network, lossy, [], [], [])
    {
    }

    /** Any sequence of passes, up to the first that does not fit: levels[k] has the modules that pass k
        makes of its network, and the codelength is the lossy objective, from scratch and on the network
        the run started with, of the modules reached. */
    method Run(network: Network, lossy: seq<LossyData>, passes: seq<Pass>)
      returns (levels: seq<seq<nat>>, small: Network, smallNodes: seq<LossyData>, assignment: seq<nat>,
               ghost made: seq<Level>, ghost grounds: seq<(Network, seq<LossyData>)>)
      requires Configured() && network.Valid() && |network.nodes| == |lossy| > 0
      requires objective.base.exitNetworkFlowLog == objective.base.code.PLogP(objective.base.exitNetworkFlow)
      modifies this, objective, objective.base
      ensures PassesMade(passes, minimumCodelengthImprovement, made, |small.nodes|)
      ensures Constants() == old(Constants())
      ensures GroundsOk(Constants(), network, lossy, levels, made, grounds)
      ensures assignment == Flattened(|network.nodes|, levels)
      ensures LossyRepresents(network, lossy, assignment, small, smallNodes) && |assignment| == |network.nodes|
      ensures passes != [] ==>
                objective.GetCodelength()
                == LossyObjective(objective.Coding(), objective.base.exitNetworkFlow,
                                  objective.base.nodeFlowLogNodeFlow, network, lossy, assignment)
    {
      hide LossyRepresents, LossyObjective, Network.Valid, Pass.Fits, Pass.Allows, Flattened, LevelsAllowed,
           LossyMapEquation.GetCodelength, LossyOptimizer.GroundsOk, LossyTerrain;
      ghost var constants := Constants();
      levels, small, smallNodes, assignment := [], network, lossy, Identity(|network.nodes|);
      made, grounds := [], [];
      NothingMade(passes, minimumCodelengthImprovement, |network.nodes|);
      NoGrounds(constants, network, lossy);
      LossyRepresentsItself(network, lossy);
      for k := 0 to |passes|
        invariant small.Valid() && |small.nodes| > 0 && |smallNodes| == |small.nodes|
        invariant LossyRepresents(network, lossy, assignment, small, smallNodes)
        invariant |assignment| == |network.nodes| && assignment == Flattened(|network.nodes|, levels)
        invariant |levels| == |made| == k && LevelsAllowed(passes, minimumCodelengthImprovement, made)
        invariant GroundsOk(constants, network, lossy, levels, made, grounds)
        invariant Constants() == constants
                  && objective.base.exitNetworkFlowLog == objective.base.code.PLogP(objective.base.exitNetworkFlow)
        invariant k > 0 ==>
                    objective.GetCodelength()
                    == LossyObjective(objective.Coding(), objective.base.exitNetworkFlow,
                                      objective.base.nodeFlowLogNodeFlow, network, lossy, assignment)
      {
        var ok, q, next, nextNodes;
        ghost var level;
        ok, q, next, nextNodes, level := MakePass(network, lossy, assignment, small, smallNodes, passes[k]);
        if !ok {
          ComposeIdentity(assignment, |q|);
          return;
        }
        LevelsAllowedNext(passes, minimumCodelengthImprovement, made, level);
        GroundsGrow(constants, network, lossy, levels, made, grounds, level, small, smallNodes);
        FlattenedNext(|network.nodes|, levels, q);
        made, grounds := made + [level], grounds + [(small, smallNodes)];
        assignment := Compose(assignment, q);
        levels, small, smallNodes := levels + [q], next, nextNodes;
      }
    }

    lemma {:induction false} ValidParts()
      requires Valid()
      ensures Exact() && |index| == |net.nodes| == |nodes|
      ensures objective.base.exitNetworkFlowLog == objective.base.code.PLogP(objective.base.exitNetworkFlow)
    {
    }

    /** Refused modules leave the single nodes, which have the objective reached before. */
    lemma {:induction false} StillSingle(network: Network, lossy: seq<LossyData>, assignment: seq<nat>)
      requires Valid() && index == Identity(|net.nodes|) && LossyRepresents(network, lossy, assignment, net, nodes)
      ensures network.Valid() && |network.nodes| == |assignment| == |lossy|
      ensures |index| == |net.nodes| && forall i :: 0 <= i < |assignment| ==> assignment[i] < |index|
      ensures Compose(assignment, index) == assignment
      ensures objective.GetCodelength()
           == LossyObjective(objective.Coding(), objective.base.exitNetworkFlow, objective.base.nodeFlowLogNodeFlow,
                             network, lossy, assignment)
    {
      hide Represents, LossyObjective, Kept, LossyMapEquation.Tracks, LossyMapEquation.GetCodelength, MembersAll;
      ValidParts();
      CodelengthIsObjective();
      RepresentsValid(network, assignment, net);
      LossyObjectiveRepresented(objective.Coding(), objective.base.exitNetworkFlow,
          objective.base.nodeFlowLogNodeFlow, network, lossy, assignment, net, nodes, Identity(|net.nodes|));
      ComposeIdentity(assignment, |net.nodes|);
    }

    lemma {:induction false} NextPass(network: Network, lossy: seq<LossyData>, assignment: seq<nat>,
                                      middle: Network, middleNodes: seq<LossyData>, q: seq<nat>,
                                      next: Network, nextNodes: seq<LossyData>)
      requires Configured() && LossyRepresents(network, lossy, assignment, middle, middleNodes)
      requires LossyRepresents(middle, middleNodes, q, next, nextNodes)
      ensures network.Valid() && next.Valid() && |nextNodes| == |next.nodes|
      ensures |assignment| == |network.nodes| == |lossy| && forall i :: 0 <= i < |assignment| ==> assignment[i] < |q|
      ensures LossyRepresents(network, lossy, Compose(assignment, q), next, nextNodes)
      ensures LossyObjective(objective.Coding(), objective.base.exitNetworkFlow, objective.base.nodeFlowLogNodeFlow,
                             next, nextNodes, Identity(|next.nodes|))
           == LossyObjective(objective.Coding(), objective.base.exitNetworkFlow, objective.base.nodeFlowLogNodeFlow,
                             network, lossy, Compose(assignment, q))
    {
      hide Represents, LossyObjective, MembersAll;
      LossyRepresentsCompose(network, lossy, assignment, middle, middleNodes, q, next, nextNodes);
      RepresentsValid(network, assignment, middle);
      RepresentsValid(middle, q, next);
      var all := Compose(assignment, q);
      LossyObjectiveRepresented(objective.Coding(), objective.base.exitNetworkFlow,
          objective.base.nodeFlowLogNodeFlow, network, lossy, all, next, nextNodes, Identity(|next.nodes|));
      ComposeIdentity(all, |next.nodes|);
    }
  }
}
