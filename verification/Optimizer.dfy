/** The optimizer: greedy moves of nodes between modules, with every module's flow and every
    codelength term maintained move by move.

    Random choices of the program (order of visits, order of candidates, extra candidate modules)
    are nondeterministic here, so every contract holds for all of them. */
module Optimizers {
  import opened Sums
  import opened FlowNetwork
  import opened MapEquations
  import opened BiasedMapEquations
  import opened Partitions
  import opened Consolidation
  import opened LinkTables
  import opened Sweeps

  /** A move found against the snapshot at the start of a parallel sweep. */
  datatype Proposal = Proposal(oldDelta: DeltaFlow, newDelta: DeltaFlow, targetWasEmpty: bool)

  /** What the sweeps see of a network under this objective. */
  ghost function OptimizerTerrain(setting: Setting, net: Network, threshold: real, random: bool): Terrain
  {
    Terrain(
      net.edges, threshold,
      (index: seq<nat>) =>
        if net.Valid() && net.Partition(index) && setting.bias.totalDegree != 0.0 then Objective(setting, net, index)
        else 0.0,
      (index: seq<nat>, a: nat, m: nat) =>
        if net.Valid() && net.Partition(index) && a < |index| then LinkExit(net, index, a, m) else 0.0,
      (list: ListState, a: nat, m: nat) =>
        && net.Valid() && |net.nodes| == |list.index| == |list.members| && a < |list.index|
        && list.index[a] < |list.index| && Candidate(net, list.index, list.members, list.emptyModules, a, m),
      random)
  }

  lemma {:induction false} TerrainObjective(setting: Setting, net: Network, threshold: real, random: bool,
                                            index: seq<nat>)
    requires net.Valid() && net.Partition(index) && setting.bias.totalDegree != 0.0
    ensures OptimizerTerrain(setting, net, threshold, random).objective(index) == Objective(setting, net, index)
    ensures OptimizerTerrain(setting, net, threshold, random).threshold == threshold
    ensures OptimizerTerrain(setting, net, threshold, random).edges == net.edges
  {
  }

  /** A node alone in its module is never sent into an empty one. */
  lemma {:induction false} ChosenHasMembers(setting: Setting, net: Network, threshold: real, random: bool,
                                            list: ListState, a: nat, to: nat)
    requires list.Ok() && a < |list.index| && Chosen(OptimizerTerrain(setting, net, threshold, random), list, a, to)
    ensures Count(list.index, list.index[a]) > 1 || Count(list.index, to) > 0
  {
    var t := OptimizerTerrain(setting, net, threshold, random);
    var offered, greedy, strongest :|
      Offered(t, list, a, offered) && ChosenAmong(t, list.index, a, offered, greedy, strongest, to);
    assert to in offered;
    CountZero(list.index, to);
    CountZero(list.index, list.index[a]);
    if t.offers(list, a, to) && LinkedTo(net.edges, list.index, a, to) {
      var k :| 0 <= k < |net.edges| && LinkJoins(net.edges[k], list.index, a, to);
      assert to in list.index;
    }
  }

  /** What the propose phase guarantees about a proposal, against its snapshot. */
  ghost predicate ProposalOk(net: Network, snapshot: seq<nat>, a: nat, p: Proposal)
  {
    && ExactDelta(net, snapshot, a, p.oldDelta) && ExactDelta(net, snapshot, a, p.newDelta)
    && p.oldDelta.moduleId == snapshot[a] && p.newDelta.moduleId != snapshot[a]
    && (p.targetWasEmpty <==> Count(snapshot, p.newDelta.moduleId) == 0)
    && (Count(snapshot, snapshot[a]) == 1 ==> !p.targetWasEmpty)
  }

  /** As long as the module has its members, a delta found on the snapshot is exact. */
  lemma {:induction false} DeltaStillExact(net: Network, snapshot: seq<nat>, index: seq<nat>, a: nat, delta: DeltaFlow)
    requires ExactDelta(net, snapshot, a, delta) && net.Partition(index)
    requires SameMembers(index, snapshot, delta.moduleId)
    ensures ExactDelta(net, index, a, delta)
    ensures Count(index, delta.moduleId) == Count(snapshot, delta.moduleId)
  {
    FlowBetweenSame(net, index, snapshot, a, delta.moduleId);
    CountSame(index, snapshot, delta.moduleId);
  }

  class Optimizer {
    const objective: BiasedMapEquation
    const consolidatedObjective: BiasedMapEquation
    const minimumSingleNodeImprovement: real
    const minimumCodelengthImprovement: real
    const undirectedClustering: bool
    const numRandomMoves: nat

    var net: Network
    var index: seq<nat>
    var moduleFlowData: seq<FlowData>
    var moduleMembers: seq<nat>
    var emptyModules: seq<nat>
    var dirty: seq<bool>
    var moduleTouchedSweep: seq<nat>
    var parallelMoveSweep: nat

    constructor (objective: BiasedMapEquation, consolidatedObjective: BiasedMapEquation,
                 minimumSingleNodeImprovement: real, minimumCodelengthImprovement: real, undirectedClustering: bool,
                 numRandomMoves: nat)
      requires objective != consolidatedObjective && objective.base != consolidatedObjective.base
      requires objective.base.code == consolidatedObjective.base.code && objective.bias == consolidatedObjective.bias
      requires minimumSingleNodeImprovement >= 0.0 && minimumCodelengthImprovement > 0.0
      requires objective.bias.totalDegree != 0.0 && objective.base.code.PLogP(0.0) == 0.0
      ensures Configured()
      ensures this.objective == objective && this.consolidatedObjective == consolidatedObjective
      ensures this.minimumSingleNodeImprovement == minimumSingleNodeImprovement
      ensures this.minimumCodelengthImprovement == minimumCodelengthImprovement
      ensures this.undirectedClustering == undirectedClustering && this.numRandomMoves == numRandomMoves
      ensures parallelMoveSweep == 0 && moduleTouchedSweep == []
    {
      this.objective, this.consolidatedObjective := objective, consolidatedObjective;
      this.minimumSingleNodeImprovement := minimumSingleNodeImprovement;
      this.minimumCodelengthImprovement := minimumCodelengthImprovement;
      this.undirectedClustering, this.numRandomMoves := undirectedClustering, numRandomMoves;
      net := Network([], [], false);
      index, moduleFlowData, moduleMembers, emptyModules, dirty := [], [], [], [], [];
      moduleTouchedSweep, parallelMoveSweep := [], 0;
    }

    ghost predicate Configured()
    {
      && objective != consolidatedObjective && objective.base != consolidatedObjective.base
      && objective.base.code == consolidatedObjective.base.code && objective.bias == consolidatedObjective.bias
      && minimumSingleNodeImprovement >= 0.0 && minimumCodelengthImprovement > 0.0
      && objective.bias.totalDegree != 0.0 && objective.base.code.PLogP(0.0) == 0.0
    }

    lemma {:induction false} ConfiguredParts()
      requires Configured()
      ensures minimumCodelengthImprovement > 0.0 && Constants().bias.totalDegree != 0.0
      ensures Constants().code.PLogP(0.0) == 0.0
    {
    }

    function Constants(): Setting
      reads objective, objective.base
    {
      Setting(objective.base.code, objective.bias, objective.base.exitNetworkFlow, objective.base.nodeFlowLogNodeFlow)
    }

    /** Everything kept incrementally equals its from-scratch value on the current assignment. */
    ghost predicate Exact()
      reads `net, `index, `moduleFlowData, `moduleMembers, objective, objective.base
    {
      && Configured()
      && Kept(net, index, moduleFlowData, moduleMembers)
      && objective.Tracks(moduleFlowData, moduleMembers)
    }

    ghost predicate Valid()
      reads this, objective, objective.base
    {
      Exact() && EmptyListOk(emptyModules, moduleMembers) && |dirty| == |index|
    }

    /** The tracked codelength is the from-scratch objective of the current partition. */
    lemma {:induction false} CodelengthIsObjective()
      requires Exact()
      ensures objective.GetCodelength() == Objective(Constants(), net, index)
    {
    }

    lemma {:induction false} ConstantsOk()
      requires Exact()
      ensures Constants().bias.totalDegree != 0.0 && Constants().code.PLogP(0.0) == 0.0
      ensures objective.base.exitNetworkFlowLog == objective.base.code.PLogP(objective.base.exitNetworkFlow)
    {
    }

    // ----- Initial partition -----

    method InitPartition(network: Network)
      requires Configured() && network.Valid()
      requires objective.base.exitNetworkFlowLog == objective.base.code.PLogP(objective.base.exitNetworkFlow)
      modifies this, objective, objective.base
      ensures Valid() && net == network && index == Identity(|network.nodes|)
      ensures StateNow() == FreshState(|network.nodes|) && Constants() == old(Constants())
      ensures moduleTouchedSweep == old(moduleTouchedSweep) && parallelMoveSweep == old(parallelMoveSweep)
    {
      hide Kept, Identity, Ones, BiasedMapEquation.Tracks, Network.Valid, NumZeros;
      KeptSingletons(network);
      net := network;
      var n := |net.nodes|;
      moduleFlowData, index := [], [];
      IdentityGrows();
      assert net.nodes[..0] == [];
      for i := 0 to n
        invariant index == Identity(i)
        invariant moduleFlowData == net.nodes[..i]
        modifies `index, `moduleFlowData
      {
        index := index + [i];
        moduleFlowData := moduleFlowData + [net.nodes[i]];
      }
      assert net.nodes[..n] == net.nodes;
      dirty := seq(n, (i: nat) => true);
      moduleMembers := Ones(n);
      emptyModules := [];
      objective.InitPartition(net.nodes, moduleMembers);
    }

    static lemma {:induction false} IdentityGrows()
      ensures Identity(0) == [] && forall i: nat :: Identity(i + 1) == Identity(i) + [i]
    {
    }

    // ----- One committed move -----

    /** Module data, members, terms and the node's index, for a move with exact deltas. */
    method CommitMove(a: nat, oldDelta: DeltaFlow, newDelta: DeltaFlow)
      requires Exact() && ExactDelta(net, index, a, oldDelta) && ExactDelta(net, index, a, newDelta)
      requires oldDelta.moduleId == index[a] && newDelta.moduleId != index[a]
      modifies `index, `moduleFlowData, `moduleMembers, objective, objective.base
      ensures Exact() && Constants() == old(Constants())
      ensures index == old(index)[a := newDelta.moduleId]
      ensures |old(moduleMembers)| == |old(moduleFlowData)| == |old(index)| && old(moduleMembers)[oldDelta.moduleId] > 0
      ensures moduleMembers == MembersMoved(old(moduleMembers), oldDelta.moduleId, newDelta.moduleId)
      ensures objective.GetCodelength()
           == old(objective.GetCodelength()
                  + objective.GetDeltaCodelengthOnMovingNode(net.nodes[a], oldDelta, newDelta, moduleFlowData,
                      moduleMembers))
    {
      hide Kept, ExactDelta, Moved, MoveOk, BiasedMapEquation.Tracks, BiasedMapEquation.GetCodelength,
           BiasedMapEquation.GetDeltaCodelengthOnMovingNode, Optimizer.Configured;
      KeptByMove(net, index, moduleFlowData, moduleMembers, a, oldDelta, newDelta);
      moduleFlowData := objective.UpdateCodelengthOnMovingNode(net.nodes[a], oldDelta, newDelta, moduleFlowData,
          moduleMembers);
      moduleMembers := moduleMembers[oldDelta.moduleId := moduleMembers[oldDelta.moduleId] - 1];
      moduleMembers := moduleMembers[newDelta.moduleId := moduleMembers[newDelta.moduleId] + 1];
      index := index[a := newDelta.moduleId];
    }

    // ----- Predefined moves -----

    /** The change of codelength predicted for moving node a by the given deltas. */
    ghost function Predicted(a: nat, oldDelta: DeltaFlow, newDelta: DeltaFlow): real
      requires Exact() && a < |index| && oldDelta.moduleId < |index| && newDelta.moduleId < |index|
      reads this, objective, objective.base
    {
      if oldDelta.moduleId == newDelta.moduleId then 0.0
      else objective.GetDeltaCodelengthOnMovingNode(net.nodes[a], oldDelta, newDelta, moduleFlowData, moduleMembers)
    }

    /** Assignment, members and list of empty modules. */
    ghost function ListNow(): ListState
      reads `index, `moduleMembers, `emptyModules
    {
      ListState(index, moduleMembers, emptyModules)
    }

    /** The same with the nodes worth a visit. */
    ghost function StateNow(): SweepState
      reads `index, `moduleMembers, `emptyModules, `dirty
    {
      SweepState(ListNow(), dirty)
    }

    lemma {:induction false} ListNowOk()
      requires Valid()
      ensures ListNow().Ok() && StateNow().Ok()
    {
      hide NumZeros, AllModuleData, BiasedMapEquation.Tracks, EmptyListOk, Optimizer.Configured;
    }

    /** What the sweeps see of the current network. */
    ghost function TerrainNow(): Terrain
      reads `net, objective, objective.base
    {
      OptimizerTerrain(Constants(), net, minimumSingleNodeImprovement, numRandomMoves > 0)
    }

    lemma {:induction false} CodelengthInTerrain()
      requires Exact()
      ensures objective.GetCodelength() == TerrainNow().objective(index)
      ensures TerrainNow().threshold == minimumSingleNodeImprovement && TerrainNow().edges == net.edges
    {
      hide Objective, BiasedMapEquation.Tracks, BiasedMapEquation.GetCodelength, OptimizerTerrain;
      CodelengthIsObjective();
      ConstantsOk();
      KeptValid(net, index, moduleFlowData, moduleMembers);
      TerrainObjective(Constants(), net, minimumSingleNodeImprovement, numRandomMoves > 0, index);
    }

    /** A move that also keeps the list of empty modules at its length. */
    method MakeMove(a: nat, oldDelta: DeltaFlow, newDelta: DeltaFlow)
      requires Valid() && ExactDelta(net, index, a, oldDelta) && ExactDelta(net, index, a, newDelta)
      requires oldDelta.moduleId == index[a] && newDelta.moduleId != index[a]
      modifies `index, `moduleFlowData, `moduleMembers, `emptyModules, objective, objective.base
      ensures Valid() && Constants() == old(Constants())
      ensures index == old(index)[a := newDelta.moduleId]
      ensures objective.GetCodelength() == old(objective.GetCodelength() + Predicted(a, oldDelta, newDelta))
      ensures net == old(net) && ListNow().Ok() && old(ListNow()).Ok()
      ensures a < |old(index)| && newDelta.moduleId < |old(index)|
      ensures ListNow() == ListMoved(old(ListNow()), a, newDelta.moduleId)
    {
      hide Kept, ExactDelta, MoveOk, Moved, MembersMoved, NumZeros, BiasedMapEquation.Tracks,
           BiasedMapEquation.GetCodelength, BiasedMapEquation.GetDeltaCodelengthOnMovingNode;
      ListNowOk();
      KeptSizes(net, index, moduleFlowData, moduleMembers);
      KeptByMove(net, index, moduleFlowData, moduleMembers, a, oldDelta, newDelta);
      var oldM, newM := index[a], newDelta.moduleId;
      EmptyListCounts(emptyModules, moduleMembers, oldM, newM);
      ghost var listAfter := EmptyListMoved(emptyModules, moduleMembers, oldM, newM);
      if moduleMembers[newM] == 0 {
        emptyModules := emptyModules[..|emptyModules| - 1];
      }
      if moduleMembers[oldM] == 1 {
        emptyModules := emptyModules + [oldM];
      }
      assert emptyModules == listAfter;
      CommitMove(a, oldDelta, newDelta);
      ListNowOk();
    }

    method MoveNodeToPredefinedModule(a: nat, newM: nat) returns (moved: bool)
      requires Valid() && a < |index| && newM < |index|
      modifies `index, `moduleFlowData, `moduleMembers, `emptyModules, objective, objective.base
      ensures Valid() && Constants() == old(Constants())
      ensures index == old(index)[a := newM] && moved == (old(index)[a] != newM)
      ensures net == old(net) && old(ListNow()).Ok() && ListNow() == ListMoved(old(ListNow()), a, newM)
    {
      hide Kept, ExactDelta, BiasedMapEquation.Tracks, Optimizer.Configured, Optimizer.Predicted;
      ListNowOk();
      var oldM := index[a];
      if newM == oldM {
        assert index[a := newM] == index;
        return false;
      }
      CarriedByKept(net, index, moduleFlowData, moduleMembers);
      var oldDelta, newDelta := LinkDeltas(net, index, moduleFlowData, a, oldM, newM);
      MakeMove(a, oldDelta, newDelta);
      return true;
    }

    method MoveActiveNodesToPredefinedModules(modules: seq<nat>)
      requires Valid() && net.Partition(modules)
      modifies `index, `moduleFlowData, `moduleMembers, `emptyModules, objective, objective.base
      ensures Valid() && Constants() == old(Constants()) && index == modules && net == old(net)
      ensures old(ListNow()).Ok() && ListNow() == ListAfter(old(ListNow()), modules, |modules|)
    {
      hide Optimizer.Exact, EmptyListOk, ListState.Ok, ListMoved, ListAfter, Network.Valid;
      ListNowOk();
      ExactSizes();
      ghost var start := ListNow();
      ListAfterNone(start, modules);
      for i := 0 to |index|
        invariant Valid() && Constants() == old(Constants()) && |index| == |modules| && net == old(net)
        invariant ListNow() == ListAfter(start, modules, i)
        invariant forall k :: 0 <= k < i ==> index[k] == modules[k]
      {
        var moved := MoveNodeToPredefinedModule(i, modules[i]);
        ListAfterNext(start, modules, i);
      }
    }

    // ----- Finding the best move of one node -----

    method CollectDeltas(a: nat) returns (deltaFlow: map<nat, DeltaFlow>)
      requires Valid() && a < |index|
      ensures index[a] in deltaFlow
      ensures forall m :: m in deltaFlow ==> deltaFlow[m].moduleId == m && ExactDelta(net, index, a, deltaFlow[m])
      ensures forall m :: m in deltaFlow && Count(index, index[a]) == 1 ==> m in index
      ensures net.Valid() && |net.nodes| == |index| == |moduleMembers| && index[a] < |index|
      ensures forall m :: Candidate(net, index, moduleMembers, emptyModules, a, m) ==> m in deltaFlow
      ensures forall m :: m in deltaFlow ==>
                Candidate(net, index, moduleMembers, emptyModules, a, m) || (numRandomMoves > 0 && m in index)
      ensures net.Partition(index)
      ensures forall m :: m in deltaFlow ==> deltaFlow[m].deltaExit == LinkExit(net, index, a, m)
    {
      hide BiasedMapEquation.Tracks, Optimizer.Configured, TableFor, ExactDelta, LinkedTo, LinkExit;
      var links, picked := CollectLinks(net, index, a, numRandomMoves);
      deltaFlow := OfferEmptyModule(net, index, moduleMembers, emptyModules, a, links);
      deltaFlow := AddTeleportationFlowToAll(net, index, moduleFlowData, a, deltaFlow);
    }

    /** The objective, from scratch, with node a in module m. */
    ghost function ObjectiveAfter(a: nat, m: nat): real
      requires Exact() && a < |index| && m < |index|
      reads this, objective, objective.base
    {
      Objective(Constants(), net, index[a := m])
    }

    /** What is predicted for a move is the change of the objective from scratch. */
    lemma {:induction false} PredictedIsChange(a: nat, oldDelta: DeltaFlow, newDelta: DeltaFlow)
      requires Exact() && ExactDelta(net, index, a, oldDelta) && ExactDelta(net, index, a, newDelta)
      requires oldDelta.moduleId == index[a]
      ensures a < |index| && newDelta.moduleId < |index|
      ensures Predicted(a, oldDelta, newDelta) == ObjectiveAfter(a, newDelta.moduleId) - objective.GetCodelength()
    {
      CodelengthIsObjective();
      hide BiasedMapEquation.Tracks, BiasedMapEquation.GetDeltaCodelengthOnMovingNode, Codelength, NumActive,
           BiasParameters.Bias, AllModuleData, FlowBetween, Moved, MembersMoved;
      ConstantsOk();
      if newDelta.moduleId == index[a] {
        assert index[a := newDelta.moduleId] == index;
      } else {
        KeptByMove(net, index, moduleFlowData, moduleMembers, a, oldDelta, newDelta);
        BiasedDeltaIsExact(objective, net.nodes[a], oldDelta, newDelta, moduleFlowData, moduleMembers);
      }
    }

    /** So it is the change of the objective that the sweeps see. */
    lemma {:induction false} PredictedInTerrain(a: nat, oldDelta: DeltaFlow, newDelta: DeltaFlow)
      requires Exact() && ExactDelta(net, index, a, oldDelta) && ExactDelta(net, index, a, newDelta)
      requires oldDelta.moduleId == index[a]
      ensures a < |index| && newDelta.moduleId < |index|
      ensures Predicted(a, oldDelta, newDelta)
           == ObjectiveWith(TerrainNow(), index, a, newDelta.moduleId) - TerrainNow().objective(index)
    {
      hide Objective, BiasedMapEquation.Tracks, BiasedMapEquation.GetCodelength, OptimizerTerrain, Optimizer.Predicted;
      PredictedIsChange(a, oldDelta, newDelta);
      CodelengthInTerrain();
      ConstantsOk();
      KeptValid(net, index, moduleFlowData, moduleMembers);
      TerrainObjective(Constants(), net, minimumSingleNodeImprovement, numRandomMoves > 0,
                       index[a := newDelta.moduleId]);
    }

    /** What the search over the table of candidates has found. */
    ghost predicate Searched(a: nat, deltaFlow: map<nat, DeltaFlow>, greedy: DeltaFlow, strongest: DeltaFlow)
      requires Exact() && a < |index| && index[a] in deltaFlow
      requires index[a] < |index| && forall m :: m in deltaFlow ==> deltaFlow[m].moduleId == m < |index|
      reads this, objective, objective.base
    {
      var own := deltaFlow[index[a]];
      && greedy.moduleId in deltaFlow && greedy == deltaFlow[greedy.moduleId]
      && (greedy.moduleId != index[a] ==> Predicted(a, own, greedy) < -minimumSingleNodeImprovement)
      && (forall m :: m in deltaFlow ==>
            Predicted(a, own, greedy) <= Predicted(a, own, deltaFlow[m]) + minimumSingleNodeImprovement)
      && strongest.moduleId in deltaFlow && strongest == deltaFlow[strongest.moduleId]
      && (strongest.moduleId != index[a] ==> own.deltaExit < strongest.deltaExit)
      && (forall m :: m in deltaFlow ==> deltaFlow[m].deltaExit <= strongest.deltaExit)
    }

    /** The better of the two is a module that the node may choose. */
    lemma {:induction false} SearchedChosen(a: nat, deltaFlow: map<nat, DeltaFlow>, greedy: DeltaFlow,
                                            strongest: DeltaFlow)
      requires Exact() && a < |index| == |net.nodes| == |moduleMembers| && index[a] in deltaFlow
      requires net.Valid() && net.Partition(index) && index[a] < |index|
      requires forall m :: m in deltaFlow ==> deltaFlow[m].moduleId == m < |index|
      requires forall m :: m in deltaFlow ==>
                 ExactDelta(net, index, a, deltaFlow[m]) && deltaFlow[m].deltaExit == LinkExit(net, index, a, m)
      requires forall m :: Candidate(net, index, moduleMembers, emptyModules, a, m) ==> m in deltaFlow
      requires forall m :: m in deltaFlow ==>
                 Candidate(net, index, moduleMembers, emptyModules, a, m) || (numRandomMoves > 0 && m in index)
      requires Searched(a, deltaFlow, greedy, strongest)
      ensures Chosen(TerrainNow(), ListNow(), a,
                     if Predicted(a, deltaFlow[index[a]], strongest)
                        <= Predicted(a, deltaFlow[index[a]], greedy) + minimumSingleNodeImprovement
                     then strongest.moduleId else greedy.moduleId)
    {
      hide Optimizer.Exact, Optimizer.Predicted, ExactDelta, LinkExit, Candidate, Objective, Optimizer.Constants,
           Network.Valid;
      var t, list, own := TerrainNow(), ListNow(), deltaFlow[index[a]];
      var offered := deltaFlow.Keys;
      CodelengthInTerrain();
      forall m | m in deltaFlow
        ensures Predicted(a, own, deltaFlow[m]) == ObjectiveWith(t, index, a, m) - t.objective(index)
        ensures t.exit(index, a, m) == deltaFlow[m].deltaExit
      {
        PredictedInTerrain(a, own, deltaFlow[m]);
      }
      assert Offered(t, list, a, offered);
      assert Greedy(t, index, a, offered, greedy.moduleId);
      assert Strongest(t, index, a, offered, strongest.moduleId);
      assert ChosenAmong(t, index, a, offered, greedy.moduleId, strongest.moduleId,
                         Preferred(t, index, a, greedy.moduleId, strongest.moduleId));
    }

    /** The best candidate, with a preference for the most strongly connected one among equals. */
    method ChooseMove(a: nat) returns (oldDelta: DeltaFlow, best: DeltaFlow)
      requires Valid() && a < |index|
      ensures ExactDelta(net, index, a, oldDelta) && oldDelta.moduleId == index[a]
      ensures ExactDelta(net, index, a, best) && best.moduleId < |index|
      ensures Chosen(TerrainNow(), ListNow(), a, best.moduleId)
    {
      hide BiasedMapEquation.Tracks, Kept, Codelength, BiasedMapEquation.GetDeltaCodelengthOnMovingNode,
           BiasedMapEquation.GetDeltaCodelengthOnMovingNodeHoisted, BiasedMapEquation.HoistOldSide, FlowBetween,
           Candidate, Optimizer.ObjectiveAfter, BiasedMapEquation.GetCodelength, LinkExit, Chosen, OptimizerTerrain;
      KeptSizes(net, index, moduleFlowData, moduleMembers);
      var deltaFlow := CollectDeltas(a);
      oldDelta := deltaFlow[index[a]];
      best := oldDelta;
      var bestDeltaCodelength := 0.0;
      var strongest := oldDelta;
      var deltaCodelengthOnStrongest := 0.0;
      var eps := minimumSingleNodeImprovement;
      var oldSide := objective.HoistOldSide(net.nodes[a], oldDelta, moduleFlowData);
      var todo := deltaFlow.Keys;
      while todo != {}
        invariant todo <= deltaFlow.Keys
        invariant best.moduleId in deltaFlow && best == deltaFlow[best.moduleId]
        invariant bestDeltaCodelength == Predicted(a, oldDelta, best) <= 0.0
        invariant best.moduleId != index[a] ==> bestDeltaCodelength < -eps
        invariant strongest.moduleId in deltaFlow && strongest == deltaFlow[strongest.moduleId]
        invariant deltaCodelengthOnStrongest == Predicted(a, oldDelta, strongest)
        invariant oldDelta.deltaExit <= strongest.deltaExit
        invariant strongest.moduleId != index[a] ==> oldDelta.deltaExit < strongest.deltaExit
        invariant forall m :: m in deltaFlow && m !in todo ==>
                    && bestDeltaCodelength <= Predicted(a, oldDelta, deltaFlow[m]) + eps
                    && deltaFlow[m].deltaExit <= strongest.deltaExit
        decreases todo
      {
        var otherModule :| otherModule in todo;
        todo := todo - {otherModule};
        if otherModule != index[a] {
          var candidate := deltaFlow[otherModule];
          HoistedBiasedIsUnhoisted(objective, net.nodes[a], oldDelta, candidate, moduleFlowData, moduleMembers);
          var deltaCodelength :=
            objective.GetDeltaCodelengthOnMovingNodeHoisted(oldDelta, oldSide, candidate, moduleFlowData,
                moduleMembers);
          if deltaCodelength < bestDeltaCodelength - eps {
            best, bestDeltaCodelength := candidate, deltaCodelength;
          }
          if candidate.deltaExit > strongest.deltaExit {
            strongest, deltaCodelengthOnStrongest := candidate, deltaCodelength;
          }
        }
      }
      SearchedChosen(a, deltaFlow, best, strongest);
      if strongest.moduleId != best.moduleId && deltaCodelengthOnStrongest <= bestDeltaCodelength + eps {
        best := strongest;
      }
    }

    // ----- The serial sweep -----

    /** Visit one node: move it to its best module, and drag along the one node it leaves behind alone if
        exactly one of its links leads there. What moved makes its neighbours dirty; a node that stays is
        clean. */
    method TryMoveNode(a: nat) returns (numMoved: nat, ghost to: nat)
      requires Valid() && a < |index|
      modifies `index, `moduleFlowData, `moduleMembers, `emptyModules, `dirty, objective, objective.base
      ensures Valid() && Constants() == old(Constants()) && |index| == old(|index|)
      ensures old(StateNow()).Ok() && a < |old(dirty)| && to < |old(dirty)|
      ensures Chosen(old(TerrainNow()), old(ListNow()), a, to)
      ensures StateNow() == if to == old(index)[a] then old(StateNow()).(dirty := old(dirty)[a := false])
                            else AfterMove(old(TerrainNow()), old(StateNow()), a, to)
      ensures numMoved == MovedBy(old(TerrainNow()), old(StateNow()), Visit(a, to))
    {
      hide BiasedMapEquation.Tracks, BiasedMapEquation.GetCodelength, Objective, Kept, ExactDelta,
           Optimizer.Predicted, EmptyListOk, Optimizer.Configured, Optimizer.Constants, Chosen, ListMoved,
           InModule, Neighbours, Marked, OptimizerTerrain, ListState.Ok;
      KeptSizes(net, index, moduleFlowData, moduleMembers);
      KeptValid(net, index, moduleFlowData, moduleMembers);
      ListNowOk();
      CodelengthInTerrain();
      numMoved, to := 0, index[a];
      var oldDelta, best := ChooseMove(a);
      to := best.moduleId;
      if best.moduleId == index[a] {
        dirty := dirty[a := false];
        return;
      }
      var oldModule := index[a];
      MakeMove(a, oldDelta, best);
      numMoved := 1;
      KeptValid(net, index, moduleFlowData, moduleMembers);
      KeptSizes(net, index, moduleFlowData, moduleMembers);
      dirty := MarkNeighboursDirty(net.edges, dirty, a);
      var numLinked, nodeInOldModule := CountLinksInto(net, index, a, oldModule);
      if numLinked == 1 && moduleMembers[oldModule] == 1 {
        var moved := MoveNodeToPredefinedModule(nodeInOldModule, best.moduleId);
        numMoved := 2;
        if |Neighbours(net.edges, nodeInOldModule)| > 1 {
          dirty := MarkNeighboursDirty(net.edges, dirty, nodeInOldModule);
        }
      }
    }

    /** One sweep over the nodes, in any order. In the first loop nodes do not leave modules that others have
        moved to. */
    method TryMoveEachNodeIntoBestModule(firstLoop: bool) returns (numMoved: nat, ghost visits: seq<Visit>)
      requires Valid()
      modifies `index, `moduleFlowData, `moduleMembers, `emptyModules, `dirty, objective, objective.base
      ensures Valid() && Constants() == old(Constants()) && |index| == old(|index|)
      ensures SweptSerially(old(TerrainNow()), firstLoop, old(StateNow()), visits, StateNow(), numMoved)
    {
      hide Optimizer.Exact, EmptyListOk, BiasedMapEquation.GetCodelength, Objective, Optimizer.Constants, Chosen,
           OptimizerTerrain, AfterMove, MovedBy, VisitsOk, AfterVisits, MovedByAll, SweepState.Ok;
      ghost var t, start := TerrainNow(), StateNow();
      ListNowOk();
      numMoved, visits := 0, [];
      VisitsStart(t, firstLoop, start);
      var order := RandomizedIndexVector(|index|);
      for i := 0 to |order|
        invariant Valid() && Constants() == old(Constants()) && |index| == |start.dirty| == |order|
        invariant |visits| == i && forall k :: 0 <= k < i ==> visits[k].node == order[k]
        invariant start.Ok() && VisitsOk(t, firstLoop, start, visits)
        invariant StateNow() == AfterVisits(t, firstLoop, start, visits)
        invariant numMoved == MovedByAll(t, firstLoop, start, visits)
      {
        var a := order[i];
        ghost var v, before := Visit(a, index[a]), StateNow();
        ListNowOk();
        MembersNow(a);
        if dirty[a] && !(firstLoop && moduleMembers[index[a]] > 1) {
          var n;
          ghost var to;
          n, to := TryMoveNode(a);
          v := Visit(a, to);
          numMoved := numMoved + n;
        } else {
          StayedPut(t, before, v);
        }
        VisitsGrow(t, firstLoop, start, visits, v);
        visits := visits + [v];
      }
    }

    lemma {:induction false} MembersNow(a: nat)
      requires Exact() && a < |index|
      ensures index[a] < |index| == |moduleMembers| && moduleMembers[index[a]] == Count(index, index[a])
    {
      hide BiasedMapEquation.Tracks;
      KeptSizes(net, index, moduleFlowData, moduleMembers);
    }

    // ----- The parallel sweep: propose against a snapshot, then commit one by one -----

    /** What one node chooses, and what it proposes unless it stays. */
    method ProposeMove(a: nat, firstLoop: bool) returns (proposal: Option<Proposal>, isDirty: bool, ghost choice: nat)
      requires Valid() && a < |index|
      ensures StateNow().Ok() && choice < |index| && ChoiceOk(TerrainNow(), firstLoop, StateNow(), a, choice)
      ensures Count(index, index[a]) > 1 || Count(index, choice) > 0
      ensures proposal.Some? <==> choice != index[a]
      ensures proposal.Some? ==>
                ProposalOk(net, index, a, proposal.value) && proposal.value.newDelta.moduleId == choice
      ensures isDirty <==> dirty[a] && (Skipped(firstLoop, StateNow(), a) || choice != index[a])
    {
      hide Kept, ExactDelta, BiasedMapEquation.Tracks, Optimizer.Predicted, EmptyListOk, Optimizer.Configured,
           Optimizer.Constants, Chosen, OptimizerTerrain, ListState.Ok;
      KeptSizes(net, index, moduleFlowData, moduleMembers);
      ListNowOk();
      proposal, isDirty, choice := None, dirty[a], index[a];
      if dirty[a] && !(firstLoop && moduleMembers[index[a]] > 1) {
        var oldDelta, best := ChooseMove(a);
        choice := best.moduleId;
        ChosenHasMembers(Constants(), net, minimumSingleNodeImprovement, numRandomMoves > 0, ListNow(), a, choice);
        if best.moduleId != index[a] {
          proposal := Some(Proposal(oldDelta, best, moduleMembers[best.moduleId] == 0));
        } else {
          isDirty := false;
        }
      } else {
        CountZero(index, index[a]);
      }
    }

    /** The propose phase changes nothing; every node chooses against the same assignment. */
    method ProposeMoves(firstLoop: bool)
      returns (proposals: seq<Option<Proposal>>, cleared: seq<bool>, ghost choices: seq<nat>)
      requires Valid()
      ensures StateNow().Ok() && ChoicesOk(TerrainNow(), firstLoop, StateNow(), choices) && SparesLast(index, choices)
      ensures |proposals| == |choices| == |index| && cleared == Cleared(firstLoop, StateNow(), choices)
      ensures forall a :: 0 <= a < |index| ==> (proposals[a].Some? <==> choices[a] != index[a])
      ensures forall a :: 0 <= a < |index| && proposals[a].Some? ==>
                ProposalOk(net, index, a, proposals[a].value) && proposals[a].value.newDelta.moduleId == choices[a]
    {
      hide Optimizer.Exact, EmptyListOk, Optimizer.Constants, ChoiceOk, OptimizerTerrain, ListState.Ok, ProposalOk,
           Skipped, Count;
      ListNowOk();
      ghost var t, s := TerrainNow(), StateNow();
      proposals, cleared, choices := [], [], [];
      for a := 0 to |index|
        invariant |proposals| == |cleared| == |choices| == a
        invariant forall b :: 0 <= b < a ==> choices[b] < |index| && ChoiceOk(t, firstLoop, s, b, choices[b])
        invariant forall b :: 0 <= b < a ==> Count(index, index[b]) > 1 || Count(index, choices[b]) > 0
        invariant forall b :: 0 <= b < a ==> (proposals[b].Some? <==> choices[b] != index[b])
        invariant forall b :: 0 <= b < a ==>
                    (cleared[b] <==> s.dirty[b] && (Skipped(firstLoop, s, b) || choices[b] != index[b]))
        invariant forall b :: 0 <= b < a && proposals[b].Some? ==>
                    ProposalOk(net, index, b, proposals[b].value) && proposals[b].value.newDelta.moduleId == choices[b]
      {
        var proposal, isDirty;
        ghost var choice;
        proposal, isDirty, choice := ProposeMove(a, firstLoop);
        proposals, cleared, choices := proposals + [proposal], cleared + [isDirty], choices + [choice];
      }
    }

    /** Make the move of a proposal and stamp its two modules. */
    method AcceptMove(a: nat, oldDelta: DeltaFlow, newDelta: DeltaFlow)
      requires Exact() && ExactDelta(net, index, a, oldDelta) && ExactDelta(net, index, a, newDelta)
      requires a < |index| && oldDelta.moduleId == index[a] && newDelta.moduleId != index[a]
      requires |index| <= |moduleTouchedSweep| && StampsOk()
      modifies `index, `moduleFlowData, `moduleMembers, `moduleTouchedSweep, objective, objective.base
      ensures Exact() && Constants() == old(Constants()) && StampsOk()
      ensures a < |old(index)| && oldDelta.moduleId < |old(index)| && newDelta.moduleId < |old(index)|
      ensures index == old(index)[a := newDelta.moduleId]
      ensures moduleTouchedSweep
           == old(moduleTouchedSweep)[oldDelta.moduleId := parallelMoveSweep][newDelta.moduleId := parallelMoveSweep]
    {
      hide Kept, ExactDelta, BiasedMapEquation.Tracks, Optimizer.Constants, MoveOk,
           BiasedMapEquation.GetCodelength, BiasedMapEquation.GetDeltaCodelengthOnMovingNode, Objective, MembersMoved;
      ExactDeltaBound(net, index, a, oldDelta);
      ExactDeltaBound(net, index, a, newDelta);
      CommitMove(a, oldDelta, newDelta);
      moduleTouchedSweep := moduleTouchedSweep[oldDelta.moduleId := parallelMoveSweep];
      moduleTouchedSweep := moduleTouchedSweep[newDelta.moduleId := parallelMoveSweep];
    }

    /** A module is stamped with this sweep exactly if a commit touched it. */
    ghost predicate Stamps(touched: set<nat>)
      reads `moduleTouchedSweep, `parallelMoveSweep
    {
      && (forall m :: 0 <= m < |moduleTouchedSweep| ==> (moduleTouchedSweep[m] == parallelMoveSweep <==> m in touched))
      && forall m: nat :: m in touched ==> m < |moduleTouchedSweep|
    }

    /** Commit one proposal, with the outcome that its modules, its target and the objective call for. */
    method CommitProposal(a: nat, p: Proposal, ghost snapshot: seq<nat>, ghost c: CommitState)
      returns (outcome: Outcome)
      requires Exact() && a < |index| == |snapshot| && ProposalOk(net, snapshot, a, p)
      requires c.index == index && index[a] == snapshot[a] && Untouched(c, snapshot) && Stamps(c.touched)
      requires |index| <= |moduleTouchedSweep| && StampsOk()
      modifies `index, `moduleFlowData, `moduleMembers, `moduleTouchedSweep, objective, objective.base
      ensures Exact() && Constants() == old(Constants()) && StampsOk()
      ensures |moduleTouchedSweep| == |old(moduleTouchedSweep)|
      ensures outcome == OutcomeOf(old(TerrainNow()), snapshot, c, a, p.newDelta.moduleId)
      ensures index == AfterProposal(old(TerrainNow()), snapshot, c, a, p.newDelta.moduleId).index
      ensures Stamps(AfterProposal(old(TerrainNow()), snapshot, c, a, p.newDelta.moduleId).touched)
    {
      hide Kept, ExactDelta, BiasedMapEquation.Tracks, Optimizer.Constants, Optimizer.Predicted, ObjectiveWith,
           BiasedMapEquation.GetCodelength, BiasedMapEquation.GetDeltaCodelengthOnMovingNode, Objective, Untouched,
           OptimizerTerrain;
      KeptSizes(net, index, moduleFlowData, moduleMembers);
      KeptValid(net, index, moduleFlowData, moduleMembers);
      ExactDeltaBound(net, snapshot, a, p.newDelta);
      ExactDeltaBound(net, snapshot, a, p.oldDelta);
      CodelengthInTerrain();
      var oldModule, newModule := p.oldDelta.moduleId, p.newDelta.moduleId;
      if moduleTouchedSweep[oldModule] != parallelMoveSweep && moduleTouchedSweep[newModule] != parallelMoveSweep {
        outcome := FastAccept;
        UntouchedMembers(c, snapshot, oldModule);
        UntouchedMembers(c, snapshot, newModule);
        DeltaStillExact(net, snapshot, index, a, p.oldDelta);
        DeltaStillExact(net, snapshot, index, a, p.newDelta);
        AcceptMove(a, p.oldDelta, p.newDelta);
      } else if index[a] != oldModule {
        assert false; // the skip for a changed module is never taken
      } else {
        var validMove := if p.targetWasEmpty then moduleMembers[oldModule] > 1 && moduleMembers[newModule] == 0
                         else moduleMembers[newModule] > 0;
        if !validMove {
          outcome := SkipInvalidTarget;
          return;
        }
        CarriedByKept(net, index, moduleFlowData, moduleMembers);
        var oldDelta, newDelta := LinkDeltas(net, index, moduleFlowData, a, oldModule, newModule);
        PredictedInTerrain(a, oldDelta, newDelta);
        PredictedMove(a, oldDelta, newDelta);
        var deltaCodelength :=
          objective.GetDeltaCodelengthOnMovingNode(net.nodes[a], oldDelta, newDelta, moduleFlowData, moduleMembers);
        if deltaCodelength >= -minimumSingleNodeImprovement {
          outcome := SkipRejected;
          return;
        }
        outcome := Accept;
        AcceptMove(a, oldDelta, newDelta);
      }
    }

    lemma {:induction false} PredictedMove(a: nat, oldDelta: DeltaFlow, newDelta: DeltaFlow)
      requires Exact() && a < |index| && oldDelta.moduleId < |index| && newDelta.moduleId < |index|
      requires oldDelta.moduleId != newDelta.moduleId
      ensures a < |net.nodes| && |moduleFlowData| == |moduleMembers| == |index|
      ensures Predicted(a, oldDelta, newDelta)
           == objective.GetDeltaCodelengthOnMovingNode(net.nodes[a], oldDelta, newDelta, moduleFlowData, moduleMembers)
    {
    }

    static lemma {:induction false} UntouchedMembers(c: CommitState, snapshot: seq<nat>, m: nat)
      requires Untouched(c, snapshot) && m !in c.touched
      ensures |c.index| == |snapshot| && SameMembers(c.index, snapshot, m)
    {
    }

    /** Sweep stamps never run ahead of the sweep counter. */
    ghost predicate StampsOk()
      reads `moduleTouchedSweep, `parallelMoveSweep
    {
      forall m :: 0 <= m < |moduleTouchedSweep| ==> moduleTouchedSweep[m] <= parallelMoveSweep
    }

    /** Propose for all nodes, then commit in any order. The list of empty modules is rebuilt. */
    method TryMoveEachNodeIntoBestModuleInParallel(firstLoop: bool)
      returns (counts: SweepCounts, ghost choices: seq<nat>, ghost nodes: seq<nat>)
      requires Valid() && StampsOk()
      modifies this, objective, objective.base
      ensures Valid() && StampsOk() && Constants() == old(Constants()) && net == old(net)
      ensures SweptInParallel(old(TerrainNow()), firstLoop, old(StateNow()), choices, nodes, StateNow(), counts)
      ensures CommitMarks(old(TerrainNow()), old(index), Committed(old(TerrainNow()), old(index), choices, nodes),
                          nodes)
    {
      hide Optimizer.Exact, Optimizer.Constants, BiasedMapEquation.GetCodelength, Objective,
           ProposalOk, Network.Valid, EmptyListOk, OptimizerTerrain, SparesLast, CommitMarks, Committed, ListState.Ok,
           EmptyOnes, ChoiceOk, MarkedAll, Cleared, AllMembers;
      ExactSizes();
      ListNowOk();
      parallelMoveSweep := parallelMoveSweep + 1;
      ghost var snapshot, t := index, TerrainNow();
      CodelengthInTerrain();
      var proposals, cleared;
      proposals, cleared, choices := ProposeMoves(firstLoop);
      if |moduleTouchedSweep| < |index| {
        moduleTouchedSweep := moduleTouchedSweep + seq(|index| - |moduleTouchedSweep|, (i: nat) => 0);
      }
      var order := RandomizedIndexVector(|index|);
      nodes := order;
      CommittedMarks(t, snapshot, choices, order);
      var moved;
      counts, moved := CommitProposals(proposals, order, choices);
      ExactSizes();
      ghost var log := Committed(t, snapshot, choices, order).log;
      dirty := cleared;
      MarkMoved(moved, log);
      CollectEmptyModules();
      ListIsRebuilt();
    }

    method MarkMoved(moved: seq<nat>, ghost log: seq<Commit>)
      requires net.Valid() && |dirty| == |net.nodes|
      requires |moved| == |log| && forall k :: 0 <= k < |moved| ==> moved[k] == log[k].node
      modifies `dirty
      ensures dirty == MarkedAll(net.edges, old(dirty), log)
    {
      hide Marked, Neighbours;
      ghost var cleared := dirty;
      for k := 0 to |moved|
        invariant |dirty| == |net.nodes| && dirty == MarkedAll(net.edges, cleared, log[..k])
      {
        assert log[..k + 1][..k] == log[..k];
        dirty := MarkNeighboursDirty(net.edges, dirty, moved[k]);
      }
      assert log[..|log|] == log;
    }

    lemma {:induction false} ListIsRebuilt()
      requires Exact()
      ensures moduleMembers == AllMembers(index, |index|)
    {
    }

    /** The commit phase, node by node. */
    method CommitProposals(proposals: seq<Option<Proposal>>, order: seq<nat>, ghost choices: seq<nat>)
      returns (counts: SweepCounts, moved: seq<nat>)
      requires Exact() && StampsOk() && |proposals| == |choices| == |index| == |order| && Distinct(order)
      requires SparesLast(index, choices) && forall i :: 0 <= i < |order| ==> order[i] < |index|
      requires forall a :: 0 <= a < |index| ==> (proposals[a].Some? <==> choices[a] != index[a])
      requires forall a :: 0 <= a < |index| && proposals[a].Some? ==>
                 ProposalOk(net, index, a, proposals[a].value) && proposals[a].value.newDelta.moduleId == choices[a]
      requires |index| <= |moduleTouchedSweep|
      requires forall m :: 0 <= m < |moduleTouchedSweep| ==> moduleTouchedSweep[m] != parallelMoveSweep
      modifies `index, `moduleFlowData, `moduleMembers, `moduleTouchedSweep, objective, objective.base
      ensures Exact() && StampsOk() && Constants() == old(Constants()) && |index| == |old(index)|
      ensures var c := Committed(old(TerrainNow()), old(index), choices, order);
              && index == c.index && counts == c.counts && |moved| == |c.log|
              && forall k :: 0 <= k < |moved| ==> moved[k] == c.log[k].node
    {
      hide Optimizer.Exact, Optimizer.Constants, BiasedMapEquation.GetCodelength, Objective, OptimizerTerrain,
           ProposalOk, Network.Valid, OutcomeOf, CommitMarks, SparesLast;
      ghost var snapshot, t := index, TerrainNow();
      counts, moved := NO_COUNTS, [];
      ghost var c := Committed(t, snapshot, choices, []);
      for i := 0 to |order|
        invariant Exact() && Constants() == old(Constants()) && |snapshot| <= |moduleTouchedSweep|
        invariant c == Committed(t, snapshot, choices, order[..i])
        invariant index == c.index && counts == c.counts && |moved| == |c.log| && Stamps(c.touched)
        invariant forall k :: 0 <= k < |moved| ==> moved[k] == c.log[k].node
        invariant StampsOk()
      {
        var a := order[i];
        assert order[..i + 1][..i] == order[..i];
        CommittedMarks(t, snapshot, choices, order[..i]);
        if proposals[a].Some? {
          StillWhereItWas(t, snapshot, choices, c, order[..i], a);
          var outcome := CommitProposal(a, proposals[a].value, snapshot, c);
          if outcome.Accepted() {
            moved := moved + [a];
          }
          counts := counts.After(outcome);
          c := AfterProposal(t, snapshot, c, a, choices[a]);
        }
      }
      assert order[..|order|] == order;
    }

    static lemma {:induction false} StillWhereItWas(t: Terrain, snapshot: seq<nat>, choices: seq<nat>, c: CommitState,
                                                    done: seq<nat>, a: nat)
      requires CommitMarks(t, snapshot, c, done) && a < |snapshot| && a !in done
      ensures Untouched(c, snapshot) && |c.index| == |snapshot| && c.index[a] == snapshot[a]
    {
      ReplayedElsewhere(snapshot, c.log, a);
    }

    lemma {:induction false} ExactSizes()
      requires Exact()
      ensures net.Valid() && |index| == |net.nodes| == |moduleFlowData| == |moduleMembers|
    {
    }

    /** The modules without members, in order. */
    method CollectEmptyModules()
      requires Exact()
      modifies `emptyModules
      ensures EmptyListOk(emptyModules, moduleMembers) && emptyModules == EmptyOnes(moduleMembers)
      ensures forall m :: 0 <= m < |moduleMembers| ==> (moduleMembers[m] == 0 <==> m in emptyModules)
    {
      hide BiasedMapEquation.Tracks, Kept, Optimizer.Configured;
      KeptSizes(net, index, moduleFlowData, moduleMembers);
      emptyModules := [];
      for m := 0 to |moduleMembers|
        invariant |emptyModules| == NumZeros(moduleMembers[..m]) && emptyModules == EmptyOnes(moduleMembers[..m])
        invariant forall k :: 0 <= k < |emptyModules| ==> emptyModules[k] < m
        invariant forall k :: 0 <= k < m ==> (moduleMembers[k] == 0 <==> k in emptyModules)
      {
        assert moduleMembers[..m + 1][..m] == moduleMembers[..m];
        if moduleMembers[m] == 0 {
          emptyModules := emptyModules + [m];
        }
      }
      assert moduleMembers[..|moduleMembers|] == moduleMembers;
    }

    // ----- Sweeping until nothing improves -----

    /** Sweep until no node moves, until a sweep improves the codelength by no more than the
        threshold, or until the loop limit (0 for none). At least one sweep is made. */
    method OptimizeActiveNetwork(loopLimit: nat, firstLoop: bool, innerParallelization: bool)
      returns (numEffectiveLoops: nat, ghost run: CoreRun)
      requires Valid() && StampsOk()
      modifies this, objective, objective.base
      ensures Valid() && StampsOk() && Constants() == old(Constants()) && net == old(net)
      ensures CoreRunOk(old(TerrainNow()), firstLoop, innerParallelization, minimumCodelengthImprovement, loopLimit,
                        run,
                        numEffectiveLoops)
      ensures run.First() == old(StateNow()) && run.Last() == StateNow()
      ensures numEffectiveLoops == 0 ==>
                objective.GetCodelength() >= old(objective.GetCodelength()) - minimumCodelengthImprovement
      ensures net.Valid() && Constants().bias.totalDegree != 0.0
      ensures Fall(numEffectiveLoops, minimumCodelengthImprovement)
           <= old(objective.GetCodelength()) - LowestObjective(Constants(), net)
      ensures loopLimit != 0 && numEffectiveLoops == loopLimit ==>
                objective.GetCodelength()
                <= old(objective.GetCodelength()) - Fall(loopLimit, minimumCodelengthImprovement)
    {
      hide Optimizer.Exact, EmptyListOk, Optimizer.StampsOk, BiasedMapEquation.GetCodelength,
           Optimizer.Constants, LowestObjective, Fall, StepsLeft, OptimizerTerrain, SweepMade, SoFar, CoreRunOk, Grown;
      ghost var t, improvement := TerrainNow(), minimumCodelengthImprovement;
      numEffectiveLoops, run := 0, CoreRun([StateNow()], [], []);
      RunStarts(t, firstLoop, innerParallelization, improvement, StateNow());
      FallMore(0, minimumCodelengthImprovement);
      var coreLoopCount := 0;
      var oldCodelength := objective.GetCodelength();
      CodelengthBounded();
      CodelengthInTerrain();
      ghost var lowest := LowestObjective(Constants(), net);
      ghost var start := oldCodelength;
      while true
        invariant Valid() && StampsOk() && Constants() == old(Constants()) && net == old(net)
        invariant oldCodelength == objective.GetCodelength() == t.objective(index)
        invariant coreLoopCount == numEffectiveLoops && (loopLimit != 0 ==> coreLoopCount < loopLimit)
        invariant SoFar(t, firstLoop, innerParallelization, improvement, run, numEffectiveLoops, old(StateNow()),
                        StateNow())
        invariant numEffectiveLoops == 0 ==> oldCodelength == start
        invariant lowest <= oldCodelength <= start - Fall(numEffectiveLoops, minimumCodelengthImprovement)
        decreases StepsLeft(oldCodelength, lowest, minimumCodelengthImprovement)
      {
        coreLoopCount := coreLoopCount + 1;
        ghost var before := StateNow();
        var numNodesMoved;
        ghost var sweep;
        numNodesMoved, sweep := Sweep(firstLoop, innerParallelization);
        CodelengthBounded();
        CodelengthInTerrain();
        RunGoesOn(t, firstLoop, innerParallelization, improvement, loopLimit, run, numEffectiveLoops, old(StateNow()),
                  before, sweep, StateNow(), numNodesMoved);
        QuietSweepStays(t, firstLoop, innerParallelization, before, sweep, StateNow(), numNodesMoved);
        run := Grown(run, sweep, StateNow(), numNodesMoved);
        if numNodesMoved == 0 || objective.GetCodelength() >= oldCodelength - minimumCodelengthImprovement {
          break;
        }
        StepTaken(oldCodelength, objective.GetCodelength(), lowest, minimumCodelengthImprovement);
        FallMore(numEffectiveLoops, minimumCodelengthImprovement);
        numEffectiveLoops := numEffectiveLoops + 1;
        oldCodelength := objective.GetCodelength();
        if coreLoopCount == loopLimit {
          break;
        }
      }
    }

    /** One sweep of either kind. */
    method Sweep(firstLoop: bool, innerParallelization: bool) returns (numMoved: nat, ghost sweep: Sweep)
      requires Valid() && StampsOk()
      modifies this, objective, objective.base
      ensures Valid() && StampsOk() && Constants() == old(Constants()) && net == old(net)
      ensures SweepMade(old(TerrainNow()), firstLoop, innerParallelization, old(StateNow()), sweep, StateNow(),
                        numMoved)
    {
      hide Optimizer.Exact, EmptyListOk, BiasedMapEquation.GetCodelength, Objective, Optimizer.Constants,
           OptimizerTerrain, SweptSerially, SweptInParallel, CommitMarks, Committed, Optimizer.StampsOk;
      if innerParallelization {
        var counts;
        ghost var choices, nodes;
        counts, choices, nodes := TryMoveEachNodeIntoBestModuleInParallel(firstLoop);
        numMoved, sweep := counts.accepted, Parallel(choices, nodes, counts);
      } else {
        ghost var visits;
        numMoved, visits := TryMoveEachNodeIntoBestModule(firstLoop);
        sweep := Serial(visits);
      }
    }

    lemma {:induction false} CodelengthBounded()
      requires Exact()
      ensures net.Valid() && Constants().bias.totalDegree != 0.0 && minimumCodelengthImprovement > 0.0
      ensures LowestObjective(Constants(), net) <= objective.GetCodelength()
    {
      CodelengthIsObjective();
      ConstantsOk();
      hide Objective, BiasedMapEquation.Tracks, LowestObjective, HighestObjective;
      ObjectiveBounded(Constants(), net, index);
    }

    // ----- Consolidation -----

    /** Turn the current modules into the nodes of a smaller network that stands for this one. */
    method ConsolidateModules() returns (small: Network, assignment: seq<nat>)
      requires Exact() && |index| > 0
      modifies objective, consolidatedObjective, consolidatedObjective.base
      ensures Exact() && Constants() == old(Constants()) && objective.GetCodelength() == old(objective.GetCodelength())
      ensures Represents(net, assignment, small)
      ensures forall i, j :: 0 <= i < |index| && 0 <= j < |index| ==>
                (assignment[i] == assignment[j] <==> index[i] == index[j])
      ensures |small.nodes| == NumModules(net, index)
      ensures objective.GetCodelength() == Objective(Constants(), small, Identity(|small.nodes|))
      ensures consolidatedObjective.SameAs(objective)
    {
      hide BiasedMapEquation.Tracks, BiasedMapEquation.GetCodelength, Objective, Represents, ModuleLinks, NumActive;
      KeptSizes(net, index, moduleFlowData, moduleMembers);
      var ids, modules, position := NumberModules(index);
      KeptValid(net, index, moduleFlowData, moduleMembers);
      var links := AggregateModuleLinks(net, index, undirectedClustering);
      ConstantsOk();
      ConsolidatedRepresents(net, index, undirectedClustering, ids, position);
      ConsolidatedObjective(Constants(), net, index, undirectedClustering, ids, position);
      CodelengthIsObjective();
      var nodes := PickModules(moduleFlowData, ids);
      small := Network(nodes, Rename(links, position), net.recordedTeleportation);
      assert small == Consolidated(net, index, undirectedClustering, ids, position);
      assignment := Compose(index, position);
      SameGroups(index, ids, position);
      objective.ConsolidateModules(|ids|, moduleFlowData, moduleMembers);
      consolidatedObjective.CopyFrom(objective);
    }

    /** Give up the current codelength terms for the consolidated ones, unless the codelength improved. */
    method RestoreConsolidatedOptimizationPointIfNoImprovement(forceRestore: bool) returns (restored: bool)
      requires Configured()
      modifies objective, objective.base
      ensures restored <==>
                forceRestore
                || old(objective.GetCodelength())
                   >= old(consolidatedObjective.GetCodelength()) - minimumSingleNodeImprovement
      ensures restored ==> objective.SameAs(consolidatedObjective)
      ensures !restored ==> unchanged(objective) && unchanged(objective.base)
    {
      if forceRestore
         || objective.GetCodelength() >= consolidatedObjective.GetCodelength() - minimumSingleNodeImprovement {
        objective.CopyFrom(consolidatedObjective);
        return true;
      }
      return false;
    }
  }
}
