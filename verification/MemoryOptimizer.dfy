/** The optimizer on a memory network. The moves are those of the first-order optimizer; what is
    added is the index of the memory objective and the flag that tells an update whether its
    deltas already carry the memory contributions. */
module MemoryOptimizers {
  import opened Sums
  import opened FlowNetwork
  import opened MapEquations
  import opened BiasedMapEquations
  import opened Partitions
  import opened Consolidation
  import opened LinkTables
  import opened Sweeps
  import opened Passes
  import opened MemoryIndex
  import opened MemMapEquations
  import opened MemoryConsolidation

  /** The delta states all the flow between the node and one module, and the memory contribution
      of the node for that module. */
  ghost predicate ExactMemDelta(code: Code, net: Network, phys: seq<seq<PhysData>>, index: seq<nat>, a: nat,
                                delta: MemDeltaFlow)
  {
    && |phys| == |index| && ExactDelta(net, index, a, delta.flow)
    && delta.mem == PartOf(code, phys, index, index[a], phys[a], delta.flow.moduleId)
  }

  /** The memory network a consolidation builds stands for the one below. */
  ghost predicate MemoryRepresents(code: Code, net: Network, phys: seq<seq<PhysData>>, q: seq<nat>,
                                   small: Network, smallPhys: seq<seq<PhysData>>, numPhysicalNodes: nat)
  {
    && Represents(net, q, small) && |phys| == |net.nodes| && |smallPhys| == |small.nodes| <= |net.nodes|
    && forall g: seq<nat> :: small.Partition(g) ==>
         NodeFlowLog(code, smallPhys, g, numPhysicalNodes) == NodeFlowLog(code, phys, Compose(q, g), numPhysicalNodes)
  }

  lemma {:induction false} ComposedPartition(q: seq<nat>, g: seq<nat>, small: Network)
    requires small.Partition(g) && forall i :: 0 <= i < |q| ==> q[i] < |small.nodes|
    ensures forall i :: 0 <= i < |q| ==> Compose(q, g)[i] < |small.nodes|
  {
  }

  lemma {:induction false} MemoryRepresentsItself(code: Code, net: Network, phys: seq<seq<PhysData>>,
                                                  numPhysicalNodes: nat)
    requires net.Valid() && |phys| == |net.nodes|
    ensures MemoryRepresents(code, net, phys, Identity(|net.nodes|), net, phys, numPhysicalNodes)
  {
    hide Represents, NodeFlowLog;
    RepresentsItself(net);
    forall g: seq<nat> | net.Partition(g) ensures Compose(Identity(|net.nodes|), g) == g {
      assert |Compose(Identity(|net.nodes|), g)| == |g|;
    }
  }

  lemma {:induction false} MemoryRepresentsCompose(code: Code, net: Network, phys: seq<seq<PhysData>>, q: seq<nat>,
                                                   middle: Network, middlePhys: seq<seq<PhysData>>, r: seq<nat>,
                                                   small: Network, smallPhys: seq<seq<PhysData>>, n: nat)
    requires MemoryRepresents(code, net, phys, q, middle, middlePhys, n)
    requires MemoryRepresents(code, middle, middlePhys, r, small, smallPhys, n)
    ensures forall i :: 0 <= i < |q| ==> q[i] < |r|
    ensures MemoryRepresents(code, net, phys, Compose(q, r), small, smallPhys, n)
  {
    hide Represents, NodeFlowLog;
    RepresentsValid(net, q, middle);
    RepresentsValid(middle, r, small);
    RepresentsCompose(net, q, middle, r, small);
    forall g: seq<nat> | small.Partition(g)
      ensures NodeFlowLog(code, smallPhys, g, n) == NodeFlowLog(code, phys, Compose(Compose(q, r), g), n)
    {
      var h := Compose(r, g);
      ComposedPartition(r, g, small);
      assert middle.Partition(h);
      ComposeAssociates(q, r, g);
    }
  }

  /** A grouping of the small memory network has the objective of the same grouping of the large one. */
  lemma {:induction false} MemoryObjectiveRepresented(code: Code, exitNetworkFlow: real, net: Network,
                                                      phys: seq<seq<PhysData>>, q: seq<nat>,
                                                      small: Network, smallPhys: seq<seq<PhysData>>, n: nat,
                                                          g: seq<nat>)
    requires MemoryRepresents(code, net, phys, q, small, smallPhys, n) && small.Partition(g) && code.PLogP(0.0) == 0.0
    ensures net.Valid() && small.Valid() && |q| == |net.nodes| && forall i :: 0 <= i < |q| ==> q[i] < |g|
    ensures MemoryObjective(code, exitNetworkFlow, small, smallPhys, n, g)
         == MemoryObjective(code, exitNetworkFlow, net, phys, n, Compose(q, g))
  {
    RepresentsValid(net, q, small);
    hide Objective, Codelength, Represents, NodeFlowLog;
    var setting := Setting(code, NO_BIAS, exitNetworkFlow, NodeFlowLog(code, smallPhys, g, n));
    ObjectiveRepresented(setting, net, q, small, g);
    WithoutBias(setting, small, g);
    WithoutBias(setting, net, Compose(q, g));
  }

  ghost function LowestMemoryObjective(code: Code, exitNetworkFlow: real, net: Network, phys: seq<seq<PhysData>>,
                                       n: nat): real
    requires net.Valid() && |net.nodes| == |phys|
  {
    Lowest((index: seq<nat>) => if net.Partition(index) then MemoryObjective(code, exitNetworkFlow, net, phys, n, index)
                                else 0.0, |net.nodes|, [])
  }

  /** The memory objective of every partition is at least the lowest, and some partition attains it. */
  lemma {:induction false} MemoryObjectiveBounded(code: Code, exitNetworkFlow: real, net: Network,
                                                  phys: seq<seq<PhysData>>, n: nat, index: seq<nat>)
    returns (least: seq<nat>)
    requires net.Valid() && |net.nodes| == |phys| && net.Partition(index)
    ensures net.Partition(least)
    ensures MemoryObjective(code, exitNetworkFlow, net, phys, n, least)
         == LowestMemoryObjective(code, exitNetworkFlow, net, phys, n)
         <= MemoryObjective(code, exitNetworkFlow, net, phys, n, index)
  {
    hide MemoryObjective, Network.Valid;
    var f := (i: seq<nat>) => if net.Partition(i) then MemoryObjective(code, exitNetworkFlow, net, phys, n, i) else 0.0;
    LowestIsBound(f, |net.nodes|, [], index);
    least := LowestAttained(f, |net.nodes|, []);
  }

  function FlowsOf(table: map<nat, MemDeltaFlow>): (r: map<nat, DeltaFlow>)
    ensures r.Keys == table.Keys && forall m :: m in r ==> r[m] == table[m].flow
  {
    map m | m in table :: table[m].flow
  }

  function WithFlows(table: map<nat, MemDeltaFlow>, flows: map<nat, DeltaFlow>): (r: map<nat, MemDeltaFlow>)
    requires table.Keys == flows.Keys
    ensures r.Keys == table.Keys && forall m :: m in r ==> r[m] == MemDeltaFlow(flows[m], table[m].mem)
  {
    map m | m in table :: MemDeltaFlow(flows[m], table[m].mem)
  }

  lemma {:induction false} MemTableParts(table: map<nat, MemDeltaFlow>, links: map<nat, DeltaFlow>, code: Code,
                                         phys: seq<seq<PhysData>>,
                                         index: seq<nat>, oldM: nat, carried: seq<PhysData>)
    requires |phys| == |index| && MemTable(table, links, code, phys, index, oldM, carried)
    ensures links.Keys <= table.Keys
    ensures forall m: nat :: m < |index| ==> (m in table <==> m in links || Shares(phys, index, carried, m))
    ensures forall m :: m in table ==>
              m < |index| && table[m].flow == DeltaAt(links, m)
                  && table[m].mem == PartOf(code, phys, index, oldM, carried, m)
  {
    forall m | m in table ensures table[m].mem == PartOf(code, phys, index, oldM, carried, m) {
      assert PartAt(table, m) == table[m].mem;
    }
  }

  /** On a memory network a node is also offered every module that shares a physical node with it. */
  ghost predicate MemoryCandidate(net: Network, phys: seq<seq<PhysData>>, index: seq<nat>, members: seq<nat>,
                                  emptyModules: seq<nat>, a: nat, m: nat)
    requires net.Valid() && |net.nodes| == |index| == |phys| == |members| && a < |index|
    requires forall i :: 0 <= i < |index| ==> index[i] < |index|
  {
    m < |index| && (Candidate(net, index, members, emptyModules, a, m) || Shares(phys, index, phys[a], m))
  }

  /** All candidate modules of a node, each with the flow of its links and its memory contribution: the
      ones it has links with, some random ones, an empty one, and every module that shares a physical
      node with it. */
  method CollectContributions(objective: MemMapEquation, net: Network, phys: seq<seq<PhysData>>, index: seq<nat>,
                              members: seq<nat>, emptyModules: seq<nat>, a: nat, numRandomMoves: nat)
    returns (deltaFlow: map<nat, MemDeltaFlow>)
    requires net.Valid() && net.Partition(index) && a < |index| && objective.IndexTracks(phys, index)
    requires members == AllMembers(index, |index|) && EmptyListOk(emptyModules, members)
    modifies objective`memoryContributionsAdded
    ensures objective.memoryContributionsAdded && objective.IndexTracks(phys, index)
    ensures index[a] in deltaFlow && EdgesOk(net.edges, |index|) && |members| == |phys| == |index|
    ensures forall m :: m in deltaFlow ==>
              && m < |index|
              && deltaFlow[m].flow == DeltaFlow(m, OutFlow(net.edges, index, a, m), InFlow(net.edges, index, a, m))
              && deltaFlow[m].mem == PartOf(objective.base.code, phys, index, index[a], phys[a], m)
    ensures forall m :: MemoryCandidate(net, phys, index, members, emptyModules, a, m) ==> m in deltaFlow
    ensures forall m :: m in deltaFlow ==>
              MemoryCandidate(net, phys, index, members, emptyModules, a, m) || (numRandomMoves > 0 && m in index)
  {
    hide LinkedTo, Shares, TableFor, EmptyListOk, MemTable, PartOf, IndexIs, OutFlow, InFlow, Network.Valid;
    var links, picked := CollectLinks(net, index, a, numRandomMoves);
    links := OfferEmptyModule(net, index, members, emptyModules, a, links);
    assert PhysicalNodesOk(phys[a], objective.numPhysicalNodes);
    MemTableStart(links, objective.base.code, phys, index, index[a]);
    deltaFlow := objective.AddMemoryContributions(phys[a], index[a], WithoutMemory(links), links, phys, index);
    MemTableParts(deltaFlow, links, objective.base.code, phys, index, index[a], phys[a]);
  }

  /** What the sweeps see of a memory network. */
  ghost function MemoryTerrain(code: Code, exitNetworkFlow: real, net: Network, phys: seq<seq<PhysData>>, n: nat,
                               threshold: real, random: bool): Terrain
  {
    Terrain(
      net.edges, threshold,
      (index: seq<nat>) =>
        if net.Valid() && net.Partition(index) && |net.nodes| == |phys|
        then MemoryObjective(code, exitNetworkFlow, net, phys, n, index) else 0.0,
      (index: seq<nat>, a: nat, m: nat) =>
        if net.Valid() && net.Partition(index) && a < |index| then LinkExit(net, index, a, m) else 0.0,
      (list: ListState, a: nat, m: nat) =>
        && net.Valid() && net.Partition(list.index) && |list.index| == |phys| == |list.members| && a < |list.index|
        && MemoryCandidate(net, phys, list.index, list.members, list.emptyModules, a, m),
      random)
  }

  lemma {:induction false} MemoryTerrainParts(code: Code, exitNetworkFlow: real, net: Network,
                                              phys: seq<seq<PhysData>>, n: nat, threshold: real, random: bool,
                                              index: seq<nat>)
    requires net.Valid() && net.Partition(index) && |net.nodes| == |phys|
    ensures var t := MemoryTerrain(code, exitNetworkFlow, net, phys, n, threshold, random);
            && t.objective(index) == MemoryObjective(code, exitNetworkFlow, net, phys, n, index)
            && t.threshold == threshold && t.edges == net.edges
  {
  }

  class MemoryOptimizer {
    const objective: MemMapEquation
    const minimumSingleNodeImprovement: real
    const minimumCodelengthImprovement: real
    const undirectedClustering: bool
    const numRandomMoves: nat

    var net: Network
    var phys: seq<seq<PhysData>>
    var index: seq<nat>
    var moduleFlowData: seq<FlowData>
    var moduleMembers: seq<nat>
    var emptyModules: seq<nat>
    var dirty: seq<bool>

    constructor (objective: MemMapEquation, minimumSingleNodeImprovement: real, minimumCodelengthImprovement: real,
                 undirectedClustering: bool, numRandomMoves: nat)
      requires objective.base.code.PLogP(0.0) == 0.0 && minimumSingleNodeImprovement >= 0.0
      ensures Configured() && this.objective == objective
      ensures this.minimumSingleNodeImprovement == minimumSingleNodeImprovement
      ensures this.minimumCodelengthImprovement == minimumCodelengthImprovement
      ensures this.undirectedClustering == undirectedClustering && this.numRandomMoves == numRandomMoves
    {
      this.objective := objective;
      this.minimumSingleNodeImprovement := minimumSingleNodeImprovement;
      this.minimumCodelengthImprovement := minimumCodelengthImprovement;
      this.undirectedClustering, this.numRandomMoves := undirectedClustering, numRandomMoves;
      net := Network([], [], false);
      phys, index, moduleFlowData, moduleMembers, emptyModules, dirty := [], [], [], [], [], [];
    }

    ghost predicate Configured()
    {
      objective.base.code.PLogP(0.0) == 0.0 && minimumSingleNodeImprovement >= 0.0
    }

    /** Everything kept incrementally equals its from-scratch value on the current assignment. */
    ghost predicate Exact()
      reads this, objective, objective.base
    {
      && Configured()
      && Kept(net, index, moduleFlowData, moduleMembers)
      && objective.Tracks(moduleFlowData, phys, index)
    }

    ghost predicate Valid()
      reads this, objective, objective.base
    {
      Exact() && EmptyListOk(emptyModules, moduleMembers) && |dirty| == |index|
    }

    /** Assignment, members and list of empty modules. */
    ghost function ListNow(): ListState
      reads `index, `moduleMembers, `emptyModules
    {
      ListState(index, moduleMembers, emptyModules)
    }

    /** The same with the nodes worth a visit. */
    ghost function StateNow(): SweepState
      reads `index, `moduleMembers, `emptyModules, `dirty
    {
      SweepState(ListNow(), dirty)
    }

    lemma {:induction false} ListNowOk()
      requires Valid()
      ensures ListNow().Ok() && StateNow().Ok()
    {
      hide NumZeros, AllModuleData, MemMapEquation.Tracks, EmptyListOk, MemoryOptimizer.Configured;
    }

    /** What the sweeps see of the current network. */
    ghost function TerrainNow(): Terrain
      reads `net, `phys, objective.base
    {
      MemoryTerrain(objective.base.code, objective.base.exitNetworkFlow, net, phys, objective.numPhysicalNodes,
                    minimumSingleNodeImprovement, numRandomMoves > 0)
    }

    lemma {:induction false} CodelengthInTerrain()
      requires Exact()
      ensures objective.base.codelength == TerrainNow().objective(index)
      ensures TerrainNow().threshold == minimumSingleNodeImprovement && TerrainNow().edges == net.edges
    {
      hide MemoryObjective, MemMapEquation.Tracks, MemoryTerrain;
      CodelengthIsObjective();
      ExactSizes();
      KeptValid(net, index, moduleFlowData, moduleMembers);
      MemoryTerrainParts(objective.base.code, objective.base.exitNetworkFlow, net, phys, objective.numPhysicalNodes,
                         minimumSingleNodeImprovement, numRandomMoves > 0, index);
    }

    ghost function CurrentObjective(): real
      requires Exact()
      reads this, objective, objective.base
    {
      MemoryObjective(objective.base.code, objective.base.exitNetworkFlow, net, phys, objective.numPhysicalNodes, index)
    }

    lemma {:induction false} CodelengthIsObjective()
      requires Exact()
      ensures objective.base.codelength == CurrentObjective()
    {
      hide Codelength, TermSum, NodeFlowLog, MemMapEquation.IndexTracks;
    }

    /** The least objective of the partitions of the current network. */
    ghost function LowestOfNetwork(): real
      requires net.Valid() && |net.nodes| == |phys|
      reads this, objective.base
    {
      LowestMemoryObjective(objective.base.code, objective.base.exitNetworkFlow, net, phys, objective.numPhysicalNodes)
    }

    lemma {:induction false} CodelengthBounded()
      requires Exact()
      ensures net.Valid() && |net.nodes| == |phys| && LowestOfNetwork() <= objective.base.codelength
    {
      hide MemoryObjective, LowestMemoryObjective;
      ExactSizes();
      CodelengthIsObjective();
      var least := MemoryObjectiveBounded(objective.base.code, objective.base.exitNetworkFlow, net, phys,
          objective.numPhysicalNodes, index);
    }

    method InitPartition(network: Network, physicalNodes: seq<seq<PhysData>>)
      requires Configured() && network.Valid()
      requires MemoryOk(physicalNodes, objective.numPhysicalNodes) && |physicalNodes| == |network.nodes|
      requires objective.base.exitNetworkFlowLog == objective.base.code.PLogP(objective.base.exitNetworkFlow)
      modifies this, objective, objective.base
      ensures Valid() && net == network && phys == physicalNodes && index == Identity(|network.nodes|)
      ensures StateNow() == FreshState(|network.nodes|)
      ensures !objective.memoryContributionsAdded
      ensures objective.base.exitNetworkFlow == old(objective.base.exitNetworkFlow)
    {
      hide Kept, Identity, Ones, MemMapEquation.Tracks, NumZeros, MemoryOk;
      KeptSingletons(network);
      net, phys := network, physicalNodes;
      index, moduleFlowData := Identity(|net.nodes|), net.nodes;
      moduleMembers, emptyModules := Ones(|net.nodes|), [];
      dirty := seq(|net.nodes|, (i: nat) => true);
      objective.InitPartition(net.nodes, phys);
    }

    /** The flag tells the truth about the deltas: they carry their contributions exactly if it is set. */
    ghost predicate FlagRight(a: nat, oldDelta: MemDeltaFlow, newDelta: MemDeltaFlow)
      reads `net, `phys, `index, objective, objective.base
    {
      if objective.memoryContributionsAdded then
        && ExactMemDelta(objective.base.code, net, phys, index, a, oldDelta)
        && ExactMemDelta(objective.base.code, net, phys, index, a, newDelta)
      else
        && ExactDelta(net, index, a, oldDelta.flow) && oldDelta.mem == NO_MEMORY
        && ExactDelta(net, index, a, newDelta.flow) && newDelta.mem == NO_MEMORY
    }

    /** With the flag right, the update uses the true change, whichever route computed it. */
    lemma {:induction false} UsedIsTrue(a: nat, oldDelta: MemDeltaFlow, newDelta: MemDeltaFlow)
      requires Exact() && FlagRight(a, oldDelta, newDelta)
      requires oldDelta.flow.moduleId == index[a] && newDelta.flow.moduleId != index[a]
      ensures a < |index| == |phys| && index[a] < |index| && newDelta.flow.moduleId < |index|
      ensures ExactDelta(net, index, a, oldDelta.flow) && ExactDelta(net, index, a, newDelta.flow)
      ensures objective.UsedContribution(oldDelta, newDelta, phys, index, a)
           == TrueChange(objective.base.code, phys, index, index[a], newDelta.flow.moduleId, phys[a])
    {
      OwnModuleCarries(phys, index, a);
      RoutesAgree(objective.base.code, phys, index, index[a], newDelta.flow.moduleId, phys[a]);
      hide PartOf, PartOnMove, TrueChange, Contribution, MapEquation.Tracks, MemMapEquation.IndexTracks, FlowBetween,
           NodeFlowLog;
      PlusNothing(PartOnMove(objective.base.code, phys, index, index[a], phys[a], index[a]));
      PlusNothing(PartOnMove(objective.base.code, phys, index, index[a], phys[a], newDelta.flow.moduleId));
    }

    static lemma {:induction false} PlusNothing(part: MemPart)
      ensures NO_MEMORY.Plus(part) == part
    {
    }

    /** A move with exact deltas and the flag right keeps everything exact and uses the flag up. */
    method CommitMove(a: nat, oldDelta: MemDeltaFlow, newDelta: MemDeltaFlow)
      requires Exact() && FlagRight(a, oldDelta, newDelta)
      requires oldDelta.flow.moduleId == index[a] && newDelta.flow.moduleId != index[a]
      modifies `index, `moduleFlowData, `moduleMembers, objective, objective.base
      ensures Exact() && !objective.memoryContributionsAdded
      ensures index == old(index)[a := newDelta.flow.moduleId]
      ensures objective.base.exitNetworkFlow == old(objective.base.exitNetworkFlow)
      ensures |old(moduleFlowData)| == |old(moduleMembers)| == |old(index)| && newDelta.flow.moduleId < |old(index)|
      ensures old(moduleMembers)[oldDelta.flow.moduleId] > 0
      ensures moduleMembers == MembersMoved(old(moduleMembers), oldDelta.flow.moduleId, newDelta.flow.moduleId)
      ensures old(objective.memoryContributionsAdded) ==>
                objective.base.codelength
                == old(objective.base.codelength
                       + objective.GetDeltaCodelengthOnMovingNode(net.nodes[a], oldDelta, newDelta, moduleFlowData))
    {
      hide Kept, ExactDelta, MoveOk, Moved, MemMapEquation.UsedContribution, MemoryOptimizer.FlagRight, PartOf,
           TrueChange,
           MapEquation.Tracks, MapEquation.GetDeltaCodelengthOnMovingNode, MemMapEquation.IndexTracks, Contribution,
               NodeFlowLog;
      UsedIsTrue(a, oldDelta, newDelta);
      UsedWhenFlagged(a, oldDelta, newDelta);
      KeptByMove(net, index, moduleFlowData, moduleMembers, a, oldDelta.flow, newDelta.flow);
      moduleFlowData :=
        objective.UpdateCodelengthOnMovingNode(net.nodes[a], phys[a], oldDelta, newDelta, moduleFlowData, phys, index,
            a);
      moduleMembers := moduleMembers[oldDelta.flow.moduleId := moduleMembers[oldDelta.flow.moduleId] - 1];
      moduleMembers := moduleMembers[newDelta.flow.moduleId := moduleMembers[newDelta.flow.moduleId] + 1];
      index := index[a := newDelta.flow.moduleId];
    }

    /** A move that also keeps the list of empty modules at its length. */
    method MakeMove(a: nat, oldDelta: MemDeltaFlow, newDelta: MemDeltaFlow)
      requires Valid() && FlagRight(a, oldDelta, newDelta)
      requires oldDelta.flow.moduleId == index[a] && newDelta.flow.moduleId != index[a]
      modifies `index, `moduleFlowData, `moduleMembers, `emptyModules, objective, objective.base
      ensures Valid() && !objective.memoryContributionsAdded
      ensures index == old(index)[a := newDelta.flow.moduleId]
      ensures objective.base.exitNetworkFlow == old(objective.base.exitNetworkFlow)
      ensures |old(moduleFlowData)| == |old(index)| && newDelta.flow.moduleId < |old(index)|
      ensures a < |old(index)| && ListNow().Ok() && old(ListNow()).Ok()
      ensures ListNow() == ListMoved(old(ListNow()), a, newDelta.flow.moduleId)
      ensures old(objective.memoryContributionsAdded) ==>
                objective.base.codelength
                == old(objective.base.codelength
                       + objective.GetDeltaCodelengthOnMovingNode(net.nodes[a], oldDelta, newDelta, moduleFlowData))
    {
      hide Kept, ExactDelta, MembersMoved, NumZeros, MemMapEquation.Tracks,
           MemMapEquation.GetDeltaCodelengthOnMovingNode,
           MemoryOptimizer.FlagRight;
      ListNowOk();
      KeptSizes(net, index, moduleFlowData, moduleMembers);
      MoveTargets(a, oldDelta, newDelta);
      var oldM, newM := index[a], newDelta.flow.moduleId;
      EmptyListCounts(emptyModules, moduleMembers, oldM, newM);
      ghost var listAfter := EmptyListMoved(emptyModules, moduleMembers, oldM, newM);
      if moduleMembers[newM] == 0 {
        emptyModules := emptyModules[..|emptyModules| - 1];
      }
      if moduleMembers[oldM] == 1 {
        emptyModules := emptyModules + [oldM];
      }
      assert emptyModules == listAfter;
      CommitMove(a, oldDelta, newDelta);
      ListNowOk();
    }

    lemma {:induction false} MoveTargets(a: nat, oldDelta: MemDeltaFlow, newDelta: MemDeltaFlow)
      requires FlagRight(a, oldDelta, newDelta)
      ensures a < |index| && newDelta.flow.moduleId < |index|
    {
    }

    lemma {:induction false} UsedWhenFlagged(a: nat, oldDelta: MemDeltaFlow, newDelta: MemDeltaFlow)
      requires |phys| == |index| && a < |index| && index[a] < |index| && newDelta.flow.moduleId < |index|
      ensures objective.memoryContributionsAdded ==>
                objective.UsedContribution(oldDelta, newDelta, phys, index, a)
                    == Contribution(oldDelta.mem, newDelta.mem)
    {
    }

    // ----- Predefined moves -----

    /** The deltas of a predefined move carry no contributions, so the flag must not be set. */
    method MoveNodeToPredefinedModule(a: nat, newM: nat) returns (moved: bool)
      requires Valid() && a < |index| && newM < |index| && !objective.memoryContributionsAdded
      modifies `index, `moduleFlowData, `moduleMembers, `emptyModules, objective, objective.base
      ensures Valid() && !objective.memoryContributionsAdded
      ensures index == old(index)[a := newM] && moved == (old(index)[a] != newM)
      ensures objective.base.exitNetworkFlow == old(objective.base.exitNetworkFlow)
      ensures old(ListNow()).Ok() && ListNow() == ListMoved(old(ListNow()), a, newM)
    {
      hide Kept, ExactDelta, MemMapEquation.Tracks, MemMapEquation.GetDeltaCodelengthOnMovingNode;
      ListNowOk();
      var oldM := index[a];
      if newM == oldM {
        assert index[a := newM] == index;
        return false;
      }
      CarriedByKept(net, index, moduleFlowData, moduleMembers);
      var oldDelta, newDelta := LinkDeltas(net, index, moduleFlowData, a, oldM, newM);
      MakeMove(a, MemDeltaFlow(oldDelta, NO_MEMORY), MemDeltaFlow(newDelta, NO_MEMORY));
      return true;
    }

    method MoveActiveNodesToPredefinedModules(modules: seq<nat>)
      requires Valid() && net.Partition(modules) && !objective.memoryContributionsAdded
      modifies `index, `moduleFlowData, `moduleMembers, `emptyModules, objective, objective.base
      ensures Valid() && index == modules && !objective.memoryContributionsAdded
      ensures objective.base.exitNetworkFlow == old(objective.base.exitNetworkFlow)
      ensures old(ListNow()).Ok() && |old(index)| == |modules|
      ensures ListNow() == ListAfter(old(ListNow()), modules, |modules|)
    {
      hide MemoryOptimizer.Exact, EmptyListOk, ListState.Ok, ListMoved, ListAfter;
      SameLength();
      ListNowOk();
      ghost var start := ListNow();
      ListAfterNone(start, modules);
      for i := 0 to |index|
        invariant Valid() && |index| == |modules| && !objective.memoryContributionsAdded
        invariant ListNow() == ListAfter(start, modules, i)
        invariant forall k :: 0 <= k < i ==> index[k] == modules[k]
        invariant objective.base.exitNetworkFlow == old(objective.base.exitNetworkFlow)
      {
        var moved := MoveNodeToPredefinedModule(i, modules[i]);
        ListAfterNext(start, modules, i);
      }
    }

    // ----- Moves to the best module -----

    ghost predicate Sized()
      reads `net, `phys, `index, `moduleMembers
    {
      && net.Valid() && |net.nodes| == |index| == |phys| == |moduleMembers|
      && forall i :: 0 <= i < |index| ==> index[i] < |index|
    }

    lemma {:induction false} ExactSizes()
      requires Exact()
      ensures Sized() && |moduleFlowData| == |index|
    {
    }

    /** The objective, from scratch, with node a in module m. */
    ghost function ObjectiveAfter(a: nat, m: nat): real
      requires Sized() && a < |index|
      reads `net, `phys, `index, `moduleMembers, objective.base
    {
      MemoryObjective(objective.base.code, objective.base.exitNetworkFlow, net, phys, objective.numPhysicalNodes,
                      index[a := m])
    }

    ghost function Predicted(a: nat, oldDelta: MemDeltaFlow, newDelta: MemDeltaFlow): real
      requires a < |net.nodes|
      requires oldDelta.flow.moduleId < |moduleFlowData| && newDelta.flow.moduleId < |moduleFlowData|
      reads `net, `moduleFlowData, objective, objective.base
    {
      if oldDelta.flow.moduleId == newDelta.flow.moduleId then 0.0
      else objective.GetDeltaCodelengthOnMovingNode(net.nodes[a], oldDelta, newDelta, moduleFlowData)
    }

    /** What is predicted for a move is the change of the objective from scratch. */
    lemma {:induction false} PredictedIsChange(a: nat, oldDelta: MemDeltaFlow, newDelta: MemDeltaFlow)
      requires Exact() && a < |index| && oldDelta.flow.moduleId == index[a]
      requires ExactMemDelta(objective.base.code, net, phys, index, a, oldDelta)
      requires ExactMemDelta(objective.base.code, net, phys, index, a, newDelta)
      ensures Sized() && a < |index| == |moduleFlowData| && newDelta.flow.moduleId < |index|
      ensures Predicted(a, oldDelta, newDelta)
           == ObjectiveAfter(a, newDelta.flow.moduleId) - objective.base.codelength
    {
      CodelengthIsObjective();
      ExactSizes();
      hide MemMapEquation.Tracks, MemMapEquation.GetDeltaCodelengthOnMovingNode, Codelength, NodeFlowLog, PartOf,
           AllModuleData, FlowBetween, Moved, MembersMoved;
      if newDelta.flow.moduleId == index[a] {
        assert index[a := newDelta.flow.moduleId] == index;
      } else {
        KeptByMove(net, index, moduleFlowData, moduleMembers, a, oldDelta.flow, newDelta.flow);
        MemoryDeltaIsExact(objective, net.nodes[a], oldDelta, newDelta, moduleFlowData, phys, index, a);
      }
    }

    /** All candidate modules of a node, each with all the flow between them and the node. */
    method CollectDeltas(a: nat) returns (deltaFlow: map<nat, MemDeltaFlow>)
      requires Valid() && a < |index|
      modifies objective`memoryContributionsAdded
      ensures Valid() && objective.memoryContributionsAdded
      ensures index[a] in deltaFlow
      ensures forall m :: m in deltaFlow ==>
                deltaFlow[m].flow.moduleId == m < |index|
                && ExactMemDelta(objective.base.code, net, phys, index, a, deltaFlow[m])
      ensures Sized()
      ensures forall m :: MemoryCandidate(net, phys, index, moduleMembers, emptyModules, a, m) ==> m in deltaFlow
      ensures forall m :: m in deltaFlow ==>
                MemoryCandidate(net, phys, index, moduleMembers, emptyModules, a, m)
                || (numRandomMoves > 0 && m in index)
      ensures net.Valid() && net.Partition(index)
      ensures forall m :: m in deltaFlow ==> deltaFlow[m].flow.deltaExit == LinkExit(net, index, a, m)
    {
      hide ExactDelta, Kept, EmptyListOk, MapEquation.Tracks, PartOf, IndexIs, NodeFlowLog, MemoryCandidate, OutFlow,
           InFlow, Network.Valid, LinkExit;
      KeptSizes(net, index, moduleFlowData, moduleMembers);
      KeptValid(net, index, moduleFlowData, moduleMembers);
      CarriedByKept(net, index, moduleFlowData, moduleMembers);
      deltaFlow := CollectContributions(objective, net, phys, index, moduleMembers, emptyModules, a, numRandomMoves);

      // For recorded teleportation
      var flows := AddTeleportationFlowToAll(net, index, moduleFlowData, a, FlowsOf(deltaFlow));
      deltaFlow := WithFlows(deltaFlow, flows);
    }

    /** So it is the change of the objective that the sweeps see. */
    lemma {:induction false} PredictedInTerrain(a: nat, oldDelta: MemDeltaFlow, newDelta: MemDeltaFlow)
      requires Exact() && a < |index| && oldDelta.flow.moduleId == index[a]
      requires ExactMemDelta(objective.base.code, net, phys, index, a, oldDelta)
      requires ExactMemDelta(objective.base.code, net, phys, index, a, newDelta)
      ensures a < |net.nodes| && |index| == |moduleFlowData| && newDelta.flow.moduleId < |index|
      ensures oldDelta.flow.moduleId < |moduleFlowData|
      ensures Predicted(a, oldDelta, newDelta)
           == ObjectiveWith(TerrainNow(), index, a, newDelta.flow.moduleId) - TerrainNow().objective(index)
    {
      hide MemoryObjective, MemMapEquation.Tracks, MemoryTerrain, MemoryOptimizer.Predicted, ExactMemDelta;
      ExactSizes();
      PredictedIsChange(a, oldDelta, newDelta);
      CodelengthInTerrain();
      KeptValid(net, index, moduleFlowData, moduleMembers);
      MemoryTerrainParts(objective.base.code, objective.base.exitNetworkFlow, net, phys, objective.numPhysicalNodes,
                         minimumSingleNodeImprovement, numRandomMoves > 0, index[a := newDelta.flow.moduleId]);
    }

    /** What the search over the table of candidates has found. */
    ghost predicate Searched(a: nat, deltaFlow: map<nat, MemDeltaFlow>, greedy: MemDeltaFlow, strongest: MemDeltaFlow)
      requires a < |index| == |net.nodes| == |moduleFlowData| && index[a] in deltaFlow && index[a] < |index|
      requires forall m :: m in deltaFlow ==> deltaFlow[m].flow.moduleId == m < |index|
      reads this, objective, objective.base
    {
      var own := deltaFlow[index[a]];
      && greedy.flow.moduleId in deltaFlow && greedy == deltaFlow[greedy.flow.moduleId]
      && (greedy.flow.moduleId != index[a] ==> Predicted(a, own, greedy) < -minimumSingleNodeImprovement)
      && (forall m :: m in deltaFlow ==>
            Predicted(a, own, greedy) <= Predicted(a, own, deltaFlow[m]) + minimumSingleNodeImprovement)
      && strongest.flow.moduleId in deltaFlow && strongest == deltaFlow[strongest.flow.moduleId]
      && (strongest.flow.moduleId != index[a] ==> own.flow.deltaExit < strongest.flow.deltaExit)
      && (forall m :: m in deltaFlow ==> deltaFlow[m].flow.deltaExit <= strongest.flow.deltaExit)
    }

    /** The better of the two is a module that the node may choose. */
    lemma {:induction false} SearchedChosen(a: nat, deltaFlow: map<nat, MemDeltaFlow>, greedy: MemDeltaFlow,
                                            strongest: MemDeltaFlow)
      requires Exact() && Sized() && a < |index| == |moduleFlowData| && index[a] in deltaFlow
      requires net.Valid() && net.Partition(index)
      requires forall m :: m in deltaFlow ==> deltaFlow[m].flow.moduleId == m < |index|
      requires forall m :: m in deltaFlow ==>
                 && ExactMemDelta(objective.base.code, net, phys, index, a, deltaFlow[m])
                 && deltaFlow[m].flow.deltaExit == LinkExit(net, index, a, m)
      requires forall m :: MemoryCandidate(net, phys, index, moduleMembers, emptyModules, a, m) ==> m in deltaFlow
      requires forall m :: m in deltaFlow ==>
                 MemoryCandidate(net, phys, index, moduleMembers, emptyModules, a, m)
                 || (numRandomMoves > 0 && m in index)
      requires Searched(a, deltaFlow, greedy, strongest)
      ensures Chosen(TerrainNow(), ListNow(), a,
                     if Predicted(a, deltaFlow[index[a]], strongest)
                        <= Predicted(a, deltaFlow[index[a]], greedy) + minimumSingleNodeImprovement
                     then strongest.flow.moduleId else greedy.flow.moduleId)
    {
      hide MemoryOptimizer.Exact, MemoryOptimizer.Predicted, ExactMemDelta, LinkExit, MemoryCandidate, MemoryObjective,
           Network.Valid;
      var t, list, own := TerrainNow(), ListNow(), deltaFlow[index[a]];
      var offered, g, s := deltaFlow.Keys, greedy.flow.moduleId, strongest.flow.moduleId;
      CodelengthInTerrain();
      forall m | m in deltaFlow
        ensures Predicted(a, own, deltaFlow[m]) == ObjectiveWith(t, index, a, m) - t.objective(index)
        ensures t.exit(index, a, m) == deltaFlow[m].flow.deltaExit
      {
        PredictedInTerrain(a, own, deltaFlow[m]);
      }
      assert Offered(t, list, a, offered);
      assert Greedy(t, index, a, offered, g);
      assert Strongest(t, index, a, offered, s);
      assert ChosenAmong(t, index, a, offered, g, s, Preferred(t, index, a, g, s));
    }

    /** The best candidate, with a preference for the most strongly connected one among equals. */
    method ChooseMove(a: nat) returns (oldDelta: MemDeltaFlow, best: MemDeltaFlow)
      requires Valid() && a < |index|
      modifies objective`memoryContributionsAdded
      ensures Valid() && objective.memoryContributionsAdded && Sized() && |moduleFlowData| == |index|
      ensures oldDelta.flow.moduleId == index[a] && best.flow.moduleId < |index|
      ensures ExactMemDelta(objective.base.code, net, phys, index, a, oldDelta)
      ensures ExactMemDelta(objective.base.code, net, phys, index, a, best)
      ensures Chosen(TerrainNow(), ListNow(), a, best.flow.moduleId)
    {
      hide MemMapEquation.Tracks, Kept, EmptyListOk, ExactMemDelta, MemMapEquation.GetDeltaCodelengthOnMovingNode,
           MemMapEquation.GetDeltaCodelengthOnMovingNodeHoisted, MapEquation.HoistOldSide,
           MemoryCandidate, MemoryOptimizer.ObjectiveAfter, LinkExit, Chosen, MemoryTerrain;
      ExactSizes();
      var deltaFlow := CollectDeltas(a);
      oldDelta := deltaFlow[index[a]];
      best := oldDelta;
      var bestDeltaCodelength := 0.0;
      var strongest := oldDelta;
      var deltaCodelengthOnStrongest := 0.0;
      var eps := minimumSingleNodeImprovement;
      var oldSide := objective.base.HoistOldSide(net.nodes[a], oldDelta.flow, moduleFlowData);
      var todo := deltaFlow.Keys;
      while todo != {}
        invariant todo <= deltaFlow.Keys
        invariant best.flow.moduleId in deltaFlow && best == deltaFlow[best.flow.moduleId]
        invariant bestDeltaCodelength == Predicted(a, oldDelta, best) <= 0.0
        invariant best.flow.moduleId != index[a] ==> bestDeltaCodelength < -eps
        invariant strongest.flow.moduleId in deltaFlow && strongest == deltaFlow[strongest.flow.moduleId]
        invariant deltaCodelengthOnStrongest == Predicted(a, oldDelta, strongest)
        invariant oldDelta.flow.deltaExit <= strongest.flow.deltaExit
        invariant strongest.flow.moduleId != index[a] ==> oldDelta.flow.deltaExit < strongest.flow.deltaExit
        invariant forall m :: m in deltaFlow && m !in todo ==>
                    && bestDeltaCodelength <= Predicted(a, oldDelta, deltaFlow[m]) + eps
                    && deltaFlow[m].flow.deltaExit <= strongest.flow.deltaExit
        modifies {}
        decreases todo
      {
        var otherModule :| otherModule in todo;
        todo := todo - {otherModule};
        if otherModule != index[a] {
          var candidate := deltaFlow[otherModule];
          HoistedMemoryIsUnhoisted(objective, net.nodes[a], oldDelta, candidate, moduleFlowData);
          var deltaCodelength :=
            objective.GetDeltaCodelengthOnMovingNodeHoisted(oldDelta, oldSide, candidate, moduleFlowData);
          if deltaCodelength < bestDeltaCodelength - eps {
            best, bestDeltaCodelength := candidate, deltaCodelength;
          }
          if candidate.flow.deltaExit > strongest.flow.deltaExit {
            strongest, deltaCodelengthOnStrongest := candidate, deltaCodelength;
          }
        }
      }
      SearchedChosen(a, deltaFlow, best, strongest);
      if strongest.flow.moduleId != best.flow.moduleId && deltaCodelengthOnStrongest <= bestDeltaCodelength + eps {
        best := strongest;
      }
    }

    /** Visit one node: move it to its best module, and drag along the one node it leaves behind alone if
        exactly one of its links leads there. A visit without a move may leave the flag set; the next visit or
        partition sets it anew. */
    method TryMoveNode(a: nat) returns (numMoved: nat, ghost to: nat)
      requires Valid() && a < |index|
      modifies `index, `moduleFlowData, `moduleMembers, `emptyModules, `dirty, objective, objective.base
      ensures Valid() && |index| == |old(index)|
      ensures objective.base.exitNetworkFlow == old(objective.base.exitNetworkFlow)
      ensures old(StateNow()).Ok() && a < |old(dirty)| && to < |old(dirty)|
      ensures Chosen(old(TerrainNow()), old(ListNow()), a, to)
      ensures StateNow() == if to == old(index)[a] then old(StateNow()).(dirty := old(dirty)[a := false])
                            else AfterMove(old(TerrainNow()), old(StateNow()), a, to)
      ensures numMoved == MovedBy(old(TerrainNow()), old(StateNow()), Visit(a, to))
    {
      hide Kept, MemMapEquation.Tracks, EmptyListOk, MemMapEquation.GetDeltaCodelengthOnMovingNode,
           MemoryOptimizer.Configured, ExactMemDelta, MemoryTerrain, Chosen, ListMoved, InModule, Neighbours, Marked,
           ListState.Ok;
      ExactSizes();
      KeptSizes(net, index, moduleFlowData, moduleMembers);
      KeptValid(net, index, moduleFlowData, moduleMembers);
      ListNowOk();
      CodelengthInTerrain();
      numMoved, to := 0, index[a];
      var oldDelta, best := ChooseMove(a);
      to := best.flow.moduleId;
      if best.flow.moduleId == index[a] {
        dirty := dirty[a := false];
        return;
      }
      var oldModule := index[a];
      MakeMove(a, oldDelta, best);
      numMoved := 1;
      KeptValid(net, index, moduleFlowData, moduleMembers);
      KeptSizes(net, index, moduleFlowData, moduleMembers);
      dirty := MarkNeighboursDirty(net.edges, dirty, a);
      var numLinked, nodeInOldModule := CountLinksInto(net, index, a, oldModule);
      if numLinked == 1 && moduleMembers[oldModule] == 1 {
        var moved := MoveNodeToPredefinedModule(nodeInOldModule, best.flow.moduleId);
        numMoved := 2;
        if |Neighbours(net.edges, nodeInOldModule)| > 1 {
          dirty := MarkNeighboursDirty(net.edges, dirty, nodeInOldModule);
        }
      }
    }

    /** One sweep over the nodes, in any order. In the first loop nodes do not leave modules that others have
        moved to. */
    method TryMoveEachNodeIntoBestModule(firstLoop: bool) returns (numMoved: nat, ghost visits: seq<Visit>)
      requires Valid()
      modifies `index, `moduleFlowData, `moduleMembers, `emptyModules, `dirty, objective, objective.base
      ensures Valid() && |index| == |old(index)|
      ensures objective.base.exitNetworkFlow == old(objective.base.exitNetworkFlow)
      ensures SweptSerially(old(TerrainNow()), firstLoop, old(StateNow()), visits, StateNow(), numMoved)
    {
      hide MemoryOptimizer.Exact, EmptyListOk, Chosen, MemoryTerrain, AfterMove, MovedBy, VisitsOk, AfterVisits,
           MovedByAll, SweepState.Ok;
      ghost var t, start := TerrainNow(), StateNow();
      ListNowOk();
      numMoved, visits := 0, [];
      VisitsStart(t, firstLoop, start);
      var order := RandomizedIndexVector(|index|);
      for i := 0 to |order|
        invariant Valid() && |index| == |start.dirty| == |order|
        invariant objective.base.exitNetworkFlow == old(objective.base.exitNetworkFlow)
        invariant |visits| == i && forall k :: 0 <= k < i ==> visits[k].node == order[k]
        invariant start.Ok() && VisitsOk(t, firstLoop, start, visits)
        invariant StateNow() == AfterVisits(t, firstLoop, start, visits)
        invariant numMoved == MovedByAll(t, firstLoop, start, visits)
      {
        var a := order[i];
        ghost var v, before := Visit(a, index[a]), StateNow();
        ListNowOk();
        MembersNow(a);
        if dirty[a] && !(firstLoop && moduleMembers[index[a]] > 1) {
          var n;
          ghost var to;
          n, to := TryMoveNode(a);
          v := Visit(a, to);
          numMoved := numMoved + n;
        } else {
          StayedPut(t, before, v);
        }
        VisitsGrow(t, firstLoop, start, visits, v);
        visits := visits + [v];
      }
    }

    lemma {:induction false} MembersNow(a: nat)
      requires Exact() && a < |index|
      ensures index[a] < |index| == |moduleMembers| && moduleMembers[index[a]] == Count(index, index[a])
    {
      hide MemMapEquation.Tracks;
      KeptSizes(net, index, moduleFlowData, moduleMembers);
    }

    /** Sweep until nothing moves, too little improves, or the limit is reached. The effective sweeps fit into the
        distance to the least objective, so they end without a limit too. */
    method OptimizeActiveNetwork(loopLimit: nat, firstLoop: bool)
      returns (numEffectiveLoops: nat, ghost run: CoreRun)
      requires Valid() && (loopLimit > 0 || minimumCodelengthImprovement > 0.0)
      modifies `index, `moduleFlowData, `moduleMembers, `emptyModules, `dirty, objective, objective.base
      ensures Valid() && |index| == |old(index)|
      ensures objective.base.exitNetworkFlow == old(objective.base.exitNetworkFlow)
      ensures CoreRunOk(old(TerrainNow()), firstLoop, false, minimumCodelengthImprovement, loopLimit, run,
                        numEffectiveLoops)
      ensures run.First() == old(StateNow()) && run.Last() == StateNow()
      ensures net.Valid() && |net.nodes| == |phys|
      ensures Fall(numEffectiveLoops, minimumCodelengthImprovement)
           <= old(objective.base.codelength) - LowestOfNetwork()
      ensures loopLimit > 0 && numEffectiveLoops == loopLimit ==>
                objective.base.codelength
                <= old(objective.base.codelength) - Fall(loopLimit, minimumCodelengthImprovement)
    {
      hide MemoryOptimizer.Exact, EmptyListOk, LowestMemoryObjective, Fall, StepsLeft, Network.Valid, MemoryTerrain,
           SweepMade, SoFar, CoreRunOk, Grown, SweptSerially;
      ghost var t, improvement := TerrainNow(), minimumCodelengthImprovement;
      numEffectiveLoops, run := 0, CoreRun([StateNow()], [], []);
      RunStarts(t, firstLoop, false, improvement, StateNow());
      FallMore(0, minimumCodelengthImprovement);
      var coreLoopCount := 0;
      var oldCodelength := objective.base.codelength;
      CodelengthBounded();
      CodelengthInTerrain();
      ghost var lowest, start := LowestOfNetwork(), oldCodelength;
      while true
        invariant Valid() && |index| == |old(index)|
        invariant oldCodelength == objective.base.codelength == t.objective(index)
        invariant coreLoopCount == numEffectiveLoops && (loopLimit > 0 ==> coreLoopCount < loopLimit)
        invariant objective.base.exitNetworkFlow == old(objective.base.exitNetworkFlow)
        invariant SoFar(t, firstLoop, false, improvement, run, numEffectiveLoops, old(StateNow()), StateNow())
        invariant lowest <= oldCodelength <= start - Fall(numEffectiveLoops, minimumCodelengthImprovement)
        decreases if loopLimit > 0 then loopLimit - coreLoopCount
                  else StepsLeft(oldCodelength, lowest, minimumCodelengthImprovement)
      {
        coreLoopCount := coreLoopCount + 1;
        ghost var before := StateNow();
        var numNodesMoved;
        ghost var visits;
        numNodesMoved, visits := TryMoveEachNodeIntoBestModule(firstLoop);
        CodelengthBounded();
        CodelengthInTerrain();
        SerialMade(t, firstLoop, before, visits, StateNow(), numNodesMoved);
        RunGoesOn(t, firstLoop, false, improvement, loopLimit, run, numEffectiveLoops, old(StateNow()), before,
                  Serial(visits), StateNow(), numNodesMoved);
        run := Grown(run, Serial(visits), StateNow(), numNodesMoved);
        if numNodesMoved == 0 || objective.base.codelength >= oldCodelength - minimumCodelengthImprovement {
          break;
        }
        if loopLimit == 0 {
          StepTaken(oldCodelength, objective.base.codelength, lowest, minimumCodelengthImprovement);
        }
        FallMore(numEffectiveLoops, minimumCodelengthImprovement);
        numEffectiveLoops := numEffectiveLoops + 1;
        oldCodelength := objective.base.codelength;
        if coreLoopCount == loopLimit {
          break;
        }
      }
    }

    // ----- Consolidation -----

    /** Turn the current modules into the nodes of a smaller memory network that stands for this one. */
    method ConsolidateModules() returns (small: Network, smallPhys: seq<seq<PhysData>>, assignment: seq<nat>)
      requires Exact() && |index| > 0
      ensures MemoryRepresents(objective.base.code, net, phys, assignment, small, smallPhys, objective.numPhysicalNodes)
      ensures MemoryOk(smallPhys, objective.numPhysicalNodes) && |small.nodes| > 0 && |assignment| == |index|
      ensures forall i, j :: 0 <= i < |index| && 0 <= j < |index| ==>
                (assignment[i] == assignment[j] <==> index[i] == index[j])
      ensures objective.base.codelength
           == MemoryObjective(objective.base.code, objective.base.exitNetworkFlow, small, smallPhys,
                              objective.numPhysicalNodes, Identity(|small.nodes|))
    {
      hide MapEquation.Tracks, Represents, ModuleLinks, IndexIs, NodeFlowLog, CollectedUpTo, Codelength,
           MemoryObjective;
      KeptSizes(net, index, moduleFlowData, moduleMembers);
      var ids, modules, position := NumberModules(index);
      var links := AggregateModuleLinks(net, index, undirectedClustering);
      ConsolidatedRepresents(net, index, undirectedClustering, ids, position);
      var nodes := PickModules(moduleFlowData, ids);
      small := Network(nodes, Rename(links, position), net.recordedTeleportation);
      assert small == Consolidated(net, index, undirectedClustering, ids, position);
      assignment := Compose(index, position);
      SameGroups(index, ids, position);
      smallPhys := ConsolidatePhysicalNodes(objective.physToModuleToMemNodes, modules, |ids|, phys, index, ids,
          position);
      ConsolidatedMemory(small, smallPhys, ids, position);
      ConsolidatedMemoryObjective(objective.base.code, objective.base.exitNetworkFlow, net, undirectedClustering,
                                  phys, smallPhys, index, ids, position, objective.numPhysicalNodes);
      CodelengthIsObjective();
    }

    lemma {:induction false} ConsolidatedMemory(small: Network, smallPhys: seq<seq<PhysData>>, ids: seq<nat>,
                                                position: seq<nat>)
      requires Exact() && Numbering(index, ids, position) && |small.nodes| == |ids|
      requires Represents(net, Compose(index, position), small)
      requires CollectedUpTo(smallPhys, phys, index, ids, objective.numPhysicalNodes)
      ensures MemoryRepresents(objective.base.code, net, phys, Compose(index, position), small, smallPhys,
                objective.numPhysicalNodes)
    {
      hide MapEquation.Tracks, Represents, NodeFlowLog, CollectedUpTo, IndexIs;
      var code, n, q := objective.base.code, objective.numPhysicalNodes, Compose(index, position);
      KeptSizes(net, index, moduleFlowData, moduleMembers);
      RepresentsValid(net, q, small);
      OntoQuotient(net, q, small);
      OntoSize(q, |small.nodes|);
      SameNumber(smallPhys, phys, index, ids, n);
      forall g: seq<nat> | small.Partition(g)
        ensures NodeFlowLog(code, smallPhys, g, n) == NodeFlowLog(code, phys, Compose(q, g), n)
      {
        GroupedNodeFlowLog(code, smallPhys, phys, index, ids, position, n, g);
      }
    }

    static lemma {:induction false} OntoQuotient(net: Network, q: seq<nat>, small: Network)
      requires Represents(net, q, small)
      ensures Onto(q, |small.nodes|)
    {
    }

    // ----- Whole runs -----

    /** Predefined moves only ever follow InitPartition, which clears the flag. Modules of the wrong
        size, or outside the network, are refused. */
    method PerformPass(pass: Pass) returns (ok: bool, ghost run: CoreRun, ghost numEffective: nat)
      requires Valid() && !objective.memoryContributionsAdded && StateNow() == FreshState(|index|)
      modifies `index, `moduleFlowData, `moduleMembers, `emptyModules, `dirty, objective, objective.base
      ensures Valid() && |index| == |old(index)|
      ensures ok <==> pass.Fits(|old(index)|)
      ensures ok && pass.loopLimit == 0 ==> index == pass.Start(|index|).list.index
      ensures ok && pass.loopLimit > 0 ==>
                && CoreRunOk(old(TerrainNow()), pass.firstLoop, false, minimumCodelengthImprovement, pass.loopLimit,
                             run,
                             numEffective)
                && run.First() == pass.Start(|index|) && run.Last().list.index == index
      ensures !ok ==> index == old(index)
      ensures objective.base.exitNetworkFlow == old(objective.base.exitNetworkFlow)
    {
      hide MemoryOptimizer.Exact, EmptyListOk, MemoryTerrain, CoreRunOk, ListAfter, FreshState, ListState.Ok;
      SameLength();
      run, numEffective := NO_RUN, 0;
      if pass.predefined.Some? {
        var modules := pass.predefined.value;
        if !pass.Fits(|index|) {
          return false, run, numEffective;
        }
        MoveActiveNodesToPredefinedModules(modules);
      }
      StartIs(pass, |index|);
      assert StateNow() == pass.Start(|index|);
      if pass.loopLimit > 0 {
        var loops;
        loops, run := OptimizeActiveNetwork(pass.loopLimit, pass.firstLoop);
        numEffective := loops;
      }
      return true, run, numEffective;
    }

    lemma {:induction false} SameLength()
      requires Exact()
      ensures |index| == |net.nodes|
    {
    }

    /** One pass on the network that stands for the first one, and the network that stands for it afterwards.
        A pass that does not fit leaves everything at the partition reached before. */
    method MakePass(ghost network: Network, ghost physicalNodes: seq<seq<PhysData>>, ghost assignment: seq<nat>,
                    small: Network, smallPhys: seq<seq<PhysData>>, pass: Pass)
      returns (ok: bool, q: seq<nat>, next: Network, nextPhys: seq<seq<PhysData>>, ghost level: Level)
      requires Configured() && network.Valid() && |network.nodes| == |physicalNodes|
      requires small.Valid() && |small.nodes| > 0
      requires MemoryOk(smallPhys, objective.numPhysicalNodes) && |smallPhys| == |small.nodes|
      requires MemoryRepresents(objective.base.code, network, physicalNodes, assignment, small, smallPhys,
                objective.numPhysicalNodes)
      requires objective.base.exitNetworkFlowLog == objective.base.code.PLogP(objective.base.exitNetworkFlow)
      modifies this, objective, objective.base
      ensures objective.base.exitNetworkFlow == old(objective.base.exitNetworkFlow)
      ensures objective.base.exitNetworkFlowLog == objective.base.code.PLogP(objective.base.exitNetworkFlow)
      ensures |assignment| == |network.nodes| && forall i :: 0 <= i < |assignment| ==> assignment[i] < |q|
      ensures |q| == |small.nodes| && (ok <==> pass.Fits(|q|))
      ensures !ok ==> q == Identity(|q|) && next == small && nextPhys == smallPhys
      ensures ok ==>
                && pass.Allows(minimumCodelengthImprovement, level) && level.modules == q
                && level.terrain
                   == MemoryTerrain(objective.base.code, objective.base.exitNetworkFlow, small, smallPhys,
                                    objective.numPhysicalNodes, minimumSingleNodeImprovement, numRandomMoves > 0)
      ensures next.Valid() && |next.nodes| > 0
      ensures MemoryOk(nextPhys, objective.numPhysicalNodes) && |nextPhys| == |next.nodes|
      ensures MemoryRepresents(objective.base.code, network, physicalNodes, Compose(assignment, q), next, nextPhys,
                               objective.numPhysicalNodes)
      ensures objective.base.codelength
           == MemoryObjective(objective.base.code, objective.base.exitNetworkFlow, network, physicalNodes,
                              objective.numPhysicalNodes, Compose(assignment, q))
    {
      hide MemoryOptimizer.Valid, MemoryOptimizer.Exact, MemoryRepresents, MemoryObjective, MemoryOk, Network.Valid,
           Pass.Fits, Compose, MemoryTerrain, CoreRunOk, Pass.Start;
      ghost var exitFlow := objective.base.exitNetworkFlow;
      InitPartition(small, smallPhys);
      ghost var terrain, run, numEffective := TerrainNow(), NO_RUN, 0;
      ok, run, numEffective := PerformPass(pass);
      ValidParts();
      if ok {
        ghost var reached := index;
        next, nextPhys, q := ConsolidateModules();
        NextPass(exitFlow, network, physicalNodes, assignment, small, smallPhys, q, next, nextPhys);
        assert SameGrouping(q, reached);
      } else {
        q, next, nextPhys := index, small, smallPhys;
        StillSingle(exitFlow, network, physicalNodes, assignment);
      }
      level := Level(terrain, run, numEffective, q);
    }

    /** Every pass was made on a memory network that stands for the first one. */
    ghost predicate GroundsOk(exitFlow: real, network: Network, physicalNodes: seq<seq<PhysData>>,
                              levels: seq<seq<nat>>, made: seq<Level>,
                              grounds: seq<(Network, seq<seq<PhysData>>)>)
    {
      && |made| == |grounds| == |levels|
      && forall k :: 0 <= k < |made| ==>
           && levels[k] == made[k].modules
           && MemoryRepresents(objective.base.code, network, physicalNodes,
                               Flattened(|network.nodes|, levels[..k]), grounds[k].0, grounds[k].1,
                               objective.numPhysicalNodes)
           && made[k].terrain
              == MemoryTerrain(objective.base.code, exitFlow, grounds[k].0, grounds[k].1, objective.numPhysicalNodes,
                               minimumSingleNodeImprovement, numRandomMoves > 0)
    }

    lemma {:induction false} GroundsGrow(exitFlow: real, network: Network, physicalNodes: seq<seq<PhysData>>,
                                         levels: seq<seq<nat>>, made: seq<Level>,
                                         grounds: seq<(Network, seq<seq<PhysData>>)>, level: Level, net: Network,
                                         phys: seq<seq<PhysData>>)
      requires GroundsOk(exitFlow, network, physicalNodes, levels, made, grounds)
      requires MemoryRepresents(objective.base.code, network, physicalNodes, Flattened(|network.nodes|, levels), net,
                                phys, objective.numPhysicalNodes)
      requires level.terrain
            == MemoryTerrain(objective.base.code, exitFlow, net, phys, objective.numPhysicalNodes,
                             minimumSingleNodeImprovement, numRandomMoves > 0)
      ensures GroundsOk(exitFlow, network, physicalNodes, levels + [level.modules], made + [level],
                        grounds + [(net, phys)])
    {
      hide MemoryRepresents, Flattened, MemoryTerrain;
      forall k | 0 <= k <= |levels| ensures (levels + [level.modules])[..k] == levels[..k] {
      }
      assert levels[..|levels|] == levels;
    }

    /** Any sequence of passes, up to the first that does not fit: levels[k] has the modules that pass k
        makes of its network, and the codelength is the objective, from scratch and on the network the
        run started with, of the modules reached. */
    method Run(network: Network, physicalNodes: seq<seq<PhysData>>, passes: seq<Pass>)
      returns (levels: seq<seq<nat>>, small: Network, smallPhys: seq<seq<PhysData>>, assignment: seq<nat>,
               ghost made: seq<Level>, ghost grounds: seq<(Network, seq<seq<PhysData>>)>)
      requires Configured() && network.Valid() && |network.nodes| > 0
      requires MemoryOk(physicalNodes, objective.numPhysicalNodes) && |physicalNodes| == |network.nodes|
      requires objective.base.exitNetworkFlowLog == objective.base.code.PLogP(objective.base.exitNetworkFlow)
      modifies this, objective, objective.base
      ensures PassesMade(passes, minimumCodelengthImprovement, made, |small.nodes|)
      ensures GroundsOk(objective.base.exitNetworkFlow, network, physicalNodes, levels, made, grounds)
      ensures assignment == Flattened(|network.nodes|, levels)
      ensures MemoryRepresents(objective.base.code, network, physicalNodes, assignment, small, smallPhys,
                objective.numPhysicalNodes)
      ensures |assignment| == |network.nodes| == |physicalNodes|
      ensures passes != [] ==>
                objective.base.codelength
                == MemoryObjective(objective.base.code, objective.base.exitNetworkFlow, network, physicalNodes,
                                   objective.numPhysicalNodes, assignment)
    {
      hide MemoryRepresents, MemoryObjective, MemoryOk, Network.Valid, Pass.Fits, Pass.Allows, Flattened,
           LevelsAllowed, MemoryOptimizer.GroundsOk, MemoryTerrain;
      ghost var code, n, exitFlow := objective.base.code, objective.numPhysicalNodes, objective.base.exitNetworkFlow;
      levels, small, smallPhys, assignment := [], network, physicalNodes, Identity(|network.nodes|);
      made, grounds := [], [];
      NothingMade(passes, minimumCodelengthImprovement, |network.nodes|);
      NoGrounds(exitFlow, network, physicalNodes);
      MemoryRepresentsItself(code, network, physicalNodes, n);
      for k := 0 to |passes|
        invariant small.Valid() && |small.nodes| > 0 && MemoryOk(smallPhys, n) && |smallPhys| == |small.nodes|
        invariant MemoryRepresents(code, network, physicalNodes, assignment, small, smallPhys, n)
        invariant |assignment| == |network.nodes| && assignment == Flattened(|network.nodes|, levels)
        invariant |levels| == |made| == k && LevelsAllowed(passes, minimumCodelengthImprovement, made)
        invariant GroundsOk(exitFlow, network, physicalNodes, levels, made, grounds)
        invariant objective.base.exitNetworkFlow == exitFlow
                  && objective.base.exitNetworkFlowLog == code.PLogP(exitFlow)
        invariant k > 0 ==>
                    objective.base.codelength
                    == MemoryObjective(code, exitFlow, network, physicalNodes, n, assignment)
      {
        var ok, q, next, nextPhys;
        ghost var level;
        ok, q, next, nextPhys, level := MakePass(network, physicalNodes, assignment, small, smallPhys, passes[k]);
        if !ok {
          ComposeIdentity(assignment, |q|);
          return;
        }
        LevelsAllowedNext(passes, minimumCodelengthImprovement, made, level);
        GroundsGrow(exitFlow, network, physicalNodes, levels, made, grounds, level, small, smallPhys);
        FlattenedNext(|network.nodes|, levels, q);
        made, grounds := made + [level], grounds + [(small, smallPhys)];
        assignment := Compose(assignment, q);
        levels, small, smallPhys := levels + [q], next, nextPhys;
      }
    }

    lemma {:induction false} NoGrounds(exitFlow: real, network: Network, physicalNodes: seq<seq<PhysData>>)
      ensures GroundsOk(exitFlow, network, physicalNodes, [], [], [])
    {
    }

    /** Refused modules leave the single nodes, which have the objective reached before. */
    lemma {:induction false} StillSingle(exitFlow: real, network: Network, physicalNodes: seq<seq<PhysData>>,
                                         assignment: seq<nat>)
      requires Valid() && index == Identity(|net.nodes|) && exitFlow == objective.base.exitNetworkFlow
      requires MemoryRepresents(objective.base.code, network, physicalNodes, assignment, net, phys,
                objective.numPhysicalNodes)
      ensures network.Valid() && |network.nodes| == |assignment| == |physicalNodes|
      ensures |index| == |net.nodes| && forall i :: 0 <= i < |assignment| ==> assignment[i] < |index|
      ensures Compose(assignment, index) == assignment
      ensures objective.base.codelength
           == MemoryObjective(objective.base.code, exitFlow, network, physicalNodes, objective.numPhysicalNodes,
                              assignment)
    {
      hide Represents, NodeFlowLog, MemoryObjective, Kept, MemMapEquation.Tracks;
      ValidParts();
      CodelengthIsObjective();
      ExactSizes();
      RepresentsValid(network, assignment, net);
      MemoryObjectiveRepresented(objective.base.code, exitFlow, network, physicalNodes, assignment, net, phys,
          objective.numPhysicalNodes, Identity(|net.nodes|));
      ComposeIdentity(assignment, |net.nodes|);
    }

    lemma {:induction false} ValidParts()
      requires Valid()
      ensures Exact() && |index| == |net.nodes|
      ensures objective.base.exitNetworkFlowLog == objective.base.code.PLogP(objective.base.exitNetworkFlow)
    {
    }

    lemma {:induction false} NextPass(exitFlow: real, network: Network, physicalNodes: seq<seq<PhysData>>,
                                      assignment: seq<nat>,
                                      middle: Network, middlePhys: seq<seq<PhysData>>, q: seq<nat>,
                                      next: Network, nextPhys: seq<seq<PhysData>>)
      requires Configured() && network.Valid() && |physicalNodes| == |network.nodes|
      requires MemoryRepresents(objective.base.code, network, physicalNodes, assignment, middle, middlePhys,
                objective.numPhysicalNodes)
      requires MemoryRepresents(objective.base.code, middle, middlePhys, q, next, nextPhys, objective.numPhysicalNodes)
      ensures forall i :: 0 <= i < |assignment| ==> assignment[i] < |q|
      ensures next.Valid() && |nextPhys| == |next.nodes| && |assignment| == |network.nodes|
      ensures MemoryRepresents(objective.base.code, network, physicalNodes, Compose(assignment, q), next, nextPhys,
                               objective.numPhysicalNodes)
      ensures MemoryObjective(objective.base.code, exitFlow, next, nextPhys, objective.numPhysicalNodes,
                Identity(|next.nodes|))
           == MemoryObjective(objective.base.code, exitFlow, network, physicalNodes, objective.numPhysicalNodes,
                              Compose(assignment, q))
    {
      hide Represents, NodeFlowLog, MemoryObjective;
      var code, n := objective.base.code, objective.numPhysicalNodes;
      MemoryRepresentsCompose(code, network, physicalNodes, assignment, middle, middlePhys, q, next, nextPhys, n);
      RepresentsValid(network, assignment, middle);
      RepresentsValid(middle, q, next);
      var all := Compose(assignment, q);
      MemoryObjectiveRepresented(code, exitFlow, network, physicalNodes, all, next, nextPhys, n,
          Identity(|next.nodes|));
      ComposeIdentity(all, |next.nodes|);
    }
  }
}
