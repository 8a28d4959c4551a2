/** The objective of regularized multilayer networks and the optimizer on it: the memory objective,
    with teleportation inside every layer taken off the boundary flow of the modules. */
module RegularizedMultilayer {
  import opened Sums
  import opened FlowNetwork
  import opened MapEquations
  import opened BiasedMapEquations
  import opened Partitions
  import opened LinkTables
  import opened Sweeps
  import opened Passes
  import opened Consolidation
  import opened MemoryIndex
  import opened MemMapEquations
  import opened MemoryConsolidation
  import opened MemoryOptimizers
  import opened LayerTeleports
  import opened LayerPairs
  import opened LayerConsolidation

  /** The first k nodes in modules of their own, the others in none of the modules yet. */
  function Settled(n: nat, k: nat): (r: seq<nat>)
    ensures |r| == n
    ensures forall i :: 0 <= i < n ==> r[i] == if i < k then i else n
  {
    seq(n, (i: nat) => if i < k then i else n)
  }

  lemma {:induction false} NobodySettled(net: LayeredNetwork, m: nat)
    requires net.Valid() && m < |net.layers|
    ensures LayerRowIs(map[], net.layers, Settled(|net.layers|, 0), m)
  {
    hide LayerData, Network.Valid, HasLayer, NodeLayersOk;
    var index := Settled(|net.layers|, 0);
    forall l: nat ensures HoldsLayer(map[], net.layers, index, l, m) {
      LayerDataEmpty(net, index, l, m);
    }
  }

  ghost predicate LayerRowsAre(rows: seq<map<nat, LayerTeleFlowData>>, net: LayeredNetwork, index: seq<nat>)
    requires |net.layers| == |index|
  {
    |rows| == |index| && forall m :: 0 <= m < |rows| ==> LayerRowIs(rows[m], net.layers, index, m)
  }

  /** The row of the module that is joined, all others as they were. */
  lemma {:induction false} RowsAfterMove(rows: seq<map<nat, LayerTeleFlowData>>, rows': seq<map<nat,
                                         LayerTeleFlowData>>,
                                         net: LayeredNetwork, index: seq<nat>, a: nat, to: nat)
    requires net.Valid() && |net.layers| == |index| && a < |index| && index[a] != to && to < |index|
    requires LayerRowsAre(rows, net, index) && |rows'| == |rows|
    requires forall m :: 0 <= m < |rows| && m != index[a] && m != to ==> rows'[m] == rows[m]
    requires LayerRowIs(rows'[to], net.layers, index[a := to], to)
    requires index[a] < |index| ==> LayerRowIs(rows'[index[a]], net.layers, index[a := to], index[a])
    ensures LayerRowsAre(rows', net, index[a := to])
  {
    hide LayerRowIs, Network.Valid;
    forall m | 0 <= m < |rows| ensures LayerRowIs(rows'[m], net.layers, index[a := to], m) {
      if m != index[a] && m != to { LayerRowKept(net, index, a, to, m, rows[m]); }
    }
  }

  /** The delta states all the flow, layers included, and the memory contribution. */
  ghost predicate ExactFullDelta(code: Code, net: LayeredNetwork, phys: seq<seq<PhysData>>, index: seq<nat>, a: nat,
                                 delta: MemDeltaFlow)
  {
    && |phys| == |index| && ExactLayeredDelta(net, index, a, delta.flow)
    && delta.mem == PartOf(code, phys, index, index[a], phys[a], delta.flow.moduleId)
  }

  /** The number the optimizer minimises, as a function of the partition alone. */
  function LayeredObjective(code: Code, exitNetworkFlow: real, net: LayeredNetwork, phys: seq<seq<PhysData>>,
                            numPhysicalNodes: nat, index: seq<nat>): real
    requires net.Valid() && |net.base.nodes| == |index| == |phys|
  {
    Codelength(code, exitNetworkFlow, NodeFlowLog(code, phys, index, numPhysicalNodes),
        AllLayeredModuleData(net, index))
  }

  ghost function LowestLayeredObjective(code: Code, exitNetworkFlow: real, net: LayeredNetwork,
                                        phys: seq<seq<PhysData>>, n: nat): real
    requires net.Valid() && |net.base.nodes| == |phys|
  {
    Lowest((index: seq<nat>) => if net.base.Partition(index)
                                then LayeredObjective(code, exitNetworkFlow, net, phys, n, index) else 0.0,
           |net.base.nodes|, [])
  }

  /** The layered objective of every partition is at least the lowest, and some partition attains it. */
  lemma {:induction false} LayeredObjectiveBounded(code: Code, exitNetworkFlow: real, net: LayeredNetwork,
                                                   phys: seq<seq<PhysData>>, n: nat, index: seq<nat>)
    returns (least: seq<nat>)
    requires net.Valid() && |net.base.nodes| == |phys| && net.base.Partition(index)
    ensures net.base.Partition(least)
    ensures LayeredObjective(code, exitNetworkFlow, net, phys, n, least)
         == LowestLayeredObjective(code, exitNetworkFlow, net, phys, n)
         <= LayeredObjective(code, exitNetworkFlow, net, phys, n, index)
  {
    hide LayeredObjective, LayeredNetwork.Valid;
    var f := (i: seq<nat>) => if net.base.Partition(i)
                              then LayeredObjective(code, exitNetworkFlow, net, phys, n, i) else 0.0;
    LowestIsBound(f, |net.base.nodes|, [], index);
    least := LowestAttained(f, |net.base.nodes|, []);
  }

  lemma {:induction false} LayersMakeExact(net: LayeredNetwork, index: seq<nat>, a: nat, delta: DeltaFlow,
                                           full: DeltaFlow,
                                           row: map<nat, LayerTeleFlowData>)
    requires net.Valid() && |net.layers| == |index| && ExactDelta(net.base, index, a, delta)
    requires LayerRowIs(row, net.layers, index, delta.moduleId) && full.moduleId == delta.moduleId
    requires full.Total() == delta.Total() + Sum(LayerParts(row, net.layers[a], index[a] == delta.moduleId))
    ensures ExactLayeredDelta(net, index, a, full)
  {
    hide Sum, LayerParts, FlowBetween, LayerRowIs, LayerBetweens;
    LayerPartsAre(net, index, a, delta.moduleId, row);
  }

  lemma {:induction false} RowOf(rows: seq<map<nat, LayerTeleFlowData>>, net: LayeredNetwork, index: seq<nat>, m: nat)
    requires |net.layers| == |index| && LayerRowsAre(rows, net, index) && m < |index|
    ensures |rows| == |index| && LayerRowIs(rows[m], net.layers, index, m)
  {
  }

  lemma {:induction false} ExactParts(net: Network, index: seq<nat>, a: nat, delta: DeltaFlow)
    requires ExactDelta(net, index, a, delta)
    ensures net.Valid() && net.Partition(index) && a < |index| && delta.moduleId < |index| && index[a] < |index|
  {
  }

  lemma {:induction false} ExactLayeredParts(net: LayeredNetwork, index: seq<nat>, a: nat, delta: DeltaFlow)
    requires ExactLayeredDelta(net, index, a, delta)
    ensures a < |index| && delta.moduleId < |index| && index[a] < |index|
  {
  }

  // ----- Consolidated networks -----

  ghost predicate Grouping(g: seq<nat>, n: nat)
  {
    |g| == n && forall j :: 0 <= j < |g| ==> g[j] < n
  }

  /** The new physical nodes stand for the old ones: every grouping has the same codewords. */
  ghost predicate PhysRepresents(code: Code, phys: seq<seq<PhysData>>, q: seq<nat>, smallPhys: seq<seq<PhysData>>,
                                 n: nat)
  {
    && |phys| == |q| && (forall i :: 0 <= i < |q| ==> q[i] < |smallPhys|)
    && forall g: seq<nat> :: Grouping(g, |smallPhys|) ==>
       NodeFlowLog(code, smallPhys, g, n) == NodeFlowLog(code, phys, Compose(q, g), n)
  }

  lemma {:induction false} PhysRepresentsItself(code: Code, phys: seq<seq<PhysData>>, n: nat)
    ensures PhysRepresents(code, phys, Identity(|phys|), phys, n)
  {
    hide NodeFlowLog;
    forall g: seq<nat> | Grouping(g, |phys|) ensures Compose(Identity(|phys|), g) == g {
      assert |Compose(Identity(|phys|), g)| == |g|;
    }
  }

  lemma {:induction false} PhysRepresentsCompose(code: Code, phys: seq<seq<PhysData>>, q: seq<nat>,
                                                 middle: seq<seq<PhysData>>,
                                                 r: seq<nat>, smallPhys: seq<seq<PhysData>>, n: nat)
    requires PhysRepresents(code, phys, q, middle, n) && PhysRepresents(code, middle, r, smallPhys, n)
              && |smallPhys| <= |middle|
    ensures PhysRepresents(code, phys, Compose(q, r), smallPhys, n)
  {
    hide NodeFlowLog;
    forall g: seq<nat> | Grouping(g, |smallPhys|)
      ensures NodeFlowLog(code, smallPhys, g, n) == NodeFlowLog(code, phys, Compose(Compose(q, r), g), n)
    {
      assert Grouping(Compose(r, g), |middle|);
      ComposeAssociates(q, r, g);
    }
  }

  /** The layered memory network a consolidation builds stands for the one below. */
  ghost predicate FullRepresents(code: Code, net: LayeredNetwork, phys: seq<seq<PhysData>>, q: seq<nat>,
                                 small: LayeredNetwork, smallPhys: seq<seq<PhysData>>, n: nat)
  {
    && LayeredRepresents(net, q, small) && |smallPhys| == |small.base.nodes| <= |net.base.nodes|
    && PhysRepresents(code, phys, q, smallPhys, n)
  }

  lemma {:induction false} FullRepresentsCompose(code: Code, net: LayeredNetwork, phys: seq<seq<PhysData>>, q: seq<nat>,
                                                 middle: LayeredNetwork, middlePhys: seq<seq<PhysData>>, r: seq<nat>,
                                                 small: LayeredNetwork, smallPhys: seq<seq<PhysData>>, n: nat)
    requires FullRepresents(code, net, phys, q, middle, middlePhys, n)
    requires FullRepresents(code, middle, middlePhys, r, small, smallPhys, n)
    ensures |r| == |middle.base.nodes| && forall i :: 0 <= i < |q| ==> q[i] < |r|
    ensures FullRepresents(code, net, phys, Compose(q, r), small, smallPhys, n)
  {
    hide LayeredRepresents, PhysRepresents;
    LayeredRepresentsValid(net, q, middle);
    LayeredRepresentsValid(middle, r, small);
    LayeredRepresentsCompose(net, q, middle, r, small);
    PhysRepresentsCompose(code, phys, q, middlePhys, r, smallPhys, n);
  }

  /** A grouping of the small network has the objective of the same grouping of the large one. */
  lemma {:induction false} LayeredObjectiveRepresented(code: Code, exitNetworkFlow: real, net: LayeredNetwork,
                                                       phys: seq<seq<PhysData>>,
                                                       q: seq<nat>, small: LayeredNetwork,
                                                           smallPhys: seq<seq<PhysData>>, n: nat, g: seq<nat>)
    requires FullRepresents(code, net, phys, q, small, smallPhys, n) && small.base.Partition(g)
              && code.PLogP(0.0) == 0.0
    ensures net.Valid() && small.Valid() && |q| == |net.base.nodes| == |phys| && forall i :: 0 <= i < |q| ==> q[i] < |g|
    ensures LayeredObjective(code, exitNetworkFlow, small, smallPhys, n, g)
         == LayeredObjective(code, exitNetworkFlow, net, phys, n, Compose(q, g))
  {
    hide Codelength, LayeredRepresents, NodeFlowLog, NodeLayersOk;
    LayeredRepresentsValid(net, q, small);
    assert Grouping(g, |smallPhys|);
    LayeredCodelengthRepresented(Setting(code, NO_BIAS, exitNetworkFlow, NodeFlowLog(code, smallPhys, g, n)), net, q,
        small, g);
  }

  class RegularizedMultilayerMapEquation {
    const memory: MemMapEquation

    var moduleLayerTeleFlowData: seq<map<nat, LayerTeleFlowData>>

    constructor (memory: MemMapEquation)
      ensures this.memory == memory && moduleLayerTeleFlowData == []
    {
      this.memory := memory;
      moduleLayerTeleFlowData := [];
    }

    ghost predicate LayersTrack(net: LayeredNetwork, index: seq<nat>)
      reads this
    {
      net.Valid() && |net.layers| == |index| && LayerRowsAre(moduleLayerTeleFlowData, net, index)
    }

    /** Every term is the from-scratch value, and the index holds exactly the layers of the members. */
    ghost predicate Tracks(net: LayeredNetwork, modules: seq<FlowData>, phys: seq<seq<PhysData>>, index: seq<nat>)
      reads this, memory, memory.base
    {
      memory.Tracks(modules, phys, index) && LayersTrack(net, index)
    }

    // ----- The index -----

    method AddLayerTeleFlow(moduleIndex: nat, carried: seq<LayerTeleFlowData>,
                            ghost net: LayeredNetwork, ghost index: seq<nat>, ghost a: nat)
      requires net.Valid() && |net.layers| == |index| && a < |index| && index[a] != moduleIndex
                && carried == net.layers[a]
      requires moduleIndex < |moduleLayerTeleFlowData|
      requires LayerRowIs(moduleLayerTeleFlowData[moduleIndex], net.layers, index, moduleIndex)
      modifies `moduleLayerTeleFlowData
      ensures |moduleLayerTeleFlowData| == |old(moduleLayerTeleFlowData)|
      ensures forall m :: 0 <= m < |moduleLayerTeleFlowData| && m != moduleIndex ==>
                moduleLayerTeleFlowData[m] == old(moduleLayerTeleFlowData)[m]
      ensures LayerRowIs(moduleLayerTeleFlowData[moduleIndex], net.layers, index[a := moduleIndex], moduleIndex)
    {
      hide LayerRowIs, LayerRowPart, Network.Valid;
      var row := moduleLayerTeleFlowData[moduleIndex];
      LayerRowPartStart(row, net.layers, index, index[a := moduleIndex], moduleIndex);
      assert carried[..0] == [];
      for k := 0 to |carried|
        invariant LayerRowPart(row, net.layers, index, index[a := moduleIndex], moduleIndex, carried[..k])
        modifies {}
      {
        AddedStep(net, index, a, moduleIndex, row, k);
        row := AddedEntry(row, carried[k]);
      }
      assert carried[..|carried|] == carried;
      LayerRowPartEnd(net, index, a, moduleIndex, moduleIndex, row);
      moduleLayerTeleFlowData := moduleLayerTeleFlowData[moduleIndex := row];
    }

    /** Every layer of the node is found in the row of its old module, with enough nodes to take out. */
    method RemoveLayerTeleFlow(moduleIndex: nat, carried: seq<LayerTeleFlowData>,
                               ghost net: LayeredNetwork, ghost index: seq<nat>, ghost a: nat, ghost to: nat)
      requires net.Valid() && |net.layers| == |index| && a < |index| && index[a] == moduleIndex != to
                && carried == net.layers[a]
      requires moduleIndex < |moduleLayerTeleFlowData|
      requires LayerRowIs(moduleLayerTeleFlowData[moduleIndex], net.layers, index, moduleIndex)
      modifies `moduleLayerTeleFlowData
      ensures |moduleLayerTeleFlowData| == |old(moduleLayerTeleFlowData)|
      ensures forall m :: 0 <= m < |moduleLayerTeleFlowData| && m != moduleIndex ==>
                moduleLayerTeleFlowData[m] == old(moduleLayerTeleFlowData)[m]
      ensures LayerRowIs(moduleLayerTeleFlowData[moduleIndex], net.layers, index[a := to], moduleIndex)
    {
      hide LayerRowIs, LayerRowPart, Network.Valid;
      var row := moduleLayerTeleFlowData[moduleIndex];
      LayerRowPartStart(row, net.layers, index, index[a := to], moduleIndex);
      assert carried[..0] == [];
      for k := 0 to |carried|
        invariant LayerRowPart(row, net.layers, index, index[a := to], moduleIndex, carried[..k])
        modifies {}
      {
        RemovedStep(net, index, a, to, row, k);
        row := RemovedEntry(row, carried[k]);
      }
      assert carried[..|carried|] == carried;
      LayerRowPartEnd(net, index, a, to, moduleIndex, row);
      moduleLayerTeleFlowData := moduleLayerTeleFlowData[moduleIndex := row];
    }

    method InitPartitionLayerTeleFlowData(net: LayeredNetwork)
      requires net.Valid()
      modifies `moduleLayerTeleFlowData
      ensures LayersTrack(net, Identity(|net.layers|))
    {
      hide LayerRowIs, Network.Valid, NodeLayersOk;
      var n := |net.layers|;
      moduleLayerTeleFlowData := seq(n, (m: nat) => map[]);
      forall m | 0 <= m < n ensures LayerRowIs(moduleLayerTeleFlowData[m], net.layers, Settled(n, 0), m) {
        NobodySettled(net, m);
      }
      for i := 0 to n
        invariant LayerRowsAre(moduleLayerTeleFlowData, net, Settled(n, i))
      {
        ghost var rows := moduleLayerTeleFlowData;
        AddLayerTeleFlow(i, net.layers[i], net, Settled(n, i), i);
        RowsAfterMove(rows, moduleLayerTeleFlowData, net, Settled(n, i), i, i);
        assert Settled(n, i)[i := i] == Settled(n, i + 1);
      }
      assert Settled(n, n) == Identity(n);
    }

    method InitPartition(net: LayeredNetwork, phys: seq<seq<PhysData>>)
      requires net.Valid() && MemoryOk(phys, memory.numPhysicalNodes) && |phys| == |net.base.nodes|
      requires memory.base.exitNetworkFlowLog == memory.base.code.PLogP(memory.base.exitNetworkFlow)
      requires memory.base.code.PLogP(0.0) == 0.0
      modifies this, memory, memory.base
      ensures Tracks(net, net.base.nodes, phys, Identity(|net.base.nodes|)) && !memory.memoryContributionsAdded
      ensures memory.base.exitNetworkFlow == old(memory.base.exitNetworkFlow)
    {
      hide MemMapEquation.Tracks, LayerRowsAre, NodeLayersOk, Network.Valid, MemoryOk, Identity;
      memory.InitPartition(net.base.nodes, phys);
      InitPartitionLayerTeleFlowData(net);
    }

    // ----- Teleportation within layers, added to the deltas -----

    /** Flow between the node and the module of the row within the layers, each way. */
    method LayerFlow(row: map<nat, LayerTeleFlowData>, carried: seq<LayerTeleFlowData>, own: bool)
      returns (flow: DeltaFlow)
      ensures flow.Total() == Sum(LayerParts(row, carried, own))
      ensures flow.deltaExit == Sum(LayerExits(row, carried, own))
    {
      hide Sum, LayerPart;
      flow := DeltaFlow(0, 0.0, 0.0);
      ghost var parts, exits := LayerParts(row, carried, own), LayerExits(row, carried, own);
      assert parts[..0] == [] && exits[..0] == [];
      SumNone();
      for k := 0 to |carried|
        invariant flow.Total() == Sum(parts[..k]) && flow.deltaExit == Sum(exits[..k])
      {
        flow := flow.Plus(LayerPart(row, carried[k], own));
        assert parts[..k + 1] == parts[..k] + [parts[k]] && exits[..k + 1] == exits[..k] + [exits[k]];
        SumAppend(parts[..k], parts[k]);
        SumAppend(exits[..k], exits[k]);
      }
      assert parts[..|carried|] == parts && exits[..|carried|] == exits;
    }

    /** What this objective adds for a given pair of modules, after the recorded teleportation. */
    method AddTeleportationFlow(net: LayeredNetwork, ghost index: seq<nat>, a: nat, oldDelta: DeltaFlow,
                                newDelta: DeltaFlow)
      returns (oldDelta': DeltaFlow, newDelta': DeltaFlow)
      requires LayersTrack(net, index) && ExactDelta(net.base, index, a, oldDelta)
                && ExactDelta(net.base, index, a, newDelta)
      requires oldDelta.moduleId == index[a] != newDelta.moduleId
      ensures oldDelta'.moduleId == oldDelta.moduleId && newDelta'.moduleId == newDelta.moduleId
      ensures ExactLayeredDelta(net, index, a, oldDelta') && ExactLayeredDelta(net, index, a, newDelta')
    {
      hide ExactDelta, ExactLayeredDelta, LayerRowsAre, Sum, LayerParts, Network.Valid, NodeLayersOk;
      ExactParts(net.base, index, a, oldDelta);
      ExactParts(net.base, index, a, newDelta);
      RowOf(moduleLayerTeleFlowData, net, index, oldDelta.moduleId);
      RowOf(moduleLayerTeleFlowData, net, index, newDelta.moduleId);
      var oldFlow := LayerFlow(moduleLayerTeleFlowData[oldDelta.moduleId], net.layers[a], true);
      oldDelta' := oldDelta.Plus(oldFlow.(moduleId := oldDelta.moduleId));
      var newFlow := LayerFlow(moduleLayerTeleFlowData[newDelta.moduleId], net.layers[a], false);
      newDelta' := newDelta.Plus(newFlow.(moduleId := newDelta.moduleId));
      LayersMakeExact(net, index, a, oldDelta, oldDelta', moduleLayerTeleFlowData[oldDelta.moduleId]);
      LayersMakeExact(net, index, a, newDelta, newDelta', moduleLayerTeleFlowData[newDelta.moduleId]);
    }

    /** The same for all candidate modules of a node. */
    method AddTeleportationFlowToAll(net: LayeredNetwork, index: seq<nat>, a: nat, table: map<nat, DeltaFlow>)
      returns (deltaFlow: map<nat, DeltaFlow>)
      requires LayersTrack(net, index) && a < |index|
      requires net.base.Partition(index)
      requires forall m :: m in table ==> table[m].moduleId == m && ExactDelta(net.base, index, a, table[m])
      requires forall m :: m in table ==> table[m].deltaExit == LinkExit(net.base, index, a, m)
      ensures deltaFlow.Keys == table.Keys
      ensures forall m :: m in deltaFlow ==>
                deltaFlow[m].moduleId == m && ExactLayeredDelta(net, index, a, deltaFlow[m])
      ensures forall m :: m in deltaFlow ==> deltaFlow[m].deltaExit == LayeredExit(net, index, a, m)
    {
      hide ExactDelta, ExactLayeredDelta, LayerRowsAre, Sum, LayerParts, LayerExits, Network.Valid, NodeLayersOk,
           LinkExit, PassedWithin;
      deltaFlow := table;
      var todo := table.Keys;
      while todo != {}
        invariant todo <= table.Keys == deltaFlow.Keys
        invariant forall m :: m in todo ==> deltaFlow[m] == table[m]
        invariant forall m :: m in deltaFlow && m !in todo ==>
                    deltaFlow[m].moduleId == m && ExactLayeredDelta(net, index, a, deltaFlow[m])
                    && deltaFlow[m].deltaExit == LayeredExit(net, index, a, m)
        decreases todo
      {
        var m :| m in todo;
        todo := todo - {m};
        ExactParts(net.base, index, a, table[m]);
        RowOf(moduleLayerTeleFlowData, net, index, m);
        LayerExitsArePassed(net, index, a, m, moduleLayerTeleFlowData[m]);
        var flow := LayerFlow(moduleLayerTeleFlowData[m], net.layers[a], m == index[a]);
        var full := table[m].Plus(flow.(moduleId := m));
        LayersMakeExact(net, index, a, table[m], full, moduleLayerTeleFlowData[m]);
        deltaFlow := deltaFlow[m := full];
      }
    }

    // ----- Moving a node -----

    /** Memory index, codewords and terms as in the memory objective, then the layers of the node. */
    method UpdateCodelengthOnMovingNode(net: LayeredNetwork, a: nat, oldDelta: MemDeltaFlow, newDelta: MemDeltaFlow,
                                        modules: seq<FlowData>, phys: seq<seq<PhysData>>, ghost index: seq<nat>)
      returns (moduleFlowData: seq<FlowData>)
      requires Tracks(net, modules, phys, index) && memory.base.code.PLogP(0.0) == 0.0 && |modules| == |index|
      requires a < |index| == |net.base.nodes| && index[a] < |index|
      requires MoveOk(modules, oldDelta.flow, newDelta.flow) && oldDelta.flow.moduleId == index[a]
      requires |phys| == |index|
      requires memory.UsedContribution(oldDelta, newDelta, phys, index, a)
            == TrueChange(memory.base.code, phys, index, index[a], newDelta.flow.moduleId, phys[a])
      modifies this, memory, memory.base
      ensures moduleFlowData == Moved(modules, net.base.nodes[a], oldDelta.flow, newDelta.flow)
      ensures Tracks(net, moduleFlowData, phys, index[a := newDelta.flow.moduleId])
      ensures memory.base.codelength
           == old(memory.base.codelength
                  + memory.base.GetDeltaCodelengthOnMovingNode(net.base.nodes[a], oldDelta.flow, newDelta.flow, modules)
                  - memory.UsedContribution(oldDelta, newDelta, phys, index, a))
      ensures !memory.memoryContributionsAdded && memory.base.exitNetworkFlow == old(memory.base.exitNetworkFlow)
    {
      hide MemMapEquation.Tracks, MemMapEquation.UsedContribution, TrueChange, LayerRowsAre, LayerRowIs, NodeLayersOk,
           Network.Valid, Moved, MapEquation.Tracks, MemMapEquation.IndexTracks,
               MapEquation.GetDeltaCodelengthOnMovingNode;
      var oldM, newM := oldDelta.flow.moduleId, newDelta.flow.moduleId;
      RowOf(moduleLayerTeleFlowData, net, index, oldM);
      RowOf(moduleLayerTeleFlowData, net, index, newM);
      moduleFlowData := memory.UpdateCodelengthOnMovingNode(net.base.nodes[a], phys[a], oldDelta, newDelta, modules,
          phys, index, a);
      ghost var rows := moduleLayerTeleFlowData;
      RemoveLayerTeleFlow(oldM, net.layers[a], net, index, a, newM);
      AddLayerTeleFlow(newM, net.layers[a], net, index, a);
      RowsAfterMove(rows, moduleLayerTeleFlowData, net, index, a, newM);
    }
  }

  /** What the sweeps see of a layered network. */
  ghost function LayeredTerrain(code: Code, exitNetworkFlow: real, net: LayeredNetwork, phys: seq<seq<PhysData>>,
                                n: nat,
                                threshold: real, random: bool): Terrain
  {
    Terrain(
      net.base.edges, threshold,
      (index: seq<nat>) =>
        if net.Valid() && net.base.Partition(index) && |net.base.nodes| == |phys|
        then LayeredObjective(code, exitNetworkFlow, net, phys, n, index) else 0.0,
      (index: seq<nat>, a: nat, m: nat) =>
        if net.Valid() && net.base.Partition(index) && a < |index| then LayeredExit(net, index, a, m) else 0.0,
      (list: ListState, a: nat, m: nat) =>
        && net.Valid() && net.base.Partition(list.index) && |list.index| == |phys| == |list.members|
        && a < |list.index| && MemoryCandidate(net.base, phys, list.index, list.members, list.emptyModules, a, m),
      random)
  }

  lemma {:induction false} LayeredTerrainParts(code: Code, exitNetworkFlow: real, net: LayeredNetwork,
                                               phys: seq<seq<PhysData>>, n: nat, threshold: real, random: bool,
                                               index: seq<nat>)
    requires net.Valid() && net.base.Partition(index) && |net.base.nodes| == |phys|
    ensures var t := LayeredTerrain(code, exitNetworkFlow, net, phys, n, threshold, random);
            && t.objective(index) == LayeredObjective(code, exitNetworkFlow, net, phys, n, index)
            && t.threshold == threshold && t.edges == net.base.edges
  {
    hide LayeredNetwork.Valid, LayeredObjective, LayeredExit, MemoryCandidate;
  }

  class LayeredOptimizer {
    const objective: RegularizedMultilayerMapEquation
    const minimumSingleNodeImprovement: real
    const minimumCodelengthImprovement: real
    const undirectedClustering: bool
    const numRandomMoves: nat

    var net: LayeredNetwork
    var phys: seq<seq<PhysData>>
    var index: seq<nat>
    var moduleFlowData: seq<FlowData>
    var moduleMembers: seq<nat>
    var emptyModules: seq<nat>
    var dirty: seq<bool>

    constructor (objective: RegularizedMultilayerMapEquation, minimumSingleNodeImprovement: real,
                 minimumCodelengthImprovement: real, undirectedClustering: bool, numRandomMoves: nat)
      requires objective.memory.base.code.PLogP(0.0) == 0.0 && minimumSingleNodeImprovement >= 0.0
      ensures Configured() && this.objective == objective
      ensures this.minimumSingleNodeImprovement == minimumSingleNodeImprovement
      ensures this.minimumCodelengthImprovement == minimumCodelengthImprovement
      ensures this.undirectedClustering == undirectedClustering && this.numRandomMoves == numRandomMoves
    {
      this.objective := objective;
      this.minimumSingleNodeImprovement := minimumSingleNodeImprovement;
      this.minimumCodelengthImprovement, this.numRandomMoves := minimumCodelengthImprovement, numRandomMoves;
      this.undirectedClustering := undirectedClustering;
      net := LayeredNetwork(Network([], [], false), [], 0);
      phys, index, moduleFlowData, moduleMembers, emptyModules, dirty := [], [], [], [], [], [];
    }

    ghost predicate Configured()
    {
      objective.memory.base.code.PLogP(0.0) == 0.0 && minimumSingleNodeImprovement >= 0.0
    }

    /** Everything kept incrementally equals its from-scratch value on the current assignment. */
    ghost predicate Exact()
      reads `net, `phys, `index, `moduleFlowData, `moduleMembers, objective, objective.memory, objective.memory.base
    {
      && Configured()
      && LayeredKept(net, index, moduleFlowData, moduleMembers)
      && objective.Tracks(net, moduleFlowData, phys, index)
    }

    ghost predicate Valid()
      reads this, objective, objective.memory, objective.memory.base
    {
      Exact() && EmptyListOk(emptyModules, moduleMembers) && |dirty| == |index|
    }

    /** Assignment, members and list of empty modules. */
    ghost function ListNow(): ListState
      reads `index, `moduleMembers, `emptyModules
    {
      ListState(index, moduleMembers, emptyModules)
    }

    /** The same with the nodes worth a visit. */
    ghost function StateNow(): SweepState
      reads `index, `moduleMembers, `emptyModules, `dirty
    {
      SweepState(ListNow(), dirty)
    }

    lemma {:induction false} ListNowOk()
      requires Valid()
      ensures ListNow().Ok() && StateNow().Ok()
    {
      hide NumZeros, AllModuleData, RegularizedMultilayerMapEquation.Tracks, EmptyListOk, LayeredOptimizer.Configured;
    }

    /** What the sweeps see of the current network. */
    ghost function TerrainNow(): Terrain
      reads `net, `phys, objective.memory.base
    {
      LayeredTerrain(objective.memory.base.code, objective.memory.base.exitNetworkFlow, net, phys,
                     objective.memory.numPhysicalNodes,
                    minimumSingleNodeImprovement, numRandomMoves > 0)
    }

    lemma {:induction false} CodelengthInTerrain()
      requires Exact()
      ensures objective.memory.base.codelength == TerrainNow().objective(index)
      ensures TerrainNow().threshold == minimumSingleNodeImprovement && TerrainNow().edges == net.base.edges
    {
      hide LayeredObjective, RegularizedMultilayerMapEquation.Tracks, LayeredTerrain;
      CodelengthIsObjective();
      ExactSizes();
      Sizes();
      LayeredTerrainParts(objective.memory.base.code, objective.memory.base.exitNetworkFlow, net, phys,
                          objective.memory.numPhysicalNodes,
                         minimumSingleNodeImprovement, numRandomMoves > 0, index);
    }

    /** The tracked codelength is the from-scratch objective of the current partition. */
    lemma {:induction false} CodelengthIsObjective()
      requires Exact()
      ensures net.Valid() && |net.base.nodes| == |index| == |phys|
      ensures objective.memory.base.codelength
           == LayeredObjective(objective.memory.base.code, objective.memory.base.exitNetworkFlow, net, phys,
                               objective.memory.numPhysicalNodes, index)
    {
      hide Codelength, TermSum, NodeFlowLog, LayerRowsAre, LayeredModuleData, NodeLayersOk;
    }

    /** The least objective of the partitions of the current network. */
    ghost function LowestOfNetwork(): real
      requires net.Valid() && |net.base.nodes| == |phys|
      reads this, objective.memory.base
    {
      LowestLayeredObjective(objective.memory.base.code, objective.memory.base.exitNetworkFlow, net, phys,
                             objective.memory.numPhysicalNodes)
    }

    lemma {:induction false} CodelengthBounded()
      requires Exact()
      ensures net.Valid() && |net.base.nodes| == |phys| && LowestOfNetwork() <= objective.memory.base.codelength
    {
      hide LayeredObjective, LowestLayeredObjective, RegularizedMultilayerMapEquation.Tracks;
      Sizes();
      CodelengthIsObjective();
      var least := LayeredObjectiveBounded(objective.memory.base.code, objective.memory.base.exitNetworkFlow, net, phys,
          objective.memory.numPhysicalNodes, index);
    }

    method InitPartition(network: LayeredNetwork, physicalNodes: seq<seq<PhysData>>)
      requires Configured() && network.Valid()
      requires MemoryOk(physicalNodes, objective.memory.numPhysicalNodes) && |physicalNodes| == |network.base.nodes|
      requires objective.memory.base.exitNetworkFlowLog
            == objective.memory.base.code.PLogP(objective.memory.base.exitNetworkFlow)
      modifies this, objective, objective.memory, objective.memory.base
      ensures Valid() && net == network && phys == physicalNodes && index == Identity(|network.base.nodes|)
      ensures StateNow() == FreshState(|network.base.nodes|)
      ensures !objective.memory.memoryContributionsAdded
      ensures objective.memory.base.exitNetworkFlow == old(objective.memory.base.exitNetworkFlow)
    {
      hide LayeredKept, Identity, Ones, RegularizedMultilayerMapEquation.Tracks, NumZeros, MemoryOk, NodeLayersOk,
           Network.Valid;
      LayeredSingletons(network);
      net, phys := network, physicalNodes;
      index, moduleFlowData := Identity(|net.base.nodes|), net.base.nodes;
      moduleMembers, emptyModules := Ones(|net.base.nodes|), [];
      dirty := seq(|net.base.nodes|, (i: nat) => true);
      objective.InitPartition(net, phys);
    }

    /** The flag tells the truth about the deltas: they carry their contributions exactly if it is set. */
    ghost predicate FlagRight(a: nat, oldDelta: MemDeltaFlow, newDelta: MemDeltaFlow)
      reads `net, `phys, `index, objective.memory, objective.memory.base
    {
      if objective.memory.memoryContributionsAdded then
        && ExactFullDelta(objective.memory.base.code, net, phys, index, a, oldDelta)
        && ExactFullDelta(objective.memory.base.code, net, phys, index, a, newDelta)
      else
        && ExactLayeredDelta(net, index, a, oldDelta.flow) && oldDelta.mem == NO_MEMORY
        && ExactLayeredDelta(net, index, a, newDelta.flow) && newDelta.mem == NO_MEMORY
    }

    /** With the flag right, the update uses the true change, whichever route computed it. */
    lemma {:induction false} UsedIsTrue(a: nat, oldDelta: MemDeltaFlow, newDelta: MemDeltaFlow)
      requires Exact() && FlagRight(a, oldDelta, newDelta)
      requires oldDelta.flow.moduleId == index[a] && newDelta.flow.moduleId != index[a]
      ensures a < |index| == |phys| && index[a] < |index| && newDelta.flow.moduleId < |index|
      ensures ExactLayeredDelta(net, index, a, oldDelta.flow) && ExactLayeredDelta(net, index, a, newDelta.flow)
      ensures objective.memory.UsedContribution(oldDelta, newDelta, phys, index, a)
           == TrueChange(objective.memory.base.code, phys, index, index[a], newDelta.flow.moduleId, phys[a])
    {
      hide PartOf, PartOnMove, TrueChange, Contribution, MapEquation.Tracks, LayerRowsAre, LayeredFlowBetween,
           NodeFlowLog, LayeredKept, NodeLayersOk, MemoryOk, IndexIs;
      var code, oldM, newM := objective.memory.base.code, index[a], newDelta.flow.moduleId;
      ExactLayeredParts(net, index, a, oldDelta.flow);
      ExactLayeredParts(net, index, a, newDelta.flow);
      OwnModuleCarries(phys, index, a);
      RoutesAgree(code, phys, index, oldM, newM, phys[a]);
      MemoryOptimizer.PlusNothing(PartOnMove(code, phys, index, oldM, phys[a], oldM));
      MemoryOptimizer.PlusNothing(PartOnMove(code, phys, index, oldM, phys[a], newM));
    }

    /** A move with exact deltas and the flag right keeps everything exact and uses the flag up. */
    method CommitMove(a: nat, oldDelta: MemDeltaFlow, newDelta: MemDeltaFlow)
      requires a < |index| && oldDelta.flow.moduleId == index[a] && newDelta.flow.moduleId != index[a]
      requires Exact() && FlagRight(a, oldDelta, newDelta)
      modifies `index, `moduleFlowData, `moduleMembers, objective, objective.memory, objective.memory.base
      ensures Exact() && !objective.memory.memoryContributionsAdded
      ensures index == old(index)[a := newDelta.flow.moduleId]
      ensures a < |net.base.nodes| && MoveOk(old(moduleFlowData), oldDelta.flow, newDelta.flow)
      ensures |old(moduleMembers)| == |old(index)| && newDelta.flow.moduleId < |old(index)|
      ensures old(moduleMembers)[oldDelta.flow.moduleId] > 0
      ensures moduleMembers == MembersMoved(old(moduleMembers), oldDelta.flow.moduleId, newDelta.flow.moduleId)
      ensures objective.memory.base.exitNetworkFlow == old(objective.memory.base.exitNetworkFlow)
      ensures old(objective.memory.memoryContributionsAdded) ==>
                objective.memory.base.codelength
                == old(objective.memory.base.codelength
                       + objective.memory.GetDeltaCodelengthOnMovingNode(net.base.nodes[a], oldDelta, newDelta,
                           moduleFlowData))
    {
      hide LayeredKept, ExactLayeredDelta, MoveOk, Moved, MemMapEquation.UsedContribution, LayeredOptimizer.FlagRight,
           TrueChange,
           MemMapEquation.Tracks, RegularizedMultilayerMapEquation.LayersTrack,
               MapEquation.GetDeltaCodelengthOnMovingNode;
      UsedIsTrue(a, oldDelta, newDelta);
      UsedWhenFlagged(a, oldDelta, newDelta);
      LayeredKeptByMove(net, index, moduleFlowData, moduleMembers, a, oldDelta.flow, newDelta.flow);
      moduleFlowData := objective.UpdateCodelengthOnMovingNode(net, a, oldDelta, newDelta, moduleFlowData, phys, index);
      moduleMembers := moduleMembers[oldDelta.flow.moduleId := moduleMembers[oldDelta.flow.moduleId] - 1];
      moduleMembers := moduleMembers[newDelta.flow.moduleId := moduleMembers[newDelta.flow.moduleId] + 1];
      index := index[a := newDelta.flow.moduleId];
    }

    lemma {:induction false} UsedWhenFlagged(a: nat, oldDelta: MemDeltaFlow, newDelta: MemDeltaFlow)
      requires |phys| == |index| && a < |index| && index[a] < |index| && newDelta.flow.moduleId < |index|
      ensures objective.memory.memoryContributionsAdded ==>
                objective.memory.UsedContribution(oldDelta, newDelta, phys, index, a)
                    == Contribution(oldDelta.mem, newDelta.mem)
    {
    }

    /** A move that also keeps the list of empty modules at its length. */
    method MakeMove(a: nat, oldDelta: MemDeltaFlow, newDelta: MemDeltaFlow)
      requires Valid() && FlagRight(a, oldDelta, newDelta)
      requires oldDelta.flow.moduleId == index[a] && newDelta.flow.moduleId != index[a]
      modifies `index, `moduleFlowData, `moduleMembers, `emptyModules, objective, objective.memory,
                objective.memory.base
      ensures Valid() && !objective.memory.memoryContributionsAdded
      ensures index == old(index)[a := newDelta.flow.moduleId]
      ensures objective.memory.base.exitNetworkFlow == old(objective.memory.base.exitNetworkFlow)
      ensures a < |net.base.nodes| && MoveOk(old(moduleFlowData), oldDelta.flow, newDelta.flow)
      ensures a < |old(index)| && newDelta.flow.moduleId < |old(index)| && ListNow().Ok() && old(ListNow()).Ok()
      ensures ListNow() == ListMoved(old(ListNow()), a, newDelta.flow.moduleId)
      ensures old(objective.memory.memoryContributionsAdded) ==>
                objective.memory.base.codelength
                == old(objective.memory.base.codelength
                       + objective.memory.GetDeltaCodelengthOnMovingNode(net.base.nodes[a], oldDelta, newDelta,
                           moduleFlowData))
    {
      hide LayeredKept, MapEquation.GetDeltaCodelengthOnMovingNode, ExactLayeredDelta, MembersMoved, NumZeros,
           RegularizedMultilayerMapEquation.Tracks,
           LayeredOptimizer.FlagRight;
      ListNowOk();
      Sizes();
      MoveTargets(a, oldDelta, newDelta);
      var oldM, newM := index[a], newDelta.flow.moduleId;
      EmptyListCounts(emptyModules, moduleMembers, oldM, newM);
      ghost var listAfter := EmptyListMoved(emptyModules, moduleMembers, oldM, newM);
      if moduleMembers[newM] == 0 {
        emptyModules := emptyModules[..|emptyModules| - 1];
      }
      if moduleMembers[oldM] == 1 {
        emptyModules := emptyModules + [oldM];
      }
      assert emptyModules == listAfter;
      CommitMove(a, oldDelta, newDelta);
      ListNowOk();
    }

    lemma {:induction false} Sizes()
      requires Exact()
      ensures net.Valid() && net.base.Valid() && net.base.Partition(index) && Carried(net.base, index, moduleFlowData)
      ensures |index| == |net.base.nodes| == |net.layers| == |moduleFlowData| == |moduleMembers| == |phys|
      ensures moduleMembers == AllMembers(index, |index|)
      ensures forall i :: 0 <= i < |index| ==> index[i] < |index| && moduleMembers[index[i]] > 0
    {
      hide LayeredKept, MapEquation.Tracks, LayerRowsAre, NodeFlowLog, Carried, Network.Valid, NodeLayersOk;
      LayeredCarried(net, index, moduleFlowData, moduleMembers);
      forall i | 0 <= i < |index| ensures moduleMembers[index[i]] > 0 {
        CountZero(index, index[i]);
      }
    }

    lemma {:induction false} SameLength()
      requires Exact()
      ensures |index| == |net.base.nodes|
    {
      Sizes();
    }

    lemma {:induction false} MoveTargets(a: nat, oldDelta: MemDeltaFlow, newDelta: MemDeltaFlow)
      requires FlagRight(a, oldDelta, newDelta)
      ensures a < |index| && newDelta.flow.moduleId < |index|
    {
    }

    // ----- Predefined moves -----

    /** The deltas of a predefined move carry no contributions, so the flag must not be set. */
    method MoveNodeToPredefinedModule(a: nat, newM: nat) returns (moved: bool)
      requires Valid() && a < |index| && newM < |index| && !objective.memory.memoryContributionsAdded
      modifies `index, `moduleFlowData, `moduleMembers, `emptyModules, objective, objective.memory,
                objective.memory.base
      ensures Valid() && !objective.memory.memoryContributionsAdded
      ensures index == old(index)[a := newM] && moved == (old(index)[a] != newM)
      ensures objective.memory.base.exitNetworkFlow == old(objective.memory.base.exitNetworkFlow)
      ensures old(ListNow()).Ok() && ListNow() == ListMoved(old(ListNow()), a, newM)
    {
      hide LayeredKept, ExactDelta, ExactLayeredDelta, MemMapEquation.Tracks, LayerRowsAre, Carried, NodeLayersOk,
           Network.Valid, EmptyListOk;
      ListNowOk();
      var oldM := index[a];
      if newM == oldM {
        assert index[a := newM] == index;
        return false;
      }
      Sizes();
      var oldDelta, newDelta := LinkDeltas(net.base, index, moduleFlowData, a, oldM, newM);
      oldDelta, newDelta := objective.AddTeleportationFlow(net, index, a, oldDelta, newDelta);
      MakeMove(a, MemDeltaFlow(oldDelta, NO_MEMORY), MemDeltaFlow(newDelta, NO_MEMORY));
      return true;
    }

    method MoveActiveNodesToPredefinedModules(modules: seq<nat>)
      requires Valid() && net.base.Partition(modules) && !objective.memory.memoryContributionsAdded
      modifies `index, `moduleFlowData, `moduleMembers, `emptyModules, objective, objective.memory,
                objective.memory.base
      ensures Valid() && index == modules && !objective.memory.memoryContributionsAdded
      ensures objective.memory.base.exitNetworkFlow == old(objective.memory.base.exitNetworkFlow)
      ensures old(ListNow()).Ok() && |old(index)| == |modules|
      ensures ListNow() == ListAfter(old(ListNow()), modules, |modules|)
    {
      hide LayeredOptimizer.Exact, EmptyListOk, ListState.Ok, ListMoved, ListAfter;
      SameLength();
      ListNowOk();
      ghost var start := ListNow();
      ListAfterNone(start, modules);
      for i := 0 to |index|
        invariant Valid() && |index| == |modules| && !objective.memory.memoryContributionsAdded
        invariant ListNow() == ListAfter(start, modules, i)
        invariant forall k :: 0 <= k < i ==> index[k] == modules[k]
        invariant objective.memory.base.exitNetworkFlow == old(objective.memory.base.exitNetworkFlow)
      {
        var moved := MoveNodeToPredefinedModule(i, modules[i]);
        ListAfterNext(start, modules, i);
      }
    }

    // ----- Moves to the best module -----

    ghost predicate Sized()
      reads `net, `phys, `index, `moduleMembers
    {
      && net.Valid() && |net.base.nodes| == |index| == |phys| == |moduleMembers|
      && forall i :: 0 <= i < |index| ==> index[i] < |index|
    }

    lemma {:induction false} ExactSizes()
      requires Exact()
      ensures Sized() && |moduleFlowData| == |index|
    {
      hide LayeredKept, RegularizedMultilayerMapEquation.Tracks, Network.Valid, NodeLayersOk, Carried;
      Sizes();
    }

    /** The objective, from scratch, with node a in module m. */
    ghost function ObjectiveAfter(a: nat, m: nat): real
      requires Sized() && a < |index|
      reads `net, `phys, `index, `moduleMembers, objective.memory.base
    {
      LayeredObjective(objective.memory.base.code, objective.memory.base.exitNetworkFlow, net, phys,
                       objective.memory.numPhysicalNodes, index[a := m])
    }

    ghost function Predicted(a: nat, oldDelta: MemDeltaFlow, newDelta: MemDeltaFlow): real
      requires a < |net.base.nodes|
      requires oldDelta.flow.moduleId < |moduleFlowData| && newDelta.flow.moduleId < |moduleFlowData|
      reads `net, `moduleFlowData, objective.memory, objective.memory.base
    {
      if oldDelta.flow.moduleId == newDelta.flow.moduleId then 0.0
      else objective.memory.GetDeltaCodelengthOnMovingNode(net.base.nodes[a], oldDelta, newDelta, moduleFlowData)
    }

    /** What is predicted for a move is the change of the objective from scratch. */
    lemma {:induction false} PredictedIsChange(a: nat, oldDelta: MemDeltaFlow, newDelta: MemDeltaFlow)
      requires Exact() && a < |index| && oldDelta.flow.moduleId == index[a]
      requires ExactFullDelta(objective.memory.base.code, net, phys, index, a, oldDelta)
      requires ExactFullDelta(objective.memory.base.code, net, phys, index, a, newDelta)
      ensures Sized() && a < |index| == |moduleFlowData| && newDelta.flow.moduleId < |index|
      ensures Predicted(a, oldDelta, newDelta)
           == ObjectiveAfter(a, newDelta.flow.moduleId) - objective.memory.base.codelength
    {
      CodelengthIsObjective();
      ExactSizes();
      hide MemMapEquation.Tracks, MemMapEquation.GetDeltaCodelengthOnMovingNode, Codelength, NodeFlowLog, PartOf,
           AllLayeredModuleData, LayeredFlowBetween, Moved, MembersMoved, LayerRowsAre, NodeLayersOk, Network.Valid;
      if newDelta.flow.moduleId == index[a] {
        assert index[a := newDelta.flow.moduleId] == index;
      } else {
        LayeredKeptByMove(net, index, moduleFlowData, moduleMembers, a, oldDelta.flow, newDelta.flow);
        MemoryDeltaIsExact(objective.memory, net.base.nodes[a], oldDelta, newDelta, moduleFlowData, phys, index, a);
      }
    }

    /** All candidate modules of a node, each with all the flow between them and the node. */
    method CollectDeltas(a: nat) returns (deltaFlow: map<nat, MemDeltaFlow>)
      requires Valid() && a < |index|
      modifies objective.memory`memoryContributionsAdded
      ensures Valid() && objective.memory.memoryContributionsAdded
      ensures index[a] in deltaFlow
      ensures forall m :: m in deltaFlow ==>
                deltaFlow[m].flow.moduleId == m < |index|
                && ExactFullDelta(objective.memory.base.code, net, phys, index, a, deltaFlow[m])
      ensures Sized()
      ensures forall m :: MemoryCandidate(net.base, phys, index, moduleMembers, emptyModules, a, m) ==> m in deltaFlow
      ensures forall m :: m in deltaFlow ==>
                MemoryCandidate(net.base, phys, index, moduleMembers, emptyModules, a, m)
                || (numRandomMoves > 0 && m in index)
      ensures net.Valid() && net.base.Partition(index)
      ensures forall m :: m in deltaFlow ==> deltaFlow[m].flow.deltaExit == LayeredExit(net, index, a, m)
    {
      hide ExactDelta, ExactLayeredDelta, LayeredKept, EmptyListOk, MapEquation.Tracks, PartOf, IndexIs, NodeFlowLog,
           LayerRowsAre, Carried, NodeLayersOk, Network.Valid, MemoryCandidate, OutFlow, InFlow, LinkExit, LayeredExit;
      Sizes();
      deltaFlow := CollectContributions(objective.memory, net.base, phys, index, moduleMembers, emptyModules, a,
                                        numRandomMoves);

      // For recorded teleportation
      var flows := LinkTables.AddTeleportationFlowToAll(net.base, index, moduleFlowData, a, FlowsOf(deltaFlow));
      flows := objective.AddTeleportationFlowToAll(net, index, a, flows);
      deltaFlow := WithFlows(deltaFlow, flows);
    }

    /** So it is the change of the objective that the sweeps see. */
    lemma {:induction false} PredictedInTerrain(a: nat, oldDelta: MemDeltaFlow, newDelta: MemDeltaFlow)
      requires Exact() && a < |index| && oldDelta.flow.moduleId == index[a]
      requires ExactFullDelta(objective.memory.base.code, net, phys, index, a, oldDelta)
      requires ExactFullDelta(objective.memory.base.code, net, phys, index, a, newDelta)
      ensures a < |net.base.nodes| && |index| == |moduleFlowData| && newDelta.flow.moduleId < |index|
      ensures oldDelta.flow.moduleId < |moduleFlowData|
      ensures Predicted(a, oldDelta, newDelta)
           == ObjectiveWith(TerrainNow(), index, a, newDelta.flow.moduleId) - TerrainNow().objective(index)
    {
      hide LayeredObjective, RegularizedMultilayerMapEquation.Tracks, LayeredTerrain, LayeredOptimizer.Predicted,
           ExactFullDelta;
      ExactSizes();
      PredictedIsChange(a, oldDelta, newDelta);
      CodelengthInTerrain();
      Sizes();
      LayeredTerrainParts(objective.memory.base.code, objective.memory.base.exitNetworkFlow, net, phys,
                          objective.memory.numPhysicalNodes,
                         minimumSingleNodeImprovement, numRandomMoves > 0, index[a := newDelta.flow.moduleId]);
    }

    /** What the search over the table of candidates has found. */
    ghost predicate Searched(a: nat, deltaFlow: map<nat, MemDeltaFlow>, greedy: MemDeltaFlow, strongest: MemDeltaFlow)
      requires a < |index| == |net.base.nodes| == |moduleFlowData| && index[a] in deltaFlow && index[a] < |index|
      requires forall m :: m in deltaFlow ==> deltaFlow[m].flow.moduleId == m < |index|
      reads this, objective, objective.memory, objective.memory.base
    {
      var own := deltaFlow[index[a]];
      && greedy.flow.moduleId in deltaFlow && greedy == deltaFlow[greedy.flow.moduleId]
      && (greedy.flow.moduleId != index[a] ==> Predicted(a, own, greedy) < -minimumSingleNodeImprovement)
      && (forall m :: m in deltaFlow ==>
            Predicted(a, own, greedy) <= Predicted(a, own, deltaFlow[m]) + minimumSingleNodeImprovement)
      && strongest.flow.moduleId in deltaFlow && strongest == deltaFlow[strongest.flow.moduleId]
      && (strongest.flow.moduleId != index[a] ==> own.flow.deltaExit < strongest.flow.deltaExit)
      && (forall m :: m in deltaFlow ==> deltaFlow[m].flow.deltaExit <= strongest.flow.deltaExit)
    }

    /** The better of the two is a module that the node may choose. */
    lemma {:induction false} SearchedChosen(a: nat, deltaFlow: map<nat, MemDeltaFlow>, greedy: MemDeltaFlow,
                                            strongest: MemDeltaFlow)
      requires Exact() && Sized() && a < |index| == |moduleFlowData| && index[a] in deltaFlow
      requires net.Valid() && net.base.Partition(index)
      requires forall m :: m in deltaFlow ==> deltaFlow[m].flow.moduleId == m < |index|
      requires forall m :: m in deltaFlow ==>
                 && ExactFullDelta(objective.memory.base.code, net, phys, index, a, deltaFlow[m])
                 && deltaFlow[m].flow.deltaExit == LayeredExit(net, index, a, m)
      requires forall m :: MemoryCandidate(net.base, phys, index, moduleMembers, emptyModules, a, m) ==> m in deltaFlow
      requires forall m :: m in deltaFlow ==>
                 MemoryCandidate(net.base, phys, index, moduleMembers, emptyModules, a, m)
                 || (numRandomMoves > 0 && m in index)
      requires Searched(a, deltaFlow, greedy, strongest)
      ensures Chosen(TerrainNow(), ListNow(), a,
                     if Predicted(a, deltaFlow[index[a]], strongest)
                        <= Predicted(a, deltaFlow[index[a]], greedy) + minimumSingleNodeImprovement
                     then strongest.flow.moduleId else greedy.flow.moduleId)
    {
      hide LayeredOptimizer.Exact, LayeredOptimizer.Predicted, ExactFullDelta, LayeredExit, MemoryCandidate,
           LayeredObjective,
           LayeredNetwork.Valid;
      var t, list, own := TerrainNow(), ListNow(), deltaFlow[index[a]];
      var offered, g, s := deltaFlow.Keys, greedy.flow.moduleId, strongest.flow.moduleId;
      CodelengthInTerrain();
      forall m | m in deltaFlow
        ensures Predicted(a, own, deltaFlow[m]) == ObjectiveWith(t, index, a, m) - t.objective(index)
        ensures t.exit(index, a, m) == deltaFlow[m].flow.deltaExit
      {
        PredictedInTerrain(a, own, deltaFlow[m]);
      }
      assert Offered(t, list, a, offered);
      assert Greedy(t, index, a, offered, g);
      assert Strongest(t, index, a, offered, s);
      assert ChosenAmong(t, index, a, offered, g, s, Preferred(t, index, a, g, s));
    }

    /** The best candidate, with a preference for the most strongly connected one among equals. */
    method ChooseMove(a: nat) returns (oldDelta: MemDeltaFlow, best: MemDeltaFlow)
      requires Valid() && a < |index|
      modifies objective.memory`memoryContributionsAdded
      ensures Valid() && objective.memory.memoryContributionsAdded && Sized() && |moduleFlowData| == |index|
      ensures oldDelta.flow.moduleId == index[a] && best.flow.moduleId < |index|
      ensures ExactFullDelta(objective.memory.base.code, net, phys, index, a, oldDelta)
      ensures ExactFullDelta(objective.memory.base.code, net, phys, index, a, best)
      ensures Chosen(TerrainNow(), ListNow(), a, best.flow.moduleId)
    {
      hide RegularizedMultilayerMapEquation.Tracks, LayeredKept, EmptyListOk, ExactFullDelta,
           MemMapEquation.GetDeltaCodelengthOnMovingNode,
           MemMapEquation.GetDeltaCodelengthOnMovingNodeHoisted, MapEquation.HoistOldSide,
           MemoryCandidate, LayeredOptimizer.ObjectiveAfter, LayeredExit, Chosen, LayeredTerrain;
      ExactSizes();
      var deltaFlow := CollectDeltas(a);
      oldDelta := deltaFlow[index[a]];
      best := oldDelta;
      var bestDeltaCodelength := 0.0;
      var strongest := oldDelta;
      var deltaCodelengthOnStrongest := 0.0;
      var eps := minimumSingleNodeImprovement;
      var oldSide := objective.memory.base.HoistOldSide(net.base.nodes[a], oldDelta.flow, moduleFlowData);
      var todo := deltaFlow.Keys;
      while todo != {}
        invariant todo <= deltaFlow.Keys
        invariant best.flow.moduleId in deltaFlow && best == deltaFlow[best.flow.moduleId]
        invariant bestDeltaCodelength == Predicted(a, oldDelta, best) <= 0.0
        invariant best.flow.moduleId != index[a] ==> bestDeltaCodelength < -eps
        invariant strongest.flow.moduleId in deltaFlow && strongest == deltaFlow[strongest.flow.moduleId]
        invariant deltaCodelengthOnStrongest == Predicted(a, oldDelta, strongest)
        invariant oldDelta.flow.deltaExit <= strongest.flow.deltaExit
        invariant strongest.flow.moduleId != index[a] ==> oldDelta.flow.deltaExit < strongest.flow.deltaExit
        invariant forall m :: m in deltaFlow && m !in todo ==>
                    && bestDeltaCodelength <= Predicted(a, oldDelta, deltaFlow[m]) + eps
                    && deltaFlow[m].flow.deltaExit <= strongest.flow.deltaExit
        modifies {}
        decreases todo
      {
        var otherModule :| otherModule in todo;
        todo := todo - {otherModule};
        if otherModule != index[a] {
          var candidate := deltaFlow[otherModule];
          HoistedMemoryIsUnhoisted(objective.memory, net.base.nodes[a], oldDelta, candidate, moduleFlowData);
          var deltaCodelength :=
            objective.memory.GetDeltaCodelengthOnMovingNodeHoisted(oldDelta, oldSide, candidate, moduleFlowData);
          if deltaCodelength < bestDeltaCodelength - eps {
            best, bestDeltaCodelength := candidate, deltaCodelength;
          }
          if candidate.flow.deltaExit > strongest.flow.deltaExit {
            strongest, deltaCodelengthOnStrongest := candidate, deltaCodelength;
          }
        }
      }
      SearchedChosen(a, deltaFlow, best, strongest);
      if strongest.flow.moduleId != best.flow.moduleId && deltaCodelengthOnStrongest <= bestDeltaCodelength + eps {
        best := strongest;
      }
    }

    /** Drag the one node along that is left alone, if exactly one link of the moved one leads there. */
    method DragAlong(a: nat, oldModule: nat, to: nat) returns (numMoved: nat)
      requires Valid() && a < |index| && oldModule < |index| && to < |index|
                && !objective.memory.memoryContributionsAdded
      modifies `index, `moduleFlowData, `moduleMembers, `emptyModules, `dirty, objective, objective.memory,
                objective.memory.base
      ensures objective.memory.base.exitNetworkFlow == old(objective.memory.base.exitNetworkFlow)
      ensures old(StateNow()).Ok() && to < |old(dirty)|
      ensures StateNow() == AfterDrag(net.base.edges, old(StateNow()), a, oldModule, to)
      ensures numMoved == if Drags(net.base.edges, old(index), a, oldModule) then 2 else 1
      ensures Valid()
    {
      hide LayeredOptimizer.Exact, EmptyListOk, LayeredOptimizer.Configured, ListMoved, InModule, Neighbours, Marked,
           ListState.Ok, NodeLayersOk, Carried;
      ExactSizes();
      Sizes();
      ListNowOk();
      numMoved := 1;
      var numLinked, nodeInOldModule := CountLinksInto(net.base, index, a, oldModule);
      if numLinked == 1 {
        if moduleMembers[oldModule] == 1 {
          var moved := MoveNodeToPredefinedModule(nodeInOldModule, to);
          numMoved := 2;
          if |Neighbours(net.base.edges, nodeInOldModule)| > 1 {
            dirty := MarkNeighboursDirty(net.base.edges, dirty, nodeInOldModule);
          }
        }
      }
    }

    /** Visit one node: move it to its best module, and drag along the one node it leaves behind alone if
        exactly one of its links leads there. A visit without a move may leave the flag set; the next visit or
        partition sets it anew. */
    method TryMoveNode(a: nat) returns (numMoved: nat, ghost to: nat)
      requires Valid() && a < |index|
      modifies `index, `moduleFlowData, `moduleMembers, `emptyModules, `dirty, objective, objective.memory,
                objective.memory.base
      ensures Valid() && |index| == |old(index)|
      ensures objective.memory.base.exitNetworkFlow == old(objective.memory.base.exitNetworkFlow)
      ensures old(StateNow()).Ok() && a < |old(dirty)| && to < |old(dirty)|
      ensures Chosen(old(TerrainNow()), old(ListNow()), a, to)
      ensures StateNow() == if to == old(index)[a] then old(StateNow()).(dirty := old(dirty)[a := false])
                            else AfterMove(old(TerrainNow()), old(StateNow()), a, to)
      ensures numMoved == MovedBy(old(TerrainNow()), old(StateNow()), Visit(a, to))
    {
      hide LayeredOptimizer.Exact, EmptyListOk, MemMapEquation.GetDeltaCodelengthOnMovingNode,
           LayeredOptimizer.Configured, ExactFullDelta, LayeredTerrain, Chosen, ListMoved, InModule, Neighbours, Marked,
           ListState.Ok;
      ExactSizes();
      Sizes();
      ListNowOk();
      CodelengthInTerrain();
      numMoved, to := 0, index[a];
      var oldDelta, best := ChooseMove(a);
      to := best.flow.moduleId;
      if best.flow.moduleId == index[a] {
        dirty := dirty[a := false];
        return;
      }
      var oldModule := index[a];
      MakeMove(a, oldDelta, best);
      Sizes();
      dirty := MarkNeighboursDirty(net.base.edges, dirty, a);
      numMoved := DragAlong(a, oldModule, best.flow.moduleId);
    }

    /** One sweep over the nodes, in any order. In the first loop nodes do not leave modules that others have
        moved to. */
    method TryMoveEachNodeIntoBestModule(firstLoop: bool) returns (numMoved: nat, ghost visits: seq<Visit>)
      requires Valid()
      modifies `index, `moduleFlowData, `moduleMembers, `emptyModules, `dirty, objective, objective.memory,
                objective.memory.base
      ensures Valid() && |index| == |old(index)|
      ensures objective.memory.base.exitNetworkFlow == old(objective.memory.base.exitNetworkFlow)
      ensures SweptSerially(old(TerrainNow()), firstLoop, old(StateNow()), visits, StateNow(), numMoved)
    {
      hide LayeredOptimizer.Exact, EmptyListOk, Chosen, LayeredTerrain, AfterMove, MovedBy, VisitsOk, AfterVisits,
           MovedByAll, SweepState.Ok;
      ghost var t, start := TerrainNow(), StateNow();
      ListNowOk();
      numMoved, visits := 0, [];
      VisitsStart(t, firstLoop, start);
      var order := RandomizedIndexVector(|index|);
      for i := 0 to |order|
        invariant Valid() && |index| == |start.dirty| == |order|
        invariant objective.memory.base.exitNetworkFlow == old(objective.memory.base.exitNetworkFlow)
        invariant |visits| == i && forall k :: 0 <= k < i ==> visits[k].node == order[k]
        invariant start.Ok() && VisitsOk(t, firstLoop, start, visits)
        invariant StateNow() == AfterVisits(t, firstLoop, start, visits)
        invariant numMoved == MovedByAll(t, firstLoop, start, visits)
      {
        var a := order[i];
        ghost var v, before := Visit(a, index[a]), StateNow();
        ListNowOk();
        MembersNow(a);
        if dirty[a] && !(firstLoop && moduleMembers[index[a]] > 1) {
          var n;
          ghost var to;
          n, to := TryMoveNode(a);
          v := Visit(a, to);
          numMoved := numMoved + n;
        } else {
          StayedPut(t, before, v);
        }
        VisitsGrow(t, firstLoop, start, visits, v);
        visits := visits + [v];
      }
    }

    lemma {:induction false} MembersNow(a: nat)
      requires Exact() && a < |index|
      ensures index[a] < |index| == |moduleMembers| && moduleMembers[index[a]] == Count(index, index[a])
    {
      hide RegularizedMultilayerMapEquation.Tracks;
      Sizes();
    }

    /** Sweep until nothing moves, too little improves, or the limit is reached. The effective sweeps fit into the
        distance to the least objective, so they end without a limit too. */
    method OptimizeActiveNetwork(loopLimit: nat, firstLoop: bool)
      returns (numEffectiveLoops: nat, ghost run: CoreRun)
      requires Valid() && (loopLimit > 0 || minimumCodelengthImprovement > 0.0)
      modifies `index, `moduleFlowData, `moduleMembers, `emptyModules, `dirty, objective, objective.memory,
                objective.memory.base
      ensures Valid() && |index| == |old(index)|
      ensures objective.memory.base.exitNetworkFlow == old(objective.memory.base.exitNetworkFlow)
      ensures CoreRunOk(old(TerrainNow()), firstLoop, false, minimumCodelengthImprovement, loopLimit, run,
                        numEffectiveLoops)
      ensures run.First() == old(StateNow()) && run.Last() == StateNow()
      ensures net.Valid() && |net.base.nodes| == |phys|
      ensures Fall(numEffectiveLoops, minimumCodelengthImprovement)
           <= old(objective.memory.base.codelength) - LowestOfNetwork()
      ensures loopLimit > 0 && numEffectiveLoops == loopLimit ==>
                objective.memory.base.codelength
                <= old(objective.memory.base.codelength) - Fall(loopLimit, minimumCodelengthImprovement)
    {
      hide LayeredOptimizer.Exact, EmptyListOk, LowestLayeredObjective, Fall, StepsLeft, LayeredNetwork.Valid,
           LayeredTerrain,
           SweepMade, SoFar, CoreRunOk, Grown, SweptSerially;
      ghost var t, improvement := TerrainNow(), minimumCodelengthImprovement;
      numEffectiveLoops, run := 0, CoreRun([StateNow()], [], []);
      RunStarts(t, firstLoop, false, improvement, StateNow());
      FallMore(0, minimumCodelengthImprovement);
      var coreLoopCount := 0;
      var oldCodelength := objective.memory.base.codelength;
      CodelengthBounded();
      CodelengthInTerrain();
      ghost var lowest, start := LowestOfNetwork(), oldCodelength;
      while true
        invariant Valid() && |index| == |old(index)|
        invariant oldCodelength == objective.memory.base.codelength == t.objective(index)
        invariant coreLoopCount == numEffectiveLoops && (loopLimit > 0 ==> coreLoopCount < loopLimit)
        invariant objective.memory.base.exitNetworkFlow == old(objective.memory.base.exitNetworkFlow)
        invariant SoFar(t, firstLoop, false, improvement, run, numEffectiveLoops, old(StateNow()), StateNow())
        invariant lowest <= oldCodelength <= start - Fall(numEffectiveLoops, minimumCodelengthImprovement)
        decreases if loopLimit > 0 then loopLimit - coreLoopCount
                  else StepsLeft(oldCodelength, lowest, minimumCodelengthImprovement)
      {
        coreLoopCount := coreLoopCount + 1;
        ghost var before := StateNow();
        var numNodesMoved;
        ghost var visits;
        numNodesMoved, visits := TryMoveEachNodeIntoBestModule(firstLoop);
        CodelengthBounded();
        CodelengthInTerrain();
        SerialMade(t, firstLoop, before, visits, StateNow(), numNodesMoved);
        RunGoesOn(t, firstLoop, false, improvement, loopLimit, run, numEffectiveLoops, old(StateNow()), before,
                  Serial(visits), StateNow(), numNodesMoved);
        run := Grown(run, Serial(visits), StateNow(), numNodesMoved);
        if numNodesMoved == 0 || objective.memory.base.codelength >= oldCodelength - minimumCodelengthImprovement {
          break;
        }
        if loopLimit == 0 {
          StepTaken(oldCodelength, objective.memory.base.codelength, lowest, minimumCodelengthImprovement);
        }
        FallMore(numEffectiveLoops, minimumCodelengthImprovement);
        numEffectiveLoops := numEffectiveLoops + 1;
        oldCodelength := objective.memory.base.codelength;
        if coreLoopCount == loopLimit {
          break;
        }
      }
    }

    // ----- Consolidation -----

    /** The new nodes take their layers from the rows of their modules. */
    method CollectModuleLayers(ids: seq<nat>, ghost position: seq<nat>) returns (collected: seq<seq<LayerTeleFlowData>>)
      requires Exact() && Numbering(index, ids, position)
      ensures |net.layers| == |index| && LayersCollected(collected, net, Compose(index, position))
                && |collected| == |ids|
    {
      hide MemMapEquation.Tracks, LayeredKept, LayerRowIs, NodeLayersOk, Network.Valid, LayerOf, LayerData, LayerAs;
      ghost var q := Compose(index, position);
      collected := [];
      for j := 0 to |ids|
        invariant |collected| == j
        invariant forall i :: 0 <= i < j ==> NodeLayersOk(collected[i], net.numLayers)
        invariant forall i, l: nat :: 0 <= i < j ==> LayerAs(collected[i], l, LayerData(net.layers, q, l, i))
      {
        RowOf(objective.moduleLayerTeleFlowData, net, index, ids[j]);
        var row := objective.moduleLayerTeleFlowData[ids[j]];
        RowFits(net, index, ids[j], row);
        var carried := CollectLayers(row, net.numLayers);
        CollectedAs(net, index, ids[j], q, j, row, carried);
        collected := collected + [carried];
      }
    }

    /** Turn the current modules into the nodes of a smaller layered network that stands for this one. */
    method ConsolidateModules() returns (small: LayeredNetwork, smallPhys: seq<seq<PhysData>>, assignment: seq<nat>)
      requires Exact() && |index| > 0
      ensures FullRepresents(objective.memory.base.code, net, phys, assignment, small, smallPhys,
                objective.memory.numPhysicalNodes)
      ensures MemoryOk(smallPhys, objective.memory.numPhysicalNodes) && |small.base.nodes| > 0
      ensures |assignment| == |index|
      ensures forall i, j :: 0 <= i < |index| && 0 <= j < |index| ==>
                (assignment[i] == assignment[j] <==> index[i] == index[j])
      ensures small.Valid() && |small.base.nodes| == |smallPhys|
      ensures objective.memory.base.codelength
           == LayeredObjective(objective.memory.base.code, objective.memory.base.exitNetworkFlow, small, smallPhys,
                               objective.memory.numPhysicalNodes, Identity(|small.base.nodes|))
    {
      hide MapEquation.Tracks, LayeredRepresents, ModuleLinks, IndexIs, NodeFlowLog, CollectedUpTo, LayeredObjective,
           LayersCollected,
           LayerRowsAre, LayeredModuleData, Carried, Network.Valid, NodeLayersOk;
      Sizes();
      var ids, modules, position := NumberModules(index);
      var links := AggregateModuleLinks(net.base, index, undirectedClustering);
      LinksRenamable(ids, position);
      var nodes := PickModules(moduleFlowData, ids);
      var layers := CollectModuleLayers(ids, position);
      small := LayeredNetwork(Network(nodes, Rename(links, position), net.base.recordedTeleportation), layers,
          net.numLayers);
      assignment := Compose(index, position);
      SameGroups(index, ids, position);
      LayeredConsolidated(net, index, undirectedClustering, ids, position, small);
      smallPhys := ConsolidatePhysicalNodes(objective.memory.physToModuleToMemNodes, modules, |ids|, phys, index, ids,
          position);
      LayeredRepresentsValid(net, assignment, small);
      ConsolidatedFully(small, smallPhys, ids, position);
      StartsOver(small, smallPhys, ids, position);
    }

    /** Starting over on the small network gives the codelength of the partition that was consolidated. */
    lemma {:induction false} StartsOver(small: LayeredNetwork, smallPhys: seq<seq<PhysData>>, ids: seq<nat>,
                                        position: seq<nat>)
      requires Exact() && Numbering(index, ids, position) && small.Valid() && |phys| == |index|
      requires CollectedUpTo(smallPhys, phys, index, ids, objective.memory.numPhysicalNodes)
      requires |small.base.nodes| == |ids| && forall j :: 0 <= j < |ids| ==>
                ids[j] < |moduleFlowData| && small.base.nodes[j] == moduleFlowData[ids[j]]
      ensures |smallPhys| == |ids|
      ensures objective.memory.base.codelength
           == LayeredObjective(objective.memory.base.code, objective.memory.base.exitNetworkFlow, small, smallPhys,
                               objective.memory.numPhysicalNodes, Identity(|ids|))
    {
      hide RegularizedMultilayerMapEquation.Tracks, LayeredModuleData, NodeFlowLog, CollectedUpTo, NodeLayersOk,
           Codelength;
      var code, n := objective.memory.base.code, objective.memory.numPhysicalNodes;
      CodelengthIsObjective();
      SameNumber(smallPhys, phys, index, ids, n);
      ConsolidatedNodeFlowLog(code, smallPhys, phys, index, ids, position, n);
      LayeredConsolidatedCodelength(Setting(code, NO_BIAS, objective.memory.base.exitNetworkFlow,
          NodeFlowLog(code, phys, index, n)),
                                    net, index, ids, position, small);
    }

    lemma {:induction false} LinksRenamable(ids: seq<nat>, position: seq<nat>)
      requires Exact() && Numbering(index, ids, position)
      ensures net.Valid() && net.base.Partition(index) && EdgesOk(net.base.edges, |index|)
      ensures EdgesOk(ModuleLinks(net.base.edges, index, undirectedClustering), |position|)
    {
      hide MemMapEquation.Tracks, LayerRowsAre, LayeredModuleData, ModuleLinks;
      ConsolidatedRepresents(net.base, index, undirectedClustering, ids, position);
    }

    lemma {:induction false} ConsolidatedFully(small: LayeredNetwork, smallPhys: seq<seq<PhysData>>, ids: seq<nat>,
                                               position: seq<nat>)
      requires Exact() && Numbering(index, ids, position) && |small.base.nodes| == |ids|
      requires LayeredRepresents(net, Compose(index, position), small) && |phys| == |index|
      requires CollectedUpTo(smallPhys, phys, index, ids, objective.memory.numPhysicalNodes)
      ensures FullRepresents(objective.memory.base.code, net, phys, Compose(index, position), small, smallPhys,
                             objective.memory.numPhysicalNodes)
    {
      hide RegularizedMultilayerMapEquation.Tracks, LayeredRepresents, NodeFlowLog, CollectedUpTo, LayeredKept;
      var code, n, q := objective.memory.base.code, objective.memory.numPhysicalNodes, Compose(index, position);
      LayeredRepresentsValid(net, q, small);
      OntoSize(q, |small.base.nodes|);
      SameNumber(smallPhys, phys, index, ids, n);
      forall g: seq<nat> | Grouping(g, |smallPhys|)
        ensures NodeFlowLog(code, smallPhys, g, n) == NodeFlowLog(code, phys, Compose(q, g), n)
      {
        GroupedNodeFlowLog(code, smallPhys, phys, index, ids, position, n, g);
      }
    }

    // ----- Whole runs -----

    /** Predefined moves only ever follow InitPartition, which clears the flag. Modules of the wrong
        size, or outside the network, are refused. */
    method PerformPass(pass: Pass) returns (ok: bool, ghost run: CoreRun, ghost numEffective: nat)
      requires Valid() && !objective.memory.memoryContributionsAdded && StateNow() == FreshState(|index|)
      modifies `index, `moduleFlowData, `moduleMembers, `emptyModules, `dirty, objective, objective.memory,
                objective.memory.base
      ensures Valid() && |index| == |old(index)|
      ensures ok <==> pass.Fits(|old(index)|)
      ensures ok && pass.loopLimit == 0 ==> index == pass.Start(|index|).list.index
      ensures ok && pass.loopLimit > 0 ==>
                && CoreRunOk(old(TerrainNow()), pass.firstLoop, false, minimumCodelengthImprovement, pass.loopLimit,
                             run,
                             numEffective)
                && run.First() == pass.Start(|index|) && run.Last().list.index == index
      ensures !ok ==> index == old(index)
      ensures objective.memory.base.exitNetworkFlow == old(objective.memory.base.exitNetworkFlow)
    {
      hide LayeredOptimizer.Exact, EmptyListOk, LayeredTerrain, CoreRunOk, ListAfter, FreshState, ListState.Ok;
      SameLength();
      run, numEffective := NO_RUN, 0;
      if pass.predefined.Some? {
        var modules := pass.predefined.value;
        if !pass.Fits(|index|) {
          return false, run, numEffective;
        }
        MoveActiveNodesToPredefinedModules(modules);
      }
      StartIs(pass, |index|);
      assert StateNow() == pass.Start(|index|);
      if pass.loopLimit > 0 {
        var loops;
        loops, run := OptimizeActiveNetwork(pass.loopLimit, pass.firstLoop);
        numEffective := loops;
      }
      return true, run, numEffective;
    }

    /** One pass on the network that stands for the first one, and the network that stands for it afterwards.
        A pass that does not fit leaves everything at the partition reached before. */
    method MakePass(ghost network: LayeredNetwork, ghost physicalNodes: seq<seq<PhysData>>, ghost assignment: seq<nat>,
                    small: LayeredNetwork, smallPhys: seq<seq<PhysData>>, pass: Pass)
      returns (ok: bool, q: seq<nat>, next: LayeredNetwork, nextPhys: seq<seq<PhysData>>, ghost level: Level)
      requires Configured() && network.Valid() && |network.base.nodes| == |physicalNodes|
      requires small.Valid() && |small.base.nodes| > 0
      requires MemoryOk(smallPhys, objective.memory.numPhysicalNodes) && |smallPhys| == |small.base.nodes|
      requires FullRepresents(objective.memory.base.code, network, physicalNodes, assignment, small, smallPhys,
                objective.memory.numPhysicalNodes)
      requires objective.memory.base.exitNetworkFlowLog
              == objective.memory.base.code.PLogP(objective.memory.base.exitNetworkFlow)
      modifies this, objective, objective.memory, objective.memory.base
      ensures objective.memory.base.exitNetworkFlow == old(objective.memory.base.exitNetworkFlow)
      ensures objective.memory.base.exitNetworkFlowLog
              == objective.memory.base.code.PLogP(objective.memory.base.exitNetworkFlow)
      ensures |assignment| == |network.base.nodes| && forall i :: 0 <= i < |assignment| ==> assignment[i] < |q|
      ensures |q| == |small.base.nodes| && (ok <==> pass.Fits(|q|))
      ensures !ok ==> q == Identity(|q|) && next == small && nextPhys == smallPhys
      ensures ok ==>
                && pass.Allows(minimumCodelengthImprovement, level) && level.modules == q
                && level.terrain
                   == LayeredTerrain(objective.memory.base.code, objective.memory.base.exitNetworkFlow, small,
                                     smallPhys,
                                    objective.memory.numPhysicalNodes, minimumSingleNodeImprovement, numRandomMoves > 0)
      ensures next.Valid() && |next.base.nodes| > 0
      ensures MemoryOk(nextPhys, objective.memory.numPhysicalNodes) && |nextPhys| == |next.base.nodes|
      ensures FullRepresents(objective.memory.base.code, network, physicalNodes, Compose(assignment, q), next, nextPhys,
                               objective.memory.numPhysicalNodes)
      ensures objective.memory.base.codelength
           == LayeredObjective(objective.memory.base.code, objective.memory.base.exitNetworkFlow, network,
                               physicalNodes,
                              objective.memory.numPhysicalNodes, Compose(assignment, q))
    {
      hide LayeredOptimizer.Valid, LayeredOptimizer.Exact, FullRepresents, LayeredObjective, MemoryOk,
           LayeredNetwork.Valid,
           Pass.Fits, Compose, LayeredTerrain, CoreRunOk, Pass.Start;
      ghost var exitFlow := objective.memory.base.exitNetworkFlow;
      InitPartition(small, smallPhys);
      ghost var terrain, run, numEffective := TerrainNow(), NO_RUN, 0;
      ok, run, numEffective := PerformPass(pass);
      ValidParts();
      if ok {
        ghost var reached := index;
        next, nextPhys, q := ConsolidateModules();
        NextPass(exitFlow, network, physicalNodes, assignment, small, smallPhys, q, next, nextPhys);
        assert SameGrouping(q, reached);
      } else {
        q, next, nextPhys := index, small, smallPhys;
        StillSingle(exitFlow, network, physicalNodes, assignment);
      }
      level := Level(terrain, run, numEffective, q);
    }

    /** Every pass was made on a memory network that stands for the first one. */
    ghost predicate GroundsOk(exitFlow: real, network: LayeredNetwork, physicalNodes: seq<seq<PhysData>>,
                              levels: seq<seq<nat>>, made: seq<Level>,
                              grounds: seq<(LayeredNetwork, seq<seq<PhysData>>)>)
    {
      && |made| == |grounds| == |levels|
      && forall k :: 0 <= k < |made| ==>
           && levels[k] == made[k].modules
           && FullRepresents(objective.memory.base.code, network, physicalNodes,
                               Flattened(|network.base.nodes|, levels[..k]), grounds[k].0, grounds[k].1,
                               objective.memory.numPhysicalNodes)
           && made[k].terrain
              == LayeredTerrain(objective.memory.base.code, exitFlow, grounds[k].0, grounds[k].1,
                                objective.memory.numPhysicalNodes,
                               minimumSingleNodeImprovement, numRandomMoves > 0)
    }

    lemma {:induction false} GroundsGrow(exitFlow: real, network: LayeredNetwork, physicalNodes: seq<seq<PhysData>>,
                                         levels: seq<seq<nat>>, made: seq<Level>,
                                         grounds: seq<(LayeredNetwork, seq<seq<PhysData>>)>, level: Level,
                                             net: LayeredNetwork,
                                         phys: seq<seq<PhysData>>)
      requires GroundsOk(exitFlow, network, physicalNodes, levels, made, grounds)
      requires FullRepresents(objective.memory.base.code, network, physicalNodes, Flattened(|network.base.nodes|,
                                                                                            levels), net,
                                phys, objective.memory.numPhysicalNodes)
      requires level.terrain
            == LayeredTerrain(objective.memory.base.code, exitFlow, net, phys, objective.memory.numPhysicalNodes,
                             minimumSingleNodeImprovement, numRandomMoves > 0)
      ensures GroundsOk(exitFlow, network, physicalNodes, levels + [level.modules], made + [level],
                        grounds + [(net, phys)])
    {
      hide FullRepresents, Flattened, LayeredTerrain;
      forall k | 0 <= k <= |levels| ensures (levels + [level.modules])[..k] == levels[..k] {
      }
      assert levels[..|levels|] == levels;
    }

    /** Any sequence of passes, up to the first that does not fit: levels[k] has the modules that pass k
        makes of its network, and the codelength is the objective, from scratch and on the network the
        run started with, of the modules reached. */
    method Run(network: LayeredNetwork, physicalNodes: seq<seq<PhysData>>, passes: seq<Pass>)
      returns (levels: seq<seq<nat>>, small: LayeredNetwork, smallPhys: seq<seq<PhysData>>, assignment: seq<nat>,
               ghost made: seq<Level>, ghost grounds: seq<(LayeredNetwork, seq<seq<PhysData>>)>)
      requires Configured() && network.Valid() && |network.base.nodes| > 0
      requires MemoryOk(physicalNodes, objective.memory.numPhysicalNodes) && |physicalNodes| == |network.base.nodes|
      requires objective.memory.base.exitNetworkFlowLog
              == objective.memory.base.code.PLogP(objective.memory.base.exitNetworkFlow)
      modifies this, objective, objective.memory, objective.memory.base
      ensures PassesMade(passes, minimumCodelengthImprovement, made, |small.base.nodes|)
      ensures GroundsOk(objective.memory.base.exitNetworkFlow, network, physicalNodes, levels, made, grounds)
      ensures assignment == Flattened(|network.base.nodes|, levels)
      ensures FullRepresents(objective.memory.base.code, network, physicalNodes, assignment, small, smallPhys,
                objective.memory.numPhysicalNodes)
      ensures |assignment| == |network.base.nodes| == |physicalNodes|
      ensures passes != [] ==>
                objective.memory.base.codelength
                == LayeredObjective(objective.memory.base.code, objective.memory.base.exitNetworkFlow, network,
                                    physicalNodes,
                                   objective.memory.numPhysicalNodes, assignment)
    {
      hide FullRepresents, LayeredObjective, MemoryOk, LayeredNetwork.Valid, Pass.Fits, Pass.Allows, Flattened,
           LevelsAllowed, LayeredOptimizer.GroundsOk, LayeredTerrain;
      ghost var code, n, exitFlow := objective.memory.base.code, objective.memory.numPhysicalNodes,
          objective.memory.base.exitNetworkFlow;
      levels, small, smallPhys, assignment := [], network, physicalNodes, Identity(|network.base.nodes|);
      made, grounds := [], [];
      NothingMade(passes, minimumCodelengthImprovement, |network.base.nodes|);
      NoGrounds(exitFlow, network, physicalNodes);
      FullRepresentsItself(code, network, physicalNodes, n);
      for k := 0 to |passes|
        invariant small.Valid() && |small.base.nodes| > 0 && MemoryOk(smallPhys, n) && |smallPhys| == |small.base.nodes|
        invariant FullRepresents(code, network, physicalNodes, assignment, small, smallPhys, n)
        invariant |assignment| == |network.base.nodes| && assignment == Flattened(|network.base.nodes|, levels)
        invariant |levels| == |made| == k && LevelsAllowed(passes, minimumCodelengthImprovement, made)
        invariant GroundsOk(exitFlow, network, physicalNodes, levels, made, grounds)
        invariant objective.memory.base.exitNetworkFlow == exitFlow
                  && objective.memory.base.exitNetworkFlowLog == code.PLogP(exitFlow)
        invariant k > 0 ==>
                    objective.memory.base.codelength
                    == LayeredObjective(code, exitFlow, network, physicalNodes, n, assignment)
      {
        var ok, q, next, nextPhys;
        ghost var level;
        ok, q, next, nextPhys, level := MakePass(network, physicalNodes, assignment, small, smallPhys, passes[k]);
        if !ok {
          ComposeIdentity(assignment, |q|);
          return;
        }
        LevelsAllowedNext(passes, minimumCodelengthImprovement, made, level);
        GroundsGrow(exitFlow, network, physicalNodes, levels, made, grounds, level, small, smallPhys);
        FlattenedNext(|network.base.nodes|, levels, q);
        made, grounds := made + [level], grounds + [(small, smallPhys)];
        assignment := Compose(assignment, q);
        levels, small, smallPhys := levels + [q], next, nextPhys;
      }
    }

    lemma {:induction false} NoGrounds(exitFlow: real, network: LayeredNetwork, physicalNodes: seq<seq<PhysData>>)
      ensures GroundsOk(exitFlow, network, physicalNodes, [], [], [])
    {
    }

    /** Refused modules leave the single nodes, which have the objective reached before. */
    lemma {:induction false} StillSingle(exitFlow: real, network: LayeredNetwork, physicalNodes: seq<seq<PhysData>>,
                                         assignment: seq<nat>)
      requires Valid() && index == Identity(|net.base.nodes|) && exitFlow == objective.memory.base.exitNetworkFlow
      requires FullRepresents(objective.memory.base.code, network, physicalNodes, assignment, net, phys,
                objective.memory.numPhysicalNodes)
      ensures network.Valid() && |network.base.nodes| == |assignment| == |physicalNodes|
      ensures |index| == |net.base.nodes| && forall i :: 0 <= i < |assignment| ==> assignment[i] < |index|
      ensures Compose(assignment, index) == assignment
      ensures objective.memory.base.codelength
           == LayeredObjective(objective.memory.base.code, exitFlow, network, physicalNodes,
                              objective.memory.numPhysicalNodes, assignment)
    {
      hide LayeredRepresents, PhysRepresents, NodeFlowLog, LayeredObjective, LayeredKept,
           RegularizedMultilayerMapEquation.Tracks, LayeredNetwork.Valid;
      ValidParts();
      CodelengthIsObjective();
      ExactSizes();
      LayeredRepresentsValid(network, assignment, net);
      LayeredObjectiveRepresented(objective.memory.base.code, exitFlow, network, physicalNodes, assignment, net, phys,
          objective.memory.numPhysicalNodes, Identity(|net.base.nodes|));
      ComposeIdentity(assignment, |net.base.nodes|);
    }

    lemma {:induction false} NextPass(exitFlow: real, network: LayeredNetwork, physicalNodes: seq<seq<PhysData>>,
                                      assignment: seq<nat>,
                                      middle: LayeredNetwork, middlePhys: seq<seq<PhysData>>, q: seq<nat>,
                                      next: LayeredNetwork, nextPhys: seq<seq<PhysData>>)
      requires Configured() && network.Valid() && |physicalNodes| == |network.base.nodes|
      requires FullRepresents(objective.memory.base.code, network, physicalNodes, assignment, middle, middlePhys,
                objective.memory.numPhysicalNodes)
      requires FullRepresents(objective.memory.base.code, middle, middlePhys, q, next, nextPhys,
                objective.memory.numPhysicalNodes)
      ensures next.Valid() && |nextPhys| == |next.base.nodes| && |assignment| == |network.base.nodes|
      ensures forall i :: 0 <= i < |assignment| ==> assignment[i] < |q|
      ensures FullRepresents(objective.memory.base.code, network, physicalNodes, Compose(assignment, q), next, nextPhys,
                             objective.memory.numPhysicalNodes)
      ensures LayeredObjective(objective.memory.base.code, exitFlow, next, nextPhys, objective.memory.numPhysicalNodes,
                               Identity(|next.base.nodes|))
           == LayeredObjective(objective.memory.base.code, exitFlow, network, physicalNodes,
               objective.memory.numPhysicalNodes,
                               Compose(assignment, q))
    {
      hide LayeredRepresents, PhysRepresents, LayeredObjective, LayeredNetwork.Valid;
      var code, n := objective.memory.base.code, objective.memory.numPhysicalNodes;
      FullRepresentsCompose(code, network, physicalNodes, assignment, middle, middlePhys, q, next, nextPhys, n);
      LayeredRepresentsValid(network, assignment, middle);
      LayeredRepresentsValid(middle, q, next);
      var all := Compose(assignment, q);
      LayeredObjectiveRepresented(code, exitFlow, network, physicalNodes, all, next, nextPhys, n,
          Identity(|next.base.nodes|));
      ComposeIdentity(all, |next.base.nodes|);
    }

    static lemma {:induction false} FullRepresentsItself(code: Code, net: LayeredNetwork, phys: seq<seq<PhysData>>,
                                                         n: nat)
      requires net.Valid() && |phys| == |net.base.nodes|
      ensures FullRepresents(code, net, phys, Identity(|net.base.nodes|), net, phys, n)
    {
      hide LayeredRepresents, PhysRepresents, LayeredNetwork.Valid;
      LayeredRepresentsItself(net);
      PhysRepresentsItself(code, phys, n);
    }

    lemma {:induction false} ValidParts()
      requires Valid()
      ensures Exact() && |index| == |net.base.nodes|
      ensures objective.memory.base.exitNetworkFlowLog
           == objective.memory.base.code.PLogP(objective.memory.base.exitNetworkFlow)
    {
    }
  }
}
