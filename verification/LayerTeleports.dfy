/** Teleportation within the layers of a regularized multilayer network: what it takes off the
    boundary flow of a module, and the per-module index of layer data that lets a move find the
    change without visiting the members. */
module LayerTeleports {
  import opened Sums
  import opened FlowNetwork
  import opened MapEquations
  import opened BiasedMapEquations
  import opened Partitions
  import opened LinkTables

  datatype LayerTeleFlowData = LayerTeleFlowData(layerId: nat, numNodes: nat, teleportFlow: real, teleportWeight: real)
  {
    function Plus(other: LayerTeleFlowData): LayerTeleFlowData
    {
      LayerTeleFlowData(layerId, numNodes + other.numNodes, teleportFlow + other.teleportFlow,
          teleportWeight + other.teleportWeight)
    }

    function Minus(other: LayerTeleFlowData): LayerTeleFlowData
      requires other.numNodes <= numNodes
    {
      LayerTeleFlowData(layerId, numNodes - other.numNodes, teleportFlow - other.teleportFlow,
          teleportWeight - other.teleportWeight)
    }

    predicate IsEmpty() { numNodes == 0 }

    /** As flow data; the number of nodes takes the place of the flow. */
    function Data(): FlowData
    {
      FlowData(numNodes as real, 0.0, 0.0, teleportFlow, 0.0, teleportWeight, 0.0)
    }
  }

  // ----- The layers of one node -----

  predicate HasLayer(carried: seq<LayerTeleFlowData>, l: nat)
  {
    exists k :: 0 <= k < |carried| && carried[k].layerId == l
  }

  /** A node lists each of its layers once. */
  ghost predicate NodeLayersOk(carried: seq<LayerTeleFlowData>, numLayers: nat)
  {
    && (forall k :: 0 <= k < |carried| ==> carried[k].layerId < numLayers && carried[k].numNodes > 0)
    && (forall j, k :: 0 <= j < k < |carried| ==> carried[j].layerId != carried[k].layerId)
  }

  function LayerOf(carried: seq<LayerTeleFlowData>, l: nat): LayerTeleFlowData
  {
    if carried == [] then LayerTeleFlowData(l, 0, 0.0, 0.0)
    else if carried[|carried| - 1].layerId == l then carried[|carried| - 1]
    else LayerOf(carried[..|carried| - 1], l)
  }

  lemma {:induction false} LayerOfEntry(carried: seq<LayerTeleFlowData>, numLayers: nat, k: nat)
    requires NodeLayersOk(carried, numLayers) && k < |carried|
    ensures LayerOf(carried, carried[k].layerId) == carried[k]
  {
    if k < |carried| - 1 { LayerOfEntry(carried[..|carried| - 1], numLayers, k); }
  }

  lemma {:induction false} LayerOfAbsent(carried: seq<LayerTeleFlowData>, numLayers: nat, l: nat)
    requires NodeLayersOk(carried, numLayers)
    ensures HasLayer(carried, l) ==> LayerOf(carried, l).numNodes > 0
    ensures !HasLayer(carried, l) ==> LayerOf(carried, l) == LayerTeleFlowData(l, 0, 0.0, 0.0)
  {
    if carried != [] {
      var rest := carried[..|carried| - 1];
      LayerOfAbsent(rest, numLayers, l);
      if HasLayer(carried, l) && carried[|carried| - 1].layerId != l {
        var k :| 0 <= k < |carried| && carried[k].layerId == l;
        assert rest[k] == carried[k];
      }
      if HasLayer(rest, l) {
        var k :| 0 <= k < |rest| && rest[k].layerId == l;
        assert carried[k] == rest[k];
      }
    }
  }

  // ----- The whole network -----

  datatype LayeredNetwork = LayeredNetwork(base: Network, layers: seq<seq<LayerTeleFlowData>>, numLayers: nat)
  {
    ghost predicate Valid()
    {
      && base.Valid() && |layers| == |base.nodes|
      && forall i :: 0 <= i < |layers| ==> NodeLayersOk(layers[i], numLayers)
    }
  }

  /** The nodes seen in one layer only. */
  function LayerNodes(layers: seq<seq<LayerTeleFlowData>>, l: nat): (r: seq<FlowData>)
    ensures |r| == |layers|
    ensures forall i :: 0 <= i < |r| ==> r[i] == LayerOf(layers[i], l).Data()
  {
    seq(|layers|, i requires 0 <= i < |layers| => LayerOf(layers[i], l).Data())
  }

  /** One layer as a network without links in which everybody teleports. */
  function LayerNet(layers: seq<seq<LayerTeleFlowData>>, l: nat): Network
  {
    Network(LayerNodes(layers, l), [], true)
  }

  /** Sums over the members of a module within one layer. */
  function LayerData(layers: seq<seq<LayerTeleFlowData>>, index: seq<nat>, l: nat, m: nat): FlowData
    requires |layers| == |index|
  {
    MemberData(LayerNodes(layers, l), index, m)
  }

  function LayerInternals(net: LayeredNetwork, index: seq<nat>, m: nat): (r: seq<real>)
    requires |net.layers| == |index|
    ensures |r| == net.numLayers
    ensures forall l :: 0 <= l < |r| ==> r[l] == InternalTeleport(LayerNet(net.layers, l), index, m)
  {
    seq(net.numLayers, (l: nat) => InternalTeleport(LayerNet(net.layers, l), index, m))
  }

  function LayerBetweens(net: LayeredNetwork, index: seq<nat>, a: nat, m: nat): (r: seq<real>)
    requires |net.layers| == |index| && a < |index|
    ensures |r| == net.numLayers
    ensures forall l :: 0 <= l < |r| ==> r[l] == TeleportBetween(LayerNet(net.layers, l), index, a, m)
  {
    seq(net.numLayers, (l: nat) => TeleportBetween(LayerNet(net.layers, l), index, a, m))
  }

  /** Flow data of a module: members' sums less the flow along internal links, the recorded
      teleportation inside the module, and the teleportation inside the module within each layer. */
  function LayeredModuleData(net: LayeredNetwork, index: seq<nat>, m: nat): FlowData
    requires net.Valid() && |net.base.nodes| == |index|
  {
    ModuleData(net.base, index, m).Shift(-Sum(LayerInternals(net, index, m)))
  }

  function AllLayeredModuleData(net: LayeredNetwork, index: seq<nat>): (r: seq<FlowData>)
    requires net.Valid() && |net.base.nodes| == |index|
    ensures |r| == |net.base.nodes|
    ensures forall m :: 0 <= m < |r| ==> r[m] == LayeredModuleData(net, index, m)
  {
    seq(|net.base.nodes|, (m: nat) => LayeredModuleData(net, index, m))
  }

  /** All flow between node a and the other members of module m. */
  function LayeredFlowBetween(net: LayeredNetwork, index: seq<nat>, a: nat, m: nat): real
    requires net.Valid() && |net.base.nodes| == |index| && a < |index|
  {
    FlowBetween(net.base, index, a, m) + Sum(LayerBetweens(net, index, a, m))
  }

  // ----- The effect of one move -----

  lemma {:induction false} LayerInternalsMove(net: LayeredNetwork, index: seq<nat>, a: nat, to: nat, m: nat)
    requires net.Valid() && |net.base.nodes| == |index| && a < |index| && index[a] != to
    ensures Sum(LayerInternals(net, index[a := to], m))
         == Sum(LayerInternals(net, index, m))
            - (if m == index[a] then Sum(LayerBetweens(net, index, a, m)) else 0.0)
            + (if m == to then Sum(LayerBetweens(net, index, a, m)) else 0.0)
  {
    hide InternalTeleport, TeleportBetween, Sum, NodeLayersOk;
    var before, after := LayerInternals(net, index, m), LayerInternals(net, index[a := to], m);
    var between := LayerBetweens(net, index, a, m);
    forall l | 0 <= l < net.numLayers
      ensures after[l] == before[l] - (if m == index[a] then between[l] else 0.0)
                + (if m == to then between[l] else 0.0)
    {
      InternalTeleportMove(LayerNet(net.layers, l), index, a, to, m);
    }
    if m == index[a] {
      SumPlus(after, between, before);
    } else if m == to {
      SumPlus(before, between, after);
    } else {
      assert before == after;
    }
  }

  lemma {:induction false} LayeredModuleDataMove(net: LayeredNetwork, index: seq<nat>, a: nat, to: nat, m: nat)
    requires net.Valid() && |net.base.nodes| == |index| && a < |index| && index[a] != to
    ensures LayeredModuleData(net, index[a := to], m)
         == if m == index[a] then
              LayeredModuleData(net, index, m).Minus(net.base.nodes[a]).Shift(LayeredFlowBetween(net, index, a, m))
            else if m == to then
              LayeredModuleData(net, index, m).Plus(net.base.nodes[a]).Shift(-LayeredFlowBetween(net, index, a, m))
            else LayeredModuleData(net, index, m)
  {
    hide ModuleData, FlowBetween, Sum, LayerInternals, LayerBetweens, NodeLayersOk;
    LayerInternalsMove(net, index, a, to, m);
    ModuleDataMove(net.base, index, a, to, m);
  }

  /** A delta that states all the flow between a node and one module, layers included. */
  ghost predicate ExactLayeredDelta(net: LayeredNetwork, index: seq<nat>, a: nat, delta: DeltaFlow)
  {
    && net.Valid() && net.base.Partition(index) && a < |index| && delta.moduleId < |index|
    && delta.Total() == LayeredFlowBetween(net, index, a, delta.moduleId)
  }

  /** The incrementally kept vectors equal their from-scratch values on the partition. */
  ghost predicate LayeredKept(net: LayeredNetwork, index: seq<nat>, modules: seq<FlowData>, members: seq<nat>)
  {
    && net.Valid() && net.base.Partition(index)
    && modules == AllLayeredModuleData(net, index)
    && members == AllMembers(index, |net.base.nodes|)
  }

  /** Enough for the flow along links: layers touch only enter and exit flow. */
  lemma {:induction false} LayeredCarried(net: LayeredNetwork, index: seq<nat>, modules: seq<FlowData>,
                                          members: seq<nat>)
    requires LayeredKept(net, index, modules, members)
    ensures Carried(net.base, index, modules)
    ensures net.Valid() && net.base.Valid() && net.base.Partition(index)
    ensures |index| == |net.base.nodes| == |net.layers| == |modules| == |members|
              && members == AllMembers(index, |index|)
    ensures forall i :: 0 <= i < |index| ==> index[i] < |index|
  {
    hide Sum, LayerInternals, NodeLayersOk, Network.Valid;
  }

  /** One move with exact deltas keeps every vector exact. */
  lemma {:induction false} LayeredKeptByMove(net: LayeredNetwork, index: seq<nat>, modules: seq<FlowData>,
                                             members: seq<nat>,
                                             a: nat, oldDelta: DeltaFlow, newDelta: DeltaFlow)
    requires LayeredKept(net, index, modules, members)
    requires ExactLayeredDelta(net, index, a, oldDelta) && ExactLayeredDelta(net, index, a, newDelta)
    requires oldDelta.moduleId == index[a] && newDelta.moduleId != index[a]
    ensures a < |index| == |net.base.nodes| == |modules| == |members| && MoveOk(modules, oldDelta, newDelta)
    ensures members[oldDelta.moduleId] > 0
    ensures LayeredKept(net, index[a := newDelta.moduleId], Moved(modules, net.base.nodes[a], oldDelta, newDelta),
                        MembersMoved(members, oldDelta.moduleId, newDelta.moduleId))
  {
    hide LayeredModuleData, LayeredFlowBetween, NodeLayersOk, Network.Valid;
    AllMembersMove(index, a, newDelta.moduleId, |net.base.nodes|);
    var index', modules' := index[a := newDelta.moduleId], Moved(modules, net.base.nodes[a], oldDelta, newDelta);
    forall m | 0 <= m < |index| ensures modules'[m] == AllLayeredModuleData(net, index')[m] {
      LayeredModuleDataMove(net, index, a, newDelta.moduleId, m);
    }
    assert modules' == AllLayeredModuleData(net, index');
  }

  // ----- Who carries a layer -----

  /** The number of nodes a module has in a layer is zero exactly if no member is in the layer, and
      then there is nothing to teleport. */
  lemma {:induction false} LayerDataEmpty(net: LayeredNetwork, index: seq<nat>, l: nat, m: nat)
    requires net.Valid() && |net.layers| == |index|
    ensures LayerData(net.layers, index, l, m).flow >= 0.0
    ensures LayerData(net.layers, index, l, m).flow != 0.0
       <==> exists i :: 0 <= i < |index| && index[i] == m && HasLayer(net.layers[i], l)
    ensures LayerData(net.layers, index, l, m).flow == 0.0 ==>
              LayerData(net.layers, index, l, m).teleportFlow == 0.0
                  && LayerData(net.layers, index, l, m).teleportWeight == 0.0
  {
    hide NodeLayersOk, Network.Valid, HasLayer, LayerOf;
    var nodes := LayerNodes(net.layers, l);
    var d := LayerData(net.layers, index, l, m);
    assert d.Get(Flow) == Members(Values(nodes, Flow), index, m)
        && d.Get(Teleport) == Members(Values(nodes, Teleport), index, m)
        && d.Get(Weight) == Members(Values(nodes, Weight), index, m);
    forall i | 0 <= i < |index|
      ensures nodes[i].flow >= 0.0 && (HasLayer(net.layers[i], l) <==> nodes[i].flow >= 1.0)
      ensures !HasLayer(net.layers[i], l) ==> nodes[i] == ZERO_FLOW
    {
      LayerOfAbsent(net.layers[i], net.numLayers, l);
    }
    MembersAtLeast(Values(nodes, Flow), index, m);
    if !exists i :: 0 <= i < |index| && index[i] == m && HasLayer(net.layers[i], l) {
      MembersZero(Values(nodes, Flow), index, m);
      MembersZero(Values(nodes, Teleport), index, m);
      MembersZero(Values(nodes, Weight), index, m);
    }
  }

  // ----- The index: for every module, the layers of its members -----

  /** The entry of a layer is there exactly if the module has nodes in the layer, with the module's sums. */
  ghost predicate EntryRight(row: map<nat, LayerTeleFlowData>, l: nat, d: FlowData)
  {
    && (l in row <==> d.flow != 0.0)
    && (l in row ==> row[l].layerId == l && row[l].numNodes as real == d.flow
                     && row[l].teleportFlow == d.teleportFlow && row[l].teleportWeight == d.teleportWeight)
  }

  ghost predicate HoldsLayer(row: map<nat, LayerTeleFlowData>, layers: seq<seq<LayerTeleFlowData>>, index: seq<nat>,
                             l: nat, m: nat)
    requires |layers| == |index|
  {
    EntryRight(row, l, LayerData(layers, index, l, m))
  }

  ghost predicate LayerRowIs(row: map<nat, LayerTeleFlowData>, layers: seq<seq<LayerTeleFlowData>>, index: seq<nat>,
                             m: nat)
    requires |layers| == |index|
  {
    forall l: nat :: HoldsLayer(row, layers, index, l, m)
  }

  /** Said of the members: a layer has an entry exactly if some member is in it. */
  lemma {:induction false} LayerRowMeans(net: LayeredNetwork, index: seq<nat>, row: map<nat, LayerTeleFlowData>, m: nat)
    requires net.Valid() && |net.layers| == |index| && LayerRowIs(row, net.layers, index, m)
    ensures forall l: nat :: l in row <==> exists i :: 0 <= i < |index| && index[i] == m && HasLayer(net.layers[i], l)
  {
    hide NodeLayersOk, Network.Valid, HasLayer, LayerData;
    forall l: nat ensures l in row <==> exists i :: 0 <= i < |index| && index[i] == m && HasLayer(net.layers[i], l) {
      assert HoldsLayer(row, net.layers, index, l, m);
      LayerDataEmpty(net, index, l, m);
    }
  }

  function AddedEntry(row: map<nat, LayerTeleFlowData>, e: LayerTeleFlowData): map<nat, LayerTeleFlowData>
  {
    row[e.layerId := (if e.layerId in row then row[e.layerId] else LayerTeleFlowData(e.layerId, 0, 0.0, 0.0)).Plus(e)]
  }

  function RemovedEntry(row: map<nat, LayerTeleFlowData>, e: LayerTeleFlowData): map<nat, LayerTeleFlowData>
    requires e.layerId in row && e.numNodes <= row[e.layerId].numNodes
  {
    var left := row[e.layerId].Minus(e);
    if left.IsEmpty() then row - {e.layerId} else row[e.layerId := left]
  }

  /** Part way: the listed layers are those of the new partition already. */
  ghost predicate LayerRowPart(row: map<nat, LayerTeleFlowData>, layers: seq<seq<LayerTeleFlowData>>,
                               index: seq<nat>, index': seq<nat>, m: nat, carried: seq<LayerTeleFlowData>)
    requires |layers| == |index| == |index'|
  {
    forall l: nat :: HoldsLayer(row, layers, if HasLayer(carried, l) then index' else index, l, m)
  }

  lemma {:induction false} HasLayerMore(carried: seq<LayerTeleFlowData>, numLayers: nat, k: nat)
    requires NodeLayersOk(carried, numLayers) && k < |carried|
    ensures !HasLayer(carried[..k], carried[k].layerId)
    ensures forall l: nat :: HasLayer(carried[..k + 1], l) <==> HasLayer(carried[..k], l) || l == carried[k].layerId
  {
    forall l: nat | l == carried[k].layerId || HasLayer(carried[..k], l) ensures HasLayer(carried[..k + 1], l) {
      if l == carried[k].layerId {
        assert carried[..k + 1][k].layerId == l;
      } else {
        var j :| 0 <= j < k && carried[..k][j].layerId == l;
        assert carried[..k + 1][j].layerId == l;
      }
    }
    forall l: nat | HasLayer(carried[..k + 1], l) ensures HasLayer(carried[..k], l) || l == carried[k].layerId {
      var j :| 0 <= j < k + 1 && carried[..k + 1][j].layerId == l;
      if j < k { assert carried[..k][j].layerId == l; }
    }
  }

  lemma {:induction false} LayerDataMove(layers: seq<seq<LayerTeleFlowData>>, index: seq<nat>, a: nat, to: nat, l: nat,
                                         m: nat)
    requires |layers| == |index| && a < |index| && index[a] != to
    ensures LayerData(layers, index[a := to], l, m)
         == if m == index[a] then LayerData(layers, index, l, m).Minus(LayerOf(layers[a], l).Data())
            else if m == to then LayerData(layers, index, l, m).Plus(LayerOf(layers[a], l).Data())
            else LayerData(layers, index, l, m)
  {
    MemberDataMove(LayerNodes(layers, l), index, a, to, m);
  }

  lemma {:induction false} LayerRowPartStart(row: map<nat, LayerTeleFlowData>, layers: seq<seq<LayerTeleFlowData>>,
                                             index: seq<nat>, index': seq<nat>, m: nat)
    requires |layers| == |index| == |index'| && LayerRowIs(row, layers, index, m)
    ensures LayerRowPart(row, layers, index, index', m, [])
  {
    hide HoldsLayer;
  }

  /** Taking one listed layer of node a out of its old module: the entry is there, and it goes when
      its last node goes. */
  lemma {:induction false} RemovedStep(net: LayeredNetwork, index: seq<nat>, a: nat, to: nat,
                                       row: map<nat, LayerTeleFlowData>, k: nat)
    requires net.Valid() && |net.layers| == |index| && a < |index| && index[a] != to && k < |net.layers[a]|
    requires LayerRowPart(row, net.layers, index, index[a := to], index[a], net.layers[a][..k])
    ensures var e := net.layers[a][k];
            && e.layerId in row && e.numNodes <= row[e.layerId].numNodes
            && LayerRowPart(RemovedEntry(row, e), net.layers, index, index[a := to], index[a], net.layers[a][..k + 1])
  {
    hide LayerData, HasLayer, NodeLayersOk, Network.Valid;
    var carried, m := net.layers[a], index[a];
    var e := carried[k];
    var l := e.layerId;
    LayerOfEntry(carried, net.numLayers, k);
    HasLayerMore(carried, net.numLayers, k);
    LayerDataMove(net.layers, index, a, to, l, m);
    assert HoldsLayer(row, net.layers, index, l, m);
    NodeHasLayer(carried, k);
    LayerDataEmpty(net, index, l, m);
    LayerDataEmpty(net, index[a := to], l, m);
    OtherLayersKept(row, RemovedEntry(row, e), net.layers, index, index[a := to], m, carried, k);
  }

  /** Changing one entry leaves the other layers as they were. */
  lemma {:induction false} OtherLayersKept(row: map<nat, LayerTeleFlowData>, row': map<nat, LayerTeleFlowData>,
                                           layers: seq<seq<LayerTeleFlowData>>, index: seq<nat>, index': seq<nat>,
                                               m: nat,
                                           carried: seq<LayerTeleFlowData>, k: nat)
    requires |layers| == |index| == |index'| && k < |carried|
    requires forall l: nat :: HasLayer(carried[..k + 1], l) <==> HasLayer(carried[..k], l) || l == carried[k].layerId
    requires LayerRowPart(row, layers, index, index', m, carried[..k])
    requires forall l :: l != carried[k].layerId ==> (l in row' <==> l in row) && (l in row ==> row'[l] == row[l])
    requires HoldsLayer(row', layers, index', carried[k].layerId, m)
    ensures LayerRowPart(row', layers, index, index', m, carried[..k + 1])
  {
    hide LayerData, HasLayer;
    var listed := carried[..k + 1];
    forall l: nat ensures HoldsLayer(row', layers, if HasLayer(listed, l) then index' else index, l, m) {
      assert HoldsLayer(row, layers, if HasLayer(carried[..k], l) then index' else index, l, m);
    }
  }

  lemma {:induction false} NodeHasLayer(carried: seq<LayerTeleFlowData>, k: nat)
    requires k < |carried|
    ensures HasLayer(carried, carried[k].layerId)
  {
  }

  /** Adding one listed layer of node a to its new module. */
  lemma {:induction false} AddedStep(net: LayeredNetwork, index: seq<nat>, a: nat, to: nat,
                                     row: map<nat, LayerTeleFlowData>, k: nat)
    requires net.Valid() && |net.layers| == |index| && a < |index| && index[a] != to && k < |net.layers[a]|
    requires LayerRowPart(row, net.layers, index, index[a := to], to, net.layers[a][..k])
    ensures LayerRowPart(AddedEntry(row, net.layers[a][k]), net.layers, index, index[a := to], to,
              net.layers[a][..k + 1])
  {
    hide LayerData, HasLayer, Network.Valid;
    var carried := net.layers[a];
    var e := carried[k];
    var l := e.layerId;
    LayerOfEntry(carried, net.numLayers, k);
    HasLayerMore(carried, net.numLayers, k);
    LayerDataMove(net.layers, index, a, to, l, to);
    assert HoldsLayer(row, net.layers, index, l, to);
    LayerDataEmpty(net, index, l, to);
    OtherLayersKept(row, AddedEntry(row, e), net.layers, index, index[a := to], to, carried, k);
  }

  /** With all of the node's layers done, the row is that of the new partition. */
  lemma {:induction false} LayerRowPartEnd(net: LayeredNetwork, index: seq<nat>, a: nat, to: nat, m: nat, row: map<nat,
                                           LayerTeleFlowData>)
    requires net.Valid() && |net.layers| == |index| && a < |index| && index[a] != to
    requires LayerRowPart(row, net.layers, index, index[a := to], m, net.layers[a])
    ensures LayerRowIs(row, net.layers, index[a := to], m)
  {
    hide LayerData, HasLayer, NodeLayersOk, Network.Valid, EntryRight;
    var index' := index[a := to];
    forall l: nat ensures HoldsLayer(row, net.layers, index', l, m) {
      if !HasLayer(net.layers[a], l) {
        LayerDataMove(net.layers, index, a, to, l, m);
        LayerOfAbsent(net.layers[a], net.numLayers, l);
        var d := LayerData(net.layers, index, l, m);
        assert d.Plus(ZERO_FLOW) == d && d.Minus(ZERO_FLOW) == d;
        assert LayerData(net.layers, index[a := to], l, m) == d;
      }
    }
  }

  lemma {:induction false} LayerRowKept(net: LayeredNetwork, index: seq<nat>, a: nat, to: nat, m: nat, row: map<nat,
                                        LayerTeleFlowData>)
    requires net.Valid() && |net.layers| == |index| && a < |index| && index[a] != to && m != index[a] && m != to
    requires LayerRowIs(row, net.layers, index, m)
    ensures LayerRowIs(row, net.layers, index[a := to], m)
  {
    hide LayerData, NodeLayersOk, Network.Valid, EntryRight;
    var index' := index[a := to];
    forall l: nat ensures HoldsLayer(row, net.layers, index', l, m) {
      assert HoldsLayer(row, net.layers, index, l, m);
      LayerDataMove(net.layers, index, a, to, l, m);
    }
  }

  // ----- From the index to the flow between a node and a module -----

  /** What one layer of the node adds to the delta of a module, found in the module's row. */
  function LayerPart(row: map<nat, LayerTeleFlowData>, e: LayerTeleFlowData, own: bool): DeltaFlow
  {
    if e.layerId in row then TeleportDelta(e.Data(), row[e.layerId].Data(), 0, own) else DeltaFlow(0, 0.0, 0.0)
  }

  function LayerParts(row: map<nat, LayerTeleFlowData>, carried: seq<LayerTeleFlowData>, own: bool): (r: seq<real>)
    ensures |r| == |carried|
  {
    seq(|carried|, k requires 0 <= k < |carried| => LayerPart(row, carried[k], own).Total())
  }

  function LayerIds(carried: seq<LayerTeleFlowData>): (r: seq<nat>)
    ensures |r| == |carried|
    ensures forall k :: 0 <= k < |r| ==> r[k] == carried[k].layerId
  {
    seq(|carried|, k requires 0 <= k < |carried| => carried[k].layerId)
  }

  lemma {:induction false} LayerPartIs(net: LayeredNetwork, index: seq<nat>, a: nat, m: nat, row: map<nat,
                                       LayerTeleFlowData>, l: nat)
    requires net.Valid() && |net.layers| == |index| && a < |index|
    requires HoldsLayer(row, net.layers, index, l, m)
    ensures LayerOf(net.layers[a], l).layerId == l
    ensures LayerPart(row, LayerOf(net.layers[a], l), index[a] == m).Total()
         == TeleportBetween(LayerNet(net.layers, l), index, a, m)
  {
    hide NodeLayersOk, Network.Valid, HasLayer, FlowData.TeleportLeaving, FlowData.TeleportJoining, TeleportDelta,
         LayerOf,
         DeltaFlow.Total;
    LayerDataEmpty(net, index, l, m);
    LayerOfId(net.layers[a], l);
    var e, d := LayerOf(net.layers[a], l), LayerData(net.layers, index, l, m);
    assert LayerNodes(net.layers, l)[a] == e.Data();
    if l in row {
      TeleportDeltaTotal(e.Data(), row[l].Data(), d, index[a] == m);
    } else {
      LayerOfAbsent(net.layers[a], net.numLayers, l);
      NothingToTeleport(e.Data(), d);
    }
  }

  lemma {:induction false} LayerOfId(carried: seq<LayerTeleFlowData>, l: nat)
    ensures LayerOf(carried, l).layerId == l
  {
    if carried != [] { LayerOfId(carried[..|carried| - 1], l); }
  }

  lemma {:induction false} TeleportDeltaTotal(n: FlowData, entry: FlowData, d: FlowData, own: bool)
    requires entry.teleportFlow == d.teleportFlow && entry.teleportWeight == d.teleportWeight
    ensures TeleportDelta(n, entry, 0, own).Total() == if own then d.TeleportLeaving(n) else d.TeleportJoining(n)
  {
  }

  lemma {:induction false} NothingToTeleport(n: FlowData, d: FlowData)
    requires d.teleportFlow == 0.0 && d.teleportWeight == 0.0
    ensures d.TeleportJoining(n) == 0.0 && DeltaFlow(0, 0.0, 0.0).Total() == 0.0
    ensures n.teleportFlow == 0.0 && n.teleportWeight == 0.0 ==> d.TeleportLeaving(n) == 0.0
  {
  }

  /** The node's own layers are enough: all others have nothing to add. */
  lemma {:induction false} LayerPartsAre(net: LayeredNetwork, index: seq<nat>, a: nat, m: nat, row: map<nat,
                                         LayerTeleFlowData>)
    requires net.Valid() && |net.layers| == |index| && a < |index| && LayerRowIs(row, net.layers, index, m)
    ensures Sum(LayerParts(row, net.layers[a], index[a] == m)) == Sum(LayerBetweens(net, index, a, m))
  {
    hide LayerPart, TeleportBetween, LayerData, HasLayer, Network.Valid, Sum, HoldsLayer, LayerNet;
    var carried := net.layers[a];
    var xs, ids, ys := LayerBetweens(net, index, a, m), LayerIds(carried), LayerParts(row, carried, index[a] == m);
    forall k | 0 <= k < |ids| ensures ids[k] < |xs| && ys[k] == xs[ids[k]] {
      LayerOfEntry(carried, net.numLayers, k);
      LayerPartIs(net, index, a, m, row, ids[k]);
    }
    forall l | 0 <= l < |xs| && l !in ids ensures xs[l] == 0.0 {
      NotListed(carried, l);
      LayerOfAbsent(carried, net.numLayers, l);
      AbsentBetween(net, index, a, m, l);
    }
    SumSelect(xs, ids, ys);
  }

  lemma {:induction false} NotListed(carried: seq<LayerTeleFlowData>, l: nat)
    ensures HasLayer(carried, l) ==> l in LayerIds(carried)
  {
    if HasLayer(carried, l) {
      var k :| 0 <= k < |carried| && carried[k].layerId == l;
      assert LayerIds(carried)[k] == l;
    }
  }

  lemma {:induction false} AbsentBetween(net: LayeredNetwork, index: seq<nat>, a: nat, m: nat, l: nat)
    requires |net.layers| == |index| && a < |index|
    requires LayerOf(net.layers[a], l) == LayerTeleFlowData(l, 0, 0.0, 0.0)
    ensures TeleportBetween(LayerNet(net.layers, l), index, a, m) == 0.0
  {
    assert LayerNodes(net.layers, l)[a] == ZERO_FLOW;
    NoTeleport(LayerData(net.layers, index, l, m));
  }

  lemma {:induction false} NoTeleport(d: FlowData)
    ensures d.TeleportLeaving(ZERO_FLOW) == 0.0 && d.TeleportJoining(ZERO_FLOW) == 0.0
  {
  }

  // ----- Single-node modules -----

  lemma {:induction false} LayeredSingletons(net: LayeredNetwork)
    requires net.Valid()
    ensures LayeredKept(net, Identity(|net.base.nodes|), net.base.nodes, Ones(|net.base.nodes|))
    ensures NumZeros(Ones(|net.base.nodes|)) == 0
  {
    var n := |net.base.nodes|;
    hide NodeLayersOk, Sum, InternalTeleport;
    KeptSingletons(net.base);
    forall i | 0 <= i < n ensures AllLayeredModuleData(net, Identity(n))[i] == net.base.nodes[i] {
      forall l | 0 <= l < net.numLayers ensures LayerInternals(net, Identity(n), i)[l] == 0.0 {
        AloneInLayer(net.layers, i, l);
      }
      SumZero(LayerInternals(net, Identity(n), i));
      assert AllModuleData(net.base, Identity(n))[i] == net.base.nodes[i];
    }
    assert AllLayeredModuleData(net, Identity(n)) == net.base.nodes;
  }

  lemma {:induction false} AloneInLayer(layers: seq<seq<LayerTeleFlowData>>, i: nat, l: nat)
    requires i < |layers|
    ensures InternalTeleport(LayerNet(layers, l), Identity(|layers|), i) == 0.0
    ensures LayerData(layers, Identity(|layers|), l, i) == LayerOf(layers[i], l).Data()
  {
    hide FlowData.Teleported;
    var net, index := LayerNet(layers, l), Identity(|layers|);
    forall c: Column ensures Members(Values(net.nodes, c), index, i) == net.nodes[i].Get(c) {
      MembersSingle(Values(net.nodes, c), index, i);
    }
    MembersSingle(SelfTeleports(net.nodes), index, i);
    var d := MemberData(net.nodes, index, i);
    assert d.Get(Flow) == net.nodes[i].Get(Flow) && d.Get(Enter) == net.nodes[i].Get(Enter)
        && d.Get(Exit) == net.nodes[i].Get(Exit) && d.Get(Teleport) == net.nodes[i].Get(Teleport)
        && d.Get(Source) == net.nodes[i].Get(Source) && d.Get(Weight) == net.nodes[i].Get(Weight)
        && d.Get(Dangling) == net.nodes[i].Get(Dangling);
  }
}
