/** Consolidation of a layered network: the new nodes take the layers of their module from the index,
    and stand for the old nodes exactly. */
module LayerConsolidation {
  import opened Sums
  import opened FlowNetwork
  import opened MapEquations
  import opened Partitions
  import opened Consolidation
  import opened LayerTeleports

  // ----- Sums over modules and layers -----

  function ColumnOf(xs: seq<seq<real>>, l: nat): (r: seq<real>)
    requires forall j :: 0 <= j < |xs| ==> l < |xs[j]|
    ensures |r| == |xs|
    ensures forall j :: 0 <= j < |r| ==> r[j] == xs[j][l]
  {
    seq(|xs|, j requires 0 <= j < |xs| => xs[j][l])
  }

  function RowSums(xs: seq<seq<real>>): (r: seq<real>)
    ensures |r| == |xs|
    ensures forall j :: 0 <= j < |r| ==> r[j] == Sum(xs[j])
  {
    seq(|xs|, j requires 0 <= j < |xs| => Sum(xs[j]))
  }

  function ColumnMembers(xs: seq<seq<real>>, n: nat, index: seq<nat>, m: nat): (r: seq<real>)
    requires |xs| == |index| && forall j :: 0 <= j < |xs| ==> |xs[j]| == n
    ensures |r| == n
    ensures forall l :: 0 <= l < n ==> r[l] == Members(ColumnOf(xs, l), index, m)
  {
    seq(n, l requires 0 <= l < n => Members(ColumnOf(xs, l), index, m))
  }

  /** Summing over the members first or over the layers first is the same. */
  lemma {:induction false} MembersOfRowSums(xs: seq<seq<real>>, n: nat, index: seq<nat>, m: nat)
    requires |xs| == |index| && forall j :: 0 <= j < |xs| ==> |xs[j]| == n
    ensures Sum(ColumnMembers(xs, n, index, m)) == Members(RowSums(xs), index, m)
  {
    var columns := ColumnMembers(xs, n, index, m);
    if xs == [] {
      SumZero(columns);
    } else {
      var k := |xs| - 1;
      MembersOfRowSums(xs[..k], n, index[..k], m);
      assert RowSums(xs)[..k] == RowSums(xs[..k]);
      var before := ColumnMembers(xs[..k], n, index[..k], m);
      forall l | 0 <= l < n ensures columns[l] == before[l] + (if index[k] == m then xs[k][l] else 0.0) {
        assert ColumnOf(xs, l)[..k] == ColumnOf(xs[..k], l);
      }
      if index[k] == m {
        SumPlus(before, xs[k], columns);
      } else {
        assert before == columns;
      }
    }
  }

  // ----- Shifting the nodes of a network -----

  lemma {:induction false} ShiftedData(plain: Network, taken: seq<real>, shifted: Network, g: seq<nat>, s: nat)
    requires plain.Valid() && |g| == |plain.nodes| == |shifted.nodes| == |taken|
    requires shifted.edges == plain.edges && shifted.recordedTeleportation == plain.recordedTeleportation
    requires forall j :: 0 <= j < |g| ==> shifted.nodes[j] == plain.nodes[j].Shift(taken[j])
    ensures shifted.Valid()
    ensures ModuleData(shifted, g, s) == ModuleData(plain, g, s).Shift(Members(taken, g, s))
  {
    forall c: Column
      ensures Members(Values(shifted.nodes, c), g, s)
           == Members(Values(plain.nodes, c), g, s) + (if c == Enter || c == Exit then Members(taken, g, s) else 0.0)
    {
      if c == Enter || c == Exit {
        MembersPlus(Values(plain.nodes, c), taken, Values(shifted.nodes, c), g, s);
      } else {
        assert Values(plain.nodes, c) == Values(shifted.nodes, c);
      }
    }
    forall j | 0 <= j < |g| ensures SelfTeleports(plain.nodes)[j] == SelfTeleports(shifted.nodes)[j] {
      TeleportedSame(plain.nodes[j], shifted.nodes[j]);
    }
    assert SelfTeleports(plain.nodes) == SelfTeleports(shifted.nodes);
    var d, e := MemberData(shifted.nodes, g, s), MemberData(plain.nodes, g, s);
    assert d.Get(Flow) == e.Get(Flow) && d.Get(Teleport) == e.Get(Teleport) && d.Get(Source) == e.Get(Source)
        && d.Get(Weight) == e.Get(Weight) && d.Get(Dangling) == e.Get(Dangling);
    assert d.Get(Enter) == e.Get(Enter) + Members(taken, g, s) && d.Get(Exit) == e.Get(Exit) + Members(taken, g, s);
    TeleportedSame(d, e);
  }

  // ----- Names of modules -----

  lemma {:induction false} InternalTeleportRelabel(net: Network, index: seq<nat>, m: nat, other: seq<nat>, m': nat)
    requires |net.nodes| == |index| == |other|
    requires forall i :: 0 <= i < |index| ==> (index[i] == m <==> other[i] == m')
    ensures MemberData(net.nodes, index, m) == MemberData(net.nodes, other, m')
    ensures InternalTeleport(net, index, m) == InternalTeleport(net, other, m')
  {
    forall w: seq<real> | |w| == |index| ensures Members(w, index, m) == Members(w, other, m') {
      MembersRelabel(w, index, m, other, m');
    }
  }

  lemma {:induction false} LayeredRelabel(net: LayeredNetwork, index: seq<nat>, m: nat, other: seq<nat>, m': nat)
    requires net.Valid() && |net.base.nodes| == |index| == |other|
    requires forall i :: 0 <= i < |index| ==> (index[i] == m <==> other[i] == m')
    ensures LayerInternals(net, index, m) == LayerInternals(net, other, m')
    ensures LayeredModuleData(net, index, m) == LayeredModuleData(net, other, m')
    ensures forall l: nat :: LayerData(net.layers, index, l, m) == LayerData(net.layers, other, l, m')
  {
    hide ModuleData, InternalTeleport, Sum, NodeLayersOk, LayerNodes, MemberData;
    RelabelSame(net.base, index, m, other, m');
    forall l: nat
      ensures LayerData(net.layers, index, l, m) == LayerData(net.layers, other, l, m')
      ensures InternalTeleport(LayerNet(net.layers, l), index, m)
                == InternalTeleport(LayerNet(net.layers, l), other, m')
    {
      InternalTeleportRelabel(LayerNet(net.layers, l), index, m, other, m');
    }
    assert LayerInternals(net, index, m) == LayerInternals(net, other, m');
  }

  lemma {:induction false} NoMemberNoTeleport(net: Network, index: seq<nat>, m: nat)
    requires |net.nodes| == |index| && m !in index
    ensures InternalTeleport(net, index, m) == 0.0
  {
    MembersZero(Values(net.nodes, Teleport), index, m);
    MembersZero(Values(net.nodes, Weight), index, m);
    MembersZero(SelfTeleports(net.nodes), index, m);
    var d := MemberData(net.nodes, index, m);
    assert d.Get(Teleport) == 0.0 && d.Get(Weight) == 0.0;
    assert d.Teleported() == 0.0;
  }

  lemma {:induction false} LayeredModuleDataEmpty(net: LayeredNetwork, index: seq<nat>, m: nat)
    requires net.Valid() && |net.base.nodes| == |index| && m !in index
    ensures LayeredModuleData(net, index, m) == ZERO_FLOW
  {
    hide ModuleData, InternalTeleport, Sum, NodeLayersOk;
    ModuleDataEmpty(net.base, index, m);
    forall l | 0 <= l < net.numLayers ensures LayerInternals(net, index, m)[l] == 0.0 {
      NoMemberNoTeleport(LayerNet(net.layers, l), index, m);
    }
    SumZero(LayerInternals(net, index, m));
  }

  // ----- The layers of a new node -----

  /** List the layers of a module's row, in any order. */
  method CollectLayers(row: map<nat, LayerTeleFlowData>, ghost numLayers: nat) returns (carried: seq<LayerTeleFlowData>)
    requires forall l :: l in row ==> l < numLayers && row[l].layerId == l && row[l].numNodes > 0
    ensures NodeLayersOk(carried, numLayers)
    ensures forall l: nat :: LayerOf(carried, l) == if l in row then row[l] else LayerTeleFlowData(l, 0, 0.0, 0.0)
  {
    carried := [];
    var todo := row.Keys;
    while todo != {}
      invariant todo <= row.Keys
      invariant NodeLayersOk(carried, numLayers)
      invariant forall k :: 0 <= k < |carried| ==> carried[k].layerId in row && carried[k].layerId !in todo
      invariant forall l: nat :: LayerOf(carried, l)
                              == if l in row && l !in todo then row[l] else LayerTeleFlowData(l, 0, 0.0, 0.0)
      decreases todo
    {
      var l :| l in todo;
      todo := todo - {l};
      assert (carried + [row[l]])[..|carried|] == carried;
      carried := carried + [row[l]];
    }
  }

  /** Every new node has, layer by layer, the sums of its module. */
  ghost predicate LayersCollected(collected: seq<seq<LayerTeleFlowData>>, net: LayeredNetwork, q: seq<nat>)
    requires |net.layers| == |q|
  {
    && (forall j :: 0 <= j < |collected| ==> NodeLayersOk(collected[j], net.numLayers))
    && forall j, l: nat :: 0 <= j < |collected| ==> LayerAs(collected[j], l, LayerData(net.layers, q, l, j))
  }

  ghost predicate LayerAs(carried: seq<LayerTeleFlowData>, l: nat, d: FlowData)
  {
    var e := LayerOf(carried, l);
    e.numNodes as real == d.flow && e.teleportFlow == d.teleportFlow && e.teleportWeight == d.teleportWeight
  }

  lemma {:induction false} CollectedAs(net: LayeredNetwork, index: seq<nat>, m: nat, q: seq<nat>, j: nat,
                                       row: map<nat, LayerTeleFlowData>, carried: seq<LayerTeleFlowData>)
    requires net.Valid() && |net.layers| == |index| == |q| && LayerRowIs(row, net.layers, index, m)
    requires forall i :: 0 <= i < |index| ==> (index[i] == m <==> q[i] == j)
    requires forall l: nat :: LayerOf(carried, l) == if l in row then row[l] else LayerTeleFlowData(l, 0, 0.0, 0.0)
    ensures forall l: nat :: LayerAs(carried, l, LayerData(net.layers, q, l, j))
  {
    hide LayerData, NodeLayersOk, Network.Valid, HasLayer, LayerOf;
    LayeredRelabel(net, index, m, q, j);
    forall l: nat ensures LayerAs(carried, l, LayerData(net.layers, q, l, j)) {
      assert HoldsLayer(row, net.layers, index, l, m);
      LayerDataEmpty(net, index, l, m);
    }
  }

  /** What is in the row of a module is fit to be the layers of a node. */
  lemma {:induction false} RowFits(net: LayeredNetwork, index: seq<nat>, m: nat, row: map<nat, LayerTeleFlowData>)
    requires net.Valid() && |net.layers| == |index| && LayerRowIs(row, net.layers, index, m)
    ensures forall l :: l in row ==> l < net.numLayers && row[l].layerId == l && row[l].numNodes > 0
  {
    hide LayerData, Network.Valid;
    forall l | l in row ensures l < net.numLayers && row[l].layerId == l && row[l].numNodes > 0 {
      assert HoldsLayer(row, net.layers, index, l, m);
      LayerDataEmpty(net, index, l, m);
      var i :| 0 <= i < |index| && index[i] == m && HasLayer(net.layers[i], l);
      var k :| 0 <= k < |net.layers[i]| && net.layers[i][k].layerId == l;
    }
  }

  // ----- The small network stands for the large one -----

  /** Every grouping of the small network has the flow data of the same grouping of the large one. */
  ghost predicate LayeredRepresents(net: LayeredNetwork, q: seq<nat>, small: LayeredNetwork)
  {
    && net.Valid() && small.Valid() && |q| == |net.base.nodes| && Onto(q, |small.base.nodes|)
    && forall g: seq<nat>, s: nat :: |g| == |small.base.nodes| ==>
         LayeredModuleData(small, g, s) == LayeredModuleData(net, Compose(q, g), s)
  }

  lemma {:induction false} LayeredRepresentsValid(net: LayeredNetwork, q: seq<nat>, small: LayeredNetwork)
    requires LayeredRepresents(net, q, small)
    ensures net.Valid() && small.Valid() && |q| == |net.base.nodes|
    ensures Onto(q, |small.base.nodes|) && forall i :: 0 <= i < |q| ==> q[i] < |small.base.nodes|
  {
  }

  lemma {:induction false} LayeredRepresentsItself(net: LayeredNetwork)
    requires net.Valid()
    ensures LayeredRepresents(net, Identity(|net.base.nodes|), net)
  {
    hide LayeredModuleData, NodeLayersOk, Network.Valid;
    var q := Identity(|net.base.nodes|);
    forall j | 0 <= j < |net.base.nodes| ensures j in q {
      assert q[j] == j;
    }
    forall g: seq<nat>, s: nat | |g| == |net.base.nodes|
      ensures LayeredModuleData(net, g, s) == LayeredModuleData(net, Compose(q, g), s)
    {
      assert Compose(q, g) == g;
    }
  }

  lemma {:induction false} LayeredRepresentsCompose(net: LayeredNetwork, q: seq<nat>, middle: LayeredNetwork,
                                                    r: seq<nat>, small: LayeredNetwork)
    requires LayeredRepresents(net, q, middle) && LayeredRepresents(middle, r, small)
    ensures LayeredRepresents(net, Compose(q, r), small)
  {
    OntoCompose(q, r, |small.base.nodes|);
    hide Onto, LayeredModuleData, NodeLayersOk, Network.Valid;
    forall g: seq<nat>, s: nat | |g| == |small.base.nodes|
      ensures LayeredModuleData(small, g, s) == LayeredModuleData(net, Compose(Compose(q, r), g), s)
    {
      ComposeAssociates(q, r, g);
      assert LayeredModuleData(small, g, s) == LayeredModuleData(middle, Compose(r, g), s);
    }
  }

  /** Teleportation inside groups of modules, within one layer: inside each module and between them. */
  lemma {:induction false} LayerQuotient(net: LayeredNetwork, q: seq<nat>, small: LayeredNetwork, g: seq<nat>, s: nat,
                                         l: nat)
    requires |net.layers| == |q| && |small.layers| == |g| && LayersCollected(small.layers, net, q)
    requires forall i :: 0 <= i < |q| ==> q[i] < |g|
    ensures InternalTeleport(LayerNet(small.layers, l), g, s)
            + Members(seq(|g|, (j: nat) => InternalTeleport(LayerNet(net.layers, l), q, j)), g, s)
         == InternalTeleport(LayerNet(net.layers, l), Compose(q, g), s)
  {
    hide InternalTeleport, NodeLayersOk, LayerOf;
    forall j | 0 <= j < |g|
      ensures TeleportsAs(LayerNet(small.layers, l).nodes[j], MemberData(LayerNet(net.layers, l).nodes, q, j))
    {
      assert LayerAs(small.layers[j], l, LayerData(net.layers, q, l, j));
    }
    QuotientTeleport(LayerNet(net.layers, l), q, LayerNet(small.layers, l), g, s);
  }

  lemma {:induction false} LayerSums(net: LayeredNetwork, q: seq<nat>, small: LayeredNetwork, g: seq<nat>, s: nat,
                                     xs: seq<seq<real>>)
    requires |net.layers| == |q| && |small.layers| == |g| == |xs| && LayersCollected(small.layers, net, q)
    requires small.numLayers == net.numLayers
    requires forall i :: 0 <= i < |q| ==> q[i] < |g|
    requires forall j :: 0 <= j < |g| ==> |xs[j]| == net.numLayers && xs[j] == LayerInternals(net, q, j)
    ensures Sum(LayerInternals(net, Compose(q, g), s))
         == Sum(LayerInternals(small, g, s)) + Sum(ColumnMembers(xs, net.numLayers, g, s))
  {
    hide InternalTeleport, Sum, NodeLayersOk, LayerOf, LayersCollected;
    var columns := ColumnMembers(xs, net.numLayers, g, s);
    forall l | 0 <= l < net.numLayers
      ensures LayerInternals(net, Compose(q, g), s)[l] == LayerInternals(small, g, s)[l] + columns[l]
    {
      LayerQuotient(net, q, small, g, s, l);
      assert ColumnOf(xs, l) == seq(|g|, (j: nat) => InternalTeleport(LayerNet(net.layers, l), q, j));
    }
    SumPlus(LayerInternals(small, g, s), columns, LayerInternals(net, Compose(q, g), s));
  }

  /** What the layers keep inside the modules, module by module. */
  ghost function TakenByLayers(net: LayeredNetwork, q: seq<nat>, k: nat): (r: seq<real>)
    requires |net.layers| == |q|
    ensures |r| == k
    ensures forall j :: 0 <= j < k ==> r[j] == -Sum(LayerInternals(net, q, j))
  {
    seq(k, (j: nat) => -Sum(LayerInternals(net, q, j)))
  }

  /** Inside groups of modules, the layers keep what they keep inside each module and between them. */
  lemma {:induction false} TakenByGroups(net: LayeredNetwork, q: seq<nat>, small: LayeredNetwork, g: seq<nat>, s: nat)
    requires |net.layers| == |q| && |small.layers| == |g| && LayersCollected(small.layers, net, q)
    requires small.numLayers == net.numLayers && forall i :: 0 <= i < |q| ==> q[i] < |g|
    ensures Members(TakenByLayers(net, q, |g|), g, s)
         == Sum(LayerInternals(small, g, s)) - Sum(LayerInternals(net, Compose(q, g), s))
  {
    hide InternalTeleport, Sum, LayersCollected, LayerInternals;
    var xs := seq(|g|, (j: nat) => LayerInternals(net, q, j));
    var taken, sums := TakenByLayers(net, q, |g|), RowSums(xs);
    forall j | 0 <= j < |g| ensures |xs[j]| == net.numLayers && xs[j] == LayerInternals(net, q, j)
        && taken[j] == -sums[j] {
    }
    MembersNegated(sums, taken, g, s);
    MembersOfRowSums(xs, net.numLayers, g, s);
    LayerSums(net, q, small, g, s, xs);
  }

  /** Consolidation of a layered network is an exact quotient. */
  lemma {:induction false} LayeredQuotient(net: LayeredNetwork, q: seq<nat>, plain: Network, small: LayeredNetwork,
                                           g: seq<nat>, s: nat)
    requires net.Valid() && Represents(net.base, q, plain)
              && |g| == |plain.nodes| == |small.base.nodes| == |small.layers|
    requires small.base.edges == plain.edges && small.base.recordedTeleportation == plain.recordedTeleportation
    requires small.numLayers == net.numLayers && LayersCollected(small.layers, net, q)
    requires forall j :: 0 <= j < |g| ==>
               small.base.nodes[j] == plain.nodes[j].Shift(TakenByLayers(net, q, |g|)[j])
    ensures small.Valid()
    ensures LayeredModuleData(small, g, s) == LayeredModuleData(net, Compose(q, g), s)
  {
    hide ModuleData, Sum, NodeLayersOk, LayerOf, Network.Valid, LayerAs, LayerInternals;
    RepresentsOnto(net.base, q, plain);
    RepresentsAt(net.base, q, plain, g, s);
    ShiftedData(plain, TakenByLayers(net, q, |g|), small.base, g, s);
    TakenByGroups(net, q, small, g, s);
  }

  lemma {:induction false} RepresentsAt(net: Network, q: seq<nat>, small: Network, g: seq<nat>, s: nat)
    requires Represents(net, q, small) && |g| == |small.nodes|
    ensures net.Valid() && small.Valid() && |q| == |net.nodes| && forall i :: 0 <= i < |q| ==> q[i] < |g|
    ensures ModuleData(small, g, s) == ModuleData(net, Compose(q, g), s)
  {
  }

  lemma {:induction false} MembersNegated(xs: seq<real>, ys: seq<real>, index: seq<nat>, m: nat)
    requires |xs| == |ys| == |index| && forall i :: 0 <= i < |xs| ==> ys[i] == -xs[i]
    ensures Members(ys, index, m) == -Members(xs, index, m)
  {
    var zero := seq(|xs|, (i: nat) => 0.0);
    MembersPlus(xs, ys, zero, index, m);
    MembersZero(zero, index, m);
  }

  /** The network a consolidation builds: the data of the listed modules, their layers, and the
      aggregated links. */
  lemma {:induction false} LayeredConsolidated(net: LayeredNetwork, index: seq<nat>, undirected: bool, ids: seq<nat>,
                                               position: seq<nat>,
                                               small: LayeredNetwork)
    requires net.Valid() && net.base.Partition(index) && Numbering(index, ids, position)
    requires |small.layers| == |small.base.nodes| == |ids| && small.numLayers == net.numLayers
    requires small.base.recordedTeleportation == net.base.recordedTeleportation
    requires EdgesOk(ModuleLinks(net.base.edges, index, undirected), |position|)
    requires small.base.edges == Rename(ModuleLinks(net.base.edges, index, undirected), position)
    requires forall j :: 0 <= j < |ids| ==> small.base.nodes[j] == LayeredModuleData(net, index, ids[j])
    requires LayersCollected(small.layers, net, Compose(index, position))
    ensures LayeredRepresents(net, Compose(index, position), small)
  {
    hide ModuleData, Sum, NodeLayersOk, LayersCollected, ModuleLinks, LayerInternals;
    var q, plain := Compose(index, position), Consolidated(net.base, index, undirected, ids, position);
    ConsolidatedRepresents(net.base, index, undirected, ids, position);
    forall j | 0 <= j < |ids| ensures small.base.nodes[j] == plain.nodes[j].Shift(TakenByLayers(net, q, |ids|)[j]) {
      RelabelSame(net.base, index, ids[j], q, j);
      LayeredRelabel(net, index, ids[j], q, j);
    }
    RepresentsOnto(net.base, q, plain);
    LayeredQuotient(net, q, plain, small, Identity(|ids|), 0);
    forall g: seq<nat>, s: nat | |g| == |small.base.nodes|
      ensures LayeredModuleData(small, g, s) == LayeredModuleData(net, Compose(q, g), s)
    {
      LayeredQuotient(net, q, plain, small, g, s);
    }
  }

  lemma {:induction false} RepresentsOnto(net: Network, q: seq<nat>, small: Network)
    requires Represents(net, q, small)
    ensures |q| == |net.nodes| && Onto(q, |small.nodes|)
  {
  }

  // ----- Consequences for the objective -----

  /** The codelength of a grouping of the small network is that of the same grouping of the large one. */
  lemma {:induction false} LayeredCodelengthRepresented(setting: Setting, net: LayeredNetwork, q: seq<nat>,
                                                        small: LayeredNetwork, g: seq<nat>)
    requires LayeredRepresents(net, q, small) && small.base.Partition(g) && setting.code.PLogP(0.0) == 0.0
    requires |small.base.nodes| <= |net.base.nodes|
    ensures Codelength(setting.code, setting.exitNetworkFlow, setting.nodeFlowLog, AllLayeredModuleData(small, g))
         == Codelength(setting.code, setting.exitNetworkFlow, setting.nodeFlowLog,
             AllLayeredModuleData(net, Compose(q, g)))
  {
    hide LayeredModuleData, NodeLayersOk, Codelength;
    var h := Compose(q, g);
    var few, many := AllLayeredModuleData(small, g), AllLayeredModuleData(net, h);
    var ids := Identity(|few|);
    forall m | 0 <= m < |few| ensures m in ids {
      assert ids[m] == m;
    }
    forall m | |few| <= m < |many| ensures many[m] == ZERO_FLOW {
      LayeredModuleDataEmpty(net, h, m);
    }
    CodelengthSelect(setting, many, ids, few);
  }

  /** Starting over on the small network gives the codelength of the partition that was consolidated;
      the modules that are dropped contribute nothing. */
  lemma {:induction false} LayeredConsolidatedCodelength(setting: Setting, net: LayeredNetwork, index: seq<nat>,
                                                         ids: seq<nat>,
                                                         position: seq<nat>, small: LayeredNetwork)
    requires net.Valid() && net.base.Partition(index) && Numbering(index, ids, position)
              && setting.code.PLogP(0.0) == 0.0
    requires small.Valid() && |small.base.nodes| == |ids|
    requires forall j :: 0 <= j < |ids| ==> small.base.nodes[j] == LayeredModuleData(net, index, ids[j])
    ensures Codelength(setting.code, setting.exitNetworkFlow, setting.nodeFlowLog,
              AllLayeredModuleData(small, Identity(|ids|)))
         == Codelength(setting.code, setting.exitNetworkFlow, setting.nodeFlowLog, AllLayeredModuleData(net, index))
  {
    hide LayeredModuleData, NodeLayersOk, Codelength;
    LayeredSingletons(small);
    NumberingPicks(net.base, index, ids, position);
    var all := AllLayeredModuleData(net, index);
    forall m | 0 <= m < |all| && m !in ids ensures all[m] == ZERO_FLOW {
      forall i | 0 <= i < |index| ensures index[i] != m {
        assert ids[position[index[i]]] == index[i];
      }
      LayeredModuleDataEmpty(net, index, m);
    }
    CodelengthSelect(setting, all, ids, small.base.nodes);
  }
}
